/** `StudentMission.save` (helper/models.py lines 51-105) as a pure transition
    over the tables. A save either creates a record (lines 52-55) or updates one
    (lines 57-105); an update that completes a mission re-enters `save` on the
    record of the next mission (line 72). */
module Progress {
  import opened Wrappers
  import opened Seqs
  import opened Model
  import opened Scoring

  /** `AsWritten` follows the source line by line. `Corrected` is the evident
      intent: the next mission's record is looked up among the same student's
      records, the completion stamp is written to the student's current row
      instead of a stale copy, and the entrepreneurship level is stored. */
  datatype Policy = AsWritten | Corrected

  /** Lines 52-55: a new record is unlocked when its mission is the first one;
      nothing else is derived, so `stage` keeps the value it was built with. */
  function Create(cat: Catalog, db: Db, rec: StudentMission): (r: Result<(Db, RecordId), Error>)
    ensures r.Ok? <==> rec.mission < |cat.missions| && rec.student < |db.students|
    ensures r.Ok? ==>
      var (db', id) := r.value;
      && id == |db.records|
      && |db'.records| == id + 1
      && db'.records[..id] == db.records
      && db'.students == db.students && db'.skills == db.skills
    ensures r.Ok? ==>
      var (db', id) := r.value;
      var stored := db'.records[id];
      && (stored.isUnlocked <==> rec.isUnlocked || cat.missions[rec.mission].order == 1)
      && stored.(isUnlocked := rec.isUnlocked) == rec
  {
    if rec.mission >= |cat.missions| then Err(MissionMissing)
    else if rec.student >= |db.students| then Err(StudentMissing)
    else
      var stored := if cat.missions[rec.mission].order == 1 then rec.(isUnlocked := true) else rec;
      Ok((db.(records := db.records + [stored]), |db.records|))
  }

  function Beyond(o: nat): Mission -> bool {
    (m: Mission) => m.order > o
  }

  /** The number of missions that come after mission `mid`: the measure that the
      chain of re-entrant saves consumes. */
  function Rank(cat: Catalog, mid: MissionId): (r: nat) {
    if mid < |cat.missions| then |Where(cat.missions, Beyond(cat.missions[mid].order))| else 0
  }

  /** The next mission has fewer missions after it. */
  lemma RankDecreases(cat: Catalog, mid: MissionId, next: MissionId)
    requires mid < |cat.missions| && next < |cat.missions|
    requires cat.missions[next].order == cat.missions[mid].order + 1
    ensures Rank(cat, next) < Rank(cat, mid)
  {
    var o := cat.missions[mid].order;
    WhereNarrows(cat.missions, Beyond(o + 1), Beyond(o), next);
  }

  function NextOf(p: Policy, cat: Catalog, o: nat, s: StudentId): StudentMission -> bool {
    (r: StudentMission) =>
      r.mission < |cat.missions| && cat.missions[r.mission].order == o + 1 && (p.AsWritten? || r.student == s)
  }

  /** Lines 65-67: `StudentMission.objects.get(mission__order=order + 1)`; the
      corrected lookup also filters on the student. */
  function Successors(p: Policy, cat: Catalog, records: seq<StudentMission>, o: nat, s: StudentId): (r: seq<RecordId>) {
    Where(records, NextOf(p, cat, o, s))
  }

  /** Line 58: the update that completes a mission. */
  predicate Completes(cat: Catalog, rec: StudentMission) {
    |rec.answers| == QuestionCount(cat, rec.mission) && !rec.isComplete
  }

  /** Line 71: the next record as loaded, with its lock lifted. */
  function Unlocked(loaded: StudentMission): (r: StudentMission) {
    loaded.(isUnlocked := true)
  }

  function WithLevel(a: Student, level: Option<nat>): (r: Student) {
    match level
    case Some(v) => a.(entrepreneurship := v)
    case None => a
  }

  /** The student object the record holds after the save: as written, the copy
      loaded at the start; corrected, the student's row as stored. */
  function Held(p: Policy, db: Db, s: StudentId, a: Student): (r: Student)
    requires s < |db.students|
  {
    if p.AsWritten? then a else db.students[s]
  }

  /** Lines 74-105, run once the completion step (if any) is done: store the
      record, stamp the student when none of their records is incomplete, and
      score the answers. `a` is the in-memory student object. */
  function Finish(p: Policy, cat: Catalog, db: Db, id: RecordId, rec: StudentMission, a: Student, grants: seq<Grant>): (r: Result<Saved, Error>)
    requires id < |db.records| && rec.student < |db.students|
    ensures r.Ok? ==> Conforms(db, r.value.db)
  {
    var s := rec.student;
    var db1 := db.(records := db.records[id := rec]);
    var stamped := !HasIncomplete(db1.records, s);
    var a1 := if stamped then a.(completed := true) else a;
    var db2 :=
      if !stamped then db1
      else if p.AsWritten? then db1.(students := db1.students[s := a1])
      else db1.(students := db1.students[s := db1.students[s].(completed := true)]);
    if |rec.answers| == 0 then Ok(Saved(db2, Held(p, db2, s, a1), grants))
    else
      match Score(cat, rec.mission, rec.answers, db2.skills, s)
      case Err(e) => Err(e)
      case Ok(sc) =>
        var db3 := db2.(skills := sc.skills);
        var db4 :=
          if p.AsWritten? then db3
          else db3.(students := db3.students[s := WithLevel(db3.students[s], sc.level)]);
        Ok(Saved(db4, Held(p, db4, s, WithLevel(a1, sc.level)), grants))
  }

  /** The state the completion step hands on: the tables, the in-memory student
      and the coin credits made so far. */
  datatype Pending = Pending(db: Db, student: Student, grants: seq<Grant>)

  /** Lines 58-72, the completion step. A record whose answers cover every
      question of its mission and that was not complete credits the mission's
      coins to its student and unlocks the record of the next mission, which
      is saved in turn. The student is read once, here, as the in-memory object. */
  function Complete(p: Policy, cat: Catalog, db: Db, rec: StudentMission): (r: Result<Pending, Error>)
    requires rec.mission < |cat.missions| && rec.student < |db.students|
    ensures r.Ok? ==> Conforms(db, r.value.db)
    decreases Rank(cat, rec.mission), 0
  {
    var s := rec.student;
    var m := cat.missions[rec.mission];
    if !Completes(cat, rec) then Ok(Pending(db, db.students[s], []))
    else
      var a := db.students[s].(coins := db.students[s].coins + m.coins);
      var db1 := db.(students := db.students[s := a]);
      var next := Successors(p, cat, db1.records, m.order, s);
      if |next| == 0 then Ok(Pending(db1, a, [Grant(s, m.coins)]))
      else if |next| > 1 then Err(SuccessorNotUnique)
      else
        var nid := next[0];
        assert nid in next;
        RankDecreases(cat, rec.mission, db1.records[nid].mission);
        match Save(p, cat, db1, nid, Unlocked(db1.records[nid]))
        case Err(e) => Err(e)
        case Ok(inner) => Ok(Pending(inner.db, a, [Grant(s, m.coins)] + inner.grants))
  }

  /** Lines 57-105: an update of the stored record `id` to the in-memory value `rec`. */
  function Save(p: Policy, cat: Catalog, db: Db, id: RecordId, rec: StudentMission): (r: Result<Saved, Error>)
    requires id < |db.records|
    ensures r.Ok? ==> Conforms(db, r.value.db)
    decreases Rank(cat, rec.mission), 1
  {
    if rec.mission >= |cat.missions| then Err(MissionMissing)
    else if rec.student >= |db.students| then Err(StudentMissing)
    else
      var staged := rec.(stage := |rec.answers|);
      var stored := if Completes(cat, rec) then staged.(isComplete := true) else staged;
      match Complete(p, cat, db, rec)
      case Err(e) => Err(e)
      case Ok(pending) => Finish(p, cat, pending.db, id, stored, pending.student, pending.grants)
  }
}
