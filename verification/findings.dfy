/** Three places where `StudentMission.save` (helper/models.py) does not do what
    its surroundings evidently intend. For each, a lemma about the code as
    written exhibits the discrepancy and a lemma about the corrected save proves
    the intended property. */
module Findings {
  import opened Wrappers
  import opened Seqs
  import opened Model
  import opened Counting
  import opened Scoring
  import opened ScoringFacts
  import opened Progress
  import opened ProgressFacts

  /** `Mission.order` is declared unique (line 10). */
  predicate UniqueOrders(cat: Catalog) {
    forall i, j :: 0 <= i < j < |cat.missions| ==> cat.missions[i].order != cat.missions[j].order
  }

  /** At most one record per student and mission, as the sign-up flow creates them. */
  predicate OneRecordEach(records: seq<StudentMission>) {
    forall i, j :: 0 <= i < j < |records| ==> records[i].student != records[j].student || records[i].mission != records[j].mission
  }

  // ---- Finding 1: the next mission's record is looked up among all students (lines 65-67).

  /** As written: as soon as two records (of any students) exist for the next
      mission, every save that completes a mission raises `MultipleObjectsReturned`. */
  lemma SuccessorAcrossStudents(cat: Catalog, db: Db, id: RecordId, rec: StudentMission, k1: RecordId, k2: RecordId)
    requires id < |db.records| && rec.mission < |cat.missions| && rec.student < |db.students|
    requires Completes(cat, rec)
    requires k1 < |db.records| && k2 < |db.records| && k1 != k2
    requires db.records[k1].mission < |cat.missions| && cat.missions[db.records[k1].mission].order == cat.missions[rec.mission].order + 1
    requires db.records[k2].mission < |cat.missions| && cat.missions[db.records[k2].mission].order == cat.missions[rec.mission].order + 1
    ensures Save(AsWritten, cat, db, id, rec) == Err(SuccessorNotUnique)
  {
    var o := cat.missions[rec.mission].order;
    WhereTwo(db.records, NextOf(AsWritten, cat, o, rec.student), k1, k2);
  }

  /** The smallest instance: two students, each with a record for missions 1 and
      2; student 0 answers the only question of mission 1. */
  lemma TwoStudentsCannotComplete()
    ensures
      var cat := Catalog([Mission(10, 1), Mission(5, 2)], [Question(0, "q", 1, map["a" := ["social"]])]);
      var db := Db(
        [NewRecord(0, 0).(isUnlocked := true), NewRecord(1, 0), NewRecord(0, 1).(isUnlocked := true), NewRecord(1, 1)],
        [Student(0, 0, false), Student(0, 0, false)],
        [SkillRow(0, "SOCIAL", 0), SkillRow(1, "SOCIAL", 0)]);
      Save(AsWritten, cat, db, 0, db.records[0].(answers := [Answer("q", "a")])) == Err(SuccessorNotUnique)
  {
    var cat := Catalog([Mission(10, 1), Mission(5, 2)], [Question(0, "q", 1, map["a" := ["social"]])]);
    var db := Db(
      [NewRecord(0, 0).(isUnlocked := true), NewRecord(1, 0), NewRecord(0, 1).(isUnlocked := true), NewRecord(1, 1)],
      [Student(0, 0, false), Student(0, 0, false)],
      [SkillRow(0, "SOCIAL", 0), SkillRow(1, "SOCIAL", 0)]);
    var rec := db.records[0].(answers := [Answer("q", "a")]);
    assert Where(cat.questions, OfMission(0)) == [0];
    SuccessorAcrossStudents(cat, db, 0, rec, 1, 3);
  }

  /** Corrected: a student has at most one record for the next mission. */
  lemma SuccessorsPerStudent(cat: Catalog, records: seq<StudentMission>, o: nat, s: StudentId)
    requires UniqueOrders(cat) && OneRecordEach(records)
    ensures |Successors(Corrected, cat, records, o, s)| <= 1
  {
    var passes := NextOf(Corrected, cat, o, s);
    forall i, j | 0 <= i < |records| && 0 <= j < |records| && passes(records[i]) && passes(records[j])
      ensures i == j
    {
      assert records[i].mission == records[j].mission;
    }
    WhereAtMostOne(records, passes);
  }

  /** Corrected: with the lookup restricted to the student's own records, a
      save never fails with `SuccessorNotUnique` (the successor lookup's
      `MultipleObjectsReturned`), given unique mission orders and one record
      per student and mission. The question and skill lookups at lines 86 and
      101 can still raise it, as `QuestionNotUnique` and `SkillNotUnique`. */
  lemma {:induction false} SuccessorPerStudent(cat: Catalog, db: Db, id: RecordId, rec: StudentMission)
    requires id < |db.records|
    requires UniqueOrders(cat) && OneRecordEach(db.records)
    ensures Save(Corrected, cat, db, id, rec) != Err(SuccessorNotUnique)
    decreases Rank(cat, rec.mission)
  {
    if rec.mission < |cat.missions| && rec.student < |db.students| {
      var s := rec.student;
      match Complete(Corrected, cat, db, rec)
      case Err(e) =>
        var next := NextRecords(Corrected, cat, db, rec);
        assert Completes(cat, rec) && |next| != 0;
        SuccessorsPerStudent(cat, db.records, cat.missions[rec.mission].order, s);
        var nid := next[0];
        assert nid in next;
        var db1 := db.(students := db.students[s := Credited(cat, db, rec)]);
        RankDecreases(cat, rec.mission, db.records[nid].mission);
        SuccessorPerStudent(cat, db1, nid, Unlocked(db.records[nid]));
      case Ok(pending) =>
        var stored := StoredOf(cat, rec);
        if Finish(Corrected, cat, pending.db, id, stored, pending.student, pending.grants).Err? {
          FinishSucceeds(Corrected, cat, pending.db, id, stored, pending.student, pending.grants);
          ScoreErrorKind(cat, rec.mission, rec.answers, pending.db.skills, s);
        }
    }
  }

  // ---- Finding 2: the completion stamp writes back a stale student (lines 76-78).

  /** Two missions worth 10 and 5 coins; only the first has a question, whose
      answer "a" carries the tag `entrepreneurship1`. */
  const ExampleCatalog := Catalog([Mission(10, 1), Mission(5, 2)], [Question(0, "q", 1, map["a" := ["entrepreneurship1"]])])

  /** One student with no coins and a fresh record for each mission; the first is unlocked. */
  const ExampleDb := Db([NewRecord(0, 0).(isUnlocked := true), NewRecord(1, 0)], [Student(0, 0, false)], [])

  /** The student answers the question of the first mission. */
  const ExampleUpdate := ExampleDb.records[0].(answers := [Answer("q", "a")])

  /** The state of the example right after the first mission's coins are credited. */
  const ExampleCredited := ExampleDb.(students := [Student(10, 0, false)])

  /** The re-entrant save of the example's second record: it has no questions,
      so it completes at once and credits 5 more coins. */
  lemma ExampleNestedSave()
    ensures Save(AsWritten, ExampleCatalog, ExampleCredited, 1, Unlocked(ExampleDb.records[1])) ==
      Ok(Saved(ExampleCredited.(records := ExampleCredited.records[1 := StoredOf(ExampleCatalog, Unlocked(ExampleDb.records[1]))],
                                students := [Student(15, 0, false)]),
               Student(15, 0, false), [Grant(0, 5)]))
  {
    var cat, db1 := ExampleCatalog, ExampleCredited;
    var nested := Unlocked(ExampleDb.records[1]);
    var again := Student(15, 0, false);
    assert Where(cat.questions, OfMission(1)) == [];
    WhereNone(db1.records, NextOf(AsWritten, cat, 2, 0));
    assert Completes(cat, nested);
    assert NextRecords(AsWritten, cat, db1, nested) == [];
    assert Credited(cat, db1, nested) == again;
    CompleteLast(AsWritten, cat, db1, nested);
    assert db1.students[0 := again] == [again];
    var pending1 := Pending(db1.(students := [again]), again, [Grant(0, 5)]);
    assert Complete(AsWritten, cat, db1, nested) == Ok(pending1);
    assert HasIncomplete(db1.records[1 := StoredOf(cat, nested)], 0) by {
      assert !db1.records[1 := StoredOf(cat, nested)][0].isComplete;
    }
  }

  /** Scoring the example's answer: no skill row is touched and the level is 16. */
  lemma ExampleScore()
    ensures Score(ExampleCatalog, 0, ExampleUpdate.answers, [], 0) == Ok(Scored([], Some(16)))
  {
    var t := [Entry("entrepreneurship1", 1)];
    ExampleTags();
    assert Tally(["entrepreneurship1"]) == t;
    assert IsEntrepreneurship(t[0].tag);
    assert Queue([], 0, t) == Ok([]);
    assert LatestLevel(t) == Some(16);
  }

  /** The example's answer resolves to the single tag `entrepreneurship1`. */
  lemma ExampleTags()
    ensures CollectTags(ExampleCatalog, 0, ExampleUpdate.answers) == Ok(["entrepreneurship1"])
  {
    var cat, answers := ExampleCatalog, ExampleUpdate.answers;
    assert Where(cat.questions, Named(0, "q")) == [0];
    assert cat.questions[0].table["a"] == ["entrepreneurship1"];
    assert Resolve(cat, 0, answers[0]) == Ok("entrepreneurship1");
    var tags := CollectTags(cat, 0, answers).value;
    assert |tags| == 1 && tags[0] == "entrepreneurship1";
    assert tags == ["entrepreneurship1"];
  }

  /** The completion step of the example's save: it credits 10 coins to its
      in-memory student and hands on the tables left by the nested save. */
  lemma ExampleComplete()
    ensures
      Complete(AsWritten, ExampleCatalog, ExampleDb, ExampleUpdate) ==
        Ok(Pending(ExampleInnerDb, Student(10, 0, false), [Grant(0, 10)] + [Grant(0, 5)]))
  {
    var cat, db, rec := ExampleCatalog, ExampleDb, ExampleUpdate;
    ExampleNestedSave();
    assert Where(cat.questions, OfMission(0)) == [0];
    WhereOnly(db.records, NextOf(AsWritten, cat, 1, 0), 1);
    assert Completes(cat, rec);
    assert NextRecords(AsWritten, cat, db, rec) == [1];
    assert Credited(cat, db, rec) == Student(10, 0, false);
    assert db.(students := db.students[0 := Student(10, 0, false)]) == ExampleCredited;
    CompleteOne(AsWritten, cat, db, rec);
  }

  /** The tables the example's completion step hands on. */
  const ExampleInnerDb := ExampleCredited.(records := ExampleCredited.records[1 := StoredOf(ExampleCatalog, Unlocked(ExampleDb.records[1]))],
                                           students := [Student(15, 0, false)])

  /** The last part of the example's save: every record of the student is now
      complete, so the stale student (10 coins) is written back. */
  lemma ExampleFinish(grants: seq<Grant>)
    ensures
      var f := Finish(AsWritten, ExampleCatalog, ExampleInnerDb, 0, StoredOf(ExampleCatalog, ExampleUpdate), Student(10, 0, false), grants);
      && f.Ok?
      && f.value.grants == grants
      && f.value.db.students[0] == Student(10, 0, true)
      && f.value.student.entrepreneurship == 16
  {
    var cat, rec, innerDb, credited := ExampleCatalog, ExampleUpdate, ExampleInnerDb, Student(10, 0, false);
    ExampleScore();
    FinishSucceeds(AsWritten, cat, innerDb, 0, StoredOf(cat, rec), credited, grants);
    FinishEffects(AsWritten, cat, innerDb, 0, StoredOf(cat, rec), credited, grants);
    var o := Finish(AsWritten, cat, innerDb, 0, StoredOf(cat, rec), credited, grants).value;
    assert o.db.records == [StoredOf(cat, rec), StoredOf(cat, Unlocked(ExampleDb.records[1]))];
    assert !HasIncomplete(o.db.records, 0);
  }

  /** As written: the example's save completes both missions and grants 15
      coins, but the outer save then stamps the student from its copy loaded
      before the nested credit, and the student ends with 10 coins. The same
      save shows finding 3: the level 16 reaches only the in-memory student. */
  lemma CoinsLostAsWritten()
    ensures
      var r := Save(AsWritten, ExampleCatalog, ExampleDb, 0, ExampleUpdate);
      && r.Ok?
      && Granted(r.value.grants, 0) == 15
      && r.value.db.students[0].coins == 10
      && r.value.student.entrepreneurship == 16
      && r.value.db.students[0].entrepreneurship == 0
  {
    var grants := [Grant(0, 10)] + [Grant(0, 5)];
    var f := Finish(AsWritten, ExampleCatalog, ExampleInnerDb, 0, StoredOf(ExampleCatalog, ExampleUpdate), Student(10, 0, false), grants);
    assert Save(AsWritten, ExampleCatalog, ExampleDb, 0, ExampleUpdate) == f by {
      ExampleComplete();
      SaveUnfolds(AsWritten, ExampleCatalog, ExampleDb, 0, ExampleUpdate);
    }
    ExampleFinish(grants);
    ExampleGranted();
  }

  /** The example's two credits add up to 15 coins for its student. */
  lemma ExampleGranted()
    ensures Granted([Grant(0, 10)] + [Grant(0, 5)], 0) == 15
  {
    GrantedAppend([Grant(0, 10)], [Grant(0, 5)], 0);
    assert [Grant(0, 10)][1..] == [] && [Grant(0, 5)][1..] == [];
  }

  /** Corrected: every credit reaches the database, so each student's coins grow
      by exactly the coins granted to them, across the whole chain of saves. */
  lemma {:induction false} CoinsConserved(cat: Catalog, db: Db, id: RecordId, rec: StudentMission)
    requires id < |db.records|
    requires Save(Corrected, cat, db, id, rec).Ok?
    ensures var o := Save(Corrected, cat, db, id, rec).value;
      forall t :: 0 <= t < |db.students| ==> o.db.students[t].coins == db.students[t].coins + Granted(o.grants, t)
    decreases Rank(cat, rec.mission)
  {
    SaveIsFinish(Corrected, cat, db, id, rec);
    var pending := Complete(Corrected, cat, db, rec).value;
    FinishEffects(Corrected, cat, pending.db, id, StoredOf(cat, rec), pending.student, pending.grants);
    var s := rec.student;
    var c := cat.missions[rec.mission].coins;
    if !Completes(cat, rec) {
      CompleteIdle(Corrected, cat, db, rec);
    } else if |NextRecords(Corrected, cat, db, rec)| == 0 {
      CompleteLast(Corrected, cat, db, rec);
      forall t | 0 <= t < |db.students| ensures Granted([Grant(s, c)], t) == if t == s then c else 0 {
        assert [Grant(s, c)][1..] == [];
      }
    } else {
      CompleteChained(Corrected, cat, db, rec);
      var nid := NextRecords(Corrected, cat, db, rec)[0];
      var db1 := db.(students := db.students[s := Credited(cat, db, rec)]);
      RankDecreases(cat, rec.mission, db.records[nid].mission);
      CoinsConserved(cat, db1, nid, Unlocked(db.records[nid]));
      var inner := Save(Corrected, cat, db1, nid, Unlocked(db.records[nid])).value;
      forall t | 0 <= t < |db.students|
        ensures Granted([Grant(s, c)] + inner.grants, t) == (if t == s then c else 0) + Granted(inner.grants, t)
      {
        GrantedAppend([Grant(s, c)], inner.grants, t);
        assert [Grant(s, c)][1..] == [];
      }
    }
  }

  // ---- Finding 3: the entrepreneurship level is never stored (lines 94-98).

  /** `db'` holds the same entrepreneurship level for every student as `db`. */
  predicate SameLevels(db: Db, db': Db) {
    |db'.students| == |db.students| &&
    forall t :: 0 <= t < |db.students| ==> db'.students[t].entrepreneurship == db.students[t].entrepreneurship
  }

  /** As written: no save ever changes a stored entrepreneurship level. */
  lemma {:induction false} EntrepreneurshipNeverStored(cat: Catalog, db: Db, id: RecordId, rec: StudentMission)
    requires id < |db.records|
    requires Save(AsWritten, cat, db, id, rec).Ok?
    ensures SameLevels(db, Save(AsWritten, cat, db, id, rec).value.db)
    decreases Rank(cat, rec.mission)
  {
    SaveIsFinish(AsWritten, cat, db, id, rec);
    var pending := Complete(AsWritten, cat, db, rec).value;
    var s := rec.student;
    assert SameLevels(db, pending.db) && pending.student.entrepreneurship == db.students[s].entrepreneurship by {
      if !Completes(cat, rec) {
        CompleteIdle(AsWritten, cat, db, rec);
      } else if |NextRecords(AsWritten, cat, db, rec)| == 0 {
        CompleteLast(AsWritten, cat, db, rec);
      } else {
        CompleteChained(AsWritten, cat, db, rec);
        var nid := NextRecords(AsWritten, cat, db, rec)[0];
        var db1 := db.(students := db.students[s := Credited(cat, db, rec)]);
        RankDecreases(cat, rec.mission, db.records[nid].mission);
        EntrepreneurshipNeverStored(cat, db1, nid, Unlocked(db.records[nid]));
      }
    }
    FinishEffects(AsWritten, cat, pending.db, id, StoredOf(cat, rec), pending.student, pending.grants);
  }

  /** As written: the level the answers select reaches the in-memory student
      object only; whatever it is, the stored level stays what it was. */
  lemma EntrepreneurshipOnlyInMemory(cat: Catalog, db: Db, id: RecordId, rec: StudentMission)
    requires id < |db.records|
    requires |rec.answers| != 0
    requires Save(AsWritten, cat, db, id, rec).Ok?
    ensures rec.student < |db.students| && Score(cat, rec.mission, rec.answers, db.skills, rec.student).Ok?
    ensures
      var o := Save(AsWritten, cat, db, id, rec).value;
      var level := Score(cat, rec.mission, rec.answers, db.skills, rec.student).value.level;
      && (level.Some? ==> o.student.entrepreneurship == level.value)
      && o.db.students[rec.student].entrepreneurship == db.students[rec.student].entrepreneurship
  {
    SaveSetsLevel(AsWritten, cat, db, id, rec);
    EntrepreneurshipNeverStored(cat, db, id, rec);
  }

  /** Corrected: the stored level is the level of the last `entrepreneurship*` tag
      in order of first occurrence. */
  lemma EntrepreneurshipStored(cat: Catalog, db: Db, id: RecordId, rec: StudentMission)
    requires id < |db.records|
    requires |rec.answers| != 0
    requires Save(Corrected, cat, db, id, rec).Ok?
    ensures rec.student < |db.students| && CollectTags(cat, rec.mission, rec.answers).Ok?
    ensures
      var o := Save(Corrected, cat, db, id, rec).value;
      var d := Distinct(CollectTags(cat, rec.mission, rec.answers).value);
      (exists v :: v in d && IsEntrepreneurship(v)) ==>
        exists i :: 0 <= i < |d| && IsEntrepreneurship(d[i]) && o.db.students[rec.student].entrepreneurship == Level(d[i]) &&
                    forall j :: i < j < |d| ==> !IsEntrepreneurship(d[j])
  {
    SaveSetsLevel(Corrected, cat, db, id, rec);
    ScoreLevel(cat, rec.mission, rec.answers, db.skills, rec.student);
  }
}
