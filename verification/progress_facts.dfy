/** Properties of `StudentMission.save` as modelled in `Progress`. */
module ProgressFacts {
  import opened Wrappers
  import opened Seqs
  import opened Text
  import opened Model
  import opened Counting
  import opened Scoring
  import opened ScoringFacts
  import opened Progress

  /** Everything `Finish` does, one table at a time. */
  lemma FinishEffects(p: Policy, cat: Catalog, db: Db, id: RecordId, rec: StudentMission, a: Student, grants: seq<Grant>)
    requires id < |db.records| && rec.student < |db.students|
    requires Finish(p, cat, db, id, rec, a, grants).Ok?
    ensures
      var o := Finish(p, cat, db, id, rec, a, grants).value;
      var s := rec.student;
      var stamped := !HasIncomplete(o.db.records, s);
      var level := if |rec.answers| == 0 then None else Score(cat, rec.mission, rec.answers, db.skills, s).value.level;
      && o.db.records == db.records[id := rec]
      && o.grants == grants
      && (|rec.answers| == 0 ==> o.db.skills == db.skills)
      && (|rec.answers| != 0 ==> Score(cat, rec.mission, rec.answers, db.skills, s).Ok? &&
                                 o.db.skills == Score(cat, rec.mission, rec.answers, db.skills, s).value.skills)
      && |o.db.students| == |db.students|
      && (forall t :: 0 <= t < |db.students| && t != s ==> o.db.students[t] == db.students[t])
      && (p.AsWritten? ==>
            && o.student == WithLevel(a.(completed := a.completed || stamped), level)
            && o.db.students[s] == if stamped then a.(completed := true) else db.students[s])
      && (p.Corrected? ==>
            && o.student == o.db.students[s]
            && o.db.students[s] == WithLevel(db.students[s].(completed := db.students[s].completed || stamped), level))
  {
  }

  /** `Finish` fails exactly when scoring fails, with scoring's error. */
  lemma FinishSucceeds(p: Policy, cat: Catalog, db: Db, id: RecordId, rec: StudentMission, a: Student, grants: seq<Grant>)
    requires id < |db.records| && rec.student < |db.students|
    ensures Finish(p, cat, db, id, rec, a, grants).Ok? <==>
      |rec.answers| == 0 || Score(cat, rec.mission, rec.answers, db.skills, rec.student).Ok?
    ensures Finish(p, cat, db, id, rec, a, grants).Err? ==>
      Finish(p, cat, db, id, rec, a, grants) == Score(cat, rec.mission, rec.answers, db.skills, rec.student).PropagateFailure()
  {
  }

  /** A fresh record (model defaults) is unlocked exactly when its mission is
      mission 1, starts at stage 0 and is incomplete. */
  lemma CreateNewRecord(cat: Catalog, db: Db, mid: MissionId, s: StudentId)
    requires mid < |cat.missions| && s < |db.students|
    ensures Create(cat, db, NewRecord(mid, s)).Ok?
    ensures
      var (db', id) := Create(cat, db, NewRecord(mid, s)).value;
      && (db'.records[id].isUnlocked <==> cat.missions[mid].order == 1)
      && db'.records[id].stage == 0
      && !db'.records[id].isComplete
      && db'.records[id].answers == []
  {
  }

  /** Line 57 and lines 58-59: after an update the stored record's stage is the
      number of answers, and it is complete if it was, or if every question of
      its mission has an answer. All other fields are stored as given. */
  lemma SaveStoresRecord(p: Policy, cat: Catalog, db: Db, id: RecordId, rec: StudentMission)
    requires id < |db.records|
    requires Save(p, cat, db, id, rec).Ok?
    ensures Save(p, cat, db, id, rec).value.db.records[id] ==
      rec.(stage := |rec.answers|, isComplete := rec.isComplete || |rec.answers| == QuestionCount(cat, rec.mission))
  {
    var pending := Complete(p, cat, db, rec).value;
    var staged := rec.(stage := |rec.answers|);
    var stored := if Completes(cat, rec) then staged.(isComplete := true) else staged;
    FinishEffects(p, cat, pending.db, id, stored, pending.student, pending.grants);
  }

  /** The completion step when the record does not complete: nothing happens. */
  lemma CompleteIdle(p: Policy, cat: Catalog, db: Db, rec: StudentMission)
    requires rec.mission < |cat.missions| && rec.student < |db.students|
    requires !Completes(cat, rec)
    ensures Complete(p, cat, db, rec) == Ok(Pending(db, db.students[rec.student], []))
  {
  }

  /** Record `r` belongs to a mission after the mission of order `o`. */
  predicate Later(cat: Catalog, r: StudentMission, o: nat) {
    r.mission < |cat.missions| && cat.missions[r.mission].order > o
  }

  function Credited(cat: Catalog, db: Db, rec: StudentMission): (r: Student)
    requires rec.mission < |cat.missions| && rec.student < |db.students|
  {
    db.students[rec.student].(coins := db.students[rec.student].coins + cat.missions[rec.mission].coins)
  }

  function NextRecords(p: Policy, cat: Catalog, db: Db, rec: StudentMission): (r: seq<RecordId>)
    requires rec.mission < |cat.missions|
  {
    Successors(p, cat, db.records, cat.missions[rec.mission].order, rec.student)
  }

  /** The completion step at the end of the chain: credit, and no successor. */
  lemma CompleteLast(p: Policy, cat: Catalog, db: Db, rec: StudentMission)
    requires rec.mission < |cat.missions| && rec.student < |db.students|
    requires Completes(cat, rec) && |NextRecords(p, cat, db, rec)| == 0
    ensures Complete(p, cat, db, rec) ==
      Ok(Pending(db.(students := db.students[rec.student := Credited(cat, db, rec)]), Credited(cat, db, rec),
                 [Grant(rec.student, cat.missions[rec.mission].coins)]))
  {
  }

  /** The completion step inside the chain: credit, then save the single successor. */
  lemma CompleteChained(p: Policy, cat: Catalog, db: Db, rec: StudentMission)
    requires rec.mission < |cat.missions| && rec.student < |db.students|
    requires Completes(cat, rec) && |NextRecords(p, cat, db, rec)| != 0
    requires Complete(p, cat, db, rec).Ok?
    ensures |NextRecords(p, cat, db, rec)| == 1 && NextRecords(p, cat, db, rec)[0] < |db.records|
    ensures
      var nid := NextRecords(p, cat, db, rec)[0];
      var inner := Save(p, cat, db.(students := db.students[rec.student := Credited(cat, db, rec)]), nid, Unlocked(db.records[nid]));
      && inner.Ok?
      && Complete(p, cat, db, rec) ==
           Ok(Pending(inner.value.db, Credited(cat, db, rec), [Grant(rec.student, cat.missions[rec.mission].coins)] + inner.value.grants))
  {
    var next := NextRecords(p, cat, db, rec);
    assert next[0] in next;
  }

  /** The completion step with a single successor: credit, then save it. */
  lemma CompleteOne(p: Policy, cat: Catalog, db: Db, rec: StudentMission)
    requires rec.mission < |cat.missions| && rec.student < |db.students|
    requires Completes(cat, rec) && |NextRecords(p, cat, db, rec)| == 1
    ensures NextRecords(p, cat, db, rec)[0] < |db.records|
    ensures
      var nid := NextRecords(p, cat, db, rec)[0];
      var inner := Save(p, cat, db.(students := db.students[rec.student := Credited(cat, db, rec)]), nid, Unlocked(db.records[nid]));
      inner.Ok? ==>
        Complete(p, cat, db, rec) ==
          Ok(Pending(inner.value.db, Credited(cat, db, rec), [Grant(rec.student, cat.missions[rec.mission].coins)] + inner.value.grants))
  {
    var next := NextRecords(p, cat, db, rec);
    assert next[0] in next;
  }

  /** Lines 58-62: coins are credited once, on the update that completes the
      record, by exactly the mission's coins; an already complete record earns
      nothing. An update that completes nothing leaves every student's stored
      coins alone, and a completing update whose re-entrant save credits nothing
      more raises the stored coins of its student by the mission's coins. */
  lemma SaveCreditsOnce(p: Policy, cat: Catalog, db: Db, id: RecordId, rec: StudentMission)
    requires id < |db.records|
    requires Save(p, cat, db, id, rec).Ok?
    ensures rec.mission < |cat.missions| && rec.student < |db.students|
    ensures var o := Save(p, cat, db, id, rec).value;
      && (Completes(cat, rec) ==> |o.grants| >= 1 && o.grants[0] == Grant(rec.student, cat.missions[rec.mission].coins))
      && (!Completes(cat, rec) ==> o.grants == [])
      && (rec.isComplete ==> o.grants == [])
      && (p.AsWritten? ==>
            o.student.coins == db.students[rec.student].coins + if Completes(cat, rec) then cat.missions[rec.mission].coins else 0)
    ensures var o := Save(p, cat, db, id, rec).value;
      !Completes(cat, rec) ==> forall t :: 0 <= t < |db.students| ==> o.db.students[t].coins == db.students[t].coins
    ensures var o := Save(p, cat, db, id, rec).value;
      Completes(cat, rec) && |o.grants| == 1 ==>
        o.db.students[rec.student].coins == db.students[rec.student].coins + cat.missions[rec.mission].coins
  {
    SaveGrants(p, cat, db, id, rec);
    if !Completes(cat, rec) {
      SaveIdleKeepsCoins(p, cat, db, id, rec);
    } else if |Save(p, cat, db, id, rec).value.grants| == 1 {
      SaveStoresCredit(p, cat, db, id, rec);
    }
  }

  /** The grant log and the in-memory student's coins after a save. */
  lemma SaveGrants(p: Policy, cat: Catalog, db: Db, id: RecordId, rec: StudentMission)
    requires id < |db.records|
    requires Save(p, cat, db, id, rec).Ok?
    ensures rec.mission < |cat.missions| && rec.student < |db.students|
    ensures var o := Save(p, cat, db, id, rec).value;
      && (Completes(cat, rec) ==> |o.grants| >= 1 && o.grants[0] == Grant(rec.student, cat.missions[rec.mission].coins))
      && (!Completes(cat, rec) ==> o.grants == [])
      && (rec.isComplete ==> o.grants == [])
      && (p.AsWritten? ==>
            o.student.coins == db.students[rec.student].coins + if Completes(cat, rec) then cat.missions[rec.mission].coins else 0)
  {
    SaveIsFinish(p, cat, db, id, rec);
    var pending := Complete(p, cat, db, rec).value;
    if !Completes(cat, rec) {
      CompleteIdle(p, cat, db, rec);
    } else if |NextRecords(p, cat, db, rec)| == 0 {
      CompleteLast(p, cat, db, rec);
    } else {
      CompleteChained(p, cat, db, rec);
    }
    FinishEffects(p, cat, pending.db, id, StoredOf(cat, rec), pending.student, pending.grants);
  }

  /** An update that completes nothing changes no student's stored coins. */
  lemma SaveIdleKeepsCoins(p: Policy, cat: Catalog, db: Db, id: RecordId, rec: StudentMission)
    requires id < |db.records|
    requires Save(p, cat, db, id, rec).Ok?
    requires !Completes(cat, rec)
    ensures forall t :: 0 <= t < |db.students| ==> Save(p, cat, db, id, rec).value.db.students[t].coins == db.students[t].coins
  {
    SaveIsFinish(p, cat, db, id, rec);
    CompleteIdle(p, cat, db, rec);
    FinishEffects(p, cat, db, id, StoredOf(cat, rec), db.students[rec.student], []);
  }

  /** A completing update whose re-entrant save credits nothing stores the
      mission's coins on its student's row, whichever policy is followed. */
  lemma SaveStoresCredit(p: Policy, cat: Catalog, db: Db, id: RecordId, rec: StudentMission)
    requires id < |db.records|
    requires Save(p, cat, db, id, rec).Ok?
    requires Completes(cat, rec) && |Save(p, cat, db, id, rec).value.grants| == 1
    ensures rec.mission < |cat.missions| && rec.student < |db.students|
    ensures Save(p, cat, db, id, rec).value.db.students[rec.student].coins ==
      db.students[rec.student].coins + cat.missions[rec.mission].coins
  {
    SaveIsFinish(p, cat, db, id, rec);
    var pending := Complete(p, cat, db, rec).value;
    if |NextRecords(p, cat, db, rec)| == 0 {
      CompleteLast(p, cat, db, rec);
    } else {
      CompleteChained(p, cat, db, rec);
      var nid := NextRecords(p, cat, db, rec)[0];
      var db1 := db.(students := db.students[rec.student := Credited(cat, db, rec)]);
      var next := Unlocked(db.records[nid]);
      SaveGrants(p, cat, db1, nid, next);
      SaveIdleKeepsCoins(p, cat, db1, nid, next);
      assert pending.db.students[rec.student].coins == Credited(cat, db, rec).coins;
    }
    FinishEffects(p, cat, pending.db, id, StoredOf(cat, rec), pending.student, pending.grants);
  }

  /** Lines 64-69: when no record has the next mission, the completing save
      still credits the coins, and it succeeds unless scoring the answers fails. */
  lemma SaveWithoutSuccessor(p: Policy, cat: Catalog, db: Db, id: RecordId, rec: StudentMission)
    requires id < |db.records| && rec.mission < |cat.missions| && rec.student < |db.students|
    requires Completes(cat, rec) && |NextRecords(p, cat, db, rec)| == 0
    ensures Save(p, cat, db, id, rec).Ok? <==>
      |rec.answers| == 0 || Score(cat, rec.mission, rec.answers, db.skills, rec.student).Ok?
    ensures Save(p, cat, db, id, rec).Ok? ==>
      Save(p, cat, db, id, rec).value.db.students[rec.student].coins ==
        db.students[rec.student].coins + cat.missions[rec.mission].coins
  {
    CompleteLast(p, cat, db, rec);
    var pending := Complete(p, cat, db, rec).value;
    var staged := rec.(stage := |rec.answers|);
    var stored := staged.(isComplete := true);
    assert Save(p, cat, db, id, rec) == Finish(p, cat, pending.db, id, stored, pending.student, pending.grants);
    FinishSucceeds(p, cat, pending.db, id, stored, pending.student, pending.grants);
    if Save(p, cat, db, id, rec).Ok? {
      FinishEffects(p, cat, pending.db, id, stored, pending.student, pending.grants);
    }
  }

  /** Lines 64-72: when the completing save finds exactly one record of the next
      mission, that record ends up unlocked (the caller has not moved the record
      being saved to another mission). */
  lemma SaveUnlocksSuccessor(p: Policy, cat: Catalog, db: Db, id: RecordId, rec: StudentMission)
    requires id < |db.records| && rec.mission < |cat.missions| && rec.student < |db.students|
    requires db.records[id].mission == rec.mission
    requires Completes(cat, rec) && |NextRecords(p, cat, db, rec)| != 0
    requires Save(p, cat, db, id, rec).Ok?
    ensures |NextRecords(p, cat, db, rec)| == 1
    ensures Save(p, cat, db, id, rec).value.db.records[NextRecords(p, cat, db, rec)[0]].isUnlocked
  {
    CompleteChained(p, cat, db, rec);
    var next := NextRecords(p, cat, db, rec);
    var nid := next[0];
    assert nid in next;
    assert nid != id;
    var db1 := db.(students := db.students[rec.student := Credited(cat, db, rec)]);
    SaveStoresRecord(p, cat, db1, nid, Unlocked(db.records[nid]));
    var pending := Complete(p, cat, db, rec).value;
    var stored := rec.(stage := |rec.answers|, isComplete := true);
    FinishEffects(p, cat, pending.db, id, stored, pending.student, pending.grants);
  }

  /** Lines 74-78: once the record is stored, the student is stamped complete
      when none of their records, this one included, is incomplete. The stored
      stamp is set exactly when it already was or no incomplete record remains,
      under either policy. As written, the in-memory student is stamped exactly
      then too. */
  lemma SaveStampsCompletion(p: Policy, cat: Catalog, db: Db, id: RecordId, rec: StudentMission)
    requires id < |db.records|
    requires Save(p, cat, db, id, rec).Ok?
    ensures rec.student < |db.students|
    ensures var o := Save(p, cat, db, id, rec).value;
      && (!HasIncomplete(o.db.records, rec.student) ==> o.db.students[rec.student].completed)
      && (o.db.students[rec.student].completed <==>
            db.students[rec.student].completed || !HasIncomplete(o.db.records, rec.student))
      && (p.AsWritten? ==>
            (o.student.completed <==> db.students[rec.student].completed || !HasIncomplete(o.db.records, rec.student)))
      && (p.AsWritten? && !rec.isComplete && |rec.answers| != QuestionCount(cat, rec.mission) ==>
            o.student.completed == db.students[rec.student].completed)
  {
    SaveIsFinish(p, cat, db, id, rec);
    var pending := Complete(p, cat, db, rec).value;
    var stored := StoredOf(cat, rec);
    assert pending.student.completed == db.students[rec.student].completed by {
      if !Completes(cat, rec) {
        CompleteIdle(p, cat, db, rec);
      } else if |NextRecords(p, cat, db, rec)| == 0 {
        CompleteLast(p, cat, db, rec);
      } else {
        CompleteChained(p, cat, db, rec);
      }
    }
    FinishEffects(p, cat, pending.db, id, stored, pending.student, pending.grants);
    StampStored(p, cat, db, id, rec);
    var o := Save(p, cat, db, id, rec).value;
    if p.AsWritten? && !rec.isComplete && |rec.answers| != QuestionCount(cat, rec.mission) {
      assert o.db.records[id] == stored;
      assert HasIncomplete(o.db.records, rec.student);
    }
  }

  /** How a save may move the completion stamps of `db` to those of `db'`: a
      stamp is never cleared, and while a student still has an incomplete
      record their stamp stays as it was. */
  predicate StampOk(db: Db, db': Db) {
    && |db'.students| == |db.students|
    && forall t :: 0 <= t < |db.students| ==>
         && (db.students[t].completed ==> db'.students[t].completed)
         && (HasIncomplete(db'.records, t) ==> db'.students[t].completed == db.students[t].completed)
  }

  /** Lines 74-78: storing the record and stamping keeps `StampOk`. */
  lemma FinishStamp(p: Policy, cat: Catalog, db: Db, id: RecordId, rec: StudentMission, a: Student, grants: seq<Grant>)
    requires id < |db.records| && rec.student < |db.students|
    requires Finish(p, cat, db, id, rec, a, grants).Ok?
    ensures StampOk(db, Finish(p, cat, db, id, rec, a, grants).value.db)
    ensures Finish(p, cat, db, id, rec, a, grants).value.db.records == db.records[id := rec]
  {
    FinishEffects(p, cat, db, id, rec, a, grants);
  }

  /** Two steps that keep `StampOk`, the second storing a complete record at
      `id`, keep it together: an incomplete record after the second step was
      already incomplete after the first. */
  lemma StampChainStep(db: Db, mid: Db, last: Db, id: RecordId, stored: StudentMission)
    requires StampOk(db, mid) && StampOk(mid, last)
    requires id < |mid.records| && stored.isComplete
    requires last.records == mid.records[id := stored]
    ensures StampOk(db, last)
  {
    forall t | 0 <= t < |db.students| && HasIncomplete(last.records, t)
      ensures last.students[t].completed == db.students[t].completed
    {
      var k :| 0 <= k < |last.records| && last.records[k].student == t && !last.records[k].isComplete;
      assert k != id;
      assert mid.records[k] == last.records[k];
    }
  }

  /** Every save, with the whole chain of re-entrant saves, keeps `StampOk`. */
  lemma {:induction false} StampStored(p: Policy, cat: Catalog, db: Db, id: RecordId, rec: StudentMission)
    requires id < |db.records|
    requires Save(p, cat, db, id, rec).Ok?
    ensures StampOk(db, Save(p, cat, db, id, rec).value.db)
    decreases Rank(cat, rec.mission)
  {
    SaveIsFinish(p, cat, db, id, rec);
    var pending := Complete(p, cat, db, rec).value;
    var stored := StoredOf(cat, rec);
    FinishStamp(p, cat, pending.db, id, stored, pending.student, pending.grants);
    if !Completes(cat, rec) {
      CompleteIdle(p, cat, db, rec);
    } else {
      var db1 := db.(students := db.students[rec.student := Credited(cat, db, rec)]);
      assert StampOk(db, db1);
      if |NextRecords(p, cat, db, rec)| == 0 {
        CompleteLast(p, cat, db, rec);
        StampChainStep(db, db1, Save(p, cat, db, id, rec).value.db, id, stored);
      } else {
        CompleteChained(p, cat, db, rec);
        var nid := NextRecords(p, cat, db, rec)[0];
        assert nid in NextRecords(p, cat, db, rec);
        RankDecreases(cat, rec.mission, db.records[nid].mission);
        StampStored(p, cat, db1, nid, Unlocked(db.records[nid]));
        StampKeepsOver(db, db1, pending.db);
        StampChainStep(db, pending.db, Save(p, cat, db, id, rec).value.db, id, stored);
      }
    }
  }

  /** A step that changes no stamp, followed by one that keeps `StampOk`. */
  lemma StampKeepsOver(db: Db, db1: Db, db2: Db)
    requires |db1.students| == |db.students|
    requires forall t :: 0 <= t < |db.students| ==> db1.students[t].completed == db.students[t].completed
    requires StampOk(db1, db2)
    ensures StampOk(db, db2)
  {
  }

  /** The record as an update stores it (lines 57-59). */
  function StoredOf(cat: Catalog, rec: StudentMission): (r: StudentMission) {
    rec.(stage := |rec.answers|, isComplete := rec.isComplete || |rec.answers| == QuestionCount(cat, rec.mission))
  }

  /** A successful save is the completion step followed by `Finish`. */
  lemma SaveIsFinish(p: Policy, cat: Catalog, db: Db, id: RecordId, rec: StudentMission)
    requires id < |db.records|
    requires Save(p, cat, db, id, rec).Ok?
    ensures rec.mission < |cat.missions| && rec.student < |db.students|
    ensures Complete(p, cat, db, rec).Ok?
    ensures var pending := Complete(p, cat, db, rec).value;
      && Conforms(db, pending.db)
      && Save(p, cat, db, id, rec) == Finish(p, cat, pending.db, id, StoredOf(cat, rec), pending.student, pending.grants)
  {
  }

  /** A save whose completion step succeeds is that step followed by `Finish`. */
  lemma SaveUnfolds(p: Policy, cat: Catalog, db: Db, id: RecordId, rec: StudentMission)
    requires id < |db.records| && rec.mission < |cat.missions| && rec.student < |db.students|
    requires Complete(p, cat, db, rec).Ok?
    ensures var pending := Complete(p, cat, db, rec).value;
      Save(p, cat, db, id, rec) == Finish(p, cat, pending.db, id, StoredOf(cat, rec), pending.student, pending.grants)
  {
  }

  /** The tables a save leaves differ from its input only in records of later
      missions (touched by the re-entrant saves) and in the record saved. */
  lemma {:induction false} SaveFrame(p: Policy, cat: Catalog, db: Db, id: RecordId, rec: StudentMission)
    requires id < |db.records| && rec.mission < |cat.missions|
    requires Save(p, cat, db, id, rec).Ok?
    ensures forall k :: 0 <= k < |db.records| && k != id && !Later(cat, db.records[k], cat.missions[rec.mission].order) ==>
      Save(p, cat, db, id, rec).value.db.records[k] == db.records[k]
    decreases Rank(cat, rec.mission)
  {
    SaveIsFinish(p, cat, db, id, rec);
    var pending := Complete(p, cat, db, rec).value;
    FinishEffects(p, cat, pending.db, id, StoredOf(cat, rec), pending.student, pending.grants);
    if !Completes(cat, rec) {
      CompleteIdle(p, cat, db, rec);
    } else if |NextRecords(p, cat, db, rec)| == 0 {
      CompleteLast(p, cat, db, rec);
    } else {
      CompleteChained(p, cat, db, rec);
      var next := NextRecords(p, cat, db, rec);
      var nid := next[0];
      assert nid in next;
      var db1 := db.(students := db.students[rec.student := Credited(cat, db, rec)]);
      RankDecreases(cat, rec.mission, db.records[nid].mission);
      SaveFrame(p, cat, db1, nid, Unlocked(db.records[nid]));
    }
  }

  /** A save that does not re-enter (`save` at line 72 is not reached) changes
      nothing outside the saved record, its own student and that student's skills. */
  lemma SaveFrameNoChain(p: Policy, cat: Catalog, db: Db, id: RecordId, rec: StudentMission)
    requires id < |db.records| && rec.mission < |cat.missions|
    requires !(Completes(cat, rec) && |NextRecords(p, cat, db, rec)| != 0)
    requires Save(p, cat, db, id, rec).Ok?
    ensures var o := Save(p, cat, db, id, rec).value;
      && o.db.records == db.records[id := StoredOf(cat, rec)]
      && (forall t :: 0 <= t < |db.students| && t != rec.student ==> o.db.students[t] == db.students[t])
      && (forall k :: 0 <= k < |db.skills| && db.skills[k].student != rec.student ==> o.db.skills[k] == db.skills[k])
  {
    SaveIsFinish(p, cat, db, id, rec);
    var pending := Complete(p, cat, db, rec).value;
    FinishEffects(p, cat, pending.db, id, StoredOf(cat, rec), pending.student, pending.grants);
    if !Completes(cat, rec) {
      CompleteIdle(p, cat, db, rec);
    } else {
      CompleteLast(p, cat, db, rec);
    }
    if |rec.answers| != 0 {
      ScoreSkills(cat, rec.mission, rec.answers, db.skills, rec.student);
    }
  }

  /** Lines 80-81: a record without answers scores nothing: no skill points and
      no entrepreneurship level change (when no re-entrant save runs). */
  lemma SaveEmptyAnswers(p: Policy, cat: Catalog, db: Db, id: RecordId, rec: StudentMission)
    requires id < |db.records| && rec.mission < |cat.missions|
    requires |rec.answers| == 0
    requires !(Completes(cat, rec) && |NextRecords(p, cat, db, rec)| != 0)
    requires Save(p, cat, db, id, rec).Ok?
    ensures rec.student < |db.students|
    ensures var o := Save(p, cat, db, id, rec).value;
      && o.db.skills == db.skills
      && o.db.students[rec.student].entrepreneurship == db.students[rec.student].entrepreneurship
      && o.student.entrepreneurship == db.students[rec.student].entrepreneurship
  {
    SaveIsFinish(p, cat, db, id, rec);
    var pending := Complete(p, cat, db, rec).value;
    FinishEffects(p, cat, pending.db, id, StoredOf(cat, rec), pending.student, pending.grants);
    if !Completes(cat, rec) {
      CompleteIdle(p, cat, db, rec);
    } else {
      CompleteLast(p, cat, db, rec);
    }
  }

  /** Lines 83-105 inside a save: the answers score against the student's skill
      rows. Each row of the student addressed by a tag ends up with the frequency
      of the first tag addressing it, whatever it held before. */
  lemma SaveScoresAnswers(p: Policy, cat: Catalog, db: Db, id: RecordId, rec: StudentMission)
    requires id < |db.records|
    requires |rec.answers| != 0
    requires Save(p, cat, db, id, rec).Ok?
    ensures rec.student < |db.students|
    ensures Score(cat, rec.mission, rec.answers, db.skills, rec.student).Ok?
    ensures
      var o := Save(p, cat, db, id, rec).value;
      var tags := CollectTags(cat, rec.mission, rec.answers).value;
      && |o.db.skills| == |db.skills|
      && (forall k :: 0 <= k < |db.skills| && db.skills[k].student == rec.student &&
                      First(tags, SkillTag(db.skills[k].skillObject)).Some? ==>
            o.db.skills[k].points == multiset(tags)[First(tags, SkillTag(db.skills[k].skillObject)).value])
  {
    SaveIsFinish(p, cat, db, id, rec);
    var pending := Complete(p, cat, db, rec).value;
    FinishEffects(p, cat, pending.db, id, StoredOf(cat, rec), pending.student, pending.grants);
    var skills := pending.db.skills;
    assert Save(p, cat, db, id, rec).value.db.skills == Score(cat, rec.mission, rec.answers, skills, rec.student).value.skills;
    ScoreSkills(cat, rec.mission, rec.answers, skills, rec.student);
    ScoreShapeOnly(cat, rec.mission, rec.answers, db.skills, skills, rec.student);
  }

  /** Lines 92-99 inside a save: the level of the last `entrepreneurship*` tag
      lands on the in-memory student (as written) or on the stored student (corrected). */
  lemma SaveSetsLevel(p: Policy, cat: Catalog, db: Db, id: RecordId, rec: StudentMission)
    requires id < |db.records|
    requires |rec.answers| != 0
    requires Save(p, cat, db, id, rec).Ok?
    ensures rec.student < |db.students|
    ensures Score(cat, rec.mission, rec.answers, db.skills, rec.student).Ok?
    ensures
      var o := Save(p, cat, db, id, rec).value;
      var level := Score(cat, rec.mission, rec.answers, db.skills, rec.student).value.level;
      && (level.Some? && p.AsWritten? ==> o.student.entrepreneurship == level.value)
      && (level.Some? && p.Corrected? ==> o.db.students[rec.student].entrepreneurship == level.value)
  {
    SaveIsFinish(p, cat, db, id, rec);
    var pending := Complete(p, cat, db, rec).value;
    FinishEffects(p, cat, pending.db, id, StoredOf(cat, rec), pending.student, pending.grants);
    ScoreShapeOnly(cat, rec.mission, rec.answers, db.skills, pending.db.skills, rec.student);
  }

  /** Lines 86-87 and 101: a save fails when an answer does not resolve to a
      single tag, or a skill tag names no skill row of the student (or several). */
  lemma SaveFails(p: Policy, cat: Catalog, db: Db, id: RecordId, rec: StudentMission)
    requires id < |db.records| && rec.student < |db.students|
    requires
      || (exists i :: 0 <= i < |rec.answers| && Resolve(cat, rec.mission, rec.answers[i]).Err?)
      || (CollectTags(cat, rec.mission, rec.answers).Ok? &&
          exists v :: v in CollectTags(cat, rec.mission, rec.answers).value && !IsEntrepreneurship(v) &&
                      |SkillsNamed(db.skills, rec.student, Upper(v))| != 1)
    ensures Save(p, cat, db, id, rec).Err?
  {
    ScoreFails(cat, rec.mission, rec.answers, db.skills, rec.student);
    if Save(p, cat, db, id, rec).Ok? {
      if |rec.answers| != 0 {
        SaveScoresAnswers(p, cat, db, id, rec);
      }
    }
  }

  /** A save that does not complete the record is just `Finish`. */
  lemma SaveIdle(p: Policy, cat: Catalog, db: Db, id: RecordId, rec: StudentMission)
    requires id < |db.records| && rec.mission < |cat.missions| && rec.student < |db.students|
    requires !Completes(cat, rec)
    ensures Save(p, cat, db, id, rec) == Finish(p, cat, db, id, StoredOf(cat, rec), db.students[rec.student], [])
  {
    CompleteIdle(p, cat, db, rec);
  }

  /** Saving the same answers again, as an update that completes nothing (the
      record is already complete, or the answers still leave questions open),
      succeeds and leaves every skill point as the first save left it: points
      are overwritten with counts, never added to. */
  lemma SaveResaveKeepsPoints(p: Policy, cat: Catalog, db: Db, id: RecordId, rec: StudentMission, again: StudentMission)
    requires id < |db.records|
    requires Save(p, cat, db, id, rec).Ok?
    requires again.mission == rec.mission && again.student == rec.student && again.answers == rec.answers
    requires !Completes(cat, again)
    ensures Save(p, cat, Save(p, cat, db, id, rec).value.db, id, again).Ok?
    ensures Save(p, cat, Save(p, cat, db, id, rec).value.db, id, again).value.db.skills ==
            Save(p, cat, db, id, rec).value.db.skills
  {
    var o := Save(p, cat, db, id, rec).value;
    SaveIsFinish(p, cat, db, id, rec);
    var pending := Complete(p, cat, db, rec).value;
    FinishEffects(p, cat, pending.db, id, StoredOf(cat, rec), pending.student, pending.grants);
    var s := rec.student;
    var mid := rec.mission;
    SaveIdle(p, cat, o.db, id, again);
    var second := Finish(p, cat, o.db, id, StoredOf(cat, again), o.db.students[s], []);
    FinishSucceeds(p, cat, o.db, id, StoredOf(cat, again), o.db.students[s], []);
    if |rec.answers| != 0 {
      ScoreIdempotent(cat, mid, rec.answers, pending.db.skills, s);
      assert Score(cat, mid, rec.answers, o.db.skills, s) == Score(cat, mid, rec.answers, pending.db.skills, s);
    }
    assert second.Ok?;
    FinishEffects(p, cat, o.db, id, StoredOf(cat, again), o.db.students[s], []);
  }
}
