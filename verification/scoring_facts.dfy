/** What the scoring step promises, stated against the raw list of tags rather
    than against the counter and the update queue that compute it. */
module ScoringFacts {
  import opened Wrappers
  import opened Seqs
  import opened Text
  import opened Model
  import opened Counting
  import opened Scoring

  /** Tags that address the skill object `obj`. */
  function SkillTag(obj: string): string -> bool {
    (v: string) => !IsEntrepreneurship(v) && Upper(v) == obj
  }

  /** The count of the first counter entry addressing `obj`. */
  function Wanted(t: seq<Entry>, obj: string): (r: Option<nat>) {
    if |t| == 0 then None
    else if SkillTag(obj)(t[0].tag) then Some(t[0].count)
    else Wanted(t[1..], obj)
  }

  /** The queue holds, for each skill row of the student, the count of the first
      counter entry naming that row's object, and nothing for other rows. */
  lemma {:induction false} QueueFirstJob(skills: seq<SkillRow>, s: StudentId, t: seq<Entry>)
    requires Queue(skills, s, t).Ok?
    ensures forall k :: 0 <= k < |skills| ==>
      FirstJob(Queue(skills, s, t).value, k) ==
        (if skills[k].student == s then Wanted(t, skills[k].skillObject) else None)
  {
    if |t| != 0 {
      QueueFirstJob(skills, s, t[1..]);
      if !IsEntrepreneurship(t[0].tag) {
        var obj := Upper(t[0].tag);
        var rows := SkillsNamed(skills, s, obj);
        assert rows[0] in rows;
        forall k | 0 <= k < |skills| && skills[k].student == s && skills[k].skillObject == obj
          ensures k == rows[0]
        {
          WhereSingle(skills, OwnedSkill(s, obj), k);
        }
      }
    }
  }

  /** Against a counter whose counts are multiplicities in `tags`, the wanted
      count is the multiplicity of the first tag (in counter order) addressing `obj`. */
  lemma {:induction false} WantedIsFrequency(t: seq<Entry>, tags: seq<string>, obj: string)
    requires forall i :: 0 <= i < |t| ==> t[i].count == multiset(tags)[t[i].tag]
    ensures Wanted(t, obj) ==
      match First(Tags(t), SkillTag(obj))
      case None => None
      case Some(v) => Some(multiset(tags)[v])
  {
    if |t| != 0 {
      assert Tags(t)[0] == t[0].tag;
      assert Tags(t)[1..] == Tags(t[1..]);
      WantedIsFrequency(t[1..], tags, obj);
    }
  }

  /** Lines 89-105: after scoring, the student's skill row for object `o` holds the
      frequency of the first tag that upper-cases to `o`; every other row is as before. */
  lemma ScoreSkills(cat: Catalog, mid: MissionId, answers: seq<Answer>, skills: seq<SkillRow>, s: StudentId)
    requires Score(cat, mid, answers, skills, s).Ok?
    ensures
      var tags := CollectTags(cat, mid, answers).value;
      var after := Score(cat, mid, answers, skills, s).value.skills;
      |after| == |skills| &&
      forall k :: 0 <= k < |skills| ==>
        after[k] ==
          (if skills[k].student == s && First(tags, SkillTag(skills[k].skillObject)).Some?
           then skills[k].(points := multiset(tags)[First(tags, SkillTag(skills[k].skillObject)).value])
           else skills[k])
  {
    var tags := CollectTags(cat, mid, answers).value;
    var t := Tally(tags);
    QueueFirstJob(skills, s, t);
    forall k | 0 <= k < |skills|
      ensures Wanted(t, skills[k].skillObject) ==
        match First(tags, SkillTag(skills[k].skillObject))
        case None => None
        case Some(v) => Some(multiset(tags)[v])
    {
      WantedIsFrequency(t, tags, skills[k].skillObject);
      FirstOfDistinct(tags, SkillTag(skills[k].skillObject));
    }
  }

  /** The usual case of line 102: a tag that is the only spelling of its skill
      object sets that skill's points to the tag's frequency, overwriting them. */
  lemma ScoreSetsFrequency(cat: Catalog, mid: MissionId, answers: seq<Answer>, skills: seq<SkillRow>, s: StudentId, v: string, k: SkillId)
    requires Score(cat, mid, answers, skills, s).Ok?
    requires v in CollectTags(cat, mid, answers).value && !IsEntrepreneurship(v)
    requires forall w :: w in CollectTags(cat, mid, answers).value && SkillTag(Upper(v))(w) ==> w == v
    requires k < |skills| && skills[k].student == s && skills[k].skillObject == Upper(v)
    ensures Score(cat, mid, answers, skills, s).value.skills[k].points == multiset(CollectTags(cat, mid, answers).value)[v]
  {
    ScoreSkills(cat, mid, answers, skills, s);
  }

  /** Skills that no tag addresses, and other students' skills, are untouched. */
  lemma ScoreLeavesOthers(cat: Catalog, mid: MissionId, answers: seq<Answer>, skills: seq<SkillRow>, s: StudentId, k: SkillId)
    requires Score(cat, mid, answers, skills, s).Ok?
    requires k < |skills|
    requires skills[k].student != s ||
             forall w :: w in CollectTags(cat, mid, answers).value ==> !SkillTag(skills[k].skillObject)(w)
    ensures Score(cat, mid, answers, skills, s).value.skills[k] == skills[k]
  {
    ScoreSkills(cat, mid, answers, skills, s);
  }

  /** Reading a counter entry by entry is reading the distinct tags. */
  lemma EntriesAreDistinct(tags: seq<string>)
    ensures |Tally(tags)| == |Distinct(tags)|
    ensures forall i :: 0 <= i < |Tally(tags)| ==> Tally(tags)[i].tag == Distinct(tags)[i]
  {
    var t := Tally(tags);
    assert Tags(t) == Distinct(tags);
    assert forall i :: 0 <= i < |t| ==> t[i].tag == Tags(t)[i];
  }

  lemma LevelOfEntries(t: seq<Entry>, d: seq<string>)
    requires |t| == |d| && forall i :: 0 <= i < |t| ==> t[i].tag == d[i]
    ensures LatestLevel(t).None? <==> forall v :: v in d ==> !IsEntrepreneurship(v)
    ensures LatestLevel(t).Some? ==>
      exists i :: 0 <= i < |d| && IsEntrepreneurship(d[i]) && LatestLevel(t).value == Level(d[i]) &&
                  forall j :: i < j < |d| ==> !IsEntrepreneurship(d[j])
  {
  }

  /** Lines 92-99: the level is set exactly when an `entrepreneurship*` tag occurs,
      and it is the level of the last such tag in order of first occurrence. */
  lemma ScoreLevel(cat: Catalog, mid: MissionId, answers: seq<Answer>, skills: seq<SkillRow>, s: StudentId)
    requires Score(cat, mid, answers, skills, s).Ok?
    ensures Score(cat, mid, answers, skills, s).value.level.None? <==>
      forall v :: v in CollectTags(cat, mid, answers).value ==> !IsEntrepreneurship(v)
    ensures Score(cat, mid, answers, skills, s).value.level.Some? ==>
      var d := Distinct(CollectTags(cat, mid, answers).value);
      exists i :: 0 <= i < |d| && IsEntrepreneurship(d[i]) &&
                  Score(cat, mid, answers, skills, s).value.level.value == Level(d[i]) &&
                  forall j :: i < j < |d| ==> !IsEntrepreneurship(d[j])
  {
    var tags := CollectTags(cat, mid, answers).value;
    assert Score(cat, mid, answers, skills, s).value.level == LatestLevel(Tally(tags));
    EntriesAreDistinct(tags);
    LevelOfEntries(Tally(tags), Distinct(tags));
  }

  /** A tag level: a tag ending in "1" gives 16 (`entrepreneurship1`, but also
      `entrepreneurship_11`), one ending in "2" gives 57, any other gives 87. */
  lemma LevelValues(tag: string)
    requires IsEntrepreneurship(tag)
    ensures EndsWith(tag, "1") ==> Level(tag) == 16
    ensures !EndsWith(tag, "1") && EndsWith(tag, "2") ==> Level(tag) == 57
    ensures Level(tag) == 87 <==> !EndsWith(tag, "1") && !EndsWith(tag, "2")
    ensures Level(tag) in {16, 57, 87}
    ensures tag == "entrepreneurship1" ==> Level(tag) == 16
    ensures tag == "entrepreneurship_11" ==> Level(tag) == 16
    ensures tag == "entrepreneurship2" ==> Level(tag) == 57
    ensures tag == "entrepreneurship3" ==> Level(tag) == 87
  {
  }

  /** The queue fails exactly when some counter entry addresses no skill row of
      the student, or more than one. */
  lemma {:induction false} QueueFails(skills: seq<SkillRow>, s: StudentId, t: seq<Entry>)
    ensures Queue(skills, s, t).Err? <==>
      exists i :: 0 <= i < |t| && !IsEntrepreneurship(t[i].tag) && |SkillsNamed(skills, s, Upper(t[i].tag))| != 1
  {
    if |t| != 0 {
      QueueFails(skills, s, t[1..]);
      assert forall i :: 1 <= i < |t| ==> t[i] == t[1..][i - 1];
    }
  }

  lemma QueueFailsOnTags(skills: seq<SkillRow>, s: StudentId, tags: seq<string>)
    ensures Queue(skills, s, Tally(tags)).Err? <==>
      exists v :: v in tags && !IsEntrepreneurship(v) && |SkillsNamed(skills, s, Upper(v))| != 1
  {
    var t := Tally(tags);
    var d := Distinct(tags);
    QueueFails(skills, s, t);
    EntriesAreDistinct(tags);
    if exists v :: v in tags && !IsEntrepreneurship(v) && |SkillsNamed(skills, s, Upper(v))| != 1 {
      var v :| v in tags && !IsEntrepreneurship(v) && |SkillsNamed(skills, s, Upper(v))| != 1;
      assert v in d;
      var i :| 0 <= i < |d| && d[i] == v;
      assert t[i].tag == v;
    }
  }

  /** Lines 86-87 and 101: scoring fails exactly when an answer does not resolve
      to a single tag, or a skill tag does not name exactly one of the student's skills. */
  lemma ScoreFails(cat: Catalog, mid: MissionId, answers: seq<Answer>, skills: seq<SkillRow>, s: StudentId)
    ensures Score(cat, mid, answers, skills, s).Err? <==>
      || (exists i :: 0 <= i < |answers| && Resolve(cat, mid, answers[i]).Err?)
      || (CollectTags(cat, mid, answers).Ok? &&
          exists v :: v in CollectTags(cat, mid, answers).value && !IsEntrepreneurship(v) &&
                      |SkillsNamed(skills, s, Upper(v))| != 1)
  {
    var collected := CollectTags(cat, mid, answers);
    if collected.Ok? {
      assert Score(cat, mid, answers, skills, s).Err? == Queue(skills, s, Tally(collected.value)).Err?;
      QueueFailsOnTags(skills, s, collected.value);
    }
  }

  /** Which rows `get` finds depends only on the rows' owners and objects. */
  lemma {:induction false} QueueShapeOnly(a: seq<SkillRow>, b: seq<SkillRow>, s: StudentId, t: seq<Entry>)
    requires SameShape(a, b)
    ensures Queue(a, s, t) == Queue(b, s, t)
  {
    if |t| != 0 {
      QueueShapeOnly(a, b, s, t[1..]);
      var obj := Upper(t[0].tag);
      WhereCongruent(a, OwnedSkill(s, obj), b, OwnedSkill(s, obj));
    }
  }

  /** Re-scoring the same answers on the table scoring produced changes nothing:
      points are overwritten, never accumulated. */
  lemma ScoreIdempotent(cat: Catalog, mid: MissionId, answers: seq<Answer>, skills: seq<SkillRow>, s: StudentId)
    requires Score(cat, mid, answers, skills, s).Ok?
    ensures Score(cat, mid, answers, Score(cat, mid, answers, skills, s).value.skills, s) ==
            Score(cat, mid, answers, skills, s)
  {
    var tags := CollectTags(cat, mid, answers).value;
    var t := Tally(tags);
    var q := Queue(skills, s, t).value;
    var once := Apply(skills, q);
    QueueShapeOnly(skills, once, s, t);
    assert Apply(once, q) == once;
  }

  /** Whether scoring succeeds, and the level it sets, do not depend on the points
      the skill rows held. */
  lemma ScoreShapeOnly(cat: Catalog, mid: MissionId, answers: seq<Answer>, a: seq<SkillRow>, b: seq<SkillRow>, s: StudentId)
    requires SameShape(a, b)
    ensures Score(cat, mid, answers, a, s).Ok? <==> Score(cat, mid, answers, b, s).Ok?
    ensures Score(cat, mid, answers, a, s).Ok? ==>
      Score(cat, mid, answers, a, s).value.level == Score(cat, mid, answers, b, s).value.level
  {
    if CollectTags(cat, mid, answers).Ok? {
      QueueShapeOnly(a, b, s, Tally(CollectTags(cat, mid, answers).value));
    }
  }

  /** Scoring raises only lookup errors of its own: questions, answers and skills. */
  lemma {:induction false} QueueErrorKind(skills: seq<SkillRow>, s: StudentId, t: seq<Entry>)
    requires Queue(skills, s, t).Err?
    ensures Queue(skills, s, t).error.SkillNotFound? || Queue(skills, s, t).error.SkillNotUnique?
  {
    if |t| != 0 && Queue(skills, s, t[1..]).Err? {
      QueueErrorKind(skills, s, t[1..]);
    }
  }

  lemma ScoreErrorKind(cat: Catalog, mid: MissionId, answers: seq<Answer>, skills: seq<SkillRow>, s: StudentId)
    requires Score(cat, mid, answers, skills, s).Err?
    ensures !Score(cat, mid, answers, skills, s).error.SuccessorNotUnique?
    ensures !Score(cat, mid, answers, skills, s).error.MissionMissing?
    ensures !Score(cat, mid, answers, skills, s).error.StudentMissing?
  {
    if CollectTags(cat, mid, answers).Ok? {
      QueueErrorKind(skills, s, Tally(CollectTags(cat, mid, answers).value));
    }
  }
}
