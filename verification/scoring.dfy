/** The scoring step of `StudentMission.save` (helper/models.py lines 80-105):
    answers become tags through each question's answer table, the tags are
    counted, `entrepreneurship*` tags set the student's entrepreneurship level
    and every other tag overwrites the points of the skill it names. */
module Scoring {
  import opened Wrappers
  import opened Seqs
  import opened Text
  import opened Model
  import opened Counting

  /** Line 92: tags that set the entrepreneurship level instead of a skill. */
  predicate IsEntrepreneurship(tag: string) {
    StartsWith(tag, "entrepreneurship")
  }

  /** Lines 93-98: the level an `entrepreneurship*` tag selects, by its last character. */
  function Level(tag: string): (r: nat)
    ensures r == 16 <==> EndsWith(tag, "1")
    ensures r == 57 <==> !EndsWith(tag, "1") && EndsWith(tag, "2")
    ensures r == 87 <==> !EndsWith(tag, "1") && !EndsWith(tag, "2")
  {
    if EndsWith(tag, "1") then 16
    else if EndsWith(tag, "2") then 57
    else 87
  }

  function Named(mid: MissionId, text: string): Question -> bool {
    (q: Question) => q.mission == mid && q.text == text
  }

  /** Lines 86-87 for one answer: `mission.questions.get(question=text)`, then
      `append(*question.answers.get(token))`, which needs exactly one tag. */
  function Resolve(cat: Catalog, mid: MissionId, a: Answer): (r: Result<string, Error>)
    ensures r == Err(QuestionNotFound(a.question)) <==>
      forall k :: 0 <= k < |cat.questions| ==> !Named(mid, a.question)(cat.questions[k])
  {
    var found := Where(cat.questions, Named(mid, a.question));
    if |found| == 0 then
      assert forall k :: 0 <= k < |cat.questions| ==> k !in found;
      Err(QuestionNotFound(a.question))
    else if |found| > 1 then
      assert found[0] in found;
      Err(QuestionNotUnique(a.question))
    else
      var table := cat.questions[found[0]].table;
      if a.token !in table then Err(AnswerNotFound(a.question, a.token))
      else if |table[a.token]| != 1 then Err(TagsNotSingleton(a.question, a.token))
      else Ok(table[a.token][0])
  }

  /** An answer resolves exactly when its question text names a single question
      of the mission and the chosen token maps to a single tag, which is the result. */
  lemma ResolveFound(cat: Catalog, mid: MissionId, a: Answer)
    ensures Resolve(cat, mid, a).Ok? <==>
      exists k :: 0 <= k < |cat.questions| && Where(cat.questions, Named(mid, a.question)) == [k] &&
        a.token in cat.questions[k].table && |cat.questions[k].table[a.token]| == 1
    ensures Resolve(cat, mid, a).Ok? ==>
      exists k :: 0 <= k < |cat.questions| && Named(mid, a.question)(cat.questions[k]) &&
        a.token in cat.questions[k].table && cat.questions[k].table[a.token] == [Resolve(cat, mid, a).value]
  {
    var found := Where(cat.questions, Named(mid, a.question));
    if |found| == 1 {
      assert found[0] in found;
    }
  }

  /** Lines 83-87: the tags of all answers in answer order; the first answer
      that does not resolve aborts the save with its error. */
  function CollectTags(cat: Catalog, mid: MissionId, answers: seq<Answer>): (r: Result<seq<string>, Error>)
    ensures r.Ok? <==> forall i :: 0 <= i < |answers| ==> Resolve(cat, mid, answers[i]).Ok?
    ensures r.Ok? ==> |r.value| == |answers|
    ensures r.Ok? ==> forall i :: 0 <= i < |answers| ==> r.value[i] == Resolve(cat, mid, answers[i]).value
    ensures r.Err? ==>
      exists i :: 0 <= i < |answers| && Resolve(cat, mid, answers[i]) == Err(r.error) &&
                  forall j :: 0 <= j < i ==> Resolve(cat, mid, answers[j]).Ok?
  {
    if |answers| == 0 then Ok([])
    else
      match Resolve(cat, mid, answers[0])
      case Err(e) => Err(e)
      case Ok(tag) =>
        match CollectTags(cat, mid, answers[1..])
        case Err(e) =>
          FirstFailureShifts(cat, mid, answers, e);
          Err(e)
        case Ok(tags) =>
          AllResolveShifts(cat, mid, answers, tags);
          Ok([tag] + tags)
  }

  /** When the first answer and all later answers resolve, so do all answers,
      each to its own tag. */
  lemma AllResolveShifts(cat: Catalog, mid: MissionId, answers: seq<Answer>, tags: seq<string>)
    requires |answers| != 0 && Resolve(cat, mid, answers[0]).Ok?
    requires |tags| == |answers[1..]|
    requires forall i :: 0 <= i < |answers[1..]| ==> Resolve(cat, mid, answers[1..][i]).Ok? && tags[i] == Resolve(cat, mid, answers[1..][i]).value
    ensures forall i :: 0 <= i < |answers| ==> Resolve(cat, mid, answers[i]).Ok?
    ensures forall i :: 0 <= i < |answers| ==> ([Resolve(cat, mid, answers[0]).value] + tags)[i] == Resolve(cat, mid, answers[i]).value
  {
    assert forall j :: 1 <= j < |answers| ==> answers[j] == answers[1..][j - 1];
  }

  /** The first failing answer after the first answer, which resolves, is the
      first failing answer overall. */
  lemma FirstFailureShifts(cat: Catalog, mid: MissionId, answers: seq<Answer>, e: Error)
    requires |answers| != 0 && Resolve(cat, mid, answers[0]).Ok?
    requires exists i :: 0 <= i < |answers[1..]| && Resolve(cat, mid, answers[1..][i]) == Err(e) &&
                         forall j :: 0 <= j < i ==> Resolve(cat, mid, answers[1..][j]).Ok?
    ensures exists i :: 0 <= i < |answers| && Resolve(cat, mid, answers[i]) == Err(e) &&
                        forall j :: 0 <= j < i ==> Resolve(cat, mid, answers[j]).Ok?
  {
    var rest := answers[1..];
    var i :| 0 <= i < |rest| && Resolve(cat, mid, rest[i]) == Err(e) &&
             forall j :: 0 <= j < i ==> Resolve(cat, mid, rest[j]).Ok?;
    assert answers[i + 1] == rest[i];
    assert forall j :: 1 <= j < i + 1 ==> answers[j] == rest[j - 1];
  }

  /** A queued skill update: row `row` gets `points`. */
  datatype Job = Job(row: SkillId, points: nat)

  function OwnedSkill(s: StudentId, obj: string): SkillRow -> bool {
    (r: SkillRow) => r.student == s && r.skillObject == obj
  }

  /** `student.skills.get(object=obj)` */
  function SkillsNamed(skills: seq<SkillRow>, s: StudentId, obj: string): (r: seq<nat>) {
    Where(skills, OwnedSkill(s, obj))
  }

  /** Lines 90-103: walk the counter; each non-entrepreneurship tag must name
      exactly one skill row of the student, which is queued with the tag's count. */
  function Queue(skills: seq<SkillRow>, s: StudentId, t: seq<Entry>): (r: Result<seq<Job>, Error>)
    ensures r.Ok? ==> forall j :: 0 <= j < |r.value| ==> r.value[j].row < |skills|
  {
    if |t| == 0 then Ok([])
    else if IsEntrepreneurship(t[0].tag) then Queue(skills, s, t[1..])
    else
      var obj := Upper(t[0].tag);
      var rows := SkillsNamed(skills, s, obj);
      if |rows| == 0 then Err(SkillNotFound(obj))
      else if |rows| > 1 then Err(SkillNotUnique(obj))
      else
        match Queue(skills, s, t[1..])
        case Err(e) => Err(e)
        case Ok(q) => Ok([Job(rows[0], t[0].count)] + q)
  }

  /** The points the first queued job for row `k` carries. */
  function FirstJob(q: seq<Job>, k: SkillId): (r: Option<nat>)
    ensures r.None? <==> forall j :: 0 <= j < |q| ==> q[j].row != k
    ensures forall j :: 0 <= j < |q| && q[j].row == k && (forall i :: 0 <= i < j ==> q[i].row != k) ==>
      r == Some(q[j].points)
  {
    if |q| == 0 then None
    else if q[0].row == k then Some(q[0].points)
    else
      assert forall j :: 1 <= j < |q| ==> q[j] == q[1..][j - 1];
      FirstJob(q[1..], k)
  }

  /** Line 105: `bulk_update(skills, ["points"])`. Only `points` is written, and
      when a row is queued twice Django updates it from the first copy. */
  function Apply(skills: seq<SkillRow>, q: seq<Job>): (r: seq<SkillRow>)
    ensures |r| == |skills|
    ensures forall k :: 0 <= k < |skills| ==> r[k] == skills[k].(points := r[k].points)
    ensures forall k :: 0 <= k < |skills| && (forall j :: 0 <= j < |q| ==> q[j].row != k) ==> r[k] == skills[k]
    ensures forall k, j :: 0 <= k < |skills| && 0 <= j < |q| && q[j].row == k && (forall i :: 0 <= i < j ==> q[i].row != k) ==>
      r[k].points == q[j].points
  {
    seq(|skills|, k requires 0 <= k < |skills| =>
      match FirstJob(q, k)
      case Some(p) => skills[k].(points := p)
      case None => skills[k])
  }

  /** Lines 93-99: the level left by the last `entrepreneurship*` entry of the counter. */
  function LatestLevel(t: seq<Entry>): (r: Option<nat>)
    ensures r.None? <==> forall i :: 0 <= i < |t| ==> !IsEntrepreneurship(t[i].tag)
    ensures r.Some? ==>
      exists i :: 0 <= i < |t| && IsEntrepreneurship(t[i].tag) && r.value == Level(t[i].tag) &&
                  forall j :: i < j < |t| ==> !IsEntrepreneurship(t[j].tag)
  {
    if |t| == 0 then None
    else if IsEntrepreneurship(t[|t| - 1].tag) then Some(Level(t[|t| - 1].tag))
    else
      var front := t[..|t| - 1];
      var r := LatestLevel(front);
      assert forall i :: 0 <= i < |front| ==> front[i] == t[i];
      if r.None? then r
      else
        LatestLevelExtends(t, r.value);
        r
  }

  /** The last entrepreneurship entry of `t` without its last entry is the last
      of `t`, when that entry is not an entrepreneurship tag. */
  lemma LatestLevelExtends(t: seq<Entry>, v: nat)
    requires |t| != 0 && !IsEntrepreneurship(t[|t| - 1].tag)
    requires exists i :: 0 <= i < |t| - 1 && IsEntrepreneurship(t[i].tag) && v == Level(t[i].tag) &&
                         forall j :: i < j < |t| - 1 ==> !IsEntrepreneurship(t[j].tag)
    ensures exists i :: 0 <= i < |t| && IsEntrepreneurship(t[i].tag) && v == Level(t[i].tag) &&
                        forall j :: i < j < |t| ==> !IsEntrepreneurship(t[j].tag)
  {
    var i :| 0 <= i < |t| - 1 && IsEntrepreneurship(t[i].tag) && v == Level(t[i].tag) &&
             forall j :: i < j < |t| - 1 ==> !IsEntrepreneurship(t[j].tag);
  }

  /** What scoring produces: the new skill table and, if any entrepreneurship
      tag occurred, the level it sets. */
  datatype Scored = Scored(skills: seq<SkillRow>, level: Option<nat>)

  /** Lines 83-105 for a record with non-empty answers. */
  function Score(cat: Catalog, mid: MissionId, answers: seq<Answer>, skills: seq<SkillRow>, s: StudentId): (r: Result<Scored, Error>)
    ensures r.Ok? ==> SameShape(skills, r.value.skills)
  {
    match CollectTags(cat, mid, answers)
    case Err(e) => Err(e)
    case Ok(tags) =>
      var t := Tally(tags);
      match Queue(skills, s, t)
      case Err(e) => Err(e)
      case Ok(q) => Ok(Scored(Apply(skills, q), LatestLevel(t)))
  }
}
