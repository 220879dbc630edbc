/** The entities of the mission subsystem (helper/models.py) and the slice of the
    student profile it reads and writes. Every table is a sequence whose
    positions are primary keys; a foreign key is such a position. */
module Model {
  import opened Seqs

  type MissionId = nat
  type StudentId = nat
  type RecordId = nat
  type SkillId = nat

  /** `Mission`: a reward in coins and a position in the sequence of missions. */
  datatype Mission = Mission(coins: nat, order: nat)

  /** `MissionQuestion`: its `answers` table maps an answer token to the list
      of scoring tags that token contributes. */
  datatype Question = Question(mission: MissionId, text: string, order: nat, table: map<string, seq<string>>)

  /** The reference data, written by administrators and only read here. */
  datatype Catalog = Catalog(missions: seq<Mission>, questions: seq<Question>)

  datatype Reaction = NoReaction | Fire | Heart | Five | Sad

  /** One entry of a record's `answers` dictionary: question text to answer token. */
  datatype Answer = Answer(question: string, token: string)

  /** `StudentMission`: one student's progress on one mission. `answers` lists the
      dictionary's entries in iteration order. */
  datatype StudentMission = StudentMission(
    mission: MissionId,
    student: StudentId,
    stage: nat,
    answers: seq<Answer>,
    reaction: Reaction,
    isComplete: bool,
    isUnlocked: bool)

  /** The student fields the engine touches; `completed` stands for a non-null `completed_at`. */
  datatype Student = Student(coins: nat, entrepreneurship: nat, completed: bool)

  /** `StudentSkill`: points of one skill object for one student. */
  datatype SkillRow = SkillRow(student: StudentId, skillObject: string, points: nat)

  /** The mutable tables. */
  datatype Db = Db(records: seq<StudentMission>, students: seq<Student>, skills: seq<SkillRow>)

  /** The exceptions a save can raise. */
  datatype Error =
    | MissionMissing                               // the record's mission row does not exist
    | StudentMissing                               // the record's student row does not exist
    | SuccessorNotUnique                           // `get` of the next mission's record found several rows
    | QuestionNotFound(text: string)               // `questions.get` found no question with this text
    | QuestionNotUnique(text: string)              // `questions.get` found several
    | AnswerNotFound(text: string, token: string)  // `append(*None)`
    | TagsNotSingleton(text: string, token: string) // `append(*tags)` with other than one tag
    | SkillNotFound(skillObject: string)                // `skills.get` found no row
    | SkillNotUnique(skillObject: string)               // `skills.get` found several rows

  /** A coin credit made by a save (line 61), kept so that totals can be compared. */
  datatype Grant = Grant(student: StudentId, coins: nat)

  /** A successful save: the tables afterwards, the in-memory student object the
      record holds, and the coin credits made, in order. */
  datatype Saved = Saved(db: Db, student: Student, grants: seq<Grant>)

  /** A record as the model constructor builds it, with the field defaults. */
  function NewRecord(mission: MissionId, student: StudentId): (r: StudentMission) {
    StudentMission(mission, student, 0, [], NoReaction, false, false)
  }

  function OfMission(mid: MissionId): Question -> bool {
    (q: Question) => q.mission == mid
  }

  /** `mission.questions.count()` */
  function QuestionCount(cat: Catalog, mid: MissionId): (r: nat) {
    |Where(cat.questions, OfMission(mid))|
  }

  /** Two skill tables with the same rows, whatever their points. */
  predicate SameShape(a: seq<SkillRow>, b: seq<SkillRow>) {
    |a| == |b| && forall k :: 0 <= k < |a| ==> a[k].student == b[k].student && a[k].skillObject == b[k].skillObject
  }

  /** What every save keeps: no row is added or removed and skill rows keep
      their owner and object. */
  predicate Conforms(db: Db, db': Db) {
    && |db'.records| == |db.records|
    && |db'.students| == |db.students|
    && SameShape(db.skills, db'.skills)
  }

  /** `student.missions.exclude(is_complete=True).exists()` */
  predicate HasIncomplete(records: seq<StudentMission>, s: StudentId) {
    exists k :: 0 <= k < |records| && records[k].student == s && !records[k].isComplete
  }

  /** The coins granted to student `t` by a list of credits. */
  function Granted(gs: seq<Grant>, t: StudentId): (r: nat) {
    if |gs| == 0 then 0
    else (if gs[0].student == t then gs[0].coins else 0) + Granted(gs[1..], t)
  }

  lemma {:induction false} GrantedAppend(a: seq<Grant>, b: seq<Grant>, t: StudentId)
    ensures Granted(a + b, t) == Granted(a, t) + Granted(b, t)
  {
    if |a| != 0 {
      assert (a + b)[1..] == a[1..] + b;
      GrantedAppend(a[1..], b, t);
    } else {
      assert a + b == b;
    }
  }
}
