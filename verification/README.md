# Mission progression and scoring, modelled in Dafny

This project models the mission engine of a career-guidance backend. Students work through quizzes called missions. Each student has one progress record (`StudentMission`) per mission. Saving a record is the only place with real behaviour, in `StudentMission.save` (helper/models.py). It does the following:

- creates a record and unlocks it if its mission is the first (order 1);
- on an update, recomputes `stage` from the answers;
- detects completion and credits the mission's coins to the student;
- unlocks the record of the next mission by re-entering `save` on it;
- stamps the student complete when no incomplete record is left;
- scores the answers: each answer token goes through its question's answer table to one tag, the tags are counted, `entrepreneurship*` tags select an entrepreneurship level, and every other tag overwrites the points of the student skill it names.

The model is a pure transition over the database tables:

- `Model` holds the entities: `Mission`, `Question` (a `MissionQuestion` with its answer table), `StudentMission`, `Student` and `SkillRow` (a `StudentSkill`). It also holds `Db`, the three mutable tables, and `Error`, the exceptions the save can raise.
- A table is a sequence whose positions are primary keys. `Seqs.Where` is a queryset filter. A Django `get` becomes a match on `|Where(..)|`: zero rows is `DoesNotExist`, more than one is `MultipleObjectsReturned`.
- `Counting` models `collections.Counter`. `Scoring` models lines 80-105. `Progress` models `save` itself as `Create` (a new record) and `Save` (an update). `Complete` and `Finish` split the update at line 74, and `Complete` calls `Save` back for the next mission's record.
- Every fallible step returns a `Result`. The exceptions at lines 65-67, 86-87 and 101 are `Err` values.

`Progress.Policy` selects one of two versions of the code:

- `AsWritten` follows the source line by line.
- `Corrected` repairs the three defects listed under "## Findings".

The lemmas in `ProgressFacts` hold for both policies unless they name one. The lemmas in `Findings` contrast the two.

Some descriptions of this system differ from the code, and the model follows the code:

- They say completion is set by the caller. Line 58 detects it from the answer count.
- They say unknown answer tokens are skipped. Line 87 raises on them.
- They mention role and motivation rankings. No such ranking exists in `save`.

## Model

| member | source | states |
|---|---|---|
| Progress.Create | helper/models.py:52-55 | Creating succeeds exactly when the record's mission and student exist. It appends one record at the next primary key and leaves the other tables alone. The stored record is unlocked exactly when it was built unlocked or its mission has order 1. Every other field is stored as given. |
| ProgressFacts.CreateNewRecord | helper/models.py:41-55 | A record built with the field defaults is stored unlocked exactly when its mission has order 1, with stage 0, incomplete and without answers. |
| Progress.Save | helper/models.py:51-105 | An update, including every re-entrant save it triggers, keeps the number of records and students. It keeps every skill row's owner and object and changes only points. |
| ProgressFacts.SaveStoresRecord | helper/models.py:57-59 | After a successful update the stored record's stage is the number of answers. It is complete if it was, or if the answers cover every question of its mission. All other fields are stored as given. |
| ProgressFacts.SaveCreditsOnce | helper/models.py:58-62 | A completing update makes exactly one first grant: the mission's coins to the record's student. A non-completing update, or one on a record already complete, grants nothing. As written, the in-memory student gains exactly the mission's coins on completion and nothing otherwise. An update that completes nothing leaves every student's stored coins unchanged. A completing update whose re-entrant save credits nothing raises the student's stored coins by exactly the mission's coins, under either policy. |
| ProgressFacts.SaveIdleKeepsCoins | helper/models.py:58-62 | An update that does not complete its record changes no student's stored coins. |
| ProgressFacts.SaveStoresCredit | helper/models.py:58-78 | A completing update whose re-entrant save credits nothing leaves the student's stored coins higher by exactly the mission's coins. This holds as written too, also when a record of the next mission exists. |
| ProgressFacts.SaveWithoutSuccessor | helper/models.py:58-69 | When no record of the next mission exists, a completing update still succeeds unless scoring fails. The stored student's coins rise by exactly the mission's coins. |
| ProgressFacts.SaveUnlocksSuccessor | helper/models.py:64-72 | When a completing update finds a record of the next mission and succeeds, that record is the only one found and ends up unlocked. |
| Progress.Complete | helper/models.py:58-72 | The completion step, including the re-entrant save it triggers, keeps the number of records and students and the skill rows' owners and objects. |
| Progress.Finish | helper/models.py:74-105 | The part of an update after completion keeps the number of records and students and the skill rows' owners and objects. |
| Progress.RankDecreases | helper/models.py:65-72 | The next mission has strictly fewer missions after it, so the chain of re-entrant saves ends. |
| ProgressFacts.SaveStampsCompletion | helper/models.py:74-78 | After the update, the stored student is stamped complete exactly when they already were, or none of their records is incomplete (this one included). So the stamp stays unset while an incomplete record remains. This holds under either policy. As written, the in-memory student is stamped exactly when it already was or no incomplete record remains. An update that neither was nor became complete leaves the in-memory stamp as it was. |
| ProgressFacts.StampStored | helper/models.py:72-78 | An update, with the whole chain of re-entrant saves, never clears a stored completion stamp. It leaves the stamp of every student who still has an incomplete record as it was. |
| ProgressFacts.SaveEmptyAnswers | helper/models.py:80-81 | An update without answers leaves every skill row unchanged. The stored and in-memory entrepreneurship levels stay as they were. |
| ProgressFacts.SaveScoresAnswers | helper/models.py:83-105 | After an update with answers, scoring succeeded. Each skill row of the student that some tag addresses holds the frequency of the first such tag among all tags. |
| ProgressFacts.SaveSetsLevel | helper/models.py:92-99 | After an update with answers, the level scoring selects is on the in-memory student (as written) or on the stored student (corrected). |
| ProgressFacts.SaveFails | helper/models.py:86-101 | An update fails when some answer does not resolve to a single tag. It also fails when some non-entrepreneurship tag names no skill row of the student, or several. |
| ProgressFacts.SaveFrame | helper/models.py:57-78 | An update changes no record except the one saved and records of later missions (the ones the re-entrant saves touch). |
| ProgressFacts.SaveFrameNoChain | helper/models.py:57-105 | An update that triggers no re-entrant save changes only the saved record, the saving student's row and that student's skill rows. |
| ProgressFacts.SaveResaveKeepsPoints | helper/models.py:89-105 | Saving the same answers again, as an update that completes nothing, succeeds and leaves every skill point as the first save left it. This covers the record the first save completed and a record that still has open questions. |
| ProgressFacts.FinishSucceeds | helper/models.py:80-105 | The part of an update after the record is stored fails exactly when there are answers and scoring fails, and then it fails with scoring's error. |
| Scoring.Resolve | helper/models.py:86-87 | An answer fails with `QuestionNotFound` exactly when no question of the mission has its question text. |
| Scoring.ResolveFound | helper/models.py:86-87 | An answer resolves exactly when its text names a single question of the mission and the token maps to a single tag. That tag is the result. |
| Scoring.CollectTags | helper/models.py:83-87 | Collecting succeeds exactly when every answer resolves. It then holds one tag per answer, in answer order. Otherwise it fails with the error of the first failing answer. |
| Counting.Tally | helper/models.py:89 | The counter's keys are the distinct tags in order of first occurrence. Each count is the tag's multiplicity in the list. |
| Counting.Distinct | helper/models.py:89 | The distinct tags contain exactly the tags of the list, without repetition. |
| Counting.FirstOfDistinct | helper/models.py:89-103 | The first tag with a property among the counter's keys is the first such tag in the list. |
| Scoring.LatestLevel | helper/models.py:91-99 | There is a level exactly when some counter entry is an `entrepreneurship*` tag. The level is the one of the last such entry. |
| Scoring.Level | helper/models.py:93-98 | A tag selects 16 exactly when it ends in "1", and 57 exactly when it ends in "2" but not in "1". Every other tag selects 87. |
| ScoringFacts.LevelValues | helper/models.py:93-98 | For an `entrepreneurship*` tag the level is 16, 57 or 87. A tag ending in "1" gives 16, `entrepreneurship_11` included. A tag ending in "2" gives 57. A tag ending in neither gives 87, as `entrepreneurship3` does. |
| Scoring.Queue | helper/models.py:90-103 | Every queued update addresses an existing skill row. |
| Scoring.FirstJob | helper/models.py:105 | There is a queued update for a row exactly when some queued job names it. The result is the points of the first such job. |
| Scoring.Apply | helper/models.py:105 | `bulk_update(skills, ["points"])` keeps the table's length and writes only `points`. A row with no queued job is unchanged. A row queued more than once takes its points from the first copy, as Django's bulk update does. |
| Scoring.Score | helper/models.py:83-105 | Scoring keeps every skill row's owner and object and changes only points. |
| ScoringFacts.QueueFirstJob | helper/models.py:100-105 | For each skill row of the student, the first queued update carries the count of the first counter entry naming the row's object. Rows of other students get no update. |
| ScoringFacts.WantedIsFrequency | helper/models.py:89-102 | The count queued for a skill object is the frequency of the first tag addressing it. |
| ScoringFacts.ScoreSkills | helper/models.py:89-105 | Scoring gives each skill row of the student, when some tag addresses its object, the frequency of the first such tag. It leaves every other row unchanged. |
| ScoringFacts.ScoreSetsFrequency | helper/models.py:101-102 | When exactly one tag addresses a skill row of the student, the row's points become that tag's frequency. |
| ScoringFacts.ScoreLeavesOthers | helper/models.py:89-105 | Skill rows of other students, and rows no tag addresses, are unchanged. |
| ScoringFacts.ScoreLevel | helper/models.py:92-99 | Scoring selects no level exactly when no tag is an `entrepreneurship*` tag. Otherwise it selects the level of the last such tag in first-occurrence order. |
| ScoringFacts.QueueFails | helper/models.py:100-101 | Queueing fails exactly when some non-entrepreneurship entry names no skill row of the student, or several. |
| ScoringFacts.QueueFailsOnTags | helper/models.py:89-101 | The same failure condition, stated on the tag list rather than on the counter. |
| ScoringFacts.ScoreFails | helper/models.py:86-101 | Scoring fails exactly when some answer does not resolve, or some non-entrepreneurship tag names no skill row of the student, or several. |
| ScoringFacts.ScoreIdempotent | helper/models.py:89-105 | Scoring the same answers against the skill rows a scoring produced gives the same result again. |
| ScoringFacts.ScoreShapeOnly | helper/models.py:89-105 | Whether scoring succeeds, and the level it selects, depend on the skill rows' owners and objects and not on their points. |
| ScoringFacts.ScoreErrorKind | helper/models.py:83-105 | Scoring raises only its own lookup errors, never the successor or missing-row errors of the save. |
| Findings.SuccessorAcrossStudents | helper/models.py:64-67 | As written, once two records of any students exist for the next mission, every completing update fails with `MultipleObjectsReturned`. |
| Findings.TwoStudentsCannotComplete | helper/models.py:64-67 | A concrete instance: two students each hold records for missions 1 and 2, and student 0's completing answer fails. |
| Findings.SuccessorsPerStudent | helper/models.py:64-67 | With unique mission orders and one record per student and mission, the corrected lookup finds at most one record. |
| Findings.SuccessorPerStudent | helper/models.py:64-72 | Under the same assumptions, a corrected update never fails with `SuccessorNotUnique` (the successor lookup's `MultipleObjectsReturned`), through the whole chain of re-entrant saves. The question and skill lookups at lines 86 and 101 can still raise it. |
| Findings.CoinsLostAsWritten | helper/models.py:58-78 | As written, a save that completes two missions in a chain grants 15 coins, yet the student is left with 10. |
| Findings.CoinsConserved | helper/models.py:58-78 | Corrected, every student's stored coins grow by exactly the coins granted to them, across the whole chain of saves. |
| Findings.EntrepreneurshipNeverStored | helper/models.py:92-98 | As written, no update changes any stored entrepreneurship level. |
| Findings.EntrepreneurshipOnlyInMemory | helper/models.py:92-98 | As written, the selected level reaches the in-memory student while the stored level stays what it was. |
| Findings.EntrepreneurshipStored | helper/models.py:92-98 | Corrected, the stored level is the level of the last `entrepreneurship*` tag in first-occurrence order. |

## Left out

- Persistence: transactions, and the partial writes an exception leaves behind (coins already credited when scoring then fails). A failing save returns only its error.
- `timezone.now()` at line 77: the completion timestamp is a flag.
- `reaction` is carried as an enumeration, and the save never reads it.
- JSON shapes other than those the code accepts are left out. `answers` is a list of (question text, token) pairs in dictionary order. For a record loaded from the database, such as the successor in a re-entrant save, that order is whatever the database's JSON storage returns, and the model takes it as given. Every property holds for any order. A list-valued token would raise `TypeError` in the dictionary lookup. An answer-table value is a list of tags.
- The dictionary's unique keys: the model allows the same question text twice, which the dictionary cannot hold. Every property holds for the more general input.
- `Text.Upper` maps only the ASCII letters a-z, while Python's `str.upper()` uses full Unicode case mapping. Some non-ASCII letters upper-case to ASCII. For example, `"ſocial".upper()` is `"SOCIAL"` and `"ı".upper()` is `"I"`. The source scores a tag with such a letter against the matching skill, while the model raises `SkillNotFound`. This is a known difference.
- Integer width: `stage` and `points` are `PositiveIntegerField`s (helper/models.py:41, 119), stored as 32-bit database integers. A save that pushes one past 2147483647 raises a database error. The model's `nat` is unbounded, so such a save succeeds in the model. The student's `coins`, which the save increases, is declared in `account.Student`. That model is not part of this model, so its width is not modelled either.
- The save's arguments: `save(*args, **kwargs)` passes them on to `Model.save` (lines 51, 55, 74), and the model's save takes none. A caller passing `update_fields` that leaves out `is_complete` would not store the completion, and would be credited again on every later save. No caller in the modelled code passes arguments.
- An update whose primary key has no stored row: `Save` requires the row to exist.
- The `StudentSkill.Object` choices (helper/models.py:109-115) are not enforced on skill rows. A skill row's object is any string.
- `Student` fields other than coins, entrepreneurship and the completion stamp, plus serializers, views, admin, export and settings: none of them takes part in `save`.
- ProgressFacts.SaveEmptyAnswers: proved only when the update triggers no re-entrant save. A nested save scores its own record's answers.
- ProgressFacts.SaveFrameNoChain: proved only for updates that trigger no re-entrant save. `SaveFrame` covers the chain for records.
- ProgressFacts.SaveUnlocksSuccessor: assumes the update does not move the record to another mission. Otherwise the stored record could be the successor itself.
- ProgressFacts.SaveStampsCompletion: states the in-memory stamp as an if-and-only-if only for the code as written. When corrected, the in-memory student is the stored row, whose stamp the lemma states for both policies.
- Progress.Save: its own contract states only the shape of the tables. The lemmas in `ProgressFacts` state its effects.
- Progress.Complete: its own contract states only the shape of the tables. `ProgressFacts.CompleteIdle`, `CompleteLast`, `CompleteChained` and `SaveCreditsOnce` state what it credits and hands on.
- Progress.Finish: its own contract states only the shape of the tables. `ProgressFacts.FinishSucceeds`, `SaveStoresRecord`, `SaveStampsCompletion`, `SaveScoresAnswers` and `SaveSetsLevel` state its effects.
- Scoring.Queue: its own contract states only that queued rows exist. `ScoringFacts.QueueFirstJob` and `QueueFails` state what it queues and when it fails.
- Scoring.Score: its own contract states only the shape of the skill table. `ScoringFacts.ScoreSkills`, `ScoreLevel` and `ScoreFails` state its effects.

## Findings

| source | as written | input that shows it | evidently intended | confidence | as-written member | corrected member |
|---|---|---|---|---|---|---|
| helper/models.py:65-67 | `StudentMission.objects.get(mission__order=order + 1)` looks among all students' records | two students, each with records for missions 1 and 2; student 0 answers mission 1's only question | the next record of the same student, as `self.student.missions` would give | high, not executed | Findings.SuccessorAcrossStudents | Findings.SuccessorPerStudent |
| helper/models.py:76-78 | the stamp saves `self.student`, loaded before the re-entrant save at line 72 credited the next mission's coins | missions worth 10 and 5, the second without questions; completing the first grants 15 and leaves 10 | the stamp updates the student's current row | high, not executed | Findings.CoinsLostAsWritten | Findings.CoinsConserved |
| helper/models.py:94-98 | `self.student.entrepreneurship` is set and the student is never saved afterwards | the same save with the tag `entrepreneurship1`: the in-memory level is 16, the stored one stays 0 | the level is stored | high, not executed | Findings.EntrepreneurshipOnlyInMemory | Findings.EntrepreneurshipStored |
