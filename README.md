# Dasom tutoring-slot matcher in Dafny

Dasom matches tutoring time slots for one month. Each teacher stores a list of
`{day, time}` availability records, and each student stores a list of such
records plus a list of preferred teachers, most preferred first. The
`generate_schedule` endpoint runs a greedy matcher over this data. Students are
handled in order. For each student, the preferred teachers are tried in order,
and a teacher without a schedule is skipped. The candidate slots are the
student's `(day, time)` pairs intersected with the teacher's pairs, minus the
pairs already handed out in this run. The first teacher with a candidate slot
gets one of them, chosen arbitrarily by `set.pop()`, and the student is done. The
resulting flat list of matches is then grouped by teacher and written, one
document per student, under each teacher's collection.

This project models that matcher and the grouping step, and proves what they
guarantee:

- each match lies in both the student's and the teacher's availability;
- no `(day, time)` pair is handed out twice;
- no student is matched twice;
- the first preferred teacher with a free slot is the one chosen;
- an unmatched student is simply skipped;
- grouping keeps every match in its own teacher's list, in order;
- writing the documents keyed by student loses none of them.

Files and modules:

- `availability.dfy`, module `Availability`: the record and slot types. It holds
  the set comprehension that turns a teacher's records into slots
  (`SlotSet`), and the record-by-record loop that builds a student's slots
  (`AvailableTimes`).
- `matcher.dfy`, module `Matcher`: the first-fit teacher search (`FirstFit`), one
  student's outcome (`Serve`), the whole run as a function (`MatchAll`), the
  loops `MatchStudent` and `GenerateMatches` proved equal to it, and the lemmas
  about the run.
- `grouping.dfy`, module `Grouping`: `GroupByTeacher` and the per-teacher
  document collection (`TeacherDocuments`).
- `scenarios.dfy`, module `Scenarios`: small concrete runs.

Modelling decisions:

- **The `set.pop()` choice.** It is a parameter `pick(k, available)`, where `k`
  is the position of the student being served. Every result is proved for every
  `pick` that returns a member of the non-empty set it is given
  (`ChoosesMember`). `pop` is called at most once per student, so every run of
  `generate_schedule` is described by some such `pick`.
- **Students.** They are a sequence, in the iteration order of the loaded
  dictionary. Dictionary keys are unique, so the lemmas that rely on unique ids
  take that as a precondition (`DistinctIds`).
- **Records.** A field is `Option<string>`. The source's truthiness test
  `if day and time` becomes "present and non-empty" (`Usable`).
- **One set of used slots.** The used-slot set is one set for the whole run
  (`dasom_back/dasom.py:248`), so two different teachers can never be given the
  same `(day, time)` in one run. `Scenarios.UsedSlotsAreGlobal` shows a run where
  this leaves a student unmatched even though their own teacher is free.
- **Documents.** The per-teacher document collection is modelled as written into
  an empty collection; earlier runs' documents are outside the model.

## Model

| member | source | states |
|---|---|---|
| `Availability.Truthy` | dasom_back/dasom.py:262 | a field value is truthy exactly when it is neither missing nor the empty string, the two falsy values a string field can take |
| `Availability.Usable` | dasom_back/dasom.py:262 | the `if day and time` test: a record counts exactly when neither its day nor its time is missing or empty |
| `Availability.SlotOf` | dasom_back/dasom.py:263 | the `(day, time)` pair of a usable record has non-empty fields, and the record is recovered from it |
| `Availability.SlotSet` | dasom_back/dasom.py:275-277 | the teacher's set comprehension: every usable record's slot is in the set, and no slot in it has an empty day or time |
| `Availability.SlotSetMembership` | dasom_back/dasom.py:275-277 | a slot is in a teacher's (or student's) available set exactly when some record carries that day and that time, both non-empty |
| `Availability.SlotSetNonEmptyFields` | dasom_back/dasom.py:262-263 | no available slot has an empty day or an empty time |
| `Availability.UnusableRecordIgnored` | dasom_back/dasom.py:259-263 | a record with a missing or empty day or time, placed first or last, leaves the available set unchanged |
| `Availability.SlotSetAppend` | dasom_back/dasom.py:259-263 | one more record adds exactly its own slot when usable, and nothing otherwise |
| `Availability.AvailableTimes` | dasom_back/dasom.py:258-263 | the student's record-by-record loop builds the same set as the teacher's comprehension (`SlotSet`) |
| `Matcher.UsedSlots` | dasom_back/dasom.py:290 | the `(day, time)` pair of every match in the list is among the used slots |
| `Matcher.Free` | dasom_back/dasom.py:282-285 | the candidate slots lie in the student's set and the teacher's set and not in the used set, and every such slot is a candidate |
| `Matcher.Blocked` | dasom_back/dasom.py:269-287 | a teacher is passed over exactly when it has no schedule, or every slot it shares with the student is already used |
| `Matcher.FirstFit` | dasom_back/dasom.py:268-287 | returns the least preference position whose teacher has a schedule and a free overlapping slot; every earlier teacher is missing or has no free slot; it returns None exactly when every preferred teacher is blocked |
| `Matcher.Serve` | dasom_back/dasom.py:268-298 | a student's match is for that student, with a preferred teacher that has a schedule, on a slot in both availabilities and not yet used; every teacher preferred before the chosen one was blocked; there is no match exactly when all preferred teachers are blocked |
| `Matcher.MatchAll` | dasom_back/dasom.py:253-301 | the whole run: students in order, each served against the slots used so far; it yields at most one match per student |
| `Matcher.UsedSlotsAppend` | dasom_back/dasom.py:290-298 | the slots used after appending matches are the old used slots plus the new matches' slots |
| `Matcher.ServeOutcome` | dasom_back/dasom.py:284-301 | appending one student's result either changes nothing (all preferred teachers blocked, used slots unchanged) or appends exactly one fitting match on a fresh slot with the first unblocked teacher, adding exactly that slot to the used set |
| `Matcher.StudentOutcome` | dasom_back/dasom.py:253-301 | the same two outcomes hold for student `k` within the whole run, against the slots used by students `0..k-1` |
| `Matcher.MatchAllFits` | dasom_back/dasom.py:258-285 | every match of the run lies in both the student's and the teacher's availability, with a preferred teacher that has a schedule |
| `Matcher.MatchAllSlotsDistinct` | dasom_back/dasom.py:285-290 | no two matches of a run share a `(day, time)`, whatever their teachers |
| `Matcher.UsedSlotsCount` | dasom_back/dasom.py:289-290 | a match list with distinct slots uses exactly as many slots as it has matches |
| `Matcher.StepExtends` | dasom_back/dasom.py:287-301 | serving one student keeps the earlier matches and appends at most one match, for that student |
| `Matcher.MatchAllPrefix` | dasom_back/dasom.py:253-298 | the run over the first `k` students is a prefix of the whole run, and every later match belongs to a student at position `k` or after |
| `Matcher.OneAssignmentPerStudent` | dasom_back/dasom.py:287-301 | with unique student ids, no student appears in two matches |
| `Matcher.MatchStudent` | dasom_back/dasom.py:254-301 | one pass of the teacher loop appends that student's outcome to the match list and adds its slot to the used set |
| `Matcher.GenerateMatches` | dasom_back/dasom.py:247-301 | the matching loop returns the run `MatchAll` with used slots equal to the matches' slots; the slots are distinct and there are as many used slots as matches |
| `Grouping.EntriesFor` | dasom_back/dasom.py:307-315 | one teacher's list of `{student, day, time}` entries in match order; it is never longer than the match list |
| `Grouping.EntriesForEmpty` | dasom_back/dasom.py:309-310 | a teacher's list is empty exactly when no match names that teacher |
| `Grouping.EntriesForSource` | dasom_back/dasom.py:307-315 | every entry in a teacher's list comes from a match of that teacher |
| `Grouping.EntriesForPrefix` | dasom_back/dasom.py:307-315 | grouping a prefix of the match list gives a prefix of each teacher's list |
| `Grouping.OwnEntryAt` | dasom_back/dasom.py:311-315 | each match's entry is in its own teacher's list, at the position given by the earlier matches of that teacher |
| `Grouping.OrderKept` | dasom_back/dasom.py:307-315 | two matches of one teacher keep their relative order in that teacher's list |
| `Grouping.EntryNotInOtherList` | dasom_back/dasom.py:307-315 | when slots are distinct, an entry found in a teacher's list belongs to a match of that teacher |
| `Grouping.EntryInOwnListOnly` | dasom_back/dasom.py:306-315 | when slots are distinct, a match's entry is in a teacher's list exactly when that teacher is its own |
| `Grouping.GroupByTeacher` | dasom_back/dasom.py:304-315 | the grouped map has exactly the matched teachers as keys, and each teacher's list is that teacher's entries in match order |
| `Grouping.TeacherDocuments` | dasom_back/dasom.py:320-329 | one teacher's collection after writing its entries keyed by student, starting from an empty collection: every written student has a document, and there are never more documents than entries |
| `Grouping.NoDocumentLost` | dasom_back/dasom.py:320-329 | starting from an empty collection, writing a teacher's entries keyed by distinct students leaves one document per entry, each with that entry's day and time |
| `Grouping.StoredComesFromEntry` | dasom_back/dasom.py:324-329 | every stored document key is the student of some written entry |
| `Grouping.EntriesForDistinctStudents` | dasom_back/dasom.py:306-315 | if no student appears twice in the match list, none appears twice in a teacher's list |
| `Grouping.WritesKeepEverything` | dasom_back/dasom.py:320-329 | with no student matched twice and starting from an empty collection, each teacher's documents number as many as its matches, and each match's day and time are stored under its student |
| `Grouping.MatchedWritesKeepEverything` | dasom_back/dasom.py:304-329 | for every run over students with unique ids, every match survives the keyed writes intact |
| `Scenarios.SharedSlotIsAssigned` | dasom_back/dasom.py:282-298 | a teacher and a student who share exactly one slot get exactly that match |
| `Scenarios.FirstComerWins` | dasom_back/dasom.py:285-290 | two students competing for a teacher's only slot: the first one processed gets it and the second gets nothing |
| `Scenarios.UsedSlotsAreGlobal` | dasom_back/dasom.py:248-290 | a slot used with one teacher is not given out again with another teacher |
| `Scenarios.SecondPreferenceUsed` | dasom_back/dasom.py:268-301 | when the first preferred teacher shares no slot, the second preferred teacher is chosen |
| `Scenarios.UnscheduledTeacherSkipped` | dasom_back/dasom.py:269-270 | a preferred teacher without a schedule is skipped and the next one is tried |
| `Scenarios.NoOverlapNoAssignment` | dasom_back/dasom.py:287-301 | a student without any overlap gets no match, and this is not an error |
| `Scenarios.EmptyDayIgnored` | dasom_back/dasom.py:262-263 | records with an empty or missing day never produce a match |

## Left out

- HTTP routes and request handling (`dasom_back/dasom.py:17-200`, `339-382`), including the missing-`year_month` check: these are request plumbing.
- All Firestore reads and writes. The loaded teacher schedules and students (`dasom_back/dasom.py:211-242`) are the matcher's inputs, so only students whose schedule document exists reach the model. The document writes (`dasom_back/dasom.py:318-329`) are modelled only as the per-teacher map `TeacherDocuments`, to state that no document overwrites another.
- The exception-to-500 wrapper (`dasom_back/dasom.py:336-337`) and the debug prints: they are request plumbing, and the modelled matcher and grouping raise nothing on the modelled inputs. A failing document write is not modelled; in the source the documents already written stay (there is no rollback) and the caller gets a 500 instead of the match list.
- The particular element `set.pop()` returns depends on Python's hashing. It is a chooser parameter, and every property holds for every chooser that returns a member.
- Field values other than strings (numbers, booleans) in the availability records are not modelled. A field is either absent or a string, and "falsy" means absent or empty.
- A missing or null preference list is not modelled: `Student.teachers` is always a list. The save endpoint does not check that `teachers` is present (`dasom_back/dasom.py:175-192`), so a stored student can hold `teachers: null`. Line 240 then yields `None`, and the loop at line 268 raises `TypeError`. That aborts the whole run with a 500, and nothing is written.
- Earlier runs' documents: the writes at `dasom_back/dasom.py:318-329` only set documents and never clear `matched_schedules/{year_month}/{teacher}`. A second run for the same month therefore leaves the earlier documents in place, and the store can hold more documents than this run produced. For example, a student matched to one teacher before and to another now has a document under both. `TeacherDocuments` and the lemmas about it describe writing into an empty collection.
