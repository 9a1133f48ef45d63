# Timetable scheduler, modelled in Dafny

This project models the scheduling engine `TimetableScheduler` of
`backend/timetable_generator.py` and proves properties of it. The engine turns
per-subject credits into required sessions for every class. It orders each
class's subjects by their prerequisites (Kahn's algorithm) and books sessions
into (slot, room) cells. Each booking must pass the legality test
`is_valid_assignment`: teacher, class and room are free; the teacher is
qualified; the room is big enough and of an allowed type; the teacher's daily
load limit is kept; and a lab comes after its theory. The engine then audits
the result (`verify_constraints`) and builds the API response.

Modules, one per part of the program:

- `Names` (names.dfy) — the `" Lab"` suffix convention (`endswith`, `f"{s} Lab"`, `replace(" Lab", "")`) and the day prefix of a slot label.
- `Collections`, `OrderedMaps` (collections.dfy, ordered_maps.dfy) — sequences, sorting and Python dictionaries with observable insertion order. These are helpers with no row of their own.
- `Catalog` (catalog.dfy) — the constructor's inputs, the three validators and the expansion of credits into required sessions.
- `SubjectOrder` (topo_sort.dfy) — the prerequisite graph and Kahn's algorithm, written as loops over the `graph` and `in_degree` dictionaries.
- `ScheduleState` (state.dfy) — the tracking structures as one value `State`, and:
  - `is_valid_assignment` as a predicate;
  - `Commit` and `Uncommit`, the updates `schedule_subject` and `unschedule_subject` make;
  - the invariant `ValidState`, which ties every index to the timetable viewed as a set of bookings.
- `Reporting` (reporting.dfy) — `verify_constraints` and `generate_timetable_response`. They read a state and change nothing.
- `Scheduling` (scheduler.dfy) — the class `Scheduler`. Its field `st` holds the tracking structures, and its methods update that field in place.

The source methods that change the tracking structures are methods of `Scheduler`. The read-only ones (`is_valid_assignment`, `get_qualified_teachers`, `verify_constraints`, `generate_timetable_response`) are functions of a state. Some loops of the source are split off into methods of their own:

- `TryTeachers` and `PlaceWith`: the teacher loop the source writes out four times.
- `TryRoom`, `BookAtSlot` and `BookTeacher`: the three nested loops of `schedule_any_teacher`.
- `TakeOut`, `TakeOutAndPlace` and `RescheduleMoved`: the two halves of one attempt of `resolve_conflicts_aggressive`.
- `BookRepeatedly`: the main loop of `schedule_subject_sessions`.
- `ClassTurn` and `PlaceRequired`: one class's turn in a round of `generate_timetable`.

Every method that books or releases keeps `Valid()`, and `RestoreBackupState` keeps it when the backup was a valid state, as every backup the source takes is. `Valid()` means no teacher, class or room is booked twice in one slot, no teacher's daily load exceeds `teacher_max_daily_load`, and every index agrees with the timetable.

How Python values are represented:

- `defaultdict(set)` bookings are sets of pairs.
- `defaultdict(int)` counters are multisets of pairs, which is exact because no count is decremented below zero.
- Dictionaries whose iteration order the program observes are ordered maps (`OMap`).
- `random.sample` and `random.shuffle` become an arbitrary permutation.
- Choices made by floating-point scores (`calculate_slot_score`, `class_priority`) become an arbitrary choice. The model promises only that whatever is chosen is legal.

Three points where the code's behaviour differs from a plain reading of its intent, modelled as the code behaves:

- Rollback does not restore `class_subject_time` exactly. Booking a session and then releasing it leaves `class_subject_time[cls][subject]` present and empty where it may have been absent before. `verify_constraints` observes this difference: an absent base subject gives no error for a lab, while a present and empty one gives "scheduled before theory". `is_valid_assignment` rejects a lab in both cases (`ScheduleState.CommitUncommit`, `ScheduleState.TheoryBeforeMeaning`).
- The emergency booking is not always counted. When `schedule_any_teacher` gives up after booking some sessions, those sessions stay booked, scheduled_counts counts them, but the result of `schedule_subject_sessions` does not (`Scheduling.Scheduler.ScheduleSubjectSessions`).
- A booked lab can come to precede its theory. The rule that a lab follows its theory is tested only when the lab is booked. `resolve_conflicts_aggressive` may take out a theory session of the class to make room for any target, and then books it again at whatever legal place `find_available_slot` offers, with no look at the labs already booked. Once a lab's only theory session is released, `verify_constraints` reports "Lab … scheduled before theory" (`Reporting.ReleasedTheoryExposesLab`), and a re-booking later than the lab leaves that report standing. This is why lab order is not part of `ValidState`, and why `Reporting.CleanAudit` allows this one kind of error besides count mismatches.

## Model

| member | source | states |
|---|---|---|
| Names.LabOf | backend/timetable_generator.py:108-110 | the derived lab name ends in " Lab" and starts with the subject's name |
| Names.DayOf | backend/timetable_generator.py:219 | the day is the longest prefix of the slot label without '-', and the next character, if any, is '-' |
| Names.StripLabNoOccurrence | backend/timetable_generator.py:154 | removing " Lab" from a name that does not contain it gives the name back |
| Names.StripLabOfLab | backend/timetable_generator.py:154 | removing every " Lab" from a derived lab name gives the same result as removing it from its subject |
| Names.BaseOfLab | backend/timetable_generator.py:225 | the base subject of the lab derived from a subject without " Lab" in its name is that subject |
| Catalog.CheckClassSizes | backend/timetable_generator.py:72-76 | passes exactly when every class has a positive size; otherwise the first offending class in list order decides between the missing-size and the invalid-size error |
| Catalog.ValidateInputs | backend/timetable_generator.py:58-76 | the five emptiness errors in the source's order, then the size check; passes exactly when all inputs are valid |
| Catalog.LabSubjects | backend/timetable_generator.py:84-86 | the derived labs are exactly the lab names of the subjects with credits of at least 3 |
| Catalog.FirstUncovered | backend/timetable_generator.py:96-98 | passes exactly when every listed subject has a qualified teacher; otherwise the subject named in the error has none |
| Catalog.CheckTeacherCoverage | backend/timetable_generator.py:78-98 | passes exactly when every subject and derived lab has a qualified teacher; the error names one subject that has none |
| Catalog.ExpandShape | backend/timetable_generator.py:100-110 | the requirements of a class have no repeated key, every session count is positive, and the keys are exactly the subjects with credits > 0 and the labs of those with credits >= 3 |
| Catalog.ExpandValue | backend/timetable_generator.py:105-107 | a subject with credits > 0 requires exactly its credits in sessions |
| Catalog.ExpandLabValue | backend/timetable_generator.py:108-110 | a subject with credits >= 3 makes its lab require exactly one session |
| Catalog.SubjectAssignments | backend/timetable_generator.py:100-104 | every listed class, and nothing else, gets a requirement map |
| Catalog.TotalRequiredUniform | backend/timetable_generator.py:114-117 | the total of the requirements is the number of class entries times the sessions of one class |
| Catalog.ValidateFeasibility | backend/timetable_generator.py:112-122 | fails exactly when the required sessions exceed teachers times slots, and reports both numbers |
| Catalog.Construct | backend/timetable_generator.py:13-38 | construction passes exactly when the inputs are valid, every subject and lab is covered and the capacity suffices; input errors come first |
| SubjectOrder.EdgesWithin | backend/timetable_generator.py:153-163 | every edge the graph build adds joins two required subjects |
| SubjectOrder.InCountZero | backend/timetable_generator.py:173-174 | a subject's pending in-degree is zero exactly when all its prerequisites have been emitted |
| SubjectOrder.InCountFinish | backend/timetable_generator.py:172-173 | emitting a subject lowers each pending in-degree by the number of its edges to that node |
| SubjectOrder.NoDescent | backend/timetable_generator.py:177 | a set of subjects each with a prerequisite inside the set admits no order that respects the edges |
| SubjectOrder.AddEdge | backend/timetable_generator.py:157-158 | appending to `graph[a]` and incrementing `in_degree[b]` records exactly one more edge |
| SubjectOrder.AddEdgeIf | backend/timetable_generator.py:156-163 | a guarded edge insertion adds the edge exactly when the guard holds and keeps graph and in-degree in step |
| SubjectOrder.AddPrereqStep | backend/timetable_generator.py:155-163 | one pass for one prerequisite adds the prerequisite edge and, for a lab, the edge from its base subject |
| SubjectOrder.AddSubjectEdges | backend/timetable_generator.py:154-163 | the passes over one subject's prerequisites add exactly that subject's edges |
| SubjectOrder.BuildGraph | backend/timetable_generator.py:148-163 | `graph` lists every edge by its source and `in_degree` counts every edge by its target |
| SubjectOrder.InitialQueue | backend/timetable_generator.py:166 | the first queue holds, once each, exactly the subjects with in-degree zero |
| SubjectOrder.EmitKeepsBackward | backend/timetable_generator.py:170-171 | emitting a subject whose prerequisites are all emitted keeps every edge pointing backward into the emitted prefix |
| SubjectOrder.BackwardComplete | backend/timetable_generator.py:177 | once every subject is emitted, every edge goes from an earlier to a later position |
| SubjectOrder.StalledNotSortable | backend/timetable_generator.py:177 | a queue that runs dry before every subject is emitted means no order respects the edges |
| SubjectOrder.Release | backend/timetable_generator.py:172-175 | after the releases for an emitted subject, every in-degree counts the edges from subjects not yet emitted, and the emitted and queued subjects are, once each, exactly those with in-degree zero |
| SubjectOrder.Kahn | backend/timetable_generator.py:169-175 | the emitted subjects are distinct; either every edge points forward or some subject was not emitted, and the latter happens only when no order respects the edges |
| SubjectOrder.TopologicalSort | backend/timetable_generator.py:148-177 | a permutation of the subjects; when some order respects the edges the result does, and otherwise it is the key order |
| SubjectOrder.TopologicalSortSubjects | backend/timetable_generator.py:143-177 | an unknown class gets no subjects; otherwise a permutation of the class's requirement keys that respects every edge when some order does, and the key order when none does |
| ScheduleState.LastIndex | backend/timetable_generator.py:56 | a slot label listed twice gets the index of its last occurrence |
| ScheduleState.InitialValid | backend/timetable_generator.py:124-133 | the empty tracking structures satisfy the invariant |
| ScheduleState.ValidAssignmentMeaning | backend/timetable_generator.py:189-240 | on a valid state, the legality test accepts exactly when: no booking at the slot uses the teacher, class or room; the teacher is qualified; the room fits the class and is flex or of the required type; a lab that needs a lab room gets one; the teacher's sessions that day are below the limit; and a lab has an earlier session of its theory in the class |
| ScheduleState.FreeMeaning | backend/timetable_generator.py:192-195 | the first test passes exactly when no booking at the slot uses the teacher, the class or the room |
| ScheduleState.TheoryBeforeMeaning | backend/timetable_generator.py:224-238 | the lab test passes exactly when a session of the base subject for the class sits at an earlier slot index |
| ScheduleState.CommitBookings | backend/timetable_generator.py:247-251 | writing the entry adds exactly one booking to the timetable |
| ScheduleState.UncommitBookings | backend/timetable_generator.py:324 | deleting the entry removes exactly that booking |
| ScheduleState.CommitValid | backend/timetable_generator.py:247-279 | booking a legal cell keeps the invariant and adds exactly the new booking; the invariant includes no double booking and the daily-load bound |
| ScheduleState.UncommitValid | backend/timetable_generator.py:286-324 | releasing a booked cell keeps the invariant and removes exactly its booking |
| ScheduleState.CommitUncommit | backend/timetable_generator.py:242-325 | booking a legal cell and releasing it restores every structure, save that the list of times of the class's subject may now exist and be empty |
| ScheduleState.CommitOneLab | backend/timetable_generator.py:273-277 | a booking keeps at most one lab room per slot when it uses a lab room only at a slot where none is taken, the test made at lines 399-401 and 425-427 |
| ScheduleState.UncommitOneLab | backend/timetable_generator.py:316-321 | releasing a cell keeps at most one lab room per slot |
| ScheduleState.BookedIsCounted | backend/timetable_generator.py:295 | a booked cell's subject has a positive count, so the decrement never goes below zero |
| Reporting.CountEmpty | backend/timetable_generator.py:707-712 | the count section reports nothing exactly when every class holds every subject exactly as often as required |
| Reporting.ScanEmpty | backend/timetable_generator.py:714-729 | a per-cell section reports nothing exactly when no booked cell of a listed class fails its test |
| Reporting.ConflictErrors | backend/timetable_generator.py:739-741 | a conflict is reported exactly for each teacher whose gathered slot list repeats a slot |
| Reporting.NoConflictReported | backend/timetable_generator.py:731-741 | without double booking and with each class listed once, no teacher conflict is reported |
| Reporting.CleanCells | backend/timetable_generator.py:714-729 | on a valid state, the qualification and capacity sections report nothing |
| Reporting.CleanAudit | backend/timetable_generator.py:703-762 | on a valid state with each class listed once, the audit reports only count mismatches and labs ahead of their theory |
| Reporting.ReleasedTheoryExposesLab | backend/timetable_generator.py:743-760 | releasing the one recorded session of a booked lab's theory makes verify_constraints report that lab as scheduled before its theory |
| Reporting.RepeatedClassReadsAsConflict | backend/timetable_generator.py:732-741 | a class listed twice with one booking reads as a conflict of its teacher |
| Reporting.Audit | backend/timetable_generator.py:705-760 | the error list starts with the count mismatches, holds no other count mismatch and never the all-clear line |
| Reporting.VerifyConstraints | backend/timetable_generator.py:762 | the all-clear line is returned exactly when the error list is empty, and then alone; otherwise the error list itself is returned, in order and with repeats |
| Reporting.GridMeaning | backend/timetable_generator.py:666-676 | a grid cell shows an entry exactly when that booking is in the timetable, and None otherwise |
| Reporting.TotalsMeaning | backend/timetable_generator.py:679-686 | with no count above its requirement, the scheduled total is at most the required total, and they are equal exactly when the count section reports nothing |
| Reporting.LoadTotalCounts | backend/timetable_generator.py:695 | a teacher's summed daily loads over distinct days count the teacher's sessions on those days |
| Reporting.Utilization | backend/timetable_generator.py:692-698 | one total per teacher, in the order of the teacher list |
| Reporting.UtilizationMeaning | backend/timetable_generator.py:692-698 | on a valid state, each teacher's total is the number of sessions the teacher gives |
| Reporting.TimetableResponse | backend/timetable_generator.py:657-701 | each grid cell of a listed class and slot shows an entry exactly when that booking is in the timetable; with no count above its requirement, total_scheduled <= total_required, with equality exactly when the constraints report no count mismatch; one utilization entry per teacher in list order, which on a valid state is that teacher's number of sessions; the constraints are verify_constraints' result |
| Reporting.ResponseTotals | backend/timetable_generator.py:679-691 | with no count above its requirement, total_scheduled <= total_required, with equality exactly when no count mismatch is reported |
| Scheduling.RoomsFor | backend/timetable_generator.py:385-387 | keeps exactly the configured rooms that are big enough and flex or of the wanted type |
| Scheduling.SuitableRooms | backend/timetable_generator.py:380-389 | exactly the rooms big enough for the class and flex or of the wanted type, smallest capacity first; a lab subject always wants a lab room |
| Scheduling.QualifiedAmong | backend/timetable_generator.py:365-366 | keeps each qualified teacher as often as listed and drops every other |
| Scheduling.QualifiedTeachers | backend/timetable_generator.py:363-373 | a permutation of the qualified teachers, least loaded first |
| Scheduling.SetupSubjectOrder | backend/timetable_generator.py:137-141 | every listed class gets the topological order of its subjects, or its key order when there is a cycle |
| Scheduling.InitialWithin | backend/timetable_generator.py:124-133 | before anything is booked, no count exceeds its requirement from subject_credits |
| Scheduling.WithinAfterPlacing | backend/timetable_generator.py:632-645 | a booking of a subject still short of its requirement keeps every count within its requirement |
| Scheduling.CommitAdds | backend/timetable_generator.py:247-265 | a legal booking adds one booking, one to its count, and leaves every other class's row alone |
| Scheduling.UncommitDrops | backend/timetable_generator.py:286-324 | a release removes one booking, one from its count, and leaves every other class's row alone |
| Scheduling.Scheduler.constructor | backend/timetable_generator.py:9-56 | on inputs the checks accept: nothing booked, the requirement maps set up, every count within its requirement, and each class's subject order topological when possible |
| Scheduling.Scheduler.ScheduleSubject | backend/timetable_generator.py:242-279 | books exactly when the legality test accepts, is then the Commit update and otherwise changes nothing; keeps the invariant |
| Scheduling.Scheduler.UnscheduleSubject | backend/timetable_generator.py:281-325 | returns false with no change when the cell is empty; otherwise is the Uncommit update; keeps the invariant |
| Scheduling.Scheduler.CreateBackupState | backend/timetable_generator.py:568-581 | the backup is the current state |
| Scheduling.Scheduler.RestoreBackupState | backend/timetable_generator.py:583-594 | the state becomes the backup |
| Scheduling.Scheduler.FindAvailableSlot | backend/timetable_generator.py:375-413 | an offered (slot, room) is a configured slot and suitable room, not a lab room at a busy lab slot, where the assignment is legal |
| Scheduling.Scheduler.TryTeachers | backend/timetable_generator.py:451-462 | either nothing changes, or a teacher of the list books exactly one legal offered cell |
| Scheduling.Scheduler.TryRoom | backend/timetable_generator.py:420-429 | books one session exactly when the room passes the filter, is no lab room at a busy lab slot, and the assignment is legal |
| Scheduling.Scheduler.BookAtSlot | backend/timetable_generator.py:420-432 | every booking is of the target and lowers the sessions left by one; the search ends when none is left |
| Scheduling.Scheduler.BookTeacher | backend/timetable_generator.py:419-432 | the slot loop for one teacher; the sessions booked are exactly those taken off the sessions left |
| Scheduling.Scheduler.ScheduleAnyTeacher | backend/timetable_generator.py:415-433 | only sessions of the target are added; true means exactly the requested number was booked; false means fewer |
| Scheduling.Scheduler.PlaceWith | backend/timetable_generator.py:451-460 | either nothing changes, or one session of the subject is added and no other class is touched |
| Scheduling.Scheduler.RescheduleMoved | backend/timetable_generator.py:532-550 | when every session taken out is put back, each one's count is restored; other classes are never touched |
| Scheduling.Scheduler.TakeOut | backend/timetable_generator.py:500-516 | nothing is taken out exactly when the slot is empty, or it holds a lab and the target is not a lab; otherwise that session is released and reported |
| Scheduling.Scheduler.TakeOutAndPlace | backend/timetable_generator.py:500-530 | the counts plus the sessions taken out stay balanced, plus one for the target when it is booked |
| Scheduling.Scheduler.ResolveConflictsAggressive | backend/timetable_generator.py:482-566 | on failure the whole state is as on entry; on success exactly one more session of the target is counted and no other class is touched |
| Scheduling.Scheduler.BookRepeatedly | backend/timetable_generator.py:446-471 | the result is the number of sessions added, never above the requirement, and only the target's count moves |
| Scheduling.Scheduler.ScheduleSubjectSessions | backend/timetable_generator.py:435-480 | the result is between 0 and the requirement and at most the sessions added; with no qualified teacher nothing changes and 0 is returned |
| Scheduling.Scheduler.GenerateTimetable | backend/timetable_generator.py:596-655 | only sessions of required subjects of listed classes are added; a state within the requirements stays within them |
| Scheduling.Scheduler.ClassTurn | backend/timetable_generator.py:623-653 | one class's turn adds only required sessions and keeps counts within requirements; a turn either changes nothing or books at least one new session and stops |
| Scheduling.Scheduler.PlaceRequired | backend/timetable_generator.py:636-650 | a booking for a subject short of its requirement adds a new booking and keeps the counts within the requirements; a failed search changes nothing |

## Left out

- Printing, `main()` and the JSON and command-line handling around the engine: these are I/O. backend/main.py is not part of this model.
- `calculate_slot_score`, `class_priority` and `success_rate`: these use floating point. The score decides which legal candidate `find_available_slot` keeps, and the priority decides the order of classes in a round. Both choices are left open.
- `teacher_availability`, `available_slots` and `room_types`: they are set up and never change, and no modelled decision reads them. The second sort key of `get_qualified_teachers` is therefore the same for every teacher.
- The constructor's default arguments `teacher_max_daily_load=5`, `consecutive_preferred=True` and `max_attempts=100`: Dafny's `Config` has no defaults, so its fields `maxDailyLoad`, `consecutivePreferred` and `maxAttempts` are always given.
- Reporting.Grid: `response["schedule"]` lists each class's slots in `time_slots` order. The model's grid is a `map`, so that order is not kept.
- `deepcopy`: a backup is a value copy of the state, so object identity is not modelled.
- Scheduling.Scheduler.FindAvailableSlot: promises only that an offered place is legal, not that None means no legal place exists. A legal candidate whose score is not above -1 is passed over in the source, and the score is not modelled.
- Catalog.CheckTeacherCoverage: names some uncovered subject, not the first one. The source walks a Python set, whose order is unspecified.
- Scheduling.QualifiedTeachers: does not state that teachers with equal load keep their list order, as Python's stable sort does.
- Scheduling.SuitableRooms: does not state that rooms with equal capacity keep their dictionary order, as Python's stable sort does.
- Scheduling.Scheduler.ScheduleSubject, Scheduling.Scheduler.FindAvailableSlot: two KeyErrors of the source are not modelled, and the model books where the source raises. First, `schedule_subject` recomputes `class_priority[cls]` from `subject_assignments[cls]` (backend/timetable_generator.py:268-271), which exists only for listed classes. For a class that has a size but is not listed, the source has already written the cell, the booking sets, the counts, `class_subject_time` and `teacher_schedule` (:247-265) when it raises, before `lab_room_bookings`. Second, `calculate_slot_score` reads `subject_assignments[cls][subject]` and `class_priority[cls]` (:350, :358), so `find_available_slot` raises at its first legal candidate when the class is not listed or does not require the subject. The model requires only `cls in class_sizes` and accepts any subject, since the score is not modelled. `generate_timetable` never reaches either case, but a direct call of `schedule_subject_sessions` or `resolve_conflicts_aggressive` can (Scheduling.Scheduler.ScheduleSubjectSessions, Scheduling.Scheduler.ResolveConflictsAggressive).
- Scheduling.Scheduler.ScheduleSubject: requires a configured room and a slot from `time_slots`, and no caller in the source passes anything else. For these two arguments the source is less strict. An unknown room raises KeyError only once the three booking tests and the qualification test have passed. An unknown slot is accepted for a subject that is not a lab, because only the lab test looks the slot up in `time_slot_index`, and the session is booked.
- Reporting.CleanAudit: requires the class list to name each class once. With a repeated class the source reports false conflicts (Reporting.RepeatedClassReadsAsConflict).
- Scheduling.Scheduler: the rule of one lab room per slot is proved per booking (ScheduleState.CommitOneLab, ScheduleState.UncommitOneLab) but is not part of the class invariant, so the methods do not promise it. `schedule_subject` does not test the rule itself. Every path that books tests it first, in `find_available_slot` or in the room loop of `schedule_any_teacher`. Putting it in the invariant would give `ScheduleSubject` a lab-busy precondition and add this reasoning to every method's proof, which is kept out to keep those proofs small.
- Scheduling.Scheduler.GenerateTimetable: promises no progress, only what a round may add. The round limit of 1000 is modelled.
- Scheduling.Scheduler.TryTeachers: promises that the booking teacher is one of the list, not that it is the first one for which a place is found. find_available_slot's choice is left open, so an earlier teacher's failure is not stated.
- Catalog.ExpandValue: requires distinct subject names and no credited subject named like the derived lab of another. Without these, a later entry can overwrite an earlier one's count, as it does in the source.
- Catalog.ExpandLabValue: the same two side conditions as Catalog.ExpandValue.
