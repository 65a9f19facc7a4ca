# Hospital shift scheduler: the assignment engine and the eligibility validator

This project models the core of a hospital shift scheduler and proves
properties of the model. The modelled parts are:

- **Staff members** (`Personnel.Staff`). A person has an id, a name, a role
  and the shift names they are available for. These never change. The one
  thing that does change is the list of shift names they have been assigned.
- **Shifts** (`Shifts.Shift`). A shift has a name, a required role and a
  required headcount, which defaults to 1. It keeps the list of people
  assigned to it. Its shortage is `max(0, required - assigned)`.
- **The assignment engine** (`Scheduling.ScheduleManager`). `AssignShifts`
  takes the shifts in list order and does the following for each:
  - It selects the people whose role matches, keeping staff-list order.
  - If there are none, it records a shortage for the full headcount.
  - Otherwise it sorts the candidates stably by how many shifts they hold.
  - It then walks the sorted candidates until the headcount is reached.
    Just before each commit it checks availability, then double booking. A
    candidate who fails a check becomes a conflict record and does not count.
  - A commit appends the shift's name to the person and the person to the
    shift.
  - If the shift is still short after the walk, it records the shortage.
  - The run succeeds exactly when it recorded no conflict and no shortage.
- **The eligibility validator** (`Validation.ParallelValidator`). This is a
  separate checker that the engine does not call. It tests role, then
  availability, then double booking, and splits a candidate list into the
  eligible people and the conflicts. Above five candidates
  `_parallel_validation` runs the checks on a thread pool and collects the
  results in completion order. It counts its calls
  and its parallel calls.

The engine's state is modelled as a value, `Scheduling.World`. It holds every
person's assigned list, every shift's assigned list, and the two record lists.
Three pure functions describe what the engine does to that state:

- `Walk`: the candidate walk for one shift.
- `Pass`: one shift.
- `Run`: a whole call of `assign_shifts`.

The imperative `ScheduleManager.AssignShifts` updates the objects in place. It
is proved to leave them in exactly the state `Run` gives for the state it
started from. The module `SchedulingProperties` proves the engine's promises
about `Walk`, `Pass` and `Run`: the headcount bound, no double booking, the
shortage records, and least-loaded-first selection. For a staff list that
names nobody twice, it also states exactly which candidates a pass examines,
which it commits and which conflicts it records, in candidate order.

Python's `list.sort(key=...)` is modelled as decorate-then-sort over
`(item, key)` pairs, using a stable insertion sort (`StableSort`). The key is
computed once per element before sorting, as Python does. The sort is proved
to produce ascending keys and to keep the order of equal keys, which fixes
its result uniquely.

The thread pool's completion order is a parameter, `completed`, which may be
any rearrangement of the candidate list. The collecting loop is the same
loop as the sequential path, run over `completed`.

## Model

| member | source | states |
|---|---|---|
| Personnel.Staff.constructor | src/staff.py:2-7 | the id, name, role and availability are the arguments; the assigned list is empty, so the assignment count is 0 |
| Personnel.Staff.AddAssignedShift | src/staff.py:24-28 | the name is appended at the end; the count goes up by exactly 1; afterwards the person holds that name, and every name held before is still held; id, name, role and availability are constant fields |
| Personnel.Staff.AssignmentCount | src/staff.py:27-28 | the count is 0 exactly when the person holds no shift name at all |
| Personnel.Staff.IsAvailableForShift | src/staff.py:30-31 | holds exactly when the name occurs at some position of the availability list |
| Personnel.Staff.IsAlreadyAssignedToShift | src/staff.py:33-34 | holds exactly when the name occurs at some position of the assigned list |
| Shifts.ShortageOf | src/shift.py:26-27 | the shortage is never negative and is at least `required - assigned`; it is either 0 or exactly `required - assigned`; it is 0 exactly when `assigned >= required` |
| Shifts.Shift.constructor | src/shift.py:2-6 | name, role and headcount are the arguments, the headcount defaults to 1, the assigned list is empty, and the shortage is `max(0, required_count)` |
| Shifts.Shift.AddStaff | src/shift.py:20-21 | exactly one person is appended; a positive shortage drops by exactly 1; a zero shortage stays 0; no headcount check is made here |
| Shifts.Shift.Shortage | src/shift.py:26-27 | the shortage is 0 exactly when the assigned list reaches the headcount; otherwise it is the number of people still missing |
| Shifts.Shift.IsFullyStaffed | src/shift.py:23-24 | a shift is fully staffed exactly when the shortage computed from its headcount and assigned list is 0 |
| Shifts.FullyStaffedIffNoShortage | src/shift.py:23-27 | a shift is fully staffed exactly when its shortage is 0 |
| StableSort.SortByKey | src/schedule_manager.py:24 | the sort is a permutation of its input (same multiset, same length) |
| StableSort.SortByKeySorted | src/schedule_manager.py:24 | the sorted keys are ascending |
| StableSort.SortByKeyStable | src/schedule_manager.py:24 | stability: for every key, the elements with that key keep their relative order |
| Scheduling.Eligible | src/schedule_manager.py:49-54 | the eligible list holds exactly the people whose role equals the shift's required role (both directions) and is no longer than the staff list |
| Scheduling.EligibleAppend | src/schedule_manager.py:49-54 | filtering keeps staff-list order: the filter of a concatenation is the concatenation of the filters |
| Scheduling.CheckConflicts | src/schedule_manager.py:56-73 | there is no conflict exactly when the person is available and does not hold the shift's name; a conflict carries the person's and the shift's names; it is an availability mismatch exactly when the person is unavailable, so availability is checked first and double booking only after it |
| Scheduling.Candidates | src/schedule_manager.py:24 | the sorted candidates are a rearrangement of the eligible list, with the same members |
| Scheduling.CandidatesOrdered | src/schedule_manager.py:24 | the candidates come in ascending order of shifts held, and the people holding equally many keep their eligible-list order |
| Scheduling.Commit | src/schedule_manager.py:36-37 | a commit appends the shift's name to the person's list and the person to the shift's list; every other person's and shift's list and both record lists are unchanged |
| Scheduling.Walk | src/schedule_manager.py:26-38 | the value model of the candidate loop; it keeps the people and shifts the state knows, and `WalkRecords`, `WalkCommits` and `WalkOutcome` state what it does |
| Scheduling.Pass | src/schedule_manager.py:13-45 | the value model of one iteration of the shift loop; it keeps the people and shifts the state knows, and the `Pass…` lemmas state what it does |
| Scheduling.Run | src/schedule_manager.py:12-47 | the value model of the whole shift loop; it keeps the people and shifts the state knows, and the `Run…` lemmas state what it does |
| Scheduling.Succeeded | src/schedule_manager.py:47 | a run succeeds exactly when both record lists are empty |
| Scheduling.ScheduleManager.constructor | src/schedule_manager.py:6-10 | the lists are the arguments, and the conflict and shortage lists start empty |
| Scheduling.ScheduleManager.GetEligibleStaff | src/schedule_manager.py:49-54 | the loop builds exactly `Eligible(staff_list, required_role)` |
| Scheduling.ScheduleManager.AssignShifts | src/schedule_manager.py:12-47 | every person's and every shift's assigned list, and both record lists, end as `Run` of the starting state; the result is true exactly when both record lists are empty |
| Scheduling.ScheduleManager.AssignShift | src/schedule_manager.py:13-45 | one iteration of the shift loop leaves the objects in the state `Pass` gives |
| Scheduling.ScheduleManager.SortCandidates | src/schedule_manager.py:24 | the sort by current assignment count yields `Candidates` of the eligible list under the current loads |
| Scheduling.ScheduleManager.CommitCandidates | src/schedule_manager.py:26-38 | the candidate loop, with its `break` at the headcount and its `continue` after a conflict, leaves the objects in the state `Walk` gives |
| Scheduling.ScheduleManager.RecordConflict | src/schedule_manager.py:32-34 | the conflict record is appended and nothing else changes |
| Scheduling.ScheduleManager.RecordShortage | src/schedule_manager.py:40-45 | the shortage record is appended and nothing else changes |
| Scheduling.ScheduleManager.CommitStaff | src/schedule_manager.py:36-37 | a commit appends the shift's name to the person and the person to the shift |
| SchedulingProperties.WalkRecords | src/schedule_manager.py:26-38 | the walk leaves the shortages alone, only appends to the conflicts and to its own shift, and leaves every other shift unchanged; each candidate it examines is committed or recorded as a conflict; it commits no more people than the headcount still open; a conflict does not count, so a walk that ends short of the headcount has committed or recorded every candidate |
| SchedulingProperties.Failures | src/schedule_manager.py:31-34 | the conflicts of the candidates who fail the checks, in candidate order: at most one per candidate |
| SchedulingProperties.Passing | src/schedule_manager.py:31-38 | the candidates who pass the checks, in candidate order: each is a candidate, and with `Failures` they account for every candidate exactly once |
| SchedulingProperties.WalkOutcome | src/schedule_manager.py:26-38 | with no candidate listed twice, the walk examines a prefix of the candidates in order; the conflicts it appends are the `CheckConflicts` results of the examined candidates who fail, and the people it commits are the examined candidates who pass, both in candidate order; it stops before the end only once the headcount is reached, and it examines nobody after reaching it |
| SchedulingProperties.PassOutcome | src/schedule_manager.py:13-38 | for a staff list that names nobody twice, the same holds for a whole pass over its least-loaded-first candidates, checked against the loads the pass starts from |
| SchedulingProperties.WalkCommits | src/schedule_manager.py:26-38 | the people the walk commits are distinct candidates who are available and did not hold the shift's name; each gains the name once, and nobody else's list changes |
| SchedulingProperties.PassNoEligible | src/schedule_manager.py:16-22 | when nobody has the role, exactly one shortage record with the full headcount is appended and nothing else changes |
| SchedulingProperties.PassShortageRecord | src/schedule_manager.py:40-45 | after the walk, a shortage record is appended exactly when the shortage is positive, and it carries that shortage |
| SchedulingProperties.PassRecords | src/schedule_manager.py:13-45 | one pass commits at most `max(0, required_count)` people, only to its own shift, and the record lists only grow |
| SchedulingProperties.PassCommits | src/schedule_manager.py:26-38 | everyone a pass commits has the required role, is available and did not hold the shift's name; they are distinct; each gains the name once, and nobody else's list changes |
| SchedulingProperties.PassNoDoubleBooking | src/schedule_manager.py:65-71 | because double booking is checked on the live list just before each commit, a pass keeps every assigned list free of repeated names |
| SchedulingProperties.RunRecords | src/schedule_manager.py:13-45 | over a whole run, earlier records stay in front, every shift's list only grows, and unlisted shifts are untouched; when no shift object is listed twice, each listed shift gains at most `max(0, required_count)` people |
| SchedulingProperties.RunWithinHeadcount | src/schedule_manager.py:26-38 | for distinct shift objects that start empty, no shift ends with more than `max(0, required_count)` people |
| SchedulingProperties.RunNoDoubleBooking | src/schedule_manager.py:31-38 | if nobody holds a shift name twice at the start, nobody does at the end |
| SchedulingProperties.PassPicksLeastLoaded | src/schedule_manager.py:24-38 | for a shift needing one person, where every eligible person passes the checks, the person committed has the role and holds no more shifts than any other eligible person; no record is added |
| SchedulingProperties.PassSoleCandidateDoubleBooked | src/schedule_manager.py:65-71 | a sole candidate who already holds the shift's name produces one double-booking conflict and no commit, plus a shortage record when the shift is short |
| Validation.ValidateSingle | src/ParallelValidator.py:65-76 | a person is eligible exactly when there is no conflict, and exactly when the role matches, the person is available and does not hold the name; the conflict is the first failing check, in the order role, availability, double booking |
| Validation.EligibleOf | src/ParallelValidator.py:52-63 | the eligible list of the sequential loop: at most one entry per candidate, each a candidate; `EligibleOfMembers` states exactly who is in it |
| Validation.ConflictsOf | src/ParallelValidator.py:52-63 | the conflict list of the sequential loop: at most one entry per candidate; by its definition it holds one conflict type per failing candidate, in input order, and `ValidationPartitions` states that together with the eligible list it has exactly one entry per candidate |
| Validation.ValidationAppend | src/ParallelValidator.py:52-63 | both lists keep input order: validating a concatenation concatenates the results |
| Validation.EligibleOfMembers | src/ParallelValidator.py:56-59 | the eligible list holds exactly the candidates that pass every check |
| Validation.ValidationPartitions | src/ParallelValidator.py:52-63 | every candidate lands in exactly one of the two lists: `|eligible| + |conflicts| == |staff_list|` |
| Validation.EligibleReorders | src/ParallelValidator.py:28-50 | validating any rearrangement of the candidates gives a rearrangement of the eligible list |
| Validation.ConflictsReorder | src/ParallelValidator.py:28-50 | validating any rearrangement of the candidates gives a rearrangement of the conflict list |
| Validation.ValidationFramed | src/ParallelValidator.py:65-76 | the results depend only on the candidates' state, so two validations with no change to any candidate in between agree |
| Validation.ParallelValidator.constructor | src/ParallelValidator.py:7-9 | both counters start at 0 |
| Validation.ParallelValidator.ValidateStaff | src/ParallelValidator.py:11-26 | `total` goes up by exactly 1 and `parallel` goes up by 1 exactly when there are more than five candidates, so `parallel <= total` is kept; with five or fewer candidates the results are exactly the sequential ones; above five they are the sequential loop run over the completion order; in every case they are the sequential results up to order; only the validator's counters change |
| Validation.ParallelValidator.ParallelValidation | src/ParallelValidator.py:28-50 | the results are collected in completion order, and are the sequential results up to order |
| Validation.ParallelValidator.SequentialValidation | src/ParallelValidator.py:52-63 | the loop builds the in-order subsequence of candidates that pass, and one conflict per failing candidate, in input order |
| Validation.ParallelValidator.GetStatistics | src/ParallelValidator.py:78-84 | the report gives the counters, and `sequential = total - parallel` is non-negative |

## Left out

- Console output is not modelled: `print_schedule` and `print_staff_assignments` in src/schedule_manager.py. src/main.py is not part of this model. It builds sample data and prints, and it refers to a validator and a `get_errors` that the engine does not define.
- src/ScheduleExceptions.py is not part of this model. The engine never raises these exceptions, and they only carry timestamps and formatted messages.
- The f-string `message` of a conflict record is not modelled. The records keep their type, staff name and shift name.
- The thread pool (`ThreadPoolExecutor`, `as_completed`, `max_workers`) is not modelled. Its only observable effect is the order of the results, which is the parameter `completed`.
- The `except` branch that records an `error` conflict in `_parallel_validation` is not modelled: `_validate_single` raises nothing on these inputs.
- The `time` field of `validate_staff`'s result is not modelled. It is wall-clock time, a floating-point value.
- The getters (`get_name`, `get_role`, `get_conflicts`, `get_shortages`, and the others) are plain field reads.
- Validation.ParallelValidator.ValidateStaff: the agreement of two calls on unchanged inputs is not stated as one two-call method. It follows from three facts. `ValidateStaff` modifies only the validator. Its results are `EligibleOf`/`ConflictsOf` of the candidate list, or of the completion order above five candidates. `ValidationFramed` shows those depend on nothing else. The results are therefore identical for five or fewer candidates. Above five they are identical for the same completion order, and otherwise equal up to order, since `as_completed` may finish the tasks in a different order on each call.
- Mutation by callers is not modelled. Python callers could change the staff or shift lists the engine holds; here `staff_list` and `shift_list` are constant, while the people and shifts in them are updated in place.
- SchedulingProperties.RunWithinHeadcount: the headcount bound for a whole run needs distinct, initially empty shift objects. A shift object listed twice can be filled by each of its passes, each pass committing at most `max(0, required_count)` people (`PassRecords`).
- SchedulingProperties.WalkOutcome: the exact list of conflicts and commits is stated for candidate lists that name nobody twice. A person listed twice is checked the second time against the list the first commit already changed. `WalkRecords` and `WalkCommits` hold without this condition.
- SchedulingProperties.PassOutcome: the exact outcome of a pass is stated for staff lists that name nobody twice, for the same reason as `WalkOutcome`. `PassRecords` and `PassCommits` hold without this condition.
