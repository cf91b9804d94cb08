# Exam scheduler: a verified model

This project models the exam-scheduling constraint solver, class
`ExamScheduler` in `custom_csp.py`. Each subject gets an exam day in
`0..numDays-1` so that no student sits two exams on the same day. The
solver has five parts:

- it builds a conflict graph from the students' enrolments;
- it checks a trial placement against the partial schedule (`get_conflicts`,
  `is_valid_assignment`);
- it picks the next subject, plainly or with the MRV and Degree heuristics;
- it orders the candidate days, plainly or with the LCV heuristic;
- it runs a recursive chronological backtracking search. The search mutates
  one schedule in place and appends a record of every step to a trace.

The Dafny modules follow that structure:

- `ConflictGraph` holds the graph as a specification function and the
  nested-loop construction as a method proved equal to it.
- `ConflictCheck` holds the conflict list and validity test. It also holds
  the "no student double-booked" check that is run on the final schedule.
- `VariableSelection` holds the choice of the next subject.
- `ValueOrdering` holds the LCV scores and a stable sort of the days.
- `Scheduler` holds the `ExamScheduler` class. Its schedule is an
  `array<Option<int>>` that its methods update in place. Its trace is a
  `seq<Step>` field that they extend.

Subjects, students and days are numbered from 0. Student `st`'s enrolment is
`studentSubjects[st]`. The graph is a sequence with one neighbour set per
subject.

## Model

| member | source | states |
|---|---|---|
| ConflictGraph.Graph | custom_csp.py:31-40 | The conflict graph has one entry per subject. It is symmetric, has no self-loops, and links only subjects in range; `b` is a neighbour of `a` exactly when some student takes both and `a != b` |
| ConflictGraph.CreateSubjectConstraints | custom_csp.py:31-40 | Adding both directed edges for every pair of a student's subjects, student by student, yields exactly `Graph` |
| ConflictCheck.StudentConflicts | custom_csp.py:51-55 | The pairs reported for one student are exactly that student's other subjects already on the day, without duplicates |
| ConflictCheck.ConflictsFrom | custom_csp.py:50-55 | The pairs reported from student `st` onwards are exactly the clashes of those students, without duplicates |
| ConflictCheck.Conflicts | custom_csp.py:42-56 | `(st, o)` is reported exactly when student `st` takes the subject and also another subject `o` that is on the candidate day; no pair is reported twice |
| ConflictCheck.IsValidAssignment | custom_csp.py:58-60 | A placement is valid exactly when there is no clash, i.e. the conflict list is empty |
| ConflictCheck.ValidityIgnoresOwnEntry | custom_csp.py:42-60 | The subject's own schedule entry does not affect its validity on a day (so the LCV scoring, which rewrites that entry, tests the same thing) |
| ConflictCheck.AssignKeepsConsistent | custom_csp.py:151-152 | Placing a subject on a day with no conflicts keeps a schedule with no double-booked student free of double-bookings |
| ConflictCheck.ClearKeepsConsistent | custom_csp.py:158 | Resetting a subject to unassigned keeps a schedule free of double-bookings |
| ConflictCheck.NoDoubleBooking | custom_csp.py:221-227 | The final check passes when every student's set of exam days is as large as their set of subjects; a schedule that passes double-books nobody |
| ConflictCheck.PassedCheckConsistent | custom_csp.py:221-227 | If every student's set of days is as large as their set of subjects, no student has two assigned subjects on one day |
| ConflictCheck.DaysOfCard | custom_csp.py:224-226 | A student's set of exam days is never larger than their set of subjects, and is as large exactly when no two of their subjects share a day |
| ConflictCheck.NoDoubleBookingIffInjective | custom_csp.py:221-227 | The final check finds no conflicting student exactly when every student's subjects have pairwise different days |
| ConflictCheck.CompleteConsistentPassesCheck | custom_csp.py:221-227 | A complete schedule without double-bookings passes the final check |
| ConflictCheck.NoSubjectsPassCheck | custom_csp.py:221-227 | With no subjects, every student has the empty enrolment and the final check passes |
| ConflictCheck.UnassignedConsistent | custom_csp.py:17 | The initial all-unassigned schedule double-books nobody |
| ConflictCheck.ClashExcludes | custom_csp.py:148-151 | A reported conflict against an already fixed subject rules the day out for the subject in every completion of the pending subjects |
| ConflictCheck.NarrowSolution | custom_csp.py:152-155 | A completion that puts the subject on the day is also a completion, for the remaining pending subjects, of the schedule with that placement made |
| ConflictCheck.EveryDayExcluded | custom_csp.py:147-161 | When every day of `0..numDays-1` is ruled out for the branching subject, no completion of the pending subjects exists |
| ConflictCheck.SolutionFromScratch | custom_csp.py:130-131 | From the empty schedule, completing all subjects is exactly finding a complete schedule with no double-booked student |
| ConflictCheck.UnsolvableFromScratch | custom_csp.py:130-131 | If the empty schedule has no completion, the instance is unsolvable |
| ConflictCheck.GreedyPrefix | custom_csp.py:31-40 | When every subject has fewer conflict-graph neighbours than there are days, subjects `0..k-1` can each be given a day in range that none of their neighbours has. The schedule double-books nobody and leaves the other subjects unassigned |
| ConflictCheck.DegreeBoundSolvable | custom_csp.py:31-40 | The sufficient-days bound of greedy colouring: if every subject has fewer conflict-graph neighbours than there are days, the instance is solvable |
| VariableSelection.ValidDays | custom_csp.py:72-75 | A subject has at most `numDays` conflict-free days |
| VariableSelection.Score | custom_csp.py:69-83 | The score lies between minus `numDays` (MRV on) or 0 and the subject's number of neighbours (Degree on) or 0 |
| VariableSelection.MinFrom | custom_csp.py:64-65 | Returns the least member of the set at or above the bound |
| VariableSelection.BestFrom | custom_csp.py:67-85 | Returns a member of highest score among those at or above `k`, the smallest such on a tie. It returns none exactly when no member is at or above `k` |
| VariableSelection.NextSubject | custom_csp.py:62-85 | The chosen subject is a member of the unassigned set. With both heuristics off it is the minimum. Otherwise its score is maximal, where the score is minus its valid-day count (MRV) plus its unassigned neighbours (Degree) |
| ValueOrdering.Lost | custom_csp.py:101-107 | A neighbour loses between 0 and `numDays` options when the subject is placed on the day |
| ValueOrdering.Eliminated | custom_csp.py:99-110 | The options lost over a set of neighbours, summed, are never negative |
| ValueOrdering.EliminatedBounds | custom_csp.py:99-111 | A day's finite LCV score is at most `numDays` times the number of neighbours |
| ValueOrdering.DayScoreOf | custom_csp.py:94-110 | A day's LCV score is infinite exactly when placing the subject there has conflicts; otherwise it is finite and not negative |
| ValueOrdering.EliminatedRemove | custom_csp.py:100-107 | The summed score does not depend on the order in which the neighbours are visited |
| ValueOrdering.Insert | custom_csp.py:113 | Insertion into the sorted list adds exactly the inserted day |
| ValueOrdering.SortDays | custom_csp.py:113 | Sorting returns a permutation of its input |
| ValueOrdering.InsertOrdered | custom_csp.py:113 | Inserting a new day into a score-ordered list keeps it ordered, with ties by ascending day |
| ValueOrdering.SortDaysOrdered | custom_csp.py:113 | The sort of distinct days lists them by ascending score, with ties by ascending day (a stable sort over `range`) |
| ValueOrdering.PermutationOfRange | custom_csp.py:87-113 | A permutation of `0..numDays-1` has `numDays` entries, all in range |
| ValueOrdering.InfeasibleLast | custom_csp.py:94-113 | In a score-ordered list every infeasible day comes after every feasible one |
| ValueOrdering.BeforeTotal | custom_csp.py:113 | Two different days are always comparable under the sort key with its day tie-break |
| ValueOrdering.BeforeTransitive | custom_csp.py:113 | The sort order is transitive |
| Scheduler.ExamScheduler.constructor | custom_csp.py:7-20 | A new scheduler keeps its parameters and the given enrolment. It has every subject unassigned, an empty trace, and the conflict graph equal to `Graph` |
| Scheduler.ExamScheduler.LcvScores | custom_csp.py:93-111 | There is one LCV score per day of `0..numDays-1`, infinite exactly for the days on which the subject has conflicts |
| Scheduler.ExamScheduler.OrderDomainValues | custom_csp.py:87-113 | Returns a permutation of `0..numDays-1`: ascending and with the schedule untouched without LCV; with LCV sorted by LCV score with ties by ascending day, and every conflicting day after every valid one. Only the subject's own entry may change, and only to unassigned; an unassigned subject leaves the schedule as it was |
| Scheduler.ExamScheduler.EliminatedOptions | custom_csp.py:99-111 | Tentatively placing the subject for each unassigned neighbour and undoing it returns the day's summed LCV score and leaves the schedule as on entry, up to the subject's own entry being reset |
| Scheduler.ExamScheduler.PrintCurrentState | custom_csp.py:115-126 | Appends exactly one record to the trace, holding a copy of the schedule, the subject, the day, the conflicts, the tried flag and the heuristic information |
| Scheduler.ExamScheduler.ExtendsByRecord | custom_csp.py:115-126 | Appending a faithful record keeps the trace an extension of its earlier self |
| Scheduler.ExamScheduler.ExtendsTrans | custom_csp.py:147-159 | Trace extension composes across the nested calls of the search |
| Scheduler.ExamScheduler.Pending | custom_csp.py:130-131 | With no set given, the subjects to place are exactly `0..numSubjects-1` |
| Scheduler.ExamScheduler.Solve | custom_csp.py:128-161 | With nothing pending it succeeds at once and changes nothing. Subjects outside the pending set are never touched. On success with a consistent start, the schedule is a completion of the pending subjects; a whole-problem solve passes the final check. On failure from a start whose pending subjects are unassigned, the schedule is restored exactly and no completion exists. From the empty schedule it succeeds exactly when the instance is solvable, whatever the heuristic flags. The trace only grows, by faithful records about pending subjects, at least one per day on failure |
| Scheduler.ExamScheduler.Branch | custom_csp.py:136-161 | One level of the search over a non-empty pending set: the same frame, success and restore promises as `Solve`, at least `numDays` new records on failure, and on failure from an unassigned start no completion exists |
| Scheduler.ExamScheduler.TryDays | custom_csp.py:147-161 | The loop over the ordered days: on failure one record or more per day, the start restored, and every listed day ruled out for the subject in every completion |
| Scheduler.ExamScheduler.TryDay | custom_csp.py:147-159 | Its first new record is the trial, with the conflicts on the schedule as it was. A day with conflicts adds exactly that record and changes nothing. A conflict-free day that fails is cleared again and ends with a backtrack record with no conflicts. Success leaves every pending subject assigned. Failure from an unassigned start rules the day out for the subject in every completion |
| Scheduler.ExamScheduler.PlaceAndSearch | custom_csp.py:151-159 | Places the subject, searches the rest, and on failure clears the subject and ends the trace with the backtrack record; failure from an unassigned start rules the day out for the subject in every completion |
| Scheduler.ExamScheduler.Place | custom_csp.py:152 | The schedule changes only in the subject's entry, which becomes the day |
| Scheduler.ExamScheduler.Undo | custom_csp.py:158-159 | The subject's entry becomes unassigned and exactly one backtrack record with no conflicts is appended |
| Scheduler.SolveInstance | custom_csp.py:249-262 | Building a scheduler for an enrolment and solving from the empty schedule succeeds exactly when the instance is solvable, for every choice of heuristic flags; the schedule found is complete, double-books nobody and passes the final check. When every subject has fewer conflict-graph neighbours than there are days, the solve succeeds |

## Left out

- `_generate_student_subjects` (custom_csp.py:22-29) draws random enrolments. The enrolment is a constructor parameter instead. Each student's subjects must lie in `0..numSubjects-1`; the code would fail on any other id.
- `visualize_steps`, `display_solution` and `main` (custom_csp.py:163-268) print, time the run, seed the random generator and loop over heuristic settings. Only the no-double-booking check at lines 221-227 (as `ConflictCheck.NoDoubleBooking`) and one construct-and-solve run (as `Scheduler.SolveInstance`) are modelled.
- `testtt.py` hands the whole search to the external `python-constraint` library. It holds no solver logic of this repository.
- The order in which Python iterates sets is unspecified, so the model fixes one order. `get_conflicts` reports students in ascending order, and within a student the other subjects in ascending order. `get_next_subject` breaks score ties in favour of the smallest subject id.
- The score `float('inf')` of a conflicting day is the explicit `Infeasible` case, which sorts after every finite score.
- The `defaultdict(set)` graph is a sequence with one entry per subject. A subject without neighbours has the empty set, as a missing key yields in the code.
- The day count `numDays` is a `nat` in the model (in `ExamScheduler.constructor` and `SolveInstance`). The code accepts any integer and never rejects a count of zero or less. A negative count behaves exactly like 0 there, because `range` of a negative number is empty (lines 73, 90, 93 and 105). With 0 days, every search with a pending subject fails.
- Scheduler.ExamScheduler.Solve: the exact restore of the schedule on failure, and the promise that failure means no completion exists, are stated only when every pending subject was unassigned on entry. That always holds for calls the search itself makes. The code resets a failed subject to `None` rather than to its earlier day.
- Scheduler.ExamScheduler.Solve: an explicit pending set must lie within `0..numSubjects-1`, because the model's schedule is a fixed-size array with one entry per subject. The code's schedule is a dictionary and its graph a `defaultdict`, so an out-of-range id would simply gain a new key and no neighbours. Every call the code makes passes a subset of the range (lines 131 and 153).
- Scheduler.ExamScheduler.Solve: the number of trace records is stated per trial (in `TryDay`) and as a lower bound per failed call, not as an exact count for the whole search.
- The `heuristic_info or {}` default of `print_current_state` is not modelled: the search always passes the heuristic information.
