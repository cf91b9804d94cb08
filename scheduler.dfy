/**
 * The exam scheduler: a chronological backtracking search that gives each
 * subject a day so that no student sits two exams on one day, mutating
 * one schedule in place and recording a trace of its steps.
 */
module Scheduler {
  import opened Wrappers
  import opened ConflictGraph
  import opened ConflictCheck
  import opened VariableSelection
  import opened ValueOrdering
  import opened Sets

  /** What a step record says about the search at the time it was made. */
  datatype HeuristicInfo = HeuristicInfo(
    mrvActive: bool, degreeActive: bool, lcvActive: bool, subjectChosen: int, dayOrder: seq<int>)

  /** One step of the trace: a copy of the schedule, the trial and its outcome. */
  datatype Step = Step(
    schedule: Schedule, currentSubject: int, currentDay: int,
    conflicts: seq<(int, int)>, tried: bool, heuristicInfo: HeuristicInfo)

  class ExamScheduler {
    const numStudents: nat
    const numSubjects: nat
    const numDays: nat
    const useMrv: bool
    const useDegree: bool
    const useLcv: bool
    /** studentSubjects[st] is the set of subjects student st takes. */
    const studentSubjects: seq<set<int>>
    /** subjectConstraints[s] is the set of subjects sharing a student with s. */
    const subjectConstraints: seq<set<int>>
    /** schedule[s] is the day of subject s, or None while it is unassigned. */
    const schedule: array<Option<int>>
    /** The trace, in the order the steps happened. */
    var steps: seq<Step>

    /**
     * The shape every method relies on: the enrolment and the conflict
     * graph stay within the subjects, the graph has no self-loops, and
     * there is one schedule entry per subject.
     */
    ghost predicate Valid() {
      && |studentSubjects| == numStudents
      && Enrolled(studentSubjects, numSubjects)
      && schedule.Length == numSubjects
      && |subjectConstraints| == numSubjects
      && forall a, b :: 0 <= a < numSubjects && b in subjectConstraints[a] ==> 0 <= b < numSubjects && b != a
    }

    /**
     * A scheduler for a given enrolment: the conflict graph is built from
     * it, every subject starts unassigned and the trace starts empty.
     */
    constructor (numStudents: nat, numSubjects: nat, numDays: nat, useMrv: bool, useDegree: bool, useLcv: bool,
                 studentSubjects: seq<set<int>>)
      requires |studentSubjects| == numStudents
      requires Enrolled(studentSubjects, numSubjects)
      ensures Valid() && fresh(schedule)
      ensures subjectConstraints == Graph(studentSubjects, numSubjects)
      ensures this.numSubjects == numSubjects && this.numDays == numDays
      ensures this.useMrv == useMrv && this.useDegree == useDegree && this.useLcv == useLcv
      ensures this.studentSubjects == studentSubjects
      ensures forall s :: 0 <= s < numSubjects ==> schedule[s] == None
      ensures steps == []
    {
      this.numStudents := numStudents;
      this.numSubjects := numSubjects;
      this.numDays := numDays;
      this.useMrv := useMrv;
      this.useDegree := useDegree;
      this.useLcv := useLcv;
      this.studentSubjects := studentSubjects;
      this.schedule := new Option<int>[numSubjects](_ => None);
      this.steps := [];
      var constraints := CreateSubjectConstraints(studentSubjects, numSubjects);
      this.subjectConstraints := constraints;
    }

    /** The LCV scores of every day for subject on the schedule sched. */
    ghost function LcvScores(sched: Schedule, subject: int): (r: seq<DayScore>)
      requires Valid() && 0 <= subject < numSubjects && |sched| == numSubjects
      ensures |r| == numDays
      ensures forall d :: 0 <= d < numDays ==> (r[d].Infeasible? <==> Conflicts(studentSubjects, sched, subject, d) != [])
    {
      seq(numDays, d => DayScoreOf(studentSubjects, numDays, subjectConstraints, sched, subject, d))
    }

    /**
     * The candidate days for subject, in the order the search tries them:
     * a permutation of 0..numDays-1, ascending without LCV and sorted by
     * LCV score with ties in ascending day order with it. The tentative
     * placements made while scoring are undone, so a subject unassigned
     * on entry leaves the schedule as it was.
     */
    method OrderDomainValues(subject: int) returns (order: seq<int>)
      requires Valid() && 0 <= subject < numSubjects
      modifies schedule
      ensures Agree(old(schedule[..]), schedule[..], {subject})
      ensures schedule[subject] == old(schedule[subject]) || schedule[subject] == None
      ensures old(schedule[subject]) == None ==> schedule[..] == old(schedule[..])
      ensures !useLcv ==> schedule[..] == old(schedule[..])
      ensures multiset(order) == multiset(Range(numDays))
      ensures |order| == numDays && forall i :: 0 <= i < |order| ==> 0 <= order[i] < numDays
      ensures !useLcv ==> order == Range(numDays)
      ensures useLcv ==> Ordered(LcvScores(old(schedule[..]), subject), order)
      ensures useLcv ==> forall i, j ::
                (0 <= i < j < |order| && IsValidAssignment(studentSubjects, old(schedule[..]), subject, order[j])) ==>
                IsValidAssignment(studentSubjects, old(schedule[..]), subject, order[i])
    {
      if !useLcv {
        order := Range(numDays);
        PermutationOfRange(order, numDays);
        return;
      }
      ghost var entry := schedule[..];
      ghost var scores := LcvScores(entry, subject);
      var dayScores: seq<DayScore> := [];
      for day := 0 to numDays
        invariant |dayScores| == day
        invariant forall d :: 0 <= d < day ==> dayScores[d] == scores[d]
        invariant schedule[..] == entry || schedule[..] == entry[subject := None]
      {
        ValidityIgnoresOwnEntry(studentSubjects, schedule[..], entry, subject, day);
        if !IsValidAssignment(studentSubjects, schedule[..], subject, day) {
          dayScores := dayScores + [Infeasible];
        } else {
          var eliminated := EliminatedOptions(subject, day, entry);
          dayScores := dayScores + [Finite(eliminated)];
        }
      }
      order := SortDays(dayScores, Range(numDays));
      SortDaysOrdered(dayScores, Range(numDays));
      PermutationOfRange(order, numDays);
      InfeasibleLast(dayScores, order);
    }

    /**
     * The inner loop of the LCV scoring: for each unassigned neighbour,
     * tentatively places subject on day, counts the days the neighbour
     * loses, and undoes the placement.
     */
    method EliminatedOptions(subject: int, day: int, ghost entry: Schedule) returns (eliminated: int)
      requires Valid() && 0 <= subject < numSubjects
      requires |entry| == numSubjects
      requires schedule[..] == entry || schedule[..] == entry[subject := None]
      modifies schedule
      ensures schedule[..] == entry || schedule[..] == entry[subject := None]
      ensures eliminated == Eliminated(studentSubjects, numDays, entry, subject, day, subjectConstraints[subject])
    {
      eliminated := 0;
      var neighbours := subjectConstraints[subject];
      while neighbours != {}
        invariant neighbours <= subjectConstraints[subject]
        invariant schedule[..] == entry || schedule[..] == entry[subject := None]
        invariant eliminated + Eliminated(studentSubjects, numDays, entry, subject, day, neighbours) ==
                  Eliminated(studentSubjects, numDays, entry, subject, day, subjectConstraints[subject])
        decreases neighbours
      {
        NonEmptyHasMember(neighbours);
        var neighbour :| neighbour in neighbours;
        if schedule[neighbour] == None {
          schedule[subject] := Some(day);
          assert schedule[..] == entry[subject := Some(day)];
          var validDays := |ValidDays(studentSubjects, numDays, schedule[..], neighbour)|;
          eliminated := eliminated + numDays - validDays;
          schedule[subject] := None;
          assert schedule[..] == entry[subject := None];
        }
        EliminatedRemove(studentSubjects, numDays, entry, subject, day, neighbours, neighbour);
        neighbours := neighbours - {neighbour};
      }
    }

    /** Appends one record of the current state to the trace. */
    method PrintCurrentState(subject: int, day: int, conflicts: seq<(int, int)>, tried: bool, info: HeuristicInfo)
      modifies this
      ensures steps == old(steps) + [Step(schedule[..], subject, day, conflicts, tried, info)]
    {
      steps := steps + [Step(schedule[..], subject, day, conflicts, tried, info)];
    }

    /** The subjects still to place: all of them when none are given. */
    function Pending(unassigned: Option<set<int>>): (r: set<int>)
      ensures unassigned.None? ==> forall s :: s in r <==> 0 <= s < numSubjects
    {
      IdsExactly(numSubjects);
      if unassigned.None? then Ids(numSubjects) else unassigned.value
    }

    /**
     * A record the search made: a trial carries the conflicts of its
     * placement on the copied schedule, a backtrack carries none.
     */
    ghost predicate Faithful(step: Step) {
      && 0 <= step.currentDay < numDays
      && (step.tried ==>
            step.conflicts == Conflicts(studentSubjects, step.schedule, step.currentSubject, step.currentDay))
      && (!step.tried ==> step.conflicts == [])
    }

    /** The trace newer continues older, with faithful records about subjects in pending only. */
    ghost predicate Extends(older: seq<Step>, newer: seq<Step>, pending: set<int>) {
      && |older| <= |newer|
      && newer[..|older|] == older
      && forall k :: |older| <= k < |newer| ==> Faithful(newer[k]) && newer[k].currentSubject in pending
    }

    lemma ExtendsByRecord(older: seq<Step>, newer: seq<Step>, record: Step, pending: set<int>)
      requires Extends(older, newer, pending)
      requires Faithful(record) && record.currentSubject in pending
      ensures Extends(older, newer + [record], pending)
    {
      assert (newer + [record])[..|older|] == newer[..|older|];
    }

    lemma ExtendsTrans(a: seq<Step>, b: seq<Step>, c: seq<Step>, inner: set<int>, pending: set<int>)
      requires Extends(a, b, pending) && Extends(b, c, inner) && inner <= pending
      ensures Extends(a, c, pending)
    {
      assert c[..|a|] == c[..|b|][..|a|];
      forall k | |a| <= k < |c| ensures Faithful(c[k]) && c[k].currentSubject in pending {
        if k < |b| {
          assert c[k] == c[..|b|][k];
        }
      }
    }

    /**
     * The backtracking search over the pending subjects. Subjects outside
     * them are never touched; a consistent schedule stays consistent. On
     * success every pending subject has a day; on failure a schedule whose
     * pending subjects were all unassigned is restored exactly, and no
     * completion of it exists, so from the empty schedule the search
     * succeeds exactly when the instance is solvable. The trace only
     * grows, by faithful records about pending subjects, at least one per
     * day tried.
     */
    method Solve(unassigned: Option<set<int>>) returns (ok: bool)
      requires Valid()
      requires unassigned.Some? ==> forall s :: s in unassigned.value ==> 0 <= s < numSubjects
      modifies this, schedule
      decreases if unassigned.None? then 1 else 0, |Pending(unassigned)|, 4
      ensures Agree(old(schedule[..]), schedule[..], Pending(unassigned))
      ensures Consistent(studentSubjects, old(schedule[..])) ==> Consistent(studentSubjects, schedule[..])
      ensures ok ==> Assigned(schedule[..], Pending(unassigned), numDays)
      ensures ok && unassigned.None? && Consistent(studentSubjects, old(schedule[..])) ==>
                NoDoubleBooking(studentSubjects, schedule[..])
      ensures !ok && Unassigned(old(schedule[..]), Pending(unassigned)) ==>
                schedule[..] == old(schedule[..])
      ensures Pending(unassigned) == {} ==> ok && schedule[..] == old(schedule[..]) && steps == old(steps)
      ensures !ok && Pending(unassigned) != {} ==> |steps| >= |old(steps)| + numDays
      ensures Extends(old(steps), steps, Pending(unassigned))
      ensures ok && Consistent(studentSubjects, old(schedule[..])) ==>
                Solution(studentSubjects, numDays, schedule[..], old(schedule[..]), Pending(unassigned))
      ensures !ok && Unassigned(old(schedule[..]), Pending(unassigned)) ==>
                forall sol :: !Solution(studentSubjects, numDays, sol, old(schedule[..]), Pending(unassigned))
      ensures unassigned.None? && Unassigned(old(schedule[..]), Pending(unassigned)) ==>
                (ok <==> Solvable(studentSubjects, numSubjects, numDays))
    {
      var pending := Pending(unassigned);
      if pending == {} {
        if unassigned.None? {
          IdsHas(numSubjects, 0);
          NoSubjectsPassCheck(studentSubjects, schedule[..]);
        }
        return true;
      }
      ok := Branch(pending);
      if unassigned.None? {
        ghost var start := old(schedule[..]);
        forall s | 0 <= s < numSubjects ensures s in pending {
          IdsHas(numSubjects, s);
        }
        if ok && Consistent(studentSubjects, start) {
          CompleteConsistentPassesCheck(studentSubjects, schedule[..], numDays);
        }
        if Unassigned(start, pending) {
          UnassignedConsistent(studentSubjects, start);
          if !ok {
            UnsolvableFromScratch(studentSubjects, numDays, start);
          }
        }
      }
    }

    /**
     * One level of the search over a non-empty set of pending subjects:
     * chooses the subject to branch on, orders its days, and tries them.
     */
    method Branch(pending: set<int>) returns (ok: bool)
      requires Valid()
      requires forall s :: s in pending ==> 0 <= s < numSubjects
      requires pending != {}
      modifies this, schedule
      decreases 0, |pending|, 3
      ensures Agree(old(schedule[..]), schedule[..], pending)
      ensures Consistent(studentSubjects, old(schedule[..])) ==> Consistent(studentSubjects, schedule[..])
      ensures ok ==> Assigned(schedule[..], pending, numDays)
      ensures !ok && Unassigned(old(schedule[..]), pending) ==>
                schedule[..] == old(schedule[..])
      ensures !ok ==> |steps| >= |old(steps)| + numDays
      ensures Extends(old(steps), steps, pending)
      ensures !ok && Unassigned(old(schedule[..]), pending) ==>
                forall sol :: !Solution(studentSubjects, numDays, sol, old(schedule[..]), pending)
    {
      var subject := NextSubject(studentSubjects, numDays, subjectConstraints, schedule[..],
                                 pending, useMrv, useDegree);
      var orderedDays := OrderDomainValues(subject);
      var info := HeuristicInfo(useMrv, useDegree, useLcv, subject, orderedDays);
      ghost var start := old(schedule[..]);
      ghost var allClear := Unassigned(start, pending);
      if Consistent(studentSubjects, start) {
        assert schedule[..] == start || schedule[..] == start[subject := None];
        ClearKeepsConsistent(studentSubjects, start, subject);
      }
      ok := TryDays(subject, orderedDays, pending, info);
      if !ok && allClear {
        EveryDayExcluded(studentSubjects, numDays, start, pending, subject, orderedDays);
      }
    }

    /**
     * The loop over the candidate days of subject, in the given order,
     * until one trial succeeds. When all fail, every day has been ruled
     * out for subject in every completion of the pending subjects.
     */
    method TryDays(subject: int, orderedDays: seq<int>, pending: set<int>, info: HeuristicInfo) returns (found: bool)
      requires Valid()
      requires forall s :: s in pending ==> 0 <= s < numSubjects
      requires subject in pending
      requires forall i :: 0 <= i < |orderedDays| ==> 0 <= orderedDays[i] < numDays
      modifies this, schedule
      decreases 0, |pending|, 2
      ensures Agree(old(schedule[..]), schedule[..], pending)
      ensures Consistent(studentSubjects, old(schedule[..])) ==> Consistent(studentSubjects, schedule[..])
      ensures found ==> Assigned(schedule[..], pending, numDays)
      ensures !found && Unassigned(old(schedule[..]), pending) ==>
                schedule[..] == old(schedule[..])
      ensures !found ==> |steps| >= |old(steps)| + |orderedDays|
      ensures Extends(old(steps), steps, pending)
      ensures !found && Unassigned(old(schedule[..]), pending) ==>
                forall sol, j :: 0 <= j < |orderedDays| && Solution(studentSubjects, numDays, sol, old(schedule[..]), pending) ==>
                  sol[subject] != Some(orderedDays[j])
    {
      ghost var start := schedule[..];
      ghost var startSteps := steps;
      ghost var allClear := Unassigned(start, pending);
      ghost var startConsistent := Consistent(studentSubjects, start);
      for i := 0 to |orderedDays|
        invariant Agree(start, schedule[..], pending)
        invariant startConsistent ==> Consistent(studentSubjects, schedule[..])
        invariant allClear ==> schedule[..] == start
        invariant |steps| >= |startSteps| + i
        invariant Extends(startSteps, steps, pending)
        invariant allClear ==> forall sol, j :: 0 <= j < i && Solution(studentSubjects, numDays, sol, start, pending) ==>
                    sol[subject] != Some(orderedDays[j])
      {
        ghost var beforeTrial := steps;
        found := TryDay(subject, orderedDays[i], pending, info);
        ExtendsTrans(startSteps, beforeTrial, steps, pending, pending);
        if found {
          return;
        }
      }
      found := false;
    }

    /**
     * One trial of the search: records the attempt with its conflicts and,
     * when there are none, places subject on day and searches on.
     */
    method TryDay(subject: int, day: int, pending: set<int>, info: HeuristicInfo) returns (found: bool)
      requires Valid()
      requires forall s :: s in pending ==> 0 <= s < numSubjects
      requires subject in pending && 0 <= day < numDays
      modifies this, schedule
      decreases 0, |pending|, 1
      ensures Agree(old(schedule[..]), schedule[..], pending)
      ensures Consistent(studentSubjects, old(schedule[..])) ==> Consistent(studentSubjects, schedule[..])
      ensures found ==> Assigned(schedule[..], pending, numDays)
      ensures !found && Unassigned(old(schedule[..]), pending) ==>
                schedule[..] == old(schedule[..])
      ensures |steps| > |old(steps)| && Extends(old(steps), steps, pending)
      ensures steps[|old(steps)|] ==
                Step(old(schedule[..]), subject, day, Conflicts(studentSubjects, old(schedule[..]), subject, day), true, info)
      ensures |Conflicts(studentSubjects, old(schedule[..]), subject, day)| > 0 ==>
                !found && schedule[..] == old(schedule[..]) && |steps| == |old(steps)| + 1
      ensures !found && |Conflicts(studentSubjects, old(schedule[..]), subject, day)| == 0 ==>
                schedule[subject] == None && |steps| >= |old(steps)| + 2 &&
                steps[|steps| - 1] == Step(schedule[..], subject, day, [], false, info)
      ensures !found && Unassigned(old(schedule[..]), pending) ==>
                forall sol :: Solution(studentSubjects, numDays, sol, old(schedule[..]), pending) ==>
                  sol[subject] != Some(day)
    {
      ghost var startSteps := steps;
      var conflicts := Conflicts(studentSubjects, schedule[..], subject, day);
      PrintCurrentState(subject, day, conflicts, true, info);
      ExtendsByRecord(startSteps, startSteps, steps[|steps| - 1], pending);
      found := false;
      if |conflicts| > 0 {
        ghost var start := schedule[..];
        if Unassigned(start, pending) {
          assert conflicts[0] in conflicts;
          forall sol | Solution(studentSubjects, numDays, sol, start, pending) ensures sol[subject] != Some(day) {
            ClashExcludes(studentSubjects, numDays, sol, start, pending, subject, day, conflicts[0]);
          }
        }
      } else {
        ghost var beforeSearch := steps;
        found := PlaceAndSearch(subject, day, pending, info);
        ExtendsTrans(startSteps, beforeSearch, steps, pending, pending);
        assert steps[|startSteps|] == steps[..|beforeSearch|][|startSteps|] == beforeSearch[|startSteps|];
      }
    }

    /**
     * The rest of a trial on a conflict-free day: places subject on day and
     * searches the other pending subjects; on their failure clears subject
     * again and records the backtrack.
     */
    method PlaceAndSearch(subject: int, day: int, pending: set<int>, info: HeuristicInfo) returns (found: bool)
      requires Valid()
      requires forall s :: s in pending ==> 0 <= s < numSubjects
      requires subject in pending && 0 <= day < numDays
      requires IsValidAssignment(studentSubjects, schedule[..], subject, day)
      modifies this, schedule
      decreases 0, |pending|, 0
      ensures Agree(old(schedule[..]), schedule[..], pending)
      ensures Consistent(studentSubjects, old(schedule[..])) ==> Consistent(studentSubjects, schedule[..])
      ensures found ==> Assigned(schedule[..], pending, numDays)
      ensures !found && Unassigned(old(schedule[..]), pending) ==>
                schedule[..] == old(schedule[..])
      ensures Extends(old(steps), steps, pending)
      ensures !found ==>
                schedule[subject] == None && |steps| > |old(steps)| &&
                steps[|steps| - 1] == Step(schedule[..], subject, day, [], false, info)
      ensures !found && Unassigned(old(schedule[..]), pending) ==>
                forall sol :: Solution(studentSubjects, numDays, sol, old(schedule[..]), pending) ==>
                  sol[subject] != Some(day)
    {
      ghost var startSteps := steps;
      ghost var start := schedule[..];
      Place(subject, day);
      if Consistent(studentSubjects, start) {
        AssignKeepsConsistent(studentSubjects, start, subject, day);
      }
      var newUnassigned := pending - {subject};
      found := Solve(Some(newUnassigned));
      if found {
        return;
      }
      if Unassigned(start, pending) {
        forall sol | Solution(studentSubjects, numDays, sol, start, pending) ensures sol[subject] != Some(day) {
          NarrowSolution(studentSubjects, numDays, sol, start, pending, subject, day);
        }
      }
      ghost var failed := schedule[..];
      ghost var beforeBacktrack := steps;
      Undo(subject, day, info);
      if Consistent(studentSubjects, failed) {
        ClearKeepsConsistent(studentSubjects, failed, subject);
      }
      ExtendsByRecord(startSteps, beforeBacktrack, steps[|steps| - 1], pending);
    }

    /** Places subject on day. */
    method Place(subject: int, day: int)
      requires 0 <= subject < schedule.Length
      modifies schedule
      ensures schedule[..] == old(schedule[..])[subject := Some(day)]
    {
      schedule[subject] := Some(day);
    }

    /** Backtracking from a failed placement: clears subject and records the backtrack. */
    method Undo(subject: int, day: int, info: HeuristicInfo)
      requires 0 <= subject < schedule.Length
      modifies this, schedule
      ensures schedule[..] == old(schedule[..])[subject := None]
      ensures steps == old(steps) + [Step(schedule[..], subject, day, [], false, info)]
    {
      schedule[subject] := None;
      PrintCurrentState(subject, day, [], false, info);
    }
  }

  /**
   * A whole run on one enrolment: builds a scheduler with the given
   * heuristics and searches from the empty schedule. It succeeds exactly
   * when some complete schedule double-books no student, so the heuristic
   * flags change the order of the search but never its answer; on success
   * the schedule it returns passes the final check.
   */
  method SolveInstance(numStudents: nat, numSubjects: nat, numDays: nat, useMrv: bool, useDegree: bool, useLcv: bool,
                       studentSubjects: seq<set<int>>) returns (ok: bool, sched: Schedule)
    requires |studentSubjects| == numStudents
    requires Enrolled(studentSubjects, numSubjects)
    ensures ok <==> Solvable(studentSubjects, numSubjects, numDays)
    ensures ok ==> |sched| == numSubjects && Complete(sched, numDays) && Consistent(studentSubjects, sched)
    ensures ok ==> NoDoubleBooking(studentSubjects, sched)
    ensures (forall s :: 0 <= s < numSubjects ==> |Graph(studentSubjects, numSubjects)[s]| < numDays) ==> ok
  {
    var scheduler := new ExamScheduler(numStudents, numSubjects, numDays, useMrv, useDegree, useLcv, studentSubjects);
    forall s | s in Ids(numSubjects) ensures 0 <= s < numSubjects && scheduler.schedule[s] == None {
      IdsHas(numSubjects, s);
    }
    UnassignedConsistent(studentSubjects, scheduler.schedule[..]);
    ok := scheduler.Solve(None);
    sched := scheduler.schedule[..];
    if ok {
      forall s | 0 <= s < numSubjects ensures s in Ids(numSubjects) {
        IdsHas(numSubjects, s);
      }
    }
    if forall s :: 0 <= s < numSubjects ==> |Graph(studentSubjects, numSubjects)[s]| < numDays {
      DegreeBoundSolvable(studentSubjects, numSubjects, numDays);
    }
  }
}
