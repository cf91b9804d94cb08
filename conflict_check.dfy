/**
 * Checking a trial placement of a subject on a day against a partial
 * schedule, and the schedule-wide "no student sits two exams on one day"
 * property that the final check of a solution tests.
 */
module ConflictCheck {
  import opened Wrappers
  import opened ConflictGraph
  import opened Sets

  /** A partial schedule: entry s is the day of subject s, or None while unassigned. */
  type Schedule = seq<Option<int>>

  /**
   * Pair p = (student, other) is a conflict for placing subject on day:
   * the student takes subject and a different subject other that the
   * schedule already puts on day.
   */
  predicate Clash(enrolment: seq<set<int>>, sched: Schedule, subject: int, day: int, p: (int, int)) {
    && 0 <= p.0 < |enrolment|
    && subject in enrolment[p.0]
    && p.1 in enrolment[p.0]
    && p.1 != subject
    && 0 <= p.1 < |sched|
    && sched[p.1] == Some(day)
  }

  predicate Distinct<T(==)>(s: seq<T>) {
    forall i, j :: 0 <= i < j < |s| ==> s[i] != s[j]
  }

  /** The conflicts of student st through the candidate subjects o..|sched|-1, in ascending order. */
  function StudentConflicts(enrolment: seq<set<int>>, sched: Schedule, subject: int, day: int, st: int, o: nat)
    : (r: seq<(int, int)>)
    requires 0 <= st < |enrolment| && subject in enrolment[st]
    decreases |sched| - o
    ensures forall p :: p in r <==> p.0 == st && o <= p.1 && Clash(enrolment, sched, subject, day, p)
    ensures Distinct(r)
  {
    if o >= |sched| then []
    else
      var rest := StudentConflicts(enrolment, sched, subject, day, st, o + 1);
      if o in enrolment[st] && o != subject && sched[o] == Some(day) then [(st, o)] + rest else rest
  }

  /** The conflicts of the students st..|enrolment|-1, students in ascending order. */
  function ConflictsFrom(enrolment: seq<set<int>>, sched: Schedule, subject: int, day: int, st: nat)
    : (r: seq<(int, int)>)
    requires st <= |enrolment|
    decreases |enrolment| - st
    ensures forall p :: p in r <==> st <= p.0 && Clash(enrolment, sched, subject, day, p)
    ensures Distinct(r)
  {
    if st == |enrolment| then []
    else
      var rest := ConflictsFrom(enrolment, sched, subject, day, st + 1);
      if subject in enrolment[st] then StudentConflicts(enrolment, sched, subject, day, st, 0) + rest
      else rest
  }

  /**
   * The conflicts that placing subject on day would create: exactly the
   * clashing (student, other subject) pairs, each reported once.
   */
  function Conflicts(enrolment: seq<set<int>>, sched: Schedule, subject: int, day: int): (r: seq<(int, int)>)
    ensures forall p :: p in r <==> Clash(enrolment, sched, subject, day, p)
    ensures Distinct(r)
  {
    ConflictsFrom(enrolment, sched, subject, day, 0)
  }

  /** Placing subject on day is valid exactly when it creates no conflict. */
  function IsValidAssignment(enrolment: seq<set<int>>, sched: Schedule, subject: int, day: int): (ok: bool)
    ensures ok <==> forall p :: !Clash(enrolment, sched, subject, day, p)
  {
    var r := Conflicts(enrolment, sched, subject, day);
    assert |r| > 0 ==> r[0] in r;
    |r| == 0
  }

  /** Whether subject is valid on day does not depend on subject's own entry. */
  lemma ValidityIgnoresOwnEntry(enrolment: seq<set<int>>, s1: Schedule, s2: Schedule, subject: int, day: int)
    requires |s1| == |s2|
    requires forall s :: 0 <= s < |s1| && s != subject ==> s1[s] == s2[s]
    ensures IsValidAssignment(enrolment, s1, subject, day) == IsValidAssignment(enrolment, s2, subject, day)
  {
    if IsValidAssignment(enrolment, s1, subject, day) != IsValidAssignment(enrolment, s2, subject, day) {
      var p :| Clash(enrolment, s1, subject, day, p) != Clash(enrolment, s2, subject, day, p);
      assert false;
    }
  }

  /** No student has two of their assigned subjects on the same day. */
  predicate Consistent(enrolment: seq<set<int>>, sched: Schedule) {
    forall st, a, b ::
      (0 <= st < |enrolment| && a in enrolment[st] && b in enrolment[st] && a != b &&
       0 <= a < |sched| && 0 <= b < |sched| && sched[a].Some?) ==> sched[a] != sched[b]
  }

  /** Every subject has a day in 0..numDays-1. */
  predicate Complete(sched: Schedule, numDays: int) {
    forall s :: 0 <= s < |sched| ==> sched[s].Some? && 0 <= sched[s].value < numDays
  }

  /** Placing a subject on a valid day keeps a consistent schedule consistent. */
  lemma AssignKeepsConsistent(enrolment: seq<set<int>>, sched: Schedule, subject: int, day: int)
    requires Consistent(enrolment, sched)
    requires 0 <= subject < |sched|
    requires IsValidAssignment(enrolment, sched, subject, day)
    ensures Consistent(enrolment, sched[subject := Some(day)])
  {
    var next := sched[subject := Some(day)];
    forall st, a, b |
      0 <= st < |enrolment| && a in enrolment[st] && b in enrolment[st] && a != b &&
      0 <= a < |next| && 0 <= b < |next| && next[a].Some?
      ensures next[a] != next[b]
    {
      if a == subject {
        assert !Clash(enrolment, sched, subject, day, (st, b));
      } else if b == subject {
        assert !Clash(enrolment, sched, subject, day, (st, a));
      }
    }
  }

  /** Clearing a subject keeps a consistent schedule consistent. */
  lemma ClearKeepsConsistent(enrolment: seq<set<int>>, sched: Schedule, subject: int)
    requires Consistent(enrolment, sched)
    requires 0 <= subject < |sched|
    ensures Consistent(enrolment, sched[subject := None])
  {
  }

  /** The days that the subjects in group are scheduled on (None included). */
  function DaysOf(group: set<int>, sched: Schedule): set<Option<int>>
    requires forall s :: s in group ==> 0 <= s < |sched|
  {
    set s | s in group :: sched[s]
  }

  /** The subjects of group sit on pairwise different entries (None counts as an entry). */
  predicate InjectiveOn(group: set<int>, sched: Schedule)
    requires forall s :: s in group ==> 0 <= s < |sched|
  {
    forall a, b :: a in group && b in group && a != b ==> sched[a] != sched[b]
  }

  /**
   * The final check on a schedule: for every student, the set of days of
   * their subjects is as large as the set of their subjects.
   */
  predicate NoDoubleBooking(enrolment: seq<set<int>>, sched: Schedule): (ok: bool)
    requires Enrolled(enrolment, |sched|)
    ensures ok ==> Consistent(enrolment, sched)
  {
    PassedCheckConsistent(enrolment, sched);
    forall st :: 0 <= st < |enrolment| ==> |DaysOf(enrolment[st], sched)| == |enrolment[st]|
  }

  /** A schedule that passes the final check double-books nobody. */
  lemma PassedCheckConsistent(enrolment: seq<set<int>>, sched: Schedule)
    requires Enrolled(enrolment, |sched|)
    ensures (forall st :: 0 <= st < |enrolment| ==> |DaysOf(enrolment[st], sched)| == |enrolment[st]|) ==>
              Consistent(enrolment, sched)
  {
    forall st | 0 <= st < |enrolment|
      ensures |DaysOf(enrolment[st], sched)| == |enrolment[st]| <==> InjectiveOn(enrolment[st], sched)
    {
      DaysOfCard(enrolment[st], sched);
    }
  }

  /** With no subjects at all, nobody takes anything and the final check passes. */
  lemma NoSubjectsPassCheck(enrolment: seq<set<int>>, sched: Schedule)
    requires Enrolled(enrolment, 0) && |sched| == 0
    ensures NoDoubleBooking(enrolment, sched)
  {
    forall st | 0 <= st < |enrolment| ensures |DaysOf(enrolment[st], sched)| == |enrolment[st]| {
      assert forall x :: x !in enrolment[st];
      assert enrolment[st] == {};
      assert DaysOf(enrolment[st], sched) == {};
    }
  }

  /** A group never uses more days than it has subjects, and as many exactly when no two share one. */
  lemma {:induction false} DaysOfCard(group: set<int>, sched: Schedule)
    requires forall s :: s in group ==> 0 <= s < |sched|
    ensures |DaysOf(group, sched)| <= |group|
    ensures |DaysOf(group, sched)| == |group| <==> InjectiveOn(group, sched)
    decreases group
  {
    if group != {} {
      NonEmptyHasMember(group);
      var x :| x in group;
      var rest := group - {x};
      DaysOfCard(rest, sched);
      assert DaysOf(group, sched) == DaysOf(rest, sched) + {sched[x]};
      if sched[x] in DaysOf(rest, sched) {
        var y :| y in rest && sched[y] == sched[x];
        assert !InjectiveOn(group, sched);
      } else {
        assert |DaysOf(group, sched)| == |DaysOf(rest, sched)| + 1;
        if InjectiveOn(rest, sched) {
          forall a, b | a in group && b in group && a != b
            ensures sched[a] != sched[b]
          {
            if a == x {
              assert sched[b] in DaysOf(rest, sched);
            } else if b == x {
              assert sched[a] in DaysOf(rest, sched);
            }
          }
        }
      }
    }
  }

  /** The final check passes exactly when no student has two subjects on one entry of the schedule. */
  lemma NoDoubleBookingIffInjective(enrolment: seq<set<int>>, sched: Schedule)
    requires Enrolled(enrolment, |sched|)
    ensures NoDoubleBooking(enrolment, sched) <==>
              forall st :: 0 <= st < |enrolment| ==> InjectiveOn(enrolment[st], sched)
  {
    forall st | 0 <= st < |enrolment| {
      DaysOfCard(enrolment[st], sched);
    }
  }

  /** A complete, consistent schedule passes the final check. */
  lemma CompleteConsistentPassesCheck(enrolment: seq<set<int>>, sched: Schedule, numDays: int)
    requires Enrolled(enrolment, |sched|)
    requires Complete(sched, numDays) && Consistent(enrolment, sched)
    ensures NoDoubleBooking(enrolment, sched)
  {
    NoDoubleBookingIffInjective(enrolment, sched);
  }

  /** The schedules have the same length and agree on every subject outside pending. */
  predicate Agree(a: Schedule, b: Schedule, pending: set<int>) {
    && |a| == |b|
    && forall s :: 0 <= s < |a| && s !in pending ==> a[s] == b[s]
  }

  /** Every subject in pending has a day in 0..numDays-1. */
  predicate Assigned(sched: Schedule, pending: set<int>, numDays: int) {
    forall s :: s in pending ==> 0 <= s < |sched| && sched[s].Some? && 0 <= sched[s].value < numDays
  }

  /** Every subject in pending is unassigned. */
  predicate Unassigned(sched: Schedule, pending: set<int>) {
    forall s :: s in pending ==> 0 <= s < |sched| && sched[s] == None
  }

  /**
   * sol completes base on the subjects in pending: it keeps every other
   * entry of base, gives each pending subject a day in 0..numDays-1, and
   * no student has two exams on one day.
   */
  ghost predicate Solution(enrolment: seq<set<int>>, numDays: int, sol: Schedule, base: Schedule, pending: set<int>) {
    && Agree(base, sol, pending)
    && Assigned(sol, pending, numDays)
    && Consistent(enrolment, sol)
  }

  /** Some complete schedule of numSubjects subjects over numDays days double-books no student. */
  ghost predicate Solvable(enrolment: seq<set<int>>, numSubjects: nat, numDays: int) {
    exists sol :: |sol| == numSubjects && Complete(sol, numDays) && Consistent(enrolment, sol)
  }

  /**
   * A clash with an entry that is already fixed rules the day out: no
   * completion of the pending subjects puts subject on that day.
   */
  lemma ClashExcludes(enrolment: seq<set<int>>, numDays: int, sol: Schedule, base: Schedule, pending: set<int>,
                      subject: int, day: int, p: (int, int))
    requires Solution(enrolment, numDays, sol, base, pending)
    requires Unassigned(base, pending)
    requires 0 <= subject < |base| && Clash(enrolment, base, subject, day, p)
    ensures sol[subject] != Some(day)
  {
    assert p.1 !in pending;
    assert sol[p.1] == Some(day);
  }

  /**
   * A completion that puts subject on day is also a completion of base
   * with that placement made, for the remaining pending subjects.
   */
  lemma NarrowSolution(enrolment: seq<set<int>>, numDays: int, sol: Schedule, base: Schedule, pending: set<int>,
                       subject: int, day: int)
    requires Solution(enrolment, numDays, sol, base, pending) && subject in pending
    ensures sol[subject] == Some(day) ==>
              Solution(enrolment, numDays, sol, base[subject := Some(day)], pending - {subject})
  {
  }

  /**
   * From an empty schedule, completing every subject is exactly finding a
   * complete schedule with no double-booked student.
   */
  lemma SolutionFromScratch(enrolment: seq<set<int>>, numDays: int, base: Schedule, sol: Schedule)
    requires forall s :: 0 <= s < |base| ==> base[s] == None
    ensures Solution(enrolment, numDays, sol, base, Ids(|base|)) <==>
              (|sol| == |base| && Complete(sol, numDays) && Consistent(enrolment, sol))
  {
    forall s ensures s in Ids(|base|) <==> 0 <= s < |base| {
      IdsHas(|base|, s);
    }
  }

  /** A schedule with nothing assigned double-books nobody. */
  lemma UnassignedConsistent(enrolment: seq<set<int>>, sched: Schedule)
    requires forall s :: 0 <= s < |sched| ==> sched[s] == None
    ensures Consistent(enrolment, sched)
  {
  }

  /** When no completion of an empty schedule exists, the problem is unsolvable. */
  lemma UnsolvableFromScratch(enrolment: seq<set<int>>, numDays: int, base: Schedule)
    requires forall s :: 0 <= s < |base| ==> base[s] == None
    requires forall sol :: !Solution(enrolment, numDays, sol, base, Ids(|base|))
    ensures !Solvable(enrolment, |base|, numDays)
  {
    if Solvable(enrolment, |base|, numDays) {
      var sol :| |sol| == |base| && Complete(sol, numDays) && Consistent(enrolment, sol);
      SolutionFromScratch(enrolment, numDays, base, sol);
      assert false;
    }
  }

  /**
   * When every day of 0..numDays-1 is ruled out for subject, no completion
   * of the pending subjects exists.
   */
  lemma EveryDayExcluded(enrolment: seq<set<int>>, numDays: nat, base: Schedule, pending: set<int>, subject: int,
                         days: seq<int>)
    requires multiset(days) == multiset(Range(numDays))
    requires subject in pending
    requires forall sol, j :: 0 <= j < |days| && Solution(enrolment, numDays, sol, base, pending) ==>
               sol[subject] != Some(days[j])
    ensures forall sol :: !Solution(enrolment, numDays, sol, base, pending)
  {
    forall sol: Schedule ensures !Solution(enrolment, numDays, sol, base, pending) {
      if Solution(enrolment, numDays, sol, base, pending) {
        DayListed(numDays, days, sol[subject].value);
        assert false;
      }
    }
  }

  /** A permutation of 0..numDays-1 lists every day. */
  lemma DayListed(numDays: nat, days: seq<int>, d: int)
    requires multiset(days) == multiset(Range(numDays))
    requires 0 <= d < numDays
    ensures exists j :: 0 <= j < |days| && days[j] == d
  {
    assert Range(numDays)[d] == d;
    assert d in multiset(days);
  }

  /** Fewer than numDays entries leave some day of 0..numDays-1 unused. */
  lemma {:induction false} FreeDay(used: set<Option<int>>, numDays: nat) returns (d: int)
    requires |used| < numDays
    ensures 0 <= d < numDays && Some(d) !in used
    decreases numDays
  {
    if Some(numDays - 1) !in used {
      d := numDays - 1;
    } else {
      d := FreeDay(used - {Some(numDays - 1)}, numDays - 1);
    }
  }

  /**
   * Greedy colouring of the conflict graph: when every subject has fewer
   * neighbours than there are days, subjects 0..k-1 can each be given a day
   * that none of their neighbours has, and nobody is double-booked.
   */
  lemma {:induction false} GreedyPrefix(enrolment: seq<set<int>>, n: nat, numDays: nat, k: nat)
    returns (sol: Schedule)
    requires Enrolled(enrolment, n) && k <= n
    requires forall s :: 0 <= s < n ==> |Graph(enrolment, n)[s]| < numDays
    ensures |sol| == n && Consistent(enrolment, sol)
    ensures forall s :: 0 <= s < k ==> sol[s].Some? && 0 <= sol[s].value < numDays
    ensures forall s :: k <= s < n ==> sol[s] == None
  {
    if k == 0 {
      sol := seq(n, s => None);
      UnassignedConsistent(enrolment, sol);
    } else {
      var prev := GreedyPrefix(enrolment, n, numDays, k - 1);
      var g := Graph(enrolment, n);
      DaysOfCard(g[k - 1], prev);
      var d := FreeDay(DaysOf(g[k - 1], prev), numDays);
      sol := prev[k - 1 := Some(d)];
      forall st, a, b | 0 <= st < |enrolment| && a in enrolment[st] && b in enrolment[st] && a != b &&
                        0 <= a < |sol| && 0 <= b < |sol| && sol[a].Some?
        ensures sol[a] != sol[b]
      {
        if a == k - 1 {
          assert SharedBefore(enrolment, |enrolment|, a, b);
          assert prev[b] in DaysOf(g[k - 1], prev);
        } else if b == k - 1 {
          assert SharedBefore(enrolment, |enrolment|, b, a);
          assert prev[a] in DaysOf(g[k - 1], prev);
        }
      }
    }
  }

  /**
   * The sufficient-days bound: if every subject has fewer conflict-graph
   * neighbours than there are days, the instance is solvable.
   */
  lemma DegreeBoundSolvable(enrolment: seq<set<int>>, numSubjects: nat, numDays: nat)
    requires Enrolled(enrolment, numSubjects)
    requires forall s :: 0 <= s < numSubjects ==> |Graph(enrolment, numSubjects)[s]| < numDays
    ensures Solvable(enrolment, numSubjects, numDays)
  {
    var sol := GreedyPrefix(enrolment, numSubjects, numDays, numSubjects);
    assert Complete(sol, numDays) && Consistent(enrolment, sol);
  }
}
