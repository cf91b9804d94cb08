/**
 * Ordering the candidate days of a subject: ascending, or by the Least
 * Constraining Value heuristic, where a day scores the number of options
 * it would take away from the subject's unassigned neighbours and a day
 * that itself conflicts scores "infeasible", after every finite score.
 */
module ValueOrdering {
  import opened Wrappers
  import opened ConflictCheck
  import opened VariableSelection
  import opened Sets

  /** A day's LCV score: options eliminated, or infeasible when the day itself conflicts. */
  datatype DayScore = Finite(eliminated: int) | Infeasible

  /** Score a is strictly better (smaller) than score b; infeasible is worse than every finite score. */
  predicate Below(a: DayScore, b: DayScore) {
    match a
    case Infeasible => false
    case Finite(x) => b.Infeasible? || x < b.eliminated
  }

  /**
   * The options neighbour loses if subject goes on day: the days that stop
   * being valid for it, counted only while the neighbour is unassigned.
   */
  function Lost(enrolment: seq<set<int>>, numDays: nat, sched: Schedule, subject: int, day: int, neighbour: int): (r: int)
    requires 0 <= subject < |sched| && 0 <= neighbour < |sched|
    ensures 0 <= r <= numDays
  {
    if sched[neighbour] == None
    then numDays - |ValidDays(enrolment, numDays, sched[subject := Some(day)], neighbour)|
    else 0
  }

  /** The options lost over a set of neighbours, summed. */
  ghost function Eliminated(enrolment: seq<set<int>>, numDays: nat, sched: Schedule, subject: int, day: int,
                            neighbours: set<int>): (r: int)
    requires 0 <= subject < |sched|
    requires forall s :: s in neighbours ==> 0 <= s < |sched|
    ensures 0 <= r
    decreases neighbours
  {
    if neighbours == {} then 0
    else
      NonEmptyHasMember(neighbours);
      var x :| x in neighbours;
      Lost(enrolment, numDays, sched, subject, day, x) +
      Eliminated(enrolment, numDays, sched, subject, day, neighbours - {x})
  }

  /** The sum does not depend on which neighbour is taken first. */
  lemma {:induction false} EliminatedRemove(enrolment: seq<set<int>>, numDays: nat, sched: Schedule, subject: int,
                                            day: int, neighbours: set<int>, y: int)
    requires 0 <= subject < |sched|
    requires forall s :: s in neighbours ==> 0 <= s < |sched|
    requires y in neighbours
    ensures Eliminated(enrolment, numDays, sched, subject, day, neighbours) ==
            Lost(enrolment, numDays, sched, subject, day, y) +
            Eliminated(enrolment, numDays, sched, subject, day, neighbours - {y})
    decreases neighbours
  {
    var x :| x in neighbours &&
      Eliminated(enrolment, numDays, sched, subject, day, neighbours) ==
      Lost(enrolment, numDays, sched, subject, day, x) +
      Eliminated(enrolment, numDays, sched, subject, day, neighbours - {x});
    if x != y {
      EliminatedRemove(enrolment, numDays, sched, subject, day, neighbours - {x}, y);
      EliminatedRemove(enrolment, numDays, sched, subject, day, neighbours - {y}, x);
      assert neighbours - {x} - {y} == neighbours - {y} - {x};
    }
  }

  /** A day's finite score is at most numDays for every neighbour. */
  lemma {:induction false} EliminatedBounds(enrolment: seq<set<int>>, numDays: nat, sched: Schedule, subject: int,
                                            day: int, neighbours: set<int>)
    requires 0 <= subject < |sched|
    requires forall s :: s in neighbours ==> 0 <= s < |sched|
    ensures Eliminated(enrolment, numDays, sched, subject, day, neighbours) <= numDays * |neighbours|
    decreases neighbours
  {
    if neighbours != {} {
      NonEmptyHasMember(neighbours);
      var x :| x in neighbours;
      var rest := neighbours - {x};
      EliminatedRemove(enrolment, numDays, sched, subject, day, neighbours, x);
      EliminatedBounds(enrolment, numDays, sched, subject, day, rest);
      assert |neighbours| == |rest| + 1;
      OneMore(numDays, |rest|);
    }
  }

  /** One more neighbour allows numDays more eliminated options. */
  lemma OneMore(d: nat, m: nat)
    ensures d * (m + 1) == d * m + d
  {
  }

  /** The LCV score of day for subject on the schedule sched. */
  ghost function DayScoreOf(enrolment: seq<set<int>>, numDays: nat, graph: seq<set<int>>, sched: Schedule,
                            subject: int, day: int): (r: DayScore)
    requires 0 <= subject < |graph| && |graph| == |sched|
    requires forall s :: s in graph[subject] ==> 0 <= s < |sched|
    ensures r.Infeasible? <==> Conflicts(enrolment, sched, subject, day) != []
    ensures r.Finite? ==> 0 <= r.eliminated
  {
    if !IsValidAssignment(enrolment, sched, subject, day) then Infeasible
    else Finite(Eliminated(enrolment, numDays, sched, subject, day, graph[subject]))
  }

  /** Day a is tried before day b: a better score, or the same score and a smaller day. */
  predicate Before(scores: seq<DayScore>, a: int, b: int) {
    && 0 <= a < |scores| && 0 <= b < |scores|
    && (Below(scores[a], scores[b]) || (scores[a] == scores[b] && a < b))
  }

  /** Every day of order is scored, and order lists them best first, ties by ascending day. */
  predicate Ordered(scores: seq<DayScore>, order: seq<int>) {
    && (forall i :: 0 <= i < |order| ==> 0 <= order[i] < |scores|)
    && (forall i, j :: 0 <= i < j < |order| ==> Before(scores, order[i], order[j]))
  }

  /** Inserts day into an ordered list of days. */
  function Insert(scores: seq<DayScore>, day: int, sorted: seq<int>): (r: seq<int>)
    ensures multiset(r) == multiset(sorted) + multiset{day}
  {
    if sorted == [] then [day]
    else if Before(scores, day, sorted[0]) then [day] + sorted
    else
      assert sorted == [sorted[0]] + sorted[1..];
      [sorted[0]] + Insert(scores, day, sorted[1..])
  }

  /** The days sorted by score, ties kept in their given order: a stable sort. */
  function SortDays(scores: seq<DayScore>, days: seq<int>): (r: seq<int>)
    ensures multiset(r) == multiset(days)
  {
    if days == [] then []
    else
      assert days == [days[0]] + days[1..];
      Insert(scores, days[0], SortDays(scores, days[1..]))
  }

  /** A permutation of the days 0..n-1 lists n days, each in range. */
  lemma PermutationOfRange(order: seq<int>, n: nat)
    requires multiset(order) == multiset(Range(n))
    ensures |order| == n
    ensures forall i :: 0 <= i < |order| ==> 0 <= order[i] < n
  {
    assert |order| == |multiset(order)| == |multiset(Range(n))| == n;
    forall i | 0 <= i < |order| ensures 0 <= order[i] < n {
      assert order[i] in multiset(Range(n));
    }
  }

  /** In an ordered list of days, every infeasible day comes after every feasible one. */
  lemma InfeasibleLast(scores: seq<DayScore>, order: seq<int>)
    requires Ordered(scores, order)
    ensures forall i, j :: 0 <= i < j < |order| && scores[order[i]].Infeasible? ==> scores[order[j]].Infeasible?
  {
  }

  lemma BeforeTotal(scores: seq<DayScore>, a: int, b: int)
    requires 0 <= a < |scores| && 0 <= b < |scores| && a != b
    ensures Before(scores, a, b) || Before(scores, b, a)
  {
  }

  lemma BeforeTransitive(scores: seq<DayScore>, a: int, b: int, c: int)
    requires Before(scores, a, b) && Before(scores, b, c)
    ensures Before(scores, a, c)
  {
  }

  /** Inserting a new scored day into an ordered list keeps it ordered. */
  lemma {:induction false} InsertOrdered(scores: seq<DayScore>, day: int, sorted: seq<int>)
    requires Ordered(scores, sorted)
    requires 0 <= day < |scores| && day !in sorted
    ensures Ordered(scores, Insert(scores, day, sorted))
  {
    if sorted == [] {
    } else if Before(scores, day, sorted[0]) {
      var r := [day] + sorted;
      forall i, j | 0 <= i < j < |r| ensures Before(scores, r[i], r[j]) {
        if i == 0 && j > 1 {
          BeforeTransitive(scores, day, sorted[0], sorted[j - 1]);
        }
      }
    } else {
      BeforeTotal(scores, day, sorted[0]);
      var tail := Insert(scores, day, sorted[1..]);
      InsertOrdered(scores, day, sorted[1..]);
      var r := [sorted[0]] + tail;
      forall i, j | 0 <= i < j < |r| ensures Before(scores, r[i], r[j]) {
        if i == 0 {
          assert r[j] in multiset(tail);
          assert r[j] == day || r[j] in sorted[1..];
        }
      }
    }
  }

  /** Sorting distinct scored days yields them in Ordered order. */
  lemma {:induction false} SortDaysOrdered(scores: seq<DayScore>, days: seq<int>)
    requires Distinct(days)
    requires forall i :: 0 <= i < |days| ==> 0 <= days[i] < |scores|
    ensures Ordered(scores, SortDays(scores, days))
  {
    if days != [] {
      SortDaysOrdered(scores, days[1..]);
      assert days[0] !in multiset(days[1..]);
      InsertOrdered(scores, days[0], SortDays(scores, days[1..]));
    }
  }
}
