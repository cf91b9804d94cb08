/**
 * Choosing the next subject to branch on: the smallest unassigned subject
 * when no heuristic is on, otherwise one of highest score under the
 * Minimum Remaining Values and Degree heuristics.
 */
module VariableSelection {
  import opened Wrappers
  import opened ConflictCheck
  import Sets

  /** The days in 0..numDays-1 on which subject could be placed without a conflict. */
  function ValidDays(enrolment: seq<set<int>>, numDays: nat, sched: Schedule, subject: int): (r: set<int>)
    ensures |r| <= numDays
  {
    var r := set d | 0 <= d < numDays && IsValidAssignment(enrolment, sched, subject, d);
    Sets.WithinCard(r, numDays);
    r
  }

  /**
   * The priority of an unassigned subject: minus its number of valid days
   * when MRV is on, plus its number of still-unassigned neighbours when
   * Degree is on.
   */
  function Score(enrolment: seq<set<int>>, numDays: nat, graph: seq<set<int>>, sched: Schedule,
                 unassigned: set<int>, useMrv: bool, useDegree: bool, s: int): (r: int)
    requires 0 <= s < |graph|
    ensures (if useMrv then -(numDays as int) else 0) <= r <= (if useDegree then |graph[s]| else 0)
  {
    assert graph[s] == graph[s] * unassigned + (graph[s] - unassigned);
    (if useMrv then -|ValidDays(enrolment, numDays, sched, s)| else 0) +
    (if useDegree then |graph[s] * unassigned| else 0)
  }

  /** The smallest member of subjects that is at least k. */
  function MinFrom(subjects: set<int>, n: int, k: int): (r: int)
    requires forall s :: s in subjects ==> s < n
    requires exists s :: s in subjects && k <= s
    decreases n - k
    ensures r in subjects && k <= r
    ensures forall s :: s in subjects && k <= s ==> r <= s
  {
    if k in subjects then k
    else MinFrom(subjects, n, k + 1)
  }

  /**
   * Among the members of unassigned at least k, the one of highest score,
   * the smallest such subject on a tie; None when there is no such member.
   */
  function BestFrom(enrolment: seq<set<int>>, numDays: nat, graph: seq<set<int>>, sched: Schedule,
                    unassigned: set<int>, useMrv: bool, useDegree: bool, k: nat): (r: Option<int>)
    requires forall s :: s in unassigned ==> 0 <= s < |graph|
    decreases |graph| - k
    ensures r.None? <==> forall s :: s in unassigned ==> s < k
    ensures r.Some? ==> r.value in unassigned && k <= r.value
    ensures r.Some? ==> forall s :: s in unassigned && k <= s ==>
              var best := Score(enrolment, numDays, graph, sched, unassigned, useMrv, useDegree, r.value);
              var other := Score(enrolment, numDays, graph, sched, unassigned, useMrv, useDegree, s);
              other < best || (other == best && r.value <= s)
  {
    if k >= |graph| then None
    else
      var rest := BestFrom(enrolment, numDays, graph, sched, unassigned, useMrv, useDegree, k + 1);
      if k !in unassigned then rest
      else if rest.None? ||
              Score(enrolment, numDays, graph, sched, unassigned, useMrv, useDegree, k) >=
              Score(enrolment, numDays, graph, sched, unassigned, useMrv, useDegree, rest.value)
      then Some(k)
      else rest
  }

  /**
   * The subject to branch on next. It is always a member of unassigned:
   * the smallest one when neither heuristic is on, otherwise one of
   * maximal score (the smallest such subject on a tie).
   */
  function NextSubject(enrolment: seq<set<int>>, numDays: nat, graph: seq<set<int>>, sched: Schedule,
                       unassigned: set<int>, useMrv: bool, useDegree: bool): (r: int)
    requires unassigned != {}
    requires forall s :: s in unassigned ==> 0 <= s < |graph|
    ensures r in unassigned
    ensures !useMrv && !useDegree ==> forall s :: s in unassigned ==> r <= s
    ensures useMrv || useDegree ==> forall s :: s in unassigned ==>
              var best := Score(enrolment, numDays, graph, sched, unassigned, useMrv, useDegree, r);
              var other := Score(enrolment, numDays, graph, sched, unassigned, useMrv, useDegree, s);
              other < best || (other == best && r <= s)
  {
    Sets.NonEmptyHasMember(unassigned);
    if !useMrv && !useDegree then MinFrom(unassigned, |graph|, 0)
    else BestFrom(enrolment, numDays, graph, sched, unassigned, useMrv, useDegree, 0).value
  }
}
