/**
 * The conflict graph of an enrolment: subjects are vertices, and two
 * different subjects are joined when some student takes both.
 * Students are the indices of the enrolment sequence; each entry is the
 * set of subjects that student takes.
 */
module ConflictGraph {
  import opened Sets

  /** Every enrolled subject is one of 0..n-1. */
  predicate Enrolled(enrolment: seq<set<int>>, n: nat) {
    forall st, s :: 0 <= st < |enrolment| && s in enrolment[st] ==> 0 <= s < n
  }

  /** One of the first k students takes both a and b. */
  ghost predicate SharedBefore(enrolment: seq<set<int>>, k: int, a: int, b: int) {
    exists st :: 0 <= st < k && st < |enrolment| && a in enrolment[st] && b in enrolment[st]
  }

  /** Some student takes both a and b. */
  ghost predicate Shared(enrolment: seq<set<int>>, a: int, b: int) {
    SharedBefore(enrolment, |enrolment|, a, b)
  }

  /**
   * The conflict graph: b is a neighbour of a exactly when a != b and some
   * student takes both. It is symmetric and has no self-loops.
   */
  ghost function Graph(enrolment: seq<set<int>>, n: nat): (g: seq<set<int>>)
    ensures |g| == n
    ensures forall a, b :: 0 <= a < n && b in g[a] ==> 0 <= b < n && a in g[b]
    ensures forall a :: 0 <= a < n ==> a !in g[a]
  {
    seq(n, a => set b | 0 <= b < n && b != a && Shared(enrolment, a, b))
  }

  lemma SharedBeforeNext(enrolment: seq<set<int>>, k: int, a: int, b: int)
    requires 0 <= k < |enrolment|
    ensures SharedBefore(enrolment, k + 1, a, b) <==>
              SharedBefore(enrolment, k, a, b) || (a in enrolment[k] && b in enrolment[k])
  {
    if SharedBefore(enrolment, k + 1, a, b) && !(a in enrolment[k] && b in enrolment[k]) {
      var st :| 0 <= st < k + 1 && st < |enrolment| && a in enrolment[st] && b in enrolment[st];
      assert st != k;
    }
  }

  /**
   * Builds the conflict graph with the source's nested loops: for each
   * student, every pair of their subjects (taken in an arbitrary order, as
   * a set turned into a list is) is linked in both directions.
   */
  method CreateSubjectConstraints(enrolment: seq<set<int>>, n: nat) returns (g: seq<set<int>>)
    requires Enrolled(enrolment, n)
    ensures g == Graph(enrolment, n)
  {
    g := seq(n, _ => {});
    for st := 0 to |enrolment|
      invariant |g| == n
      invariant forall a, b :: 0 <= a < n && b in g[a] ==> 0 <= b < n
      invariant forall a, b :: 0 <= a < n && 0 <= b < n ==>
                  (b in g[a] <==> a != b && SharedBefore(enrolment, st, a, b))
    {
      var subjects := enrolment[st];
      var rest := subjects;
      while rest != {}
        invariant rest <= subjects
        invariant |g| == n
        invariant forall a, b :: 0 <= a < n && b in g[a] ==> 0 <= b < n
        invariant forall a, b :: 0 <= a < n && 0 <= b < n ==>
                    (b in g[a] <==> (a != b && (SharedBefore(enrolment, st, a, b) ||
                       (a in subjects && b in subjects && (a !in rest || b !in rest)))))
        decreases rest
      {
        NonEmptyHasMember(rest);
        var x :| x in rest;
        var others := rest - {x};
        while others != {}
          invariant others <= rest - {x}
          invariant |g| == n
          invariant forall a, b :: 0 <= a < n && b in g[a] ==> 0 <= b < n
          invariant forall a, b :: 0 <= a < n && 0 <= b < n ==>
                      (b in g[a] <==> (a != b && (SharedBefore(enrolment, st, a, b) ||
                         (a in subjects && b in subjects &&
                          (a !in rest || b !in rest || (a == x && b !in others) || (b == x && a !in others))))))
          decreases others
        {
          NonEmptyHasMember(others);
          var y :| y in others;
          g := g[x := g[x] + {y}];
          g := g[y := g[y] + {x}];
          others := others - {y};
        }
        rest := rest - {x};
      }
      forall a, b | 0 <= a < n && 0 <= b < n
        ensures b in g[a] <==> (a != b && SharedBefore(enrolment, st + 1, a, b))
      {
        assert a !in rest;
        SharedBeforeNext(enrolment, st, a, b);
      }
    }
    forall a | 0 <= a < n
      ensures g[a] == Graph(enrolment, n)[a]
    {
    }
  }
}
