/** Optional values: an unassigned subject, a missing best candidate. */
module Wrappers {
  datatype Option<T> = None | Some(value: T)
}

/** Ranges of identifiers, and small facts about finite sets used by the search's loops. */
module Sets {

  /** The identifiers 0..n-1 in ascending order. */
  function Range(n: nat): seq<int> {
    seq(n, i => i)
  }

  /** The identifiers 0..n-1 as a set. */
  function Ids(n: nat): set<int> {
    set s | s in Range(n)
  }

  lemma IdsHas(n: nat, s: int)
    ensures s in Ids(n) <==> 0 <= s < n
  {
    if 0 <= s < n {
      assert Range(n)[s] == s;
    }
  }

  /** There are exactly n identifiers in 0..n-1. */
  lemma {:induction false} IdsCard(n: nat)
    ensures |Ids(n)| == n
  {
    if n > 0 {
      IdsCard(n - 1);
      forall s ensures s in Ids(n) <==> s in Ids(n - 1) + {n - 1} {
        IdsHas(n, s);
        IdsHas(n - 1, s);
      }
      assert Ids(n) == Ids(n - 1) + {n - 1};
      IdsHas(n - 1, n - 1);
    }
  }

  /** Ids(n) holds exactly the identifiers 0..n-1. */
  lemma IdsExactly(n: nat)
    ensures forall s :: s in Ids(n) <==> 0 <= s < n
  {
    forall s ensures s in Ids(n) <==> 0 <= s < n {
      IdsHas(n, s);
    }
  }

  /** A set of identifiers within 0..n-1 has at most n members. */
  lemma WithinCard(r: set<int>, n: nat)
    requires forall s :: s in r ==> 0 <= s < n
    ensures |r| <= n
  {
    forall s | s in r ensures s in Ids(n) {
      IdsHas(n, s);
    }
    IdsCard(n);
    assert Ids(n) == r + (Ids(n) - r);
  }

  /** A non-empty set has a member, so a loop may pick one. */
  lemma NonEmptyHasMember(s: set<int>)
    requires s != {}
    ensures exists x :: x in s
  {
    if forall x :: x !in s {
      assert false;
    }
  }
}
