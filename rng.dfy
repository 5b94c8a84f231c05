/** The random source handed to the generators. Every draw is an arbitrary
    choice within what the draw promises, so whatever is proved about a
    caller holds for every sequence of draws, whatever the seed. */
module Random {
  import opened Wrappers

  class Rng {
    /** The seed only fixes which draws are made; it is not modelled. */
    constructor (seed: Option<int>)
    {
    }

    /** Some permutation of `s`. */
    method Shuffle<T(==)>(s: seq<T>) returns (r: seq<T>)
      ensures multiset(r) == multiset(s)
    {
      r :| multiset(r) == multiset(s);
    }

    /** Some integer in `[0, n)`; an empty range is not drawn from. */
    method Randrange(n: int) returns (i: int)
      requires n > 0
      ensures 0 <= i < n
    {
      i :| 0 <= i < n;
    }

    /** Some element of a non-empty sequence. */
    method Choice<T(==)>(s: seq<T>) returns (x: T)
      requires |s| > 0
      ensures x in s
    {
      assert s[0] in s;
      x :| x in s;
    }
  }

  lemma ShuffleKeepsMembers<T>(s: seq<T>, r: seq<T>)
    requires multiset(r) == multiset(s)
    ensures |r| == |s| && forall x :: x in s <==> x in r
  {
    assert |multiset(r)| == |multiset(s)|;
    forall x ensures x in s <==> x in r {
      assert x in s <==> x in multiset(s);
      assert x in r <==> x in multiset(r);
    }
  }
}
