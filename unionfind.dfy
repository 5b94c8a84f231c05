/** The disjoint-set forest of the connectivity repair pass: parent
    pointers with path halving in `find` and union by rank. */
module UnionFind {

  /** Parent pointers stay in range, ranks stay below `bound`, and a rank
      grows strictly from a node to its parent, so following parents ends at
      a root. */
  ghost predicate WellRanked(parent: seq<int>, rank: seq<nat>, bound: nat) {
    |rank| == |parent| &&
    (forall i :: 0 <= i < |parent| ==> 0 <= parent[i] < |parent|) &&
    (forall i :: 0 <= i < |rank| ==> rank[i] <= bound) &&
    (forall i {:trigger parent[i]} :: 0 <= i < |parent| && parent[i] != i ==> rank[i] < rank[parent[i]])
  }

  /** The root reached from `a` by following parent pointers. */
  ghost function Chase(parent: seq<int>, rank: seq<nat>, bound: nat, a: int): (r: int)
    requires WellRanked(parent, rank, bound) && 0 <= a < |parent|
    ensures 0 <= r < |parent| && parent[r] == r
    decreases bound - rank[a]
  {
    if parent[a] == a then a else Chase(parent, rank, bound, parent[a])
  }

  /** The same root, under a name that quantified facts about all roots can
      mention without unfolding the chase. */
  ghost function RootOf(parent: seq<int>, rank: seq<nat>, bound: nat, a: int): (r: int)
    requires WellRanked(parent, rank, bound) && 0 <= a < |parent|
    ensures 0 <= r < |parent| && parent[r] == r
  {
    Chase(parent, rank, bound, a)
  }

  /** The root depends on the parent pointers alone. */
  lemma {:induction false} RootOfRanks(parent: seq<int>, rank: seq<nat>, bound: nat,
                                       rank': seq<nat>, bound': nat, a: int)
    requires WellRanked(parent, rank, bound) && WellRanked(parent, rank', bound')
    requires 0 <= a < |parent|
    ensures Chase(parent, rank, bound, a) == Chase(parent, rank', bound', a)
    decreases bound - rank[a]
  {
    if parent[a] != a {
      RootOfRanks(parent, rank, bound, rank', bound', parent[a]);
    }
  }

  /** An element is its own root exactly when it is a root. */
  lemma RootFixed(parent: seq<int>, rank: seq<nat>, bound: nat, a: int)
    requires WellRanked(parent, rank, bound) && 0 <= a < |parent|
    ensures RootOf(parent, rank, bound, a) == a <==> parent[a] == a
  {
  }

  lemma RootStep(parent: seq<int>, rank: seq<nat>, bound: nat, a: int)
    requires WellRanked(parent, rank, bound) && 0 <= a < |parent| && parent[a] != a
    ensures RootOf(parent, rank, bound, parent[parent[a]]) == RootOf(parent, rank, bound, a)
  {
    assert Chase(parent, rank, bound, a) == Chase(parent, rank, bound, parent[a]);
  }

  /** Path halving (pointing a node at its grandparent) keeps every root. */
  lemma {:induction false} HalvingKeepsRoots(parent: seq<int>, rank: seq<nat>, bound: nat, a: int, i: int)
    requires WellRanked(parent, rank, bound) && 0 <= a < |parent| && 0 <= i < |parent|
    ensures WellRanked(parent[a := parent[parent[a]]], rank, bound)
    ensures Chase(parent[a := parent[parent[a]]], rank, bound, i) == Chase(parent, rank, bound, i)
    decreases bound - rank[i]
  {
    var p' := parent[a := parent[parent[a]]];
    assert WellRanked(p', rank, bound) by {
      forall j | 0 <= j < |p'| && p'[j] != j ensures rank[j] < rank[p'[j]] {
        if j == a && parent[a] != a && parent[parent[a]] != parent[a] {
          assert rank[a] < rank[parent[a]] < rank[parent[parent[a]]];
        }
      }
    }
    if parent[i] != i {
      if i == a {
        if parent[parent[a]] != parent[a] {
          HalvingKeepsRoots(parent, rank, bound, a, parent[parent[a]]);
        }
      } else {
        HalvingKeepsRoots(parent, rank, bound, a, parent[i]);
      }
    }
  }

  /** Hanging root `x` under root `y` sends everything below `x` to `y` and
      leaves every other root as it was. */
  lemma {:induction false} LinkRoots(parent: seq<int>, rank: seq<nat>, bound: nat,
                                     rank': seq<nat>, bound': nat, x: int, y: int, i: int)
    requires WellRanked(parent, rank, bound) && 0 <= x < |parent| && 0 <= y < |parent|
    requires parent[x] == x && parent[y] == y && x != y
    requires |rank'| == |rank| && rank'[x] < rank'[y] && rank'[y] >= rank[y]
    requires forall j :: 0 <= j < |rank| && j != y ==> rank'[j] == rank[j]
    requires forall j :: 0 <= j < |rank'| ==> rank'[j] <= bound'
    requires 0 <= i < |parent|
    ensures WellRanked(parent[x := y], rank', bound')
    ensures Chase(parent[x := y], rank', bound', i) ==
            if Chase(parent, rank, bound, i) == x then y else Chase(parent, rank, bound, i)
    decreases bound - rank[i]
  {
    var p' := parent[x := y];
    assert WellRanked(p', rank', bound') by {
      forall j | 0 <= j < |p'| && p'[j] != j ensures rank'[j] < rank'[p'[j]] {
        if j != x {
          assert parent[j] != j && j != y;
          assert rank[j] < rank[parent[j]];
        }
      }
    }
    if parent[i] != i {
      LinkRoots(parent, rank, bound, rank', bound', x, y, parent[i]);
    }
  }

  lemma HalvingKeepsAllRoots(parent: seq<int>, rank: seq<nat>, bound: nat, a: int)
    requires WellRanked(parent, rank, bound) && 0 <= a < |parent|
    ensures WellRanked(parent[a := parent[parent[a]]], rank, bound)
    ensures forall i :: 0 <= i < |parent| ==>
      RootOf(parent[a := parent[parent[a]]], rank, bound, i) == RootOf(parent, rank, bound, i)
  {
    HalvingKeepsRoots(parent, rank, bound, a, a);
    forall i | 0 <= i < |parent|
      ensures RootOf(parent[a := parent[parent[a]]], rank, bound, i) == RootOf(parent, rank, bound, i)
    {
      HalvingKeepsRoots(parent, rank, bound, a, i);
    }
  }

  lemma LinkAllRoots(parent: seq<int>, rank: seq<nat>, bound: nat,
                     rank': seq<nat>, bound': nat, x: int, y: int)
    requires WellRanked(parent, rank, bound) && 0 <= x < |parent| && 0 <= y < |parent|
    requires parent[x] == x && parent[y] == y && x != y
    requires |rank'| == |rank| && rank'[x] < rank'[y] && rank'[y] >= rank[y]
    requires forall j :: 0 <= j < |rank| && j != y ==> rank'[j] == rank[j]
    requires forall j :: 0 <= j < |rank'| ==> rank'[j] <= bound'
    ensures WellRanked(parent[x := y], rank', bound')
    ensures forall i :: 0 <= i < |parent| ==>
      RootOf(parent[x := y], rank', bound', i) == Relinked(RootOf(parent, rank, bound, i), x, y)
  {
    LinkRoots(parent, rank, bound, rank', bound', x, y, x);
    forall i | 0 <= i < |parent|
      ensures RootOf(parent[x := y], rank', bound', i) == Relinked(RootOf(parent, rank, bound, i), x, y)
    {
      LinkRoots(parent, rank, bound, rank', bound', x, y, i);
    }
  }

  class DisjointSet {
    var parent: seq<int>
    var rank: seq<nat>
    /** An upper bound on every rank: the termination measure of `find`. */
    ghost var bound: nat
    /** The root of every element: the partition the forest stands for. */
    ghost var rep: seq<int>

    ghost predicate Valid()
      reads this
    {
      WellRanked(parent, rank, bound) && |rep| == |parent| &&
      forall i :: 0 <= i < |parent| ==> rep[i] == RootOf(parent, rank, bound, i)
    }

    /** `n` singletons: every element is its own root with rank 0. */
    constructor (n: nat)
      ensures Valid() && |parent| == n
      ensures forall i :: 0 <= i < n ==> rep[i] == i
    {
      parent := seq(n, i => i);
      rank := seq(n, _ => 0);
      bound := 0;
      rep := seq(n, i => i);
    }

    /** The root of `a`; path halving changes pointers but no root. */
    method Find(a: int) returns (r: int)
      requires Valid() && 0 <= a < |parent|
      modifies this
      ensures Valid() && |parent| == old(|parent|) && rep == old(rep)
      ensures r == rep[a]
    {
      var x := a;
      while parent[x] != x
        invariant Valid() && |parent| == old(|parent|) && rep == old(rep)
        invariant 0 <= x < |parent| && rep[x] == rep[a]
        decreases bound - rank[x]
      {
        HalvingKeepsAllRoots(parent, rank, bound, x);
        RootStep(parent, rank, bound, x);
        parent := parent[x := parent[parent[x]]];
        x := parent[x];
      }
      RootFixed(parent, rank, bound, x);
      r := x;
    }

    /** Merges the sets of `a` and `b`. */
    method Union(a: int, b: int)
      requires Valid() && 0 <= a < |parent| && 0 <= b < |parent|
      modifies this
      ensures Valid() && |parent| == old(|parent|) && Merged(old(rep), rep, a, b)
    {
      var ra := Find(a);
      var rb := Find(b);
      if ra == rb {
        return;
      }
      ghost var rep1 := rep;
      ghost var x, y := Link(ra, rb);
      RelinkedPartition(rep1, rep, a, b, x, y);
    }

    /** Union by rank of two different roots: the root of lower rank is hung
        under the other (`x` under `y`), and on a tie `rb` goes under `ra`,
        whose rank grows by one. */
    method Link(ra: int, rb: int) returns (ghost x: int, ghost y: int)
      requires Valid() && 0 <= ra < |parent| && 0 <= rb < |parent| && ra != rb
      requires rep[ra] == ra && rep[rb] == rb
      modifies this
      ensures Valid() && |parent| == old(|parent|) && |rep| == old(|rep|)
      ensures (x == ra && y == rb) || (x == rb && y == ra)
      ensures parent == old(parent)[x := y]
      ensures old(rank[ra]) < old(rank[rb]) ==> x == ra && y == rb && rank == old(rank)
      ensures old(rank[ra]) > old(rank[rb]) ==> x == rb && y == ra && rank == old(rank)
      ensures old(rank[ra]) == old(rank[rb]) ==> x == rb && y == ra && rank == old(rank)[ra := old(rank[ra]) + 1]
      ensures forall i :: 0 <= i < |rep| ==> rep[i] == Relinked(old(rep[i]), x, y)
    {
      RootFixed(parent, rank, bound, ra);
      RootFixed(parent, rank, bound, rb);
      ghost var p1, k1, b1, rep1 := parent, rank, bound, rep;
      var p2, k2 := parent, rank;
      ghost var b2 := bound;
      if k2[ra] < k2[rb] {
        x, y := ra, rb;
        p2 := p2[ra := rb];
      } else if k2[ra] > k2[rb] {
        x, y := rb, ra;
        p2 := p2[rb := ra];
      } else {
        x, y := rb, ra;
        p2 := p2[rb := ra];
        b2 := if k2[ra] + 1 > b2 then k2[ra] + 1 else b2;
        k2 := k2[ra := k2[ra] + 1];
      }
      LinkAllRoots(p1, k1, b1, k2, b2, x, y);
      parent, rank, bound := p2, k2, b2;
      rep := seq(|rep1|, i requires 0 <= i < |rep1| => Relinked(rep1[i], x, y));
    }
  }

  /** `rep1` is the partition `rep0` with the sets of `a` and `b` merged:
      two elements are together iff they were before, or one was with `a`
      and the other with `b`. */
  ghost predicate Merged(rep0: seq<int>, rep1: seq<int>, a: int, b: int) {
    |rep1| == |rep0| && 0 <= a < |rep0| && 0 <= b < |rep0| &&
    forall i, j :: 0 <= i < |rep0| && 0 <= j < |rep0| ==>
      (rep1[i] == rep1[j] <==>
       rep0[i] == rep0[j] || (rep0[i] == rep0[a] && rep0[j] == rep0[b]) ||
       (rep0[i] == rep0[b] && rep0[j] == rep0[a]))
  }

  /** Where a root goes when root `x` is hung under root `y`. */
  function Relinked(r: int, x: int, y: int): int {
    if r == x then y else r
  }

  /** After hanging root `x` under root `y`, where the two are the roots of
      `a` and `b`, two elements share a root iff they did before or one was
      with `a` and the other with `b`. */
  lemma RelinkedPartition(rep1: seq<int>, rep: seq<int>, a: int, b: int, x: int, y: int)
    requires 0 <= a < |rep1| && 0 <= b < |rep1| && |rep| == |rep1| && x != y
    requires (x == rep1[a] && y == rep1[b]) || (x == rep1[b] && y == rep1[a])
    requires forall i :: 0 <= i < |rep1| ==> rep[i] == Relinked(rep1[i], x, y)
    ensures Merged(rep1, rep, a, b)
  {
    forall i, j | 0 <= i < |rep| && 0 <= j < |rep|
      ensures rep[i] == rep[j] <==>
        rep1[i] == rep1[j] || (rep1[i] == rep1[a] && rep1[j] == rep1[b]) ||
        (rep1[i] == rep1[b] && rep1[j] == rep1[a])
    {
      RelinkedSame(rep[i], rep[j], rep1[i], rep1[j], x, y);
    }
  }

  /** After hanging `x` under `y`, two elements share a root iff they did
      before or one was under `x` and the other under `y`. */
  lemma RelinkedSame(r: int, s: int, r0: int, s0: int, x: int, y: int)
    requires x != y && r == Relinked(r0, x, y) && s == Relinked(s0, x, y)
    ensures r == s <==> r0 == s0 || (r0 == x && s0 == y) || (r0 == y && s0 == x)
  {
  }
}
