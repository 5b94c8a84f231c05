/** The connectivity repair pass, stated on boards: the disjoint-set
    partition, read through the row-major cell index, against connectivity
    through open passages. */
module Repair {
  import opened Grid
  import opened Walks
  import opened UnionFind
  import opened CellIndex
  import opened Frontiers

  /** The set of cell `u` in the partition `rep`; cells off the grid all
      read as -1. */
  function Label(width: nat, rep: seq<int>, u: Cell): int {
    var i := Index(width, u);
    if 0 <= i < |rep| then rep[i] else -1
  }

  /** A partition of the cells of `b`. */
  predicate Covers(b: Board, rep: seq<int>) {
    |rep| == b.width * b.height
  }

  /** Free cells in one set are connected. */
  ghost predicate Sound(b: Board, rep: seq<int>) {
    forall u, v :: Free(b, u) && Free(b, v) && Label(b.width, rep, u) == Label(b.width, rep, v) ==>
      Connected(b, u, v)
  }

  /** Every open passage lies inside one set. */
  ghost predicate Joined(b: Board, rep: seq<int>) {
    forall u, d :: Link(b, u, d) ==> Label(b.width, rep, u) == Label(b.width, rep, Step(u, d))
  }

  /** Every open east or south passage of a cell before `cur` lies inside one
      set. */
  ghost predicate JoinedBefore(b: Board, rep: seq<int>, cur: Cell) {
    forall u, d :: Before(u, cur) && (d == E || d == S) && Link(b, u, d) ==>
      Label(b.width, rep, u) == Label(b.width, rep, Step(u, d))
  }

  /** `rep1` keeps together whatever `rep0` keeps together. */
  ghost predicate Coarser(rep0: seq<int>, rep1: seq<int>) {
    |rep1| == |rep0| &&
    forall i, j :: 0 <= i < |rep0| && 0 <= j < |rep0| && rep0[i] == rep0[j] ==> rep1[i] == rep1[j]
  }

  lemma MergedCoarser(rep0: seq<int>, rep1: seq<int>, a: int, b: int)
    requires Merged(rep0, rep1, a, b)
    ensures Coarser(rep0, rep1) && rep1[a] == rep1[b]
  {
  }

  /** The partition of `width * height` singletons. */
  lemma SingletonsSound(b: Board, rep: seq<int>)
    requires Covers(b, rep) && forall i :: 0 <= i < |rep| ==> rep[i] == i
    ensures Sound(b, rep)
  {
    forall u, v | Free(b, u) && Free(b, v) && Label(b.width, rep, u) == Label(b.width, rep, v)
      ensures Connected(b, u, v)
    {
      IndexBounds(b, u);
      IndexBounds(b, v);
      IndexInjective(b, u, v);
      ConnectedReflexive(b, u);
    }
  }

  /** Two in-bounds cells kept together by `rep0` are kept together by a
      coarser `rep1`. */
  lemma CoarserLabel(b: Board, rep0: seq<int>, rep1: seq<int>, u: Cell, v: Cell)
    requires Covers(b, rep0) && Coarser(rep0, rep1) && InBounds(b, u) && InBounds(b, v)
    requires Label(b.width, rep0, u) == Label(b.width, rep0, v)
    ensures Label(b.width, rep1, u) == Label(b.width, rep1, v)
  {
    IndexBounds(b, u);
    IndexBounds(b, v);
  }

  lemma CoarserJoinedBefore(b: Board, rep0: seq<int>, rep1: seq<int>, cur: Cell)
    requires Covers(b, rep0) && Coarser(rep0, rep1) && JoinedBefore(b, rep0, cur)
    ensures JoinedBefore(b, rep1, cur)
  {
    forall u, d | Before(u, cur) && (d == E || d == S) && Link(b, u, d)
      ensures Label(b.width, rep1, u) == Label(b.width, rep1, Step(u, d))
    {
      CoarserLabel(b, rep0, rep1, u, Step(u, d));
    }
  }

  /** Merging the sets of two connected cells keeps the partition sound. */
  lemma MergedSound(b: Board, rep0: seq<int>, rep1: seq<int>, x: Cell, y: Cell)
    requires Coherent(b) && Covers(b, rep0) && Sound(b, rep0) && Free(b, x) && Free(b, y)
    requires Connected(b, x, y)
    requires Merged(rep0, rep1, Index(b.width, x), Index(b.width, y))
    ensures Sound(b, rep1)
  {
    ConnectedSymmetric(b, x, y);
    forall u, v | Free(b, u) && Free(b, v) && Label(b.width, rep1, u) == Label(b.width, rep1, v)
      ensures Connected(b, u, v)
    {
      IndexBounds(b, u);
      IndexBounds(b, v);
      var w := b.width;
      if Label(w, rep0, u) == Label(w, rep0, v) {
      } else if Label(w, rep0, u) == Label(w, rep0, x) && Label(w, rep0, v) == Label(w, rep0, y) {
        assert Connected(b, u, x) && Connected(b, y, v);
        ConnectedTransitive(b, u, x, y);
        ConnectedTransitive(b, u, y, v);
      } else {
        assert Label(w, rep0, u) == Label(w, rep0, y) && Label(w, rep0, v) == Label(w, rep0, x);
        assert Connected(b, u, y) && Connected(b, x, v);
        ConnectedTransitive(b, u, y, x);
        ConnectedTransitive(b, u, x, v);
      }
    }
  }

  /** Soundness survives opening walls. */
  lemma SoundRefines(b0: Board, b1: Board, rep: seq<int>)
    requires Sound(b0, rep) && Refines(b0, b1)
    ensures Sound(b1, rep)
  {
    forall u, v | Free(b1, u) && Free(b1, v) && Label(b1.width, rep, u) == Label(b1.width, rep, v)
      ensures Connected(b1, u, v)
    {
      ConnectedRefines(b0, b1, u, v);
    }
  }

  /** The end of one row is the start of the next. */
  lemma JoinedNextRow(b: Board, rep: seq<int>, y: int)
    requires JoinedBefore(b, rep, (b.width, y))
    ensures JoinedBefore(b, rep, (0, y + 1))
  {
  }

  /** Once every east and south passage is inside one set, so is every
      passage: a north or west passage is the south or east passage of the
      cell on its other side. */
  lemma JoinedAll(b: Board, rep: seq<int>)
    requires Coherent(b) && JoinedBefore(b, rep, (0, b.height))
    ensures Joined(b, rep)
  {
    forall u, d | Link(b, u, d) ensures Label(b.width, rep, u) == Label(b.width, rep, Step(u, d)) {
      if d == N || d == W {
        LinkSymmetric(b, u, d);
        StepBack(u, d);
        assert Link(b, Step(u, d), Opp(d));
      }
    }
  }

  lemma {:induction false} WalkLabel(b: Board, rep: seq<int>, p: seq<Cell>)
    requires Joined(b, rep) && IsWalk(b, p)
    ensures Label(b.width, rep, p[0]) == Label(b.width, rep, p[|p| - 1])
    decreases |p|
  {
    if |p| > 1 {
      var q := p[..|p| - 1];
      assert IsWalk(b, q) by {
        forall i | 0 <= i < |q| - 1 ensures Linked(b, q[i], q[i + 1]) {
          assert q[i] == p[i] && q[i + 1] == p[i + 1];
        }
      }
      WalkLabel(b, rep, q);
      assert Linked(b, p[|p| - 2], p[|p| - 1]);
      var d := LinkedDir(b, p[|p| - 2], p[|p| - 1]);
    }
  }

  /** With every passage inside one set, connected cells share their set. */
  lemma JoinedConnected(b: Board, rep: seq<int>, u: Cell, v: Cell)
    requires Joined(b, rep) && Connected(b, u, v)
    ensures Label(b.width, rep, u) == Label(b.width, rep, v)
  {
    var p :| WalkFromTo(b, p, u, v);
    WalkLabel(b, rep, p);
  }

  /** Opening the wall between `c` and its neighbour and merging their sets
      keeps every passage inside one set. */
  lemma MergedJoined(b: Board, rep0: seq<int>, rep1: seq<int>, c: Cell, d: Dir)
    requires Shaped(b) && Covers(b, rep0) && Joined(b, rep0) && Free(b, c) && Free(b, Step(c, d))
    requires Merged(rep0, rep1, Index(b.width, c), Index(b.width, Step(c, d)))
    ensures Joined(Carve(b, c, d), rep1)
  {
    var r := Carve(b, c, d);
    var n := Step(c, d);
    MergedCoarser(rep0, rep1, Index(b.width, c), Index(b.width, n));
    forall u, e | Link(r, u, e) ensures Label(b.width, rep1, u) == Label(b.width, rep1, Step(u, e)) {
      LinkCarve(b, c, d, u, e);
      if Link(b, u, e) {
        CoarserLabel(b, rep0, rep1, u, Step(u, e));
      } else if u == n {
        StepBack(c, d);
      }
    }
  }

  /** Every listed edge joins a free cell to its free east or south
      neighbour. */
  ghost predicate EdgesSound(b: Board, edges: seq<Edge>) {
    forall e :: e in edges ==> Free(b, e.from) && Free(b, e.To()) && (e.dir == E || e.dir == S)
  }

  /** Every east or south edge between free cells, from a cell before `cur`,
      is listed. */
  ghost predicate EdgesFound(b: Board, edges: seq<Edge>, cur: Cell) {
    forall u, d :: Before(u, cur) && (d == E || d == S) && Free(b, u) && Free(b, Step(u, d)) ==>
      Edge(u, d) in edges
  }

  /** The edge from `c` towards `d`, listed when that neighbour is free. */
  function Side(b: Board, c: Cell, d: Dir): seq<Edge> {
    if Free(b, Step(c, d)) then [Edge(c, d)] else []
  }

  /** Listing the east and south edges of a free cell, and nothing for a
      blocked one, moves the cursor on. */
  lemma EdgesCell(b: Board, edges: seq<Edge>, c: Cell, edges': seq<Edge>)
    requires EdgesSound(b, edges) && EdgesFound(b, edges, c) && InBounds(b, c)
    requires Free(b, c) ==> edges' == edges + Side(b, c, E) + Side(b, c, S)
    requires !Free(b, c) ==> edges' == edges
    ensures EdgesSound(b, edges') && EdgesFound(b, edges', (c.0 + 1, c.1))
  {
    forall u, d | Before(u, (c.0 + 1, c.1)) && (d == E || d == S) && Free(b, u) && Free(b, Step(u, d))
      ensures Edge(u, d) in edges'
    {
      if u != c {
        assert Edge(u, d) in edges;
      }
    }
  }

  /** Having joined the east and south passages of `c`, the cursor moves on. */
  lemma JoinedCell(b: Board, rep: seq<int>, c: Cell)
    requires JoinedBefore(b, rep, c)
    requires Link(b, c, E) ==> Label(b.width, rep, c) == Label(b.width, rep, Step(c, E))
    requires Link(b, c, S) ==> Label(b.width, rep, c) == Label(b.width, rep, Step(c, S))
    ensures JoinedBefore(b, rep, (c.0 + 1, c.1))
  {
  }

  lemma EdgesNextRow(b: Board, edges: seq<Edge>, y: int)
    requires EdgesFound(b, edges, (b.width, y))
    ensures EdgesFound(b, edges, (0, y + 1))
  {
  }

  /** The first `i` listed edges lie inside one set each. */
  ghost predicate EdgesJoined(width: nat, rep: seq<int>, es: seq<Edge>, i: nat) {
    forall k :: 0 <= k < i && k < |es| ==> Label(width, rep, es[k].from) == Label(width, rep, es[k].To())
  }

  /** Pairs kept together stay together under a coarser partition, which
      also joins the next edge. */
  lemma CoarserPairs(b: Board, rep0: seq<int>, rep1: seq<int>, es: seq<Edge>, i: nat)
    requires Covers(b, rep0) && Coarser(rep0, rep1) && EdgesSound(b, es) && i < |es|
    requires EdgesJoined(b.width, rep0, es, i)
    requires Label(b.width, rep1, es[i].from) == Label(b.width, rep1, es[i].To())
    ensures EdgesJoined(b.width, rep1, es, i + 1)
  {
    forall k | 0 <= k < i ensures Label(b.width, rep1, es[k].from) == Label(b.width, rep1, es[k].To()) {
      assert es[k] in es;
      CoarserLabel(b, rep0, rep1, es[k].from, es[k].To());
    }
  }

  /** When every listed edge lies inside one set of a sound partition and
      every east and south edge is listed, every two adjacent free cells are
      connected. */
  lemma AdjacentFromEdges(b: Board, rep: seq<int>, es: seq<Edge>)
    requires Coherent(b) && Sound(b, rep) && EdgesFound(b, es, (0, b.height))
    requires EdgesJoined(b.width, rep, es, |es|)
    ensures forall u, v :: FreeAdjacent(b, u, v) ==> Connected(b, u, v)
  {
    forall u, v | FreeAdjacent(b, u, v) ensures Connected(b, u, v) {
      if v == Step(u, E) || v == Step(u, S) {
        var d := if v == Step(u, E) then E else S;
        var k :| 0 <= k < |es| && es[k] == Edge(u, d);
      } else {
        var d := if v == Step(u, N) then S else E;
        assert u == Step(v, d);
        var k :| 0 <= k < |es| && es[k] == Edge(v, d);
        ConnectedSymmetric(b, v, u);
      }
    }
  }

  /** Where adjacent free cells are already connected, so are the two
      cells of every listed edge. */
  lemma TidyEdge(b: Board, es: seq<Edge>, i: nat)
    requires EdgesSound(b, es) && i < |es|
    requires forall u, v :: FreeAdjacent(b, u, v) ==> Connected(b, u, v)
    ensures Connected(b, es[i].from, es[i].To())
  {
    assert es[i] in es;
    assert FreeAdjacent(b, es[i].from, es[i].To());
  }
}
