/** Walks through open passages and the connectivity relation they define. */
module Walks {
  import opened Grid

  /** A non-empty sequence of free cells, each reached from the one before
      through an open passage. */
  predicate IsWalk(b: Board, p: seq<Cell>) {
    |p| > 0 && Free(b, p[0]) && forall i :: 0 <= i < |p| - 1 ==> Linked(b, p[i], p[i + 1])
  }

  predicate WalkFromTo(b: Board, p: seq<Cell>, u: Cell, v: Cell) {
    IsWalk(b, p) && p[0] == u && p[|p| - 1] == v
  }

  /** `v` can be reached from `u` through open passages. */
  ghost predicate Connected(b: Board, u: Cell, v: Cell) {
    exists p :: WalkFromTo(b, p, u, v)
  }

  /** `v` can be reached from `u` through adjacent free cells, walls ignored. */
  ghost predicate FreeConnected(b: Board, u: Cell, v: Cell) {
    Connected(Opened(b), u, v)
  }

  lemma WalkCellsFree(b: Board, p: seq<Cell>)
    requires IsWalk(b, p)
    ensures forall i :: 0 <= i < |p| ==> Free(b, p[i])
  {
    forall i | 0 <= i < |p| ensures Free(b, p[i]) {
      if i > 0 {
        assert Linked(b, p[i - 1], p[i - 1 + 1]);
      }
    }
  }

  lemma WalkFirstStep(b: Board, p: seq<Cell>)
    requires IsWalk(b, p)
    ensures |p| == 1 || Linked(b, p[0], p[1])
  {
    if |p| > 1 {
      assert Linked(b, p[0], p[0 + 1]);
    }
  }

  lemma ConnectedFree(b: Board, u: Cell, v: Cell)
    requires Connected(b, u, v)
    ensures Free(b, u) && Free(b, v)
  {
    var p :| WalkFromTo(b, p, u, v);
    WalkCellsFree(b, p);
  }

  lemma ConnectedReflexive(b: Board, u: Cell)
    requires Free(b, u)
    ensures Connected(b, u, u)
  {
    assert WalkFromTo(b, [u], u, u);
  }

  lemma ConnectedLinked(b: Board, u: Cell, v: Cell)
    requires Linked(b, u, v)
    ensures Connected(b, u, v)
  {
    assert WalkFromTo(b, [u, v], u, v);
  }

  lemma WalkConcat(b: Board, p: seq<Cell>, q: seq<Cell>)
    requires IsWalk(b, p) && IsWalk(b, q) && p[|p| - 1] == q[0]
    ensures IsWalk(b, p + q[1..]) && (p + q[1..])[0] == p[0]
    ensures (p + q[1..])[|p + q[1..]| - 1] == q[|q| - 1]
  {
    var r := p + q[1..];
    forall i | 0 <= i < |r| - 1 ensures Linked(b, r[i], r[i + 1]) {
      if i < |p| - 1 {
        assert r[i] == p[i] && r[i + 1] == p[i + 1];
      } else {
        var j := i - (|p| - 1);
        assert r[i] == q[j] && r[i + 1] == q[j + 1];
      }
    }
  }

  lemma ConnectedTransitive(b: Board, u: Cell, v: Cell, w: Cell)
    requires Connected(b, u, v) && Connected(b, v, w)
    ensures Connected(b, u, w)
  {
    var p :| WalkFromTo(b, p, u, v);
    var q :| WalkFromTo(b, q, v, w);
    WalkConcat(b, p, q);
    assert WalkFromTo(b, p + q[1..], u, w);
  }

  function Reverse(p: seq<Cell>): (r: seq<Cell>)
    ensures |r| == |p| && forall i :: 0 <= i < |p| ==> r[i] == p[|p| - 1 - i]
  {
    seq(|p|, i requires 0 <= i < |p| => p[|p| - 1 - i])
  }

  lemma WalkReverse(b: Board, p: seq<Cell>)
    requires Symmetric(b) && IsWalk(b, p)
    ensures IsWalk(b, Reverse(p))
  {
    var r := Reverse(p);
    WalkCellsFree(b, p);
    assert Free(b, r[0]) by {
      assert r[0] == p[|p| - 1];
    }
    forall i | 0 <= i < |r| - 1 ensures Linked(b, r[i], r[i + 1]) {
      var j := |p| - 2 - i;
      var u, v := p[j], p[j + 1];
      assert Linked(b, u, v);
      LinkedSymmetric(b, u, v);
      assert r[i] == v && r[i + 1] == u;
    }
  }

  lemma ConnectedSymmetric(b: Board, u: Cell, v: Cell)
    requires Symmetric(b) && Connected(b, u, v)
    ensures Connected(b, v, u)
  {
    var p :| WalkFromTo(b, p, u, v);
    WalkReverse(b, p);
    assert WalkFromTo(b, Reverse(p), v, u);
  }

  lemma WalkRefines(b0: Board, b1: Board, p: seq<Cell>)
    requires Refines(b0, b1) && IsWalk(b0, p)
    ensures IsWalk(b1, p)
  {
    forall i | 0 <= i < |p| - 1 ensures Linked(b1, p[i], p[i + 1]) {
      LinkedRefines(b0, b1, p[i], p[i + 1]);
    }
  }

  /** Clearing walls never disconnects anything. */
  lemma ConnectedRefines(b0: Board, b1: Board, u: Cell, v: Cell)
    requires Refines(b0, b1) && Connected(b0, u, v)
    ensures Connected(b1, u, v)
  {
    var p :| WalkFromTo(b0, p, u, v);
    WalkRefines(b0, b1, p);
    assert WalkFromTo(b1, p, u, v);
  }

  /** Whatever is connected through passages is connected through free cells. */
  lemma ConnectedIsFreeConnected(b: Board, u: Cell, v: Cell)
    requires Connected(b, u, v)
    ensures FreeConnected(b, u, v)
  {
    var p :| WalkFromTo(b, p, u, v);
    forall i | 0 <= i < |p| - 1 ensures Linked(Opened(b), p[i], p[i + 1]) {
      LinkedFreeAdjacent(b, p[i], p[i + 1]);
      LinkedOpened(b, p[i], p[i + 1]);
    }
    assert WalkFromTo(Opened(b), p, u, v);
  }

  /** Connectivity after one carve between `c` and `n`. */
  ghost predicate JoinedBy(b: Board, c: Cell, n: Cell, u: Cell, v: Cell) {
    Connected(b, u, v) ||
    (Connected(b, u, c) && Connected(b, n, v)) ||
    (Connected(b, u, n) && Connected(b, c, v))
  }

  lemma WalkAfterCarve(b: Board, c: Cell, d: Dir, p: seq<Cell>)
    requires Coherent(b) && Free(b, c) && Free(b, Step(c, d))
    requires IsWalk(Carve(b, c, d), p)
    ensures JoinedBy(b, c, Step(c, d), p[0], p[|p| - 1])
    decreases |p|
  {
    var n := Step(c, d);
    var r := Carve(b, c, d);
    if |p| == 1 {
      ConnectedReflexive(b, p[0]);
    } else {
      var q := p[..|p| - 1];
      assert IsWalk(r, q) by {
        forall i | 0 <= i < |q| - 1 ensures Linked(r, q[i], q[i + 1]) {
          assert q[i] == p[i] && q[i + 1] == p[i + 1];
        }
      }
      WalkAfterCarve(b, c, d, q);
      var u, y, z := p[0], q[|q| - 1], p[|p| - 1];
      assert Linked(r, y, z) by {
        assert y == p[|p| - 2];
      }
      LinkedCarve(b, c, d, y, z);
      ConnectedReflexive(b, c);
      ConnectedReflexive(b, n);
      if Linked(b, y, z) {
        ConnectedLinked(b, y, z);
        if Connected(b, u, y) {
          ConnectedTransitive(b, u, y, z);
        } else if Connected(b, u, c) && Connected(b, n, y) {
          ConnectedTransitive(b, n, y, z);
        } else {
          ConnectedTransitive(b, c, y, z);
        }
      } else if y == c {
        assert z == n;
        if Connected(b, u, n) && Connected(b, c, c) {
        } else if Connected(b, u, c) {
        }
      } else {
        assert y == n && z == c;
      }
    }
  }

  /** One carve between two cells joins exactly their two classes, and
      nothing else changes: `u` reaches `v` afterwards iff it did before, or
      the path runs through the new passage. */
  lemma ConnectedCarve(b: Board, c: Cell, d: Dir, u: Cell, v: Cell)
    requires Coherent(b) && Free(b, c) && Free(b, Step(c, d))
    ensures Connected(Carve(b, c, d), u, v) <==> JoinedBy(b, c, Step(c, d), u, v)
  {
    var n := Step(c, d);
    var r := Carve(b, c, d);
    if Connected(r, u, v) {
      var p :| WalkFromTo(r, p, u, v);
      WalkAfterCarve(b, c, d, p);
    }
    if JoinedBy(b, c, n, u, v) {
      RefinesCarve(b, c, d);
      LinkedCarve(b, c, d, c, n);
      LinkedCarve(b, c, d, n, c);
      ConnectedLinked(r, c, n);
      ConnectedLinked(r, n, c);
      if Connected(b, u, v) {
        ConnectedRefines(b, r, u, v);
      } else if Connected(b, u, c) && Connected(b, n, v) {
        ConnectedRefines(b, r, u, c);
        ConnectedRefines(b, r, n, v);
        ConnectedTransitive(r, u, c, n);
        ConnectedTransitive(r, u, n, v);
      } else {
        ConnectedRefines(b, r, u, n);
        ConnectedRefines(b, r, c, v);
        ConnectedTransitive(r, u, n, c);
        ConnectedTransitive(r, u, c, v);
      }
    }
  }
}
