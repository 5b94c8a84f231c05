/** Connected components of the free cells and the spanning-forest count.
    A grid is a forest when its passages plus its components equal its free
    cells: each passage then joined two different components. */
module Forests {
  import opened Grid
  import opened Walks
  import opened PassageCount

  ghost function FreeCells(b: Board): set<Cell> {
    set x: int, y: int | 0 <= x < b.width && 0 <= y < b.height && (x, y) !in b.blocked :: (x, y)
  }

  lemma FreeCellsMember(b: Board, c: Cell)
    ensures c in FreeCells(b) <==> Free(b, c)
  {
    if Free(b, c) {
      var (x, y) := c;
      assert (x, y) in FreeCells(b);
    }
  }

  /** The cells reachable from `u` through open passages. */
  ghost function Class(b: Board, u: Cell): set<Cell> {
    set v | v in FreeCells(b) && Connected(b, u, v)
  }

  ghost function Classes(b: Board): set<set<Cell>> {
    set u | u in FreeCells(b) :: Class(b, u)
  }

  ghost function Components(b: Board): nat {
    |Classes(b)|
  }

  ghost predicate Forest(b: Board) {
    Passages(b) + Components(b) == |FreeCells(b)|
  }

  lemma ClassMember(b: Board, u: Cell, v: Cell)
    ensures v in Class(b, u) <==> Connected(b, u, v)
  {
    FreeCellsMember(b, v);
    if Connected(b, u, v) {
      ConnectedFree(b, u, v);
    }
  }

  lemma SameClass(b: Board, u: Cell, v: Cell)
    requires Symmetric(b) && Connected(b, u, v)
    ensures Class(b, u) == Class(b, v)
  {
    ConnectedSymmetric(b, u, v);
    forall w ensures w in Class(b, u) <==> w in Class(b, v) {
      ClassMember(b, u, w);
      ClassMember(b, v, w);
      if Connected(b, u, w) {
        ConnectedTransitive(b, v, u, w);
      }
      if Connected(b, v, w) {
        ConnectedTransitive(b, u, v, w);
      }
    }
  }

  /** Classes are those of their members: `u` is in the class of `v` iff the
      two classes coincide. */
  lemma ClassOfMember(b: Board, u: Cell, v: Cell)
    requires Symmetric(b) && Free(b, u) && Free(b, v)
    ensures u in Class(b, v) <==> Class(b, u) == Class(b, v)
  {
    ClassMember(b, v, u);
    if Connected(b, v, u) {
      SameClass(b, v, u);
    }
    if Class(b, u) == Class(b, v) {
      ConnectedReflexive(b, u);
      ClassMember(b, u, u);
    }
  }

  lemma ClassAfterCarveInside(b: Board, c: Cell, d: Dir, u: Cell, k: Cell)
    requires Coherent(b) && Free(b, c) && Free(b, Step(c, d)) && !Connected(b, c, Step(c, d))
    requires k == c || k == Step(c, d)
    requires Connected(b, k, u)
    ensures Class(Carve(b, c, d), u) == Class(b, c) + Class(b, Step(c, d))
  {
    var n := Step(c, d);
    var r := Carve(b, c, d);
    ConnectedSymmetric(b, k, u);
    if k == c {
      assert !Connected(b, u, n) by {
        if Connected(b, u, n) { ConnectedTransitive(b, c, u, n); }
      }
      forall v ensures v in Class(r, u) <==> v in Class(b, c) + Class(b, n) {
        ClassMember(r, u, v);
        ClassMember(b, c, v);
        ClassMember(b, n, v);
        ConnectedCarve(b, c, d, u, v);
        if Connected(b, u, v) { ConnectedTransitive(b, c, u, v); }
        if Connected(b, c, v) { ConnectedTransitive(b, u, c, v); }
      }
    } else {
      assert !Connected(b, u, c) by {
        if Connected(b, u, c) {
          ConnectedTransitive(b, n, u, c);
          ConnectedSymmetric(b, n, c);
        }
      }
      forall v ensures v in Class(r, u) <==> v in Class(b, c) + Class(b, n) {
        ClassMember(r, u, v);
        ClassMember(b, c, v);
        ClassMember(b, n, v);
        ConnectedCarve(b, c, d, u, v);
        if Connected(b, u, v) { ConnectedTransitive(b, n, u, v); }
        if Connected(b, n, v) { ConnectedTransitive(b, u, n, v); }
      }
    }
  }

  lemma ClassAfterCarveOutside(b: Board, c: Cell, d: Dir, u: Cell)
    requires Coherent(b) && Free(b, c) && Free(b, Step(c, d))
    requires !Connected(b, u, c) && !Connected(b, u, Step(c, d))
    ensures Class(Carve(b, c, d), u) == Class(b, u)
  {
    forall v ensures v in Class(Carve(b, c, d), u) <==> v in Class(b, u) {
      ClassMember(Carve(b, c, d), u, v);
      ClassMember(b, u, v);
      ConnectedCarve(b, c, d, u, v);
    }
  }

  /** Carving between two cells that were not connected merges their two
      classes into one and leaves every other class as it was. */
  lemma ClassesAfterCarve(b: Board, c: Cell, d: Dir)
    requires Coherent(b) && Free(b, c) && Free(b, Step(c, d)) && !Connected(b, c, Step(c, d))
    ensures Classes(Carve(b, c, d)) ==
            (Classes(b) - {Class(b, c), Class(b, Step(c, d))}) + {Class(b, c) + Class(b, Step(c, d))}
  {
    var n := Step(c, d);
    var r := Carve(b, c, d);
    var K1, K2 := Class(b, c), Class(b, n);
    assert FreeCells(r) == FreeCells(b);
    forall X | X in Classes(r)
      ensures X in (Classes(b) - {K1, K2}) + {K1 + K2}
    {
      var u :| u in FreeCells(r) && X == Class(r, u);
      FreeCellsMember(b, u);
      if Connected(b, c, u) {
        ClassAfterCarveInside(b, c, d, u, c);
      } else if Connected(b, n, u) {
        ClassAfterCarveInside(b, c, d, u, n);
      } else {
        if Connected(b, u, c) { ConnectedSymmetric(b, u, c); }
        if Connected(b, u, n) { ConnectedSymmetric(b, u, n); }
        ClassAfterCarveOutside(b, c, d, u);
        ClassMember(b, u, c);
        ClassMember(b, u, n);
        ConnectedReflexive(b, c);
        ConnectedReflexive(b, n);
        ClassMember(b, c, c);
        ClassMember(b, n, n);
      }
    }
    forall X | X in (Classes(b) - {K1, K2}) + {K1 + K2}
      ensures X in Classes(r)
    {
      if X == K1 + K2 {
        ConnectedReflexive(b, c);
        ClassAfterCarveInside(b, c, d, c, c);
        FreeCellsMember(b, c);
      } else {
        var u :| u in FreeCells(b) && X == Class(b, u);
        FreeCellsMember(b, u);
        if Connected(b, u, c) {
          SameClass(b, u, c);
        } else if Connected(b, u, n) {
          SameClass(b, u, n);
        } else {
          ClassAfterCarveOutside(b, c, d, u);
        }
      }
    }
  }

  lemma ComponentsAfterCarve(b: Board, c: Cell, d: Dir)
    requires Coherent(b) && Free(b, c) && Free(b, Step(c, d)) && !Connected(b, c, Step(c, d))
    ensures Components(Carve(b, c, d)) + 1 == Components(b)
  {
    var n := Step(c, d);
    var K1, K2 := Class(b, c), Class(b, n);
    ClassesAfterCarve(b, c, d);
    FreeCellsMember(b, c);
    FreeCellsMember(b, n);
    ConnectedReflexive(b, c);
    ClassMember(b, c, c);
    ClassMember(b, n, c);
    if Connected(b, n, c) { ConnectedSymmetric(b, n, c); }
    assert c in K1 && c !in K2;
    ConnectedReflexive(b, n);
    ClassMember(b, n, n);
    ClassMember(b, c, n);
    assert n in K2 && n !in K1;
    assert K1 in Classes(b) && K2 in Classes(b);
    assert K1 + K2 !in Classes(b) by {
      if K1 + K2 in Classes(b) {
        var u :| u in FreeCells(b) && K1 + K2 == Class(b, u);
        FreeCellsMember(b, u);
        ClassMember(b, u, c);
        ClassMember(b, u, n);
        SameClass(b, u, c);
        SameClass(b, u, n);
      }
    }
    var rest := Classes(b) - {K1, K2};
    assert |rest| == |Classes(b)| - 2;
    assert K1 + K2 !in rest;
  }

  /** The key step of every generator: joining two components keeps the
      passages a spanning forest, and a coherent grid stays coherent. */
  lemma CarveJoin(b: Board, c: Cell, d: Dir)
    requires Coherent(b) && Free(b, c) && Free(b, Step(c, d)) && !Connected(b, c, Step(c, d))
    ensures Coherent(Carve(b, c, d))
    ensures Passages(Carve(b, c, d)) == Passages(b) + 1
    ensures Components(Carve(b, c, d)) + 1 == Components(b)
    ensures Forest(b) ==> Forest(Carve(b, c, d))
  {
    CarveCoherent(b, c, d);
    LinkedStep(b, c, d);
    if !HasWall(b, c, d) {
      ConnectedLinked(b, c, Step(c, d));
    }
    CarveAddsPassage(b, c, d);
    ComponentsAfterCarve(b, c, d);
    assert FreeCells(Carve(b, c, d)) == FreeCells(b);
  }

  /** Without passages every free cell is a class of its own. */
  lemma AllClosedClass(b: Board, u: Cell)
    requires IsAllClosed(b) && Free(b, u)
    ensures Class(b, u) == {u}
  {
    AllClosedCoherent(b);
    forall v ensures v in Class(b, u) <==> v == u {
      ClassMember(b, u, v);
      if Connected(b, u, v) {
        var p :| WalkFromTo(b, p, u, v);
        WalkFirstStep(b, p);
      }
      if v == u {
        ConnectedReflexive(b, u);
      }
    }
  }

  lemma {:induction false} SingletonsCount(s: set<Cell>)
    ensures |set u | u in s :: {u}| == |s|
  {
    if s != {} {
      var x :| x in s;
      var t := s - {x};
      SingletonsCount(t);
      assert (set u | u in s :: {u}) == (set u | u in t :: {u}) + {{x}};
      assert {x} !in (set u | u in t :: {u});
    }
  }

  /** A fully walled grid is a forest: no passage, one class per free cell. */
  lemma AllClosedForest(b: Board)
    requires IsAllClosed(b)
    ensures Forest(b) && Components(b) == |FreeCells(b)| && Passages(b) == 0
  {
    AllClosedNoPassages(b);
    forall u | u in FreeCells(b) ensures Class(b, u) == {u} {
      FreeCellsMember(b, u);
      AllClosedClass(b, u);
    }
    assert Classes(b) == set u | u in FreeCells(b) :: {u};
    SingletonsCount(FreeCells(b));
  }
}
