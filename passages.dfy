/** Counting the open passages of a grid. Every passage of a coherent grid
    has a west or north end, so it is counted once, at the cell whose east or
    south bit is clear. */
module PassageCount {
  import opened Grid

  /** Open east and south bits of one cell. */
  function CellPassages(b: Board, c: Cell): (k: nat)
    ensures k <= 2
    ensures k == 0 <==> HasWall(b, c, E) && HasWall(b, c, S)
  {
    (if HasWall(b, c, E) then 0 else 1) + (if HasWall(b, c, S) then 0 else 1)
  }

  /** Passages counted at the first `n` cells of row `y`. */
  function RowPassages(b: Board, y: int, n: nat): nat {
    if n == 0 then 0 else RowPassages(b, y, n - 1) + CellPassages(b, (n - 1, y))
  }

  /** Passages counted in the first `m` rows. */
  function RowsPassages(b: Board, m: nat): nat {
    if m == 0 then 0 else RowsPassages(b, m - 1) + RowPassages(b, m - 1, b.width)
  }

  function Passages(b: Board): nat {
    RowsPassages(b, b.height)
  }

  /** Two boards whose per-cell counts agree except at `m`, where the second
      has one more. */
  ghost predicate OneMoreAt(b: Board, r: Board, m: Cell) {
    r.width == b.width && r.height == b.height &&
    CellPassages(r, m) == CellPassages(b, m) + 1 &&
    forall u :: u != m ==> CellPassages(r, u) == CellPassages(b, u)
  }

  lemma {:induction false} RowPassagesOneMore(b: Board, r: Board, m: Cell, y: int, n: nat)
    requires OneMoreAt(b, r, m)
    ensures RowPassages(r, y, n) == RowPassages(b, y, n) + (if m.1 == y && 0 <= m.0 < n then 1 else 0)
  {
    if n > 0 {
      RowPassagesOneMore(b, r, m, y, n - 1);
      if (n - 1, y) != m {
        assert CellPassages(r, (n - 1, y)) == CellPassages(b, (n - 1, y));
      }
    }
  }

  lemma {:induction false} RowsPassagesOneMore(b: Board, r: Board, m: Cell, k: nat)
    requires OneMoreAt(b, r, m) && 0 <= m.0 < b.width
    ensures RowsPassages(r, k) == RowsPassages(b, k) + (if 0 <= m.1 < k then 1 else 0)
  {
    if k > 0 {
      RowsPassagesOneMore(b, r, m, k - 1);
      RowPassagesOneMore(b, r, m, k - 1, b.width);
    }
  }

  /** Carving a wall that was present adds exactly one passage. */
  lemma CarveAddsPassage(b: Board, c: Cell, d: Dir)
    requires Coherent(b) && InBounds(b, c) && InBounds(b, Step(c, d)) && HasWall(b, c, d)
    ensures Passages(Carve(b, c, d)) == Passages(b) + 1
  {
    var n := Step(c, d);
    var r := Carve(b, c, d);
    StepBack(c, d);
    CoherentAt(b, c, d);
    var m := if d == E || d == S then c else n;
    forall u ensures u != m ==> CellPassages(r, u) == CellPassages(b, u) {
      HasWallCarve(b, c, d, u, E);
      HasWallCarve(b, c, d, u, S);
    }
    HasWallCarve(b, c, d, m, E);
    HasWallCarve(b, c, d, m, S);
    assert OneMoreAt(b, r, m);
    RowsPassagesOneMore(b, r, m, b.height);
  }

  lemma {:induction false} RowPassagesZero(b: Board, y: int, n: nat)
    requires forall x :: 0 <= x < n ==> MaskAt(b, (x, y)) == Closed
    ensures RowPassages(b, y, n) == 0
  {
    if n > 0 {
      RowPassagesZero(b, y, n - 1);
      assert MaskAt(b, (n - 1, y)) == Closed;
    }
  }

  lemma {:induction false} RowsPassagesZero(b: Board, k: nat)
    requires IsAllClosed(b) && k <= b.height
    ensures RowsPassages(b, k) == 0
  {
    if k > 0 {
      var y := k - 1;
      RowsPassagesZero(b, y);
      forall x | 0 <= x < b.width ensures MaskAt(b, (x, y)) == Closed {
        assert InBounds(b, (x, y));
      }
      RowPassagesZero(b, y, b.width);
    }
  }

  /** A fully walled grid has no passage. */
  lemma AllClosedNoPassages(b: Board)
    requires IsAllClosed(b)
    ensures Passages(b) == 0
  {
    RowsPassagesZero(b, b.height);
  }
}
