/** The row-major index `y * width + x` that numbers the cells of the grid
    for the disjoint-set forest. */
module CellIndex {
  import opened Grid

  function Index(width: nat, c: Cell): int {
    c.1 * width + c.0
  }

  lemma IndexBounds(b: Board, c: Cell)
    requires InBounds(b, c)
    ensures 0 <= Index(b.width, c) < b.width * b.height
  {
    var (x, y) := c;
    assert y * b.width <= (b.height - 1) * b.width by {
      MulMonotone(y, b.height - 1, b.width);
    }
  }

  lemma MulMonotone(a: int, c: int, w: nat)
    requires 0 <= a <= c
    ensures 0 <= a * w <= c * w
  {
  }

  /** A cell of an earlier row has a smaller index. */
  lemma RowsApart(b: Board, u: Cell, v: Cell)
    requires InBounds(b, u) && InBounds(b, v) && u.1 < v.1
    ensures Index(b.width, u) < Index(b.width, v)
  {
    MulMonotone(u.1 + 1, v.1, b.width);
    assert (u.1 + 1) * b.width == u.1 * b.width + b.width;
  }

  /** Distinct in-bounds cells have distinct indices. */
  lemma IndexInjective(b: Board, u: Cell, v: Cell)
    requires InBounds(b, u) && InBounds(b, v) && Index(b.width, u) == Index(b.width, v)
    ensures u == v
  {
    if u.1 < v.1 {
      RowsApart(b, u, v);
    } else if v.1 < u.1 {
      RowsApart(b, v, u);
    }
  }
}
