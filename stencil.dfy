/** Counting the cells of a fixed drawing placed at an origin. A cell of the
    drawing is encoded by the key `dx + 16 * dy` of its offset from the
    origin; inside a box less than 16 columns wide distinct cells have
    distinct keys, so a drawing has as many cells as it has keys. */
module Stencils {
  import opened Grid

  /** The cell with key `k` relative to origin `o`. */
  function Unkey(o: Cell, k: int): Cell {
    (o.0 + k % 16, o.1 + k / 16)
  }

  /** The key of `c` relative to `o`. */
  function Key(o: Cell, c: Cell): int {
    (c.0 - o.0) + 16 * (c.1 - o.1)
  }

  predicate Narrow(o: Cell, cells: set<Cell>) {
    forall c :: c in cells ==> 0 <= c.0 - o.0 < 16
  }

  function Keys(o: Cell, cells: set<Cell>): set<int> {
    set c | c in cells :: Key(o, c)
  }

  lemma KeyUnkey(o: Cell, k: int)
    ensures Key(o, Unkey(o, k)) == k
  {
    assert k == k / 16 * 16 + k % 16;
  }

  lemma KeyInjective(o: Cell, c: Cell, e: Cell)
    requires 0 <= c.0 - o.0 < 16 && 0 <= e.0 - o.0 < 16 && Key(o, c) == Key(o, e)
    ensures c == e
  {
    var a, b := c.0 - o.0, e.0 - o.0;
    var y, z := c.1 - o.1, e.1 - o.1;
    assert a - b == 16 * (z - y);
  }

  /** Encoding a narrow drawing loses no cell. */
  lemma {:induction false} KeysCard(o: Cell, cells: set<Cell>)
    requires Narrow(o, cells)
    ensures |Keys(o, cells)| == |cells|
  {
    if cells != {} {
      var c :| c in cells;
      var rest := cells - {c};
      KeysCard(o, rest);
      assert Keys(o, cells) == Keys(o, rest) + {Key(o, c)};
      assert Key(o, c) !in Keys(o, rest) by {
        forall e | e in rest ensures Key(o, e) != Key(o, c) {
          if Key(o, e) == Key(o, c) {
            KeyInjective(o, e, c);
          }
        }
      }
    }
  }
}
