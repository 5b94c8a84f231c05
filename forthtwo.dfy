/** The "42" stencil drawn over a finished maze and the search for a place
    to draw it: a "4" and a "2", each three cells wide and five tall, one
    empty column between them, in a 7 x 5 box. */
module FortyTwo {
  import opened Wrappers
  import opened Grid
  import opened Stencils
  import opened Pattern42

  /** Offsets of the "4": left stroke, right stroke, middle bar. */
  const FourOffsets: seq<Cell> :=
    [(0, 0), (0, 1), (0, 2), (2, 0), (2, 1), (2, 2), (2, 3), (2, 4), (1, 2)]

  /** Offsets of the "2", before its shift to the right. */
  const TwoOffsets: seq<Cell> :=
    [(0, 0), (1, 0), (2, 0), (2, 1), (0, 2), (1, 2), (2, 2), (0, 3), (0, 4), (1, 4), (2, 4)]

  /** Column of the "2" relative to the start. */
  const TwoStart := 4
  const BoxWidth := 7
  const BoxHeight := 5

  /** The offsets of the "4", as arithmetic: the left stroke down to row
      2, the right stroke, and the bar between them on row 2. */
  predicate FourOffset(dx: int, dy: int) {
    (dx == 0 && 0 <= dy <= 2) || (dx == 2 && 0 <= dy <= 4) || (dx == 1 && dy == 2)
  }

  /** The offsets of the "2": three bars, the right side between the first
      two and the left side between the last two. */
  predicate TwoOffset(dx: int, dy: int) {
    (0 <= dx <= 2 && (dy == 0 || dy == 2 || dy == 4)) || (dx == 2 && dy == 1) || (dx == 0 && dy == 3)
  }

  predicate StencilOffset(dx: int, dy: int) {
    FourOffset(dx, dy) || TwoOffset(dx - TwoStart, dy)
  }

  lemma FourOffsetsListed(p: Cell)
    ensures p in FourOffsets <==> FourOffset(p.0, p.1)
  {
    if FourOffset(p.0, p.1) {
      if p.0 == 0 {
        assert p == FourOffsets[p.1];
      } else if p.0 == 2 {
        assert p == FourOffsets[3 + p.1];
      } else {
        assert p == FourOffsets[8];
      }
    }
  }

  lemma TwoOffsetsListed(p: Cell)
    ensures p in TwoOffsets <==> TwoOffset(p.0, p.1)
  {
    if TwoOffset(p.0, p.1) {
      if p.1 == 0 {
        assert p == TwoOffsets[p.0];
      } else if p.1 == 1 {
        assert p == TwoOffsets[3];
      } else if p.1 == 2 {
        assert p == TwoOffsets[4 + p.0];
      } else if p.1 == 3 {
        assert p == TwoOffsets[7];
      } else {
        assert p == TwoOffsets[8 + p.0];
      }
    }
  }

  /** The stencil's cells when it starts at `o`. */
  function Stencil(o: Cell): set<Cell> {
    set dx, dy | 0 <= dx < BoxWidth && 0 <= dy < BoxHeight && StencilOffset(dx, dy) :: (o.0 + dx, o.1 + dy)
  }

  lemma StencilMember(o: Cell, c: Cell)
    ensures c in Stencil(o) <==> StencilOffset(c.0 - o.0, c.1 - o.1)
  {
    var dx, dy := c.0 - o.0, c.1 - o.1;
    if StencilOffset(dx, dy) {
      assert c == (o.0 + dx, o.1 + dy);
    }
  }

  lemma PlacedFour(o: Cell, shift: int, c: Cell)
    ensures c in Placed(o, shift, FourOffsets) <==> FourOffset(c.0 - o.0 - shift, c.1 - o.1)
  {
    PlacedOffset(o, shift, FourOffsets, c);
    FourOffsetsListed((c.0 - o.0 - shift, c.1 - o.1));
  }

  lemma PlacedTwo(o: Cell, c: Cell)
    ensures c in Placed(o, TwoStart, TwoOffsets) <==> TwoOffset(c.0 - o.0 - TwoStart, c.1 - o.1)
  {
    var p := (c.0 - o.0 - TwoStart, c.1 - o.1);
    PlacedOffset(o, TwoStart, TwoOffsets, c);
    TwoOffsetsListed(p);
  }

  /** A cell is placed exactly when its offset from the shifted start is
      listed. */
  lemma PlacedOffset(o: Cell, shift: int, offsets: seq<Cell>, c: Cell)
    ensures c in Placed(o, shift, offsets) <==> (c.0 - o.0 - shift, c.1 - o.1) in offsets
  {
    PlacedMember(o, shift, offsets, c);
    var p := (c.0 - o.0 - shift, c.1 - o.1);
    if p in offsets {
      assert c == Add(o, shift + p.0, p.1);
    }
  }

  /** The cells the adding loops of `get_42_pattern` collect. */
  lemma StencilPlaced(o: Cell)
    ensures Stencil(o) == Placed(o, 0, FourOffsets) + Placed(o, TwoStart, TwoOffsets)
  {
    forall c ensures c in Stencil(o) <==> c in Placed(o, 0, FourOffsets) + Placed(o, TwoStart, TwoOffsets) {
      StencilMember(o, c);
      PlacedFour(o, 0, c);
      PlacedTwo(o, c);
    }
  }

  /** The two adding loops: the "4" at the start, then the "2" four columns
      to the right. */
  method Get42Pattern(startX: int, startY: int) returns (cells: set<Cell>)
    ensures cells == Stencil((startX, startY))
  {
    var o := (startX, startY);
    cells := {};
    for i := 0 to |FourOffsets|
      invariant cells == Placed(o, 0, FourOffsets[..i])
    {
      var (dx, dy) := FourOffsets[i];
      assert FourOffsets[..i + 1][..i] == FourOffsets[..i];
      cells := cells + {(startX + dx, startY + dy)};
    }
    assert FourOffsets[..|FourOffsets|] == FourOffsets;
    var twoStartX := startX + TwoStart;
    for i := 0 to |TwoOffsets|
      invariant cells == Placed(o, 0, FourOffsets) + Placed(o, TwoStart, TwoOffsets[..i])
    {
      var (dx, dy) := TwoOffsets[i];
      assert TwoOffsets[..i + 1][..i] == TwoOffsets[..i];
      cells := cells + {(twoStartX + dx, startY + dy)};
    }
    assert TwoOffsets[..|TwoOffsets|] == TwoOffsets;
    StencilPlaced(o);
  }

  /** The keys `dx + 16 * dy` of the cells of the "4" and of the "2". */
  const FourKeys42: set<int> := {0, 16, 32, 2, 18, 34, 50, 66, 33}
  const TwoKeys42: set<int> := {4, 5, 6, 22, 36, 37, 38, 52, 68, 69, 70}
  const StencilKeys: set<int> := FourKeys42 + TwoKeys42

  lemma StencilKeysCard()
    ensures |StencilKeys| == 20
  {
    FourKeysCard42();
    TwoKeysCard42();
    KeysDisjoint42();
  }

  lemma KeysDisjoint42()
    ensures FourKeys42 !! TwoKeys42
  {
    forall k | k in TwoKeys42 ensures k !in FourKeys42 {}
  }

  lemma FourKeysCard42()
    ensures |FourKeys42| == 9
  {
    var left: set<int> := {0, 16, 32, 2, 18};
    var right: set<int> := {34, 50, 66, 33};
    assert FourKeys42 == left + right;
    assert left !! right;
    SmallCard5(0, 16, 32, 2, 18);
    SmallCard4(34, 50, 66, 33);
  }

  lemma TwoKeysCard42()
    ensures |TwoKeys42| == 11
  {
    var left: set<int> := {4, 5, 6, 22};
    var mid: set<int> := {36, 37, 38, 52};
    var right: set<int> := {68, 69, 70};
    SmallCard4(4, 5, 6, 22);
    SmallCard4(36, 37, 38, 52);
    assert |right| == 3;
    assert left !! mid;
    assert |left + mid| == 8;
    assert (left + mid) !! right;
    assert TwoKeys42 == left + mid + right;
  }

  lemma SmallCard4(a: int, b: int, c: int, d: int)
    requires a != b && a != c && a != d && b != c && b != d && c != d
    ensures |{a, b, c, d}| == 4
  {
  }

  lemma SmallCard5(a: int, b: int, c: int, d: int, e: int)
    requires a != b && a != c && a != d && a != e && b != c && b != d && b != e && c != d && c != e && d != e
    ensures |{a, b, c, d, e}| == 5
  {
    SmallCard4(a, b, c, d);
    assert {a, b, c, d, e} == {a, b, c, d} + {e};
  }

  lemma OffsetKey(dx: int, dy: int)
    requires StencilOffset(dx, dy)
    ensures dx + 16 * dy in StencilKeys
  {
  }

  lemma KeyOffset(k: int)
    requires k in StencilKeys
    ensures StencilOffset(k % 16, k / 16)
  {
  }

  lemma StencilKeyed(o: Cell)
    ensures Narrow(o, Stencil(o)) && Keys(o, Stencil(o)) == StencilKeys
  {
    forall c | c in Stencil(o) ensures 0 <= c.0 - o.0 < 16 && Key(o, c) in StencilKeys {
      StencilMember(o, c);
      OffsetKey(c.0 - o.0, c.1 - o.1);
    }
    forall k | k in StencilKeys ensures k in Keys(o, Stencil(o)) {
      KeyOffset(k);
      KeyUnkey(o, k);
      StencilMember(o, Unkey(o, k));
    }
  }

  /** The stencil is 20 distinct cells inside its 7 x 5 box, its start among
      them. */
  lemma StencilShape(o: Cell)
    ensures |Stencil(o)| == 20
    ensures o in Stencil(o)
    ensures forall c :: c in Stencil(o) ==> o.0 <= c.0 < o.0 + BoxWidth && o.1 <= c.1 < o.1 + BoxHeight
  {
    StencilKeyed(o);
    KeysCard(o, Stencil(o));
    StencilKeysCard();
    StencilMember(o, o);
    forall c | c in Stencil(o) ensures o.0 <= c.0 < o.0 + BoxWidth && o.1 <= c.1 < o.1 + BoxHeight {
      StencilMember(o, c);
    }
  }

  /** The stencil at `o` is the stencil at (0, 0) moved by `o`. */
  lemma StencilTranslates(o: Cell, c: Cell)
    ensures c in Stencil(o) <==> (c.0 - o.0, c.1 - o.1) in Stencil((0, 0))
  {
    StencilMember(o, c);
    StencilMember((0, 0), (c.0 - o.0, c.1 - o.1));
  }

  /** Every cell of the stencil at `o` is on the grid and off `avoid`. */
  ghost predicate Fits(b: Board, avoid: set<Cell>, o: Cell) {
    forall c :: c in Stencil(o) ==> c !in avoid && InBounds(b, c)
  }

  /** The stencil fits exactly when its box lies on the grid and it misses
      `avoid`. */
  lemma FitsBox(b: Board, avoid: set<Cell>, o: Cell)
    ensures Fits(b, avoid, o) <==>
      (0 <= o.0 && o.0 + BoxWidth <= b.width && 0 <= o.1 && o.1 + BoxHeight <= b.height && Stencil(o) !! avoid)
  {
    StencilShape(o);
    if Fits(b, avoid, o) {
      StencilMember(o, (o.0 + 6, o.1 + 4));
    }
  }

  /** The conflict loop: some cell is in `avoid` or off the grid. */
  method Conflict(b: Board, avoid: set<Cell>, cells: set<Cell>) returns (conflict: bool)
    ensures conflict <==> exists c :: c in cells && (c in avoid || !InBounds(b, c))
  {
    conflict := false;
    var rest := cells;
    while rest != {}
      invariant rest <= cells
      invariant forall c :: c in cells - rest ==> c !in avoid && InBounds(b, c)
      decreases |rest|
    {
      var c :| c in rest;
      if c in avoid || !InBounds(b, c) {
        conflict := true;
        return;
      }
      rest := rest - {c};
    }
  }

  /** Origins of the scan: rows `0 .. rows - 1`, columns `0 .. cols - 1`. */
  predicate Scanned(o: Cell, rows: int, cols: int) {
    0 <= o.1 < rows && 0 <= o.0 < cols
  }

  /** No scanned origin before `(sx, sy)` in row-major order fits. */
  ghost predicate NoneFitBefore(b: Board, avoid: set<Cell>, rows: int, cols: int, sx: int, sy: int) {
    forall o :: Scanned(o, rows, cols) && Before(o, (sx, sy)) ==> !Fits(b, avoid, o)
  }

  lemma NoneFitNext(b: Board, avoid: set<Cell>, rows: int, cols: int, sx: int, sy: int)
    requires NoneFitBefore(b, avoid, rows, cols, sx, sy) && !Fits(b, avoid, (sx, sy))
    ensures NoneFitBefore(b, avoid, rows, cols, sx + 1, sy)
  {
    forall o | Scanned(o, rows, cols) && Before(o, (sx + 1, sy)) ensures !Fits(b, avoid, o) {
      if o != (sx, sy) {
        assert Before(o, (sx, sy));
      }
    }
  }

  lemma NoneFitRow(b: Board, avoid: set<Cell>, rows: int, cols: int, sx: int, sy: int)
    requires NoneFitBefore(b, avoid, rows, cols, sx, sy) && sx >= cols
    ensures NoneFitBefore(b, avoid, rows, cols, 0, sy + 1)
  {
    forall o | Scanned(o, rows, cols) && Before(o, (0, sy + 1)) ensures !Fits(b, avoid, o) {
      assert Before(o, (sx, sy));
    }
  }

  /** The nested scan in row-major order, stopping at the first origin whose
      stencil fits. */
  method ScanOrigins(b: Board, avoid: set<Cell>, rows: int, cols: int) returns (found: Option<Cell>)
    ensures found.None? ==> forall o :: Scanned(o, rows, cols) ==> !Fits(b, avoid, o)
    ensures found.Some? ==> Scanned(found.value, rows, cols) && Fits(b, avoid, found.value)
    ensures found.Some? ==> NoneFitBefore(b, avoid, rows, cols, found.value.0, found.value.1)
  {
    var sy := 0;
    while sy < rows
      invariant 0 <= sy
      invariant NoneFitBefore(b, avoid, rows, cols, 0, sy)
    {
      var sx := 0;
      while sx < cols
        invariant 0 <= sx
        invariant NoneFitBefore(b, avoid, rows, cols, sx, sy)
      {
        var cells := Get42Pattern(sx, sy);
        var conflict := Conflict(b, avoid, cells);
        if !conflict {
          return Some((sx, sy));
        }
        NoneFitNext(b, avoid, rows, cols, sx, sy);
        sx := sx + 1;
      }
      NoneFitRow(b, avoid, rows, cols, sx, sy);
      sy := sy + 1;
    }
    assert forall o :: Scanned(o, rows, cols) ==> Before(o, (0, sy));
    return None;
  }

  /** The fallback places, in the order they are tried. */
  function EdgeLocations(b: Board): seq<Cell> {
    [(1, 1), (b.width - 8, 1), (1, b.height - 6), (b.width - 8, b.height - 6)]
  }

  /** A fallback place is taken when its coordinates are not negative and
      its stencil misses `avoid`; it is not checked against the grid. */
  predicate EdgeClear(o: Cell, avoid: set<Cell>) {
    o.0 >= 0 && o.1 >= 0 && Stencil(o) !! avoid
  }

  /** The index of the first clear place, or `|edges|` if none is. */
  function FirstClear(edges: seq<Cell>, avoid: set<Cell>): (k: nat)
    ensures k <= |edges|
    ensures k < |edges| ==> EdgeClear(edges[k], avoid)
    ensures forall j :: 0 <= j < k ==> !EdgeClear(edges[j], avoid)
  {
    if edges == [] then 0
    else if EdgeClear(edges[0], avoid) then 0
    else 1 + FirstClear(edges[1..], avoid)
  }

  /** The first clear fallback place, else (1, 1). */
  function EdgeChoice(b: Board, avoid: set<Cell>): Cell {
    var k := FirstClear(EdgeLocations(b), avoid);
    if k < 4 then EdgeLocations(b)[k] else (1, 1)
  }

  /** The loop over the fallback places, then the top corner. */
  method EdgeFallback(b: Board, avoid: set<Cell>) returns (o: Cell)
    ensures o == EdgeChoice(b, avoid)
  {
    var edges := EdgeLocations(b);
    for i := 0 to |edges|
      invariant forall j :: 0 <= j < i ==> !EdgeClear(edges[j], avoid)
    {
      var (sx, sy) := edges[i];
      if sx >= 0 && sy >= 0 {
        var cells := Get42Pattern(sx, sy);
        if cells !! avoid {
          assert EdgeClear(edges[i], avoid);
          return edges[i];
        }
      }
    }
    return (1, 1);
  }

  /** `find_42_location` as written: origins with `start_y < height - 5` and
      `start_x < width - 7`, then the fallback places. */
  method Find42Location(b: Board, avoid: set<Cell>) returns (o: Cell)
    ensures (exists o' :: Scanned(o', b.height - 5, b.width - 7) && Fits(b, avoid, o')) ==>
      Scanned(o, b.height - 5, b.width - 7) && Fits(b, avoid, o) &&
      forall o' :: Scanned(o', b.height - 5, b.width - 7) && Before(o', o) ==> !Fits(b, avoid, o')
    ensures (forall o' :: Scanned(o', b.height - 5, b.width - 7) ==> !Fits(b, avoid, o')) ==>
      o == EdgeChoice(b, avoid)
  {
    var found := ScanOrigins(b, avoid, b.height - 5, b.width - 7);
    if found.Some? {
      return found.value;
    }
    o := EdgeFallback(b, avoid);
  }

  /** The scan that covers every origin whose box lies on the grid:
      `start_y < height - 4` and `start_x < width - 6`. */
  method Find42LocationFixed(b: Board, avoid: set<Cell>) returns (o: Cell)
    ensures (exists o' :: Fits(b, avoid, o')) ==>
      Fits(b, avoid, o) && forall o' :: Before(o', o) ==> !Fits(b, avoid, o')
    ensures (forall o' :: !Fits(b, avoid, o')) ==> o == EdgeChoice(b, avoid)
  {
    var found := ScanOrigins(b, avoid, b.height - 4, b.width - 6);
    forall o' | Fits(b, avoid, o') ensures Scanned(o', b.height - 4, b.width - 6) {
      FitsBox(b, avoid, o');
    }
    if found.Some? {
      return found.value;
    }
    o := EdgeFallback(b, avoid);
  }

  /** On a 7 x 5 grid with nothing to avoid the stencil fits at (0, 0), yet
      the scan as written tries no origin and the search falls back to
      (1, 1), where the stencil leaves the grid. */
  lemma ScanMissesLastOrigin(b: Board)
    requires b.width == 7 && b.height == 5
    ensures Fits(b, {}, (0, 0))
    ensures forall o' :: Fits(b, {}, o') ==> !Scanned(o', b.height - 5, b.width - 7)
    ensures EdgeChoice(b, {}) == (1, 1) && !Fits(b, {}, (1, 1))
  {
    FitsBox(b, {}, (0, 0));
    FitsBox(b, {}, (1, 1));
    assert EdgeClear((1, 1), {});
  }
}
