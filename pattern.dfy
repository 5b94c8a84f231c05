/** The "42" decoration of the maze engine: a "4" and a "2" drawn as cell
    offsets inside a 9 x 7 box, the "2" five columns right of the "4". */
module Pattern42 {
  import opened Grid
  import opened Stencils

  const FourPattern: seq<Cell> :=
    [(0, 0), (0, 1), (0, 2), (0, 3), (1, 3), (2, 3), (3, 3), (3, 4), (3, 5), (3, 6)]

  const TwoPattern: seq<Cell> :=
    [(0, 0), (1, 0), (2, 0), (3, 0), (3, 1), (3, 2), (0, 3),
     (1, 3), (2, 3), (3, 3), (0, 4), (0, 5), (0, 6), (1, 6), (2, 6), (3, 6)]

  /** Column offset of the "2". */
  const TwoShift := 5
  const PatternWidth := 9
  const PatternHeight := 7

  function Add(c: Cell, dx: int, dy: int): Cell {
    (c.0 + dx, c.1 + dy)
  }

  /** The cells of the "4" when the box starts at `o`. */
  function FourCells(o: Cell): set<Cell> {
    set p | p in FourPattern :: Add(o, p.0, p.1)
  }

  /** The cells of the "2" when the box starts at `o`. */
  function TwoCells(o: Cell): set<Cell> {
    set p | p in TwoPattern :: Add(o, TwoShift + p.0, p.1)
  }

  /** The offsets of `offsets` moved by `o` and `shift` columns. */
  function Placed(o: Cell, shift: int, offsets: seq<Cell>): set<Cell>
    decreases |offsets|
  {
    if offsets == [] then {}
    else
      var p := offsets[|offsets| - 1];
      Placed(o, shift, offsets[..|offsets| - 1]) + {Add(o, shift + p.0, p.1)}
  }

  /** Those of them that land inside a `width` x `height` grid. */
  function Landed(o: Cell, shift: int, offsets: seq<Cell>, width: nat, height: nat): set<Cell>
    decreases |offsets|
  {
    if offsets == [] then {}
    else
      var p := offsets[|offsets| - 1];
      var c := Add(o, shift + p.0, p.1);
      Landed(o, shift, offsets[..|offsets| - 1], width, height) +
        (if 0 <= c.0 < width && 0 <= c.1 < height then {c} else {})
  }

  lemma {:induction false} PlacedMember(o: Cell, shift: int, offsets: seq<Cell>, c: Cell)
    ensures c in Placed(o, shift, offsets) <==> exists p :: p in offsets && c == Add(o, shift + p.0, p.1)
    decreases |offsets|
  {
    if offsets != [] {
      var init := offsets[..|offsets| - 1];
      PlacedMember(o, shift, init, c);
      assert offsets == init + [offsets[|offsets| - 1]];
    }
  }

  /** When every offset lands, nothing is dropped. */
  lemma {:induction false} AllLanded(o: Cell, shift: int, offsets: seq<Cell>, width: nat, height: nat)
    requires forall p :: p in offsets ==> 0 <= o.0 + shift + p.0 < width && 0 <= o.1 + p.1 < height
    ensures Landed(o, shift, offsets, width, height) == Placed(o, shift, offsets)
    decreases |offsets|
  {
    if offsets != [] {
      var init := offsets[..|offsets| - 1];
      assert forall p :: p in init ==> p in offsets;
      AllLanded(o, shift, init, width, height);
      assert offsets[|offsets| - 1] in offsets;
    }
  }

  lemma FourPlaced(o: Cell)
    ensures FourCells(o) == Placed(o, 0, FourPattern)
  {
    forall c ensures c in FourCells(o) <==> c in Placed(o, 0, FourPattern) {
      PlacedMember(o, 0, FourPattern, c);
    }
  }

  lemma TwoPlaced(o: Cell)
    ensures TwoCells(o) == Placed(o, TwoShift, TwoPattern)
  {
    forall c ensures c in TwoCells(o) <==> c in Placed(o, TwoShift, TwoPattern) {
      PlacedMember(o, TwoShift, TwoPattern, c);
    }
  }

  /** Inside a box that fits a `width` x `height` grid, every offset of both
      digits lands on the grid. */
  lemma PatternLands(o: Cell, width: nat, height: nat)
    requires 0 <= o.0 && 0 <= o.1 && o.0 + PatternWidth <= width && o.1 + PatternHeight <= height
    ensures forall p :: p in FourPattern ==> 0 <= o.0 + 0 + p.0 < width && 0 <= o.1 + p.1 < height
    ensures forall p :: p in TwoPattern ==> 0 <= o.0 + TwoShift + p.0 < width && 0 <= o.1 + p.1 < height
  {
    forall p | p in FourPattern ensures 0 <= o.0 + 0 + p.0 < width && 0 <= o.1 + p.1 < height {
      FourOffset(p);
    }
    forall p | p in TwoPattern ensures 0 <= o.0 + TwoShift + p.0 < width && 0 <= o.1 + p.1 < height {
      TwoOffset(p);
    }
  }

  /** An offset of the "4" lies in the box and has its key among the
      "4"'s keys. */
  lemma FourOffset(p: Cell)
    requires p in FourPattern
    ensures 0 <= p.0 < PatternWidth && 0 <= p.1 < PatternHeight && p.0 + 16 * p.1 in FourKeys
  {
  }

  /** An offset of the "2", moved right, lies in the box and has its key
      among the "2"'s keys. */
  lemma TwoOffset(p: Cell)
    requires p in TwoPattern
    ensures 0 <= TwoShift + p.0 < PatternWidth && 0 <= p.1 < PatternHeight
    ensures TwoShift + p.0 + 16 * p.1 in TwoKeys
  {
  }

  /** The cells the decoration covers when its box starts at `o`. */
  function PatternCells(o: Cell): set<Cell> {
    FourCells(o) + TwoCells(o)
  }

  /** The origin that centres the box, as integer division places it. */
  function CentredOrigin(width: nat, height: nat): Cell {
    (width / 2 - PatternWidth / 2, height / 2 - PatternHeight / 2)
  }

  /** The centred box fits exactly when the grid is at least 9 x 7. */
  lemma CentredFits(width: nat, height: nat)
    ensures var o := CentredOrigin(width, height);
      (0 <= o.0 && 0 <= o.1 && o.0 + PatternWidth <= width && o.1 + PatternHeight <= height)
      <==> (width >= 9 && height >= 7)
  {
  }

  /** The keys of the cells of the "4" and of the "2". */
  const FourKeys: set<int> := {0, 16, 32, 48, 49, 50, 51, 67, 83, 99}
  const TwoKeys: set<int> := {5, 6, 7, 8, 24, 40, 53, 54, 55, 56, 69, 85, 101, 102, 103, 104}
  const PatternKeys: set<int> := FourKeys + TwoKeys

  lemma FourKeysCard()
    ensures |FourKeys| == 10
  {
  }

  /** The keys of the first rows of the "2", and of the rest. */
  const TwoTop: set<int> := {5, 6, 7, 8, 24, 40, 53, 54}
  const TwoBottom: set<int> := {55, 56, 69, 85, 101, 102, 103, 104}

  lemma TwoKeysCard()
    ensures |TwoKeys| == 16
  {
    TwoKeysSplit();
    TwoHalvesDisjoint();
    TopKeysCard();
    BottomKeysCard();
  }

  lemma TwoKeysSplit()
    ensures TwoKeys == TwoTop + TwoBottom
  {
  }

  lemma TwoHalvesDisjoint()
    ensures TwoTop !! TwoBottom
  {
    forall k | k in TwoBottom ensures k !in TwoTop {}
  }

  lemma TopKeysCard()
    ensures |TwoTop| == 8
  {
  }

  lemma BottomKeysCard()
    ensures |TwoBottom| == 8
  {
  }

  lemma PatternKeysCard()
    ensures |PatternKeys| == 26
  {
    FourKeysCard();
    TwoKeysCard();
    KeysDisjoint();
  }

  lemma KeysDisjoint()
    ensures FourKeys !! TwoKeys
  {
    forall k | k in TwoKeys ensures k !in FourKeys {}
  }

  lemma FourKey(o: Cell, c: Cell)
    requires c in FourCells(o)
    ensures Key(o, c) in FourKeys && o.0 <= c.0 < o.0 + PatternWidth && o.1 <= c.1 < o.1 + PatternHeight
  {
    var p :| p in FourPattern && c == Add(o, p.0, p.1);
    FourOffset(p);
    assert Key(o, c) == p.0 + 16 * p.1;
  }

  lemma TwoKey(o: Cell, c: Cell)
    requires c in TwoCells(o)
    ensures Key(o, c) in TwoKeys && o.0 <= c.0 < o.0 + PatternWidth && o.1 <= c.1 < o.1 + PatternHeight
  {
    var p :| p in TwoPattern && c == Add(o, TwoShift + p.0, p.1);
    TwoOffset(p);
    assert Key(o, c) == TwoShift + p.0 + 16 * p.1;
  }

  lemma KeyCell(o: Cell, k: int)
    requires k in PatternKeys
    ensures Unkey(o, k) in PatternCells(o)
  {
    var p := (k % 16, k / 16);
    if k in FourKeys {
      FourKeyOffset(k);
      assert Unkey(o, k) == Add(o, p.0, p.1);
    } else {
      var q := (p.0 - TwoShift, p.1);
      TwoKeyOffset(k);
      assert Unkey(o, k) == Add(o, TwoShift + q.0, q.1);
    }
  }

  /** Each key of the "4" comes from one of its offsets. */
  lemma FourKeyOffset(k: int)
    requires k in FourKeys
    ensures (k % 16, k / 16) in FourPattern
  {
  }

  /** Each key of the "2" comes from one of its offsets, moved right. */
  lemma TwoKeyOffset(k: int)
    requires k in TwoKeys
    ensures (k % 16 - TwoShift, k / 16) in TwoPattern
  {
  }

  lemma KeysOfPattern(o: Cell)
    ensures Narrow(o, PatternCells(o)) && Keys(o, PatternCells(o)) <= PatternKeys
  {
    forall c | c in PatternCells(o) ensures 0 <= c.0 - o.0 < 16 && Key(o, c) in PatternKeys {
      if c in FourCells(o) { FourKey(o, c); } else { TwoKey(o, c); }
    }
  }

  lemma PatternOfKeys(o: Cell)
    ensures PatternKeys <= Keys(o, PatternCells(o))
  {
    forall k | k in PatternKeys ensures k in Keys(o, PatternCells(o)) {
      KeyCell(o, k);
      KeyUnkey(o, k);
    }
  }

  lemma PatternKeyed(o: Cell)
    ensures Narrow(o, PatternCells(o)) && Keys(o, PatternCells(o)) == PatternKeys
  {
    KeysOfPattern(o);
    PatternOfKeys(o);
  }

  lemma PatternInBox(o: Cell)
    ensures forall c :: c in PatternCells(o) ==>
      o.0 <= c.0 < o.0 + PatternWidth && o.1 <= c.1 < o.1 + PatternHeight
  {
    forall c | c in PatternCells(o)
      ensures o.0 <= c.0 < o.0 + PatternWidth && o.1 <= c.1 < o.1 + PatternHeight
    {
      if c in FourCells(o) { FourKey(o, c); } else { TwoKey(o, c); }
    }
  }

  /** The decoration is 26 distinct cells, all inside its box. */
  lemma PatternShape(o: Cell)
    ensures |PatternCells(o)| == 26
    ensures forall c :: c in PatternCells(o) ==>
      o.0 <= c.0 < o.0 + PatternWidth && o.1 <= c.1 < o.1 + PatternHeight
  {
    PatternKeyed(o);
    KeysCard(o, PatternCells(o));
    PatternKeysCard();
    PatternInBox(o);
  }
}
