/** The checks run on a finished maze: the passage count and the
    perfect-maze test built on it, the entry/exit check, the multiple-path
    probe, and the search for fully open 3x3 areas. */
module Validator {
  import opened Grid
  import opened Walks
  import opened Reach
  import opened PassageCount
  import opened Forests

  /** 1 when the side `d` of `c` is open. */
  function OpenSide(b: Board, c: Cell, d: Dir): nat {
    if HasWall(b, c, d) then 0 else 1
  }

  /** The open sides of one cell, out of four. */
  function CellOpen(b: Board, c: Cell): nat {
    OpenSide(b, c, N) + OpenSide(b, c, E) + OpenSide(b, c, S) + OpenSide(b, c, W)
  }

  /** Open sides of the first `n` cells of row `y`. */
  function RowOpen(b: Board, y: int, n: nat): nat {
    if n == 0 then 0 else RowOpen(b, y, n - 1) + CellOpen(b, (n - 1, y))
  }

  /** Open sides of the first `m` rows. */
  function RowsOpen(b: Board, m: nat): nat {
    if m == 0 then 0 else RowsOpen(b, m - 1) + RowOpen(b, m - 1, b.width)
  }

  /** The open sides of every cell of the grid, all four directions. */
  function OpenSides(b: Board): nat {
    RowsOpen(b, b.height)
  }

  /** Open sides facing `d` among the first `n` cells of row `y`. */
  function SideRow(b: Board, d: Dir, y: int, n: nat): nat {
    if n == 0 then 0 else SideRow(b, d, y, n - 1) + OpenSide(b, (n - 1, y), d)
  }

  function SideRows(b: Board, d: Dir, m: nat): nat {
    if m == 0 then 0 else SideRows(b, d, m - 1) + SideRow(b, d, m - 1, b.width)
  }

  /** The counting loops: every clear bit of every cell, halved. */
  method CountOpenPassages(b: Board) returns (count: int)
    requires Shaped(b)
    ensures count == OpenSides(b) / 2
  {
    var total := 0;
    for y := 0 to b.height
      invariant total == RowsOpen(b, y)
    {
      for x := 0 to b.width
        invariant total == RowsOpen(b, y) + RowOpen(b, y, x)
      {
        var cell := b.walls[y][x];
        assert cell == MaskAt(b, (x, y));
        ghost var before := total;
        for i := 0 to |Dirs|
          invariant total == before + SidesOf(b, (x, y), i)
        {
          if cell & Bit(Dirs[i]) == 0 {
            total := total + 1;
          }
        }
        SidesOfAll(b, (x, y));
      }
    }
    count := total / 2;
  }

  /** Open sides of `c` among the first `i` directions of N, E, S, W. */
  function SidesOf(b: Board, c: Cell, i: nat): nat
    requires i <= |Dirs|
  {
    if i == 0 then 0 else SidesOf(b, c, i - 1) + OpenSide(b, c, Dirs[i - 1])
  }

  lemma SidesOfAll(b: Board, c: Cell)
    ensures SidesOf(b, c, |Dirs|) == CellOpen(b, c)
  {
    assert Dirs[0] == N && Dirs[1] == E && Dirs[2] == S && Dirs[3] == W;
    assert SidesOf(b, c, 1) == OpenSide(b, c, N);
    assert SidesOf(b, c, 2) == OpenSide(b, c, N) + OpenSide(b, c, E);
    assert SidesOf(b, c, 3) == OpenSide(b, c, N) + OpenSide(b, c, E) + OpenSide(b, c, S);
  }

  lemma {:induction false} RowOpenSplit(b: Board, y: int, n: nat)
    ensures RowOpen(b, y, n) ==
      SideRow(b, N, y, n) + SideRow(b, E, y, n) + SideRow(b, S, y, n) + SideRow(b, W, y, n)
  {
    if n > 0 {
      RowOpenSplit(b, y, n - 1);
    }
  }

  lemma {:induction false} RowsOpenSplit(b: Board, m: nat)
    ensures RowsOpen(b, m) ==
      SideRows(b, N, m) + SideRows(b, E, m) + SideRows(b, S, m) + SideRows(b, W, m)
  {
    if m > 0 {
      RowsOpenSplit(b, m - 1);
      RowOpenSplit(b, m - 1, b.width);
    }
  }

  lemma {:induction false} RowPassagesSplit(b: Board, y: int, n: nat)
    ensures RowPassages(b, y, n) == SideRow(b, E, y, n) + SideRow(b, S, y, n)
  {
    if n > 0 {
      RowPassagesSplit(b, y, n - 1);
    }
  }

  lemma {:induction false} RowsPassagesSplit(b: Board, m: nat)
    ensures RowsPassages(b, m) == SideRows(b, E, m) + SideRows(b, S, m)
  {
    if m > 0 {
      RowsPassagesSplit(b, m - 1);
      RowPassagesSplit(b, m - 1, b.width);
    }
  }

  /** Each open west side of a row is the open east side of its left
      neighbour, the first column's west side being closed. */
  lemma {:induction false} WestIsEast(b: Board, y: int, n: nat)
    requires Coherent(b) && 0 <= y < b.height && n < b.width
    ensures SideRow(b, W, y, n + 1) == SideRow(b, E, y, n)
  {
    if n > 0 {
      WestIsEast(b, y, n - 1);
      assert HasWall(b, (n - 1, y), E) == HasWall(b, (n - 1 + 1, y), W);
    }
  }

  lemma WestEastRow(b: Board, y: int)
    requires Coherent(b) && 0 <= y < b.height
    ensures SideRow(b, W, y, b.width) == SideRow(b, E, y, b.width)
  {
    if b.width > 0 {
      WestIsEast(b, y, b.width - 1);
      CoherentAt(b, (b.width - 1, y), E);
    }
  }

  lemma {:induction false} WestEastRows(b: Board, m: nat)
    requires Coherent(b) && m <= b.height
    ensures SideRows(b, W, m) == SideRows(b, E, m)
  {
    if m > 0 {
      WestEastRows(b, m - 1);
      WestEastRow(b, m - 1);
    }
  }

  /** Each open north side of a row is the open south side above it. */
  lemma {:induction false} NorthIsSouth(b: Board, y: int, n: nat)
    requires Coherent(b) && 0 <= y < b.height - 1 && n <= b.width
    ensures SideRow(b, N, y + 1, n) == SideRow(b, S, y, n)
  {
    if n > 0 {
      NorthIsSouth(b, y, n - 1);
      assert HasWall(b, (n - 1, y), S) == HasWall(b, (n - 1, y + 1), N);
    }
  }

  lemma {:induction false} NorthTop(b: Board, n: nat)
    requires Coherent(b) && n <= b.width
    ensures SideRow(b, N, 0, n) == 0
  {
    if n > 0 {
      NorthTop(b, n - 1);
      assert HasWall(b, (n - 1, 0), N);
    }
  }

  lemma {:induction false} SouthBottom(b: Board, n: nat)
    requires Coherent(b) && b.height > 0 && n <= b.width
    ensures SideRow(b, S, b.height - 1, n) == 0
  {
    if n > 0 {
      SouthBottom(b, n - 1);
      CoherentAt(b, (n - 1, b.height - 1), S);
    }
  }

  lemma {:induction false} NorthSouthRows(b: Board, m: nat)
    requires Coherent(b) && m < b.height
    ensures SideRows(b, N, m + 1) == SideRows(b, S, m)
  {
    if m == 0 {
      NorthTop(b, b.width);
    } else {
      NorthSouthRows(b, m - 1);
      NorthIsSouth(b, m - 1, b.width);
    }
  }

  /** On a coherent grid every passage shows as a clear bit on both of its
      sides and no border bit is clear, so the clear bits number exactly
      twice the passages. */
  lemma OpenSidesTwice(b: Board)
    requires Coherent(b)
    ensures OpenSides(b) == 2 * Passages(b)
  {
    var h := b.height;
    RowsOpenSplit(b, h);
    RowsPassagesSplit(b, h);
    WestEastRows(b, h);
    if h > 0 {
      NorthSouthRows(b, h - 1);
      SouthBottom(b, b.width);
    }
  }

  /** The count of `CountOpenPassages` is the passage count of the grid. */
  lemma CountIsPassages(b: Board)
    requires Coherent(b)
    ensures OpenSides(b) / 2 == Passages(b)
  {
    OpenSidesTwice(b);
  }

  /** `is_perfect_maze` as written: the count against `width * height - 1`. */
  method IsPerfectMaze(b: Board) returns (r: bool)
    requires Shaped(b)
    ensures r <==> OpenSides(b) / 2 == b.width * b.height - 1
  {
    var passages := CountOpenPassages(b);
    r := passages == b.width * b.height - 1;
  }

  /** The count compared with the free cells: one passage fewer than cells
      not covered by the pattern. */
  method IsPerfectMazeFree(b: Board) returns (r: bool)
    requires Shaped(b)
    ensures r <==> OpenSides(b) / 2 == b.width * b.height - |b.blocked| - 1
  {
    var passages := CountOpenPassages(b);
    r := passages == b.width * b.height - |b.blocked| - 1;
  }

  function RowCells(w: nat, y: int): set<Cell> {
    set x | 0 <= x < w :: (x, y)
  }

  lemma {:induction false} RowCellsCard(w: nat, y: int)
    ensures |RowCells(w, y)| == w
  {
    if w > 0 {
      RowCellsCard(w - 1, y);
      assert RowCells(w, y) == RowCells(w - 1, y) + {(w - 1, y)};
    }
  }

  /** The cells of the first `h` rows of a `w`-wide grid. */
  function GridCells(w: nat, h: nat): set<Cell> {
    if h == 0 then {} else GridCells(w, h - 1) + RowCells(w, h - 1)
  }

  lemma RowCellsMember(w: nat, y: int, c: Cell)
    ensures c in RowCells(w, y) <==> 0 <= c.0 < w && c.1 == y
  {
    if 0 <= c.0 < w && c.1 == y {
      assert (c.0, y) in RowCells(w, y);
    }
  }

  lemma {:induction false} GridCellsMember(w: nat, h: nat, c: Cell)
    ensures c in GridCells(w, h) <==> 0 <= c.0 < w && 0 <= c.1 < h
  {
    if h > 0 {
      GridCellsMember(w, h - 1, c);
      RowCellsMember(w, h - 1, c);
    }
  }

  lemma {:induction false} GridCellsCard(w: nat, h: nat)
    ensures |GridCells(w, h)| == w * h
  {
    if h > 0 {
      GridCellsCard(w, h - 1);
      RowCellsCard(w, h - 1);
      GridRowDisjoint(w, h - 1);
      var top, row := GridCells(w, h - 1), RowCells(w, h - 1);
      DisjointCard(top, row);
      MulStep(w, h);
    }
  }

  lemma DisjointCard(a: set<Cell>, b: set<Cell>)
    requires a !! b
    ensures |a + b| == |a| + |b|
  {
  }

  lemma MulStep(w: nat, h: nat)
    requires h > 0
    ensures w * h == w * (h - 1) + w
  {
  }

  /** Row `y` is not among the rows above it. */
  lemma GridRowDisjoint(w: nat, y: nat)
    ensures GridCells(w, y) !! RowCells(w, y)
  {
    forall c | c in GridCells(w, y) ensures c !in RowCells(w, y) {
      GridCellsMember(w, y, c);
      RowCellsMember(w, y, c);
    }
  }

  /** The free cells number the grid's cells less the blocked ones. */
  lemma FreeCellsCard(b: Board)
    requires BlockedClosed(b)
    ensures |FreeCells(b)| == b.width * b.height - |b.blocked|
  {
    GridCellsCard(b.width, b.height);
    var all := GridCells(b.width, b.height);
    forall c ensures c in FreeCells(b) <==> c in all - b.blocked {
      FreeCellsMember(b, c);
      GridCellsMember(b.width, b.height, c);
    }
    forall c | c in b.blocked ensures c in all {
      GridCellsMember(b.width, b.height, c);
    }
    assert FreeCells(b) == all - b.blocked;
    assert b.blocked <= all;
  }

  /** A single component: some free cell, and open passages between every
      two of them. */
  lemma OneComponent(b: Board)
    requires Coherent(b)
    ensures Components(b) == 1 <==>
      FreeCells(b) != {} && forall u, v :: Free(b, u) && Free(b, v) ==> Connected(b, u, v)
  {
    if Components(b) == 1 {
      var k :| k in Classes(b);
      assert FreeCells(b) != {};
      forall u, v | Free(b, u) && Free(b, v) ensures Connected(b, u, v) {
        FreeCellsMember(b, u);
        FreeCellsMember(b, v);
        SingleMember(Classes(b), Class(b, u), Class(b, v));
        ConnectedReflexive(b, v);
        ClassMember(b, v, v);
        ClassMember(b, u, v);
      }
    }
    if FreeCells(b) != {} && forall u, v :: Free(b, u) && Free(b, v) ==> Connected(b, u, v) {
      var u :| u in FreeCells(b);
      FreeCellsMember(b, u);
      forall v | v in FreeCells(b) ensures Class(b, v) == Class(b, u) {
        FreeCellsMember(b, v);
        SameClass(b, v, u);
      }
      assert Classes(b) == {Class(b, u)};
    }
  }

  lemma SingleMember(s: set<set<Cell>>, x: set<Cell>, y: set<Cell>)
    requires |s| == 1 && x in s && y in s
    ensures x == y
  {
    var t := s - {x};
    assert |t| == 0;
    assert y !in t;
  }

  /** A generated maze (coherent, blocked cells closed, a spanning forest)
      passes the free-cell test exactly when all its free cells are joined. */
  lemma PerfectFreeMeansConnected(b: Board)
    requires Coherent(b) && BlockedClosed(b) && Forest(b)
    ensures OpenSides(b) / 2 == b.width * b.height - |b.blocked| - 1 <==>
      FreeCells(b) != {} && forall u, v :: Free(b, u) && Free(b, v) ==> Connected(b, u, v)
  {
    CountIsPassages(b);
    FreeCellsCard(b);
    OneComponent(b);
  }

  /** As written, the test fails every generated maze with two or more
      blocked cells, perfect or not: its passages are at most the free cells
      less one, already fewer than `width * height - 1`. */
  lemma PerfectIgnoresBlocked(b: Board)
    requires Coherent(b) && BlockedClosed(b) && Forest(b) && |b.blocked| >= 2
    ensures OpenSides(b) / 2 != b.width * b.height - 1
  {
    CountIsPassages(b);
    FreeCellsCard(b);
  }

  /** Both points in bounds and distinct. */
  function ValidateEntryExit(b: Board, entry: Cell, exit: Cell): (r: bool)
    ensures r <==> InBounds(b, entry) && InBounds(b, exit) && entry != exit
  {
    if !InBounds(b, entry) then false
    else if !InBounds(b, exit) then false
    else if entry == exit then false
    else true
  }

  /** The cell `dx` columns and `dy` rows into the window at (x, y) has
      mask 0. */
  predicate OpenAt(b: Board, x: int, y: int, dx: int, dy: int) {
    MaskAt(b, (x + dx, y + dy)) == 0
  }

  /** All nine masks of the 3x3 window at (x, y) are 0. */
  predicate OpenWindow(b: Board, x: int, y: int) {
    forall dy, dx :: 0 <= dy < 3 && 0 <= dx < 3 ==> OpenAt(b, x, y, dx, dy)
  }

  /** The nested check of one window, leaving at the first cell whose mask
      is not 0. */
  method WindowOpen(b: Board, x: int, y: int) returns (allOpen: bool)
    requires Shaped(b) && 0 <= x && x + 3 <= b.width && 0 <= y && y + 3 <= b.height
    ensures allOpen <==> OpenWindow(b, x, y)
  {
    allOpen := true;
    var dy := 0;
    while dy < 3
      invariant 0 <= dy <= 3 && allOpen
      invariant forall j, i :: 0 <= j < dy && 0 <= i < 3 ==> OpenAt(b, x, y, i, j)
    {
      var dx := 0;
      while dx < 3
        invariant 0 <= dx <= 3 && allOpen
        invariant forall j, i :: 0 <= j < dy && 0 <= i < 3 ==> OpenAt(b, x, y, i, j)
        invariant forall i :: 0 <= i < dx ==> OpenAt(b, x, y, i, dy)
      {
        var cell := b.walls[y + dy][x + dx];
        if cell != 0 {
          assert !OpenAt(b, x, y, dx, dy);
          allOpen := false;
          break;
        }
        dx := dx + 1;
      }
      if !allOpen {
        break;
      }
      dy := dy + 1;
    }
  }

  /** Some 3x3 window of the grid has all nine masks 0. */
  method Has3x3OpenAreas(b: Board) returns (r: bool)
    requires Shaped(b)
    ensures r <==> exists y, x :: 0 <= y < b.height - 2 && 0 <= x < b.width - 2 && OpenWindow(b, x, y)
  {
    var y := 0;
    while y < b.height - 2
      invariant 0 <= y
      invariant forall y', x' :: 0 <= y' < y && 0 <= x' < b.width - 2 ==> !OpenWindow(b, x', y')
    {
      var x := 0;
      while x < b.width - 2
        invariant 0 <= x
        invariant forall y', x' :: 0 <= y' < y && 0 <= x' < b.width - 2 ==> !OpenWindow(b, x', y')
        invariant forall x' :: 0 <= x' < x ==> !OpenWindow(b, x', y)
      {
        var allOpen := WindowOpen(b, x, y);
        if allOpen {
          return true;
        }
        x := x + 1;
      }
      y := y + 1;
    }
    return false;
  }

  /** Valid entry and exit and no fully open 3x3 area. */
  method ValidateMazeStructure(b: Board, entry: Cell, exit: Cell) returns (r: bool)
    requires Shaped(b)
    ensures r <==> (ValidateEntryExit(b, entry, exit) &&
      !exists y, x :: 0 <= y < b.height - 2 && 0 <= x < b.width - 2 && OpenWindow(b, x, y))
  {
    if !ValidateEntryExit(b, entry, exit) {
      return false;
    }
    var open := Has3x3OpenAreas(b);
    if open {
      return false;
    }
    return true;
  }

  /** No cell occurs twice. */
  predicate Distinct(q: seq<Cell>) {
    forall i, j :: 0 <= i < j < |q| ==> q[i] != q[j]
  }

  /** A coordinate Python's `walls[y][x]` accepts: a negative index counts
      from the end of its row or column. */
  predicate Indexable(b: Board, c: Cell) {
    -(b.height as int) <= c.1 < b.height && -(b.width as int) <= c.0 < b.width
  }

  /** The mask `walls[y][x]` reads, with negative indices wrapped. */
  function WrappedMask(b: Board, c: Cell): (m: Mask)
    requires Shaped(b) && Indexable(b, c)
    ensures InBounds(b, c) ==> m == b.walls[c.1][c.0]
    ensures !InBounds(b, c) ==> exists x, y :: InBounds(b, (x, y)) && m == b.walls[y][x]
  {
    var x := if c.0 < 0 then c.0 + b.width else c.0;
    var y := if c.1 < 0 then c.1 + b.height else c.1;
    assert InBounds(b, (x, y));
    b.walls[y][x]
  }

  /** The neighbours of `c` in the directions `ds`, in order, that lie
      behind a clear bit of `w`, on the grid and outside `visited`. */
  function OpenFresh(b: Board, c: Cell, w: Mask, visited: set<Cell>, ds: seq<Dir>): seq<Cell>
    decreases |ds|
  {
    if ds == [] then []
    else
      var d := ds[|ds| - 1];
      var n := Step(c, d);
      OpenFresh(b, c, w, visited, ds[..|ds| - 1]) +
        if w & Bit(d) == 0 && InBounds(b, n) && n !in visited then [n] else []
  }

  /** A cell is listed exactly when it is the neighbour in one of the
      directions, behind a clear bit, on the grid and not yet visited. */
  lemma {:induction false} OpenFreshMember(b: Board, c: Cell, w: Mask, visited: set<Cell>, ds: seq<Dir>, n: Cell)
    ensures n in OpenFresh(b, c, w, visited, ds) <==>
      exists d :: d in ds && n == Step(c, d) && w & Bit(d) == 0 && InBounds(b, n) && n !in visited
    decreases |ds|
  {
    if ds != [] {
      var init, d := ds[..|ds| - 1], ds[|ds| - 1];
      assert ds == init + [d];
      OpenFreshMember(b, c, w, visited, init, n);
      if n == Step(c, d) && w & Bit(d) == 0 && InBounds(b, n) && n !in visited {
        assert n in OpenFresh(b, c, w, visited, ds);
      }
    }
  }

  /** The neighbour in a direction not among `ds` is not listed for `ds`. */
  lemma {:induction false} OpenFreshAvoids(b: Board, c: Cell, w: Mask, visited: set<Cell>, ds: seq<Dir>, d: Dir)
    requires d !in ds
    ensures Step(c, d) !in OpenFresh(b, c, w, visited, ds)
    decreases |ds|
  {
    if ds != [] {
      var init := ds[..|ds| - 1];
      assert ds == init + [ds[|ds| - 1]];
      OpenFreshAvoids(b, c, w, visited, init, d);
      if Step(c, d) == Step(c, ds[|ds| - 1]) {
        StepInjective(c, d, ds[|ds| - 1]);
      }
    }
  }

  /** One more direction extends the list by its neighbour when that is
      behind a clear bit, on the grid and outside the cells seen so far:
      the earlier neighbours are different cells, so testing the grown
      visited set is testing `visited`. */
  lemma OpenFreshStep(b: Board, c: Cell, w: Mask, visited: set<Cell>, i: nat, seen: set<Cell>)
    requires i < |Dirs| && seen == visited + set m | m in OpenFresh(b, c, w, visited, Dirs[..i])
    ensures var d := Dirs[i]; var n := Step(c, d);
      OpenFresh(b, c, w, visited, Dirs[..i + 1]) ==
        OpenFresh(b, c, w, visited, Dirs[..i]) + if w & Bit(d) == 0 && InBounds(b, n) && n !in seen then [n] else []
  {
    var d := Dirs[i];
    assert Dirs[..i + 1][..i] == Dirs[..i];
    assert d !in Dirs[..i];
    OpenFreshAvoids(b, c, w, visited, Dirs[..i], d);
  }

  /** The listed neighbours of the four directions are different, unvisited
      cells of the grid. */
  lemma OpenFreshFacts(b: Board, c: Cell, w: Mask, visited: set<Cell>)
    ensures var r := OpenFresh(b, c, w, visited, Dirs);
      Distinct(r) && forall k :: 0 <= k < |r| ==> r[k] !in visited && r[k] in Cells(b)
  {
    var r := OpenFresh(b, c, w, visited, Dirs);
    forall k | 0 <= k < |r|
      ensures r[k] !in visited && r[k] in Cells(b)
    {
      OpenFreshMember(b, c, w, visited, Dirs, r[k]);
      CellsMember(b, r[k]);
    }
    forall i, j | 0 <= i < j < |r|
      ensures r[i] != r[j]
    {
      OpenFreshDistinct(b, c, w, visited, Dirs, i, j);
    }
  }

  lemma {:induction false} OpenFreshDistinct(b: Board, c: Cell, w: Mask, visited: set<Cell>, ds: seq<Dir>, i: nat, j: nat)
    requires forall p, q :: 0 <= p < q < |ds| ==> ds[p] != ds[q]
    requires i < j < |OpenFresh(b, c, w, visited, ds)|
    ensures OpenFresh(b, c, w, visited, ds)[i] != OpenFresh(b, c, w, visited, ds)[j]
    decreases |ds|
  {
    var init, d := ds[..|ds| - 1], ds[|ds| - 1];
    var r0 := OpenFresh(b, c, w, visited, init);
    if j < |r0| {
      OpenFreshDistinct(b, c, w, visited, init, i, j);
    } else {
      assert d !in init by {
        forall p | 0 <= p < |init| ensures init[p] != d {
          assert init[p] == ds[p];
        }
      }
      OpenFreshAvoids(b, c, w, visited, init, d);
      assert r0[i] in r0;
    }
  }

  /** The directions loop of the probe for one dequeued cell whose mask is
      `w`: every neighbour behind a clear bit, in bounds and not yet visited,
      is marked visited and returned in direction order. */
  method ProbeNeighbours(b: Board, c: Cell, w: Mask, visited: set<Cell>) returns (added: seq<Cell>, visited': set<Cell>)
    ensures added == OpenFresh(b, c, w, visited, Dirs)
    ensures visited <= visited' && Distinct(added)
    ensures forall k :: 0 <= k < |added| ==> added[k] !in visited && added[k] in Cells(b)
    ensures visited' == visited + set n | n in added
  {
    added, visited' := [], visited;
    for i := 0 to |Dirs|
      invariant added == OpenFresh(b, c, w, visited, Dirs[..i])
      invariant visited' == visited + set n | n in added
    {
      added, visited' := ProbeDirection(b, c, w, visited, i, added, visited');
    }
    assert Dirs[..|Dirs|] == Dirs;
    OpenFreshFacts(b, c, w, visited);
  }

  /** One turn of the directions loop: the neighbour in direction
      `Dirs[i]` is appended and marked when it is behind a clear bit, on the
      grid and not yet marked. */
  method ProbeDirection(b: Board, c: Cell, w: Mask, visited: set<Cell>, i: nat, added: seq<Cell>, seen: set<Cell>)
    returns (added': seq<Cell>, seen': set<Cell>)
    requires i < |Dirs| && added == OpenFresh(b, c, w, visited, Dirs[..i])
    requires seen == visited + set n | n in added
    ensures added' == OpenFresh(b, c, w, visited, Dirs[..i + 1])
    ensures seen' == visited + set n | n in added'
  {
    var d := Dirs[i];
    var n := (c.0 + DX(d), c.1 + DY(d));
    OpenFreshStep(b, c, w, visited, i, seen);
    added', seen' := added, seen;
    if w & Bit(d) == 0 {
      if InBounds(b, n) && n !in seen {
        seen' := seen + {n};
        added' := added + [n];
      }
    }
  }

  /** The probe for a second path: a search that counts how often `end` is
      dequeued. Every cell is enqueued at most once, so `end` is counted at
      most once and the answer is always false. A start off the grid is read
      with Python's wrapped indices; a start equal to `end` is never read. */
  method HasMultiplePaths(b: Board, start: Cell, end: Cell) returns (r: bool)
    requires Shaped(b) && (start == end || Indexable(b, start))
    ensures !r
  {
    var queue := [start];
    var visited := {start};
    var pathCount := 0;
    ghost var done: set<Cell> := {};
    while queue != [] && pathCount <= 1
      invariant done <= visited <= Cells(b) + {start}
      invariant Distinct(queue)
      invariant forall i :: 0 <= i < |queue| ==> queue[i] in visited && queue[i] !in done
      invariant pathCount == if end in done then 1 else 0
      decreases |Cells(b) - visited|, |queue|
    {
      var c := queue[0];
      queue := queue[1..];
      done := done + {c};
      if c == end {
        pathCount := pathCount + 1;
        if pathCount > 1 {
          return true;
        }
        continue;
      }
      queue, visited := ExpandDequeued(b, start, end, c, queue, visited, done);
    }
    return pathCount > 1;
  }

  /** One dequeued cell other than `end`: its mask is read and its new
      neighbours are appended to the queue. */
  method ExpandDequeued(b: Board, start: Cell, end: Cell, c: Cell, queue: seq<Cell>, visited: set<Cell>,
                        ghost done: set<Cell>) returns (queue': seq<Cell>, visited': set<Cell>)
    requires Shaped(b) && (start == end || Indexable(b, start))
    requires done <= visited <= Cells(b) + {start} && c in done && c in visited && c != end
    requires Distinct(queue) && forall i :: 0 <= i < |queue| ==> queue[i] in visited && queue[i] !in done
    ensures done <= visited' <= Cells(b) + {start}
    ensures Distinct(queue') && forall i :: 0 <= i < |queue'| ==> queue'[i] in visited' && queue'[i] !in done
    ensures |Cells(b) - visited'| < |Cells(b) - visited| || (visited' == visited && queue' == queue)
  {
    DequeuedReadable(b, start, end, c, visited);
    var added;
    added, visited' := ProbeNeighbours(b, c, WrappedMask(b, c), visited);
    QueueGrows(b, c, queue, added, visited, visited', done);
    queue' := queue + added;
  }

  /** A dequeued cell other than `end` is the start, readable by the
      requirement of the probe, or an in-bounds cell. */
  lemma DequeuedReadable(b: Board, start: Cell, end: Cell, c: Cell, visited: set<Cell>)
    requires start == end || Indexable(b, start)
    requires c in visited && visited <= Cells(b) + {start} && c != end
    ensures Indexable(b, c)
  {
    CellsMember(b, c);
  }

  /** Appending the newly visited cells keeps the queue free of repeats and
      of dequeued cells, and either shrinks the unvisited cells or adds
      nothing. */
  lemma QueueGrows(b: Board, c: Cell, queue: seq<Cell>, added: seq<Cell>,
                   visited: set<Cell>, visited': set<Cell>, done: set<Cell>)
    requires done <= visited <= visited' && c in done
    requires Distinct(queue) && Distinct(added)
    requires forall i :: 0 <= i < |queue| ==> queue[i] in visited && queue[i] !in done
    requires forall k :: 0 <= k < |added| ==> added[k] !in visited && added[k] in Cells(b)
    requires visited' == visited + set n | n in added
    ensures Distinct(queue + added)
    ensures forall i :: 0 <= i < |queue + added| ==> (queue + added)[i] in visited' && (queue + added)[i] !in done
    ensures added == [] ==> visited' == visited
    ensures added != [] ==> |Cells(b) - visited'| < |Cells(b) - visited|
  {
    if added != [] {
      assert added[0] in visited';
      FewerLeft(Cells(b), visited, visited', added[0]);
    }
  }
}
