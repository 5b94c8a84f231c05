/** The wall-bitmask grid: a cell is addressed by (x, y), every cell holds a
    4-bit mask whose set bits are the walls still standing (N = 1, E = 2,
    S = 4, W = 8). A `Board` is the pure value of a maze: its size, its masks
    (indexed `walls[y][x]`) and the set of blocked cells. */
module Grid {

  type Mask = bv4
  type Cell = (int, int)

  datatype Dir = N | E | S | W

  /** The direction table every carving routine walks through, in its order. */
  const Dirs: seq<Dir> := [N, E, S, W]

  const Closed: Mask := 15

  function Bit(d: Dir): Mask {
    match d
    case N => 1
    case E => 2
    case S => 4
    case W => 8
  }

  function Opp(d: Dir): Dir {
    match d
    case N => S
    case E => W
    case S => N
    case W => E
  }

  function DX(d: Dir): int {
    match d
    case E => 1
    case W => -1
    case _ => 0
  }

  function DY(d: Dir): int {
    match d
    case N => -1
    case S => 1
    case _ => 0
  }

  function Step(c: Cell, d: Dir): Cell {
    (c.0 + DX(d), c.1 + DY(d))
  }

  lemma StepBack(c: Cell, d: Dir)
    ensures Step(c, d) != c && Step(Step(c, d), Opp(d)) == c && Opp(Opp(d)) == d && Opp(d) != d
  {
  }

  lemma StepInjective(c: Cell, d: Dir, e: Dir)
    requires Step(c, d) == Step(c, e)
    ensures d == e
  {
  }

  lemma AllDirsListed(d: Dir)
    ensures d in Dirs
  {
  }

  datatype Board = Board(width: nat, height: nat, walls: seq<seq<Mask>>, blocked: set<Cell>)

  predicate Shaped(b: Board) {
    |b.walls| == b.height && forall y :: 0 <= y < b.height ==> |b.walls[y]| == b.width
  }

  predicate InBounds(b: Board, c: Cell) {
    0 <= c.0 < b.width && 0 <= c.1 < b.height
  }

  predicate Free(b: Board, c: Cell) {
    InBounds(b, c) && c !in b.blocked
  }

  /** The mask of a cell; everything outside the stored grid reads as closed. */
  function MaskAt(b: Board, c: Cell): Mask {
    if 0 <= c.1 < |b.walls| && 0 <= c.0 < |b.walls[c.1]| then b.walls[c.1][c.0] else Closed
  }

  predicate HasWall(b: Board, c: Cell, d: Dir) {
    (MaskAt(b, c) & Bit(d)) != 0
  }

  /** An open passage from `c` toward `d`: both ends free and the wall bit of
      `c` on that side cleared. */
  predicate Link(b: Board, c: Cell, d: Dir) {
    Free(b, c) && Free(b, Step(c, d)) && !HasWall(b, c, d)
  }

  predicate Linked(b: Board, u: Cell, v: Cell) {
    (v == Step(u, N) && Link(b, u, N)) ||
    (v == Step(u, E) && Link(b, u, E)) ||
    (v == Step(u, S) && Link(b, u, S)) ||
    (v == Step(u, W) && Link(b, u, W))
  }

  lemma LinkedStep(b: Board, u: Cell, d: Dir)
    ensures Linked(b, u, Step(u, d)) <==> Link(b, u, d)
  {
  }

  lemma LinkedDir(b: Board, u: Cell, v: Cell) returns (d: Dir)
    requires Linked(b, u, v)
    ensures v == Step(u, d) && Link(b, u, d)
  {
    if v == Step(u, N) && Link(b, u, N) { d := N; }
    else if v == Step(u, E) && Link(b, u, E) { d := E; }
    else if v == Step(u, S) && Link(b, u, S) { d := S; }
    else { d := W; }
  }

  /** Grid-adjacency among free cells, whatever the walls say. */
  predicate FreeAdjacent(b: Board, u: Cell, v: Cell) {
    Free(b, u) && Free(b, v) &&
    (v == Step(u, N) || v == Step(u, E) || v == Step(u, S) || v == Step(u, W))
  }

  /** Neighbour masks agree (E of a cell is W of its right neighbour, S of a
      cell is N of the one below) and every border-facing bit is set. */
  predicate Coherent(b: Board) {
    Shaped(b) && EastWestAgree(b) && SouthNorthAgree(b) && BorderClosed(b)
  }

  predicate EastWestAgree(b: Board) {
    forall y, x | 0 <= y < b.height && 0 <= x < b.width - 1 ::
      HasWall(b, (x, y), E) == HasWall(b, (x + 1, y), W)
  }

  predicate SouthNorthAgree(b: Board) {
    forall y, x | 0 <= y < b.height - 1 && 0 <= x < b.width ::
      HasWall(b, (x, y), S) == HasWall(b, (x, y + 1), N)
  }

  predicate BorderClosed(b: Board) {
    SidesClosed(b) && EndsClosed(b)
  }

  /** The west bit of the first column and the east bit of the last one. */
  predicate SidesClosed(b: Board) {
    forall y | 0 <= y < b.height :: HasWall(b, (0, y), W) && HasWall(b, (b.width - 1, y), E)
  }

  /** The north bit of the first row and the south bit of the last one. */
  predicate EndsClosed(b: Board) {
    forall x | 0 <= x < b.width :: HasWall(b, (x, 0), N) && HasWall(b, (x, b.height - 1), S)
  }

  lemma CoherentAt(b: Board, c: Cell, d: Dir)
    requires Coherent(b) && InBounds(b, c)
    ensures HasWall(b, c, d) == (InBounds(b, Step(c, d)) ==> HasWall(b, Step(c, d), Opp(d)))
  {
    var (x, y) := c;
    match d
    case N =>
      if y > 0 {
        assert HasWall(b, (x, y - 1), S) == HasWall(b, (x, y - 1 + 1), N);
      } else {
        assert HasWall(b, (x, 0), N);
      }
    case S =>
      if y < b.height - 1 {
        assert HasWall(b, (x, y), S) == HasWall(b, (x, y + 1), N);
      } else {
        assert HasWall(b, (x, b.height - 1), S);
      }
    case E =>
      if x < b.width - 1 {
        assert HasWall(b, (x, y), E) == HasWall(b, (x + 1, y), W);
      } else {
        assert HasWall(b, (b.width - 1, y), E);
      }
    case W =>
      if x > 0 {
        assert HasWall(b, (x - 1, y), E) == HasWall(b, (x - 1 + 1, y), W);
      } else {
        assert HasWall(b, (0, y), W);
      }
  }

  /** On a coherent board a passage is open from both sides. */
  lemma LinkSymmetric(b: Board, c: Cell, d: Dir)
    requires Coherent(b) && Link(b, c, d)
    ensures Link(b, Step(c, d), Opp(d))
  {
    CoherentAt(b, c, d);
  }

  /** Every cell of the grid is in bounds and blocked cells stay fully closed. */
  predicate BlockedClosed(b: Board) {
    (forall c :: c in b.blocked ==> InBounds(b, c)) &&
    (forall c :: c in b.blocked ==> MaskAt(b, c) == Closed)
  }

  /** The grid with the mask at one in-range cell replaced. */
  function SetMask(g: seq<seq<Mask>>, c: Cell, m: Mask): (r: seq<seq<Mask>>)
    ensures |r| == |g| && forall y :: 0 <= y < |g| ==> |r[y]| == |g[y]|
  {
    if 0 <= c.1 < |g| && 0 <= c.0 < |g[c.1]| then g[c.1 := g[c.1][c.0 := m]] else g
  }

  lemma MaskAtSetMask(b: Board, c: Cell, m: Mask, u: Cell)
    requires Shaped(b) && InBounds(b, c)
    ensures MaskAt(b.(walls := SetMask(b.walls, c, m)), u) == if u == c then m else MaskAt(b, u)
  {
  }

  /** Masks depend on the walls alone. */
  lemma SameWalls(b0: Board, b1: Board)
    requires b0.walls == b1.walls
    ensures forall u :: MaskAt(b0, u) == MaskAt(b1, u)
  {
  }

  lemma MaskAtSetMaskAll(b: Board, c: Cell, m: Mask)
    requires Shaped(b) && InBounds(b, c)
    ensures forall u :: MaskAt(b.(walls := SetMask(b.walls, c, m)), u) == if u == c then m else MaskAt(b, u)
  {
    forall u ensures MaskAt(b.(walls := SetMask(b.walls, c, m)), u) == if u == c then m else MaskAt(b, u) {
      MaskAtSetMask(b, c, m, u);
    }
  }

  /** Removing the wall between `c` and its neighbour `Step(c, d)`: the bit of
      `d` is cleared on `c` and the opposite bit on the neighbour. */
  function Carve(b: Board, c: Cell, d: Dir): (r: Board)
    requires Shaped(b)
    ensures Shaped(r) && r.width == b.width && r.height == b.height && r.blocked == b.blocked
  {
    var n := Step(c, d);
    var g1 := SetMask(b.walls, c, MaskAt(b, c) & !Bit(d));
    b.(walls := SetMask(g1, n, MaskAt(b, n) & !Bit(Opp(d))))
  }

  lemma MaskAtCarve(b: Board, c: Cell, d: Dir, u: Cell)
    requires Shaped(b) && InBounds(b, c) && InBounds(b, Step(c, d))
    ensures MaskAt(Carve(b, c, d), u) ==
      if u == c then MaskAt(b, c) & !Bit(d)
      else if u == Step(c, d) then MaskAt(b, Step(c, d)) & !Bit(Opp(d))
      else MaskAt(b, u)
  {
    var n := Step(c, d);
    var b1 := b.(walls := SetMask(b.walls, c, MaskAt(b, c) & !Bit(d)));
    MaskAtSetMask(b, c, MaskAt(b, c) & !Bit(d), u);
    MaskAtSetMask(b1, n, MaskAt(b, n) & !Bit(Opp(d)), u);
  }

  lemma HasWallCarve(b: Board, c: Cell, d: Dir, u: Cell, e: Dir)
    requires Shaped(b) && InBounds(b, c) && InBounds(b, Step(c, d))
    ensures HasWall(Carve(b, c, d), u, e) ==
      (HasWall(b, u, e) && !(u == c && e == d) && !(u == Step(c, d) && e == Opp(d)))
  {
    MaskAtCarve(b, c, d, u);
    StepBack(c, d);
  }

  lemma CarveCoherentAt(b: Board, c: Cell, d: Dir, u: Cell, e: Dir)
    requires Coherent(b) && InBounds(b, c) && InBounds(b, Step(c, d)) && InBounds(b, u)
    ensures HasWall(Carve(b, c, d), u, e) ==
      (InBounds(b, Step(u, e)) ==> HasWall(Carve(b, c, d), Step(u, e), Opp(e)))
  {
    var n, v := Step(c, d), Step(u, e);
    HasWallCarve(b, c, d, u, e);
    HasWallCarve(b, c, d, v, Opp(e));
    CoherentAt(b, u, e);
    StepBack(c, d);
    StepBack(u, e);
    if u == c && e == d {
      assert v == n;
    } else if u == n && e == Opp(d) {
      assert v == c;
    } else {
    }
  }

  lemma CarveEastWest(b: Board, c: Cell, d: Dir)
    requires Coherent(b) && InBounds(b, c) && InBounds(b, Step(c, d))
    ensures EastWestAgree(Carve(b, c, d))
  {
    forall y, x | 0 <= y < b.height && 0 <= x < b.width - 1
      ensures HasWall(Carve(b, c, d), (x, y), E) == HasWall(Carve(b, c, d), (x + 1, y), W)
    {
      assert Step((x, y), E) == (x + 1, y);
      CarveCoherentAt(b, c, d, (x, y), E);
    }
  }

  lemma CarveSouthNorth(b: Board, c: Cell, d: Dir)
    requires Coherent(b) && InBounds(b, c) && InBounds(b, Step(c, d))
    ensures SouthNorthAgree(Carve(b, c, d))
  {
    forall y, x | 0 <= y < b.height - 1 && 0 <= x < b.width
      ensures HasWall(Carve(b, c, d), (x, y), S) == HasWall(Carve(b, c, d), (x, y + 1), N)
    {
      assert Step((x, y), S) == (x, y + 1);
      CarveCoherentAt(b, c, d, (x, y), S);
    }
  }

  lemma CarveSides(b: Board, c: Cell, d: Dir)
    requires Coherent(b) && InBounds(b, c) && InBounds(b, Step(c, d))
    ensures SidesClosed(Carve(b, c, d))
  {
    var r := Carve(b, c, d);
    forall y | 0 <= y < r.height
      ensures HasWall(r, (0, y), W) && HasWall(r, (r.width - 1, y), E)
    {
      CarveCoherentAt(b, c, d, (0, y), W);
      CarveCoherentAt(b, c, d, (b.width - 1, y), E);
    }
  }

  lemma CarveEnds(b: Board, c: Cell, d: Dir)
    requires Coherent(b) && InBounds(b, c) && InBounds(b, Step(c, d))
    ensures EndsClosed(Carve(b, c, d))
  {
    var r := Carve(b, c, d);
    forall x | 0 <= x < r.width
      ensures HasWall(r, (x, 0), N) && HasWall(r, (x, r.height - 1), S)
    {
      CarveCoherentAt(b, c, d, (x, 0), N);
      CarveCoherentAt(b, c, d, (x, b.height - 1), S);
    }
  }

  /** Carving keeps the masks coherent. */
  lemma CarveCoherent(b: Board, c: Cell, d: Dir)
    requires Coherent(b) && InBounds(b, c) && InBounds(b, Step(c, d))
    ensures Coherent(Carve(b, c, d))
  {
    CarveEastWest(b, c, d);
    CarveSouthNorth(b, c, d);
    CarveSides(b, c, d);
    CarveEnds(b, c, d);
  }

  /** Carving between two free cells never touches a blocked mask. */
  lemma CarveBlockedClosed(b: Board, c: Cell, d: Dir)
    requires Shaped(b) && BlockedClosed(b) && Free(b, c) && Free(b, Step(c, d))
    ensures BlockedClosed(Carve(b, c, d))
  {
    forall u | u in b.blocked ensures MaskAt(Carve(b, c, d), u) == Closed {
      MaskAtCarve(b, c, d, u);
    }
  }

  lemma LinkCarve(b: Board, c: Cell, d: Dir, u: Cell, e: Dir)
    requires Shaped(b) && Free(b, c) && Free(b, Step(c, d))
    ensures Link(Carve(b, c, d), u, e) <==>
      (Link(b, u, e) || (u == c && e == d) || (u == Step(c, d) && e == Opp(d)))
  {
    HasWallCarve(b, c, d, u, e);
    StepBack(c, d);
  }

  /** After a carve the passages are the old ones plus the new one, in both
      directions. */
  lemma LinkedCarve(b: Board, c: Cell, d: Dir, u: Cell, v: Cell)
    requires Shaped(b) && Free(b, c) && Free(b, Step(c, d))
    ensures Linked(Carve(b, c, d), u, v) <==>
      (Linked(b, u, v) || (u == c && v == Step(c, d)) || (u == Step(c, d) && v == c))
  {
    LinkCarve(b, c, d, u, N);
    LinkCarve(b, c, d, u, E);
    LinkCarve(b, c, d, u, S);
    LinkCarve(b, c, d, u, W);
    StepBack(c, d);
  }

  /** `b1` arises from `b0` by clearing wall bits only. */
  ghost predicate Refines(b0: Board, b1: Board) {
    b1.width == b0.width && b1.height == b0.height && b1.blocked == b0.blocked &&
    Shaped(b0) && Shaped(b1) &&
    forall c, e :: HasWall(b1, c, e) ==> HasWall(b0, c, e)
  }

  lemma RefinesCarve(b: Board, c: Cell, d: Dir)
    requires Shaped(b) && InBounds(b, c) && InBounds(b, Step(c, d))
    ensures Refines(b, Carve(b, c, d))
  {
    forall u, e | HasWall(Carve(b, c, d), u, e) ensures HasWall(b, u, e) {
      HasWallCarve(b, c, d, u, e);
    }
  }

  lemma RefinesTransitive(b0: Board, b1: Board, b2: Board)
    requires Refines(b0, b1) && Refines(b1, b2)
    ensures Refines(b0, b2)
  {
  }

  lemma RefinesReflexive(b: Board)
    requires Shaped(b)
    ensures Refines(b, b)
  {
  }

  lemma LinkedRefines(b0: Board, b1: Board, u: Cell, v: Cell)
    requires Refines(b0, b1) && Linked(b0, u, v)
    ensures Linked(b1, u, v)
  {
    var d := LinkedDir(b0, u, v);
    LinkedStep(b1, u, d);
  }

  /** The fully walled grid of a given size. */
  function AllClosed(w: nat, h: nat): (g: seq<seq<Mask>>)
    ensures |g| == h && forall y :: 0 <= y < h ==> |g[y]| == w
    ensures forall y, x :: 0 <= y < h && 0 <= x < w ==> g[y][x] == Closed
  {
    seq(h, _ => seq(w, _ => Closed))
  }

  ghost predicate IsAllClosed(b: Board) {
    Shaped(b) && forall c :: InBounds(b, c) ==> MaskAt(b, c) == Closed
  }

  /** Walling in some cells of a fully walled grid, and blocking just
      those, leaves it fully walled with its blocked cells closed. */
  lemma DecoratedClosed(b0: Board, b1: Board)
    requires IsAllClosed(b0) && Shaped(b1) && b1.width == b0.width && b1.height == b0.height
    requires forall c :: c in b1.blocked ==> InBounds(b1, c)
    requires forall u :: MaskAt(b1, u) == if u in b1.blocked then Closed else MaskAt(b0, u)
    ensures IsAllClosed(b1) && BlockedClosed(b1)
  {
  }

  lemma AllClosedCoherent(b: Board)
    requires IsAllClosed(b)
    ensures Coherent(b) && forall u, v :: !Linked(b, u, v)
  {
    forall u, v ensures !Linked(b, u, v) {
      forall e ensures !Link(b, u, e) {
        if InBounds(b, u) {
          assert MaskAt(b, u) == Closed;
        }
      }
    }
  }

  /** The same board with every wall removed: its passages are exactly the
      grid adjacencies between free cells. */
  function Opened(b: Board): (r: Board)
    ensures r.width == b.width && r.height == b.height && r.blocked == b.blocked && Shaped(r)
  {
    b.(walls := seq(b.height, _ => seq(b.width, _ => 0 as Mask)))
  }

  lemma LinkedOpened(b: Board, u: Cell, v: Cell)
    ensures Linked(Opened(b), u, v) <==> FreeAdjacent(b, u, v)
  {
    forall e | InBounds(b, u) ensures !HasWall(Opened(b), u, e) {
      assert MaskAt(Opened(b), u) == 0;
    }
  }

  ghost predicate AllOpen(b: Board) {
    Shaped(b) && forall c :: InBounds(b, c) ==> MaskAt(b, c) == 0
  }

  /** Boards on which every passage is open from both ends. */
  ghost predicate Symmetric(b: Board) {
    Coherent(b) || AllOpen(b)
  }

  lemma LinkedSymmetric(b: Board, u: Cell, v: Cell)
    requires Symmetric(b) && Linked(b, u, v)
    ensures Linked(b, v, u)
  {
    var d := LinkedDir(b, u, v);
    StepBack(u, d);
    if Coherent(b) {
      LinkSymmetric(b, u, d);
    } else {
      assert MaskAt(b, v) == 0;
    }
    LinkedStep(b, v, Opp(d));
  }

  lemma OpenedSymmetric(b: Board)
    ensures AllOpen(Opened(b)) && Symmetric(Opened(b))
  {
  }

  lemma LinkedFreeAdjacent(b: Board, u: Cell, v: Cell)
    requires Linked(b, u, v)
    ensures FreeAdjacent(b, u, v)
  {
  }

  /** Row-major order on cells: earlier rows first, then smaller x. */
  predicate Before(u: Cell, v: Cell) {
    u.1 < v.1 || (u.1 == v.1 && u.0 < v.0)
  }
}
