/** The maze engine: a grid of wall masks with an optional "42" decoration of
    blocked cells, and the generators that carve it.

    Every generator is specified for the fully walled grid that the main
    entry prepares, and each keeps the passages a spanning forest of the
    free cells: every carve joins two cells that were not yet connected. */
module MazeEngine {
  import opened Wrappers
  import opened Grid
  import opened Walks
  import opened PassageCount
  import opened Forests
  import opened Reach
  import opened Frontiers
  import opened Repair
  import opened Sinks
  import opened Pattern42
  import opened Random
  import opened UnionFind
  import opened CellIndex

  /** The carving passes `generate_maze` can run. */
  datatype Algorithm = DepthFirst | BinaryTree | Prim

  /** The pass run for a requested algorithm: "binary_tree" runs the
      binary-tree pass only when a perfect maze is not asked for, "prim" runs
      Prim's, and every other name (and a perfect "binary_tree") the
      depth-first search. */
  function Generator(algo: string, perfect: bool): (r: Algorithm)
    ensures r == BinaryTree <==> algo == "binary_tree" && !perfect
    ensures r == Prim <==> algo == "prim"
    ensures r == DepthFirst <==> (algo != "binary_tree" || perfect) && algo != "prim"
  {
    if perfect && algo == "binary_tree" then DepthFirst
    else if algo == "binary_tree" then BinaryTree
    else if algo == "prim" then Prim
    else DepthFirst
  }

  class Maze {
    const width: nat
    const height: nat
    /** `walls[y][x]` is the wall mask of cell `(x, y)`. */
    var walls: seq<seq<Mask>>
    var blockedCells: set<Cell>
    /** Top-left corner of the decoration's box, once it is placed. */
    var patternOrigin: Option<Cell>

    /** The grid as a value. */
    function State(): Board
      reads this
    {
      Board(width, height, walls, blockedCells)
    }

    /** The walls form a `height` x `width` grid and every blocked cell lies
        on it. */
    ghost predicate Valid()
      reads this
    {
      Shaped(State()) && forall c :: c in blockedCells ==> Grid.InBounds(State(), c)
    }

    /** A fully walled grid without decoration. */
    constructor (width: nat, height: nat)
      ensures this.width == width && this.height == height
      ensures blockedCells == {} && patternOrigin == None
      ensures Valid() && IsAllClosed(State())
    {
      this.width := width;
      this.height := height;
      walls := AllClosed(width, height);
      blockedCells := {};
      patternOrigin := None;
    }

    predicate InBounds(x: int, y: int) {
      0 <= x < width && 0 <= y < height
    }

    /** Only cells of the grid are ever blocked. */
    predicate IsBlocked(x: int, y: int): (r: bool)
      requires Valid()
      reads this
      ensures r ==> InBounds(x, y)
    {
      (x, y) in blockedCells
    }

    /** Clears the wall between `c` and its neighbour towards `d`, on both
        sides. */
    method CarveWall(c: Cell, d: Dir)
      requires Valid() && Grid.InBounds(State(), c) && Grid.InBounds(State(), Step(c, d))
      modifies this
      ensures Valid() && blockedCells == old(blockedCells) && patternOrigin == old(patternOrigin)
      ensures State() == Carve(old(State()), c, d)
    {
      var n := Step(c, d);
      var mc, mn := MaskAt(State(), c), MaskAt(State(), n);
      walls := SetMask(SetMask(walls, c, mc & !Bit(d)), n, mn & !Bit(Opp(d)));
    }

    /** Every cell fully walled again, nothing blocked, no decoration. */
    method Reset()
      requires Valid()
      modifies this
      ensures Valid() && IsAllClosed(State())
      ensures blockedCells == {} && patternOrigin == None
    {
      for y := 0 to height
        invariant Shaped(State()) && blockedCells == old(blockedCells)
        invariant forall u :: Grid.InBounds(State(), u) && u.1 < y ==> MaskAt(State(), u) == Closed
      {
        for x := 0 to width
          invariant Shaped(State()) && blockedCells == old(blockedCells)
          invariant forall u :: Grid.InBounds(State(), u) && (u.1 < y || (u.1 == y && u.0 < x)) ==>
            MaskAt(State(), u) == Closed
        {
          CloseCell((x, y));
        }
      }
      blockedCells := {};
      patternOrigin := None;
    }

    /** Adds to the blocked cells every offset of `offsets`, moved by `o` and
        `shift` columns, that lands on the grid. */
    method BlockCells(o: Cell, shift: int, offsets: seq<Cell>)
      requires Valid()
      modifies this
      ensures Valid() && walls == old(walls) && patternOrigin == old(patternOrigin)
      ensures blockedCells == old(blockedCells) + Landed(o, shift, offsets, width, height)
    {
      for i := 0 to |offsets|
        invariant Valid() && walls == old(walls) && patternOrigin == old(patternOrigin)
        invariant blockedCells == old(blockedCells) + Landed(o, shift, offsets[..i], width, height)
      {
        var (dx, dy) := offsets[i];
        var nx, ny := o.0 + shift + dx, o.1 + dy;
        assert offsets[..i + 1][..i] == offsets[..i];
        if InBounds(nx, ny) {
          blockedCells := blockedCells + {(nx, ny)};
        }
      }
      assert offsets[..|offsets|] == offsets;
    }

    /** Blocks the cells of the "4" of a box at `o` that fits the grid. */
    method PlaceFour(o: Cell)
      requires Valid() && blockedCells == {}
      requires 0 <= o.0 && 0 <= o.1 && o.0 + PatternWidth <= width && o.1 + PatternHeight <= height
      modifies this
      ensures Valid() && walls == old(walls) && patternOrigin == old(patternOrigin)
      ensures blockedCells == FourCells(o)
    {
      PatternLands(o, width, height);
      AllLanded(o, 0, FourPattern, width, height);
      FourPlaced(o);
      BlockCells(o, 0, FourPattern);
    }

    /** Blocks the cells of the "2" of a box at `o` that fits the grid. */
    method PlaceTwo(o: Cell)
      requires Valid()
      requires 0 <= o.0 && 0 <= o.1 && o.0 + PatternWidth <= width && o.1 + PatternHeight <= height
      modifies this
      ensures Valid() && walls == old(walls) && patternOrigin == old(patternOrigin)
      ensures blockedCells == old(blockedCells) + TwoCells(o)
    {
      PatternLands(o, width, height);
      AllLanded(o, TwoShift, TwoPattern, width, height);
      TwoPlaced(o);
      BlockCells(o, TwoShift, TwoPattern);
    }

    /** Walls in one cell of the grid. */
    method CloseCell(c: Cell)
      requires Valid() && Grid.InBounds(State(), c)
      modifies this
      ensures Valid() && blockedCells == old(blockedCells) && patternOrigin == old(patternOrigin)
      ensures forall u :: MaskAt(State(), u) == if u == c then Closed else MaskAt(old(State()), u)
    {
      MaskAtSetMaskAll(State(), c, Closed);
      walls := SetMask(walls, c, Closed);
    }

    /** Walls in every cell of `cells`, leaving the other masks alone. */
    method CloseCells(cells: set<Cell>)
      requires Valid() && cells <= blockedCells
      modifies this
      ensures Valid() && blockedCells == old(blockedCells) && patternOrigin == old(patternOrigin)
      ensures forall u :: MaskAt(State(), u) == if u in cells then Closed else MaskAt(old(State()), u)
    {
      ghost var b0 := State();
      var todo := cells;
      while todo != {}
        invariant Valid() && blockedCells == b0.blocked && patternOrigin == old(patternOrigin)
        invariant todo <= cells
        invariant forall u :: MaskAt(State(), u) == if u in cells - todo then Closed else MaskAt(b0, u)
        decreases |todo|
      {
        var c :| c in todo;
        CloseCell(c);
        todo := todo - {c};
      }
    }

    /** Centres the "42" in the grid and blocks its cells, which are walled
        in; a grid smaller than the 9 x 7 box gets no decoration and keeps its
        walls. Either way the previous decoration is gone. */
    method Create42Pattern() returns (placed: bool)
      requires Valid()
      modifies this
      ensures Valid()
      ensures placed <==> width >= PatternWidth && height >= PatternHeight
      ensures !placed ==> patternOrigin == None && blockedCells == {} && walls == old(walls)
      ensures placed ==> patternOrigin == Some(CentredOrigin(width, height))
      ensures placed ==> blockedCells == PatternCells(CentredOrigin(width, height))
      ensures placed ==> forall u ::
        MaskAt(State(), u) == if u in blockedCells then Closed else MaskAt(old(State()), u)
    {
      blockedCells := {};
      patternOrigin := None;
      var o := CentredOrigin(width, height);
      var (ox, oy) := o;
      CentredFits(width, height);
      if ox < 0 || oy < 0 || ox + PatternWidth > width || oy + PatternHeight > height {
        return false;
      }
      patternOrigin := Some(o);
      PlaceFour(o);
      PlaceTwo(o);
      SameWalls(State(), old(State()));
      CloseCells(blockedCells);
      return true;
    }

    /** The first free cell in row-major order, if there is one. */
    method FindStart() returns (start: Option<Cell>)
      requires Valid()
      ensures start.None? <==> forall c :: !Free(State(), c)
      ensures start.Some? ==> FirstFree(State(), start.value)
    {
      for y := 0 to height
        invariant forall u :: Free(State(), u) ==> u.1 >= y
      {
        for x := 0 to width
          invariant forall u :: Free(State(), u) ==> u.1 > y || (u.1 == y && u.0 >= x)
        {
          if !IsBlocked(x, y) {
            return Some((x, y));
          }
        }
      }
      return None;
    }

    /** The recursive backtracker from `c`: every direction in random order,
        carving into each neighbour not yet visited and recursing there.
        Every cell not yet visited is still walled in, so each carve joins two
        cells that were not connected. It returns the visited cells; the ones
        it added are reached from `c` and have every in-bounds neighbour in
        the visited set, and every cell left unvisited is still walled in. */
    method Dfs(rng: Rng, c: Cell, visited: set<Cell>) returns (seen: set<Cell>)
      requires Valid() && Coherent(State()) && Free(State(), c) && c !in visited
      requires blockedCells <= visited <= Cells(State())
      requires ClosedOutside(State(), visited + {c}) && BlockedClosed(State())
      modifies this
      ensures Valid() && Coherent(State()) && BlockedClosed(State())
      ensures blockedCells == old(blockedCells) && patternOrigin == old(patternOrigin)
      ensures visited + {c} <= seen <= Cells(State())
      ensures Refines(old(State()), State())
      ensures ClosedOutside(State(), seen)
      ensures ReachedFrom(State(), c, seen - visited)
      ensures Saturated(State(), seen - visited, seen)
      ensures Forest(old(State())) ==> Forest(State())
      decreases |Cells(State()) - visited|, 2
    {
      CellsMember(State(), c);
      seen := visited + {c};
      var ds := rng.Shuffle(Dirs);
      ShuffleKeepsMembers(Dirs, ds);
      ghost var b0 := State();
      RefinesReflexive(b0);
      ConnectedReflexive(b0, c);
      for i := 0 to |ds|
        invariant Valid() && Coherent(State()) && BlockedClosed(State())
        invariant blockedCells == old(blockedCells) && patternOrigin == old(patternOrigin)
        invariant visited + {c} <= seen <= Cells(State())
        invariant Refines(b0, State())
        invariant ClosedOutside(State(), seen)
        invariant ReachedFrom(State(), c, seen - visited)
        invariant Saturated(State(), seen - visited - {c}, seen)
        invariant Targets(b0, c, ds[..i]) <= seen
        invariant Forest(b0) ==> Forest(State())
      {
        TargetsNext(b0, c, ds, i);
        seen := DfsVisit(rng, c, ds[i], visited, seen, b0);
      }
      assert forall e :: e in ds by {
        forall e ensures e in ds {
          AllDirsListed(e);
        }
      }
      assert ds[..|ds|] == ds;
      SaturatedCell(State(), b0, c, ds, seen - visited, seen);
    }

    /** One step of the backtracker: carves from `c` into its unvisited free
        neighbour towards `d`, then continues from there. */
    method DfsStep(rng: Rng, c: Cell, d: Dir, seen: set<Cell>) returns (seen': set<Cell>)
      requires Valid() && Coherent(State()) && Free(State(), c) && c in seen
      requires blockedCells <= seen <= Cells(State())
      requires Free(State(), Step(c, d)) && Step(c, d) !in seen
      requires ClosedOutside(State(), seen) && BlockedClosed(State())
      modifies this
      ensures Valid() && Coherent(State()) && BlockedClosed(State())
      ensures blockedCells == old(blockedCells) && patternOrigin == old(patternOrigin)
      ensures seen + {Step(c, d)} <= seen' <= Cells(State())
      ensures Refines(old(State()), State())
      ensures ClosedOutside(State(), seen')
      ensures ReachedFrom(State(), c, seen' - seen)
      ensures Saturated(State(), seen' - seen, seen')
      ensures Forest(old(State())) ==> Forest(State())
      decreases |Cells(State()) - seen|, 3
    {
      var n := Step(c, d);
      ghost var b0 := State();
      CarveInto(c, d, seen);
      ghost var b1 := State();
      assert seen + {c, n} == seen + {n};
      seen' := Dfs(rng, n, seen);
      RefinesTransitive(b0, b1, State());
      ConnectedRefines(b1, State(), c, n);
      ReachedThrough(State(), c, n, seen' - seen);
    }

    /** The carve of the backtracker into an unvisited free neighbour: the
        two cells become connected, the forest stays a forest and the walls
        outside the visited cells and the two stay closed. */
    method CarveInto(c: Cell, d: Dir, seen: set<Cell>)
      requires Valid() && Coherent(State()) && Free(State(), c) && c in seen
      requires Free(State(), Step(c, d)) && Step(c, d) !in seen
      requires ClosedOutside(State(), seen) && BlockedClosed(State())
      modifies this
      ensures Valid() && Coherent(State()) && BlockedClosed(State())
      ensures blockedCells == old(blockedCells) && patternOrigin == old(patternOrigin)
      ensures State() == Carve(old(State()), c, d)
      ensures Refines(old(State()), State())
      ensures Connected(State(), c, Step(c, d))
      ensures ClosedOutside(State(), seen + {c, Step(c, d)})
      ensures Forest(old(State())) ==> Forest(State())
    {
      var n := Step(c, d);
      ghost var b0 := State();
      ClosedIsolated(b0, c, n);
      CarveJoin(b0, c, d);
      CarveBlockedClosed(b0, c, d);
      RefinesCarve(b0, c, d);
      LinkedCarve(b0, c, d, c, n);
      CarveWall(c, d);
      ghost var b1 := State();
      ConnectedLinked(b1, c, n);
      CarveUnchanged(b0, c, d);
      ClosedAfter(b0, b1, seen, {c, n});
    }

    /** One turn of the backtracker's loop: the neighbour towards `d` is
        skipped when it is off the grid, visited or blocked, and carved into
        otherwise. The loop's invariant holds again afterwards, and the
        neighbour, when on the grid, is visited. */
    method DfsVisit(rng: Rng, c: Cell, d: Dir, visited: set<Cell>, seen: set<Cell>, ghost b0: Board)
      returns (seen': set<Cell>)
      requires Valid() && Coherent(State()) && Free(State(), c) && c !in visited
      requires blockedCells <= visited && visited + {c} <= seen <= Cells(State())
      requires Refines(b0, State()) && BlockedClosed(State())
      requires ClosedOutside(State(), seen)
      requires ReachedFrom(State(), c, seen - visited)
      requires Saturated(State(), seen - visited - {c}, seen)
      requires Forest(b0) ==> Forest(State())
      modifies this
      ensures Valid() && Coherent(State()) && BlockedClosed(State())
      ensures blockedCells == old(blockedCells) && patternOrigin == old(patternOrigin)
      ensures seen <= seen' <= Cells(State())
      ensures Grid.InBounds(b0, Step(c, d)) ==> Step(c, d) in seen'
      ensures Refines(b0, State())
      ensures ClosedOutside(State(), seen')
      ensures ReachedFrom(State(), c, seen' - visited)
      ensures Saturated(State(), seen' - visited - {c}, seen')
      ensures Forest(b0) ==> Forest(State())
      decreases |Cells(State()) - visited|, 1
    {
      seen' := seen;
      var n := Step(c, d);
      if !InBounds(n.0, n.1) || n in seen || IsBlocked(n.0, n.1) {
        return;
      }
      ghost var b1 := State();
      CellsMember(b1, c);
      FewerLeft(Cells(State()), visited, seen, c);
      seen' := DfsStep(rng, c, d, seen);
      RefinesTransitive(b0, b1, State());
      ReachedRefines(b1, State(), c, seen - visited);
      ReachedJoin(State(), c, seen - visited, seen' - seen, seen' - visited);
      SaturatedJoin(b1, State(), seen - visited - {c}, seen, seen' - seen, seen', seen' - visited - {c});
    }

    /** The recursive backtracker over the whole grid, started from the first
        free cell with the blocked cells marked visited. On a fully walled grid
        it carves a spanning tree of the cells the free cells reach from the
        start: everything reachable through free cells is reached through
        passages, everything else stays walled in, and the passages form a
        forest. */
    method DfsAlgo(rng: Rng)
      requires Valid() && IsAllClosed(State()) && BlockedClosed(State())
      modifies this
      ensures Valid() && Coherent(State()) && BlockedClosed(State())
      ensures blockedCells == old(blockedCells) && patternOrigin == old(patternOrigin)
      ensures Refines(old(State()), State()) && Forest(State())
      ensures forall s, v :: FirstFree(State(), s) && FreeConnected(State(), s, v) ==> Connected(State(), s, v)
      ensures forall s, v :: FirstFree(State(), s) && Grid.InBounds(State(), v) && !FreeConnected(State(), s, v) ==>
        MaskAt(State(), v) == Closed
    {
      AllClosedCoherent(State());
      AllClosedForest(State());
      RefinesReflexive(State());
      var start := FindStart();
      if start.None? {
        return;
      }
      var s := start.value;
      BlockedCells(State());
      var seen := Dfs(rng, s, blockedCells);
      SpanningSearch(State(), s, seen);
    }

    /** One cell of the binary-tree pass: a free cell opens its east or its
        south wall, whichever the draw picks among the free neighbours. */
    method BinaryTreeCell(rng: Rng, c: Cell)
      requires Valid() && PassAt(State(), c) && Grid.InBounds(State(), c)
      modifies this
      ensures Valid() && blockedCells == old(blockedCells) && patternOrigin == old(patternOrigin)
      ensures PassAt(State(), (c.0 + 1, c.1)) && Refines(old(State()), State())
      ensures Forest(old(State())) ==> Forest(State())
    {
      RefinesReflexive(State());
      if IsBlocked(c.0, c.1) {
        PassSkip(State(), c);
        return;
      }
      var choices := BinaryTreeChoices(c);
      if choices == [] {
        PassSkip(State(), c);
        return;
      }
      var d := rng.Choice(choices);
      PassCarve(State(), c, d);
      CarveWall(c, d);
    }

    /** The directions the binary tree may carve from `c`: east, then
        south, each when its neighbour is on the grid and not blocked. */
    method BinaryTreeChoices(c: Cell) returns (choices: seq<Dir>)
      requires Valid()
      ensures forall d :: d in choices <==> (d == E || d == S) && Free(State(), Step(c, d))
    {
      choices := [];
      if InBounds(c.0 + 1, c.1) && !IsBlocked(c.0 + 1, c.1) {
        choices := choices + [E];
      }
      if InBounds(c.0, c.1 + 1) && !IsBlocked(c.0, c.1 + 1) {
        choices := choices + [S];
      }
    }

    /** One row of the binary-tree pass. */
    method BinaryTreeRow(rng: Rng, y: int)
      requires Valid() && PassAt(State(), (0, y)) && 0 <= y < height
      modifies this
      ensures Valid() && blockedCells == old(blockedCells) && patternOrigin == old(patternOrigin)
      ensures PassAt(State(), (0, y + 1)) && Refines(old(State()), State())
      ensures Forest(old(State())) ==> Forest(State())
    {
      RefinesReflexive(State());
      for x := 0 to width
        invariant Valid() && blockedCells == old(blockedCells) && patternOrigin == old(patternOrigin)
        invariant PassAt(State(), (x, y)) && Refines(old(State()), State())
        invariant Forest(old(State())) ==> Forest(State())
      {
        ghost var b1 := State();
        BinaryTreeCell(rng, (x, y));
        RefinesTransitive(old(State()), b1, State());
      }
      PassNextRow(State(), y);
    }

    /** The binary-tree generator: row by row, every free cell with a free
        east or south neighbour opens exactly one of those two walls, and
        every other cell keeps both. No passage closes a loop. */
    method BinaryTreeAlgo(rng: Rng)
      requires Valid() && IsAllClosed(State()) && BlockedClosed(State())
      modifies this
      ensures Valid() && Coherent(State()) && BlockedClosed(State()) && OneWayOut(State())
      ensures blockedCells == old(blockedCells) && patternOrigin == old(patternOrigin)
      ensures Refines(old(State()), State()) && Forest(State())
      ensures forall u :: Grid.InBounds(State(), u) ==> Decided(State(), u)
    {
      PassStart(State());
      AllClosedForest(State());
      RefinesReflexive(State());
      for y := 0 to height
        invariant Valid() && blockedCells == old(blockedCells) && patternOrigin == old(patternOrigin)
        invariant PassAt(State(), (0, y)) && Refines(old(State()), State()) && Forest(State())
      {
        ghost var b1 := State();
        BinaryTreeRow(rng, y);
        RefinesTransitive(old(State()), b1, State());
      }
      PassEnd(State());
    }

    /** The frontier entries for `c`: its walls towards free, unvisited
        neighbours, in the order north, east, south, west. */
    method AddFrontier(c: Cell, visited: set<Cell>, frontier: seq<Edge>) returns (r: seq<Edge>)
      requires Valid()
      ensures r == frontier + NewEdges(State(), c, visited, Dirs)
    {
      r := frontier;
      for i := 0 to |Dirs|
        invariant r == frontier + NewEdges(State(), c, visited, Dirs[..i])
      {
        assert Dirs[..i + 1][..i] == Dirs[..i];
        var d := Dirs[i];
        var n := Step(c, d);
        if !InBounds(n.0, n.1) {
          continue;
        }
        if IsBlocked(n.0, n.1) {
          continue;
        }
        if n in visited {
          continue;
        }
        r := r + [Edge(c, d)];
      }
      assert Dirs[..|Dirs|] == Dirs;
    }

    /** One draw of the Prim pass: an entry leaves the frontier and, when its
        neighbour is still unvisited, the wall is opened, the neighbour is
        visited and its own entries join the frontier. */
    method PrimStep(rng: Rng, s: Cell, visited: set<Cell>, frontier: seq<Edge>)
      returns (visited': set<Cell>, frontier': seq<Edge>)
      requires Valid() && PrimState(State(), s, visited, frontier) && frontier != []
      modifies this
      ensures Valid() && blockedCells == old(blockedCells) && patternOrigin == old(patternOrigin)
      ensures PrimState(State(), s, visited', frontier')
      ensures Refines(old(State()), State()) && (Forest(old(State())) ==> Forest(State()))
      ensures |Cells(State()) - visited'| < |Cells(State()) - visited| ||
              (visited' == visited && |frontier'| < |frontier|)
    {
      RefinesReflexive(State());
      var idx := rng.Randrange(|frontier|);
      var e := frontier[idx];
      var rest := Remove(frontier, idx);
      if e.To() in visited {
        PrimSkip(State(), s, visited, frontier, idx);
        return visited, rest;
      }
      ghost var b0 := State();
      assert e in frontier;
      CellsMember(b0, e.To());
      PrimJoin(b0, s, visited, frontier, idx);
      PrimVisit(b0, Carve(b0, e.from, e.dir), visited, frontier, idx);
      CarveWall(e.from, e.dir);
      visited' := visited + {e.To()};
      frontier' := AddFrontier(e.To(), visited', rest);
      CellsSame(b0, State());
      FewerLeft(Cells(State()), visited, visited', e.To());
    }

    /** Draws until the frontier is empty. */
    method PrimLoop(rng: Rng, s: Cell, visited: set<Cell>, frontier: seq<Edge>) returns (visited': set<Cell>)
      requires Valid() && PrimState(State(), s, visited, frontier)
      modifies this
      ensures Valid() && blockedCells == old(blockedCells) && patternOrigin == old(patternOrigin)
      ensures PrimState(State(), s, visited', [])
      ensures Refines(old(State()), State()) && (Forest(old(State())) ==> Forest(State()))
    {
      RefinesReflexive(State());
      visited' := visited;
      var todo := frontier;
      ghost var all := Cells(State());
      while todo != []
        invariant Valid() && blockedCells == old(blockedCells) && patternOrigin == old(patternOrigin)
        invariant PrimState(State(), s, visited', todo) && all == Cells(State())
        invariant Refines(old(State()), State()) && (Forest(old(State())) ==> Forest(State()))
        decreases |all - visited'|, |todo|
      {
        ghost var b1 := State();
        visited', todo := PrimStep(rng, s, visited', todo);
        RefinesTransitive(old(State()), b1, State());
        CellsSame(b1, State());
      }
    }

    /** Randomised Prim from the first free cell: the same guarantees as the
        depth-first search. */
    method PrimAlgo(rng: Rng)
      requires Valid() && IsAllClosed(State()) && BlockedClosed(State())
      modifies this
      ensures Valid() && Coherent(State()) && BlockedClosed(State())
      ensures blockedCells == old(blockedCells) && patternOrigin == old(patternOrigin)
      ensures Refines(old(State()), State()) && Forest(State())
      ensures forall s, v :: FirstFree(State(), s) && FreeConnected(State(), s, v) ==> Connected(State(), s, v)
      ensures forall s, v :: FirstFree(State(), s) && Grid.InBounds(State(), v) && !FreeConnected(State(), s, v) ==>
        MaskAt(State(), v) == Closed
    {
      AllClosedCoherent(State());
      AllClosedForest(State());
      RefinesReflexive(State());
      var start := FindStart();
      if start.None? {
        return;
      }
      var s := start.value;
      var visited := blockedCells + {s};
      var frontier := AddFrontier(s, visited, []);
      PrimStart(State(), s);
      visited := PrimLoop(rng, s, visited, frontier);
      PrimDone(State(), s, visited);
      SpanningSearch(State(), s, visited);
    }

    /** One side of a cell in the first repair phase: the edge to a free east
        or south neighbour is listed and, when that wall is already open,
        the two cells' sets are merged. */
    method JoinEdge(ds: DisjointSet, c: Cell, d: Dir, edges: seq<Edge>) returns (edges': seq<Edge>)
      requires Valid() && Coherent(State()) && Free(State(), c) && (d == E || d == S)
      requires ds.Valid() && Covers(State(), ds.rep) && Sound(State(), ds.rep)
      modifies ds
      ensures ds.Valid() && Covers(State(), ds.rep) && Sound(State(), ds.rep) && Coarser(old(ds.rep), ds.rep)
      ensures Link(State(), c, d) ==> Label(width, ds.rep, c) == Label(width, ds.rep, Step(c, d))
      ensures edges' == edges + Side(State(), c, d)
    {
      var n := Step(c, d);
      edges' := edges;
      if !InBounds(n.0, n.1) || IsBlocked(n.0, n.1) {
        return;
      }
      edges' := edges + [Edge(c, d)];
      if walls[c.1][c.0] & Bit(d) == 0 {
        IndexBounds(State(), c);
        IndexBounds(State(), n);
        LinkedStep(State(), c, d);
        ConnectedLinked(State(), c, n);
        ghost var rep0 := ds.rep;
        ds.Union(Index(width, c), Index(width, n));
        MergedCoarser(rep0, ds.rep, Index(width, c), Index(width, n));
        MergedSound(State(), rep0, ds.rep, c, n);
      }
    }

    /** One cell of the first repair phase. */
    method JoinCell(ds: DisjointSet, c: Cell, edges: seq<Edge>) returns (edges': seq<Edge>)
      requires Valid() && Coherent(State()) && Grid.InBounds(State(), c)
      requires ds.Valid() && Covers(State(), ds.rep) && Sound(State(), ds.rep)
      requires JoinedBefore(State(), ds.rep, c) && EdgesSound(State(), edges) && EdgesFound(State(), edges, c)
      modifies ds
      ensures ds.Valid() && Covers(State(), ds.rep) && Sound(State(), ds.rep)
      ensures JoinedBefore(State(), ds.rep, (c.0 + 1, c.1))
      ensures EdgesSound(State(), edges') && EdgesFound(State(), edges', (c.0 + 1, c.1))
    {
      if IsBlocked(c.0, c.1) {
        EdgesCell(State(), edges, c, edges);
        return edges;
      }
      ghost var rep0 := ds.rep;
      edges' := JoinEdge(ds, c, E, edges);
      ghost var rep1 := ds.rep;
      edges' := JoinEdge(ds, c, S, edges');
      EdgesCell(State(), edges, c, edges');
      CoarserJoinedBefore(State(), rep0, rep1, c);
      CoarserJoinedBefore(State(), rep1, ds.rep, c);
      if Link(State(), c, E) {
        CoarserLabel(State(), rep1, ds.rep, c, Step(c, E));
      }
      JoinedCell(State(), ds.rep, c);
    }

    /** One row of the first repair phase. */
    method JoinRow(ds: DisjointSet, y: int, edges: seq<Edge>) returns (edges': seq<Edge>)
      requires Valid() && Coherent(State()) && 0 <= y < height
      requires ds.Valid() && Covers(State(), ds.rep) && Sound(State(), ds.rep)
      requires JoinedBefore(State(), ds.rep, (0, y)) && EdgesSound(State(), edges) && EdgesFound(State(), edges, (0, y))
      modifies ds
      ensures ds.Valid() && Covers(State(), ds.rep) && Sound(State(), ds.rep)
      ensures JoinedBefore(State(), ds.rep, (0, y + 1))
      ensures EdgesSound(State(), edges') && EdgesFound(State(), edges', (0, y + 1))
    {
      edges' := edges;
      for x := 0 to width
        invariant ds.Valid() && Covers(State(), ds.rep) && Sound(State(), ds.rep)
        invariant JoinedBefore(State(), ds.rep, (x, y))
        invariant EdgesSound(State(), edges') && EdgesFound(State(), edges', (x, y))
      {
        edges' := JoinCell(ds, (x, y), edges');
      }
      JoinedNextRow(State(), ds.rep, y);
      EdgesNextRow(State(), edges', y);
    }

    /** The first repair phase: every east and south edge between free cells
        is listed, and the sets of the partition become the classes of the
        open passages. */
    method JoinAll(ds: DisjointSet) returns (edges: seq<Edge>)
      requires Valid() && Coherent(State())
      requires ds.Valid() && Covers(State(), ds.rep) && Sound(State(), ds.rep)
      modifies ds
      ensures ds.Valid() && Covers(State(), ds.rep) && Sound(State(), ds.rep) && Joined(State(), ds.rep)
      ensures EdgesSound(State(), edges) && EdgesFound(State(), edges, (0, height))
    {
      edges := [];
      for y := 0 to height
        invariant ds.Valid() && Covers(State(), ds.rep) && Sound(State(), ds.rep)
        invariant JoinedBefore(State(), ds.rep, (0, y))
        invariant EdgesSound(State(), edges) && EdgesFound(State(), edges, (0, y))
      {
        edges := JoinRow(ds, y, edges);
      }
      JoinedAll(State(), ds.rep);
    }

    /** One edge of the second repair phase: when its two cells are in
        different sets, the wall between them is opened and the sets are
        merged. */
    method RepairEdge(ds: DisjointSet, e: Edge)
      requires Valid() && Coherent(State()) && BlockedClosed(State()) && Free(State(), e.from) && Free(State(), e.To())
      requires ds.Valid() && Covers(State(), ds.rep) && Sound(State(), ds.rep) && Joined(State(), ds.rep)
      modifies this, ds
      ensures Valid() && Coherent(State()) && BlockedClosed(State())
      ensures blockedCells == old(blockedCells) && patternOrigin == old(patternOrigin)
      ensures ds.Valid() && Covers(State(), ds.rep) && Sound(State(), ds.rep) && Joined(State(), ds.rep)
      ensures Coarser(old(ds.rep), ds.rep) && Label(width, ds.rep, e.from) == Label(width, ds.rep, e.To())
      ensures Refines(old(State()), State()) && (Forest(old(State())) ==> Forest(State()))
      ensures Connected(old(State()), e.from, e.To()) ==> State() == old(State())
    {
      var c, n := e.from, e.To();
      RefinesReflexive(State());
      IndexBounds(State(), c);
      IndexBounds(State(), n);
      var a := ds.Find(Index(width, c));
      var b := ds.Find(Index(width, n));
      if a == b {
        return;
      }
      assert !Connected(State(), c, n) by {
        if Connected(State(), c, n) {
          JoinedConnected(State(), ds.rep, c, n);
        }
      }
      ghost var b0, rep0 := State(), ds.rep;
      CarveJoin(b0, c, e.dir);
      CarveBlockedClosed(b0, c, e.dir);
      RefinesCarve(b0, c, e.dir);
      LinkedCarve(b0, c, e.dir, c, n);
      CarveWall(c, e.dir);
      ds.Union(Index(width, c), Index(width, n));
      MergedCoarser(rep0, ds.rep, Index(width, c), Index(width, n));
      SoundRefines(b0, State(), rep0);
      ConnectedLinked(State(), c, n);
      MergedSound(State(), rep0, ds.rep, c, n);
      MergedJoined(b0, rep0, ds.rep, c, e.dir);
    }

    /** The second repair phase, over the edges in the drawn order. */
    method RepairAll(ds: DisjointSet, es: seq<Edge>)
      requires Valid() && Coherent(State()) && BlockedClosed(State()) && EdgesSound(State(), es)
      requires ds.Valid() && Covers(State(), ds.rep) && Sound(State(), ds.rep) && Joined(State(), ds.rep)
      modifies this, ds
      ensures Valid() && Coherent(State()) && BlockedClosed(State())
      ensures blockedCells == old(blockedCells) && patternOrigin == old(patternOrigin)
      ensures Covers(State(), ds.rep) && Sound(State(), ds.rep)
      ensures EdgesJoined(width, ds.rep, es, |es|)
      ensures Refines(old(State()), State()) && (Forest(old(State())) ==> Forest(State()))
      ensures (forall u, v :: FreeAdjacent(old(State()), u, v) ==> Connected(old(State()), u, v)) ==>
        State() == old(State())
    {
      RefinesReflexive(State());
      ghost var tidy := forall u, v :: FreeAdjacent(old(State()), u, v) ==> Connected(old(State()), u, v);
      for i := 0 to |es|
        invariant Valid() && Coherent(State()) && BlockedClosed(State())
        invariant blockedCells == old(blockedCells) && patternOrigin == old(patternOrigin)
        invariant ds.Valid() && Covers(State(), ds.rep) && Sound(State(), ds.rep) && Joined(State(), ds.rep)
        invariant EdgesJoined(width, ds.rep, es, i)
        invariant Refines(old(State()), State()) && (Forest(old(State())) ==> Forest(State()))
        invariant tidy ==> State() == old(State())
      {
        ghost var b1, rep1 := State(), ds.rep;
        assert es[i] in es;
        if tidy {
          TidyEdge(State(), es, i);
        }
        RepairEdge(ds, es[i]);
        RefinesTransitive(old(State()), b1, State());
        CoarserPairs(old(State()), rep1, ds.rep, es, i);
      }
    }

    /** Joins every free cell into one class of open passages: the first
        phase learns the classes, the second opens, in a drawn order, each
        wall between two cells of different classes. A grid whose adjacent
        free cells are already connected is left as it is. */
    method EnsureConnected(rng: Rng)
      requires Valid() && Coherent(State()) && BlockedClosed(State())
      modifies this
      ensures Valid() && Coherent(State()) && BlockedClosed(State())
      ensures blockedCells == old(blockedCells) && patternOrigin == old(patternOrigin)
      ensures Refines(old(State()), State()) && (Forest(old(State())) ==> Forest(State()))
      ensures forall u, v :: FreeAdjacent(State(), u, v) ==> Connected(State(), u, v)
      ensures (forall u, v :: FreeAdjacent(old(State()), u, v) ==> Connected(old(State()), u, v)) ==>
        State() == old(State())
    {
      RefinesReflexive(State());
      // The list of free cells only serves to stop when there is none.
      var first := FindStart();
      if first.None? {
        return;
      }
      var ds := new DisjointSet(width * height);
      SingletonsSound(State(), ds.rep);
      var edges := JoinAll(ds);
      var es := rng.Shuffle(edges);
      ShuffleKeepsMembers(edges, es);
      ghost var b0 := State();
      RepairAll(ds, es);
      AdjacentFromEdges(State(), ds.rep, es);
    }

    /** A fully walled grid with the centred "42" when it fits. */
    method Prepare()
      requires Valid()
      modifies this
      ensures Valid() && IsAllClosed(State()) && BlockedClosed(State())
      ensures width >= PatternWidth && height >= PatternHeight ==>
        patternOrigin == Some(CentredOrigin(width, height)) && blockedCells == PatternCells(CentredOrigin(width, height))
      ensures !(width >= PatternWidth && height >= PatternHeight) ==> patternOrigin == None && blockedCells == {}
    {
      Reset();
      ghost var b0 := State();
      var placed := Create42Pattern();
      if placed {
        DecoratedClosed(b0, State());
      } else {
        SameWalls(b0, State());
      }
    }

    /** Runs one carving pass on the prepared grid. */
    method RunPass(rng: Rng, pass: Algorithm)
      requires Valid() && IsAllClosed(State()) && BlockedClosed(State())
      modifies this
      ensures Valid() && Coherent(State()) && BlockedClosed(State()) && Forest(State())
      ensures blockedCells == old(blockedCells) && patternOrigin == old(patternOrigin)
    {
      match pass
      case DepthFirst => DfsAlgo(rng);
      case BinaryTree => BinaryTreeAlgo(rng);
      case Prim => PrimAlgo(rng);
    }

    /** The main entry: a fully walled grid, the centred "42" when it fits,
        the chosen pass, then the connectivity repair. Whatever the seed and
        the pass, the passages span every group of free cells that touch,
        close no loop, and leave the decoration walled in. */
    method GenerateMaze(seed: Option<int>, algo: string, perfect: bool)
      requires Valid()
      modifies this
      ensures Valid() && Coherent(State()) && BlockedClosed(State()) && Forest(State())
      ensures width >= PatternWidth && height >= PatternHeight ==>
        patternOrigin == Some(CentredOrigin(width, height)) && blockedCells == PatternCells(CentredOrigin(width, height))
      ensures !(width >= PatternWidth && height >= PatternHeight) ==> patternOrigin == None && blockedCells == {}
      ensures forall u, v :: FreeConnected(State(), u, v) <==> Connected(State(), u, v)
    {
      var rng := new Rng(seed);
      Prepare();
      RunPass(rng, Generator(algo, perfect));
      EnsureConnected(rng);
      AdjacentAllConnected(State());
    }

    /** The same entry under its older name. */
    method Generate(seed: Option<int>, algo: string, perfect: bool)
      requires Valid()
      modifies this
      ensures Valid() && Coherent(State()) && BlockedClosed(State()) && Forest(State())
      ensures width >= PatternWidth && height >= PatternHeight ==>
        patternOrigin == Some(CentredOrigin(width, height)) && blockedCells == PatternCells(CentredOrigin(width, height))
      ensures !(width >= PatternWidth && height >= PatternHeight) ==> patternOrigin == None && blockedCells == {}
      ensures forall u, v :: FreeConnected(State(), u, v) <==> Connected(State(), u, v)
    {
      GenerateMaze(seed, algo, perfect);
    }
  }
}
