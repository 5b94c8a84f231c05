/** The older generator: a grid of 0/1 cells (1 a wall, 0 a path), indexed
    `grid[y][x]`, carved by a depth-first search with an explicit stack that
    jumps two cells at a time and opens the cell in between, then, for an
    imperfect maze, some random interior cells opened as well. */
module LegacyMaze {
  import opened Wrappers
  import opened Grid
  import opened Random
  import Validator

  const WALL: int := 1
  const PATH: int := 0

  type Bitmap = seq<seq<int>>

  /** An even size is rounded up to the next odd one. */
  function RoundOdd(n: int): (r: int)
    ensures r % 2 == 1 && n <= r <= n + 1
  {
    if n % 2 != 0 then n else n + 1
  }

  /** How many items `range(n)` gives. */
  function Extent(n: int): nat {
    if n < 0 then 0 else n
  }

  /** Every row of `g` is `w` cells long and there are `h` rows. */
  predicate Sized(g: Bitmap, w: nat, h: nat) {
    |g| == h && forall y :: 0 <= y < h ==> |g[y]| == w
  }

  /** On a grid of `height` rows of `width` cells, the bounds check against
      the sizes is the check against the grid. */
  lemma InGridBounds(g: Bitmap, width: int, height: int, c: Cell)
    requires Sized(g, Extent(width), Extent(height))
    ensures InGrid(g, c) <==> 0 <= c.0 < width && 0 <= c.1 < height
  {
  }

  /** Every cell is a wall or a path. */
  predicate Binary(g: Bitmap) {
    forall y, x :: 0 <= y < |g| && 0 <= x < |g[y]| ==> g[y][x] == WALL || g[y][x] == PATH
  }

  predicate InGrid(g: Bitmap, c: Cell) {
    0 <= c.1 < |g| && 0 <= c.0 < |g[c.1]|
  }

  predicate IsPath(g: Bitmap, c: Cell) {
    InGrid(g, c) && g[c.1][c.0] == PATH
  }

  /** A grid of `h` rows of `w` walls. */
  function AllWall(w: nat, h: nat): (g: Bitmap)
    ensures Sized(g, w, h) && Binary(g)
    ensures forall c :: !IsPath(g, c)
  {
    seq(h, _ => seq(w, _ => WALL))
  }

  /** `g2` has the shape of `g1` and differs from it only by cells that
      became paths. */
  predicate Opens(g1: Bitmap, g2: Bitmap) {
    |g2| == |g1| &&
    (forall y :: 0 <= y < |g1| ==> |g2[y]| == |g1[y]|) &&
    forall y, x :: 0 <= y < |g1| && 0 <= x < |g1[y]| ==> g2[y][x] == g1[y][x] || g2[y][x] == PATH
  }

  lemma OpensKeepsPaths(g1: Bitmap, g2: Bitmap)
    requires Opens(g1, g2)
    ensures forall c :: IsPath(g1, c) ==> IsPath(g2, c)
    ensures forall c :: InGrid(g2, c) <==> InGrid(g1, c)
  {
  }

  lemma OpensTransitive(g1: Bitmap, g2: Bitmap, g3: Bitmap)
    requires Opens(g1, g2) && Opens(g2, g3)
    ensures Opens(g1, g3)
  {
  }

  /** `g` with the cell `c` turned into a path. */
  function Open(g: Bitmap, c: Cell): (r: Bitmap)
    requires InGrid(g, c)
    ensures Opens(g, r) && IsPath(r, c)
    ensures forall d :: IsPath(r, d) <==> IsPath(g, d) || d == c
    ensures Binary(g) ==> Binary(r)
  {
    g[c.1 := g[c.1][c.0 := PATH]]
  }

  /** Two cells side by side. */
  predicate Adjacent(a: Cell, b: Cell) {
    (a.0 == b.0 && (a.1 - b.1 == 1 || b.1 - a.1 == 1)) ||
    (a.1 == b.1 && (a.0 - b.0 == 1 || b.0 - a.0 == 1))
  }

  /** A walk through path cells from one side to the next. */
  predicate PathWalk(g: Bitmap, w: seq<Cell>) {
    |w| > 0 &&
    (forall i :: 0 <= i < |w| ==> IsPath(g, w[i])) &&
    forall i :: 0 <= i < |w| - 1 ==> Adjacent(w[i], w[i + 1])
  }

  /** `b` can be reached from `a` through path cells. */
  ghost predicate Connected(g: Bitmap, a: Cell, b: Cell) {
    exists w :: PathWalk(g, w) && w[0] == a && w[|w| - 1] == b
  }

  /** Every cell of `route` is reached from `start` by its walk. */
  ghost predicate Routes(g: Bitmap, route: map<Cell, seq<Cell>>, start: Cell) {
    forall c :: c in route ==>
      PathWalk(g, route[c]) && route[c][0] == start && route[c][|route[c]| - 1] == c
  }

  lemma WalkKept(g1: Bitmap, g2: Bitmap, w: seq<Cell>)
    requires Opens(g1, g2) && PathWalk(g1, w)
    ensures PathWalk(g2, w)
  {
    OpensKeepsPaths(g1, g2);
  }

  lemma RoutesKept(g1: Bitmap, g2: Bitmap, route: map<Cell, seq<Cell>>, start: Cell)
    requires Opens(g1, g2) && Routes(g1, route, start)
    ensures Routes(g2, route, start)
  {
    forall c | c in route
      ensures PathWalk(g2, route[c])
    {
      WalkKept(g1, g2, route[c]);
    }
  }

  /** Opening more cells never disconnects two cells. */
  lemma ConnectedKept(g1: Bitmap, g2: Bitmap, a: Cell, b: Cell)
    requires Opens(g1, g2) && Connected(g1, a, b)
    ensures Connected(g2, a, b)
  {
    var w :| PathWalk(g1, w) && w[0] == a && w[|w| - 1] == b;
    WalkKept(g1, g2, w);
  }

  /** Extending the walk to `p` by the path cells `m` and then `n`. */
  lemma RouteExtended(g: Bitmap, route: map<Cell, seq<Cell>>, start: Cell, p: Cell, m: Cell, n: Cell)
    requires Routes(g, route, start) && p in route
    requires IsPath(g, m) && IsPath(g, n) && Adjacent(p, m) && Adjacent(m, n)
    ensures Routes(g, route[m := route[p] + [m]][n := route[p] + [m, n]], start)
  {
    var wp := route[p];
    var wm, wn := wp + [m], wp + [m, n];
    assert PathWalk(g, wm) by {
      assert wm[|wp|] == m;
      forall i | 0 <= i < |wm| - 1 ensures Adjacent(wm[i], wm[i + 1]) {
        if i < |wp| - 1 {
          assert wm[i] == wp[i] && wm[i + 1] == wp[i + 1];
        }
      }
    }
    assert PathWalk(g, wn) by {
      forall i | 0 <= i < |wn| - 1 ensures Adjacent(wn[i], wn[i + 1]) {
        if i < |wp| - 1 {
          assert wn[i] == wp[i] && wn[i + 1] == wp[i + 1];
        }
      }
    }
  }

  /** A cell off the border, where the imperfect pass draws its cells. */
  predicate Interior(c: Cell, width: int, height: int) {
    1 <= c.0 < width - 1 && 1 <= c.1 < height - 1
  }

  /** How many cells the imperfect pass opens: `(width * height) // 20`. */
  function ImperfectCount(width: int, height: int): int {
    (width * height) / 20
  }

  /** The imperfect pass draws from `range(1, width - 1)` and
      `range(1, height - 1)`, which are empty below 3, as soon as it draws
      at all. */
  predicate ImperfectRaises(width: int, height: int) {
    ImperfectCount(width, height) > 0 && (width < 3 || height < 3)
  }

  /** The moves of the search: two cells north, south, west or east. */
  const Jumps: seq<(int, int)> := [(0, -2), (0, 2), (-2, 0), (2, 0)]

  lemma JumpHalf(j: (int, int))
    requires j in Jumps
    ensures (j.0 / 2) * 2 == j.0 && (j.1 / 2) * 2 == j.1
    ensures (j.0 == 0) != (j.1 == 0)
    ensures j.0 / 2 == 0 || j.0 / 2 == 1 || j.0 / 2 == -1
    ensures j.1 / 2 == 0 || j.1 / 2 == 1 || j.1 / 2 == -1
  {
  }

  /** Gaining paths keeps the shape and the two values. */
  lemma OpensKeepsShape(g0: Bitmap, g: Bitmap, w: nat, h: nat)
    requires Sized(g0, w, h) && Binary(g0) && Opens(g0, g)
    ensures Sized(g, w, h) && Binary(g)
  {
  }

  /** The jump `j` from `top` lands in the grid of `w` by `h` cells on a
      wall. */
  predicate Lands(g: Bitmap, w: int, h: int, top: Cell, j: (int, int))
    requires Sized(g, Extent(w), Extent(h))
  {
    var nx, ny := top.0 + j.0, top.1 + j.1;
    0 <= nx < w && 0 <= ny < h && g[ny][nx] == WALL
  }

  /** A jump that lands on a wall lands in the grid on a cell that is not
      a path. */
  lemma LandsOnWall(g: Bitmap, w: int, h: int, top: Cell, j: (int, int))
    requires Sized(g, Extent(w), Extent(h)) && Lands(g, w, h, top, j)
    ensures InGrid(g, (top.0 + j.0, top.1 + j.1)) && !IsPath(g, (top.0 + j.0, top.1 + j.1))
  {
  }

  /** Every cell on the stack, and every cell opened since `g0`, has a walk
      from `start` in `route`. */
  ghost predicate Reached(g0: Bitmap, g: Bitmap, route: map<Cell, seq<Cell>>, start: Cell, stack: seq<Cell>) {
    Routes(g, route, start) && start in route &&
    (forall i :: 0 <= i < |stack| ==> stack[i] in route) &&
    (forall c :: IsPath(g, c) && !IsPath(g0, c) ==> c in route)
  }

  /** What the search keeps true: its frame, its walks, and cells with a
      walk all in the grid of `w` by `h` cells. */
  ghost predicate Searching(g0: Bitmap, g: Bitmap, route: map<Cell, seq<Cell>>, start: Cell,
                            stack: seq<Cell>, w: nat, h: nat)
  {
    Opens(g0, g) && Reached(g0, g, route, start, stack) &&
    route.Keys <= Validator.GridCells(w, h)
  }

  /** The search starts with the start cell opened and on the stack. */
  lemma SearchStarts(g0: Bitmap, start: Cell, w: nat, h: nat)
    requires Sized(g0, w, h) && InGrid(g0, start)
    ensures Searching(g0, Open(g0, start), map[start := [start]], start, [start], w, h)
  {
    Validator.GridCellsMember(w, h, start);
  }

  lemma ReachedPush(g0: Bitmap, g: Bitmap, route: map<Cell, seq<Cell>>, start: Cell, stack: seq<Cell>, mid: Cell, next: Cell)
    requires Reached(g0, g, route, start, stack) && stack != []
    requires InGrid(g, mid) && InGrid(Open(g, mid), next)
    requires Adjacent(stack[|stack| - 1], mid) && Adjacent(mid, next)
    ensures var top := stack[|stack| - 1];
      Reached(g0, Open(Open(g, mid), next),
              route[mid := route[top] + [mid]][next := route[top] + [mid, next]], start, stack + [next])
  {
    var g1 := Open(g, mid);
    var g2 := Open(g1, next);
    OpensTransitive(g, g1, g2);
    RoutesKept(g, g2, route, start);
    RouteExtended(g2, route, start, stack[|stack| - 1], mid, next);
  }

  /** A jump of two cells from `top` to an in-bounds `next` passes over a
      cell adjacent to both. */
  lemma JumpAdjacent(g: Bitmap, w: nat, h: nat, top: Cell, j: (int, int))
    requires Sized(g, w, h) && j in Jumps && InGrid(g, top)
    requires 0 <= top.0 + j.0 < w && 0 <= top.1 + j.1 < h
    ensures var mid := (top.0 + j.0 / 2, top.1 + j.1 / 2);
      var next := (top.0 + j.0, top.1 + j.1);
      InGrid(g, mid) && InGrid(g, next) && Adjacent(top, mid) && Adjacent(mid, next)
  {
  }

  /** Opening the cell passed over and the wall jumped to, and pushing the
      latter, keeps the search's facts and gives it one more cell with a
      walk. */
  lemma Pushed(g0: Bitmap, g: Bitmap, route: map<Cell, seq<Cell>>, start: Cell,
               stack: seq<Cell>, w: nat, h: nat, j: (int, int), mid: Cell, next: Cell)
    requires Searching(g0, g, route, start, stack, w, h) && stack != [] && Sized(g0, w, h)
    requires j in Jumps
    requires mid == (stack[|stack| - 1].0 + j.0 / 2, stack[|stack| - 1].1 + j.1 / 2)
    requires next == (stack[|stack| - 1].0 + j.0, stack[|stack| - 1].1 + j.1)
    requires InGrid(g, next) && !IsPath(g, next)
    ensures InGrid(g, mid) && InGrid(Open(g, mid), next)
    ensures var top := stack[|stack| - 1];
      var g2 := Open(Open(g, mid), next);
      var route2 := route[mid := route[top] + [mid]][next := route[top] + [mid, next]];
      Searching(g0, g2, route2, start, stack + [next], w, h) &&
      Validator.GridCells(w, h) - route2.Keys < Validator.GridCells(w, h) - route.Keys
  {
    var top := stack[|stack| - 1];
    assert PathWalk(g, route[top]);
    JumpAdjacent(g, w, h, top, j);
    var g1 := Open(g, mid);
    OpensTransitive(g0, g, g1);
    OpensTransitive(g0, g1, Open(g1, next));
    ReachedPush(g0, g, route, start, stack, mid, next);
    Validator.GridCellsMember(w, h, next);
    Validator.GridCellsMember(w, h, mid);
    assert next !in route;
  }

  /** When the stack is empty every cell opened by the search is reached
      from the start. */
  lemma SearchDone(g0: Bitmap, g: Bitmap, route: map<Cell, seq<Cell>>, start: Cell, w: nat, h: nat)
    requires Searching(g0, g, route, start, [], w, h)
    ensures IsPath(g, start)
    ensures forall c :: IsPath(g, c) && !IsPath(g0, c) ==> Connected(g, start, c)
  {
    assert PathWalk(g, route[start]);
    forall c | IsPath(g, c) && !IsPath(g0, c)
      ensures Connected(g, start, c)
    {
      assert PathWalk(g, route[c]);
    }
  }

  /** After the imperfect pass a newly opened cell was opened by the search,
      and is still reached from the start, or was drawn off the border. */
  lemma ImperfectDone(g0: Bitmap, g1: Bitmap, g2: Bitmap, start: Cell, picks: seq<Cell>, width: int, height: int)
    requires Opens(g0, g1) && Opens(g1, g2) && IsPath(g1, start)
    requires forall c :: IsPath(g1, c) && !IsPath(g0, c) ==> Connected(g1, start, c)
    requires forall c :: IsPath(g2, c) && !IsPath(g1, c) ==> c in picks
    requires forall i :: 0 <= i < |picks| ==> Interior(picks[i], width, height)
    ensures Opens(g0, g2) && IsPath(g2, start)
    ensures forall c :: IsPath(g2, c) && !IsPath(g0, c) ==> Connected(g2, start, c) || Interior(c, width, height)
  {
    OpensTransitive(g0, g1, g2);
    OpensKeepsPaths(g1, g2);
    forall c | IsPath(g2, c) && !IsPath(g0, c)
      ensures Connected(g2, start, c) || Interior(c, width, height)
    {
      if IsPath(g1, c) {
        ConnectedKept(g1, g2, start, c);
      }
    }
  }

  class Maze {
    const width: int
    const height: int
    var grid: Bitmap

    /** The grid has `height` rows of `width` cells, each a wall or a path. */
    ghost predicate Valid()
      reads this
    {
      Sized(grid, Extent(width), Extent(height)) && Binary(grid)
    }

    /** Odd sizes, and every cell a wall. */
    constructor (w: int, h: int)
      ensures width == RoundOdd(w) && height == RoundOdd(h)
      ensures grid == AllWall(Extent(width), Extent(height))
      ensures Valid()
    {
      width := RoundOdd(w);
      height := RoundOdd(h);
      grid := AllWall(Extent(RoundOdd(w)), Extent(RoundOdd(h)));
    }

    /** The depth-first search from the start cell, then the imperfect pass
        when `perfect` is false. Only walls ever become paths; the start
        becomes a path; every cell the search opens is reached from the
        start through path cells, and every other cell opened lies off the
        border. `ok` is false when the imperfect pass raises. */
    method Generation(startX: int, startY: int, perfect: bool, seed: Option<int>) returns (ok: bool)
      requires Valid()
      requires 0 <= startX < width && 0 <= startY < height
      modifies this
      ensures Valid() && Opens(old(grid), grid)
      ensures IsPath(grid, (startX, startY))
      ensures forall c :: IsPath(grid, c) && !IsPath(old(grid), c) ==>
        Connected(grid, (startX, startY), c) || (!perfect && Interior(c, width, height))
      ensures ok <==> perfect || !ImperfectRaises(width, height)
    {
      var rng := new Rng(seed);
      Carve((startX, startY), rng);
      ok := true;
      if !perfect {
        ghost var g1 := grid;
        ghost var picks;
        ok, picks := MakeImperfect(rng);
        ImperfectDone(old(grid), g1, grid, (startX, startY), picks, width, height);
      }
    }

    /** The stack-driven search of `generation`: the top of the stack jumps
        two cells, in a shuffled order of the four directions, to the first
        wall in bounds, opening it and the cell passed over, and is popped
        when there is none. Only walls become paths, and every cell opened
        is reached from the start through path cells. */
    method Carve(start: Cell, rng: Rng)
      requires Valid() && InGrid(grid, start)
      modifies this
      ensures Valid() && Opens(old(grid), grid)
      ensures IsPath(grid, start)
      ensures forall c :: IsPath(grid, c) && !IsPath(old(grid), c) ==> Connected(grid, start, c)
    {
      ghost var g0 := grid;
      ghost var route: map<Cell, seq<Cell>> := map[start := [start]];
      var stack := [start];
      ghost var cells := Validator.GridCells(Extent(width), Extent(height));
      SearchStarts(grid, start, Extent(width), Extent(height));
      grid := Open(grid, start);
      while stack != []
        invariant Valid() && Sized(g0, Extent(width), Extent(height))
        invariant Searching(g0, grid, route, start, stack, Extent(width), Extent(height))
        decreases cells - route.Keys, |stack|
      {
        stack, route := SearchStep(rng, g0, start, stack, route);
      }
      SearchDone(g0, grid, route, start, Extent(width), Extent(height));
      OpensKeepsShape(g0, grid, Extent(width), Extent(height));
    }

    /** One turn of the search's loop: the top of the stack jumps to the
        first wall in bounds in a shuffled order of the jumps, opening it and
        the cell passed over and pushing it; with no such wall it is popped.
        Either more cells have a walk, or the stack is shorter. */
    method SearchStep(rng: Rng, ghost g0: Bitmap, ghost start: Cell, stack: seq<Cell>,
                      ghost route: map<Cell, seq<Cell>>)
      returns (stack': seq<Cell>, ghost route': map<Cell, seq<Cell>>)
      requires Valid() && Sized(g0, Extent(width), Extent(height)) && stack != []
      requires Searching(g0, grid, route, start, stack, Extent(width), Extent(height))
      modifies this
      ensures Valid()
      ensures Searching(g0, grid, route', start, stack', Extent(width), Extent(height))
      ensures var cells := Validator.GridCells(Extent(width), Extent(height));
        cells - route'.Keys < cells - route.Keys ||
        (route' == route && |stack'| < |stack|)
    {
      var top := stack[|stack| - 1];
      var moves := rng.Shuffle(Jumps);
      ShuffleKeepsMembers(Jumps, moves);
      var found, k := FirstLanding(top, moves);
      if found {
        stack', route' := Push(g0, start, stack, route, moves[k]);
      } else {
        route' := route;
        stack' := stack[..|stack| - 1];
      }
    }

    /** The jump `j` from the top of the stack: the wall it lands on and
        the cell passed over are opened and the former is pushed, giving one
        more cell a walk from the start. */
    method Push(ghost g0: Bitmap, ghost start: Cell, stack: seq<Cell>,
                ghost route: map<Cell, seq<Cell>>, j: (int, int))
      returns (stack': seq<Cell>, ghost route': map<Cell, seq<Cell>>)
      requires Valid() && Sized(g0, Extent(width), Extent(height)) && stack != []
      requires Searching(g0, grid, route, start, stack, Extent(width), Extent(height))
      requires j in Jumps && Lands(grid, width, height, stack[|stack| - 1], j)
      modifies this
      ensures var top := stack[|stack| - 1];
        grid == Open(Open(old(grid), (top.0 + j.0 / 2, top.1 + j.1 / 2)), (top.0 + j.0, top.1 + j.1)) &&
        stack' == stack + [(top.0 + j.0, top.1 + j.1)]
      ensures Valid()
      ensures Searching(g0, grid, route', start, stack', Extent(width), Extent(height))
      ensures Validator.GridCells(Extent(width), Extent(height)) - route'.Keys <
        Validator.GridCells(Extent(width), Extent(height)) - route.Keys
    {
      var top := stack[|stack| - 1];
      var mid := (top.0 + j.0 / 2, top.1 + j.1 / 2);
      var next := (top.0 + j.0, top.1 + j.1);
      LandsOnWall(grid, width, height, top, j);
      Pushed(g0, grid, route, start, stack, Extent(width), Extent(height), j, mid, next);
      ghost var g := grid;
      grid := Open(Open(grid, mid), next);
      OpensKeepsShape(g, grid, Extent(width), Extent(height));
      route' := route[mid := route[top] + [mid]][next := route[top] + [mid, next]];
      stack' := stack + [next];
    }

    /** The loop over the shuffled jumps: the first one from `top` that
        lands in bounds on a wall, or none when no jump does. */
    method FirstLanding(top: Cell, moves: seq<(int, int)>) returns (found: bool, k: nat)
      requires Valid()
      ensures found ==> k < |moves| && Lands(grid, width, height, top, moves[k])
      ensures forall i :: 0 <= i < |moves| && (!found || i < k) ==> !Lands(grid, width, height, top, moves[i])
    {
      found, k := false, 0;
      var (x, y) := top;
      for i := 0 to |moves|
        invariant !found && forall l :: 0 <= l < i ==> !Lands(grid, width, height, top, moves[l])
      {
        var (dx, dy) := moves[i];
        var nx, ny := x + dx, y + dy;
        if 0 <= nx < width && 0 <= ny < height && grid[ny][nx] == WALL {
          found, k := true, i;
          return;
        }
      }
    }

    /** `(width * height) // 20` draws of an interior cell, each turned
        into a path. `picks` are the cells drawn; `ok` is false when the
        first draw raises, before anything changes. */
    method MakeImperfect(rng: Rng) returns (ok: bool, ghost picks: seq<Cell>)
      requires Valid()
      modifies this
      ensures Valid() && Opens(old(grid), grid)
      ensures ok <==> !ImperfectRaises(width, height)
      ensures !ok ==> grid == old(grid)
      ensures ok ==> |picks| == Extent(ImperfectCount(width, height))
      ensures forall i :: 0 <= i < |picks| ==> Interior(picks[i], width, height) && IsPath(grid, picks[i])
      ensures forall c :: IsPath(grid, c) && !IsPath(old(grid), c) ==> c in picks
    {
      var count := (width * height) / 20;
      picks := [];
      ok := true;
      for n := 0 to Extent(count)
        invariant Valid() && Opens(old(grid), grid)
        invariant |picks| == n
        invariant n > 0 ==> width >= 3 && height >= 3
        invariant n == 0 ==> grid == old(grid)
        invariant forall i :: 0 <= i < |picks| ==> Interior(picks[i], width, height) && IsPath(grid, picks[i])
        invariant forall c :: IsPath(grid, c) && !IsPath(old(grid), c) ==> c in picks
      {
        if width - 1 <= 1 {
          ok := false;
          return;
        }
        var rx := rng.Randrange(width - 2);
        rx := rx + 1;
        if height - 1 <= 1 {
          ok := false;
          return;
        }
        var ry := rng.Randrange(height - 2);
        ry := ry + 1;
        ghost var g := grid;
        grid := Open(grid, (rx, ry));
        OpensTransitive(old(grid), g, grid);
        picks := picks + [(rx, ry)];
      }
    }
  }
}
