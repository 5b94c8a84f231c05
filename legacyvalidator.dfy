/** The checks of the older generator's 0/1 grid: the entry/exit check, the
    search for a fully open 3x3 area, the breadth-first count of simple
    paths, and the wall-coherence check. */
module LegacyValidator {
  import opened Grid
  import opened LegacyMaze

  /** Both points lie in the grid and are paths. The points are not
      required to differ. */
  function ValidateEntryExit(m: Maze, entry: Cell, exit: Cell): (r: bool)
    reads m
    requires m.Valid()
    ensures r <==> IsPath(m.grid, entry) && IsPath(m.grid, exit)
  {
    var (ex, ey) := entry;
    var (xx, xy) := exit;
    if !(0 <= ex < m.width && 0 <= ey < m.height) then false
    else if !(0 <= xx < m.width && 0 <= xy < m.height) then false
    else if m.grid[ey][ex] != PATH || m.grid[xy][xx] != PATH then false
    else true
  }

  /** The 3x3 block with top-left corner (x, y) is all paths. */
  ghost predicate OpenWindow(g: Bitmap, x: int, y: int) {
    forall c: Cell :: x <= c.0 < x + 3 && y <= c.1 < y + 3 ==> IsPath(g, c)
  }

  /** Whether some 3x3 block of the grid is all paths, scanning rows of
      corners, then corners, then the nine cells, and stopping at the first
      cell that is not a path. */
  method Has3x3OpenAreas(m: Maze) returns (r: bool)
    requires m.Valid()
    ensures r <==> exists y, x :: 0 <= y < m.height - 2 && 0 <= x < m.width - 2 && OpenWindow(m.grid, x, y)
  {
    var y := 0;
    while y < m.height - 2
      invariant 0 <= y
      invariant forall y', x :: 0 <= y' < y && 0 <= x < m.width - 2 ==> !OpenWindow(m.grid, x, y')
    {
      var x := 0;
      while x < m.width - 2
        invariant 0 <= x
        invariant forall x' :: 0 <= x' < x ==> !OpenWindow(m.grid, x', y)
      {
        var allOpen := true;
        var dy := 0;
        while dy < 3
          invariant 0 <= dy <= 3 && allOpen
          invariant forall c: Cell :: x <= c.0 < x + 3 && y <= c.1 < y + dy ==> IsPath(m.grid, c)
        {
          var dx := 0;
          while dx < 3
            invariant 0 <= dx <= 3 && allOpen
            invariant forall c: Cell :: x <= c.0 < x + dx && c.1 == y + dy ==> IsPath(m.grid, c)
          {
            if m.grid[y + dy][x + dx] != PATH {
              assert !OpenWindow(m.grid, x, y) by {
                assert !IsPath(m.grid, (x + dx, y + dy));
              }
              allOpen := false;
              break;
            }
            dx := dx + 1;
          }
          if !allOpen {
            break;
          }
          dy := dy + 1;
        }
        if allOpen {
          assert OpenWindow(m.grid, x, y);
          return true;
        }
        x := x + 1;
      }
      y := y + 1;
    }
    return false;
  }

  /** The order in which the path counter tries the neighbours of a cell:
      west, east, north, south. */
  const Moves4: seq<(int, int)> := [(-1, 0), (1, 0), (0, -1), (0, 1)]

  function Shift(c: Cell, k: nat): Cell
    requires k < 4
  {
    (c.0 + Moves4[k].0, c.1 + Moves4[k].1)
  }

  /** A path may be extended by a path cell it does not hold yet. */
  predicate Extends(g: Bitmap, path: seq<Cell>, n: Cell) {
    IsPath(g, n) && n !in path
  }

  ghost function Elems(path: seq<Cell>): set<Cell> {
    set c | c in path
  }

  ghost function CellsOf(g: Bitmap): set<Cell> {
    set y, x | 0 <= y < |g| && 0 <= x < |g[y]| :: (x, y)
  }

  lemma ExtendShrinks(g: Bitmap, path: seq<Cell>, n: Cell)
    requires Extends(g, path, n)
    ensures CellsOf(g) - Elems(path + [n]) < CellsOf(g) - Elems(path)
  {
    assert n in CellsOf(g);
    assert Elems(path + [n]) == Elems(path) + {n};
  }

  /** The search tree below `path`, weighed: a path ending at `end` is a
      leaf of weight 1 and is not extended; any other path weighs `inner`
      plus its extensions, each by one of the four neighbours in order. With
      `inner` 0 this counts the simple paths from `path` to `end`; with
      `inner` 1 it counts the tree's nodes. */
  function Weigh(g: Bitmap, end: Cell, path: seq<Cell>, inner: nat): nat
    requires path != []
    decreases CellsOf(g) - Elems(path), 5
  {
    if path[|path| - 1] == end then 1
    else inner + Below(g, end, path, 4, inner)
  }

  /** The weight of the extensions of `path` by its first `k` neighbours. */
  function Below(g: Bitmap, end: Cell, path: seq<Cell>, k: nat, inner: nat): nat
    requires path != [] && k <= 4
    decreases CellsOf(g) - Elems(path), k
  {
    if k == 0 then 0
    else
      var n := Shift(path[|path| - 1], k - 1);
      Below(g, end, path, k - 1, inner) +
      if Extends(g, path, n) then ExtendShrinks(g, path, n); Weigh(g, end, path + [n], inner) else 0
  }

  lemma BelowStep(g: Bitmap, end: Cell, path: seq<Cell>, k: nat, inner: nat)
    requires path != [] && k < 4
    ensures var n := Shift(path[|path| - 1], k);
      Below(g, end, path, k + 1, inner) ==
        Below(g, end, path, k, inner) + if Extends(g, path, n) then Weigh(g, end, path + [n], inner) else 0
  {
  }

  /** The number of simple paths from `path` onwards to `end`. */
  function PathCount(g: Bitmap, end: Cell, path: seq<Cell>): nat
    requires path != []
  {
    Weigh(g, end, path, 0)
  }

  /** `b` is one of the four neighbours of `a`. */
  predicate Neighbour4(a: Cell, b: Cell) {
    b == Shift(a, 0) || b == Shift(a, 1) || b == Shift(a, 2) || b == Shift(a, 3)
  }

  /** `p` continues `path` to `end`: each added cell is a path cell next to
      the one before it and not already on `p`, and `end` is not met before
      the last cell, from the last cell of `path` on. */
  ghost predicate RouteFrom(g: Bitmap, end: Cell, path: seq<Cell>, p: seq<Cell>) {
    0 < |path| <= |p| && p[..|path|] == path && p[|p| - 1] == end &&
    (forall i :: |path| - 1 <= i < |p| - 1 ==> p[i] != end) &&
    (forall i :: |path| <= i < |p| ==> IsPath(g, p[i]) && p[i] !in p[..i] && Neighbour4(p[i - 1], p[i]))
  }

  /** Extending a path by its neighbour `n` and continuing from there
      continues the path. */
  lemma RouteFromExtended(g: Bitmap, end: Cell, path: seq<Cell>, n: Cell, p: seq<Cell>)
    requires path != [] && path[|path| - 1] != end && Extends(g, path, n) && Neighbour4(path[|path| - 1], n)
    requires RouteFrom(g, end, path + [n], p)
    ensures RouteFrom(g, end, path, p)
  {
    assert p[..|path|] == (path + [n])[..|path|] == path by {
      assert p[..|path|] == p[..|path| + 1][..|path|];
    }
    assert p[|path|] == n by {
      assert p[..|path| + 1][|path|] == n;
    }
    assert p[|path| - 1] == path[|path| - 1];
  }

  /** A positive count below `path` comes from some continuation of it to
      `end`. */
  lemma {:induction false} WeighSound(g: Bitmap, end: Cell, path: seq<Cell>)
    requires path != [] && Weigh(g, end, path, 0) > 0
    ensures exists p :: RouteFrom(g, end, path, p)
    decreases CellsOf(g) - Elems(path), 5
  {
    if path[|path| - 1] == end {
      assert RouteFrom(g, end, path, path) by {
        assert path[..|path|] == path;
      }
    } else {
      BelowSound(g, end, path, 4);
    }
  }

  lemma {:induction false} BelowSound(g: Bitmap, end: Cell, path: seq<Cell>, k: nat)
    requires path != [] && k <= 4 && path[|path| - 1] != end && Below(g, end, path, k, 0) > 0
    ensures exists p :: RouteFrom(g, end, path, p)
    decreases CellsOf(g) - Elems(path), k
  {
    var n := Shift(path[|path| - 1], k - 1);
    if Below(g, end, path, k - 1, 0) > 0 {
      BelowSound(g, end, path, k - 1);
    } else {
      assert Extends(g, path, n) && Weigh(g, end, path + [n], 0) > 0;
      ExtendShrinks(g, path, n);
      WeighSound(g, end, path + [n]);
      var p :| RouteFrom(g, end, path + [n], p);
      RouteFromExtended(g, end, path, n, p);
    }
  }

  /** Each extension counts toward the weight of the extensions that
      include its direction. */
  lemma {:induction false} BelowAtLeast(g: Bitmap, end: Cell, path: seq<Cell>, k: nat, j: nat, inner: nat)
    requires path != [] && j < k <= 4
    ensures var n := Shift(path[|path| - 1], j);
      Extends(g, path, n) ==> Below(g, end, path, k, inner) >= Weigh(g, end, path + [n], inner)
    decreases k
  {
    if j < k - 1 {
      BelowAtLeast(g, end, path, k - 1, j, inner);
    }
  }

  /** A continuation of a path that has not reached `end` passes through
      one of the last cell's neighbours, and continues the path extended by
      that neighbour. */
  lemma RouteFromNext(g: Bitmap, end: Cell, path: seq<Cell>, p: seq<Cell>)
    requires RouteFrom(g, end, path, p) && path[|path| - 1] != end
    ensures |p| > |path| && Extends(g, path, p[|path|])
    ensures RouteFrom(g, end, path + [p[|path|]], p)
    ensures Neighbour4(path[|path| - 1], p[|path|])
  {
    var last := path[|path| - 1];
    assert |p| > |path|;
    var n := p[|path|];
    assert p[|path| - 1] == last by {
      assert p[..|path|][|path| - 1] == p[|path| - 1];
    }
    var next := path + [n];
    assert p[..|next|] == next by {
      assert p[..|path| + 1] == p[..|path|] + [p[|path|]];
    }
  }

  /** Every continuation of `path` to `end` is counted. */
  lemma {:induction false} WeighComplete(g: Bitmap, end: Cell, path: seq<Cell>, p: seq<Cell>)
    requires RouteFrom(g, end, path, p)
    ensures Weigh(g, end, path, 0) > 0
    decreases |p| - |path|
  {
    var last := path[|path| - 1];
    if last != end {
      RouteFromNext(g, end, path, p);
      var n := p[|path|];
      WeighComplete(g, end, path + [n], p);
      var j :| 0 <= j < 4 && n == Shift(last, j);
      BelowAtLeast(g, end, path, 4, j, 0);
    }
  }

  /** The count below `path` is positive exactly when `path` can be
      continued to `end` along path cells without visiting a cell twice. */
  lemma PathCountPositive(g: Bitmap, end: Cell, path: seq<Cell>)
    requires path != []
    ensures PathCount(g, end, path) > 0 <==> exists p :: RouteFrom(g, end, path, p)
  {
    if PathCount(g, end, path) > 0 {
      WeighSound(g, end, path);
    }
    if p :| RouteFrom(g, end, path, p) {
      WeighComplete(g, end, path, p);
    }
  }

  /** The continuations of `path` to `end` themselves, gathered along the
      same tree of extensions that `Weigh` and `Below` count. */
  ghost function Routes(g: Bitmap, end: Cell, path: seq<Cell>): set<seq<Cell>>
    requires path != []
    decreases CellsOf(g) - Elems(path), 5
  {
    if path[|path| - 1] == end then {path} else RoutesBelow(g, end, path, 4)
  }

  ghost function RoutesBelow(g: Bitmap, end: Cell, path: seq<Cell>, k: nat): set<seq<Cell>>
    requires path != [] && k <= 4
    decreases CellsOf(g) - Elems(path), k
  {
    if k == 0 then {}
    else
      var n := Shift(path[|path| - 1], k - 1);
      RoutesBelow(g, end, path, k - 1) +
        if Extends(g, path, n) then ExtendShrinks(g, path, n); Routes(g, end, path + [n]) else {}
  }

  /** Every gathered sequence continues `path` to `end`. */
  lemma {:induction false} RoutesSound(g: Bitmap, end: Cell, path: seq<Cell>, p: seq<Cell>)
    requires path != [] && p in Routes(g, end, path)
    ensures RouteFrom(g, end, path, p)
    decreases CellsOf(g) - Elems(path), 5
  {
    if path[|path| - 1] == end {
      assert p == path && p[..|path|] == path;
    } else {
      var _ := RoutesBelowSound(g, end, path, 4, p);
    }
  }

  /** What the first `k` directions gather continues `path` through one of
      those directions. */
  lemma {:induction false} RoutesBelowSound(g: Bitmap, end: Cell, path: seq<Cell>, k: nat, p: seq<Cell>)
      returns (j: nat)
    requires path != [] && k <= 4 && path[|path| - 1] != end && p in RoutesBelow(g, end, path, k)
    ensures RouteFrom(g, end, path, p) && |p| > |path|
    ensures j < k && p[|path|] == Shift(path[|path| - 1], j)
    decreases CellsOf(g) - Elems(path), k
  {
    var n := Shift(path[|path| - 1], k - 1);
    if p in RoutesBelow(g, end, path, k - 1) {
      j := RoutesBelowSound(g, end, path, k - 1, p);
    } else {
      j := k - 1;
      assert Extends(g, path, n) && p in Routes(g, end, path + [n]);
      ExtendShrinks(g, path, n);
      RoutesSound(g, end, path + [n], p);
      RouteFromExtended(g, end, path, n, p);
      assert p[|path|] == n by {
        assert p[..|path| + 1][|path|] == n;
      }
    }
  }

  /** Every continuation of `path` to `end` is gathered. */
  lemma {:induction false} RoutesComplete(g: Bitmap, end: Cell, path: seq<Cell>, p: seq<Cell>)
    requires RouteFrom(g, end, path, p)
    ensures p in Routes(g, end, path)
    decreases |p| - |path|
  {
    var last := path[|path| - 1];
    if last == end {
      assert |p| == |path|;
      assert p == p[..|path|];
    } else {
      RouteFromNext(g, end, path, p);
      var n := p[|path|];
      ExtendShrinks(g, path, n);
      RoutesComplete(g, end, path + [n], p);
      var j :| 0 <= j < 4 && n == Shift(last, j);
      RoutesBelowIncludes(g, end, path, 4, j);
    }
  }

  /** The first `k` directions gather everything direction `j < k` does. */
  lemma {:induction false} RoutesBelowIncludes(g: Bitmap, end: Cell, path: seq<Cell>, k: nat, j: nat)
    requires path != [] && j < k <= 4
    ensures var n := Shift(path[|path| - 1], j);
      Extends(g, path, n) ==> Routes(g, end, path + [n]) <= RoutesBelow(g, end, path, k)
    decreases k
  {
    if j < k - 1 {
      RoutesBelowIncludes(g, end, path, k - 1, j);
    }
  }

  /** Everything gathered through neighbour `n` passes through `n` next. */
  lemma RoutesThrough(g: Bitmap, end: Cell, path: seq<Cell>, n: Cell)
    requires path != []
    ensures forall p :: p in Routes(g, end, path + [n]) ==> |p| > |path| && p[|path|] == n
  {
    forall p | p in Routes(g, end, path + [n])
      ensures |p| > |path| && p[|path|] == n
    {
      RoutesSound(g, end, path + [n], p);
      assert p[..|path| + 1][|path|] == n;
    }
  }

  /** The four neighbours of a cell are different cells. */
  lemma ShiftDistinct(c: Cell, j: nat, k: nat)
    requires j < 4 && k < 4 && j != k
    ensures Shift(c, j) != Shift(c, k)
  {
  }

  /** The count below `path` is the number of gathered continuations: the
      branches of different directions gather disjoint sets, since their
      sequences differ right after `path`. */
  lemma {:induction false} RoutesCount(g: Bitmap, end: Cell, path: seq<Cell>)
    requires path != []
    ensures |Routes(g, end, path)| == Weigh(g, end, path, 0)
    decreases CellsOf(g) - Elems(path), 5
  {
    if path[|path| - 1] != end {
      RoutesBelowCount(g, end, path, 4);
    }
  }

  lemma {:induction false} RoutesBelowCount(g: Bitmap, end: Cell, path: seq<Cell>, k: nat)
    requires path != [] && k <= 4 && path[|path| - 1] != end
    ensures |RoutesBelow(g, end, path, k)| == Below(g, end, path, k, 0)
    decreases CellsOf(g) - Elems(path), k
  {
    if k > 0 {
      var last := path[|path| - 1];
      var n := Shift(last, k - 1);
      RoutesBelowCount(g, end, path, k - 1);
      BelowStep(g, end, path, k - 1, 0);
      if Extends(g, path, n) {
        ExtendShrinks(g, path, n);
        RoutesCount(g, end, path + [n]);
        var earlier, here := RoutesBelow(g, end, path, k - 1), Routes(g, end, path + [n]);
        RoutesThrough(g, end, path, n);
        forall p | p in earlier
          ensures p !in here
        {
          var j := RoutesBelowSound(g, end, path, k - 1, p);
          ShiftDistinct(last, j, k - 1);
        }
        assert earlier !! here;
      }
    }
  }

  /** The count below `path` is the number of different continuations of
      `path` to `end`, each a simple walk through path cells. */
  lemma PathCountIsRoutes(g: Bitmap, end: Cell, path: seq<Cell>)
    requires path != []
    ensures PathCount(g, end, path) == |Routes(g, end, path)|
    ensures forall p :: p in Routes(g, end, path) <==> RouteFrom(g, end, path, p)
  {
    RoutesCount(g, end, path);
    forall p
      ensures p in Routes(g, end, path) <==> RouteFrom(g, end, path, p)
    {
      if p in Routes(g, end, path) {
        RoutesSound(g, end, path, p);
      }
      if RouteFrom(g, end, path, p) {
        RoutesComplete(g, end, path, p);
      }
    }
  }

  /** A count of 2 or more means two different continuations exist, and
      two different continuations mean a count of 2 or more. */
  lemma TwoRoutes(g: Bitmap, end: Cell, path: seq<Cell>)
    requires path != []
    ensures PathCount(g, end, path) >= 2 <==>
      exists p, q :: p != q && RouteFrom(g, end, path, p) && RouteFrom(g, end, path, q)
  {
    PathCountIsRoutes(g, end, path);
    var all := Routes(g, end, path);
    if |all| >= 2 {
      var p, q := TwoMembers(all);
      assert RouteFrom(g, end, path, p) && RouteFrom(g, end, path, q);
    }
    if exists p, q :: p != q && RouteFrom(g, end, path, p) && RouteFrom(g, end, path, q) {
      var p, q :| p != q && RouteFrom(g, end, path, p) && RouteFrom(g, end, path, q);
      TwoMembersCount(all, p, q);
    }
  }

  /** A count of exactly 1 means exactly one continuation, and back. */
  lemma OneRoute(g: Bitmap, end: Cell, path: seq<Cell>)
    requires path != []
    ensures PathCount(g, end, path) == 1 <==>
      exists p :: RouteFrom(g, end, path, p) && forall q :: RouteFrom(g, end, path, q) ==> q == p
  {
    PathCountPositive(g, end, path);
    TwoRoutes(g, end, path);
  }

  /** A set of two or more elements holds two different ones. */
  lemma TwoMembers<T>(s: set<T>) returns (p: T, q: T)
    requires |s| >= 2
    ensures p in s && q in s && p != q
  {
    p :| p in s;
    assert |s - {p}| >= 1;
    q :| q in s - {p};
  }

  /** A set holding two different elements has two or more. */
  lemma TwoMembersCount<T>(s: set<T>, p: T, q: T)
    requires p in s && q in s && p != q
    ensures |s| >= 2
  {
    assert s == {p, q} + (s - {p, q});
  }

  /** The queue of the search: each entry is a cell and the path ending at
      it. */
  predicate Queued(q: seq<(Cell, seq<Cell>)>) {
    forall i :: 0 <= i < |q| ==> q[i].1 != [] && q[i].0 == q[i].1[|q[i].1| - 1]
  }

  function QueueWeight(g: Bitmap, end: Cell, q: seq<(Cell, seq<Cell>)>, inner: nat): nat
    requires Queued(q)
    decreases |q|
  {
    if q == [] then 0 else Weigh(g, end, q[0].1, inner) + QueueWeight(g, end, q[1..], inner)
  }

  lemma {:induction false} QueueWeightAppend(g: Bitmap, end: Cell, q: seq<(Cell, seq<Cell>)>, e: (Cell, seq<Cell>), inner: nat)
    requires Queued(q) && e.1 != [] && e.0 == e.1[|e.1| - 1]
    ensures Queued(q + [e])
    ensures QueueWeight(g, end, q + [e], inner) == QueueWeight(g, end, q, inner) + Weigh(g, end, e.1, inner)
    decreases |q|
  {
    if q != [] {
      assert (q + [e])[1..] == q[1..] + [e];
      QueueWeightAppend(g, end, q[1..], e, inner);
    }
  }

  /** `count_paths_bfs`: the queue starts with the one-cell path at
      `start`; a path reaching `end` is counted and not extended, any other
      is extended by each in-bounds path neighbour it does not hold yet, and
      the search stops once `maxPaths` paths are counted. The result is the
      number of simple paths from `start` to `end` (the set `Routes`, whose
      members are exactly the `RouteFrom` continuations of `[start]`), capped
      at `maxPaths`. */
  method CountPathsBfs(m: Maze, start: Cell, end: Cell, maxPaths: int) returns (pathsFound: int)
    requires m.Valid()
    ensures pathsFound == if maxPaths <= 0 then 0
                          else if PathCount(m.grid, end, [start]) < maxPaths then PathCount(m.grid, end, [start])
                          else maxPaths
    ensures var routes := Routes(m.grid, end, [start]);
      pathsFound == if maxPaths <= 0 then 0 else if |routes| < maxPaths then |routes| else maxPaths
  {
    ghost var total := PathCount(m.grid, end, [start]);
    pathsFound := 0;
    var queue := [(start, [start])];
    while queue != [] && pathsFound < maxPaths
      invariant Queued(queue)
      invariant 0 <= pathsFound && (pathsFound <= maxPaths || pathsFound == 0)
      invariant pathsFound + QueueWeight(m.grid, end, queue, 0) == total
      decreases QueueWeight(m.grid, end, queue, 1)
    {
      var (cur, path) := queue[0];
      queue := queue[1..];
      if cur == end {
        pathsFound := pathsFound + 1;
        continue;
      }
      queue := Expand(m, queue, cur, path, end);
    }
    PathCountIsRoutes(m.grid, end, [start]);
  }

  /** The inner loop of the search: the four moves from the last cell of
      `path`, in order, each queued with the extended path when it lands on
      a path cell not yet on the path. The queue gains exactly the weight of
      the extensions of `path`. */
  method Expand(m: Maze, queue: seq<(Cell, seq<Cell>)>, cur: Cell, path: seq<Cell>, ghost end: Cell)
    returns (queue': seq<(Cell, seq<Cell>)>)
    requires m.Valid() && Queued(queue) && path != [] && cur == path[|path| - 1]
    ensures Queued(queue')
    ensures QueueWeight(m.grid, end, queue', 0) == QueueWeight(m.grid, end, queue, 0) + Below(m.grid, end, path, 4, 0)
    ensures QueueWeight(m.grid, end, queue', 1) == QueueWeight(m.grid, end, queue, 1) + Below(m.grid, end, path, 4, 1)
  {
    queue' := queue;
    var (x, y) := cur;
    for k := 0 to 4
      invariant Queued(queue')
      invariant QueueWeight(m.grid, end, queue', 0) == QueueWeight(m.grid, end, queue, 0) + Below(m.grid, end, path, k, 0)
      invariant QueueWeight(m.grid, end, queue', 1) == QueueWeight(m.grid, end, queue, 1) + Below(m.grid, end, path, k, 1)
    {
      var (dx, dy) := Moves4[k];
      var nx, ny := x + dx, y + dy;
      assert (nx, ny) == Shift(path[|path| - 1], k);
      InGridBounds(m.grid, m.width, m.height, (nx, ny));
      BelowStep(m.grid, end, path, k, 0);
      BelowStep(m.grid, end, path, k, 1);
      if 0 <= nx < m.width && 0 <= ny < m.height && m.grid[ny][nx] == PATH && (nx, ny) !in path {
        var entry := ((nx, ny), path + [(nx, ny)]);
        QueueWeightAppend(m.grid, end, queue', entry, 0);
        QueueWeightAppend(m.grid, end, queue', entry, 1);
        queue' := queue' + [entry];
      }
    }
  }

  /** The wall-coherence check of the 0/1 grid: it visits every cell and
      its east and south neighbours but finds nothing to refuse, so it
      always accepts. The loops mirror the source's reads, which compare
      nothing; their invariants only keep those reads on the grid. */
  method VerifyWallCoherence(m: Maze) returns (r: bool)
    requires m.Valid()
    ensures r
  {
    var y := 0;
    while y < m.height
      invariant 0 <= y
    {
      var x := 0;
      while x < m.width
        invariant 0 <= x
      {
        var cell := m.grid[y][x];
        if x < m.width - 1 {
          var right := m.grid[y][x + 1];
        }
        if y < m.height - 1 {
          var below := m.grid[y + 1][x];
        }
        x := x + 1;
      }
      y := y + 1;
    }
    return true;
  }
}
