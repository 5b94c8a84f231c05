/** The breadth-first path finder over the wall grid and the encoding of a
    path as N/E/S/W move letters. */
module PathFinder {
  import opened Wrappers
  import opened Grid
  import opened Walks
  import opened Reach

  /** Whether a wall separates `c` from `c + (dx, dy)`: an off-grid or
      blocked neighbour, a blocked `c` and a delta that is not a unit step
      all count as walls; otherwise the wall bit of `c` on that side decides. */
  function IsWallBetween(b: Board, c: Cell, dx: int, dy: int): (r: bool)
    requires InBounds(b, c)
    ensures !r <==> exists d :: DX(d) == dx && DY(d) == dy && Link(b, c, d)
  {
    var n := (c.0 + dx, c.1 + dy);
    if !InBounds(b, n) then true
    else if c in b.blocked || n in b.blocked then true
    else if dx == 0 && dy == -1 then assert Step(c, N) == n; HasWall(b, c, N)
    else if dx == 1 && dy == 0 then assert Step(c, E) == n; HasWall(b, c, E)
    else if dx == 0 && dy == 1 then assert Step(c, S) == n; HasWall(b, c, S)
    else if dx == -1 && dy == 0 then assert Step(c, W) == n; HasWall(b, c, W)
    else true
  }

  /** For the four unit deltas the answer is exactly "no open passage". */
  lemma WallBetweenDir(b: Board, c: Cell, d: Dir)
    requires InBounds(b, c)
    ensures IsWallBetween(b, c, DX(d), DY(d)) <==> !Link(b, c, d)
  {
    if !IsWallBetween(b, c, DX(d), DY(d)) {
      var e :| DX(e) == DX(d) && DY(e) == DY(d) && Link(b, c, e);
      StepInjective(c, d, e);
    }
  }

  /** A queue entry: a discovered cell and the walk that discovered it. */
  datatype Entry = Entry(cell: Cell, path: seq<Cell>)

  ghost function Heads(q: seq<Entry>): set<Cell> {
    set k | 0 <= k < |q| :: q[k].cell
  }

  lemma HeadsConcat(q1: seq<Entry>, q2: seq<Entry>)
    ensures Heads(q1 + q2) == Heads(q1) + Heads(q2)
  {
    var q := q1 + q2;
    forall v | v in Heads(q1) ensures v in Heads(q) {
      var k :| 0 <= k < |q1| && q1[k].cell == v;
      assert q[k].cell == v;
    }
    forall v | v in Heads(q) ensures v in Heads(q1) + Heads(q2) {
      var k :| 0 <= k < |q| && q[k].cell == v;
      if k >= |q1| {
        assert q2[k - |q1|].cell == v;
      }
    }
    forall v | v in Heads(q2) ensures v in Heads(q) {
      var k :| 0 <= k < |q2| && q2[k].cell == v;
      assert q[|q1| + k].cell == v;
    }
  }

  lemma HeadsTail(q: seq<Entry>)
    requires q != []
    ensures Heads(q) == {q[0].cell} + Heads(q[1..])
  {
    assert q == [q[0]] + q[1..];
    HeadsConcat([q[0]], q[1..]);
    assert Heads([q[0]]) == {q[0].cell};
  }

  /** The queue holds one level of walk lengths, then possibly the next. */
  ghost predicate Layered(q: seq<Entry>) {
    forall j, k :: 0 <= j <= k < |q| ==> |q[j].path| <= |q[k].path| <= |q[j].path| + 1
  }

  /** Every entry's walk leads from `s` to its cell. */
  ghost predicate Tracked(b: Board, s: Cell, q: seq<Entry>) {
    forall k :: 0 <= k < |q| ==> WalkFromTo(b, q[k].path, s, q[k].cell)
  }

  /** No walk from `s` to an entry's cell is shorter than the entry's. */
  ghost predicate Shortest(b: Board, s: Cell, q: seq<Entry>) {
    forall k, w :: 0 <= k < |q| && WalkFromTo(b, w, s, q[k].cell) ==> |q[k].path| <= |w|
  }

  /** The open neighbours of every expanded cell have been discovered. */
  ghost predicate Expanded(b: Board, done: set<Cell>, seen: set<Cell>) {
    forall u, d :: u in done && Link(b, u, d) ==> Step(u, d) in seen
  }

  /** Every cell with a walk from `s` of fewer than `bound` cells is expanded. */
  ghost predicate NearDone(b: Board, s: Cell, done: set<Cell>, bound: nat) {
    forall v, w :: WalkFromTo(b, w, s, v) && |w| < bound ==> v in done
  }

  /** What holds before each pop of the search from `s` for `e`: `seen` is
      the visited set and `done` the cells already popped and expanded. */
  ghost predicate Searching(b: Board, s: Cell, e: Cell, q: seq<Entry>, seen: set<Cell>, done: set<Cell>) {
    Free(b, s) && s in seen && done <= seen <= Cells(b) && e !in done &&
    Tracked(b, s, q) && Heads(q) <= seen && Layered(q) && Shortest(b, s, q) &&
    Expanded(b, done, seen) && seen - done <= Heads(q) &&
    (q != [] ==> NearDone(b, s, done, |q[0].path|))
  }

  /** The last step of a walk of two or more cells. */
  lemma Predecessor(b: Board, w: seq<Cell>, s: Cell, v: Cell) returns (m: Cell)
    requires WalkFromTo(b, w, s, v) && |w| >= 2
    ensures WalkFromTo(b, w[..|w| - 1], s, m) && Linked(b, m, v)
  {
    m := w[|w| - 2];
    var init := w[..|w| - 1];
    forall i | 0 <= i < |init| - 1 ensures Linked(b, init[i], init[i + 1]) {
      assert init[i] == w[i] && init[i + 1] == w[i + 1];
    }
    assert Linked(b, w[|w| - 2], w[|w| - 2 + 1]);
  }

  /** One more open step at the end of a walk. */
  lemma WalkExtend(b: Board, p: seq<Cell>, s: Cell, c: Cell, n: Cell)
    requires WalkFromTo(b, p, s, c) && Linked(b, c, n)
    ensures WalkFromTo(b, p + [n], s, n)
  {
    ConnectedLinked(b, c, n);
    assert IsWalk(b, [c, n]) by {
      assert Linked(b, [c, n][0], [c, n][0 + 1]);
    }
    WalkConcat(b, p, [c, n]);
    assert [c, n][1..] == [n];
  }

  /** A walk that starts in a region closed under open passages stays in it. */
  lemma {:induction false} ClosedWalk(b: Board, w: seq<Cell>, s: Cell, v: Cell, region: set<Cell>)
    requires WalkFromTo(b, w, s, v) && s in region
    requires forall u, d :: u in region && Link(b, u, d) ==> Step(u, d) in region
    ensures v in region
    decreases |w|
  {
    if |w| >= 2 {
      var m := Predecessor(b, w, s, v);
      ClosedWalk(b, w[..|w| - 1], s, m, region);
      var d := LinkedDir(b, m, v);
    }
  }

  lemma UnconnectedUnlessFree(b: Board, u: Cell, v: Cell)
    requires !Free(b, u) || !Free(b, v)
    ensures !Connected(b, u, v)
  {
    if Connected(b, u, v) {
      ConnectedFree(b, u, v);
    }
  }

  /** The queue holding only `s` with the walk `[s]`. */
  lemma SearchStart(b: Board, s: Cell, e: Cell)
    requires Free(b, s)
    ensures Searching(b, s, e, [Entry(s, [s])], {s}, {})
  {
    var q := [Entry(s, [s])];
    CellsMember(b, s);
    assert Heads(q) == {s} by {
      assert q[0].cell == s;
    }
    assert WalkFromTo(b, q[0].path, s, q[0].cell);
  }

  /** The entries the expansion of (c, p) appends: newly discovered open
      neighbours of `c`, each with the walk `p` extended by it. */
  ghost predicate Discovered(b: Board, c: Cell, p: seq<Cell>, seen: set<Cell>, added: seq<Entry>) {
    forall k :: 0 <= k < |added| ==>
      added[k].cell !in seen && Linked(b, c, added[k].cell) && added[k].path == p + [added[k].cell]
  }

  /** Popping the head (c, p), expanding it and appending the discovered
      entries keeps the search invariant. */
  lemma SearchStep(b: Board, s: Cell, e: Cell, q: seq<Entry>, seen: set<Cell>, done: set<Cell>,
                   added: seq<Entry>, seen': set<Cell>)
    requires Searching(b, s, e, q, seen, done) && q != [] && q[0].cell != e
    requires seen <= seen' && Discovered(b, q[0].cell, q[0].path, seen, added)
    requires seen' - seen <= Heads(added) && Heads(added) <= seen'
    requires forall d :: Link(b, q[0].cell, d) ==> Step(q[0].cell, d) in seen'
    ensures Searching(b, s, e, q[1..] + added, seen', done + {q[0].cell})
  {
    var c, p := q[0].cell, q[0].path;
    var q' := q[1..] + added;
    var done' := done + {c};
    StepTracked(b, s, q, added);
    StepLayered(q, added);
    StepShortest(b, s, e, q, seen, done, added);
    StepHeads(b, q, seen, done, added, seen');
    assert Expanded(b, done', seen') by {
      forall u, d | u in done' && Link(b, u, d) ensures Step(u, d) in seen' {
      }
    }
    if q' != [] {
      StepNearDone(b, s, e, q, seen, done, added, seen');
    }
  }

  lemma StepHeads(b: Board, q: seq<Entry>, seen: set<Cell>, done: set<Cell>, added: seq<Entry>, seen': set<Cell>)
    requires q != [] && Heads(q) <= seen <= Cells(b) && seen - done <= Heads(q)
    requires seen <= seen' && Discovered(b, q[0].cell, q[0].path, seen, added)
    requires seen' - seen <= Heads(added) && Heads(added) <= seen'
    ensures Heads(q[1..] + added) <= seen' <= Cells(b)
    ensures seen' - (done + {q[0].cell}) <= Heads(q[1..] + added)
  {
    HeadsConcat(q[1..], added);
    HeadsTail(q);
    AddedInBounds(b, q[0].cell, q[0].path, seen, added);
    forall v | v in seen' - (done + {q[0].cell}) ensures v in Heads(q[1..] + added) {
      if v in seen {
        assert v in Heads(q);
      } else {
        assert v in Heads(added);
      }
    }
  }

  lemma AddedInBounds(b: Board, c: Cell, p: seq<Cell>, seen: set<Cell>, added: seq<Entry>)
    requires Discovered(b, c, p, seen, added)
    ensures Heads(added) <= Cells(b)
  {
    forall v | v in Heads(added) ensures v in Cells(b) {
      var k :| 0 <= k < |added| && added[k].cell == v;
      var d := LinkedDir(b, c, v);
      CellsMember(b, v);
    }
  }

  lemma StepTracked(b: Board, s: Cell, q: seq<Entry>, added: seq<Entry>)
    requires Tracked(b, s, q) && q != []
    requires forall k :: 0 <= k < |added| ==>
      Linked(b, q[0].cell, added[k].cell) && added[k].path == q[0].path + [added[k].cell]
    ensures Tracked(b, s, q[1..] + added)
  {
    var q' := q[1..] + added;
    forall k | 0 <= k < |q'| ensures WalkFromTo(b, q'[k].path, s, q'[k].cell) {
      if k < |q| - 1 {
        assert q'[k] == q[k + 1];
      } else {
        var a := added[k - (|q| - 1)];
        assert q'[k] == a;
        WalkExtend(b, q[0].path, s, q[0].cell, a.cell);
      }
    }
  }

  lemma StepLayered(q: seq<Entry>, added: seq<Entry>)
    requires Layered(q) && q != []
    requires forall k :: 0 <= k < |added| ==> |added[k].path| == |q[0].path| + 1
    ensures Layered(q[1..] + added)
  {
    var q' := q[1..] + added;
    forall j, k | 0 <= j <= k < |q'| ensures |q'[j].path| <= |q'[k].path| <= |q'[j].path| + 1 {
      if k < |q| - 1 {
        assert q'[j] == q[j + 1] && q'[k] == q[k + 1];
      } else if j < |q| - 1 {
        assert q'[j] == q[j + 1] && q'[k] == added[k - (|q| - 1)];
        assert |q[0].path| <= |q[j + 1].path| <= |q[0].path| + 1;
      } else {
        assert q'[j] == added[j - (|q| - 1)] && q'[k] == added[k - (|q| - 1)];
      }
    }
    assert Layered(q') by {
      forall j, k | 0 <= j <= k < |q'| ensures |q'[j].path| <= |q'[k].path| <= |q'[j].path| + 1 {
      }
    }
  }

  /** A newly discovered cell has no walk from `s` as short as the head's:
      such a walk's last step would come from an expanded cell, whose open
      neighbours were all discovered earlier. */
  lemma StepShortest(b: Board, s: Cell, e: Cell, q: seq<Entry>, seen: set<Cell>, done: set<Cell>,
                     added: seq<Entry>)
    requires Searching(b, s, e, q, seen, done) && q != []
    requires Discovered(b, q[0].cell, q[0].path, seen, added)
    ensures Shortest(b, s, q[1..] + added)
  {
    var q' := q[1..] + added;
    var len := |q[0].path|;
    forall k, w | 0 <= k < |q'| && WalkFromTo(b, w, s, q'[k].cell) ensures |q'[k].path| <= |w| {
      if k < |q| - 1 {
        assert q'[k] == q[k + 1];
      } else {
        var a := added[k - (|q| - 1)];
        assert q'[k] == a;
        if |w| <= len {
          assert a.cell != s;
          var m := Predecessor(b, w, s, a.cell);
          assert m in done;
          var d := LinkedDir(b, m, a.cell);
          assert false;
        }
      }
    }
  }

  /** After the pop every cell with a walk shorter than the new head's is
      expanded: a walk as long as the old head's ends at a discovered cell,
      which the new head's length rules out of the queue. */
  lemma StepNearDone(b: Board, s: Cell, e: Cell, q: seq<Entry>, seen: set<Cell>, done: set<Cell>,
                     added: seq<Entry>, seen': set<Cell>)
    requires Searching(b, s, e, q, seen, done) && q != []
    requires Discovered(b, q[0].cell, q[0].path, seen, added) && seen <= seen'
    requires q[1..] + added != [] && Layered(q[1..] + added)
    ensures NearDone(b, s, done + {q[0].cell}, |(q[1..] + added)[0].path|)
  {
    var q' := q[1..] + added;
    var len := |q[0].path|;
    var c := q[0].cell;
    forall v, w | WalkFromTo(b, w, s, v) && |w| < |q'[0].path| ensures v in done + {c} {
      if |w| >= len && v !in done {
        assert v in seen by {
          if |w| >= 2 {
            var m := Predecessor(b, w, s, v);
            var d := LinkedDir(b, m, v);
          }
        }
        assert v in Heads(q);
        var k :| 0 <= k < |q| && q[k].cell == v;
      }
    }
  }

  /** Searching leaves an exhausted queue only when `e` cannot be reached. */
  lemma SearchExhausted(b: Board, s: Cell, e: Cell, seen: set<Cell>, done: set<Cell>)
    requires Searching(b, s, e, [], seen, done)
    ensures s != e && !Connected(b, s, e)
  {
    assert seen <= done by {
      forall v | v in seen ensures v in done {
        assert v !in Heads([]);
      }
    }
    if Connected(b, s, e) {
      var w :| WalkFromTo(b, w, s, e);
      ClosedWalk(b, w, s, e, done);
    }
  }

  /** The head entry for `e` carries a shortest walk. */
  lemma SearchFound(b: Board, s: Cell, e: Cell, q: seq<Entry>, seen: set<Cell>, done: set<Cell>)
    requires Searching(b, s, e, q, seen, done) && q != [] && q[0].cell == e
    ensures WalkFromTo(b, q[0].path, s, e)
    ensures forall w :: WalkFromTo(b, w, s, e) ==> |q[0].path| <= |w|
    ensures s == e ==> q[0].path == [s]
  {
    if s == e {
      assert WalkFromTo(b, [s], s, s);
      assert |q[0].path| <= 1;
    }
  }

  /** Popping a cell either discovers a new one or shortens the queue. */
  lemma SearchProgress(b: Board, c: Cell, p: seq<Cell>, seen: set<Cell>, added: seq<Entry>, seen': set<Cell>)
    requires seen <= seen' <= Cells(b) && Discovered(b, c, p, seen, added)
    requires seen' - seen <= Heads(added) && Heads(added) <= seen'
    ensures added == [] ==> seen' == seen
    ensures added != [] ==> |Cells(b) - seen'| < |Cells(b) - seen|
  {
    if added != [] {
      assert added[0].cell in Heads(added);
      FewerLeft(Cells(b), seen, seen', added[0].cell);
    } else {
      forall v | v in seen' ensures v in seen {
        assert v !in Heads(added);
      }
    }
  }

  /** The inner loop over the four directions: append every open, unvisited
      neighbour of `c` with its walk and mark it visited. */
  method Expand(b: Board, c: Cell, p: seq<Cell>, seen: set<Cell>) returns (added: seq<Entry>, seen': set<Cell>)
    requires Free(b, c)
    ensures seen <= seen' && Discovered(b, c, p, seen, added)
    ensures seen' - seen <= Heads(added) && Heads(added) <= seen'
    ensures forall d :: Link(b, c, d) ==> Step(c, d) in seen'
  {
    added, seen' := [], seen;
    for i := 0 to |Dirs|
      invariant seen <= seen' && Discovered(b, c, p, seen, added)
      invariant seen' - seen <= Heads(added) && Heads(added) <= seen'
      invariant forall j :: 0 <= j < i ==> Link(b, c, Dirs[j]) ==> Step(c, Dirs[j]) in seen'
    {
      var d := Dirs[i];
      var n := (c.0 + DX(d), c.1 + DY(d));
      if InBounds(b, n) && n !in b.blocked && n !in seen' && !IsWallBetween(b, c, DX(d), DY(d)) {
        WallBetweenDir(b, c, d);
        LinkedStep(b, c, d);
        HeadsConcat(added, [Entry(n, p + [n])]);
        assert Heads([Entry(n, p + [n])]) == {n} by {
          assert [Entry(n, p + [n])][0].cell == n;
        }
        seen' := seen' + {n};
        added := added + [Entry(n, p + [n])];
      } else {
        WallBetweenDir(b, c, d);
      }
    }
    forall d | Link(b, c, d) ensures Step(c, d) in seen' {
      AllDirsListed(d);
    }
  }

  /** Breadth-first search from `start` to `end` through open passages. */
  method BfsFindPath(b: Board, start: Cell, end: Cell) returns (path: Option<seq<Cell>>)
    ensures !Free(b, start) || !Free(b, end) ==> path == None
    ensures path == None <==> !Connected(b, start, end)
    ensures path.Some? ==> WalkFromTo(b, path.value, start, end)
    ensures path.Some? ==> forall w :: WalkFromTo(b, w, start, end) ==> |path.value| <= |w|
    ensures start == end && Free(b, start) ==> path == Some([start])
  {
    if !InBounds(b, end) || end in b.blocked {
      UnconnectedUnlessFree(b, start, end);
      return None;
    }
    if !InBounds(b, start) || start in b.blocked {
      UnconnectedUnlessFree(b, start, end);
      return None;
    }
    var q := [Entry(start, [start])];
    var seen := {start};
    ghost var done: set<Cell> := {};
    SearchStart(b, start, end);
    while q != []
      invariant Searching(b, start, end, q, seen, done)
      decreases |Cells(b) - seen|, |q|
    {
      var c, p := q[0].cell, q[0].path;
      assert WalkFromTo(b, p, start, c);
      WalkCellsFree(b, p);
      if c == end {
        SearchFound(b, start, end, q, seen, done);
        return Some(p);
      }
      var added, seen' := Expand(b, c, p, seen);
      SearchStep(b, start, end, q, seen, done, added, seen');
      SearchProgress(b, c, p, seen, added, seen');
      q, seen, done := q[1..] + added, seen', done + {c};
    }
    SearchExhausted(b, start, end, seen, done);
    return None;
  }

  /** The letter of a direction. */
  function Letter(d: Dir): char {
    match d
    case N => 'N'
    case E => 'E'
    case S => 'S'
    case W => 'W'
  }

  /** The letter for the step from `u` to `v`, or nothing when `v` is not a
      grid neighbour of `u`. */
  function MoveLetter(u: Cell, v: Cell): (r: string)
    ensures |r| <= 1
    ensures r == "" <==> forall d :: v != Step(u, d)
    ensures forall d :: v == Step(u, d) ==> r == [Letter(d)]
  {
    var delta := (v.0 - u.0, v.1 - u.1);
    if delta == (0, -1) then assert v == Step(u, N); "N"
    else if delta == (1, 0) then assert v == Step(u, E); "E"
    else if delta == (0, 1) then assert v == Step(u, S); "S"
    else if delta == (-1, 0) then assert v == Step(u, W); "W"
    else ""
  }

  /** The move letters of a path, one per unit step, non-unit steps skipped. */
  function PathToMoves(path: seq<Cell>): (r: string)
    ensures |path| < 2 ==> r == ""
    ensures |r| <= if path == [] then 0 else |path| - 1
    ensures forall i :: 0 <= i < |r| ==> r[i] in "NESW"
    decreases |path|
  {
    if |path| < 2 then ""
    else MoveLetter(path[0], path[1]) + PathToMoves(path[1..])
  }

  /** The cell reached from `c` by the move letter `m`; other letters stay. */
  function Move(c: Cell, m: char): Cell {
    match m
    case 'N' => Step(c, N)
    case 'E' => Step(c, E)
    case 'S' => Step(c, S)
    case 'W' => Step(c, W)
    case _ => c
  }

  /** The cells visited when the moves are followed from `c`. */
  function Replay(c: Cell, moves: string): (r: seq<Cell>)
    ensures |r| == |moves| + 1 && r[0] == c
    decreases |moves|
  {
    if moves == [] then [c] else [c] + Replay(Move(c, moves[0]), moves[1..])
  }

  /** `v` is one of the four grid neighbours of `u`. */
  predicate Neighbour(u: Cell, v: Cell) {
    v == Step(u, N) || v == Step(u, E) || v == Step(u, S) || v == Step(u, W)
  }

  /** Consecutive cells are grid neighbours. */
  predicate UnitSteps(p: seq<Cell>) {
    forall i :: 0 <= i < |p| - 1 ==> Neighbour(p[i], p[i + 1])
  }

  /** Following the letters of a unit-step path from its first cell retraces
      the path; in particular it ends on the last cell and there is one
      letter per step. */
  lemma {:induction false} ReplayMoves(p: seq<Cell>)
    requires |p| > 0 && UnitSteps(p)
    ensures Replay(p[0], PathToMoves(p)) == p
    ensures |PathToMoves(p)| == |p| - 1
    decreases |p|
  {
    if |p| >= 2 {
      assert Neighbour(p[0], p[1]);
      var d :| p[1] == Step(p[0], d);
      assert MoveLetter(p[0], p[1]) == [Letter(d)];
      var rest := p[1..];
      assert UnitSteps(rest) by {
        forall i | 0 <= i < |rest| - 1 ensures Neighbour(rest[i], rest[i + 1]) {
          assert rest[i] == p[i + 1] && rest[i + 1] == p[i + 1 + 1];
        }
      }
      ReplayMoves(rest);
      var m := PathToMoves(p);
      assert m == [Letter(d)] + PathToMoves(rest);
      assert m[0] == Letter(d) && m[1..] == PathToMoves(rest);
      assert Move(p[0], m[0]) == p[1];
      assert p == [p[0]] + rest;
    }
  }

  /** Every walk through open passages is a unit-step path. */
  lemma WalkUnitSteps(b: Board, p: seq<Cell>)
    requires IsWalk(b, p)
    ensures UnitSteps(p)
  {
    forall i | 0 <= i < |p| - 1 ensures Neighbour(p[i], p[i + 1]) {
      assert Linked(b, p[i], p[i + 1]);
    }
  }
}
