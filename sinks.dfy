/** Why the binary-tree pass never closes a loop. Each cell opens at most one
    of its east and south walls, so following open east-then-south passages
    from a cell ends at a well-defined sink; every passage joins two cells
    with the same sink, so connected cells share their sink. */
module Sinks {
  import opened Grid
  import opened Walks
  import opened Forests

  /** Every in-bounds cell keeps its east or its south wall. */
  ghost predicate OneWayOut(b: Board) {
    forall u :: InBounds(b, u) ==> HasWall(b, u, E) || HasWall(b, u, S)
  }

  /** The end of the walk that leaves by the open east passage, else by the
      open south passage, until neither is open. */
  function Sink(b: Board, u: Cell): (r: Cell)
    requires InBounds(b, u)
    ensures InBounds(b, r)
    decreases b.height - u.1, b.width - u.0
  {
    if Link(b, u, E) then Sink(b, Step(u, E))
    else if Link(b, u, S) then Sink(b, Step(u, S))
    else u
  }

  /** A passage joins two cells with the same sink. */
  lemma LinkedSameSink(b: Board, u: Cell, v: Cell)
    requires Coherent(b) && OneWayOut(b) && Linked(b, u, v)
    ensures Sink(b, u) == Sink(b, v)
  {
    var d := LinkedDir(b, u, v);
    StepBack(u, d);
    LinkSymmetric(b, u, d);
    match d
    case E =>
    case S =>
      assert HasWall(b, u, E);
    case W =>
    case N =>
      assert HasWall(b, v, E);
  }

  lemma {:induction false} WalkSameSink(b: Board, p: seq<Cell>)
    requires Coherent(b) && OneWayOut(b) && IsWalk(b, p)
    ensures InBounds(b, p[0]) && InBounds(b, p[|p| - 1]) && Sink(b, p[0]) == Sink(b, p[|p| - 1])
    decreases |p|
  {
    WalkCellsFree(b, p);
    if |p| > 1 {
      var q := p[..|p| - 1];
      assert IsWalk(b, q) by {
        forall i | 0 <= i < |q| - 1 ensures Linked(b, q[i], q[i + 1]) {
          assert q[i] == p[i] && q[i + 1] == p[i + 1];
        }
      }
      WalkSameSink(b, q);
      assert Linked(b, p[|p| - 2], p[|p| - 1]);
      LinkedSameSink(b, p[|p| - 2], p[|p| - 1]);
    }
  }

  /** Connected cells share their sink. */
  lemma ConnectedSameSink(b: Board, u: Cell, v: Cell)
    requires Coherent(b) && OneWayOut(b) && Connected(b, u, v)
    ensures InBounds(b, u) && InBounds(b, v) && Sink(b, u) == Sink(b, v)
  {
    var p :| WalkFromTo(b, p, u, v);
    WalkSameSink(b, p);
  }

  /** A cell that still has both its east and south walls is its own sink, so
      two such cells are never connected. */
  lemma WalledApart(b: Board, u: Cell, v: Cell)
    requires Coherent(b) && OneWayOut(b) && InBounds(b, u) && InBounds(b, v) && u != v
    requires HasWall(b, u, E) && HasWall(b, u, S) && HasWall(b, v, E) && HasWall(b, v, S)
    ensures !Connected(b, u, v)
  {
    if Connected(b, u, v) {
      ConnectedSameSink(b, u, v);
    }
  }

  /** Every cell from `cur` on, in row-major order, still has its east and
      south walls. */
  ghost predicate WalledFrom(b: Board, cur: Cell) {
    forall u :: InBounds(b, u) && !Before(u, cur) ==> HasWall(b, u, E) && HasWall(b, u, S)
  }

  /** The binary-tree rule at `u`: it keeps both its east and south walls
      exactly when it is blocked or has neither a free east nor a free south
      neighbour. */
  ghost predicate Decided(b: Board, u: Cell) {
    (HasWall(b, u, E) && HasWall(b, u, S)) <==> !(Free(b, u) && (Free(b, Step(u, E)) || Free(b, Step(u, S))))
  }

  ghost predicate DecidedBefore(b: Board, cur: Cell) {
    forall u :: InBounds(b, u) && Before(u, cur) ==> Decided(b, u)
  }

  /** The state of a binary-tree pass about to visit `cur`. */
  ghost predicate PassAt(b: Board, cur: Cell) {
    Coherent(b) && BlockedClosed(b) && OneWayOut(b) && WalledFrom(b, cur) && DecidedBefore(b, cur)
  }

  /** A fully walled grid is where the pass starts. */
  lemma PassStart(b: Board)
    requires IsAllClosed(b) && BlockedClosed(b)
    ensures PassAt(b, (0, 0))
  {
    AllClosedCoherent(b);
  }

  /** The end of one row is the start of the next. */
  lemma PassNextRow(b: Board, y: int)
    requires PassAt(b, (b.width, y))
    ensures PassAt(b, (0, y + 1))
  {
  }

  /** A cell that is blocked or has no free east or south neighbour is left
      as it is. */
  lemma PassSkip(b: Board, c: Cell)
    requires PassAt(b, c) && InBounds(b, c)
    requires !(Free(b, c) && (Free(b, Step(c, E)) || Free(b, Step(c, S))))
    ensures PassAt(b, (c.0 + 1, c.1))
  {
  }

  /** Opening the east or south wall of `c` touches no other east or south
      wall. */
  lemma CarveEastSouth(b: Board, c: Cell, d: Dir, u: Cell)
    requires Shaped(b) && InBounds(b, c) && InBounds(b, Step(c, d)) && (d == E || d == S)
    ensures HasWall(Carve(b, c, d), u, E) == (HasWall(b, u, E) && !(u == c && d == E))
    ensures HasWall(Carve(b, c, d), u, S) == (HasWall(b, u, S) && !(u == c && d == S))
  {
    HasWallCarve(b, c, d, u, E);
    HasWallCarve(b, c, d, u, S);
  }

  lemma PassCarveOneWay(b: Board, c: Cell, d: Dir)
    requires PassAt(b, c) && Free(b, c) && (d == E || d == S) && Free(b, Step(c, d))
    ensures OneWayOut(Carve(b, c, d))
  {
    var r := Carve(b, c, d);
    forall u | InBounds(r, u) ensures HasWall(r, u, E) || HasWall(r, u, S) {
      CarveEastSouth(b, c, d, u);
    }
  }

  lemma PassCarveWalled(b: Board, c: Cell, d: Dir)
    requires PassAt(b, c) && Free(b, c) && (d == E || d == S) && Free(b, Step(c, d))
    ensures WalledFrom(Carve(b, c, d), (c.0 + 1, c.1))
  {
    var r := Carve(b, c, d);
    forall u | InBounds(r, u) && !Before(u, (c.0 + 1, c.1)) ensures HasWall(r, u, E) && HasWall(r, u, S) {
      CarveEastSouth(b, c, d, u);
    }
  }

  lemma PassCarveDecided(b: Board, c: Cell, d: Dir)
    requires PassAt(b, c) && Free(b, c) && (d == E || d == S) && Free(b, Step(c, d))
    ensures DecidedBefore(Carve(b, c, d), (c.0 + 1, c.1))
  {
    var r := Carve(b, c, d);
    forall u | InBounds(r, u) && Before(u, (c.0 + 1, c.1)) ensures Decided(r, u) {
      CarveEastSouth(b, c, d, u);
      if u != c {
        assert Before(u, c);
        assert Decided(b, u);
      }
    }
  }

  /** Opening the east or south wall of the current cell towards a free
      neighbour joins two cells that were not connected and keeps the pass's
      state for the next cell. */
  lemma PassCarve(b: Board, c: Cell, d: Dir)
    requires PassAt(b, c) && Free(b, c) && (d == E || d == S) && Free(b, Step(c, d))
    ensures Refines(b, Carve(b, c, d))
    ensures PassAt(Carve(b, c, d), (c.0 + 1, c.1))
    ensures Forest(b) ==> Forest(Carve(b, c, d))
  {
    var n := Step(c, d);
    assert !Before(n, c);
    WalledApart(b, c, n);
    CarveJoin(b, c, d);
    CarveBlockedClosed(b, c, d);
    RefinesCarve(b, c, d);
    PassCarveOneWay(b, c, d);
    PassCarveWalled(b, c, d);
    PassCarveDecided(b, c, d);
  }

  /** After the last row every cell follows the rule. */
  lemma PassEnd(b: Board)
    requires PassAt(b, (0, b.height))
    ensures forall u :: InBounds(b, u) ==> Decided(b, u)
  {
  }
}
