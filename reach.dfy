/** What a carving pass leaves behind, stated on boards: which cells it has
    not touched, which cells it has reached, and why everything reachable
    through free cells has then been reached. */
module Reach {
  import opened Grid
  import opened Walks

  /** The in-bounds cells. */
  ghost function Cells(b: Board): set<Cell> {
    set x: int, y: int | 0 <= x < b.width && 0 <= y < b.height :: (x, y)
  }

  lemma CellsMember(b: Board, c: Cell)
    ensures c in Cells(b) <==> InBounds(b, c)
  {
    if InBounds(b, c) {
      var (x, y) := c;
      assert (x, y) in Cells(b);
    }
  }

  /** The in-bounds cells depend on the dimensions only. */
  lemma CellsSame(b0: Board, b1: Board)
    requires b0.width == b1.width && b0.height == b1.height
    ensures Cells(b0) == Cells(b1)
  {
    forall c ensures c in Cells(b0) <==> c in Cells(b1) {
      CellsMember(b0, c);
      CellsMember(b1, c);
    }
  }

  /** Marking one more cell visited shrinks what is left to visit. */
  lemma FewerLeft(all: set<Cell>, visited: set<Cell>, seen: set<Cell>, c: Cell)
    requires visited <= seen && c in all && c !in visited && c in seen
    ensures |all - seen| < |all - visited|
  {
    var left, rest := all - visited, all - seen;
    assert rest <= left;
    assert left == rest + (left - rest);
    assert |left - rest| >= 1 by {
      assert c in left - rest;
    }
  }

  /** `s` is the first free cell in row-major order. */
  ghost predicate FirstFree(b: Board, s: Cell) {
    Free(b, s) && forall u :: Free(b, u) ==> !Before(u, s)
  }

  lemma FirstFreeUnique(b: Board, s: Cell, t: Cell)
    requires FirstFree(b, s) && FirstFree(b, t)
    ensures s == t
  {
  }

  /** Every in-bounds cell outside `seen` is still fully walled. */
  ghost predicate ClosedOutside(b: Board, seen: set<Cell>) {
    forall u :: InBounds(b, u) && u !in seen ==> MaskAt(b, u) == Closed
  }

  /** Every in-bounds neighbour of a cell of `region` is in `seen`. */
  ghost predicate Saturated(b: Board, region: set<Cell>, seen: set<Cell>) {
    forall u, e :: u in region && InBounds(b, Step(u, e)) ==> Step(u, e) in seen
  }

  /** Outside `region`, `b1` has the masks of `b0`. */
  ghost predicate UnchangedOutside(b0: Board, b1: Board, region: set<Cell>) {
    forall u :: u !in region ==> MaskAt(b1, u) == MaskAt(b0, u)
  }

  /** Every cell of `region` is reached from `s` through open passages. */
  ghost predicate ReachedFrom(b: Board, s: Cell, region: set<Cell>) {
    forall u :: u in region ==> Connected(b, s, u)
  }

  lemma ReachedRefines(b0: Board, b1: Board, s: Cell, region: set<Cell>)
    requires Refines(b0, b1) && ReachedFrom(b0, s, region)
    ensures ReachedFrom(b1, s, region)
  {
    forall u | u in region ensures Connected(b1, s, u) {
      ConnectedRefines(b0, b1, s, u);
    }
  }

  /** What is reached from `n` is reached from any cell that reaches `n`. */
  lemma ReachedThrough(b: Board, s: Cell, n: Cell, region: set<Cell>)
    requires Connected(b, s, n) && ReachedFrom(b, n, region)
    ensures ReachedFrom(b, s, region)
  {
    forall u | u in region ensures Connected(b, s, u) {
      ConnectedTransitive(b, s, n, u);
    }
  }

  lemma UnchangedCompose(b0: Board, b1: Board, b2: Board, r1: set<Cell>, r2: set<Cell>, r: set<Cell>)
    requires UnchangedOutside(b0, b1, r1) && UnchangedOutside(b1, b2, r2) && r1 + r2 <= r
    ensures UnchangedOutside(b0, b2, r)
  {
  }

  lemma ReachedJoin(b: Board, s: Cell, r1: set<Cell>, r2: set<Cell>, r: set<Cell>)
    requires ReachedFrom(b, s, r1) && ReachedFrom(b, s, r2) && r <= r1 + r2
    ensures ReachedFrom(b, s, r)
  {
  }

  lemma SaturatedJoin(b1: Board, b2: Board, r1: set<Cell>, s1: set<Cell>, r2: set<Cell>, s2: set<Cell>, r: set<Cell>)
    requires Saturated(b1, r1, s1) && Saturated(b2, r2, s2)
    requires b1.width == b2.width && b1.height == b2.height
    requires s1 <= s2 && r <= r1 + r2
    ensures Saturated(b2, r, s2)
  {
  }

  /** The in-bounds neighbours of `c` in the directions `ds`. */
  ghost function Targets(b: Board, c: Cell, ds: seq<Dir>): set<Cell>
    decreases |ds|
  {
    if ds == [] then {}
    else
      var n := Step(c, ds[|ds| - 1]);
      Targets(b, c, ds[..|ds| - 1]) + (if InBounds(b, n) then {n} else {})
  }

  /** One more direction adds its neighbour, when on the grid. */
  lemma TargetsNext(b: Board, c: Cell, ds: seq<Dir>, i: nat)
    requires i < |ds|
    ensures Targets(b, c, ds[..i + 1]) ==
      Targets(b, c, ds[..i]) + (if InBounds(b, Step(c, ds[i])) then {Step(c, ds[i])} else {})
  {
    assert ds[..i + 1][..i] == ds[..i];
  }

  lemma {:induction false} TargetsMember(b: Board, c: Cell, ds: seq<Dir>, e: Dir)
    requires e in ds && InBounds(b, Step(c, e))
    ensures Step(c, e) in Targets(b, c, ds)
    decreases |ds|
  {
    var init := ds[..|ds| - 1];
    if ds[|ds| - 1] != e {
      assert ds == init + [ds[|ds| - 1]];
      TargetsMember(b, c, init, e);
    }
  }

  /** A cell all of whose directions have been tried joins a saturated region. */
  lemma SaturatedCell(b: Board, b0: Board, c: Cell, ds: seq<Dir>, region: set<Cell>, seen: set<Cell>)
    requires Saturated(b, region - {c}, seen)
    requires b0.width == b.width && b0.height == b.height
    requires forall e :: e in ds
    requires Targets(b0, c, ds) <= seen
    ensures Saturated(b, region, seen)
  {
    forall u, e | u in region && InBounds(b, Step(u, e)) ensures Step(u, e) in seen {
      if u == c {
        TargetsMember(b0, c, ds, e);
      }
    }
  }

  lemma BlockedCells(b: Board)
    requires forall c :: c in b.blocked ==> InBounds(b, c)
    ensures b.blocked <= Cells(b)
  {
    forall c | c in b.blocked ensures c in Cells(b) {
      CellsMember(b, c);
    }
  }

  /** What a search from the first free cell `s` that kept every unvisited
      cell walled in leaves behind: when the cells it added to the blocked
      ones are reached from `s` and saturated, the passages reach every cell
      that the free cells reach, and every cell they do not reach is walled
      in. */
  lemma SpanningSearch(b: Board, s: Cell, seen: set<Cell>)
    requires FirstFree(b, s) && s in seen && BlockedClosed(b)
    requires ReachedFrom(b, s, seen - b.blocked) && Saturated(b, seen - b.blocked, seen)
    requires ClosedOutside(b, seen)
    ensures forall t, v :: FirstFree(b, t) && FreeConnected(b, t, v) ==> Connected(b, t, v)
    ensures forall t, v :: FirstFree(b, t) && InBounds(b, v) && !FreeConnected(b, t, v) ==>
      MaskAt(b, v) == Closed
  {
    forall t, v | FirstFree(b, t) && FreeConnected(b, t, v) ensures Connected(b, t, v) {
      FirstFreeUnique(b, s, t);
      SaturatedReach(b, s, seen - b.blocked, seen, v);
    }
    forall t, v | FirstFree(b, t) && InBounds(b, v) && !FreeConnected(b, t, v)
      ensures MaskAt(b, v) == Closed
    {
      FirstFreeUnique(b, s, t);
      if v in seen - b.blocked {
        ConnectedIsFreeConnected(b, s, v);
      }
    }
  }

  /** A carve changes the masks of its two cells only. */
  lemma CarveUnchanged(b: Board, c: Cell, d: Dir)
    requires Shaped(b) && InBounds(b, c) && InBounds(b, Step(c, d))
    ensures UnchangedOutside(b, Carve(b, c, d), {c, Step(c, d)})
  {
    forall u | u !in {c, Step(c, d)} ensures MaskAt(Carve(b, c, d), u) == MaskAt(b, u) {
      MaskAtCarve(b, c, d, u);
    }
  }

  /** Changing only cells of `r` leaves walled in what lies outside `seen` and `r`. */
  lemma ClosedAfter(b0: Board, b1: Board, seen: set<Cell>, r: set<Cell>)
    requires ClosedOutside(b0, seen) && UnchangedOutside(b0, b1, r)
    requires b1.width == b0.width && b1.height == b0.height
    ensures ClosedOutside(b1, seen + r)
  {
  }

  /** A fully walled cell is reached from no other cell. */
  lemma ClosedIsolated(b: Board, u: Cell, n: Cell)
    requires Coherent(b) && MaskAt(b, n) == Closed && u != n
    ensures !Connected(b, u, n)
  {
    if Connected(b, u, n) {
      var p :| WalkFromTo(b, p, u, n);
      var k := |p| - 2;
      assert Linked(b, p[k], p[k + 1]);
      assert forall e :: HasWall(b, n, e);
      LinkedSymmetric(b, p[k], n);
      var d := LinkedDir(b, n, p[k]);
    }
  }

  /** A walk over free cells that starts in a saturated region never leaves
      it, as long as `seen` adds nothing but blocked cells to the region. */
  lemma {:induction false} WalkStaysIn(b: Board, p: seq<Cell>, region: set<Cell>, seen: set<Cell>)
    requires IsWalk(Opened(b), p) && p[0] in region && Saturated(b, region, seen)
    requires forall u :: u in seen && u !in b.blocked ==> u in region
    ensures p[|p| - 1] in region
    decreases |p|
  {
    if |p| > 1 {
      var q := p[..|p| - 1];
      assert IsWalk(Opened(b), q) by {
        forall i | 0 <= i < |q| - 1 ensures Linked(Opened(b), q[i], q[i + 1]) {
          assert q[i] == p[i] && q[i + 1] == p[i + 1];
        }
      }
      WalkStaysIn(b, q, region, seen);
      var y := p[|p| - 2];
      assert Linked(Opened(b), y, p[|p| - 1]);
      var d := LinkedDir(Opened(b), y, p[|p| - 1]);
    }
  }

  /** Reaching a region that is saturated up to blocked cells reaches every
      cell that is grid-reachable from its start through free cells. */
  lemma SaturatedReach(b: Board, s: Cell, region: set<Cell>, seen: set<Cell>, v: Cell)
    requires s in region && Saturated(b, region, seen)
    requires forall u :: u in seen && u !in b.blocked ==> u in region
    requires FreeConnected(b, s, v)
    ensures v in region
  {
    var p :| WalkFromTo(Opened(b), p, s, v);
    WalkStaysIn(b, p, region, seen);
  }

  /** When every pair of adjacent free cells is joined by passages, so is
      every pair joined by a chain of adjacent free cells. */
  lemma {:induction false} AdjacentWalk(b: Board, p: seq<Cell>)
    requires forall u, v :: FreeAdjacent(b, u, v) ==> Connected(b, u, v)
    requires IsWalk(Opened(b), p)
    ensures Connected(b, p[0], p[|p| - 1])
    decreases |p|
  {
    if |p| == 1 {
      ConnectedReflexive(b, p[0]);
    } else {
      var q := p[..|p| - 1];
      assert IsWalk(Opened(b), q) by {
        forall i | 0 <= i < |q| - 1 ensures Linked(Opened(b), q[i], q[i + 1]) {
          assert q[i] == p[i] && q[i + 1] == p[i + 1];
        }
      }
      AdjacentWalk(b, q);
      var y := p[|p| - 2];
      assert Linked(Opened(b), y, p[|p| - 1]);
      LinkedOpened(b, y, p[|p| - 1]);
      ConnectedTransitive(b, p[0], y, p[|p| - 1]);
    }
  }

  lemma AdjacentConnected(b: Board, u: Cell, v: Cell)
    requires forall u, v :: FreeAdjacent(b, u, v) ==> Connected(b, u, v)
    requires FreeConnected(b, u, v)
    ensures Connected(b, u, v)
  {
    var p :| WalkFromTo(Opened(b), p, u, v);
    AdjacentWalk(b, p);
  }

  /** Once adjacent free cells are connected, connectivity through passages
      is connectivity through free cells. */
  lemma AdjacentAllConnected(b: Board)
    requires forall u, v :: FreeAdjacent(b, u, v) ==> Connected(b, u, v)
    ensures forall u, v :: FreeConnected(b, u, v) <==> Connected(b, u, v)
  {
    forall u, v ensures FreeConnected(b, u, v) <==> Connected(b, u, v) {
      if FreeConnected(b, u, v) {
        AdjacentConnected(b, u, v);
      }
      if Connected(b, u, v) {
        ConnectedIsFreeConnected(b, u, v);
      }
    }
  }
}
