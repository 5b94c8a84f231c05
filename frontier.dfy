/** The frontier of the randomised Prim pass: the walls from a visited cell
    to a free, unvisited neighbour that the pass may open next, and what the
    pass keeps true about them. */
module Frontiers {
  import opened Grid
  import opened Walks
  import opened Forests
  import opened Reach

  /** A frontier entry: the wall of `from` on side `dir`. */
  datatype Edge = Edge(from: Cell, dir: Dir) {
    /** The cell on the other side of the wall. */
    function To(): Cell {
      Step(from, dir)
    }
  }

  /** The entries the pass adds for `c`: one per direction of `ds`, in that
      order, whose neighbour is free and unvisited. */
  function NewEdges(b: Board, c: Cell, visited: set<Cell>, ds: seq<Dir>): seq<Edge>
    decreases |ds|
  {
    if ds == [] then []
    else
      var d := ds[|ds| - 1];
      NewEdges(b, c, visited, ds[..|ds| - 1]) +
      (if Free(b, Step(c, d)) && Step(c, d) !in visited then [Edge(c, d)] else [])
  }

  lemma {:induction false} NewEdgesMember(b: Board, c: Cell, visited: set<Cell>, ds: seq<Dir>, e: Edge)
    ensures e in NewEdges(b, c, visited, ds) <==>
      e.from == c && e.dir in ds && Free(b, e.To()) && e.To() !in visited
    decreases |ds|
  {
    if ds != [] {
      var init := ds[..|ds| - 1];
      assert ds == init + [ds[|ds| - 1]];
      NewEdgesMember(b, c, visited, init, e);
    }
  }

  /** The sequence without its entry at `i`, as a list's `pop(i)` leaves it. */
  function Remove(s: seq<Edge>, i: nat): (r: seq<Edge>)
    requires i < |s|
    ensures |r| == |s| - 1
    ensures forall e :: e in r ==> e in s
    ensures forall e :: e in s && e != s[i] ==> e in r
    ensures forall k :: 0 <= k < |r| ==> r[k] == if k < i then s[k] else s[k + 1]
    ensures multiset(r) == multiset(s) - multiset{s[i]}
  {
    assert s == s[..i] + [s[i]] + s[i + 1..];
    s[..i] + s[i + 1..]
  }

  /** Every entry leaves a visited free cell towards a free cell. */
  ghost predicate FrontierSound(b: Board, frontier: seq<Edge>, visited: set<Cell>) {
    forall e :: e in frontier ==> e.from in visited && Free(b, e.from) && Free(b, e.To())
  }

  /** Every wall from a visited free cell to a free unvisited one is in the
      frontier. */
  ghost predicate FrontierComplete(b: Board, frontier: seq<Edge>, visited: set<Cell>) {
    forall u, d :: u in visited && Free(b, u) && Free(b, Step(u, d)) && Step(u, d) !in visited ==>
      Edge(u, d) in frontier
  }

  /** What holds before every draw of the pass started at `s`. */
  ghost predicate PrimState(b: Board, s: Cell, visited: set<Cell>, frontier: seq<Edge>) {
    Coherent(b) && BlockedClosed(b) && Free(b, s) &&
    b.blocked + {s} <= visited <= Cells(b) &&
    ClosedOutside(b, visited) && ReachedFrom(b, s, visited - b.blocked) &&
    FrontierSound(b, frontier, visited) && FrontierComplete(b, frontier, visited)
  }

  /** The fully walled grid, with the blocked cells and `s` visited and the
      walls of `s` in the frontier. */
  lemma PrimStart(b: Board, s: Cell)
    requires IsAllClosed(b) && BlockedClosed(b) && Free(b, s)
    ensures PrimState(b, s, b.blocked + {s}, NewEdges(b, s, b.blocked + {s}, Dirs))
  {
    var visited := b.blocked + {s};
    var frontier := NewEdges(b, s, visited, Dirs);
    AllClosedCoherent(b);
    BlockedCells(b);
    CellsMember(b, s);
    ConnectedReflexive(b, s);
    assert visited - b.blocked == {s};
    forall e: Edge | e in frontier ensures e.from in visited && Free(b, e.from) && Free(b, e.To()) {
      NewEdgesMember(b, s, visited, Dirs, e);
    }
    forall u, d | u in visited && Free(b, u) && Free(b, Step(u, d)) && Step(u, d) !in visited
      ensures Edge(u, d) in frontier
    {
      AllDirsListed(d);
      NewEdgesMember(b, s, visited, Dirs, Edge(u, d));
    }
  }

  /** Dropping an entry whose neighbour is already visited. */
  lemma PrimSkip(b: Board, s: Cell, visited: set<Cell>, frontier: seq<Edge>, i: nat)
    requires PrimState(b, s, visited, frontier) && i < |frontier| && frontier[i].To() in visited
    ensures PrimState(b, s, visited, Remove(frontier, i))
  {
    var rest := Remove(frontier, i);
    forall u, d | u in visited && Free(b, u) && Free(b, Step(u, d)) && Step(u, d) !in visited
      ensures Edge(u, d) in rest
    {
      assert Edge(u, d) in frontier;
    }
  }

  /** The entry's neighbour is fully walled and so not yet connected to the
      entry's cell: opening the wall between them joins two classes. */
  lemma PrimJoin(b: Board, s: Cell, visited: set<Cell>, frontier: seq<Edge>, i: nat)
    requires PrimState(b, s, visited, frontier) && i < |frontier| && frontier[i].To() !in visited
    ensures Coherent(Carve(b, frontier[i].from, frontier[i].dir))
    ensures BlockedClosed(Carve(b, frontier[i].from, frontier[i].dir))
    ensures Refines(b, Carve(b, frontier[i].from, frontier[i].dir))
    ensures Forest(b) ==> Forest(Carve(b, frontier[i].from, frontier[i].dir))
    ensures ClosedOutside(Carve(b, frontier[i].from, frontier[i].dir), visited + {frontier[i].To()})
    ensures ReachedFrom(Carve(b, frontier[i].from, frontier[i].dir), s, visited + {frontier[i].To()} - b.blocked)
  {
    var e := frontier[i];
    var c, n := e.from, e.To();
    var r := Carve(b, c, e.dir);
    assert e in frontier;
    CellsMember(b, n);
    ClosedIsolated(b, c, n);
    CarveJoin(b, c, e.dir);
    CarveBlockedClosed(b, c, e.dir);
    RefinesCarve(b, c, e.dir);
    CarveUnchanged(b, c, e.dir);
    ClosedAfter(b, r, visited, {c, n});
    assert visited + {c, n} == visited + {n};
    ReachedRefines(b, r, s, visited - b.blocked);
    LinkedCarve(b, c, e.dir, c, n);
    ConnectedLinked(r, c, n);
    assert c in visited - b.blocked;
    ConnectedTransitive(r, s, c, n);
  }

  /** Visiting the entry's neighbour `n` after the carve and adding the
      walls of `n` keeps the frontier sound and complete. */
  lemma PrimVisit(b: Board, r: Board, visited: set<Cell>, frontier: seq<Edge>, i: nat)
    requires FrontierSound(b, frontier, visited) && FrontierComplete(b, frontier, visited)
    requires i < |frontier| && frontier[i].To() !in visited
    requires r.width == b.width && r.height == b.height && r.blocked == b.blocked
    ensures FrontierSound(r, Remove(frontier, i) + NewEdges(r, frontier[i].To(), visited + {frontier[i].To()}, Dirs),
                          visited + {frontier[i].To()})
    ensures FrontierComplete(r, Remove(frontier, i) + NewEdges(r, frontier[i].To(), visited + {frontier[i].To()}, Dirs),
                             visited + {frontier[i].To()})
  {
    var n := frontier[i].To();
    var seen := visited + {n};
    var rest := Remove(frontier, i);
    var added := NewEdges(r, n, seen, Dirs);
    var next := rest + added;
    assert frontier[i] in frontier;
    forall e: Edge | e in next ensures e.from in seen && Free(r, e.from) && Free(r, e.To()) {
      if e in added {
        NewEdgesMember(r, n, seen, Dirs, e);
      }
    }
    forall u, d | u in seen && Free(r, u) && Free(r, Step(u, d)) && Step(u, d) !in seen
      ensures Edge(u, d) in next
    {
      if u == n {
        AllDirsListed(d);
        NewEdgesMember(r, n, seen, Dirs, Edge(u, d));
      } else {
        assert Edge(u, d) in frontier;
      }
    }
  }

  /** An empty frontier leaves the visited free cells saturated. */
  lemma PrimDone(b: Board, s: Cell, visited: set<Cell>)
    requires PrimState(b, s, visited, [])
    ensures Saturated(b, visited - b.blocked, visited)
  {
    forall u, d | u in visited - b.blocked && InBounds(b, Step(u, d)) ensures Step(u, d) in visited {
      CellsMember(b, u);
    }
  }
}
