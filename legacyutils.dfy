/** The export of a binary maze (every cell a wall or a path) to the
    wall-mask text format: a path cell is written as the hexadecimal digit of
    its four walls, worked out from its neighbours, any other cell as `F`;
    then an empty line and, when there is something to say, the entry, the
    exit and the direction letters of a path. */
module LegacyExport {
  import opened Wrappers
  import opened Grid
  import opened LegacyMaze
  import opened OutputWriter
  import opened PathFinder

  /** The four wall bits of an in-bounds cell: a side has a wall when the
      cell is on that border or the neighbour on that side is a wall. */
  function CellMask(g: Bitmap, width: int, height: int, x: int, y: int): (r: Mask)
    requires Sized(g, Extent(width), Extent(height)) && 0 <= x < width && 0 <= y < height
    ensures (r & Bit(N) != 0) <==> y == 0 || g[y - 1][x] == WALL
    ensures (r & Bit(E) != 0) <==> x == width - 1 || g[y][x + 1] == WALL
    ensures (r & Bit(S) != 0) <==> y == height - 1 || g[y + 1][x] == WALL
    ensures (r & Bit(W) != 0) <==> x == 0 || g[y][x - 1] == WALL
  {
    var north: Mask := if y == 0 || g[y - 1][x] == WALL then 1 else 0;
    var east: Mask := if x == width - 1 || g[y][x + 1] == WALL then 2 else 0;
    var south: Mask := if y == height - 1 || g[y + 1][x] == WALL then 4 else 0;
    var west: Mask := if x == 0 || g[y][x - 1] == WALL then 8 else 0;
    north | east | south | west
  }

  /** `encode_cell_walls`: one uppercase hexadecimal digit, which reads back
      as the mask of the cell. */
  function EncodeCellWalls(g: Bitmap, width: int, height: int, x: int, y: int): (r: string)
    requires Sized(g, Extent(width), Extent(height)) && 0 <= x < width && 0 <= y < height
    ensures |r| == 1 && r[0] in HexDigits
    ensures HexValue(r[0]) == Some(CellMask(g, width, height, x, y))
  {
    HexValueOfDigit(CellMask(g, width, height, x, y));
    [HexDigit(CellMask(g, width, height, x, y))]
  }

  /** The mask written for a cell: its walls when it is a path, all four
      walls otherwise. */
  function ExportMask(g: Bitmap, width: int, height: int, x: int, y: int): Mask
    requires Sized(g, Extent(width), Extent(height)) && 0 <= x < width && 0 <= y < height
  {
    if g[y][x] == PATH then CellMask(g, width, height, x, y) else Closed
  }

  /** The masks written for row `y`. */
  function ExportRow(g: Bitmap, width: int, height: int, y: int): (row: seq<Mask>)
    requires Sized(g, Extent(width), Extent(height)) && 0 <= y < height
    ensures |row| == Extent(width)
    ensures forall x :: 0 <= x < |row| ==> row[x] == ExportMask(g, width, height, x, y)
  {
    seq(Extent(width), x requires 0 <= x < Extent(width) => ExportMask(g, width, height, x, y))
  }

  /** The wall-mask maze the exported rows describe, with no blocked cell. */
  function ExportBoard(g: Bitmap, width: int, height: int): (b: Board)
    requires Sized(g, Extent(width), Extent(height))
    ensures Shaped(b) && b.blocked == {}
    ensures b.width == Extent(width) && b.height == Extent(height)
    ensures forall y :: 0 <= y < b.height ==> b.walls[y] == ExportRow(g, width, height, y)
    ensures forall c :: InBounds(b, c) ==> MaskAt(b, c) == ExportMask(g, width, height, c.0, c.1)
  {
    Board(Extent(width), Extent(height),
      seq(Extent(height), y requires 0 <= y < Extent(height) => ExportRow(g, width, height, y)), {})
  }

  /** On a binary grid the exported masks form a coherent maze: neighbours
      agree on the wall between them and the border is closed. */
  lemma ExportCoherent(g: Bitmap, width: int, height: int)
    requires Sized(g, Extent(width), Extent(height)) && Binary(g)
    ensures Coherent(ExportBoard(g, width, height))
  {
    ExportRowsAgree(g, width, height);
    ExportColumnsAgree(g, width, height);
    ExportBorderClosed(g, width, height);
  }

  lemma ExportRowsAgree(g: Bitmap, width: int, height: int)
    requires Sized(g, Extent(width), Extent(height)) && Binary(g)
    ensures EastWestAgree(ExportBoard(g, width, height))
  {
    var b := ExportBoard(g, width, height);
    forall y, x | 0 <= y < b.height && 0 <= x < b.width - 1
      ensures HasWall(b, (x, y), E) == HasWall(b, (x + 1, y), W)
    {
      assert InBounds(b, (x, y)) && InBounds(b, (x + 1, y));
    }
  }

  lemma ExportColumnsAgree(g: Bitmap, width: int, height: int)
    requires Sized(g, Extent(width), Extent(height)) && Binary(g)
    ensures SouthNorthAgree(ExportBoard(g, width, height))
  {
    var b := ExportBoard(g, width, height);
    forall y, x | 0 <= y < b.height - 1 && 0 <= x < b.width
      ensures HasWall(b, (x, y), S) == HasWall(b, (x, y + 1), N)
    {
      assert InBounds(b, (x, y)) && InBounds(b, (x, y + 1));
    }
  }

  lemma ExportBorderClosed(g: Bitmap, width: int, height: int)
    requires Sized(g, Extent(width), Extent(height))
    ensures BorderClosed(ExportBoard(g, width, height))
  {
    var b := ExportBoard(g, width, height);
    assert SidesClosed(b) by {
      forall y | 0 <= y < b.height
        ensures HasWall(b, (0, y), W) && HasWall(b, (b.width - 1, y), E)
      {
        if b.width > 0 {
          assert InBounds(b, (0, y)) && InBounds(b, (b.width - 1, y));
        }
      }
    }
    assert EndsClosed(b) by {
      forall x | 0 <= x < b.width
        ensures HasWall(b, (x, 0), N) && HasWall(b, (x, b.height - 1), S)
      {
        if b.height > 0 {
          assert InBounds(b, (x, 0)) && InBounds(b, (x, b.height - 1));
        }
      }
    }
  }

  /** On a binary grid a passage of the exported maze joins exactly two
      neighbouring path cells. */
  lemma ExportLinks(g: Bitmap, width: int, height: int, c: Cell, d: Dir)
    requires Sized(g, Extent(width), Extent(height)) && Binary(g)
    ensures Link(ExportBoard(g, width, height), c, d) <==> IsPath(g, c) && IsPath(g, Step(c, d))
  {
    var b := ExportBoard(g, width, height);
    var n := Step(c, d);
    InGridBounds(g, width, height, c);
    InGridBounds(g, width, height, n);
    if InBounds(b, c) && g[c.1][c.0] == PATH {
      assert MaskAt(b, c) == CellMask(g, width, height, c.0, c.1);
    }
  }

  /** The letter `save_maze_to_file` writes for one step: a change of row
      decides first, then a change of column; the same cell twice gives
      nothing. */
  function StepLetter(u: Cell, v: Cell): (r: string)
    ensures r == "" <==> u == v
    ensures v.1 < u.1 ==> r == "N"
    ensures v.1 > u.1 ==> r == "S"
    ensures v.1 == u.1 && v.0 > u.0 ==> r == "E"
    ensures v.1 == u.1 && v.0 < u.0 ==> r == "W"
  {
    if v.1 < u.1 then "N"
    else if v.1 > u.1 then "S"
    else if v.0 > u.0 then "E"
    else if v.0 < u.0 then "W"
    else ""
  }

  /** The direction letters of a path, one per step between distinct cells. */
  function Directions(path: seq<Cell>): (r: string)
    ensures |path| < 2 ==> r == ""
    ensures |r| <= if path == [] then 0 else |path| - 1
    ensures forall i :: 0 <= i < |r| ==> r[i] in "NESW"
    decreases |path|
  {
    if |path| < 2 then "" else StepLetter(path[0], path[1]) + Directions(path[1..])
  }

  /** Adding a cell to the end of a path adds the letter of the new step. */
  lemma {:induction false} DirectionsSnoc(path: seq<Cell>, c: Cell)
    requires path != []
    ensures Directions(path + [c]) == Directions(path) + StepLetter(path[|path| - 1], c)
    decreases |path|
  {
    if |path| >= 2 {
      DirectionsSnoc(path[1..], c);
      assert (path + [c])[1..] == path[1..] + [c];
    }
  }

  /** The letters of a longer prefix of a path add the letter of its last
      step. */
  lemma DirectionsPrefix(path: seq<Cell>, i: nat)
    requires i + 1 < |path|
    ensures Directions(path[..i + 2]) == Directions(path[..i + 1]) + StepLetter(path[i], path[i + 1])
  {
    var p, c := path[..i + 1], path[i + 1];
    assert path[..i + 2] == p + [c];
    DirectionsSnoc(p, c);
    assert p[|p| - 1] == path[i];
  }

  /** A path whose consecutive cells all differ gets one letter per step. */
  lemma {:induction false} DirectionsPerStep(path: seq<Cell>)
    requires forall i :: 0 <= i < |path| - 1 ==> path[i] != path[i + 1]
    ensures |Directions(path)| == if path == [] then 0 else |path| - 1
    decreases |path|
  {
    if |path| >= 2 {
      assert path[0] != path[1];
      var rest := path[1..];
      assert forall i :: 0 <= i < |rest| - 1 ==> rest[i] != rest[i + 1] by {
        forall i | 0 <= i < |rest| - 1 ensures rest[i] != rest[i + 1] {
          assert rest[i] == path[i + 1] && rest[i + 1] == path[i + 2];
        }
      }
      DirectionsPerStep(rest);
    }
  }

  /** On a unit-step path the letters are those of the path finder's move
      encoder. */
  lemma {:induction false} DirectionsAgree(path: seq<Cell>)
    requires UnitSteps(path)
    ensures Directions(path) == PathToMoves(path)
    decreases |path|
  {
    if |path| >= 2 {
      assert Neighbour(path[0], path[1]);
      var rest := path[1..];
      assert UnitSteps(rest) by {
        forall i | 0 <= i < |rest| - 1 ensures Neighbour(rest[i], rest[i + 1]) {
          assert rest[i] == path[i + 1] && rest[i + 1] == path[i + 1 + 1];
        }
      }
      DirectionsAgree(rest);
    }
  }

  /** Following the letters of a unit-step path from its first cell retraces
      the path. */
  lemma DirectionsReplay(path: seq<Cell>)
    requires path != [] && UnitSteps(path)
    ensures Replay(path[0], Directions(path)) == path
  {
    DirectionsAgree(path);
    ReplayMoves(path);
  }

  /** The lines `save_maze_to_file` writes: one row of digits per grid row,
      an empty line, and the entry, exit and direction lines when the entry,
      the exit and the path are all given and the path is not empty. */
  function SavedLines(g: Bitmap, width: int, height: int, entry: Option<Cell>, exitPt: Option<Cell>, path: seq<Cell>): (lines: seq<string>)
    requires Sized(g, Extent(width), Extent(height))
  {
    MazeToHexRows(ExportBoard(g, width, height)) + [""] +
    if entry.Some? && exitPt.Some? && path != [] then
      [Coordinates(entry.value), Coordinates(exitPt.value), Directions(path)]
    else []
  }

  /** The saved file: `height` rows of `width` digits that decode to the
      exported maze, the empty line, and the three trailing lines exactly
      when entry, exit and path are all given. */
  lemma SavedLinesShape(g: Bitmap, width: int, height: int, entry: Option<Cell>, exitPt: Option<Cell>, path: seq<Cell>)
    requires Sized(g, Extent(width), Extent(height))
    ensures var lines := SavedLines(g, width, height, entry, exitPt, path);
      var h := Extent(height);
      |lines| == h + 1 + (if entry.Some? && exitPt.Some? && path != [] then 3 else 0) &&
      (forall y :: 0 <= y < h ==> |lines[y]| == Extent(width)) &&
      lines[h] == "" &&
      DecodeRows(lines[..h]) == Some(ExportBoard(g, width, height).walls)
  {
    var b := ExportBoard(g, width, height);
    var lines := SavedLines(g, width, height, entry, exitPt, path);
    assert lines[..Extent(height)] == MazeToHexRows(b);
    HexRowsRoundTrip(b);
  }

  /** A path cell is written as the digit of its walls and any other cell as
      `F`. */
  lemma SavedCell(g: Bitmap, width: int, height: int, entry: Option<Cell>, exitPt: Option<Cell>, path: seq<Cell>, x: int, y: int)
    requires Sized(g, Extent(width), Extent(height)) && 0 <= x < width && 0 <= y < height
    ensures var ch := SavedLines(g, width, height, entry, exitPt, path)[y][x];
      (g[y][x] == PATH ==> HexValue(ch) == Some(CellMask(g, width, height, x, y))) &&
      (g[y][x] != PATH ==> ch == 'F')
  {
    var b := ExportBoard(g, width, height);
    HexRowsShape(b);
    assert InBounds(b, (x, y));
    HexValueOfDigit(CellMask(g, width, height, x, y));
  }

  /** One row of the file, built cell by cell. */
  method RowLine(g: Bitmap, width: int, height: int, y: int) returns (line: string)
    requires Sized(g, Extent(width), Extent(height)) && 0 <= y < height
    ensures line == HexRow(ExportRow(g, width, height, y))
  {
    ghost var row := ExportRow(g, width, height, y);
    line := "";
    for x := 0 to Extent(width)
      invariant line == HexRow(row[..x])
    {
      var digit;
      if g[y][x] == PATH {
        digit := EncodeCellWalls(g, width, height, x, y);
      } else {
        digit := "F";
      }
      assert row[..x + 1] == row[..x] + [row[x]];
      line := line + digit;
    }
    assert row[..Extent(width)] == row;
  }

  /** The direction letters, one step at a time. */
  method DirectionLine(path: seq<Cell>) returns (directions: string)
    requires path != []
    ensures directions == Directions(path)
  {
    directions := "";
    for i := 0 to |path| - 1
      invariant directions == Directions(path[..i + 1])
    {
      DirectionsPrefix(path, i);
      directions := directions + StepLetter(path[i], path[i + 1]);
    }
    assert path[..|path|] == path;
  }

  /** `save_maze_to_file` without the file: the rows, the empty line, then
      the entry, exit and direction lines. */
  method SaveMazeLines(m: Maze, entry: Option<Cell>, exitPt: Option<Cell>, path: seq<Cell>) returns (lines: seq<string>)
    requires m.Valid()
    ensures lines == SavedLines(m.grid, m.width, m.height, entry, exitPt, path)
  {
    var g, width, height := m.grid, m.width, m.height;
    ghost var b := ExportBoard(g, width, height);
    lines := [];
    for y := 0 to Extent(height)
      invariant |lines| == y
      invariant forall i :: 0 <= i < y ==> lines[i] == HexRow(b.walls[i])
    {
      var line := RowLine(g, width, height, y);
      lines := lines + [line];
    }
    assert lines == MazeToHexRows(b);
    lines := lines + [""];
    if entry.Some? && exitPt.Some? && path != [] {
      var directions := DirectionLine(path);
      lines := lines + [Coordinates(entry.value), Coordinates(exitPt.value), directions];
    }
  }
}
