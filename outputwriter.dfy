/** The output file: one row of uppercase hexadecimal wall masks per grid
    row, an empty line, the entry and exit coordinates, and the move letters
    of the shortest path between them. */
module OutputWriter {
  import opened Wrappers
  import opened Grid
  import opened Walks
  import opened Text
  import opened PathFinder

  const HexDigits: string := "0123456789ABCDEF"

  /** `format(m, "X")` for a 4-bit mask: one uppercase hexadecimal digit. */
  function HexDigit(m: Mask): (ch: char)
    ensures ch in HexDigits
  {
    HexDigits[m as int]
  }

  /** The mask an uppercase hexadecimal digit stands for. */
  function HexValue(ch: char): (r: Option<Mask>)
    ensures r.Some? <==> ch in HexDigits
  {
    match ch
    case '0' => Some(0) case '1' => Some(1) case '2' => Some(2) case '3' => Some(3)
    case '4' => Some(4) case '5' => Some(5) case '6' => Some(6) case '7' => Some(7)
    case '8' => Some(8) case '9' => Some(9) case 'A' => Some(10) case 'B' => Some(11)
    case 'C' => Some(12) case 'D' => Some(13) case 'E' => Some(14) case 'F' => Some(15)
    case _ => assert ch !in HexDigits; None
  }

  lemma HexValueOfDigit(m: Mask)
    ensures HexValue(HexDigit(m)) == Some(m)
  {
    if m < 4 {
      assert m == 0 || m == 1 || m == 2 || m == 3;
    } else if m < 8 {
      assert m == 4 || m == 5 || m == 6 || m == 7;
    } else if m < 12 {
      assert m == 8 || m == 9 || m == 10 || m == 11;
    } else {
      assert m == 12 || m == 13 || m == 14 || m == 15;
    }
  }

  lemma HexDigitOfValue(ch: char)
    requires ch in HexDigits
    ensures HexDigit(HexValue(ch).value) == ch
  {
    if '0' <= ch <= '7' {
      assert ch == '0' || ch == '1' || ch == '2' || ch == '3' || ch == '4' || ch == '5' || ch == '6' || ch == '7';
    } else {
      assert ch == '8' || ch == '9' || ch == 'A' || ch == 'B' || ch == 'C' || ch == 'D' || ch == 'E' || ch == 'F';
    }
  }

  function HexRow(row: seq<Mask>): string {
    seq(|row|, x requires 0 <= x < |row| => HexDigit(row[x]))
  }

  /** One string per stored row, one digit per stored mask. */
  function MazeToHexRows(b: Board): (rows: seq<string>)
    ensures |rows| == |b.walls|
    ensures forall y :: 0 <= y < |rows| ==> |rows[y]| == |b.walls[y]|
    ensures forall y, x :: 0 <= y < |rows| && 0 <= x < |rows[y]| ==> rows[y][x] in HexDigits
  {
    seq(|b.walls|, y requires 0 <= y < |b.walls| => HexRow(b.walls[y]))
  }

  /** On a maze grid: `height` rows of `width` digits, each the digit of the
      mask of the cell at that place. */
  lemma HexRowsShape(b: Board)
    requires Shaped(b)
    ensures |MazeToHexRows(b)| == b.height
    ensures forall y :: 0 <= y < b.height ==> |MazeToHexRows(b)[y]| == b.width
    ensures forall c :: InBounds(b, c) ==> MazeToHexRows(b)[c.1][c.0] == HexDigit(MaskAt(b, c))
  {
  }

  /** Reading one row of digits back, if every character is a digit. */
  function DecodeRow(s: string): (r: Option<seq<Mask>>)
    ensures r.Some? ==> |r.value| == |s|
    decreases |s|
  {
    if s == [] then Some([])
    else match (HexValue(s[0]), DecodeRow(s[1..]))
      case (Some(m), Some(rest)) => Some([m] + rest)
      case _ => None
  }

  /** Reading rows of digits back into a grid of masks. */
  function DecodeRows(rows: seq<string>): (r: Option<seq<seq<Mask>>>)
    ensures r.Some? ==> |r.value| == |rows|
    decreases |rows|
  {
    if rows == [] then Some([])
    else match (DecodeRow(rows[0]), DecodeRows(rows[1..]))
      case (Some(g), Some(rest)) => Some([g] + rest)
      case _ => None
  }

  lemma {:induction false} DecodeHexRow(row: seq<Mask>)
    ensures DecodeRow(HexRow(row)) == Some(row)
    decreases |row|
  {
    if row != [] {
      var s := HexRow(row);
      assert s[1..] == HexRow(row[1..]);
      DecodeHexRow(row[1..]);
      HexValueOfDigit(row[0]);
      assert row == [row[0]] + row[1..];
    }
  }

  /** Decoding the exported rows gives back the wall grid exactly. */
  lemma {:induction false} HexRowsRoundTrip(b: Board)
    ensures DecodeRows(MazeToHexRows(b)) == Some(b.walls)
    decreases |b.walls|
  {
    var rows := MazeToHexRows(b);
    if b.walls != [] {
      var b' := b.(walls := b.walls[1..]);
      assert rows[1..] == MazeToHexRows(b');
      HexRowsRoundTrip(b');
      DecodeHexRow(b.walls[0]);
      assert b.walls == [b.walls[0]] + b.walls[1..];
    }
  }

  lemma {:induction false} EncodeDecodedRow(s: string)
    requires DecodeRow(s).Some?
    ensures HexRow(DecodeRow(s).value) == s
    decreases |s|
  {
    if s != [] {
      EncodeDecodedRow(s[1..]);
      HexDigitOfValue(s[0]);
      var row := DecodeRow(s).value;
      assert row[1..] == DecodeRow(s[1..]).value;
      assert HexRow(row)[1..] == HexRow(row[1..]);
    }
  }

  /** Every decodable text is the export of the grid it decodes to. */
  lemma {:induction false} DecodedRowsExport(rows: seq<string>, b: Board)
    requires DecodeRows(rows) == Some(b.walls)
    ensures MazeToHexRows(b) == rows
    decreases |rows|
  {
    if rows != [] {
      var b' := b.(walls := b.walls[1..]);
      var row, rest := DecodeRow(rows[0]).value, DecodeRows(rows[1..]).value;
      assert b.walls == [row] + rest;
      assert b'.walls == rest;
      DecodedRowsExport(rows[1..], b');
      EncodeDecodedRow(rows[0]);
      var r := MazeToHexRows(b);
      assert r[0] == rows[0];
      assert r[1..] == MazeToHexRows(b');
      assert rows == [rows[0]] + rows[1..];
    }
  }

  /** The `x,y` line of a cell. */
  function Coordinates(c: Cell): string {
    IntToString(c.0) + "," + IntToString(c.1)
  }

  /** A coordinates line splits at its comma into the two numbers again. */
  lemma CoordinatesRoundTrip(c: Cell)
    ensures Split(Coordinates(c), ',') == [IntToString(c.0), IntToString(c.1)]
    ensures ParseInt(IntToString(c.0)) == Some(c.0) && ParseInt(IntToString(c.1)) == Some(c.1)
  {
    var pieces := [IntToString(c.0), IntToString(c.1)];
    NoCommaInNumber(c.0);
    NoCommaInNumber(c.1);
    assert Join(pieces, ',') == Coordinates(c) by {
      assert pieces[1..] == [IntToString(c.1)];
    }
    SplitJoin(pieces, ',');
    ParseIntToString(c.0);
    ParseIntToString(c.1);
  }

  /** The moves of a shortest walk retrace it, one letter per step. */
  lemma ShortestMoves(b: Board, p: seq<Cell>, entry: Cell, exit: Cell)
    requires WalkFromTo(b, p, entry, exit)
    requires forall w :: WalkFromTo(b, w, entry, exit) ==> |p| <= |w|
    ensures WalkFromTo(b, Replay(entry, PathToMoves(p)), entry, exit)
    ensures forall w :: WalkFromTo(b, w, entry, exit) ==> |PathToMoves(p)| < |w|
  {
    WalkUnitSteps(b, p);
    ReplayMoves(p);
  }

  /** What the output file holds, line by line, and the returned moves. */
  datatype Output = Output(lines: seq<string>, moves: string)

  /** The lines of the output file for `entry` and `exit` and the returned
      move string, or the error raised before anything is written. */
  method WriteOutputFile(b: Board, entry: Cell, exit: Cell) returns (r: Result<Output>)
    ensures r.Failure? <==> !Connected(b, entry, exit)
    ensures r.Failure? ==> r.error == "No valid path between ENTRY and EXIT"
    ensures r.Success? ==>
      r.value.lines == MazeToHexRows(b) + ["", Coordinates(entry), Coordinates(exit), r.value.moves]
    ensures r.Success? ==> WalkFromTo(b, Replay(entry, r.value.moves), entry, exit)
    ensures r.Success? ==> forall w :: WalkFromTo(b, w, entry, exit) ==> |r.value.moves| < |w|
  {
    var path := BfsFindPath(b, entry, exit);
    if path.None? {
      return Failure("No valid path between ENTRY and EXIT");
    }
    var p := path.value;
    var moves := PathToMoves(p);
    ShortestMoves(b, p, entry, exit);
    var lines := MazeToHexRows(b) + ["", Coordinates(entry), Coordinates(exit), moves];
    return Success(Output(lines, moves));
  }
}
