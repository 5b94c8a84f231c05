/** What both configuration readers store for a key: an integer, a pair of
    integers, a string or a boolean, and the way they read the first two
    from text. */
module Settings {
  import opened Wrappers
  import opened Text

  datatype Value = Int(i: int) | Pair(x: int, y: int) | Str(s: string) | Bool(b: bool)

  /** The configuration keys, written in lower case in the dictionaries
      (`width`, `height`, `entry`, `exit`, `output_file`, `perfect`, `seed`,
      `algo`, `display`). */
  datatype Key = Width | Height | Entry | Exit | OutputFile | Perfect | Seed | Algo | Display

  /** The six keys every configuration must give. */
  const Required: set<Key> := {Width, Height, Entry, Exit, OutputFile, Perfect}

  /** The kind of value a key holds. */
  predicate WellTyped(k: Key, v: Value) {
    match k
    case Width | Height | Seed => v.Int?
    case Entry | Exit => v.Pair?
    case OutputFile | Algo => v.Str?
    case Perfect | Display => v.Bool?
  }

  /** `int(s)`: surrounding whitespace is allowed, then an optional sign and
      decimal digits. */
  function ReadInt(s: string): Option<int> {
    ParseInt(Strip(s))
  }

  /** Two integers separated by a comma, each `int` of its piece; any other
      number of pieces, or a piece that is not an integer, is refused. */
  function ReadPair(s: string): (r: Option<(int, int)>)
    ensures r.Some? <==> |Split(s, ',')| == 2 && ReadInt(Split(s, ',')[0]).Some? && ReadInt(Split(s, ',')[1]).Some?
  {
    var pieces := Split(s, ',');
    if |pieces| != 2 then None
    else
      match (ReadInt(pieces[0]), ReadInt(pieces[1]))
      case (Some(x), Some(y)) => Some((x, y))
      case _ => None
  }

  /** Writing two numbers with a comma between them and reading them back
      gives the numbers. */
  lemma ReadPairOfNumbers(x: int, y: int)
    ensures ReadPair(IntToString(x) + "," + IntToString(y)) == Some((x, y))
  {
    var pieces := [IntToString(x), IntToString(y)];
    NoCommaInNumber(x);
    NoCommaInNumber(y);
    assert Join(pieces, ',') == IntToString(x) + "," + IntToString(y) by {
      assert pieces[1..] == [IntToString(y)];
    }
    SplitJoin(pieces, ',');
    NoSpaceInNumber(x);
    NoSpaceInNumber(y);
    ParseIntToString(x);
    ParseIntToString(y);
  }

  /** A written number has no whitespace at its ends, so `int` reads it
      as it is. */
  lemma NoSpaceInNumber(n: int)
    ensures Strip(IntToString(n)) == IntToString(n)
  {
    var s := IntToString(n);
    assert !IsSpace(s[0]);
    assert !IsSpace(s[|s| - 1]) by {
      if n < 0 {
        assert s[|s| - 1] == NatToString(-n)[|NatToString(-n)| - 1];
      }
    }
    assert TrimStart(s) == s;
    assert TrimEnd(s) == s;
  }
}
