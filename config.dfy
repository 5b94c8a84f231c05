/** The validated configuration of the maze package: the record and its
    checks, the construction from a key/value dictionary with defaults, and
    the reader of `KEY=VALUE` lines that fills that dictionary. The file's
    lines are the input; opening and reading the file is not modelled. */
module ConfigParser {
  import opened Wrappers
  import opened Text
  import opened Settings

  datatype MazeConfig = MazeConfig(
    width: int,
    height: int,
    entry: (int, int),
    exit: (int, int),
    outputFile: string,
    perfect: bool,
    seed: Option<int>,
    algo: string,
    display: bool)

  /** Why a line of the file is refused. */
  datatype LineProblem =
    | NoEquals
    | NotInteger(key: Key)
    | NotPair(key: Key)
    | NotBool(key: Key)
    | UnknownKey(name: string)

  /** The errors `parse_dict` and `parse_file` raise. */
  datatype ConfigError =
    | MissingKeys(keys: set<Key>)
    | WrongType(key: Key)
    | NonPositiveWidth
    | NonPositiveHeight
    | EntryOutOfBounds
    | ExitOutOfBounds
    | SameEntryExit
    | EmptyOutputFile
    | UnknownAlgo
    | LineError(line: nat, problem: LineProblem)

  datatype Parsed<T> = Ok(value: T) | Err(error: ConfigError)

  /** The algorithms a configuration may name. */
  const ValidAlgos: seq<string> := ["dfs", "binary_tree"]

  predicate InGrid(p: (int, int), width: int, height: int) {
    0 <= p.0 < width && 0 <= p.1 < height
  }

  /** Everything `_validate` demands of a configuration. */
  predicate Acceptable(c: MazeConfig) {
    c.width > 0 && c.height > 0 &&
    InGrid(c.entry, c.width, c.height) && InGrid(c.exit, c.width, c.height) &&
    c.entry != c.exit &&
    Strip(c.outputFile) != [] &&
    c.algo in ValidAlgos
  }

  /** The chain of guards of `_validate`: the first failing check names the
      error, and no error means the configuration is acceptable. */
  function Validate(c: MazeConfig): (r: Option<ConfigError>)
    ensures r.None? <==> Acceptable(c)
    ensures c.width <= 0 ==> r == Some(NonPositiveWidth)
    ensures c.width > 0 && c.height <= 0 ==> r == Some(NonPositiveHeight)
    ensures r == Some(SameEntryExit) ==>
      InGrid(c.entry, c.width, c.height) && InGrid(c.exit, c.width, c.height) && c.entry == c.exit
    ensures r == Some(UnknownAlgo) ==> c.algo !in ValidAlgos && Strip(c.outputFile) != []
  {
    if c.width <= 0 then Some(NonPositiveWidth)
    else if c.height <= 0 then Some(NonPositiveHeight)
    else if !InGrid(c.entry, c.width, c.height) then Some(EntryOutOfBounds)
    else if !InGrid(c.exit, c.width, c.height) then Some(ExitOutOfBounds)
    else if c.entry == c.exit then Some(SameEntryExit)
    else if c.outputFile == [] || Strip(c.outputFile) == [] then Some(EmptyOutputFile)
    else if c.algo !in ValidAlgos then Some(UnknownAlgo)
    else None
  }

  /** A whitespace-only output file name is refused like an empty one. */
  lemma BlankOutputFileRefused(c: MazeConfig)
    requires c.width > 0 && c.height > 0 && c.entry != c.exit
    requires InGrid(c.entry, c.width, c.height) && InGrid(c.exit, c.width, c.height)
    requires forall k :: 0 <= k < |c.outputFile| ==> IsSpace(c.outputFile[k])
    ensures Validate(c) == Some(EmptyOutputFile)
  {
    StripEmpty(c.outputFile);
  }

  const Fields: seq<Key> := [Width, Height, Entry, Exit, OutputFile, Perfect, Seed, Algo, Display]

  /** A key given with a value of the wrong kind. */
  predicate Mistyped(d: map<Key, Value>, k: Key) {
    k in d && !WellTyped(k, d[k])
  }

  /** The first field, in the order above, given with a value of the wrong
      kind. */
  function FirstMistyped(d: map<Key, Value>, i: nat): (r: Option<Key>)
    requires i <= |Fields|
    ensures r.None? <==> forall j :: i <= j < |Fields| ==> !Mistyped(d, Fields[j])
    ensures r.Some? ==> Mistyped(d, r.value)
    decreases |Fields| - i
  {
    if i == |Fields| then None
    else if Mistyped(d, Fields[i]) then Some(Fields[i])
    else FirstMistyped(d, i + 1)
  }

  lemma FieldsListed(k: Key)
    ensures k in Fields
  {
  }

  /** The record `parse_dict` builds from a dictionary that gives every
      required key a value of the right kind: seed None, algo "dfs" and
      display True stand for absent optional keys. */
  function Build(d: map<Key, Value>): (c: MazeConfig)
    requires Required <= d.Keys && forall k :: !Mistyped(d, k)
    ensures d[Width] == Int(c.width) && d[Height] == Int(c.height)
    ensures d[Entry] == Pair(c.entry.0, c.entry.1) && d[Exit] == Pair(c.exit.0, c.exit.1)
    ensures d[OutputFile] == Str(c.outputFile) && d[Perfect] == Bool(c.perfect)
    ensures if Seed in d then c.seed.Some? && d[Seed] == Int(c.seed.value) else c.seed == None
    ensures if Algo in d then d[Algo] == Str(c.algo) else c.algo == "dfs"
    ensures if Display in d then d[Display] == Bool(c.display) else c.display
  {
    assert Width in Required && Height in Required && Entry in Required;
    assert Exit in Required && OutputFile in Required && Perfect in Required;
    assert !Mistyped(d, Width) && !Mistyped(d, Height) && !Mistyped(d, Entry) && !Mistyped(d, Exit);
    assert !Mistyped(d, OutputFile) && !Mistyped(d, Perfect);
    assert !Mistyped(d, Seed) && !Mistyped(d, Algo) && !Mistyped(d, Display);
    MazeConfig(
      d[Width].i, d[Height].i,
      (d[Entry].x, d[Entry].y), (d[Exit].x, d[Exit].y),
      d[OutputFile].s, d[Perfect].b,
      if Seed in d then Some(d[Seed].i) else None,
      if Algo in d then d[Algo].s else "dfs",
      if Display in d then d[Display].b else true)
  }

  /** `parse_dict`: a missing-key error naming every absent required key;
      then the record, validated. A value of another kind than its key calls
      for is refused. */
  function ParseDict(d: map<Key, Value>): (r: Parsed<MazeConfig>)
    ensures (r.Err? && r.error.MissingKeys?) <==> !(Required <= d.Keys)
    ensures r.Err? && r.error.MissingKeys? ==> r.error.keys == Required - d.Keys && r.error.keys != {}
    ensures (r.Err? && r.error.WrongType?) ==> Mistyped(d, r.error.key)
    ensures r.Ok? ==> Required <= d.Keys && (forall k :: !Mistyped(d, k)) && r.value == Build(d)
    ensures r.Ok? <==> Required <= d.Keys && (forall k :: !Mistyped(d, k)) && Acceptable(Build(d))
  {
    var missing := Required - d.Keys;
    if missing != {} then
      Err(MissingKeys(missing))
    else
      assert Required <= d.Keys by {
        forall k | k in Required ensures k in d {
          assert k !in missing;
        }
      }
      match FirstMistyped(d, 0)
      case Some(k) => Err(WrongType(k))
      case None =>
        assert forall k :: !Mistyped(d, k) by {
          forall k ensures !Mistyped(d, k) {
            FieldsListed(k);
          }
        }
        var c := Build(d);
        match Validate(c)
        case Some(e) => Err(e)
        case None => Ok(c)
  }

  /** What one line of the file does to the dictionary. */
  datatype LineEffect = Skip | Set(key: Key, value: Value) | Fail(problem: LineProblem)

  /** A blank line or a `#` comment, once stripped. */
  predicate Ignored(line: string) {
    var t := Strip(line);
    t == [] || t[0] == '#'
  }

  /** `PERFECT` and `DISPLAY`: true/1/yes and false/0/no in any case. */
  function ReadFlag(v: string): (r: Option<bool>)
    ensures r == Some(true) <==> Lower(v) in ["true", "1", "yes"]
    ensures r == Some(false) <==> Lower(v) in ["false", "0", "no"]
  {
    var w := Lower(v);
    if w in ["true", "1", "yes"] then Some(true)
    else if w in ["false", "0", "no"] then Some(false)
    else None
  }

  lemma LowerUpperChar(ch: char)
    ensures LowerChar(UpperChar(ch)) == LowerChar(ch)
  {
  }

  /** The flag words are read whatever their case. */
  lemma ReadFlagIgnoresCase(v: string)
    ensures ReadFlag(Upper(v)) == ReadFlag(v)
  {
    assert Lower(Upper(v)) == Lower(v) by {
      forall i | 0 <= i < |v| ensures Lower(Upper(v))[i] == Lower(v)[i] {
        LowerUpperChar(v[i]);
      }
    }
  }

  /** The key an upper-cased name stands for. */
  function KeyNamed(name: string): Option<Key> {
    match name
    case "WIDTH" => Some(Width)
    case "HEIGHT" => Some(Height)
    case "ENTRY" => Some(Entry)
    case "EXIT" => Some(Exit)
    case "OUTPUT_FILE" => Some(OutputFile)
    case "PERFECT" => Some(Perfect)
    case "SEED" => Some(Seed)
    case "ALGO" => Some(Algo)
    case "DISPLAY" => Some(Display)
    case _ => None
  }

  /** The value of a key, as its branch of the reader converts it: integers,
      pairs, the file name as it is, flags, and the algorithm lower-cased. */
  function ReadValue(k: Key, value: string): (r: LineEffect)
    ensures r.Set? ==> r.key == k && WellTyped(k, r.value)
    ensures r.Fail? ==> !r.problem.UnknownKey? && !r.problem.NoEquals?
  {
    match k
    case Width | Height | Seed =>
      (match ReadInt(value)
       case Some(n) => Set(k, Int(n))
       case None => Fail(NotInteger(k)))
    case Entry | Exit =>
      (match ReadPair(value)
       case Some((x, y)) => Set(k, Pair(x, y))
       case None => Fail(NotPair(k)))
    case OutputFile => Set(k, Str(value))
    case Perfect | Display =>
      (match ReadFlag(value)
       case Some(b) => Set(k, Bool(b))
       case None => Fail(NotBool(k)))
    case Algo => Set(k, Str(Lower(value)))
  }

  /** The key and the value of a line holding `=`: split at the first `=`,
      the key stripped and upper-cased, the value stripped. */
  function KeyAndValue(t: string): (string, string)
    requires '=' in t
  {
    var (k, v) := SplitOnce(t, '=').value;
    (Upper(Strip(k)), Strip(v))
  }

  /** The effect of a key name and its value: an unknown name is refused. */
  function NamedSetting(name: string, value: string): (r: LineEffect)
    ensures !r.Skip? && r != Fail(NoEquals)
    ensures r.Set? ==> WellTyped(r.key, r.value)
  {
    var key := KeyNamed(name);
    if key.None? then Fail(UnknownKey(name)) else ReadValue(key.value, value)
  }

  /** The effect of a stripped line holding `=`. */
  function ReadSetting(t: string): (r: LineEffect)
    requires '=' in t
    ensures !r.Skip? && r != Fail(NoEquals)
    ensures r.Set? ==> WellTyped(r.key, r.value)
  {
    var kv := KeyAndValue(t);
    NamedSetting(kv.0, kv.1)
  }

  /** One line of `parse_file`. */
  function ParseLine(line: string): (r: LineEffect)
    ensures r.Skip? <==> Ignored(line)
    ensures r == Fail(NoEquals) <==> !Ignored(line) && '=' !in Strip(line)
    ensures r.Set? ==> WellTyped(r.key, r.value)
  {
    var t := Strip(line);
    if t == [] || t[0] == '#' then Skip
    else if '=' !in t then Fail(NoEquals)
    else ReadSetting(t)
  }

  /** What each line of a file does, in order. */
  function Effects(lines: seq<string>): (r: seq<LineEffect>)
    ensures |r| == |lines| && forall i :: 0 <= i < |lines| ==> r[i] == ParseLine(lines[i])
  {
    seq(|lines|, i requires 0 <= i < |lines| => ParseLine(lines[i]))
  }

  /** The dictionary after the effects of the lines, or the error of the
      first bad line, numbered from 1. */
  function Apply(effects: seq<LineEffect>): Parsed<map<Key, Value>>
    decreases |effects|
  {
    if effects == [] then Ok(map[])
    else
      match Apply(effects[..|effects| - 1])
      case Err(e) => Err(e)
      case Ok(d) =>
        match effects[|effects| - 1]
        case Skip => Ok(d)
        case Set(k, v) => Ok(d[k := v])
        case Fail(p) => Err(LineError(|effects|, p))
  }

  predicate SetsKey(e: LineEffect, key: Key) {
    e.Set? && e.key == key
  }

  /** The reading stops at the first bad line and reports it by number. */
  lemma {:induction false} FirstBadLine(effects: seq<LineEffect>)
    ensures Apply(effects).Err? <==> exists i :: 0 <= i < |effects| && effects[i].Fail?
    ensures Apply(effects).Err? ==>
      var e := Apply(effects).error;
      e.LineError? && 1 <= e.line <= |effects| && effects[e.line - 1] == Fail(e.problem) &&
      forall i :: 0 <= i < e.line - 1 ==> !effects[i].Fail?
    decreases |effects|
  {
    if effects != [] {
      var init := effects[..|effects| - 1];
      var last := effects[|effects| - 1];
      FirstBadLine(init);
      if Apply(init).Err? {
        var i :| 0 <= i < |init| && init[i].Fail?;
        assert effects[i] == init[i];
        var e := Apply(init).error;
        forall i | 0 <= i < e.line - 1 ensures !effects[i].Fail? {
          assert effects[i] == init[i];
        }
      } else if !last.Fail? {
        forall i | 0 <= i < |effects| ensures !effects[i].Fail? {
          if i < |init| {
            assert effects[i] == init[i];
          }
        }
      } else {
        forall i | 0 <= i < |effects| - 1 ensures !effects[i].Fail? {
          assert effects[i] == init[i];
        }
      }
    }
  }

  /** A key read from several lines keeps the value of the last of them. */
  lemma {:induction false} LastLineWins(effects: seq<LineEffect>, j: nat, key: Key, v: Value)
    requires Apply(effects).Ok? && j < |effects| && effects[j] == Set(key, v)
    requires forall i :: j < i < |effects| ==> !SetsKey(effects[i], key)
    ensures key in Apply(effects).value && Apply(effects).value[key] == v
    decreases |effects|
  {
    var init := effects[..|effects| - 1];
    if j < |effects| - 1 {
      assert init[j] == effects[j];
      forall i | j < i < |init| ensures !SetsKey(init[i], key) {
        assert init[i] == effects[i];
      }
      LastLineWins(init, j, key, v);
      assert !SetsKey(effects[|effects| - 1], key);
    }
  }

  /** Every key of the dictionary comes from some line, and every value has
      the kind its key calls for. */
  lemma {:induction false} CollectedKeys(effects: seq<LineEffect>)
    requires Apply(effects).Ok?
    requires forall i :: 0 <= i < |effects| && effects[i].Set? ==> WellTyped(effects[i].key, effects[i].value)
    ensures forall key :: key in Apply(effects).value ==>
      WellTyped(key, Apply(effects).value[key]) &&
      exists j :: 0 <= j < |effects| && SetsKey(effects[j], key)
    decreases |effects|
  {
    if effects != [] {
      var init := effects[..|effects| - 1];
      forall i | 0 <= i < |init| && init[i].Set? ensures WellTyped(init[i].key, init[i].value) {
        assert init[i] == effects[i];
      }
      CollectedKeys(init);
      var last := effects[|effects| - 1];
      forall key | key in Apply(effects).value
        ensures WellTyped(key, Apply(effects).value[key])
        ensures exists j :: 0 <= j < |effects| && SetsKey(effects[j], key)
      {
        if !SetsKey(last, key) {
          var j :| 0 <= j < |init| && SetsKey(init[j], key);
          assert init[j] == effects[j];
        }
      }
    }
  }

  /** A dictionary read from a file never holds a value of the wrong kind. */
  lemma FileNeverMistyped(lines: seq<string>)
    requires Apply(Effects(lines)).Ok?
    ensures !(ParseDict(Apply(Effects(lines)).value).Err? && ParseDict(Apply(Effects(lines)).value).error.WrongType?)
  {
    CollectedKeys(Effects(lines));
  }

  /** Once a line fails, the later lines do not matter. */
  lemma {:induction false} ErrorPropagates(effects: seq<LineEffect>, n: nat)
    requires n <= |effects| && Apply(effects[..n]).Err?
    ensures Apply(effects) == Apply(effects[..n])
    decreases |effects|
  {
    if n < |effects| {
      var init := effects[..|effects| - 1];
      assert init[..n] == effects[..n];
      ErrorPropagates(init, n);
    } else {
      assert effects[..n] == effects;
    }
  }

  /** `parse_file` over the lines of the file. */
  function ParseText(lines: seq<string>): Parsed<MazeConfig> {
    match Apply(Effects(lines))
    case Err(e) => Err(e)
    case Ok(d) => ParseDict(d)
  }

  /** The reading loop of `parse_file`: lines in order, skipping blanks and
      comments, stopping at the first bad line, then `parse_dict`. */
  method ParseFile(lines: seq<string>) returns (r: Parsed<MazeConfig>)
    ensures r == ParseText(lines)
  {
    ghost var effects := Effects(lines);
    var config: map<Key, Value> := map[];
    var n := 0;
    while n < |lines|
      invariant n <= |lines|
      invariant Apply(effects[..n]) == Ok(config)
    {
      assert effects[..n + 1][..n] == effects[..n];
      var line := Strip(lines[n]);
      n := n + 1;
      if line == [] || line[0] == '#' {
        continue;
      }
      if '=' !in line {
        ErrorPropagates(effects, n);
        return Err(LineError(n, NoEquals));
      }
      match ReadSetting(line)
      case Set(k, v) =>
        config := config[k := v];
      case Fail(p) =>
        ErrorPropagates(effects, n);
        return Err(LineError(n, p));
      case Skip =>
    }
    assert effects[..n] == effects;
    r := ParseDict(config);
  }
}
