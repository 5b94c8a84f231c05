/** The older configuration reader: `key=value` lines with lower-cased
    keys, six keys all required, every problem of every line collected, and
    an empty dictionary as soon as there is any problem. The file's lines
    are the input and the problems, which the reader prints, are returned
    beside the dictionary. */
module LegacyConfig {
  import opened Wrappers
  import opened Text
  import opened Settings

  /** A problem the reader reports, with the number of its line (from 1). */
  datatype Problem =
    | MissingEquals(line: nat)
    | UnknownKey(line: nat, name: string)
    | DuplicateKey(line: nat, key: Key)
    | NotPair(line: nat, key: Key)
    | NotInteger(line: nat, key: Key)
    | NotBool(line: nat, key: Key)
    | MissingKey(key: Key)

  /** A line before the dictionary is consulted: a known key comes with its
      value converted, or nothing when the text is not of the key's kind. */
  datatype Read = Blank | NoEquals | Unknown(name: string) | Known(key: Key, value: Option<Value>)

  /** The key a lower-cased name stands for; `seed`, `algo` and `display`
      are not keys of this reader. */
  function KeyNamed(name: string): (r: Option<Key>)
    ensures r.Some? ==> r.value in Required
  {
    match name
    case "width" => Some(Width)
    case "height" => Some(Height)
    case "entry" => Some(Entry)
    case "exit" => Some(Exit)
    case "output_file" => Some(OutputFile)
    case "perfect" => Some(Perfect)
    case _ => None
  }

  /** A stripped line with its `=`: the key stripped and lower-cased, the
      value stripped. */
  function SplitSetting(t: string): (string, string)
    requires '=' in t
  {
    var (k, v) := SplitOnce(t, '=').value;
    (Lower(Strip(k)), Strip(v))
  }

  /** What a stripped line with its `=` gives. */
  function ReadSetting(t: string): Read
    requires '=' in t
  {
    var (name, v) := SplitSetting(t);
    match KeyNamed(name)
    case None => Unknown(name)
    case Some(key) => Known(key, Convert(key, v))
  }

  /** What a line is, before duplicates and values are looked at. */
  function ReadLine(line: string): (r: Read)
    ensures WellRead(r)
    ensures r.Blank? <==> (Strip(line) == [] || Strip(line)[0] == '#')
    ensures r.NoEquals? <==> !r.Blank? && '=' !in Strip(line)
  {
    var t := Strip(line);
    if t == [] || t[0] == '#' then Blank
    else if '=' !in t then NoEquals
    else ReadSetting(t)
  }

  /** Only the words true and false, in any case. */
  function ReadFlag(v: string): Option<bool> {
    var w := Lower(v);
    if w == "true" then Some(true)
    else if w == "false" then Some(false)
    else None
  }

  /** An `int,int` pair as a value. */
  function PairValue(text: string): (r: Option<Value>)
    ensures r.Some? ==> r.value.Pair?
  {
    var p := ReadPair(text);
    if p.Some? then Some(Pair(p.value.0, p.value.1)) else None
  }

  /** An integer as a value. */
  function IntValue(text: string): (r: Option<Value>)
    ensures r.Some? ==> r.value.Int?
  {
    var i := ReadInt(text);
    if i.Some? then Some(Int(i.value)) else None
  }

  /** A flag as a value. */
  function FlagValue(text: string): (r: Option<Value>)
    ensures r.Some? ==> r.value.Bool?
  {
    var b := ReadFlag(text);
    if b.Some? then Some(Bool(b.value)) else None
  }

  /** The value of a key from its text: `int,int` pairs, integers, the
      words true and false, and strings as they are. */
  function Convert(key: Key, text: string): (r: Option<Value>)
    ensures r.Some? ==> WellTyped(key, r.value)
  {
    match key
    case Entry | Exit => PairValue(text)
    case Width | Height | Seed => IntValue(text)
    case Perfect | Display => FlagValue(text)
    case OutputFile | Algo => Some(Str(text))
  }

  /** The problem of line `n` when its text is not of the key's kind. */
  function BadValue(key: Key, n: nat): Problem {
    match key
    case Entry | Exit => NotPair(n, key)
    case Width | Height | Seed => NotInteger(n, key)
    case _ => NotBool(n, key)
  }

  /** A known key is one of the six and its value is of the key's kind. */
  predicate WellRead(r: Read) {
    r.Known? ==> r.key in Required && (r.value.Some? ==> WellTyped(r.key, r.value.value))
  }

  /** A line that would give `key` a value if the key were new. */
  predicate Good(r: Read, key: Key) {
    r.Known? && r.key == key && r.value.Some?
  }

  /** The dictionary and the problems after the lines read so far. */
  datatype Scan = Scan(config: map<Key, Value>, problems: seq<Problem>)

  /** One line: unknown keys and lines without `=` are problems, a key
      already in the dictionary is a duplicate, whatever its value, and
      otherwise the converted value is stored or its problem recorded. */
  function StepLine(s: Scan, r: Read, n: nat): Scan {
    match r
    case Blank => s
    case NoEquals => Scan(s.config, s.problems + [MissingEquals(n)])
    case Unknown(name) => Scan(s.config, s.problems + [UnknownKey(n, name)])
    case Known(key, value) =>
      if key in s.config then Scan(s.config, s.problems + [DuplicateKey(n, key)])
      else
        match value
        case Some(v) => Scan(s.config[key := v], s.problems)
        case None => Scan(s.config, s.problems + [BadValue(key, n)])
  }

  /** The lines read in order; line `i` of `lineReads` is line `i + 1` of the
      file. */
  function ScanAll(lineReads: seq<Read>): Scan
    decreases |lineReads|
  {
    if lineReads == [] then Scan(map[], [])
    else StepLine(ScanAll(lineReads[..|lineReads| - 1]), lineReads[|lineReads| - 1], |lineReads|)
  }

  /** The required keys in the order the check for missing ones visits. */
  const RequiredOrder: seq<Key> := [Width, Height, Entry, Exit, OutputFile, Perfect]

  /** One problem per required key absent from `config`, in order. */
  function Missing(config: map<Key, Value>, keys: seq<Key>): (r: seq<Problem>)
    ensures r == [] <==> forall i :: 0 <= i < |keys| ==> keys[i] in config
    decreases |keys|
  {
    if keys == [] then []
    else (if keys[0] in config then [] else [MissingKey(keys[0])]) + Missing(config, keys[1..])
  }

  function Reads(lines: seq<string>): (r: seq<Read>)
    ensures |r| == |lines| && forall i :: 0 <= i < |lines| ==> r[i] == ReadLine(lines[i])
  {
    seq(|lines|, i requires 0 <= i < |lines| => ReadLine(lines[i]))
  }

  /** What `parser` returns for the lines, with the problems it prints. */
  function Parse(lines: seq<string>): (map<Key, Value>, seq<Problem>) {
    var s := ScanAll(Reads(lines));
    var problems := s.problems + Missing(s.config, RequiredOrder);
    (if problems == [] then s.config else map[], problems)
  }

  /** The first line that gives `key` a good value, if any. */
  function FirstGood(lineReads: seq<Read>, key: Key): (r: Option<nat>)
    ensures r.Some? ==>
      r.value < |lineReads| && Good(lineReads[r.value], key) &&
      forall i :: 0 <= i < r.value ==> !Good(lineReads[i], key)
    ensures r.None? ==> forall i :: 0 <= i < |lineReads| ==> !Good(lineReads[i], key)
    decreases |lineReads|
  {
    if lineReads == [] then None
    else if Good(lineReads[0], key) then Some(0)
    else match FirstGood(lineReads[1..], key)
      case None => None
      case Some(i) => Some(i + 1)
  }

  /** A key is in the dictionary exactly when some line gives it a good
      value, and it keeps the value of the first such line: later lines
      with the key are duplicates. */
  lemma {:induction false} FirstValueKept(lineReads: seq<Read>, key: Key)
    ensures var s := ScanAll(lineReads);
      (key in s.config <==> FirstGood(lineReads, key).Some?) &&
      (key in s.config ==>
        var j := FirstGood(lineReads, key).value;
        s.config[key] == lineReads[j].value.value)
    decreases |lineReads|
  {
    if lineReads != [] {
      var init := lineReads[..|lineReads| - 1];
      var last := lineReads[|lineReads| - 1];
      FirstValueKept(init, key);
      FirstGoodPrefix(lineReads, key);
    }
  }

  /** The first good line of a sequence is that of its prefix, or the last
      line when the prefix has none. */
  lemma FirstGoodPrefix(lineReads: seq<Read>, key: Key)
    requires lineReads != []
    ensures var init := lineReads[..|lineReads| - 1];
      FirstGood(lineReads, key) ==
        if FirstGood(init, key).Some? then FirstGood(init, key)
        else if Good(lineReads[|lineReads| - 1], key) then Some(|lineReads| - 1)
        else None
  {
    var init := lineReads[..|lineReads| - 1];
    var f, g := FirstGood(lineReads, key), FirstGood(init, key);
    assert forall i :: 0 <= i < |init| ==> init[i] == lineReads[i];
    if g.Some? {
      assert Good(lineReads[g.value], key);
      assert f.Some?;
    }
  }

  /** The dictionary's keys all come with values of the right kind. */
  lemma {:induction false} ScanTyped(lineReads: seq<Read>)
    requires forall i :: 0 <= i < |lineReads| ==> WellRead(lineReads[i])
    ensures forall k :: k in ScanAll(lineReads).config ==> k in Required && WellTyped(k, ScanAll(lineReads).config[k])
    decreases |lineReads|
  {
    if lineReads != [] {
      ScanTyped(lineReads[..|lineReads| - 1]);
    }
  }

  /** Problems are only ever added. */
  lemma {:induction false} ProblemsGrow(lineReads: seq<Read>, n: nat)
    requires n <= |lineReads|
    ensures ScanAll(lineReads[..n]).problems <= ScanAll(lineReads).problems
    decreases |lineReads|
  {
    if n < |lineReads| {
      var init := lineReads[..|lineReads| - 1];
      assert init[..n] == lineReads[..n];
      ProblemsGrow(init, n);
    } else {
      assert lineReads[..n] == lineReads;
    }
  }

  /** Once a line has given `key` a value, every later line naming `key`
      leaves a duplicate problem with its own number. */
  lemma DuplicateRecorded(lineReads: seq<Read>, i: nat, j: nat, key: Key)
    requires i < j < |lineReads| && Good(lineReads[i], key)
    requires lineReads[j].Known? && lineReads[j].key == key
    ensures DuplicateKey(j + 1, key) in ScanAll(lineReads).problems
  {
    var pre := lineReads[..j];
    assert pre[i] == lineReads[i];
    FirstValueKept(pre, key);
    assert key in ScanAll(pre).config;
    var upto := lineReads[..j + 1];
    assert upto[..j] == pre && upto[j] == lineReads[j];
    assert ScanAll(upto).problems == ScanAll(pre).problems + [DuplicateKey(j + 1, key)];
    ProblemsGrow(lineReads, j + 1);
  }

  /** A key named again after a line gave it a value makes the reader fail:
      the dictionary comes back empty. */
  lemma RepeatedKeyRefused(lines: seq<string>, i: nat, j: nat, key: Key)
    requires i < j < |lines| && Good(ReadLine(lines[i]), key)
    requires ReadLine(lines[j]).Known? && ReadLine(lines[j]).key == key
    ensures Parse(lines).0 == map[] && DuplicateKey(j + 1, key) in Parse(lines).1
  {
    DuplicateRecorded(Reads(lines), i, j, key);
  }

  /** With no problem at all the dictionary holds exactly the six keys,
      each with a value of its kind; with any problem it is empty. */
  lemma ParseOutcome(lines: seq<string>)
    ensures Parse(lines).1 != [] ==> Parse(lines).0 == map[]
    ensures Parse(lines).1 == [] ==>
      Parse(lines).0.Keys == Required && forall k :: k in Parse(lines).0 ==> WellTyped(k, Parse(lines).0[k])
  {
    var lineReads := Reads(lines);
    var s := ScanAll(lineReads);
    ScanTyped(lineReads);
    if s.problems + Missing(s.config, RequiredOrder) == [] {
      AllRequiredPresent(s.config);
    }
  }

  /** No missing-key problem means every required key is present. */
  lemma AllRequiredPresent(config: map<Key, Value>)
    requires Missing(config, RequiredOrder) == []
    ensures Required <= config.Keys
  {
    forall k | k in Required ensures k in config {
      assert k == RequiredOrder[0] || k == RequiredOrder[1] || k == RequiredOrder[2] ||
             k == RequiredOrder[3] || k == RequiredOrder[4] || k == RequiredOrder[5];
    }
  }

  /** One pass of the loop of `parser`: the line numbered `lineno`. */
  method ParseLine(config: map<Key, Value>, errors: seq<Problem>, line: string, lineno: nat)
    returns (config': map<Key, Value>, errors': seq<Problem>)
    ensures Scan(config', errors') == StepLine(Scan(config, errors), ReadLine(line), lineno)
  {
    ghost var read := ReadLine(line);
    config', errors' := config, errors;
    var raw := Strip(line);
    if raw == [] || raw[0] == '#' {
      assert read == Blank;
      return;
    }
    if '=' !in raw {
      assert read == NoEquals;
      errors' := errors + [MissingEquals(lineno)];
      return;
    }
    var (name, text) := SplitSetting(raw);
    assert read == ReadSetting(raw);
    var known := KeyNamed(name);
    if known.None? {
      assert read == Unknown(name);
      errors' := errors + [UnknownKey(lineno, name)];
      return;
    }
    var key := known.value;
    assert read == Known(key, Convert(key, text));
    if key in config {
      errors' := errors + [DuplicateKey(lineno, key)];
      return;
    }
    match Convert(key, text)
    case Some(v) =>
      config' := config[key := v];
    case None =>
      errors' := errors + [BadValue(key, lineno)];
  }

  /** The loop of `parser` over the lines. */
  method ScanLines(lines: seq<string>) returns (config: map<Key, Value>, errors: seq<Problem>)
    ensures Scan(config, errors) == ScanAll(Reads(lines))
  {
    ghost var lineReads := Reads(lines);
    config := map[];
    errors := [];
    var lineno := 0;
    while lineno < |lines|
      invariant lineno <= |lines|
      invariant ScanAll(lineReads[..lineno]) == Scan(config, errors)
    {
      assert lineReads[..lineno + 1][..lineno] == lineReads[..lineno];
      config, errors := ParseLine(config, errors, lines[lineno], lineno + 1);
      lineno := lineno + 1;
    }
    assert lineReads[..lineno] == lineReads;
  }

  /** The checks for missing keys after the loop of `parser`. */
  method AddMissing(config: map<Key, Value>, errors: seq<Problem>) returns (errors': seq<Problem>)
    ensures errors' == errors + Missing(config, RequiredOrder)
  {
    errors' := errors;
    var i := 0;
    while i < |RequiredOrder|
      invariant i <= |RequiredOrder|
      invariant errors' == errors + Missing(config, RequiredOrder[..i])
    {
      MissingPrefix(config, RequiredOrder, i);
      if RequiredOrder[i] !in config {
        errors' := errors' + [MissingKey(RequiredOrder[i])];
      }
      i := i + 1;
    }
    assert RequiredOrder[..i] == RequiredOrder;
  }

  /** The loop of `parser` over the lines, then the missing-key checks. */
  method Parser(lines: seq<string>) returns (config: map<Key, Value>, errors: seq<Problem>)
    ensures (config, errors) == Parse(lines)
  {
    config, errors := ScanLines(lines);
    errors := AddMissing(config, errors);
    if errors != [] {
      config := map[];
    }
  }

  lemma MissingPrefix(config: map<Key, Value>, keys: seq<Key>, i: nat)
    requires i < |keys|
    ensures Missing(config, keys[..i + 1]) == Missing(config, keys[..i]) + (if keys[i] in config then [] else [MissingKey(keys[i])])
  {
    assert keys[..i + 1] == keys[..i] + [keys[i]];
    MissingSplit(config, keys[..i], keys[i]);
  }

  lemma {:induction false} MissingSplit(config: map<Key, Value>, keys: seq<Key>, k: Key)
    ensures Missing(config, keys + [k]) == Missing(config, keys) + (if k in config then [] else [MissingKey(k)])
    decreases |keys|
  {
    if keys != [] {
      assert (keys + [k])[1..] == keys[1..] + [k];
      MissingSplit(config, keys[1..], k);
    }
  }
}
