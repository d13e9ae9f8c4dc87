/** The configuration store: a key/value map filled from the command line
    (later values replace earlier ones) and from `key = value` resource
    lines (which never replace a value already present), plus the
    arguments that are not options. */
module Param {
  import opened Common

  /** One entry of the option table: a long name and a one-letter alias. */
  datatype OptionDef = OptionDef(name: string, shortName: char)

  /** The state an argument scan ends in. */
  datatype Parsed = Parsed(ok: bool, conf: map<string, string>, rest: seq<string>)

  /** The state a resource-line scan ends in. */
  datatype Loaded = Loaded(ok: bool, conf: map<string, string>)

  /** What one resource line says. `EmptyKey` is a line whose `=` is its
      first character, for which the key trimming would index before the
      line. */
  datatype LineKind = Ignored | Entry(key: string, value: string) | MissingEquals | EmptyKey

  /** The value stored under `key`, or `def` when the key is absent. */
  function Get(conf: map<string, string>, key: string, def: string): string {
    if key in conf then conf[key] else def
  }

  /** Option names and arguments are C strings. */
  predicate CStrings(argv: seq<string>, opts: seq<OptionDef>) {
    (forall a :: a in argv ==> '\0' !in a) && (forall o :: o in opts ==> '\0' !in o.name)
  }

  // ---------------------------------------------------------------------
  // Command line

  /** `typed` is a prefix of `name`: `strncmp(typed, name, |typed|) == 0`
      for a `typed` without NUL. */
  predicate IsPrefix(typed: string, name: string) {
    |typed| <= |name| && name[..|typed|] == typed
  }

  /** The end of the option name that starts at `i`: the first `=`, or the
      end of the argument. */
  function NameEnd(a: string, i: nat): (r: nat)
    requires i <= |a|
    ensures i <= r <= |a|
    ensures '=' !in a[i..r]
    ensures r < |a| ==> a[r] == '='
    decreases |a| - i
  {
    if i == |a| || a[i] == '=' then i else NameEnd(a, i + 1)
  }

  /** The first table entry at or after `i` whose long name starts with
      `typed`. */
  function FindLong(opts: seq<OptionDef>, typed: string, i: nat): (r: Option<nat>)
    requires i <= |opts|
    ensures r.Some? ==> i <= r.value < |opts| && IsPrefix(typed, opts[r.value].name)
    ensures r.Some? ==> forall j :: i <= j < r.value ==> !IsPrefix(typed, opts[j].name)
    ensures r.None? ==> forall j :: i <= j < |opts| ==> !IsPrefix(typed, opts[j].name)
    decreases |opts| - i
  {
    if i == |opts| then None
    else if IsPrefix(typed, opts[i].name) then Some(i)
    else FindLong(opts, typed, i + 1)
  }

  /** The first table entry at or after `i` whose alias is `c`. */
  function FindShort(opts: seq<OptionDef>, c: char, i: nat): (r: Option<nat>)
    requires i <= |opts|
    ensures r.Some? ==> i <= r.value < |opts| && opts[r.value].shortName == c
    ensures r.Some? ==> forall j :: i <= j < r.value ==> opts[j].shortName != c
    ensures r.None? ==> forall j :: i <= j < |opts| ==> opts[j].shortName != c
    decreases |opts| - i
  {
    if i == |opts| then None
    else if opts[i].shortName == c then Some(i)
    else FindShort(opts, c, i + 1)
  }

  /** The scan of `argv[ind..]` from the state `conf`, `rest`. `argv[0]` is
      the program name and is never scanned. */
  function ParseFrom(argv: seq<string>, opts: seq<OptionDef>, ind: nat,
                     conf: map<string, string>, rest: seq<string>): Parsed
    decreases |argv| - ind
  {
    if ind >= |argv| then Parsed(true, conf, rest)
    else
      var a := argv[ind];
      if CharAt(a, 0) != '-' then ParseFrom(argv, opts, ind + 1, conf, rest + [a])
      else if CharAt(a, 1) == '-' then
        var s := NameEnd(a, 2);
        if s == 2 then Parsed(true, conf, rest)
        else match FindLong(opts, a[2..s], 0)
          case None => Parsed(false, conf, rest)
          case Some(i) =>
            if s < |a| then ParseFrom(argv, opts, ind + 1, conf[opts[i].name := a[s + 1..]], rest)
            else if ind + 1 < |argv| then ParseFrom(argv, opts, ind + 2, conf[opts[i].name := argv[ind + 1]], rest)
            else Parsed(false, conf, rest)
      else if CharAt(a, 1) != '\0' then
        match FindShort(opts, a[1], 0)
        case None => Parsed(false, conf, rest)
        case Some(i) =>
          if |a| > 2 then ParseFrom(argv, opts, ind + 1, conf[opts[i].name := a[2..]], rest)
          else if ind + 1 < |argv| then ParseFrom(argv, opts, ind + 2, conf[opts[i].name := argv[ind + 1]], rest)
          else Parsed(false, conf, rest)
      else ParseFrom(argv, opts, ind + 1, conf, rest)
  }

  // ---------------------------------------------------------------------
  // Resource lines

  /** The index of the first `=` at or after `i`, or `|line|`. */
  function EqualsAt(line: string, i: nat): (r: nat)
    requires i <= |line|
    ensures i <= r <= |line|
    ensures '=' !in line[i..r]
    ensures r < |line| ==> line[r] == '='
    decreases |line| - i
  {
    if i == |line| || line[i] == '=' then i else EqualsAt(line, i + 1)
  }

  /** The last index of the key: trailing white space is stepped over, but
      never index 0. */
  function KeyLast(line: string, s: nat): (r: nat)
    requires s < |line|
    ensures r <= s
    ensures r > 0 ==> !IsSpace(line[r])
    ensures forall j :: r < j <= s ==> IsSpace(line[j])
    decreases s
  {
    if s > 0 && IsSpace(line[s]) then KeyLast(line, s - 1) else s
  }

  /** The first index of the value: leading white space is stepped over. */
  function ValueStart(line: string, s: nat): (r: nat)
    requires s <= |line|
    ensures s <= r <= |line|
    ensures r < |line| ==> !IsSpace(line[r])
    ensures forall j :: s <= j < r ==> IsSpace(line[j])
    decreases |line| - s
  {
    if s < |line| && IsSpace(line[s]) then ValueStart(line, s + 1) else s
  }

  /** A resource line: empty lines and lines starting with `#` or `;` are
      ignored; otherwise the text before the first `=`, without trailing
      white space, is the key, and the text after it, without leading white
      space, is the value. */
  function ParseLine(line: string): (r: LineKind)
    ensures r.Ignored? <==> line == [] || line[0] == '#' || line[0] == ';'
    ensures r.MissingEquals? <==> !r.Ignored? && '=' !in line
    ensures r.EmptyKey? <==> !r.Ignored? && line[0] == '='
    ensures r.Entry? ==>
      && 0 < |r.key| <= EqualsAt(line, 0) < |line|
      && r.key == line[..|r.key|] && '=' !in r.key
      && (|r.key| > 1 ==> !IsSpace(r.key[|r.key| - 1]))
      && (forall j :: |r.key| <= j < EqualsAt(line, 0) ==> IsSpace(line[j]))
      && EqualsAt(line, 0) < |line| - |r.value|
      && r.value == line[|line| - |r.value|..]
      && (|r.value| > 0 ==> !IsSpace(r.value[0]))
      && (forall j :: EqualsAt(line, 0) < j < |line| - |r.value| ==> IsSpace(line[j]))
  {
    if line == [] || line[0] == '#' || line[0] == ';' then Ignored
    else
      var pos := EqualsAt(line, 0);
      if pos == |line| then MissingEquals
      else if pos == 0 then EmptyKey
      else Entry(line[..KeyLast(line, pos - 1) + 1], line[ValueStart(line, pos + 1)..])
  }

  /** The resource lines read into `conf`; a key already present keeps its
      value. Stops at the first malformed line. */
  function LoadLines(lines: seq<string>, conf: map<string, string>): Loaded
    decreases |lines|
  {
    if lines == [] then Loaded(true, conf)
    else match ParseLine(lines[0])
      case Ignored => LoadLines(lines[1..], conf)
      case Entry(k, v) => LoadLines(lines[1..], if k in conf then conf else conf[k := v])
      case _ => Loaded(false, conf)
  }

  // ---------------------------------------------------------------------
  // The store

  class Param {
    var conf: map<string, string>
    var rest: seq<string>

    constructor ()
      ensures conf == map[] && rest == []
    {
      conf := map[];
      rest := [];
    }

    /** Stores `val` under `key`, replacing any earlier value. */
    method Set(key: string, val: string)
      modifies this
      ensures conf == old(conf)[key := val] && rest == old(rest)
    {
      conf := conf[key := val];
    }

    /** Scans the command line. */
    method Open(argv: seq<string>, opts: seq<OptionDef>) returns (ok: bool)
      requires CStrings(argv, opts)
      modifies this
      ensures |argv| == 0 ==> ok && conf == old(conf) && rest == old(rest)
      ensures |argv| > 0 ==> Parsed(ok, conf, rest) == ParseFrom(argv, opts, 1, old(conf), old(rest))
    {
      if |argv| == 0 {
        return true;
      }
      var ind := 1;
      while ind < |argv|
        invariant 1 <= ind
        invariant ParseFrom(argv, opts, 1, old(conf), old(rest)) == ParseFrom(argv, opts, ind, conf, rest)
        decreases |argv| - ind
      {
        var a := argv[ind];
        assert a in argv;
        if CharAt(a, 0) == '-' {
          if CharAt(a, 1) == '-' {
            var s := ScanName(a);
            if s == 2 {
              return true;
            }
            var hit := FindLongOption(opts, a[2..s]);
            if hit.None? {
              return false;
            }
            var i := hit.value;
            if CharAt(a, s) == '=' {
              Set(opts[i].name, a[s + 1..]);
            } else if |argv| > ind + 1 {
              ind := ind + 1;
              Set(opts[i].name, argv[ind]);
            } else {
              return false;
            }
          } else if CharAt(a, 1) != '\0' {
            var hit := FindShortOption(opts, a[1]);
            if hit.None? {
              return false;
            }
            var i := hit.value;
            assert CharAt(a, 2) != '\0' <==> |a| > 2 by {
              if |a| > 2 {
                assert a[2] in a;
              }
            }
            if CharAt(a, 2) != '\0' {
              Set(opts[i].name, a[2..]);
            } else if |argv| > ind + 1 {
              ind := ind + 1;
              Set(opts[i].name, argv[ind]);
            } else {
              return false;
            }
          }
        } else {
          rest := rest + [a];
        }
        ind := ind + 1;
      }
      return true;
    }

    /** Reads resource lines; the file itself is opened by the caller. */
    method Load(lines: seq<string>) returns (ok: bool)
      modifies this
      ensures Loaded(ok, conf) == LoadLines(lines, old(conf)) && rest == old(rest)
    {
      var k := 0;
      while k < |lines|
        invariant k <= |lines|
        invariant LoadLines(lines, old(conf)) == LoadLines(lines[k..], conf) && rest == old(rest)
      {
        assert lines[k..][1..] == lines[k + 1..];
        var line := lines[k];
        var kind := SplitLine(line);
        match kind {
          case Ignored =>
          case Entry(key, val) =>
            if key !in conf {
              conf := conf[key := val];
            }
          case _ =>
            return false;
        }
        k := k + 1;
      }
      return true;
    }
  }

  // ---------------------------------------------------------------------
  // The scans the source runs as loops

  /** Steps over the option name after `--`. */
  method ScanName(a: string) returns (s: nat)
    requires 2 <= |a|
    ensures s == NameEnd(a, 2)
  {
    s := 2;
    while s < |a| && a[s] != '='
      invariant 2 <= s <= |a|
      invariant NameEnd(a, 2) == NameEnd(a, s)
    {
      s := s + 1;
    }
  }

  method FindLongOption(opts: seq<OptionDef>, typed: string) returns (r: Option<nat>)
    ensures r == FindLong(opts, typed, 0)
  {
    for i := 0 to |opts|
      invariant FindLong(opts, typed, 0) == FindLong(opts, typed, i)
    {
      if |typed| <= |opts[i].name| && opts[i].name[..|typed|] == typed {
        return Some(i);
      }
    }
    return None;
  }

  method FindShortOption(opts: seq<OptionDef>, c: char) returns (r: Option<nat>)
    ensures r == FindShort(opts, c, 0)
  {
    for i := 0 to |opts|
      invariant FindShort(opts, c, 0) == FindShort(opts, c, i)
    {
      if opts[i].shortName == c {
        return Some(i);
      }
    }
    return None;
  }

  /** Classifies one resource line and trims its key and value. */
  method SplitLine(line: string) returns (r: LineKind)
    ensures r == ParseLine(line)
  {
    if line == [] || line[0] == '#' || line[0] == ';' {
      return Ignored;
    }
    var pos := FindEquals(line);
    if pos == |line| {
      return MissingEquals;
    }
    if pos == 0 {
      return EmptyKey;
    }
    var last := TrimKey(line, pos - 1);
    var start := SkipValueSpace(line, pos + 1);
    return Entry(line[..last + 1], line[start..]);
  }

  /** The scan for the first `=`. */
  method FindEquals(line: string) returns (pos: nat)
    ensures pos == EqualsAt(line, 0)
  {
    pos := 0;
    while pos < |line| && line[pos] != '='
      invariant pos <= |line|
      invariant EqualsAt(line, 0) == EqualsAt(line, pos)
    {
      pos := pos + 1;
    }
  }

  /** The backward scan over the white space ending the key. */
  method TrimKey(line: string, last: nat) returns (s: nat)
    requires last < |line|
    ensures s == KeyLast(line, last)
  {
    s := last;
    while s > 0 && IsSpace(line[s])
      invariant s <= last
      invariant KeyLast(line, last) == KeyLast(line, s)
    {
      s := s - 1;
    }
  }

  /** The forward scan over the white space starting the value. */
  method SkipValueSpace(line: string, first: nat) returns (s: nat)
    requires first <= |line|
    ensures s == ValueStart(line, first)
  {
    s := first;
    while s < |line| && IsSpace(line[s])
      invariant first <= s <= |line|
      invariant ValueStart(line, first) == ValueStart(line, s)
    {
      s := s + 1;
    }
  }

  // ---------------------------------------------------------------------
  // Properties

  /** Arguments that do not start with `-` are appended to the rest list
      in order, and the scan succeeds. */
  lemma {:induction false} PlainArgumentsGoToRest(argv: seq<string>, opts: seq<OptionDef>, ind: nat,
                                                  conf: map<string, string>, rest: seq<string>)
    requires ind <= |argv|
    requires forall j :: ind <= j < |argv| ==> CharAt(argv[j], 0) != '-'
    ensures ParseFrom(argv, opts, ind, conf, rest) == Parsed(true, conf, rest + argv[ind..])
    decreases |argv| - ind
  {
    if ind < |argv| {
      PlainArgumentsGoToRest(argv, opts, ind + 1, conf, rest + [argv[ind]]);
      assert rest + [argv[ind]] + argv[ind + 1..] == rest + argv[ind..];
    }
  }

  /** A bare `--` ends the scan successfully; the arguments after it are
      neither options nor rest arguments. */
  lemma {:induction false} DoubleDashStops(argv: seq<string>, opts: seq<OptionDef>, ind: nat,
                                           conf: map<string, string>, rest: seq<string>, stop: nat)
    requires ind <= stop < |argv| && argv[stop] == "--"
    requires forall j :: ind <= j < stop ==> CharAt(argv[j], 0) != '-'
    ensures ParseFrom(argv, opts, ind, conf, rest) == Parsed(true, conf, rest + argv[ind..stop])
    decreases stop - ind
  {
    if ind < stop {
      DoubleDashStops(argv, opts, ind + 1, conf, rest + [argv[ind]], stop);
      assert rest + [argv[ind]] + argv[ind + 1..stop] == rest + argv[ind..stop];
    } else {
      assert NameEnd(argv[stop], 2) == 2;
    }
  }

  /** A lone `-` is neither an option nor a rest argument. */
  lemma LoneDashSkipped(argv: seq<string>, opts: seq<OptionDef>, ind: nat,
                        conf: map<string, string>, rest: seq<string>)
    requires ind < |argv| && argv[ind] == "-"
    ensures ParseFrom(argv, opts, ind, conf, rest) == ParseFrom(argv, opts, ind + 1, conf, rest)
  {
  }

  /** `--name=value`: the first table entry the typed name is a prefix of
      receives the text after `=`. */
  lemma LongOptionWithValue(argv: seq<string>, opts: seq<OptionDef>, ind: nat,
                            conf: map<string, string>, rest: seq<string>, typed: string, val: string)
    requires ind < |argv| && argv[ind] == "--" + typed + "=" + val
    requires typed != [] && '=' !in typed
    ensures FindLong(opts, typed, 0).None? ==> ParseFrom(argv, opts, ind, conf, rest) == Parsed(false, conf, rest)
    ensures FindLong(opts, typed, 0).Some? ==>
      ParseFrom(argv, opts, ind, conf, rest) ==
      ParseFrom(argv, opts, ind + 1, conf[opts[FindLong(opts, typed, 0).value].name := val], rest)
  {
    var a := argv[ind];
    NameEndAfter(a, 2, |typed| + 2);
    assert a[2..|typed| + 2] == typed;
    assert a[|typed| + 3..] == val;
  }

  /** `--name value`: the next argument is the value; with no next
      argument the scan fails. */
  lemma LongOptionWithNextArgument(argv: seq<string>, opts: seq<OptionDef>, ind: nat,
                                   conf: map<string, string>, rest: seq<string>, typed: string)
    requires ind < |argv| && argv[ind] == "--" + typed
    requires typed != [] && '=' !in typed
    requires FindLong(opts, typed, 0).Some?
    ensures ind + 1 < |argv| ==>
      ParseFrom(argv, opts, ind, conf, rest) ==
      ParseFrom(argv, opts, ind + 2, conf[opts[FindLong(opts, typed, 0).value].name := argv[ind + 1]], rest)
    ensures ind + 1 == |argv| ==> ParseFrom(argv, opts, ind, conf, rest) == Parsed(false, conf, rest)
  {
    var a := argv[ind];
    NameEndAfter(a, 2, |a|);
    assert a[2..|a|] == typed;
  }

  /** `-xvalue` and `-x value`: the entry with alias `x` receives the
      attached text, or else the next argument. */
  lemma ShortOption(argv: seq<string>, opts: seq<OptionDef>, ind: nat,
                    conf: map<string, string>, rest: seq<string>, c: char, val: string)
    requires ind < |argv| && argv[ind] == ['-', c] + val
    requires c != '-' && c != '\0'
    requires FindShort(opts, c, 0).Some?
    ensures val != [] ==>
      ParseFrom(argv, opts, ind, conf, rest) ==
      ParseFrom(argv, opts, ind + 1, conf[opts[FindShort(opts, c, 0).value].name := val], rest)
    ensures val == [] && ind + 1 < |argv| ==>
      ParseFrom(argv, opts, ind, conf, rest) ==
      ParseFrom(argv, opts, ind + 2, conf[opts[FindShort(opts, c, 0).value].name := argv[ind + 1]], rest)
    ensures val == [] && ind + 1 == |argv| ==> ParseFrom(argv, opts, ind, conf, rest) == Parsed(false, conf, rest)
  {
    assert argv[ind][2..] == val;
  }

  lemma {:induction false} NameEndAfter(a: string, i: nat, e: nat)
    requires i <= e <= |a| && '=' !in a[i..e] && (e < |a| ==> a[e] == '=')
    ensures NameEnd(a, i) == e
    decreases e - i
  {
    if i < e {
      assert a[i] in a[i..e];
      assert a[i + 1..e] == a[i..e][1..];
      NameEndAfter(a, i + 1, e);
    }
  }

  /** Every key a scan adds is the long name of a table entry. */
  lemma {:induction false} ParsedKeysAreOptionNames(argv: seq<string>, opts: seq<OptionDef>, ind: nat,
                                                    conf: map<string, string>, rest: seq<string>)
    ensures forall k :: k in ParseFrom(argv, opts, ind, conf, rest).conf ==>
      k in conf || exists i :: 0 <= i < |opts| && opts[i].name == k
    decreases |argv| - ind
  {
    if ind < |argv| {
      var a := argv[ind];
      if CharAt(a, 0) != '-' {
        ParsedKeysAreOptionNames(argv, opts, ind + 1, conf, rest + [a]);
      } else if CharAt(a, 1) == '-' {
        var s := NameEnd(a, 2);
        if s != 2 {
          match FindLong(opts, a[2..s], 0)
          case None =>
          case Some(i) =>
            if s < |a| {
              ParsedKeysAreOptionNames(argv, opts, ind + 1, conf[opts[i].name := a[s + 1..]], rest);
            } else if ind + 1 < |argv| {
              ParsedKeysAreOptionNames(argv, opts, ind + 2, conf[opts[i].name := argv[ind + 1]], rest);
            }
        }
      } else if CharAt(a, 1) != '\0' {
        match FindShort(opts, a[1], 0)
        case None =>
        case Some(i) =>
          if |a| > 2 {
            ParsedKeysAreOptionNames(argv, opts, ind + 1, conf[opts[i].name := a[2..]], rest);
          } else if ind + 1 < |argv| {
            ParsedKeysAreOptionNames(argv, opts, ind + 2, conf[opts[i].name := argv[ind + 1]], rest);
          }
      } else {
        ParsedKeysAreOptionNames(argv, opts, ind + 1, conf, rest);
      }
    }
  }

  /** The rest list only grows, and only by arguments that do not start
      with `-`. */
  lemma {:induction false} RestGrowsByPlainArguments(argv: seq<string>, opts: seq<OptionDef>, ind: nat,
                                                     conf: map<string, string>, rest: seq<string>)
    ensures var r := ParseFrom(argv, opts, ind, conf, rest).rest;
      |rest| <= |r| && r[..|rest|] == rest &&
      forall k :: |rest| <= k < |r| ==> r[k] in argv && CharAt(r[k], 0) != '-'
    decreases |argv| - ind
  {
    if ind < |argv| {
      var a := argv[ind];
      if CharAt(a, 0) != '-' {
        RestGrowsByPlainArguments(argv, opts, ind + 1, conf, rest + [a]);
        var r := ParseFrom(argv, opts, ind + 1, conf, rest + [a]).rest;
        assert r[..|rest| + 1][..|rest|] == r[..|rest|];
      } else if CharAt(a, 1) == '-' {
        var s := NameEnd(a, 2);
        if s != 2 {
          match FindLong(opts, a[2..s], 0)
          case None =>
          case Some(i) =>
            if s < |a| {
              RestGrowsByPlainArguments(argv, opts, ind + 1, conf[opts[i].name := a[s + 1..]], rest);
            } else if ind + 1 < |argv| {
              RestGrowsByPlainArguments(argv, opts, ind + 2, conf[opts[i].name := argv[ind + 1]], rest);
            }
        }
      } else if CharAt(a, 1) != '\0' {
        match FindShort(opts, a[1], 0)
        case None =>
        case Some(i) =>
          if |a| > 2 {
            RestGrowsByPlainArguments(argv, opts, ind + 1, conf[opts[i].name := a[2..]], rest);
          } else if ind + 1 < |argv| {
            RestGrowsByPlainArguments(argv, opts, ind + 2, conf[opts[i].name := argv[ind + 1]], rest);
          }
      } else {
        RestGrowsByPlainArguments(argv, opts, ind + 1, conf, rest);
      }
    }
  }

  /** Loading never replaces a value already stored. */
  lemma {:induction false} LoadKeepsExisting(lines: seq<string>, conf: map<string, string>)
    ensures forall k :: k in conf ==> k in LoadLines(lines, conf).conf && LoadLines(lines, conf).conf[k] == conf[k]
    decreases |lines|
  {
    if lines != [] {
      match ParseLine(lines[0])
      case Ignored => LoadKeepsExisting(lines[1..], conf);
      case Entry(k, v) => LoadKeepsExisting(lines[1..], if k in conf then conf else conf[k := v]);
      case _ =>
    }
  }

  /** Every key loading adds comes, with its value, from a line of the
      file. */
  lemma {:induction false} LoadedEntriesComeFromLines(lines: seq<string>, conf: map<string, string>)
    ensures forall k :: k in LoadLines(lines, conf).conf && k !in conf ==>
      exists j :: 0 <= j < |lines| && ParseLine(lines[j]) == Entry(k, LoadLines(lines, conf).conf[k])
    decreases |lines|
  {
    if lines != [] {
      var r := LoadLines(lines, conf).conf;
      match ParseLine(lines[0])
      case Ignored =>
        LoadedEntriesComeFromLines(lines[1..], conf);
        forall k | k in r && k !in conf
          ensures exists j :: 0 <= j < |lines| && ParseLine(lines[j]) == Entry(k, r[k])
        {
          var j :| 0 <= j < |lines[1..]| && ParseLine(lines[1..][j]) == Entry(k, r[k]);
          assert lines[j + 1] == lines[1..][j];
        }
      case Entry(k0, v0) =>
        var c1 := if k0 in conf then conf else conf[k0 := v0];
        assert r == LoadLines(lines[1..], c1).conf;
        LoadedEntriesComeFromLines(lines[1..], c1);
        LoadKeepsExisting(lines[1..], c1);
        forall k | k in r && k !in conf
          ensures exists j :: 0 <= j < |lines| && ParseLine(lines[j]) == Entry(k, r[k])
        {
          if k == k0 {
            assert k0 in c1 && c1[k0] == v0;
            assert ParseLine(lines[0]) == Entry(k, r[k]);
          } else {
            var j :| 0 <= j < |lines[1..]| && ParseLine(lines[1..][j]) == Entry(k, r[k]);
            assert lines[j + 1] == lines[1..][j];
          }
        }
      case _ =>
    }
  }

  /** A value set on the command line survives loading the resource
      files. */
  lemma CommandLineWins(lines: seq<string>, conf: map<string, string>, key: string, val: string, def: string)
    ensures Get(LoadLines(lines, conf[key := val]).conf, key, def) == val
  {
    LoadKeepsExisting(lines, conf[key := val]);
  }

  /** A line written as `key = value` reads back as that entry, for a key
      that does not start a comment, holds no `=` and does not end in white
      space, and a value that does not start with white space. */
  lemma FormattedLineReadsBack(key: string, val: string)
    requires key != [] && key[0] != '#' && key[0] != ';' && '=' !in key
    requires !IsSpace(key[|key| - 1])
    requires val != [] ==> !IsSpace(val[0])
    ensures ParseLine(key + " = " + val) == Entry(key, val)
  {
    var line := key + " = " + val;
    var pos := |key| + 1;
    assert line[..|key|] == key;
    EqualsAtAfter(line, 0, pos);
    assert KeyLast(line, pos - 1) == |key| - 1;
    assert ValueStart(line, pos + 1) == pos + 2;
    assert line[pos + 2..] == val;
  }

  lemma {:induction false} EqualsAtAfter(line: string, i: nat, e: nat)
    requires i <= e < |line| && line[e] == '=' && forall j :: i <= j < e ==> line[j] != '='
    ensures EqualsAt(line, i) == e
    decreases e - i
  {
    if i < e {
      EqualsAtAfter(line, i + 1, e);
    }
  }
}
