/** The output writer: picks a format by node status and expands it. A
    format is a template: plain characters are copied, `\x` is an escape,
    and `%` introduces a macro (`%m`, `%M`, `%H`, `%S`, `%L`, `%%`,
    `%f[...]`, `%F<sep>[...]`). */
module Writer {
  import opened Common
  import opened Mecab
  import Param

  const DEFAULT_NODE_FORMAT: string := "%m\\t%H\\n"
  const DEFAULT_EOS_FORMAT: string := "EOS\\n"

  /** `%L` is formatted into a buffer of this many characters. */
  const NUMBER_BUFFER: nat := 8

  /** The field index is accumulated in a `size_t`. */
  const TWO64: int := 0x1_0000_0000_0000_0000

  /** The four node formats; `For` picks the one for a node's status. */
  datatype Formats = Formats(nor: string, unk: string, bos: string, eos: string) {
    function For(stat: NodeStat): string {
      match stat
      case NorNode => nor
      case UnkNode => unk
      case BosNode => bos
      case EosNode => eos
    }
  }

  /** Why expanding a format fails. `EmptyField` is a listed field that is
      empty, whose first character cannot be read; `Overrun` is a read
      past the terminator of a format that ends inside an escape or a
      macro. */
  datatype WriteError = NoFeature | NoOpenBracket | NoCloseBracket | IndexOutOfRange | EmptyField | Overrun

  // ---------------------------------------------------------------------
  // Format selection

  /** `base` or, when an output format type is given, `base-type`. */
  function Keyed(base: string, formatType: string): string {
    if formatType == "" then base else base + "-" + formatType
  }

  function FormatType(conf: map<string, string>): string {
    Param.Get(conf, "output-format-type", "")
  }

  /** The formats read from the untyped keys, with their defaults; the
      unknown-node format defaults to the normal-node one. */
  function Untyped(conf: map<string, string>): Formats {
    var nor := Param.Get(conf, "node-format", DEFAULT_NODE_FORMAT);
    Formats(nor, Param.Get(conf, "unk-format", nor),
            Param.Get(conf, "bos-format", ""), Param.Get(conf, "eos-format", DEFAULT_EOS_FORMAT))
  }

  /** The formats `open` settles on: the typed keys override the untyped
      ones; with a format type, the typed node format must be set and not
      empty, and the unknown-node format defaults to the chosen node
      format. */
  function SelectFormats(conf: map<string, string>): (r: Option<Formats>)
    ensures r.None? <==> FormatType(conf) != "" && Param.Get(conf, Keyed("node-format", FormatType(conf)), "") == ""
  {
    var ft := FormatType(conf);
    if ft != "" && Param.Get(conf, Keyed("node-format", ft), "") == "" then None
    else
      var base := Untyped(conf);
      var nor := Param.Get(conf, Keyed("node-format", ft), base.nor);
      Some(Formats(nor, Param.Get(conf, Keyed("unk-format", ft), nor),
                   Param.Get(conf, Keyed("bos-format", ft), base.bos),
                   Param.Get(conf, Keyed("eos-format", ft), base.eos)))
  }

  // ---------------------------------------------------------------------
  // Escapes

  /** The character `\c` stands for; NUL for any other `c`. */
  function EscapedChar(c: char): char {
    match c
    case '0' => '\0'
    case 'a' => 7 as char
    case 'b' => 8 as char
    case 't' => '\t'
    case 'n' => '\n'
    case 'v' => 11 as char
    case 'f' => 12 as char
    case 'r' => '\r'
    case 's' => ' '
    case '\\' => '\\'
    case _ => '\0'
  }

  const ESCAPE_LETTERS: string := "0abtnvfrs\\"

  /** The letter that escapes `c`, for the characters an escape can
      produce. */
  function EscapeLetter(c: char): char {
    if c == '\0' then '0'
    else if c == 7 as char then 'a'
    else if c == 8 as char then 'b'
    else if c == '\t' then 't'
    else if c == '\n' then 'n'
    else if c == 11 as char then 'v'
    else if c == 12 as char then 'f'
    else if c == '\r' then 'r'
    else if c == ' ' then 's'
    else if c == '\\' then '\\'
    else c
  }

  // ---------------------------------------------------------------------
  // Surfaces

  /** The buffer a node's surface points into. */
  function SurfaceBuffer(sentence: seq<byte>, node: Node): string {
    match node.surface
    case BosKey => BOS_KEY
    case At(_) => Text(sentence)
  }

  function SurfaceOffset(node: Node): nat {
    match node.surface
    case BosKey => 0
    case At(o) => o
  }

  /** Both surface macros stay inside the buffer. */
  predicate WellPlaced(sentence: seq<byte>, node: Node) {
    SurfaceOffset(node) + node.length <= |SurfaceBuffer(sentence, node)| &&
    node.rlength <= SurfaceOffset(node) + node.length
  }

  /** `%m`: the `length` characters at the surface. */
  function Morph(sentence: seq<byte>, node: Node): (r: string)
    requires WellPlaced(sentence, node)
    ensures |r| == node.length
  {
    SurfaceBuffer(sentence, node)[SurfaceOffset(node)..SurfaceOffset(node) + node.length]
  }

  /** `%M`: the `rlength` characters that end where the morph ends, so the
      white space skipped before the morph is included. */
  function RawMorph(sentence: seq<byte>, node: Node): (r: string)
    requires WellPlaced(sentence, node)
    ensures |r| == node.rlength
    ensures node.length <= node.rlength ==> r[node.rlength - node.length..] == Morph(sentence, node)
  {
    var e := SurfaceOffset(node) + node.length;
    SurfaceBuffer(sentence, node)[e - node.rlength..e]
  }

  // ---------------------------------------------------------------------
  // Numbers

  function DigitChar(d: nat): (c: char)
    requires d < 10
    ensures '0' <= c <= '9'
  {
    ('0' as int + d) as char
  }

  function DigitValue(c: char): (d: nat)
    requires '0' <= c <= '9'
    ensures d < 10 && DigitChar(d) == c
  {
    c as int - '0' as int
  }

  /** The decimal digits of `n`, without leading zeros. */
  function Decimal(n: nat): (r: string)
    ensures |r| >= 1
    ensures n >= 10 ==> r[0] != '0'
    decreases n
  {
    if n < 10 then [DigitChar(n)] else Decimal(n / 10) + [DigitChar(n % 10)]
  }

  /** `Decimal` writes only digits. */
  lemma {:induction false} DecimalDigits(n: nat)
    ensures forall i :: 0 <= i < |Decimal(n)| ==> '0' <= Decimal(n)[i] <= '9'
    decreases n
  {
    if n >= 10 {
      DecimalDigits(n / 10);
    }
  }

  /** `%L`: the decimal length, or nothing when it does not fit the
      buffer. */
  function LengthText(n: nat): string {
    if |Decimal(n)| <= NUMBER_BUFFER then Decimal(n) else ""
  }

  // ---------------------------------------------------------------------
  // CSV fields

  /** The index of the first comma at or after `i`, or `|s|`. */
  function FindComma(s: string, i: nat): (k: nat)
    requires i <= |s|
    ensures i <= k <= |s|
    ensures k < |s| ==> s[k] == ','
    decreases |s| - i
  {
    if i == |s| || s[i] == ',' then i else FindComma(s, i + 1)
  }

  /** The rest of a quoted field from `i` on, `val` holding what is read so
      far: `""` stands for one quote, a lone quote closes the field. Also
      the index after the closing quote. */
  function Quoted(s: string, i: nat, val: string): (r: (string, nat))
    requires i <= |s|
    ensures i <= r.1 <= |s|
    decreases |s| - i
  {
    if i == |s| then (val, i)
    else if s[i] == '"' then
      if i + 1 < |s| && s[i + 1] == '"' then Quoted(s, i + 2, val + ['"'])
      else (val, i + 1)
    else Quoted(s, i + 1, val + [s[i]])
  }

  /** The fields of `s` from `i` on: white space before a field is skipped,
      a quoted field ends at its closing quote (anything up to the next
      comma is dropped), an unquoted one at the next comma. */
  function FieldsFrom(s: string, i: nat): seq<string>
    decreases |s| + 1 - i
  {
    if i >= |s| then []
    else if IsSpace(s[i]) then FieldsFrom(s, i + 1)
    else if s[i] == '"' then
      var q := Quoted(s, i + 1, "");
      [q.0] + FieldsFrom(s, FindComma(s, q.1) + 1)
    else
      var k := FindComma(s, i);
      [s[i..k]] + FieldsFrom(s, k + 1)
  }

  function Fields(s: string): seq<string> {
    FieldsFrom(s, 0)
  }

  // ---------------------------------------------------------------------
  // Format expansion

  function Prepend(s: string, r: Result<string, WriteError>): Result<string, WriteError> {
    match r
    case Success(t) => Success(s + t)
    case Failure(e) => Failure(e)
  }

  lemma PrependEmpty(r: Result<string, WriteError>)
    ensures Prepend("", r) == r
  {
    if r.Success? {
      assert "" + r.value == r.value;
    }
  }

  lemma PrependTwice(s: string, t: string, r: Result<string, WriteError>)
    ensures Prepend(s, Prepend(t, r)) == Prepend(s + t, r)
  {
    if r.Success? {
      assert s + (t + r.value) == (s + t) + r.value;
    }
  }

  /** `out` with `field` appended, after the separator if the previously
      listed field was written. */
  function Emit(out: string, field: string, emitted: bool, sep: char): string {
    if emitted then out + [sep] + field else out + field
  }

  /** One listed field: its index must exist and the field must not be
      empty; a field starting with `*` is left out. Also whether the field
      was written. */
  function ListField(csv: seq<string>, sep: char, n: nat, emitted: bool, out: string): (r: Result<(string, bool), WriteError>)
    ensures r.Success? ==> n < |csv| && csv[n] != []
    ensures r.Success? ==> r.value.1 == (csv[n][0] != '*')
    ensures r.Success? ==> r.value.0 == (if csv[n][0] == '*' then out else Emit(out, csv[n], emitted, sep))
  {
    if n >= |csv| then Failure(IndexOutOfRange)
    else if csv[n] == [] then Failure(EmptyField)
    else if csv[n][0] != '*' then Success((Emit(out, csv[n], emitted, sep), true))
    else Success((out, false))
  }

  /** The bracketed field list from `k` on; `n` is the index read so far.
      Also the index after the closing bracket. */
  function FieldList(fmt: string, csv: seq<string>, sep: char, k: nat, n: nat, emitted: bool, out: string)
    : (r: Result<(string, nat), WriteError>)
    requires k <= |fmt|
    ensures r.Success? ==> k < r.value.1 <= |fmt| + 1
    decreases |fmt| - k
  {
    var c := CharAt(fmt, k);
    if c == ']' then
      match ListField(csv, sep, n, emitted, out)
      case Failure(e) => Failure(e)
      case Success(w) => Success((w.0, k + 1))
    else if '0' <= c <= '9' then
      FieldList(fmt, csv, sep, k + 1, (n * 10 + DigitValue(c)) % 0x1_0000_0000_0000_0000, emitted, out)
    else if c == ',' then
      match ListField(csv, sep, n, emitted, out)
      case Failure(e) => Failure(e)
      case Success(w) => FieldList(fmt, csv, sep, k + 1, 0, w.1, w.0)
    else Failure(NoCloseBracket)
  }

  /** `%f[...]` or `%F<sep>[...]`, `k` indexing the `f` or `F`. */
  function FieldMacro(fmt: string, feature: string, k: nat): (r: Result<(string, nat), WriteError>)
    requires k < |fmt|
    ensures r.Success? ==> k < r.value.1 <= |fmt| + 1
  {
    if CharAt(feature, 0) == '\0' then Failure(NoFeature)
    else
      var sep := if fmt[k] != 'F' then '\t'
                 else if CharAt(fmt, k + 1) == '\\' then EscapedChar(CharAt(fmt, k + 2))
                 else CharAt(fmt, k + 1);
      var j := if fmt[k] != 'F' then k else if CharAt(fmt, k + 1) == '\\' then k + 2 else k + 1;
      if j + 1 > |fmt| then Failure(Overrun)
      else if CharAt(fmt, j + 1) != '[' then Failure(NoOpenBracket)
      else FieldList(fmt, Fields(feature), sep, j + 2, 0, false, "")
  }

  /** The macro at `p` (a `%`). Also the index after it. */
  function Macro(fmt: string, sentence: seq<byte>, node: Node, p: nat): (r: Result<(string, nat), WriteError>)
    requires p < |fmt| && WellPlaced(sentence, node)
    ensures r.Success? ==> p < r.value.1 <= |fmt| + 1
  {
    var c := CharAt(fmt, p + 1);
    if c == '%' then Success(("%", p + 2))
    else if c == 'S' then Success((Text(sentence), p + 2))
    else if c == 'L' then Success((LengthText(|sentence|), p + 2))
    else if c == 'm' then Success((Morph(sentence, node), p + 2))
    else if c == 'M' then Success((RawMorph(sentence, node), p + 2))
    else if c == 'H' then Success((node.feature, p + 2))
    else if c == 'f' || c == 'F' then FieldMacro(fmt, node.feature, p + 1)
    else Success((['%', c], p + 2))
  }

  /** The text the format character at `p` produces, and the index of the
      next one. */
  function Step(fmt: string, sentence: seq<byte>, node: Node, p: nat): (r: Result<(string, nat), WriteError>)
    requires p < |fmt| && WellPlaced(sentence, node)
    ensures r.Success? ==> p < r.value.1 <= |fmt| + 1
  {
    if fmt[p] == '\\' then Success(([EscapedChar(CharAt(fmt, p + 1))], p + 2))
    else if fmt[p] == '%' then Macro(fmt, sentence, node, p)
    else Success(([fmt[p]], p + 1))
  }

  /** The text the format produces from `p` on, up to its terminator. */
  function Render(fmt: string, sentence: seq<byte>, node: Node, p: nat): Result<string, WriteError>
    requires WellPlaced(sentence, node)
    decreases |fmt| + 1 - p
  {
    if p > |fmt| then Failure(Overrun)
    else if CharAt(fmt, p) == '\0' then Success("")
    else match Step(fmt, sentence, node, p)
      case Failure(e) => Failure(e)
      case Success(w) => Prepend(w.0, Render(fmt, sentence, node, w.1))
  }

  // ---------------------------------------------------------------------
  // The writer

  class Writer {
    var nor: string
    var unk: string
    var bos: string
    var eos: string
    var sentence: seq<byte>

    constructor ()
      ensures nor == "" && unk == "" && bos == "" && eos == "" && sentence == []
    {
      nor, unk, bos, eos := "", "", "", "";
      sentence := [];
    }

    function Current(): Formats
      reads this
    {
      Formats(nor, unk, bos, eos)
    }

    /** Reads the four formats from the configuration. On failure the
        untyped formats stay in place. */
    method Open(param: Param.Param) returns (ok: bool)
      modifies this
      ensures ok <==> SelectFormats(param.conf).Some?
      ensures ok ==> Current() == SelectFormats(param.conf).value
      ensures !ok ==> Current() == Untyped(param.conf)
      ensures sentence == old(sentence)
    {
      var norKey, unkKey, bosKey, eosKey := "node-format", "unk-format", "bos-format", "eos-format";
      nor := Param.Get(param.conf, norKey, DEFAULT_NODE_FORMAT);
      unk := Param.Get(param.conf, unkKey, nor);
      bos := Param.Get(param.conf, bosKey, "");
      eos := Param.Get(param.conf, eosKey, DEFAULT_EOS_FORMAT);
      var formatType := Param.Get(param.conf, "output-format-type", "");
      if formatType != "" {
        var suffix := "-" + formatType;
        norKey, unkKey, bosKey, eosKey := norKey + suffix, unkKey + suffix, bosKey + suffix, eosKey + suffix;
        assert norKey == Keyed("node-format", formatType) && unkKey == Keyed("unk-format", formatType);
        assert bosKey == Keyed("bos-format", formatType) && eosKey == Keyed("eos-format", formatType);
        if Param.Get(param.conf, norKey, "") == "" {
          return false;
        }
      }
      nor := Param.Get(param.conf, norKey, nor);
      unk := Param.Get(param.conf, unkKey, nor);
      bos := Param.Get(param.conf, bosKey, bos);
      eos := Param.Get(param.conf, eosKey, eos);
      return true;
    }

    method SetSentence(s: seq<byte>)
      modifies this
      ensures sentence == s && Current() == old(Current())
    {
      sentence := s;
    }

    /** The text written for `node`. */
    method WriteNode(node: Node) returns (r: Result<string, WriteError>)
      requires WellPlaced(sentence, node)
      ensures r == Render(Current().For(node.stat), sentence, node, 0)
    {
      match node.stat
      case NorNode => r := WriteFormat(nor, sentence, node);
      case UnkNode => r := WriteFormat(unk, sentence, node);
      case BosNode => r := WriteFormat(bos, sentence, node);
      case EosNode => r := WriteFormat(eos, sentence, node);
    }
  }

  /** Expands `fmt` for `node`. */
  method WriteFormat(fmt: string, sentence: seq<byte>, node: Node) returns (r: Result<string, WriteError>)
    requires WellPlaced(sentence, node)
    ensures r == Render(fmt, sentence, node, 0)
  {
    var os := "";
    var p := 0;
    PrependEmpty(Render(fmt, sentence, node, 0));
    while true
      invariant p <= |fmt| + 1
      invariant Render(fmt, sentence, node, 0) == Prepend(os, Render(fmt, sentence, node, p))
      decreases |fmt| + 1 - p
    {
      if p > |fmt| {
        return Failure(Overrun);
      }
      var c := CharAt(fmt, p);
      if c == '\0' {
        assert os + "" == os;
        return Success(os);
      }
      var piece: string;
      var q: nat;
      if c == '\\' {
        piece, q := [EscapedChar(CharAt(fmt, p + 1))], p + 2;
      } else if c == '%' {
        var d := CharAt(fmt, p + 1);
        if d == 'f' || d == 'F' {
          var w := WriteFields(fmt, node.feature, p + 1);
          if w.Failure? {
            return Failure(w.error);
          }
          piece, q := w.value.0, w.value.1;
        } else {
          if d == '%' {
            piece := "%";
          } else if d == 'S' {
            piece := Text(sentence);
          } else if d == 'L' {
            piece := LengthText(|sentence|);
          } else if d == 'm' {
            piece := Morph(sentence, node);
          } else if d == 'M' {
            piece := RawMorph(sentence, node);
          } else if d == 'H' {
            piece := node.feature;
          } else {
            piece := ['%', d];
          }
          q := p + 2;
        }
      } else {
        piece, q := [c], p + 1;
      }
      assert Step(fmt, sentence, node, p) == Success((piece, q));
      PrependTwice(os, piece, Render(fmt, sentence, node, q));
      os, p := os + piece, q;
    }
  }

  /** Expands `%f[...]` or `%F<sep>[...]`, `k` indexing the `f` or `F`. */
  method WriteFields(fmt: string, feature: string, k: nat) returns (r: Result<(string, nat), WriteError>)
    requires k < |fmt|
    ensures r == FieldMacro(fmt, feature, k)
  {
    if CharAt(feature, 0) == '\0' {
      return Failure(NoFeature);
    }
    var csv := SplitCsv(feature);
    var separator := '\t';
    var p := k;
    if fmt[p] == 'F' {
      p := p + 1;
      if CharAt(fmt, p) == '\\' {
        p := p + 1;
        separator := EscapedChar(CharAt(fmt, p));
      } else {
        separator := CharAt(fmt, p);
      }
    }
    p := p + 1;
    if p > |fmt| {
      return Failure(Overrun);
    }
    if CharAt(fmt, p) != '[' {
      return Failure(NoOpenBracket);
    }
    r := WriteFieldList(fmt, csv, separator, p + 1);
  }

  /** The loop over a bracketed field list from `k` on. */
  method WriteFieldList(fmt: string, csv: seq<string>, separator: char, k: nat) returns (r: Result<(string, nat), WriteError>)
    requires k <= |fmt|
    ensures r == FieldList(fmt, csv, separator, k, 0, false, "")
  {
    var n: nat := 0;
    var sep := false;
    var out := "";
    var p := k;
    while CharAt(fmt, p) != ']'
      invariant p <= |fmt|
      invariant FieldList(fmt, csv, separator, k, 0, false, "") == FieldList(fmt, csv, separator, p, n, sep, out)
      decreases |fmt| - p
    {
      var c := CharAt(fmt, p);
      if '0' <= c <= '9' {
        n := (n * 10 + DigitValue(c)) % 0x1_0000_0000_0000_0000;
      } else if c == ',' {
        var w := WriteField(csv, separator, n, sep, out);
        if w.Failure? {
          return Failure(w.error);
        }
        out, sep := w.value.0, w.value.1;
        n := 0;
      } else {
        return Failure(NoCloseBracket);
      }
      p := p + 1;
    }
    var w := WriteField(csv, separator, n, sep, out);
    if w.Failure? {
      return Failure(w.error);
    }
    return Success((w.value.0, p + 1));
  }

  /** Field `n` of `csv` appended to `out`, with the separator when a field
      was written before; also whether this one was. */
  method WriteField(csv: seq<string>, separator: char, n: nat, sep: bool, out: string)
    returns (r: Result<(string, bool), WriteError>)
    ensures r == ListField(csv, separator, n, sep, out)
  {
    if n >= |csv| {
      return Failure(IndexOutOfRange);
    }
    if csv[n] == [] {
      return Failure(EmptyField);
    }
    if csv[n][0] != '*' {
      var o := out;
      if sep {
        o := o + [separator];
      }
      return Success((o + csv[n], true));
    }
    return Success((out, false));
  }

  /** Splits a feature string into its comma-separated fields. */
  method SplitCsv(s: string) returns (sv: seq<string>)
    ensures sv == Fields(s)
  {
    sv := [];
    var bos := 0;
    while bos < |s|
      invariant bos <= |s| + 1
      invariant Fields(s) == sv + FieldsFrom(s, bos)
      decreases |s| + 1 - bos
    {
      var f, next := NextField(s, bos);
      Advance(Fields(s), sv, f, FieldsFrom(s, bos), FieldsFrom(s, next));
      sv := sv + f;
      bos := next;
    }
  }

  /** What is read moves from the unread part to the read part. */
  lemma Advance(all: seq<string>, read: seq<string>, f: seq<string>, unread: seq<string>, next: seq<string>)
    requires all == read + unread && unread == f + next
    ensures all == (read + f) + next
  {
  }

  /** One step of the splitting loop from `bos`: a skipped white-space
      character, or one field and the index after its comma. */
  method NextField(s: string, bos: nat) returns (f: seq<string>, next: nat)
    requires bos < |s|
    ensures bos < next <= |s| + 1
    ensures FieldsFrom(s, bos) == f + FieldsFrom(s, next)
  {
    if IsSpace(s[bos]) {
      f, next := [], bos + 1;
      FieldsFromSpace(s, bos);
    } else if s[bos] == '"' {
      f, next := NextQuotedFieldAt(s, bos);
    } else {
      var n := FindComma(s, bos);
      f, next := [s[bos..n]], n + 1;
      FieldsFromPlain(s, bos);
    }
  }

  /** The quoted field starting at `bos` and the index after its comma. */
  method NextQuotedFieldAt(s: string, bos: nat) returns (f: seq<string>, next: nat)
    requires bos < |s| && s[bos] == '"'
    ensures bos < next <= |s| + 1
    ensures FieldsFrom(s, bos) == f + FieldsFrom(s, next)
  {
    var val, e := ReadQuoted(s, bos + 1);
    var n := FindComma(s, e);
    FieldsFromQuoteAt(s, bos, val, n);
    f, next := [val], n + 1;
  }

  /** Reads the rest of a quoted field from `i` on; also the index after
      the closing quote. */
  method ReadQuoted(s: string, i: nat) returns (val: string, bos: nat)
    requires i <= |s|
    ensures (val, bos) == Quoted(s, i, "")
  {
    val := "";
    bos := i;
    while bos < |s|
      invariant i <= bos <= |s|
      invariant Quoted(s, i, "") == Quoted(s, bos, val)
      decreases |s| - bos
    {
      if s[bos] == '"' {
        if bos + 1 < |s| && s[bos + 1] == '"' {
          val := val + ['"'];
          bos := bos + 2;
        } else {
          bos := bos + 1;
          assert Quoted(s, i, "") == (val, bos);
          return;
        }
      } else {
        val := val + [s[bos]];
        bos := bos + 1;
      }
    }
  }

  // ---------------------------------------------------------------------
  // Properties: format selection

  /** With none of the format keys set, the node and unknown-node formats
      are `%m\t%H\n`, the BOS format is empty and the EOS format is
      `EOS\n`. */
  lemma DefaultFormats(conf: map<string, string>)
    requires "output-format-type" !in conf && "node-format" !in conf && "unk-format" !in conf
    requires "bos-format" !in conf && "eos-format" !in conf
    ensures SelectFormats(conf) == Some(Formats(DEFAULT_NODE_FORMAT, DEFAULT_NODE_FORMAT, "", DEFAULT_EOS_FORMAT))
  {
  }

  /** Without its own key, the unknown-node format is the node format. */
  lemma UnkDefaultsToNor(conf: map<string, string>)
    requires SelectFormats(conf).Some? && Keyed("unk-format", FormatType(conf)) !in conf
    ensures SelectFormats(conf).value.unk == SelectFormats(conf).value.nor
  {
  }

  /** With a format type, the typed keys decide; the BOS and EOS formats
      fall back to the untyped ones, the unknown-node format to the node
      format. */
  lemma TypedFormatsOverride(conf: map<string, string>)
    requires FormatType(conf) != "" && SelectFormats(conf).Some?
    ensures var ft := FormatType(conf); var f := SelectFormats(conf).value;
      && f.nor == conf[Keyed("node-format", ft)]
      && f.unk == Param.Get(conf, Keyed("unk-format", ft), f.nor)
      && f.bos == Param.Get(conf, Keyed("bos-format", ft), Untyped(conf).bos)
      && f.eos == Param.Get(conf, Keyed("eos-format", ft), Untyped(conf).eos)
  {
  }

  // ---------------------------------------------------------------------
  // Properties: escapes and plain text

  /** The ten escape letters map to distinct characters, each giving its
      letter back; every other character escapes to NUL. */
  lemma EscapeRoundTrip(c: char)
    ensures c in ESCAPE_LETTERS ==> EscapeLetter(EscapedChar(c)) == c
    ensures c !in ESCAPE_LETTERS ==> EscapedChar(c) == '\0'
  {
  }

  /** A format's text with its escapes replaced, from `p` on; `None` when it
      ends in a lone backslash. */
  function Unescaped(fmt: string, p: nat): Option<string>
    requires p <= |fmt|
    decreases |fmt| - p
  {
    if p == |fmt| then Some("")
    else if fmt[p] == '\\' then
      if p + 1 == |fmt| then None
      else match Unescaped(fmt, p + 2)
        case None => None
        case Some(t) => Some([EscapedChar(fmt[p + 1])] + t)
    else match Unescaped(fmt, p + 1)
      case None => None
      case Some(t) => Some([fmt[p]] + t)
  }

  /** A format without macros writes its characters with the escapes
      replaced; one ending in a lone backslash reads past its
      terminator. */
  lemma {:induction false} FormatWithoutMacros(fmt: string, sentence: seq<byte>, node: Node, p: nat)
    requires WellPlaced(sentence, node) && p <= |fmt|
    requires forall i :: p <= i < |fmt| ==> fmt[i] != '%' && fmt[i] != '\0'
    ensures Render(fmt, sentence, node, p) ==
      match Unescaped(fmt, p) case Some(t) => Success(t) case None => Failure(Overrun)
    decreases |fmt| - p
  {
    if p < |fmt| {
      if fmt[p] == '\\' {
        if p + 1 < |fmt| {
          FormatWithoutMacros(fmt, sentence, node, p + 2);
        }
      } else {
        FormatWithoutMacros(fmt, sentence, node, p + 1);
      }
    }
  }

  /** `%%` writes one `%`; `%x` for a character that names no macro writes
      `%x` unchanged. */
  lemma PercentMacros(fmt: string, sentence: seq<byte>, node: Node, p: nat)
    requires WellPlaced(sentence, node) && p + 1 < |fmt| && fmt[p] == '%'
    requires fmt[p + 1] !in "SLmMHfF"
    ensures Render(fmt, sentence, node, p) ==
      Prepend(if fmt[p + 1] == '%' then "%" else ['%', fmt[p + 1]], Render(fmt, sentence, node, p + 2))
  {
  }

  /** `%m` writes the morph, `%M` the morph with the white space before it,
      `%L` the sentence length when it has at most eight digits. */
  lemma SurfaceMacros(sentence: seq<byte>, node: Node)
    requires WellPlaced(sentence, node)
    ensures Render("%m", sentence, node, 0) == Success(Morph(sentence, node))
    ensures Render("%M", sentence, node, 0) == Success(RawMorph(sentence, node))
    ensures Render("%L", sentence, node, 0) ==
      Success(if |sentence| < 100_000_000 then Decimal(|sentence|) else "")
  {
    assert Morph(sentence, node) + "" == Morph(sentence, node);
    assert RawMorph(sentence, node) + "" == RawMorph(sentence, node);
    LengthTextFits(|sentence|);
    assert LengthText(|sentence|) + "" == LengthText(|sentence|);
  }

  /** `%L` is written exactly when the length has at most eight digits. */
  lemma {:induction false} LengthTextFits(n: nat)
    ensures |Decimal(n)| <= NUMBER_BUFFER <==> n < 100_000_000
    ensures LengthText(n) == if n < 100_000_000 then Decimal(n) else ""
  {
    DecimalLength(n, 8);
  }

  lemma {:induction false} DecimalLength(n: nat, k: nat)
    requires k >= 1
    ensures |Decimal(n)| <= k <==> n < Pow10(k)
    decreases n
  {
    if n >= 10 {
      if k == 1 {
        DecimalLength(n / 10, 1);
        assert |Decimal(n / 10)| >= 1;
      } else {
        DecimalLength(n / 10, k - 1);
      }
    }
  }

  function Pow10(k: nat): (r: nat)
    ensures r >= 1
  {
    if k == 0 then 1 else 10 * Pow10(k - 1)
  }

  // ---------------------------------------------------------------------
  // Properties: field lists

  /** The fields listed by `idx`, in order, as a field list writes them: a
      reading on indices rather than on the format text. */
  function Select(csv: seq<string>, idx: seq<nat>, sep: char, emitted: bool, out: string): Result<string, WriteError>
    requires |idx| >= 1
    decreases |idx|
  {
    match ListField(csv, sep, idx[0], emitted, out)
    case Failure(e) => Failure(e)
    case Success(w) => if |idx| == 1 then Success(w.0) else Select(csv, idx[1..], sep, w.1, w.0)
  }

  /** The indices `idx` written in decimal and separated by commas. */
  function IndexList(idx: seq<nat>): string
    requires |idx| >= 1
    decreases |idx|
  {
    if |idx| == 1 then Decimal(idx[0]) else Decimal(idx[0]) + "," + IndexList(idx[1..])
  }

  lemma Slice(s: string, k: nat, t: string, a: nat, b: nat)
    requires k + |t| <= |s| && s[k..k + |t|] == t && a <= b <= |t|
    ensures s[k + a..k + b] == t[a..b]
  {
    forall j | 0 <= j < b - a
      ensures s[k + a..k + b][j] == t[a..b][j]
    {
      assert s[k..k + |t|][a + j] == s[k + a + j];
    }
  }

  /** Where a text `a + "," + b` found at `i` puts its parts. */
  lemma CommaSplit(s: string, i: nat, a: string, b: string)
    requires i <= |s| && s[i..] == a + "," + b
    ensures i + |a| < |s| && s[i..i + |a|] == a && s[i + |a|] == ',' && s[i + |a| + 1..] == b
  {
    assert s[i..i + |a|] == s[i..][..|a|];
    assert s[i + |a| + 1..] == s[i..][|a| + 1..];
  }

  lemma FieldListAtComma(fmt: string, csv: seq<string>, sep: char, k: nat, n: nat, emitted: bool, out: string)
    requires k < |fmt| && fmt[k] == ','
    ensures FieldList(fmt, csv, sep, k, n, emitted, out) ==
      match ListField(csv, sep, n, emitted, out)
      case Failure(e) => Failure(e)
      case Success(w) => FieldList(fmt, csv, sep, k + 1, 0, w.1, w.0)
  {
  }

  lemma FieldListAtClose(fmt: string, csv: seq<string>, sep: char, k: nat, n: nat, emitted: bool, out: string)
    requires k < |fmt| && fmt[k] == ']'
    ensures FieldList(fmt, csv, sep, k, n, emitted, out) ==
      match ListField(csv, sep, n, emitted, out)
      case Failure(e) => Failure(e)
      case Success(w) => Success((w.0, k + 1))
  {
  }

  /** A digit in a field list accumulates into the index in `size_t`. */
  lemma DigitStep(fmt: string, csv: seq<string>, sep: char, k: nat, n: nat, emitted: bool, out: string)
    requires k < |fmt| && '0' <= fmt[k] <= '9'
    ensures FieldList(fmt, csv, sep, k, n, emitted, out) ==
            FieldList(fmt, csv, sep, k + 1, (n * 10 + DigitValue(fmt[k])) % 0x1_0000_0000_0000_0000, emitted, out)
  {
  }

  lemma LastDigit(v: nat)
    requires v < TWO64
    ensures (v / 10 * 10 + v % 10) % 0x1_0000_0000_0000_0000 == v
  {
  }

  /** Decimal digits found in `fmt` at `k`: the higher digits, then the
      last one. */
  lemma DecimalSplit(fmt: string, k: nat, v: nat)
    requires v >= 10 && k + |Decimal(v)| <= |fmt| && fmt[k..k + |Decimal(v)|] == Decimal(v)
    ensures |Decimal(v)| == |Decimal(v / 10)| + 1
    ensures fmt[k..k + |Decimal(v / 10)|] == Decimal(v / 10)
    ensures fmt[k + |Decimal(v / 10)|] == DigitChar(v % 10)
  {
    var d, h := Decimal(v), Decimal(v / 10);
    assert d == h + [DigitChar(v % 10)];
    Slice(fmt, k, d, 0, |h|);
    assert d[..|h|] == h;
    assert fmt[k + |h|] == d[|h|];
  }

  /** The decimal digits of `v` in a field list read as `v`. */
  lemma {:induction false} DecimalRead(fmt: string, csv: seq<string>, sep: char, k: nat, v: nat,
                                       emitted: bool, out: string)
    requires v < TWO64 && k + |Decimal(v)| <= |fmt| && fmt[k..k + |Decimal(v)|] == Decimal(v)
    ensures FieldList(fmt, csv, sep, k, 0, emitted, out) ==
            FieldList(fmt, csv, sep, k + |Decimal(v)|, v, emitted, out)
    decreases v
  {
    if v < 10 {
      assert fmt[k] == Decimal(v)[0];
      DigitStep(fmt, csv, sep, k, 0, emitted, out);
    } else {
      DecimalSplit(fmt, k, v);
      DecimalRead(fmt, csv, sep, k, v / 10, emitted, out);
      LastDigitRead(fmt, csv, sep, k, v, emitted, out);
    }
  }

  /** The last digit of `v` completes the higher digits' value to `v`. */
  lemma LastDigitRead(fmt: string, csv: seq<string>, sep: char, k: nat, v: nat, emitted: bool, out: string)
    requires 10 <= v < TWO64 && |Decimal(v)| == |Decimal(v / 10)| + 1 && k + |Decimal(v)| <= |fmt|
    requires fmt[k + |Decimal(v / 10)|] == DigitChar(v % 10)
    requires FieldList(fmt, csv, sep, k, 0, emitted, out) ==
             FieldList(fmt, csv, sep, k + |Decimal(v / 10)|, v / 10, emitted, out)
    ensures FieldList(fmt, csv, sep, k, 0, emitted, out) ==
            FieldList(fmt, csv, sep, k + |Decimal(v)|, v, emitted, out)
  {
    var e := k + |Decimal(v / 10)|;
    DigitStep(fmt, csv, sep, e, v / 10, emitted, out);
    LastDigit(v);
  }

  /** The first index of a list reads as that index. */
  lemma FirstIndexRead(fmt: string, csv: seq<string>, sep: char, k: nat, idx: seq<nat>, emitted: bool, out: string)
    requires |idx| >= 1 && idx[0] < TWO64
    requires k + |IndexList(idx)| <= |fmt| && fmt[k..k + |IndexList(idx)|] == IndexList(idx)
    ensures |Decimal(idx[0])| <= |IndexList(idx)|
    ensures FieldList(fmt, csv, sep, k, 0, emitted, out) ==
            FieldList(fmt, csv, sep, k + |Decimal(idx[0])|, idx[0], emitted, out)
  {
    var d := Decimal(idx[0]);
    var list := IndexList(idx);
    assert list[..|d|] == d;
    Slice(fmt, k, list, 0, |d|);
    DecimalRead(fmt, csv, sep, k, idx[0], emitted, out);
  }

  /** A field list's text and the index after it. */
  function Ended(r: Result<string, WriteError>, q: nat): Result<(string, nat), WriteError> {
    match r
    case Success(t) => Success((t, q))
    case Failure(e) => Failure(e)
  }

  lemma LastIndexRead(fmt: string, csv: seq<string>, sep: char, k: nat, idx: seq<nat>, emitted: bool, out: string)
    requires |idx| == 1 && idx[0] < TWO64
    requires k + |IndexList(idx)| < |fmt| && fmt[k..k + |IndexList(idx)|] == IndexList(idx)
    requires fmt[k + |IndexList(idx)|] == ']'
    ensures FieldList(fmt, csv, sep, k, 0, emitted, out) ==
            Ended(Select(csv, idx, sep, emitted, out), k + |IndexList(idx)| + 1)
  {
    FirstIndexRead(fmt, csv, sep, k, idx, emitted, out);
    FieldListAtClose(fmt, csv, sep, k + |IndexList(idx)|, idx[0], emitted, out);
  }

  lemma NextIndexRead(fmt: string, csv: seq<string>, sep: char, k: nat, idx: seq<nat>, emitted: bool, out: string)
    requires |idx| > 1 && idx[0] < TWO64
    requires k + |IndexList(idx)| < |fmt| && fmt[k..k + |IndexList(idx)|] == IndexList(idx)
    requires fmt[k + |IndexList(idx)|] == ']'
    ensures var j, tail := k + |Decimal(idx[0])| + 1, IndexList(idx[1..]);
      && j + |tail| == k + |IndexList(idx)|
      && fmt[j..j + |tail|] == tail
      && fmt[j + |tail|] == ']'
      && FieldList(fmt, csv, sep, k, 0, emitted, out) ==
         match ListField(csv, sep, idx[0], emitted, out)
         case Failure(e) => Failure(e)
         case Success(w) => FieldList(fmt, csv, sep, j, 0, w.1, w.0)
  {
    var d := |Decimal(idx[0])|;
    var list := IndexList(idx);
    var tail := IndexList(idx[1..]);
    FirstIndexRead(fmt, csv, sep, k, idx, emitted, out);
    assert list == Decimal(idx[0]) + "," + tail;
    assert list[d] == ',' && list[d + 1..|list|] == tail;
    Slice(fmt, k, list, d, d + 1);
    Slice(fmt, k, list, d + 1, |list|);
    assert fmt[k + d] == ',' by {
      assert fmt[k + d..k + d + 1][0] == fmt[k + d];
    }
    FieldListAtComma(fmt, csv, sep, k + d, idx[0], emitted, out);
  }

  lemma SelectNext(csv: seq<string>, idx: seq<nat>, sep: char, emitted: bool, out: string)
    requires |idx| > 1
    ensures Select(csv, idx, sep, emitted, out) ==
      match ListField(csv, sep, idx[0], emitted, out)
      case Failure(e) => Failure(e)
      case Success(w) => Select(csv, idx[1..], sep, w.1, w.0)
  {
  }

  /** A field list written as `IndexList(idx)` followed by `]` writes what
      `Select` says, and ends after the bracket. */
  lemma {:induction false} FieldListReadsIndices(fmt: string, csv: seq<string>, sep: char, k: nat, idx: seq<nat>,
                                                emitted: bool, out: string)
    requires |idx| >= 1 && forall i :: 0 <= i < |idx| ==> idx[i] < TWO64
    requires k + |IndexList(idx)| < |fmt| && fmt[k..k + |IndexList(idx)|] == IndexList(idx)
    requires fmt[k + |IndexList(idx)|] == ']'
    ensures FieldList(fmt, csv, sep, k, 0, emitted, out) ==
            Ended(Select(csv, idx, sep, emitted, out), k + |IndexList(idx)| + 1)
    decreases |idx|
  {
    if |idx| == 1 {
      LastIndexRead(fmt, csv, sep, k, idx, emitted, out);
    } else {
      var j, tail := k + |Decimal(idx[0])| + 1, idx[1..];
      NextIndexRead(fmt, csv, sep, k, idx, emitted, out);
      SelectNext(csv, idx, sep, emitted, out);
      var lf := ListField(csv, sep, idx[0], emitted, out);
      if lf.Success? {
        assert forall i :: 0 <= i < |tail| ==> tail[i] < TWO64 by {
          forall i | 0 <= i < |tail| ensures tail[i] < TWO64 {
            assert tail[i] == idx[i + 1];
          }
        }
        FieldListReadsIndices(fmt, csv, sep, j, tail, lf.value.1, lf.value.0);
      }
    }
  }

  /** A format starting with `%f[` begins with the field list after the
      bracket. */
  lemma FieldMacroOpens(fmt: string, sentence: seq<byte>, node: Node)
    requires WellPlaced(sentence, node) && node.feature != [] && node.feature[0] != '\0'
    requires |fmt| >= 3 && fmt[0] == '%' && fmt[1] == 'f' && fmt[2] == '['
    ensures Step(fmt, sentence, node, 0) == FieldList(fmt, Fields(node.feature), '\t', 3, 0, false, "")
  {
  }

  /** A format that is one step long renders as that step. */
  lemma RenderOneStep(fmt: string, sentence: seq<byte>, node: Node, r: Result<string, WriteError>)
    requires WellPlaced(sentence, node) && |fmt| >= 1 && fmt[0] != '\0'
    requires Step(fmt, sentence, node, 0) == Ended(r, |fmt|)
    ensures Render(fmt, sentence, node, 0) == r
  {
    assert Render(fmt, sentence, node, |fmt|) == Success("");
    match r
    case Success(t) => assert t + "" == t;
    case Failure(_) =>
  }

  /** Where `%f[` and `]` put the index list. */
  lemma FieldMacroLayout(list: string, fmt: string)
    requires fmt == "%f[" + list + "]"
    ensures |fmt| == |list| + 4 && fmt[0] == '%' && fmt[1] == 'f' && fmt[2] == '['
    ensures fmt[3..3 + |list|] == list && fmt[3 + |list|] == ']'
  {
  }

  /** `%f[i0,i1,...]` writes the listed fields as `Select` says. */
  lemma FieldMacroSelects(sentence: seq<byte>, node: Node, idx: seq<nat>)
    requires WellPlaced(sentence, node) && node.feature != [] && node.feature[0] != '\0'
    requires |idx| >= 1 && forall i :: 0 <= i < |idx| ==> idx[i] < TWO64
    ensures Render("%f[" + IndexList(idx) + "]", sentence, node, 0) ==
            Select(Fields(node.feature), idx, '\t', false, "")
  {
    var list := IndexList(idx);
    var fmt := "%f[" + list + "]";
    FieldMacroLayout(list, fmt);
    FieldMacroStep(sentence, node, idx, fmt);
    RenderOneStep(fmt, sentence, node, Select(Fields(node.feature), idx, '\t', false, ""));
  }

  lemma FieldMacroStep(sentence: seq<byte>, node: Node, idx: seq<nat>, fmt: string)
    requires WellPlaced(sentence, node) && node.feature != [] && node.feature[0] != '\0'
    requires |idx| >= 1 && forall i :: 0 <= i < |idx| ==> idx[i] < TWO64
    requires |fmt| == |IndexList(idx)| + 4 && fmt[0] == '%' && fmt[1] == 'f' && fmt[2] == '['
    requires fmt[3..3 + |IndexList(idx)|] == IndexList(idx) && fmt[3 + |IndexList(idx)|] == ']'
    ensures Step(fmt, sentence, node, 0) == Ended(Select(Fields(node.feature), idx, '\t', false, ""), |fmt|)
  {
    FieldListReadsIndices(fmt, Fields(node.feature), '\t', 3, idx, false, "");
    FieldMacroOpens(fmt, sentence, node);
  }

  /** The fields listed by `idx`. */
  function Listed(csv: seq<string>, idx: seq<nat>): seq<string>
    requires forall i :: 0 <= i < |idx| ==> idx[i] < |csv|
  {
    seq(|idx|, i requires 0 <= i < |idx| => csv[idx[i]])
  }

  /** `fs` joined with `sep`. */
  function JoinWith(sep: char, fs: seq<string>): string
    requires |fs| >= 1
    decreases |fs|
  {
    if |fs| == 1 then fs[0] else fs[0] + [sep] + JoinWith(sep, fs[1..])
  }

  /** When every listed field exists, is not empty and does not start with
      `*`, a field list writes those fields joined with the separator. */
  lemma {:induction false} SelectJoins(csv: seq<string>, idx: seq<nat>, sep: char, emitted: bool, out: string)
    requires |idx| >= 1
    requires forall i :: 0 <= i < |idx| ==> idx[i] < |csv| && csv[idx[i]] != [] && csv[idx[i]][0] != '*'
    ensures Select(csv, idx, sep, emitted, out) == Success(Emit(out, JoinWith(sep, Listed(csv, idx)), emitted, sep))
    decreases |idx|
  {
    var f := csv[idx[0]];
    if |idx| > 1 {
      SelectJoins(csv, idx[1..], sep, true, Emit(out, f, emitted, sep));
      assert Listed(csv, idx[1..]) == Listed(csv, idx)[1..];
      var j := JoinWith(sep, Listed(csv, idx[1..]));
      assert Emit(Emit(out, f, emitted, sep), j, true, sep) == Emit(out, f + [sep] + j, emitted, sep);
    }
  }

  /** Whether listed field `i` is written: it does not start with `*`. */
  predicate Kept(csv: seq<string>, idx: seq<nat>, i: nat)
    requires i < |idx| && idx[i] < |csv| && csv[idx[i]] != []
  {
    csv[idx[i]][0] != '*'
  }

  /** What listed field `i` contributes: nothing when it starts with `*`;
      otherwise the field, after the separator exactly when the field
      listed before it was written. */
  function Piece(csv: seq<string>, idx: seq<nat>, sep: char, i: nat): string
    requires i < |idx| && forall k :: 0 <= k < |idx| ==> idx[k] < |csv| && csv[idx[k]] != []
  {
    if !Kept(csv, idx, i) then ""
    else if i > 0 && Kept(csv, idx, i - 1) then [sep] + csv[idx[i]]
    else csv[idx[i]]
  }

  /** The contributions of the first `j` listed fields, in order. */
  function Pieces(csv: seq<string>, idx: seq<nat>, sep: char, j: nat): string
    requires j <= |idx| && forall k :: 0 <= k < |idx| ==> idx[k] < |csv| && csv[idx[k]] != []
  {
    if j == 0 then "" else Pieces(csv, idx, sep, j - 1) + Piece(csv, idx, sep, j - 1)
  }

  /** A field list whose indices all name non-empty fields writes the
      contributions of all its fields: every field not starting with `*`,
      preceded by the separator exactly when the field listed just before
      it was written. */
  lemma SelectWritesPieces(csv: seq<string>, idx: seq<nat>, sep: char)
    requires |idx| >= 1 && forall k :: 0 <= k < |idx| ==> idx[k] < |csv| && csv[idx[k]] != []
    ensures Select(csv, idx, sep, false, "") == Success(Pieces(csv, idx, sep, |idx|))
  {
    SelectFrom(csv, idx, sep, 0);
    assert idx[0..] == idx;
  }

  lemma {:induction false} SelectFrom(csv: seq<string>, idx: seq<nat>, sep: char, j: nat)
    requires j < |idx| && forall k :: 0 <= k < |idx| ==> idx[k] < |csv| && csv[idx[k]] != []
    ensures Select(csv, idx[j..], sep, j > 0 && Kept(csv, idx, j - 1), Pieces(csv, idx, sep, j))
            == Success(Pieces(csv, idx, sep, |idx|))
    decreases |idx| - j
  {
    var emitted := j > 0 && Kept(csv, idx, j - 1);
    var out := Pieces(csv, idx, sep, j);
    PieceWritten(csv, idx, sep, j, emitted, out);
    assert idx[j..][0] == idx[j];
    if j + 1 < |idx| {
      assert idx[j..][1..] == idx[j + 1..];
      SelectFrom(csv, idx, sep, j + 1);
    }
  }

  /** Writing listed field `j`, with the flag the field before it left,
      adds its contribution and sets the flag iff it is kept. */
  lemma PieceWritten(csv: seq<string>, idx: seq<nat>, sep: char, j: nat, emitted: bool, out: string)
    requires j < |idx| && forall k :: 0 <= k < |idx| ==> idx[k] < |csv| && csv[idx[k]] != []
    requires emitted == (j > 0 && Kept(csv, idx, j - 1))
    ensures ListField(csv, sep, idx[j], emitted, out) == Success((out + Piece(csv, idx, sep, j), Kept(csv, idx, j)))
  {
    if !Kept(csv, idx, j) {
      assert out + Piece(csv, idx, sep, j) == out;
    } else if emitted {
      assert out + [sep] + csv[idx[j]] == out + ([sep] + csv[idx[j]]);
    }
  }

  /** A field starting with `*` resets the separator: `[a,*,b]` writes the
      two kept fields with nothing between them. */
  lemma StarResetsSeparator(csv: seq<string>, a: nat, s: nat, b: nat, sep: char)
    requires a < |csv| && s < |csv| && b < |csv| && csv[a] != [] && csv[s] != [] && csv[b] != []
    requires csv[a][0] != '*' && csv[s][0] == '*' && csv[b][0] != '*'
    ensures Select(csv, [a, s, b], sep, false, "") == Success(csv[a] + csv[b])
  {
    var idx := [a, s, b];
    SelectWritesPieces(csv, idx, sep);
    assert Pieces(csv, idx, sep, 1) == csv[a];
    assert Piece(csv, idx, sep, 1) == "";
    assert Pieces(csv, idx, sep, 2) == csv[a];
    assert Piece(csv, idx, sep, 2) == csv[b];
    assert Pieces(csv, idx, sep, |idx|) == csv[a] + csv[b];
  }

  /** A list of fields that all start with `*` writes nothing. */
  lemma AllStarredWritesNothing(csv: seq<string>, idx: seq<nat>, sep: char)
    requires |idx| >= 1 && forall k :: 0 <= k < |idx| ==> idx[k] < |csv| && csv[idx[k]] != []
    requires forall k :: 0 <= k < |idx| ==> csv[idx[k]][0] == '*'
    ensures Select(csv, idx, sep, false, "") == Success("")
  {
    SelectWritesPieces(csv, idx, sep);
    StarredPieces(csv, idx, sep, |idx|);
  }

  lemma {:induction false} StarredPieces(csv: seq<string>, idx: seq<nat>, sep: char, j: nat)
    requires j <= |idx| && forall k :: 0 <= k < |idx| ==> idx[k] < |csv| && csv[idx[k]] != []
    requires forall k :: 0 <= k < |idx| ==> csv[idx[k]][0] == '*'
    ensures Pieces(csv, idx, sep, j) == ""
  {
    if j > 0 {
      StarredPieces(csv, idx, sep, j - 1);
    }
  }

  /** A field list fails exactly when one of its indices is past the last
      field or names an empty field, and then with one of those two
      errors. */
  lemma {:induction false} SelectFails(csv: seq<string>, idx: seq<nat>, sep: char, emitted: bool, out: string)
    requires |idx| >= 1
    ensures Select(csv, idx, sep, emitted, out).Success? <==>
            forall i :: 0 <= i < |idx| ==> idx[i] < |csv| && csv[idx[i]] != []
    ensures Select(csv, idx, sep, emitted, out).Failure? ==>
            Select(csv, idx, sep, emitted, out).error in {IndexOutOfRange, EmptyField}
    decreases |idx|
  {
    match ListField(csv, sep, idx[0], emitted, out)
    case Failure(_) =>
    case Success(w) =>
      if |idx| > 1 {
        SelectFails(csv, idx[1..], sep, w.1, w.0);
        assert forall i :: 1 <= i < |idx| ==> idx[i] == idx[1..][i - 1];
      }
  }

  /** `%f` fails on a node without features, on a missing `[`, and on a
      character other than a digit, `,` or `]` right after the `[`. */
  lemma FieldMacroErrors(fmt: string, sentence: seq<byte>, node: Node)
    requires WellPlaced(sentence, node) && |fmt| >= 2 && fmt[0] == '%' && fmt[1] == 'f'
    ensures CharAt(node.feature, 0) == '\0' ==> Render(fmt, sentence, node, 0) == Failure(NoFeature)
    ensures CharAt(node.feature, 0) != '\0' && CharAt(fmt, 2) != '[' ==>
            Render(fmt, sentence, node, 0) == Failure(NoOpenBracket)
    ensures CharAt(node.feature, 0) != '\0' && CharAt(fmt, 2) == '[' &&
            CharAt(fmt, 3) != ']' && CharAt(fmt, 3) != ',' && !('0' <= CharAt(fmt, 3) <= '9') ==>
            Render(fmt, sentence, node, 0) == Failure(NoCloseBracket)
  {
  }

  /** `%f[i,j,...]` on a node with features fails exactly when a listed
      index is past the last field or names an empty field. */
  lemma FieldMacroFails(sentence: seq<byte>, node: Node, idx: seq<nat>)
    requires WellPlaced(sentence, node) && node.feature != [] && node.feature[0] != '\0'
    requires |idx| >= 1 && forall i :: 0 <= i < |idx| ==> idx[i] < TWO64
    ensures Render("%f[" + IndexList(idx) + "]", sentence, node, 0).Failure? <==>
            exists i :: 0 <= i < |idx| && (idx[i] >= |Fields(node.feature)| || Fields(node.feature)[idx[i]] == [])
  {
    FieldMacroSelects(sentence, node, idx);
    SelectFails(Fields(node.feature), idx, '\t', false, "");
  }

  // ---------------------------------------------------------------------
  // Properties: CSV fields

  /** A field that reads back unquoted: no comma, and no white space or
      quote at its start. */
  predicate Plain(f: string) {
    ',' !in f && (f != [] ==> !IsSpace(f[0]) && f[0] != '"')
  }

  function JoinCsv(fs: seq<string>): string
    decreases |fs|
  {
    if fs == [] then "" else if |fs| == 1 then fs[0] else fs[0] + "," + JoinCsv(fs[1..])
  }

  function DropTrailingEmpty(fs: seq<string>): seq<string> {
    if fs != [] && fs[|fs| - 1] == "" then fs[..|fs| - 1] else fs
  }

  lemma {:induction false} FindCommaAt(s: string, i: nat, k: nat)
    requires i <= k <= |s| && (forall j :: i <= j < k ==> s[j] != ',') && (k < |s| ==> s[k] == ',')
    ensures FindComma(s, i) == k
    decreases k - i
  {
    if i < k {
      FindCommaAt(s, i + 1, k);
    }
  }

  /** A plain field at `i` that ends at `k`, at a comma or at the end. */
  lemma PlainFieldAt(s: string, i: nat, k: nat, f: string)
    requires i <= k <= |s| && s[i..k] == f && Plain(f) && (k < |s| ==> s[k] == ',')
    ensures i < |s| ==> !IsSpace(s[i]) && s[i] != '"'
    ensures FindComma(s, i) == k
  {
    forall j | i <= j < k ensures s[j] != ',' {
      assert s[j] == f[j - i];
    }
    FindCommaAt(s, i, k);
    if f != "" {
      assert s[i] == f[0];
    }
  }

  /** How `FieldsFrom` skips white space before a field. */
  lemma FieldsFromSpace(s: string, i: nat)
    requires i < |s| && IsSpace(s[i])
    ensures FieldsFrom(s, i) == [] + FieldsFrom(s, i + 1)
  {
  }

  /** How `FieldsFrom` reads a field that starts with a quote. */
  lemma FieldsFromQuote(s: string, i: nat)
    requires i < |s| && s[i] == '"'
    ensures var q := Quoted(s, i + 1, "");
      FieldsFrom(s, i) == [q.0] + FieldsFrom(s, FindComma(s, q.1) + 1)
  {
  }

  /** The same, for a quoted field known to read as `f` and to end at `e`. */
  lemma FieldsFromQuoteAt(s: string, i: nat, f: string, e: nat)
    requires i < |s| && s[i] == '"'
    requires Quoted(s, i + 1, "").0 == f && FindComma(s, Quoted(s, i + 1, "").1) == e
    ensures FieldsFrom(s, i) == [f] + FieldsFrom(s, e + 1)
  {
    FieldsFromQuote(s, i);
  }

  /** How `FieldsFrom` reads a field that starts with neither white space
      nor a quote. */
  lemma FieldsFromPlain(s: string, i: nat)
    requires i < |s| && !IsSpace(s[i]) && s[i] != '"'
    ensures FieldsFrom(s, i) == [s[i..FindComma(s, i)]] + FieldsFrom(s, FindComma(s, i) + 1)
  {
  }

  /** Reading the first of several plain fields. */
  lemma PlainFirstField(s: string, i: nat, fs: seq<string>)
    requires |fs| > 1 && i <= |s| && s[i..] == JoinCsv(fs)
    requires forall f :: f in fs ==> Plain(f)
    ensures i + |fs[0]| < |s| && s[i + |fs[0]| + 1..] == JoinCsv(fs[1..])
    ensures FieldsFrom(s, i) == [fs[0]] + FieldsFrom(s, i + |fs[0]| + 1)
  {
    var f := fs[0];
    assert f in fs;
    var k := i + |f|;
    var rest := JoinCsv(fs[1..]);
    assert s[i..] == f + "," + rest;
    CommaSplit(s, i, f, rest);
    PlainFieldAt(s, i, k, f);
    FieldsFromPlain(s, i);
  }

  /** Reading the last plain field. */
  lemma PlainLastField(s: string, i: nat, f: string)
    requires i <= |s| && s[i..] == f && Plain(f)
    ensures FieldsFrom(s, i) == DropTrailingEmpty([f])
  {
    assert s[i..|s|] == f;
    PlainFieldAt(s, i, |s|, f);
    if i < |s| {
      FieldsFromPlain(s, i);
    }
  }

  lemma DropTrailingCons(f: string, tail: seq<string>)
    requires tail != []
    ensures DropTrailingEmpty([f] + tail) == [f] + DropTrailingEmpty(tail)
  {
    var fs := [f] + tail;
    assert fs[|fs| - 1] == tail[|tail| - 1];
    if tail[|tail| - 1] == "" {
      assert fs[..|fs| - 1] == [f] + tail[..|tail| - 1];
    }
  }

  lemma {:induction false} FieldsFromJoin(s: string, i: nat, fs: seq<string>)
    requires i <= |s| && s[i..] == JoinCsv(fs)
    requires forall f :: f in fs ==> Plain(f)
    ensures FieldsFrom(s, i) == DropTrailingEmpty(fs)
    decreases |fs|, 1
  {
    if |fs| == 1 {
      assert fs[0] in fs;
      assert fs == [fs[0]];
      PlainLastField(s, i, fs[0]);
    } else if |fs| > 1 {
      FieldsFromJoinMore(s, i, fs);
    }
  }

  lemma {:induction false} FieldsFromJoinMore(s: string, i: nat, fs: seq<string>)
    requires |fs| > 1 && i <= |s| && s[i..] == JoinCsv(fs)
    requires forall f :: f in fs ==> Plain(f)
    ensures FieldsFrom(s, i) == DropTrailingEmpty(fs)
    decreases |fs|, 0
  {
    var f, tail := fs[0], fs[1..];
    var j := i + |f| + 1;
    PlainFirstField(s, i, fs);
    assert forall g :: g in tail ==> g in fs;
    FieldsFromJoin(s, j, tail);
    DropTrailingCons(f, tail);
    assert fs == [f] + tail;
  }

  /** Plain fields joined with commas split back into themselves; a
      trailing empty field is not read back. */
  lemma SplitJoinedPlain(fs: seq<string>)
    requires forall f :: f in fs ==> Plain(f)
    ensures Fields(JoinCsv(fs)) == DropTrailingEmpty(fs)
  {
    FieldsFromJoin(JoinCsv(fs), 0, fs);
  }

  /** `f` with every quote doubled. */
  function Doubled(f: string): (r: string)
    decreases |f|
  {
    if f == [] then [] else (if f[0] == '"' then "\"\"" else [f[0]]) + Doubled(f[1..])
  }

  function QuoteField(f: string): string {
    "\"" + Doubled(f) + "\""
  }

  function JoinQuoted(fs: seq<string>): string
    decreases |fs|
  {
    if fs == [] then "" else if |fs| == 1 then QuoteField(fs[0]) else QuoteField(fs[0]) + "," + JoinQuoted(fs[1..])
  }

  lemma {:induction false} QuotedReads(s: string, j: nat, f: string, val: string)
    requires j + |Doubled(f)| < |s| && s[j..j + |Doubled(f)|] == Doubled(f) && s[j + |Doubled(f)|] == '"'
    requires j + |Doubled(f)| + 1 < |s| ==> s[j + |Doubled(f)| + 1] != '"'
    ensures Quoted(s, j, val) == (val + f, j + |Doubled(f)| + 1)
    decreases |f|
  {
    var d := Doubled(f);
    if f == [] {
      assert val + f == val;
    } else {
      var head := if f[0] == '"' then "\"\"" else [f[0]];
      var rest := Doubled(f[1..]);
      assert d == head + rest;
      assert s[j..j + |head|] == head by {
        assert s[j..j + |head|] == s[j..j + |d|][..|head|];
      }
      assert s[j + |head|..j + |head| + |rest|] == rest by {
        assert s[j + |head|..j + |head| + |rest|] == s[j..j + |d|][|head|..];
      }
      if f[0] == '"' {
        assert s[j] == '"' && s[j + 1] == '"';
        QuotedReads(s, j + 2, f[1..], val + ['"']);
        assert val + ['"'] + f[1..] == val + f;
      } else {
        assert s[j] == f[0];
        QuotedReads(s, j + 1, f[1..], val + [f[0]]);
        assert val + [f[0]] + f[1..] == val + f;
      }
    }
  }

  /** A quoted field at `i`, followed by a comma or the end, reads as `f`;
      the next field starts after the comma. */
  lemma QuotedFieldAt(s: string, i: nat, f: string, e: nat)
    requires e == i + |QuoteField(f)| && e <= |s| && s[i..e] == QuoteField(f)
    requires e < |s| ==> s[e] == ','
    ensures FieldsFrom(s, i) == [f] + FieldsFrom(s, e + 1)
  {
    var d := Doubled(f);
    var q := QuoteField(f);
    assert q[0] == '"' && q[1..1 + |d|] == d && q[1 + |d|] == '"';
    Slice(s, i, q, 0, 1);
    Slice(s, i, q, 1, 1 + |d|);
    Slice(s, i, q, 1 + |d|, 2 + |d|);
    QuotedReads(s, i + 1, f, "");
    assert "" + f == f;
    FindCommaAt(s, e, e);
    FieldsFromQuoteAt(s, i, f, e);
  }

  /** A quoted field followed by a comma reads as itself, and the rest is
      read from after the comma. */
  lemma NextQuotedField(s: string, i: nat, f: string, rest: string) returns (j: nat)
    requires i <= |s| && s[i..] == QuoteField(f) + "," + rest
    ensures j <= |s| && s[j..] == rest
    ensures FieldsFrom(s, i) == [f] + FieldsFrom(s, j)
  {
    var q := QuoteField(f);
    var e := i + |q|;
    CommaSplit(s, i, q, rest);
    QuotedFieldAt(s, i, f, e);
    j := e + 1;
  }

  /** The last quoted field reads as itself and ends the input. */
  lemma LastQuotedField(s: string, i: nat, f: string)
    requires i <= |s| && s[i..] == QuoteField(f)
    ensures FieldsFrom(s, i) == [f]
  {
    var e := i + |QuoteField(f)|;
    assert s[i..e] == QuoteField(f);
    QuotedFieldAt(s, i, f, e);
    assert FieldsFrom(s, e + 1) == [];
  }

  lemma {:induction false} FieldsFromQuoted(s: string, i: nat, fs: seq<string>)
    requires |fs| >= 1 && i <= |s| && s[i..] == JoinQuoted(fs)
    ensures FieldsFrom(s, i) == fs
    decreases |fs|
  {
    if |fs| == 1 {
      LastQuotedField(s, i, fs[0]);
      assert fs == [fs[0]];
    } else {
      var j := NextQuotedField(s, i, fs[0], JoinQuoted(fs[1..]));
      FieldsFromQuoted(s, j, fs[1..]);
      assert [fs[0]] + fs[1..] == fs;
    }
  }

  /** Any fields, quoted with their quotes doubled and joined with commas,
      split back into themselves. */
  lemma SplitJoinedQuoted(fs: seq<string>)
    requires |fs| >= 1
    ensures Fields(JoinQuoted(fs)) == fs
  {
    FieldsFromQuoted(JoinQuoted(fs), 0, fs);
  }
}
