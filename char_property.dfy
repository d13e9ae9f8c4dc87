/** The character classifier (`char.bin`): a per-code-point table of
    category records, a UTF-8 decoder into the table's 16-bit key space, and
    the scan over a run of characters whose categories overlap. */
module CharProperty {
  import opened Common

  /** One classification record: an 18-bit category mask, the default
      category used for unknown words, the maximum number of characters of
      an incremental unknown word, the grouping flag and the always-invoke
      flag. */
  datatype CharInfo = CharInfo(kinds: bv18, defaultType: bv8, length: bv4, group: bool, invoke: bool)

  /** The value a default-constructed record holds (every field 0). */
  const ZERO_INFO := CharInfo(0, 0, 0, false, false)

  /** Number of records `open` demands in the table. */
  const NUM_RECORDS: nat := 0xFFFF

  /** True iff the two category masks share a bit. */
  predicate IsKindOf(a: CharInfo, c: CharInfo) {
    a.kinds & c.kinds != 0
  }

  lemma IsKindOfSymmetric(a: CharInfo, c: CharInfo)
    ensures IsKindOf(a, c) == IsKindOf(c, a)
  {
  }

  /** The packed 32-bit layout of a record: fields are allocated from the
      least significant bit, in declaration order (18/8/4/1/1 bits). */
  function DecodeCharInfo(w: bv32): CharInfo {
    CharInfo((w & 0x3FFFF) as bv18,
             ((w >> 18) & 0xFF) as bv8,
             ((w >> 26) & 0xF) as bv4,
             (w >> 30) & 1 == 1,
             (w >> 31) & 1 == 1)
  }

  function EncodeCharInfo(c: CharInfo): bv32 {
    (c.kinds as bv32)
    | ((c.defaultType as bv32) << 18)
    | ((c.length as bv32) << 26)
    | ((if c.group then 1 else 0) << 30)
    | ((if c.invoke then 1 else 0) << 31)
  }

  /** Decoding a packed record recovers every field that was packed. */
  lemma DecodeEncode(c: CharInfo)
    ensures DecodeCharInfo(EncodeCharInfo(c)) == c
  {
  }

  /** Every 32-bit word is the packing of the record it decodes to. */
  lemma EncodeDecode(w: bv32)
    ensures EncodeCharInfo(DecodeCharInfo(w)) == w
  {
  }

  // ---------------------------------------------------------------------
  // UTF-8 decoding into 16-bit table keys

  /** Decodes the character at the start of `s` into a table key and the
      number of bytes it occupies. One- to three-byte sequences give their
      code point; four- to six-byte leads give key 0 with their length; any
      other lead, or a lead whose sequence is cut short, gives key 0 and
      length 1. Continuation bytes are not validated. */
  function Utf8ToUcs2(s: seq<byte>): (r: (bv16, nat))
    requires |s| > 0
    ensures 1 <= r.1 <= |s| && r.1 <= 6
    ensures r.1 >= 4 ==> r.0 == 0
  {
    var len := |s|;
    if s[0] < 0x80 then (s[0] as bv16, 1)
    else if len >= 2 && s[0] & 0xe0 == 0xc0 then
      (((s[0] & 0x1f) as bv16 << 6) | (s[1] & 0x3f) as bv16, 2)
    else if len >= 3 && s[0] & 0xf0 == 0xe0 then
      (((s[0] & 0x0f) as bv16 << 12) | ((s[1] & 0x3f) as bv16 << 6) | (s[2] & 0x3f) as bv16, 3)
    else if len >= 4 && s[0] & 0xf8 == 0xf0 then (0, 4)
    else if len >= 5 && s[0] & 0xfc == 0xf8 then (0, 5)
    else if len >= 6 && s[0] & 0xfe == 0xfc then (0, 6)
    else (0, 1)
  }

  /** Standard UTF-8 encoding of a code point below 0x10000. */
  function EncodeBmp(cp: bv16): (r: seq<byte>)
    ensures 1 <= |r| <= 3
  {
    if cp < 0x80 then [cp as bv8]
    else if cp < 0x800 then [0xc0 | (cp >> 6) as bv8, 0x80 | (cp & 0x3f) as bv8]
    else [0xe0 | (cp >> 12) as bv8, 0x80 | ((cp >> 6) & 0x3f) as bv8, 0x80 | (cp & 0x3f) as bv8]
  }

  /** Standard UTF-8 encoding of a code point above 0xFFFF. */
  function EncodeSupplementary(cp: bv21): (r: seq<byte>)
    requires cp >= 0x1_0000
    ensures |r| == 4
  {
    [0xf0 | (cp >> 18) as bv8, 0x80 | ((cp >> 12) & 0x3f) as bv8,
     0x80 | ((cp >> 6) & 0x3f) as bv8, 0x80 | (cp & 0x3f) as bv8]
  }

  lemma TwoByteLead(s: seq<byte>)
    requires |s| >= 2 && s[0] >= 0x80 && s[0] & 0xe0 == 0xc0
    ensures Utf8ToUcs2(s) == (((s[0] & 0x1f) as bv16 << 6) | (s[1] & 0x3f) as bv16, 2)
  {
  }

  lemma ThreeByteLead(s: seq<byte>)
    requires |s| >= 3 && s[0] & 0xf0 == 0xe0
    ensures Utf8ToUcs2(s) == (((s[0] & 0x0f) as bv16 << 12) | ((s[1] & 0x3f) as bv16 << 6) | (s[2] & 0x3f) as bv16, 3)
  {
    var b0 := s[0];
    assert b0 >= 0x80 && b0 & 0xe0 != 0xc0;
  }

  lemma TwoByteForm(cp: bv16)
    requires 0x80 <= cp < 0x800
    ensures var b0, b1 := 0xc0 | (cp >> 6) as bv8, 0x80 | (cp & 0x3f) as bv8;
      b0 >= 0x80 && b0 & 0xe0 == 0xc0 && ((b0 & 0x1f) as bv16 << 6) | (b1 & 0x3f) as bv16 == cp
  {
  }

  lemma ThreeByteForm(cp: bv16)
    requires 0x800 <= cp
    ensures var b0, b1, b2 := 0xe0 | (cp >> 12) as bv8, 0x80 | ((cp >> 6) & 0x3f) as bv8, 0x80 | (cp & 0x3f) as bv8;
      b0 & 0xf0 == 0xe0 &&
      ((b0 & 0x0f) as bv16 << 12) | ((b1 & 0x3f) as bv16 << 6) | (b2 & 0x3f) as bv16 == cp
  {
  }

  lemma DecodeTwoByteForm(cp: bv16, s: seq<byte>)
    requires 0x80 <= cp < 0x800 && |s| >= 2
    requires s[0] == 0xc0 | (cp >> 6) as bv8 && s[1] == 0x80 | (cp & 0x3f) as bv8
    ensures Utf8ToUcs2(s) == (cp, 2)
  {
    TwoByteForm(cp);
    TwoByteLead(s);
  }

  lemma DecodeThreeByteForm(cp: bv16, s: seq<byte>)
    requires 0x800 <= cp && |s| >= 3
    requires s[0] == 0xe0 | (cp >> 12) as bv8 && s[1] == 0x80 | ((cp >> 6) & 0x3f) as bv8 && s[2] == 0x80 | (cp & 0x3f) as bv8
    ensures Utf8ToUcs2(s) == (cp, 3)
  {
    ThreeByteForm(cp);
    ThreeByteLead(s);
  }

  /** Decoding the UTF-8 form of any code point below 0x10000, whatever
      follows it, yields that code point and the length of its encoding. */
  lemma DecodeBmp(cp: bv16, rest: seq<byte>)
    ensures Utf8ToUcs2(EncodeBmp(cp) + rest) == (cp, |EncodeBmp(cp)|)
  {
    var e := EncodeBmp(cp);
    var s := e + rest;
    assert s[0] == e[0];
    if cp >= 0x800 {
      assert s[1] == e[1] && s[2] == e[2];
      DecodeThreeByteForm(cp, s);
    } else if cp >= 0x80 {
      assert s[1] == e[1];
      DecodeTwoByteForm(cp, s);
    }
  }

  /** A character outside the 16-bit range is consumed whole and mapped to
      the placeholder key 0. */
  lemma DecodeSupplementary(cp: bv21, rest: seq<byte>)
    requires cp >= 0x1_0000
    ensures Utf8ToUcs2(EncodeSupplementary(cp) + rest) == (0, 4)
  {
    var s := EncodeSupplementary(cp) + rest;
    assert s[0] == 0xf0 | (cp >> 18) as bv8;
  }

  /** A lead byte whose sequence is cut short is consumed alone as key 0. */
  lemma DecodeTruncated(s: seq<byte>)
    requires |s| > 0 && s[0] >= 0x80
    requires (s[0] & 0xe0 == 0xc0 && |s| < 2) || (s[0] & 0xf0 == 0xe0 && |s| < 3)
             || (s[0] & 0xf8 == 0xf0 && |s| < 4)
    ensures Utf8ToUcs2(s) == (0, 1)
  {
  }

  /** Five- and six-byte leads with their bytes present are consumed
      whole, as key 0. */
  lemma DecodeLongLeads(s: seq<byte>)
    requires |s| > 0
    ensures s[0] & 0xfc == 0xf8 && |s| >= 5 ==> Utf8ToUcs2(s) == (0, 5)
    ensures s[0] & 0xfe == 0xfc && |s| >= 6 ==> Utf8ToUcs2(s) == (0, 6)
  {
  }

  /** Any byte that starts none of the one- to six-byte forms with its
      bytes present (a stray continuation byte, 0xFE or 0xFF, or a lead
      whose sequence is cut short) is consumed alone as key 0. */
  lemma DecodeOtherwise(s: seq<byte>)
    requires |s| > 0 && s[0] >= 0x80
    requires !(|s| >= 2 && s[0] & 0xe0 == 0xc0) && !(|s| >= 3 && s[0] & 0xf0 == 0xe0)
    requires !(|s| >= 4 && s[0] & 0xf8 == 0xf0) && !(|s| >= 5 && s[0] & 0xfc == 0xf8)
    requires !(|s| >= 6 && s[0] & 0xfe == 0xfc)
    ensures Utf8ToUcs2(s) == (0, 1)
  {
  }

  /** In particular a stray continuation byte, 0xFE or 0xFF is consumed
      alone as key 0. */
  lemma DecodeStray(s: seq<byte>)
    requires |s| > 0 && (s[0] & 0xc0 == 0x80 || s[0] >= 0xfe)
    ensures Utf8ToUcs2(s) == (0, 1)
  {
  }

  lemma SameLowBits(s: seq<byte>, t: seq<byte>)
    requires |s| >= 3 && |t| >= 3 && s[0] & 0xf0 == 0xe0 && t[0] == s[0]
    requires s[1] & 0x3f == t[1] & 0x3f && s[2] & 0x3f == t[2] & 0x3f
    ensures Utf8ToUcs2(s) == Utf8ToUcs2(t)
  {
    ThreeByteLead(s);
    ThreeByteLead(t);
  }

  /** The two high bits of continuation bytes are never looked at. */
  lemma ContinuationUnchecked(b0: byte, b1: byte, b2: byte, rest: seq<byte>)
    requires b0 & 0xf0 == 0xe0
    ensures Utf8ToUcs2([b0, b1, b2] + rest) == Utf8ToUcs2([b0, 0x80 | (b1 & 0x3f), 0x80 | (b2 & 0x3f)] + rest)
  {
    var s := [b0, b1, b2] + rest;
    var t := [b0, 0x80 | (b1 & 0x3f), 0x80 | (b2 & 0x3f)] + rest;
    assert s[0] == t[0] == b0 && s[1] == b1 && s[2] == b2;
    assert t[1] & 0x3f == b1 & 0x3f && t[2] & 0x3f == b2 & 0x3f;
    SameLowBits(s, t);
  }

  // ---------------------------------------------------------------------
  // The loaded classifier

  /** A loaded `char.bin`: the category names and the record table. */
  datatype CharProperty = CharProperty(names: seq<seq<byte>>, table: seq<CharInfo>)

  ghost predicate Valid(p: CharProperty) {
    |p.table| == NUM_RECORDS
  }

  datatype OpenError = InvalidFileSize

  /** The only size `open` accepts: a 4-byte category count, that many
      32-byte names, and NUM_RECORDS packed records. */
  predicate SizeOk(file: seq<byte>) {
    |file| >= 4 && |file| == 4 + 32 * Le32(file, 0) + 4 * NUM_RECORDS
  }

  function RecordAt(file: seq<byte>, off: nat, k: nat): CharInfo
    requires off + 4 * (k + 1) <= |file|
  {
    DecodeCharInfo(Le32(file, off + 4 * k) as bv32)
  }

  /** The NUM_RECORDS 4-byte records stored from offset `off`. */
  function Records(file: seq<byte>, off: nat): (t: seq<CharInfo>)
    requires off + 4 * NUM_RECORDS <= |file|
    ensures |t| == NUM_RECORDS
  {
    seq(NUM_RECORDS, k requires 0 <= k < NUM_RECORDS => RecordAt(file, off, k))
  }

  /** The first `n` category names, each in a 32-byte NUL-padded slot,
      read as C strings. */
  function Names(file: seq<byte>, n: nat): (names: seq<seq<byte>>)
    requires 4 + 32 * n <= |file|
    ensures |names| == n
  {
    seq(n, i requires 0 <= i < n => CString(file[4 + 32 * i..]))
  }

  lemma NamesSnoc(file: seq<byte>, n: nat)
    requires 4 + 32 * (n + 1) <= |file|
    ensures Names(file, n + 1) == Names(file, n) + [CString(file[4 + 32 * n..])]
  {
  }

  /** The classifier an accepted file holds. */
  function Decoded(file: seq<byte>): (p: CharProperty)
    requires SizeOk(file)
    ensures Valid(p)
  {
    var csize := Le32(file, 0);
    CharProperty(Names(file, csize), Records(file, 4 + 32 * csize))
  }

  /** The loop of `open` that reads the `csize` category names. */
  method ReadNames(file: seq<byte>, csize: nat) returns (names: seq<seq<byte>>)
    requires 4 + 32 * csize <= |file|
    ensures names == Names(file, csize)
  {
    names := [];
    var ptr := 4;
    var i := 0;
    while i < csize
      invariant 0 <= i <= csize
      invariant ptr == 4 + 32 * i
      invariant names == Names(file, i)
    {
      NamesSnoc(file, i);
      names := names + [CString(file[ptr..])];
      ptr := ptr + 32;
      i := i + 1;
    }
  }

  /** Validates the file size and reads the category names and the table. */
  method Open(file: seq<byte>) returns (r: Result<CharProperty, OpenError>)
    ensures r.Failure? <==> !SizeOk(file)
    ensures r.Success? ==> r.value == Decoded(file)
  {
    if |file| < 4 {
      return Failure(InvalidFileSize);
    }
    var csize := Le32(file, 0);
    var fsize := 4 + csize * 32 + 4 * NUM_RECORDS;
    if fsize != |file| {
      return Failure(InvalidFileSize);
    }
    var names := ReadNames(file, csize);
    r := Success(CharProperty(names, Records(file, 4 + 32 * csize)));
  }

  /** The record the source reads for a key: an unguarded table index. */
  function GetCharInfoAsWritten(p: CharProperty, key: bv16): (c: CharInfo)
    requires key as int < |p.table|
    ensures c in p.table
  {
    p.table[key]
  }

  /** Key 0xFFFF, produced by the three bytes EF BF BF, lies one past the
      end of every table `Open` accepts. */
  lemma KeyFFFFOutsideTable(p: CharProperty)
    requires Valid(p)
    ensures Utf8ToUcs2([0xEF, 0xBF, 0xBF]) == (0xFFFF, 3)
    ensures !(0xFFFF < |p.table|)
  {
  }

  /** The record for a key, with keys beyond the table treated like code
      points beyond 16 bits: they fall back to the record of key 0. */
  function GetCharInfoKey(p: CharProperty, key: bv16): (c: CharInfo)
    requires Valid(p)
    ensures key as int < NUM_RECORDS ==> c == GetCharInfoAsWritten(p, key)
    ensures key as int >= NUM_RECORDS ==> c == p.table[0]
  {
    if key as int < |p.table| then p.table[key] else p.table[0]
  }

  /** Classifies the character at the start of `s`: its record and its
      length in bytes. */
  function GetCharInfo(p: CharProperty, s: seq<byte>): (r: (CharInfo, nat))
    requires Valid(p) && |s| > 0
    ensures 1 <= r.1 <= |s|
    ensures r.0 in p.table
  {
    var (key, mlen) := Utf8ToUcs2(s);
    (GetCharInfoKey(p, key), mlen)
  }

  // ---------------------------------------------------------------------
  // Scanning a run of overlapping categories

  /** The four values the scan returns: the record and length of the last
      character decoded, the number of characters consumed and their total
      length in bytes. */
  datatype Seek = Seek(info: CharInfo, mlen: nat, clen: nat, blen: nat)

  /** A character classifier: the record and byte length of the character
      at the start of its input. The scan below is stated for any
      classifier that consumes at least one and at most all of a non-empty
      input; the analyzer uses `Classify`. */
  type Classifier = seq<byte> -> (CharInfo, nat)

  ghost predicate Consumes(cls: Classifier) {
    forall s: seq<byte> :: |s| > 0 ==> 1 <= cls(s).1 <= |s|
  }

  /** The table's classifier, `GetCharInfo` on every non-empty input. */
  function Classify(p: CharProperty): (cls: Classifier)
    requires Valid(p)
    ensures Consumes(cls)
  {
    s => if |s| > 0 then GetCharInfo(p, s) else (ZERO_INFO, 1)
  }

  lemma ClassifyIs(p: CharProperty, s: seq<byte>)
    requires Valid(p) && |s| > 0
    ensures Classify(p)(s) == GetCharInfo(p, s)
  {
  }

  /** The scan from the middle of its loop: `c` is the reference record and
      `fail`, `mlen`, `clen`, `blen` the loop's variables. */
  function SeekFrom(cls: Classifier, sv: seq<byte>, c: CharInfo, fail: CharInfo, mlen: nat, clen: nat, blen: nat): Seek
    requires Consumes(cls)
    decreases |sv|
  {
    if sv == [] then Seek(fail, mlen, clen, blen)
    else
      var (f, m) := cls(sv);
      if !IsKindOf(c, f) then Seek(f, m, clen, blen)
      else SeekFrom(cls, sv[m..], f, f, m, clen + 1, blen + m)
  }

  /** The scan started with reference `c` on `sv`. */
  function SeekToOther(p: CharProperty, sv: seq<byte>, c: CharInfo): Seek
    requires Valid(p)
  {
    SeekFrom(Classify(p), sv, c, ZERO_INFO, 0, 0, 0)
  }

  /** Consumes characters while each one shares a category with the one
      before it (the first with `c`), and reports where it stopped. */
  method SeekToOtherType(p: CharProperty, sv0: seq<byte>, c0: CharInfo) returns (r: Seek)
    requires Valid(p)
    ensures r == SeekToOther(p, sv0, c0)
  {
    var cls := Classify(p);
    var sv, c := sv0, c0;
    var fail := ZERO_INFO;
    var mlen, clen, blen := 0, 0, 0;
    while |sv| > 0
      invariant SeekToOther(p, sv0, c0) == SeekFrom(cls, sv, c, fail, mlen, clen, blen)
    {
      var (f, m) := GetCharInfo(p, sv);
      ClassifyIs(p, sv);
      fail, mlen := f, m;
      if !IsKindOf(c, fail) {
        break;
      }
      blen := blen + mlen;
      sv := sv[mlen..];
      clen := clen + 1;
      c := fail;
    }
    r := Seek(fail, mlen, clen, blen);
  }

  lemma {:induction false} SeekFromBounds(cls: Classifier, sv: seq<byte>, c: CharInfo, fail: CharInfo, mlen: nat, clen: nat, blen: nat)
    requires Consumes(cls) && clen <= blen
    ensures var r := SeekFrom(cls, sv, c, fail, mlen, clen, blen);
      blen <= r.blen <= blen + |sv| && clen <= r.clen <= clen + (r.blen - blen) &&
      (r.clen == clen <==> r.blen == blen)
    decreases |sv|
  {
    if sv != [] {
      var (f, m) := cls(sv);
      if IsKindOf(c, f) {
        SeekFromBounds(cls, sv[m..], f, f, m, clen + 1, blen + m);
      }
    }
  }

  lemma {:induction false} SeekFromStop(cls: Classifier, sv: seq<byte>, c: CharInfo, fail: CharInfo, mlen: nat, clen: nat, blen: nat)
    requires Consumes(cls)
    ensures var r := SeekFrom(cls, sv, c, fail, mlen, clen, blen);
      blen <= r.blen <= blen + |sv| &&
      (r.blen < blen + |sv| ==> (r.info, r.mlen) == cls(sv[r.blen - blen..]))
    decreases |sv|
  {
    if sv != [] {
      var (f, m) := cls(sv);
      if IsKindOf(c, f) {
        var rest := sv[m..];
        SeekFromStop(cls, rest, f, f, m, clen + 1, blen + m);
        var r := SeekFrom(cls, rest, f, f, m, clen + 1, blen + m);
        if r.blen < blen + |sv| {
          assert rest[r.blen - (blen + m)..] == sv[r.blen - blen..];
        }
      }
    }
  }

  /** The scan consumes at most the whole input, at least one byte per
      character, and when it stops early it reports the character at the
      stopping point. */
  lemma SeekBounds(p: CharProperty, sv: seq<byte>, c: CharInfo)
    requires Valid(p)
    ensures var r := SeekToOther(p, sv, c);
      r.blen <= |sv| && r.clen <= r.blen && (r.clen == 0 <==> r.blen == 0) &&
      (r.blen < |sv| ==> (r.info, r.mlen) == GetCharInfo(p, sv[r.blen..]))
  {
    var cls := Classify(p);
    SeekFromBounds(cls, sv, c, ZERO_INFO, 0, 0, 0);
    SeekFromStop(cls, sv, c, ZERO_INFO, 0, 0, 0);
    var r := SeekToOther(p, sv, c);
    if r.blen < |sv| {
      ClassifyIs(p, sv[r.blen..]);
    }
  }

  /** On empty input the scan returns the all-zero record. */
  lemma SeekEmpty(p: CharProperty, c: CharInfo)
    requires Valid(p)
    ensures SeekToOther(p, [], c) == Seek(ZERO_INFO, 0, 0, 0)
  {
  }

  /** A reference record with no category bit consumes nothing. */
  lemma SeekNoCategory(p: CharProperty, sv: seq<byte>, c: CharInfo)
    requires Valid(p) && c.kinds == 0
    ensures SeekToOther(p, sv, c).blen == 0
  {
  }

  lemma {:induction false} SeekFromShift(cls: Classifier, sv: seq<byte>, c: CharInfo, fail: CharInfo, mlen: nat, clen: nat, blen: nat, dc: nat, db: nat)
    requires Consumes(cls)
    ensures var r := SeekFrom(cls, sv, c, fail, mlen, clen, blen);
      SeekFrom(cls, sv, c, fail, mlen, clen + dc, blen + db) == Seek(r.info, r.mlen, r.clen + dc, r.blen + db)
    decreases |sv|
  {
    if sv != [] {
      var (f, m) := cls(sv);
      if IsKindOf(c, f) {
        SeekFromShift(cls, sv[m..], f, f, m, clen + 1, blen + m, dc, db);
      }
    }
  }

  /** The reference is replaced by each consumed character: once the first
      character overlaps `c`, the rest of the scan is a scan of the
      remaining input against that character's own record. */
  lemma SeekChains(p: CharProperty, sv: seq<byte>, c: CharInfo)
    requires Valid(p) && |sv| > 0
    requires IsKindOf(c, GetCharInfo(p, sv).0)
    requires |sv| > GetCharInfo(p, sv).1
    ensures var (f, m) := GetCharInfo(p, sv);
      var r := SeekToOther(p, sv[m..], f);
      SeekToOther(p, sv, c) == Seek(r.info, r.mlen, r.clen + 1, r.blen + m)
  {
    var (f, m) := GetCharInfo(p, sv);
    ClassifyIs(p, sv);
    SeekFromFirst(Classify(p), sv, c, f, m);
  }

  /** `SeekChains` for any classifier. */
  lemma SeekFromFirst(cls: Classifier, sv: seq<byte>, c: CharInfo, f: CharInfo, m: nat)
    requires Consumes(cls) && |sv| > 0 && cls(sv) == (f, m) && IsKindOf(c, f) && m < |sv|
    ensures var r := SeekFrom(cls, sv[m..], f, ZERO_INFO, 0, 0, 0);
      SeekFrom(cls, sv, c, ZERO_INFO, 0, 0, 0) == Seek(r.info, r.mlen, r.clen + 1, r.blen + m)
  {
    var rest := sv[m..];
    var (f2, m2) := cls(rest);
    assert SeekFrom(cls, sv, c, ZERO_INFO, 0, 0, 0) == SeekFrom(cls, rest, f, f, m, 1, m);
    if IsKindOf(f, f2) {
      SeekFromShift(cls, rest[m2..], f2, f2, m2, 1, m2, 1, m);
    }
  }

  /** `sv` is made only of characters each sharing a category with the one
      before it, the first with `c`. */
  predicate ChainOf(cls: Classifier, sv: seq<byte>, c: CharInfo)
    requires Consumes(cls)
    decreases |sv|
  {
    sv == [] || (var (f, m) := cls(sv); IsKindOf(c, f) && ChainOf(cls, sv[m..], f))
  }

  /** The same, for the table's classifier. */
  predicate Chain(p: CharProperty, sv: seq<byte>, c: CharInfo)
    requires Valid(p)
  {
    ChainOf(Classify(p), sv, c)
  }

  lemma {:induction false} SeekFromConsumesChain(cls: Classifier, sv: seq<byte>, c: CharInfo, fail: CharInfo, mlen: nat, clen: nat, blen: nat)
    requires Consumes(cls)
    ensures SeekFrom(cls, sv, c, fail, mlen, clen, blen).blen == blen + |sv| <==> ChainOf(cls, sv, c)
    decreases |sv|
  {
    if sv != [] {
      var (f, m) := cls(sv);
      if IsKindOf(c, f) {
        SeekFromConsumesChain(cls, sv[m..], f, f, m, clen + 1, blen + m);
      }
    }
  }

  /** The scan consumes the whole input exactly when the input is one
      chain of overlapping categories starting from `c`. */
  lemma SeekConsumesChain(p: CharProperty, sv: seq<byte>, c: CharInfo)
    requires Valid(p)
    ensures SeekToOther(p, sv, c).blen == |sv| <==> Chain(p, sv, c)
  {
    SeekFromConsumesChain(Classify(p), sv, c, ZERO_INFO, 0, 0, 0);
  }
}
