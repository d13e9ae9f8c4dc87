/** The double-array trie dictionary (`sys.dic`, `unk.dic`): header
    validation, exact and common-prefix lookup, and feature strings. */
module Dictionary {
  import opened Common

  const DICTIONARY_MAGIC_ID: bv32 := 0xef718f77

  /** Smallest file `open` looks at. */
  const MIN_FILE_SIZE: nat := 100

  /** Ten 32-bit header words followed by a 32-byte charset name. */
  const HEADER_SIZE: nat := 72

  /** A dictionary entry: connection ids, part-of-speech id (unused), word
      cost, offset of its feature string, and an unused compound field. */
  datatype Token = Token(lcAttr: nat, rcAttr: nat, posid: nat, wcost: int, feature: nat, compound: nat)

  /** One double-array cell: a signed `base` and an unsigned `check`. */
  datatype Unit = Unit(base: int, check: nat)

  /** A loaded dictionary: the trie, the entry array and the feature blob. */
  datatype Dictionary = Dictionary(units: seq<Unit>, tokens: seq<Token>, features: seq<byte>)

  /** A lookup hit: the first entry of the run, the number of entries in the
      run and the length of the matched key. */
  datatype Run = Run(start: nat, count: nat, length: nat)

  datatype OpenError = Broken | InvalidFileSize | IncompatibleVersion

  // ---------------------------------------------------------------------
  // Opening

  /** Cell `i` of the trie region: two 32-bit words per cell. */
  function DecodeUnit(region: seq<byte>, i: nat): Unit
    requires 8 * (i + 1) <= |region|
  {
    Unit(Signed32(Le32(region, 8 * i)), Le32(region, 8 * i + 4))
  }

  /** Entry `i` of the token region: 16 bytes per entry. */
  function DecodeToken(region: seq<byte>, i: nat): Token
    requires 16 * (i + 1) <= |region|
  {
    var o := 16 * i;
    Token(Le16(region, o), Le16(region, o + 2), Le16(region, o + 4),
          Signed16(Le16(region, o + 6)), Le32(region, o + 8), Le32(region, o + 12))
  }

  /** The units a trie region of `|region|` bytes holds. */
  function DecodeUnits(region: seq<byte>): (r: seq<Unit>)
    ensures |r| == |region| / 8
  {
    seq(|region| / 8, i requires 0 <= i < |region| / 8 => DecodeUnit(region, i))
  }

  /** The entries a token region of `|region|` bytes holds. */
  function DecodeTokens(region: seq<byte>): (r: seq<Token>)
    ensures |r| == |region| / 16
  {
    seq(|region| / 16, i requires 0 <= i < |region| / 16 => DecodeToken(region, i))
  }

  /** The magic word, XORed with the fixed id, must give the file size. */
  predicate MagicOk(file: seq<byte>)
    requires |file| >= 4
  {
    ((Le32(file, 0) as bv32) ^ DICTIONARY_MAGIC_ID) as int == |file|
  }

  function TrieSize(file: seq<byte>): nat requires |file| >= HEADER_SIZE { Le32(file, 24) }
  function TokenSize(file: seq<byte>): nat requires |file| >= HEADER_SIZE { Le32(file, 28) }
  function FeatureSize(file: seq<byte>): nat requires |file| >= HEADER_SIZE { Le32(file, 32) }

  /** The header and the three regions fill the file exactly. */
  predicate LayoutOk(file: seq<byte>)
    requires |file| >= HEADER_SIZE
  {
    HEADER_SIZE + TrieSize(file) + TokenSize(file) + FeatureSize(file) == |file|
  }

  /** Every check `Open` makes passes. */
  predicate Accepts(file: seq<byte>, version: nat) {
    |file| >= MIN_FILE_SIZE && MagicOk(file) && Le32(file, 4) == version && LayoutOk(file)
  }

  /** The dictionary an accepted file holds. */
  function Decoded(file: seq<byte>): Dictionary
    requires |file| >= HEADER_SIZE && LayoutOk(file)
  {
    var t := HEADER_SIZE + TrieSize(file);
    var f := t + TokenSize(file);
    Dictionary(DecodeUnits(file[HEADER_SIZE..t]), DecodeTokens(file[t..f]), file[f..])
  }

  /** Validates a dictionary file and splits it into its regions; `version`
      is the dictionary version this build expects. */
  method Open(file: seq<byte>, version: nat) returns (r: Result<Dictionary, OpenError>)
    ensures |file| < MIN_FILE_SIZE ==> r == Failure(Broken)
    ensures |file| >= MIN_FILE_SIZE && !MagicOk(file) ==> r == Failure(InvalidFileSize)
    ensures |file| >= MIN_FILE_SIZE && MagicOk(file) && Le32(file, 4) != version ==> r == Failure(IncompatibleVersion)
    ensures |file| >= MIN_FILE_SIZE && MagicOk(file) && Le32(file, 4) == version && !LayoutOk(file) ==> r == Failure(Broken)
    ensures r.Success? <==> Accepts(file, version)
    ensures r.Success? ==> r.value == Decoded(file)
  {
    if |file| < MIN_FILE_SIZE {
      return Failure(Broken);
    }
    if !MagicOk(file) {
      return Failure(InvalidFileSize);
    }
    if Le32(file, 4) != version {
      return Failure(IncompatibleVersion);
    }
    // header words at 8..24 (type, lexsize, lsize, rsize) are not used here
    var trieEnd := HEADER_SIZE + TrieSize(file);
    var tokenEnd := trieEnd + TokenSize(file);
    if tokenEnd + FeatureSize(file) != |file| {
      return Failure(Broken);
    }
    r := Success(Decoded(file));
  }

  // ---------------------------------------------------------------------
  // The double array

  /** The packed run a terminal's negative base encodes. */
  function RunOf(base: int, length: nat): (r: Run)
    requires base < 0
    ensures r.count < 0x100
    ensures (r.start * 0x100 + r.count) == -base - 1
  {
    var v := -base - 1;
    Run(v / 0x100, v % 0x100, length)
  }

  /** Every run a terminal encodes lies inside the entry array, and every
      entry's feature offset lies inside the feature blob. */
  ghost predicate Valid(d: Dictionary) {
    && (forall i :: 0 <= i < |d.units| && d.units[i].base < 0 ==>
          RunOf(d.units[i].base, 0).start + RunOf(d.units[i].base, 0).count <= |d.tokens|)
    && (forall t :: t in d.tokens ==> t.feature <= |d.features|)
  }

  /** The base the walk starts from: that of cell 0, cast to uint32. */
  function Root(d: Dictionary): nat {
    if |d.units| > 0 then U32(d.units[0].base) else 0
  }

  /** The transition on byte `c` out of the node with base `b`: the cell
      `b + c + 1` (uint32 arithmetic) must name `b` as its check. */
  function Child(d: Dictionary, b: nat, c: byte): Option<nat> {
    var p := U32(b + c as int + 1);
    if p < |d.units| && d.units[p].check == b then Some(U32(d.units[p].base)) else None
  }

  /** The run stored at the node with base `b`, if that node is a terminal:
      cell `b` must name `b` as its check and hold a negative base. */
  function Terminal(d: Dictionary, b: nat, length: nat): (r: Option<Run>)
    ensures r.Some? ==> r.value.length == length && r.value.count < 0x100
  {
    if b < |d.units| && d.units[b].check == b && d.units[b].base < 0
    then Some(RunOf(d.units[b].base, length))
    else None
  }

  /** The node reached after the first `i` bytes of `key`, if every
      transition exists. */
  function Descend(d: Dictionary, key: seq<byte>, i: nat): Option<nat>
    requires i <= |key|
  {
    if i == 0 then Some(Root(d))
    else match Descend(d, key, i - 1)
      case None => None
      case Some(b) => Child(d, b, key[i - 1])
  }

  /** The run stored under exactly `key`. */
  function ExactMatch(d: Dictionary, key: seq<byte>): Option<Run> {
    match Descend(d, key, |key|)
    case None => None
    case Some(b) => Terminal(d, b, |key|)
  }

  /** An optional hit as a list of zero or one runs. */
  function Listed(o: Option<Run>): seq<Run> {
    match o
    case None => []
    case Some(run) => [run]
  }

  /** The hit, if any, for the prefix of length `n`. */
  function PrefixHit(d: Dictionary, key: seq<byte>, n: nat): seq<Run>
    requires n <= |key|
  {
    match Descend(d, key, n)
    case None => []
    case Some(b) => Listed(Terminal(d, b, n))
  }

  /** The hits for the prefixes of length 0 up to `n - 1`, shortest first. */
  function PrefixHits(d: Dictionary, key: seq<byte>, n: nat): seq<Run>
    requires n <= |key| + 1
  {
    if n == 0 then [] else PrefixHits(d, key, n - 1) + PrefixHit(d, key, n - 1)
  }

  /** The hits for every prefix of `key`, `key` itself included. */
  function CommonPrefix(d: Dictionary, key: seq<byte>): seq<Run> {
    PrefixHits(d, key, |key| + 1)
  }

  // ---------------------------------------------------------------------
  // The lookups as the source runs them

  /** The terminal test the lookups make at the node with base `b`. */
  method TerminalAt(d: Dictionary, b: nat, len: nat) returns (r: Option<Run>)
    ensures r == Terminal(d, b, len)
  {
    var p := b;
    if p < |d.units| && b == d.units[p].check && d.units[p].base < 0 {
      var n := d.units[p].base;
      return Some(Run((-n - 1) / 0x100, (-n - 1) % 0x100, len));
    }
    return None;
  }

  /** Walks the trie along `key` and reports the run stored under it. */
  method ExactMatchSearch(d: Dictionary, key: seq<byte>) returns (r: Option<Run>)
    ensures r == ExactMatch(d, key)
  {
    var len := |key|;
    var b := Root(d);
    for i := 0 to len
      invariant Descend(d, key, i) == Some(b)
    {
      var p := U32(b + key[i] as int + 1);
      if !(p < |d.units| && b == d.units[p].check) {
        DescendStaysMissing(d, key, i + 1, len);
        return None;
      }
      b := U32(d.units[p].base);
    }
    r := TerminalAt(d, b, len);
  }

  /** The hit for the prefix of length `i`, read off the node reached. */
  lemma HitAt(d: Dictionary, key: seq<byte>, i: nat, b: nat)
    requires i <= |key| && Descend(d, key, i) == Some(b)
    ensures PrefixHits(d, key, i + 1) == PrefixHits(d, key, i) + Listed(Terminal(d, b, i))
  {
  }

  /** After a missing transition out of the node reached by `n - 1`
      bytes, the hits found so far are all there are. */
  lemma MissingAt(d: Dictionary, key: seq<byte>, n: nat, b: nat)
    requires 0 < n <= |key| && Descend(d, key, n - 1) == Some(b) && Child(d, b, key[n - 1]).None?
    ensures CommonPrefix(d, key) == PrefixHits(d, key, n)
  {
    HitsStopGrowing(d, key, n, |key| + 1);
  }

  /** Walks the trie along `key` and reports every prefix stored in it,
      shortest first, stopping at the first missing transition. */
  method CommonPrefixSearch(d: Dictionary, key: seq<byte>) returns (result: seq<Run>)
    ensures result == CommonPrefix(d, key)
  {
    var len := |key|;
    result := [];
    var b := Root(d);
    for i := 0 to len
      invariant Descend(d, key, i) == Some(b)
      invariant result == PrefixHits(d, key, i)
    {
      HitAt(d, key, i, b);
      var hit := TerminalAt(d, b, i);
      result := result + Listed(hit);
      var p := U32(b + key[i] as int + 1);
      if !(p < |d.units| && b == d.units[p].check) {
        MissingAt(d, key, i + 1, b);
        return result;
      }
      b := U32(d.units[p].base);
    }
    HitAt(d, key, len, b);
    var hit := TerminalAt(d, b, len);
    result := result + Listed(hit);
  }

  /** The feature string of an entry: the blob from the entry's offset up
      to the first NUL. */
  function Feature(d: Dictionary, t: Token): seq<byte>
    requires t.feature <= |d.features|
  {
    CString(d.features[t.feature..])
  }

  /** The feature of `t` is the bytes at its offset up to the first NUL. */
  lemma FeatureShape(d: Dictionary, t: Token)
    requires t.feature <= |d.features|
    ensures var r := Feature(d, t);
      t.feature + |r| <= |d.features| && r == d.features[t.feature..t.feature + |r|]
      && NUL !in r
      && (t.feature + |r| < |d.features| ==> d.features[t.feature + |r|] == NUL)
  {
    var s := d.features[t.feature..];
    CStringShape(s);
    assert s[..|CString(s)|] == d.features[t.feature..t.feature + |CString(s)|];
  }

  // ---------------------------------------------------------------------
  // Properties of the lookups

  /** Once a transition is missing, no longer prefix can be reached. */
  lemma {:induction false} DescendStaysMissing(d: Dictionary, key: seq<byte>, i: nat, j: nat)
    requires i <= j <= |key| && Descend(d, key, i).None?
    ensures Descend(d, key, j).None?
    decreases j - i
  {
    if i < j {
      DescendStaysMissing(d, key, i + 1, j);
    }
  }

  lemma {:induction false} HitsStopGrowing(d: Dictionary, key: seq<byte>, i: nat, n: nat)
    requires i <= n <= |key| + 1 && i <= |key| && Descend(d, key, i).None?
    ensures PrefixHits(d, key, n) == PrefixHits(d, key, i)
    decreases n - i
  {
    if n > i {
      HitsStopGrowing(d, key, i, n - 1);
      DescendStaysMissing(d, key, i, n - 1);
      assert PrefixHit(d, key, n - 1) == [];
    }
  }

  /** A missing transition after `i` bytes: no exact match, and every
      prefix hit is shorter than `i`. */
  lemma StopsAtMissingTransition(d: Dictionary, key: seq<byte>, i: nat)
    requires i <= |key| && Descend(d, key, i).None?
    ensures ExactMatch(d, key).None?
    ensures forall r :: r in CommonPrefix(d, key) ==> r.length < i
  {
    DescendStaysMissing(d, key, i, |key|);
    HitsStopGrowing(d, key, i, |key| + 1);
    HitLengths(d, key, i);
  }

  lemma {:induction false} HitLengths(d: Dictionary, key: seq<byte>, n: nat)
    requires n <= |key| + 1
    ensures forall k :: 0 <= k < |PrefixHits(d, key, n)| ==> PrefixHits(d, key, n)[k].length < n
    ensures forall k, l :: 0 <= k < l < |PrefixHits(d, key, n)| ==>
              PrefixHits(d, key, n)[k].length < PrefixHits(d, key, n)[l].length
    decreases n
  {
    if n > 0 {
      HitLengths(d, key, n - 1);
    }
  }

  /** The prefix hits come shortest first, with strictly increasing
      lengths, none longer than the key. */
  lemma CommonPrefixOrdered(d: Dictionary, key: seq<byte>)
    ensures forall k :: 0 <= k < |CommonPrefix(d, key)| ==> CommonPrefix(d, key)[k].length <= |key|
    ensures forall k, l :: 0 <= k < l < |CommonPrefix(d, key)| ==>
              CommonPrefix(d, key)[k].length < CommonPrefix(d, key)[l].length
  {
    HitLengths(d, key, |key| + 1);
  }

  /** The walk along a prefix of the key is the walk along the key. */
  lemma {:induction false} DescendPrefix(d: Dictionary, key: seq<byte>, n: nat, i: nat)
    requires i <= n <= |key|
    ensures Descend(d, key[..n], i) == Descend(d, key, i)
    decreases i
  {
    if i > 0 {
      DescendPrefix(d, key, n, i - 1);
    }
  }

  /** The exact matches of the prefixes of length 0 up to `n - 1`, shortest
      first: an independent reading of what a common-prefix search reports. */
  function StoredPrefixes(d: Dictionary, key: seq<byte>, n: nat): seq<Run>
    requires n <= |key| + 1
  {
    if n == 0 then []
    else StoredPrefixes(d, key, n - 1) +
         match ExactMatch(d, key[..n - 1]) { case None => [] case Some(r) => [r] }
  }

  lemma {:induction false} HitsAreStoredPrefixes(d: Dictionary, key: seq<byte>, n: nat)
    requires n <= |key| + 1
    ensures PrefixHits(d, key, n) == StoredPrefixes(d, key, n)
    decreases n
  {
    if n > 0 {
      HitsAreStoredPrefixes(d, key, n - 1);
      DescendPrefix(d, key, n - 1, n - 1);
      assert |key[..n - 1]| == n - 1;
    }
  }

  /** A common-prefix search reports exactly the prefixes of `key` that are
      stored in the dictionary, each with its exact-match run, shortest
      first. */
  lemma CommonPrefixIsStoredPrefixes(d: Dictionary, key: seq<byte>)
    ensures CommonPrefix(d, key) == StoredPrefixes(d, key, |key| + 1)
  {
    HitsAreStoredPrefixes(d, key, |key| + 1);
  }

  /** An exact match is the last and longest prefix hit, with the same run;
      conversely a prefix hit as long as the key is its exact match. */
  lemma ExactMatchIsLastPrefix(d: Dictionary, key: seq<byte>)
    ensures ExactMatch(d, key).Some? <==>
      (|CommonPrefix(d, key)| > 0 && CommonPrefix(d, key)[|CommonPrefix(d, key)| - 1].length == |key|)
    ensures ExactMatch(d, key).Some? ==>
      CommonPrefix(d, key)[|CommonPrefix(d, key)| - 1] == ExactMatch(d, key).value
  {
    var all := CommonPrefix(d, key);
    var before := PrefixHits(d, key, |key|);
    var last := PrefixHit(d, key, |key|);
    assert all == before + last;
    HitLengths(d, key, |key|);
    if ExactMatch(d, key).Some? {
      assert last == [ExactMatch(d, key).value];
    } else {
      assert last == [];
      if |all| > 0 {
        assert all[|all| - 1] == before[|before| - 1];
      }
    }
  }

  lemma {:induction false} HitsInRange(d: Dictionary, key: seq<byte>, n: nat)
    requires Valid(d) && n <= |key| + 1
    ensures forall r :: r in PrefixHits(d, key, n) ==> r.start + r.count <= |d.tokens|
    decreases n
  {
    if n > 0 {
      HitsInRange(d, key, n - 1);
    }
  }

  /** In a valid dictionary every run a lookup reports lies inside the
      entry array. */
  lemma LookupRunsInRange(d: Dictionary, key: seq<byte>)
    requires Valid(d)
    ensures forall r :: r in CommonPrefix(d, key) ==> r.start + r.count <= |d.tokens|
    ensures ExactMatch(d, key).Some? ==> ExactMatch(d, key).value.start + ExactMatch(d, key).value.count <= |d.tokens|
  {
    HitsInRange(d, key, |key| + 1);
  }

  lemma {:induction false} HitsNotEmpty(d: Dictionary, key: seq<byte>, n: nat)
    requires ExactMatch(d, []).None? && n <= |key| + 1
    ensures forall r :: r in PrefixHits(d, key, n) ==> r.length >= 1
    decreases n
  {
    if n > 0 {
      HitsNotEmpty(d, key, n - 1);
      if n == 1 {
        assert Descend(d, key, 0) == Descend(d, [], 0);
      }
    }
  }

  /** Without an entry for the empty key every prefix hit has a length of
      at least one byte. */
  lemma PrefixHitsNotEmpty(d: Dictionary, key: seq<byte>)
    requires ExactMatch(d, []).None?
    ensures forall r :: r in CommonPrefix(d, key) ==> r.length >= 1
  {
    HitsNotEmpty(d, key, |key| + 1);
  }
}
