/** The analyzer: the loaded resources, the per-sentence lattice of
    candidate words, the best-path search and the walk that writes the
    best path out. Nodes live in an arena (`seq<Node>`) and every node
    link, bucket entry and token is an index into it. */
module Lattice {
  import opened Common
  import opened Mecab
  import CP = CharProperty
  import D = Dictionary
  import W = Writer
  import P = Param

  /** The initial best cost of a connection: the largest int64. */
  const INT64_MAX: int := 0x7FFF_FFFF_FFFF_FFFF

  /** `size_t` arithmetic wraps at this modulus. */
  const TWO64: int := 0x1_0000_0000_0000_0000

  /** Node lengths are uint16: longer sentences would wrap them. */
  const MAX_SENTENCE: nat := 0xFFFF

  /** The code point whose record drives space skipping. */
  const SPACE: bv16 := 0x20

  // ---------------------------------------------------------------------
  // Resources

  /** Everything `open` loads: both dictionaries, the classifier, the record
      of a space, one entry run per character category (in category order),
      and the connection matrix with its two dimensions. */
  datatype Engine = Engine(
    sysdic: D.Dictionary,
    unkdic: D.Dictionary,
    property: CP.CharProperty,
    space: CP.CharInfo,
    unkRuns: seq<D.Run>,
    matrix: seq<int>,
    lSize: nat,
    rSize: nat)

  /** The contents of the four resource files; the matrix file is read as
      its int16 values. */
  datatype Files = Files(sysdic: seq<byte>, unkdic: seq<byte>, charProperty: seq<byte>, matrix: seq<int>)

  datatype LoadError = SysdicRejected | UnkdicRejected | PropertyRejected | MissingCategory(name: seq<byte>) | MatrixRejected

  /** Looks every category name up in the unknown-word dictionary. */
  function CategoryRuns(d: D.Dictionary, names: seq<seq<byte>>): (r: Result<seq<D.Run>, seq<byte>>)
    ensures r.Success? <==> forall k :: 0 <= k < |names| ==> D.ExactMatch(d, names[k]).Some?
    ensures r.Success? ==> |r.value| == |names|
    ensures r.Success? ==> forall k :: 0 <= k < |names| ==> D.ExactMatch(d, names[k]) == Some(r.value[k])
    ensures r.Failure? ==> r.error in names && D.ExactMatch(d, r.error).None?
    decreases |names|
  {
    if names == [] then Success([])
    else match D.ExactMatch(d, names[0])
      case None => Failure(names[0])
      case Some(run) =>
        match CategoryRuns(d, names[1..])
        case Failure(name) => Failure(name)
        case Success(runs) =>
          assert forall k :: 1 <= k < |names| ==> names[k] == names[1..][k - 1];
          Success([run] + runs)
  }

  function PrependRuns(runs: seq<D.Run>, r: Result<seq<D.Run>, seq<byte>>): Result<seq<D.Run>, seq<byte>> {
    match r
    case Success(rest) => Success(runs + rest)
    case Failure(name) => Failure(name)
  }

  /** One lookup of the loop: a found name moves its run to the prefix. */
  lemma RunsStep(d: D.Dictionary, names: seq<seq<byte>>, k: nat, runs: seq<D.Run>, run: D.Run)
    requires k < |names| && D.ExactMatch(d, names[k]) == Some(run)
    ensures PrependRuns(runs, CategoryRuns(d, names[k..])) == PrependRuns(runs + [run], CategoryRuns(d, names[k + 1..]))
  {
    assert names[k..][1..] == names[k + 1..];
    match CategoryRuns(d, names[k + 1..]) {
      case Success(rest) => assert (runs + [run]) + rest == runs + ([run] + rest);
      case Failure(_) =>
    }
  }

  /** One lookup of the loop: a missing name ends it with that name. */
  lemma RunsMissing(d: D.Dictionary, names: seq<seq<byte>>, k: nat)
    requires k < |names| && D.ExactMatch(d, names[k]).None?
    ensures CategoryRuns(d, names[k..]) == Failure(names[k])
  {
  }

  lemma RunsEnds(d: D.Dictionary, names: seq<seq<byte>>, runs: seq<D.Run>)
    ensures PrependRuns([], CategoryRuns(d, names[0..])) == CategoryRuns(d, names)
    ensures PrependRuns(runs, CategoryRuns(d, names[|names|..])) == Success(runs)
  {
    assert names[0..] == names;
    assert names[|names|..] == [];
    assert runs + [] == runs;
    match CategoryRuns(d, names) {
      case Success(all) => assert [] + all == all;
      case Failure(_) =>
    }
  }

  /** The lookup loop of `open`: stops at the first name missing from the
      dictionary. */
  method ResolveCategories(d: D.Dictionary, names: seq<seq<byte>>) returns (r: Result<seq<D.Run>, seq<byte>>)
    ensures r == CategoryRuns(d, names)
  {
    var runs: seq<D.Run> := [];
    RunsEnds(d, names, runs);
    for k := 0 to |names|
      invariant CategoryRuns(d, names) == PrependRuns(runs, CategoryRuns(d, names[k..]))
    {
      var found := D.ExactMatchSearch(d, names[k]);
      if found.None? {
        RunsMissing(d, names, k);
        return Failure(names[k]);
      }
      RunsStep(d, names, k, runs, found.value);
      runs := runs + [found.value];
    }
    RunsEnds(d, names, runs);
    return Success(runs);
  }

  /** A `size_t` built from an int16 value: negatives wrap. */
  function SizeT(v: int): nat {
    v % TWO64
  }

  /** The shape check as written: both dimensions are cast to `size_t`
      before they are multiplied, so the product wraps. */
  predicate MatrixAcceptedAsWritten(m: seq<int>) {
    |m| > 2 && (SizeT(m[0]) * SizeT(m[1]) + 2) % TWO64 == |m|
  }

  /** The shape check as intended: two non-negative dimensions whose product
      is the number of cells after the header. */
  predicate MatrixAccepted(m: seq<int>) {
    |m| > 2 && m[0] >= 0 && m[1] >= 0 && m[0] * m[1] + 2 == |m|
  }

  predicate Int16s(m: seq<int>) {
    forall i :: 0 <= i < |m| ==> -0x8000 <= m[i] < 0x8000
  }

  lemma {:induction false} MulLe(a: int, b: int, c: int)
    requires 0 <= a <= c && 0 <= b
    ensures a * b <= c * b
    decreases c - a
  {
    if a < c {
      MulLe(a + 1, b, c);
    }
  }

  lemma ProductBound(a: int, b: int)
    requires 0 <= a < 0x8000 && 0 <= b < 0x8000
    ensures 0 <= a * b < 0x4000_0000
  {
    MulLe(0, b, a);
    MulLe(a, b, 0x7FFF);
    MulLe(b, 0x7FFF, 0x7FFF);
    assert a * b <= 0x7FFF * b == b * 0x7FFF <= 0x7FFF * 0x7FFF == 0x3FFF_0001;
  }

  /** A six-byte matrix file holding -1, -1 and one cell passes the check as
      written, and the cell the connection of a node with right id 0 to a
      node with left id 1 reads lies far outside it. */
  lemma NegativeDimensionsAccepted()
    ensures MatrixAcceptedAsWritten([-1, -1, 0])
    ensures !MatrixAccepted([-1, -1, 0])
    ensures (0 + SizeT(-1) * 1) % TWO64 >= 3
  {
    var big := TWO64 - 1;
    assert SizeT(-1) == big;
    assert big * big + 2 == (TWO64 - 2) * TWO64 + 3;
    assert ((TWO64 - 2) * TWO64 + 3) % TWO64 == 3;
  }

  /** On non-negative int16 dimensions the two checks agree. */
  lemma MatrixChecksAgree(m: seq<int>)
    requires Int16s(m) && |m| > 2 && m[0] >= 0 && m[1] >= 0
    ensures MatrixAcceptedAsWritten(m) <==> MatrixAccepted(m)
  {
    ProductBound(m[0], m[1]);
    assert SizeT(m[0]) == m[0] && SizeT(m[1]) == m[1];
  }

  /** In an accepted matrix every cell addressed by in-range ids exists. */
  lemma CellInMatrix(m: seq<int>, rc: nat, lc: nat)
    requires MatrixAccepted(m) && rc < m[0] && lc < m[1]
    ensures 2 + rc + m[0] * lc < |m|
  {
    assert m[0] * lc <= m[0] * (m[1] - 1);
  }

  /** What `open` loads from the four files, failing at the first check
      that does not pass. */
  function LoadedEngine(f: Files, version: nat): (r: Result<Engine, LoadError>)
    ensures r.Success? ==> CP.Valid(r.value.property) && MatrixAccepted(r.value.matrix)
    ensures r.Success? ==> r.value.matrix == f.matrix && r.value.lSize == f.matrix[0] && r.value.rSize == f.matrix[1]
    ensures r.Success? ==> |r.value.unkRuns| == |r.value.property.names|
    ensures r.Success? ==> forall k :: 0 <= k < |r.value.property.names| ==>
              D.ExactMatch(r.value.unkdic, r.value.property.names[k]) == Some(r.value.unkRuns[k])
  {
    if !D.Accepts(f.sysdic, version) then Failure(SysdicRejected)
    else if !D.Accepts(f.unkdic, version) then Failure(UnkdicRejected)
    else if !CP.SizeOk(f.charProperty) then Failure(PropertyRejected)
    else
      var unk := D.Decoded(f.unkdic);
      var prop := CP.Decoded(f.charProperty);
      match CategoryRuns(unk, prop.names)
      case Failure(name) => Failure(MissingCategory(name))
      case Success(runs) =>
        if !MatrixAccepted(f.matrix) then Failure(MatrixRejected)
        else Success(Engine(D.Decoded(f.sysdic), unk, prop, CP.GetCharInfoKey(prop, SPACE), runs,
                            f.matrix, f.matrix[0], f.matrix[1]))
  }

  /** The loading half of `open`: each file in turn, stopping at the first
      one that does not pass. */
  method Load(f: Files, version: nat) returns (r: Result<Engine, LoadError>)
    ensures r == LoadedEngine(f, version)
  {
    var sysdic := D.Open(f.sysdic, version);
    if sysdic.Failure? {
      return Failure(SysdicRejected);
    }
    var unkdic := D.Open(f.unkdic, version);
    if unkdic.Failure? {
      return Failure(UnkdicRejected);
    }
    var property := CP.Open(f.charProperty);
    if property.Failure? {
      return Failure(PropertyRejected);
    }
    var runs := ResolveCategories(unkdic.value, property.value.names);
    if runs.Failure? {
      return Failure(MissingCategory(runs.error));
    }
    var space := CP.GetCharInfoKey(property.value, SPACE);
    if !MatrixAccepted(f.matrix) {
      return Failure(MatrixRejected);
    }
    return Success(Engine(sysdic.value, unkdic.value, property.value, space, runs.value,
                          f.matrix, f.matrix[0], f.matrix[1]));
  }

  /** The loaded resources are usable by the analysis: the data files agree
      with each other (every connection id inside the matrix, every default
      category inside the category list, no entry for the empty key). */
  ghost predicate Ready(e: Engine) {
    && CP.Valid(e.property)
    && D.Valid(e.sysdic) && D.Valid(e.unkdic)
    && D.ExactMatch(e.sysdic, []).None?
    && (forall k :: 0 <= k < |e.unkRuns| ==> e.unkRuns[k].start + e.unkRuns[k].count <= |e.unkdic.tokens|)
    && (forall c :: c in e.property.table ==> c.defaultType as int < |e.unkRuns|)
    && MatrixAccepted(e.matrix) && Int16s(e.matrix) && e.lSize == e.matrix[0] && e.rSize == e.matrix[1]
    && (forall t :: t in e.sysdic.tokens ==> t.rcAttr < e.lSize && t.lcAttr < e.rSize)
    && (forall t :: t in e.unkdic.tokens ==> t.rcAttr < e.lSize && t.lcAttr < e.rSize)
    && (forall t :: t in e.sysdic.tokens ==> -0x8000 <= t.wcost < 0x8000)
    && (forall t :: t in e.unkdic.tokens ==> -0x8000 <= t.wcost < 0x8000)
  }

  /** A loaded engine whose dictionaries are well formed and whose files
      agree with each other is ready. */
  lemma LoadedIsReady(f: Files, version: nat, e: Engine)
    requires LoadedEngine(f, version) == Success(e) && Int16s(f.matrix)
    requires D.Valid(e.sysdic) && D.Valid(e.unkdic) && D.ExactMatch(e.sysdic, []).None?
    requires forall c :: c in e.property.table ==> c.defaultType as int < |e.unkRuns|
    requires forall t :: t in e.sysdic.tokens ==> t.rcAttr < e.lSize && t.lcAttr < e.rSize
    requires forall t :: t in e.unkdic.tokens ==> t.rcAttr < e.lSize && t.lcAttr < e.rSize
    requires forall t :: t in e.sysdic.tokens ==> -0x8000 <= t.wcost < 0x8000
    requires forall t :: t in e.unkdic.tokens ==> -0x8000 <= t.wcost < 0x8000
    ensures Ready(e)
  {
    forall k | 0 <= k < |e.unkRuns|
      ensures e.unkRuns[k].start + e.unkRuns[k].count <= |e.unkdic.tokens|
    {
      D.LookupRunsInRange(e.unkdic, e.property.names[k]);
    }
  }

  // ---------------------------------------------------------------------
  // Nodes

  /** A `uint16` field keeps its value modulo this. */
  const U16: nat := 0x1_0000

  /** A fresh node: unlinked, zero path cost, lengths stored as `uint16`,
      the right length also counting the white space skipped before it. */
  function NewNode(stat: NodeStat, surface: Surface, feature: string, len: nat, slen: nat,
                   lcAttr: nat, rcAttr: nat, wcost: int): Node
  {
    Node(None, None, surface, feature, len % U16, (slen % U16 + len % U16) % U16, lcAttr, rcAttr, 0, wcost, stat)
  }

  function NewBos(): Node {
    NewNode(BosNode, BosKey, BOS_FEATURE, 0, 0, 0, 0, 0)
  }

  function NewEos(): Node {
    NewNode(EosNode, BosKey, BOS_FEATURE, 0, 0, 0, 0, 0)
  }

  /** `n` is an unlinked candidate of `stat` whose surface starts at `at`,
      `slen` bytes of white space after the start of its bucket, made for a
      length between `lo` and `hi`. The stored lengths never exceed the
      true ones, and are exact while they fit in a `uint16`. */
  predicate FreshAt(e: Engine, n: Node, stat: NodeStat, pos: nat, slen: nat, lo: nat, hi: nat) {
    && n.prev.None? && n.next.None? && n.cost == 0 && n.stat == stat && n.surface == At(pos + slen)
    && n.rcAttr < e.lSize && n.lcAttr < e.rSize && -0x8000 <= n.wcost < 0x8000
    && n.length <= hi && n.rlength <= slen + n.length
    && (slen + hi < U16 ==> lo <= n.length && n.rlength == slen + n.length)
  }

  lemma Uint16Below(x: nat)
    ensures x % U16 <= x
    ensures x < U16 ==> x % U16 == x
  {
  }

  /** The node for dictionary entry `t` at surface offset `at`. */
  function EntryNode(d: D.Dictionary, stat: NodeStat, t: D.Token, pos: nat, len: nat, slen: nat): Node
    requires t.feature <= |d.features|
  {
    NewNode(stat, At(pos + slen), Text(D.Feature(d, t)), len, slen, t.lcAttr, t.rcAttr, t.wcost)
  }

  /** One node per entry of the run of `count` entries from `start`, in
      the order they are created. */
  function EntryNodes(d: D.Dictionary, stat: NodeStat, start: nat, count: nat, pos: nat, len: nat, slen: nat): (r: seq<Node>)
    requires D.Valid(d) && start + count <= |d.tokens|
    ensures |r| == count
  {
    seq(count, i requires 0 <= i < count && D.Valid(d) && start + count <= |d.tokens| =>
      EntryNode(d, stat, d.tokens[start + i], pos, len, slen))
  }

  /** Node `i` of a run is the node of its entry `start + i`. */
  lemma EntryNodesAt(d: D.Dictionary, stat: NodeStat, start: nat, count: nat, pos: nat, len: nat, slen: nat, i: nat)
    requires D.Valid(d) && start + count <= |d.tokens| && i < count
    ensures d.tokens[start + i].feature <= |d.features|
    ensures EntryNodes(d, stat, start, count, pos, len, slen)[i] == EntryNode(d, stat, d.tokens[start + i], pos, len, slen)
  {
    assert d.tokens[start + i] in d.tokens;
  }

  /** Every node of a run has the status it was made with. */
  lemma EntryNodesStat(d: D.Dictionary, stat: NodeStat, start: nat, count: nat, pos: nat, len: nat, slen: nat)
    requires D.Valid(d) && start + count <= |d.tokens|
    ensures forall n :: n in EntryNodes(d, stat, start, count, pos, len, slen) ==> n.stat == stat
  {
    var r := EntryNodes(d, stat, start, count, pos, len, slen);
    forall i | 0 <= i < count
      ensures r[i].stat == stat
    {
      EntryNodesAt(d, stat, start, count, pos, len, slen, i);
    }
  }

  /** The node for one entry is a fresh candidate of exactly that length. */
  lemma EntryNodeFresh(e: Engine, d: D.Dictionary, stat: NodeStat, t: D.Token, pos: nat, len: nat, slen: nat)
    requires t.feature <= |d.features|
    requires t.rcAttr < e.lSize && t.lcAttr < e.rSize && -0x8000 <= t.wcost < 0x8000
    ensures FreshAt(e, EntryNode(d, stat, t, pos, len, slen), stat, pos, slen, len, len)
  {
    Uint16Below(len);
    Uint16Below(slen);
    Uint16Below(slen % U16 + len % U16);
  }

  lemma EntryNodesFresh(e: Engine, d: D.Dictionary, stat: NodeStat, start: nat, count: nat, pos: nat, len: nat, slen: nat)
    requires D.Valid(d) && start + count <= |d.tokens|
    requires forall t :: t in d.tokens ==> t.rcAttr < e.lSize && t.lcAttr < e.rSize && -0x8000 <= t.wcost < 0x8000
    ensures forall n :: n in EntryNodes(d, stat, start, count, pos, len, slen) ==> FreshAt(e, n, stat, pos, slen, len, len)
  {
    var r := EntryNodes(d, stat, start, count, pos, len, slen);
    forall i | 0 <= i < count
      ensures FreshAt(e, r[i], stat, pos, slen, len, len)
    {
      var t := d.tokens[start + i];
      assert t in d.tokens;
      EntryNodeFresh(e, d, stat, t, pos, len, slen);
    }
  }

  /** The number of entries in a list of runs. */
  function TotalCount(runs: seq<D.Run>): nat {
    if runs == [] then 0 else TotalCount(runs[..|runs| - 1]) + runs[|runs| - 1].count
  }

  /** `addNor` for every dictionary hit, shortest hit first. */
  function NorNodes(e: Engine, runs: seq<D.Run>, pos: nat, slen: nat): (r: seq<Node>)
    requires Ready(e) && forall r :: r in runs ==> r.start + r.count <= |e.sysdic.tokens|
    ensures |r| == TotalCount(runs)
    ensures forall n :: n in r ==> n.stat == NorNode
    decreases |runs|
  {
    if runs == [] then []
    else
      var last := runs[|runs| - 1];
      EntryNodesStat(e.sysdic, NorNode, last.start, last.count, pos, last.length, slen);
      NorNodes(e, runs[..|runs| - 1], pos, slen) + EntryNodes(e.sysdic, NorNode, last.start, last.count, pos, last.length, slen)
  }

  /** `addNor` for every dictionary word that is a prefix of `surface`. */
  function DictionaryWords(e: Engine, surface: seq<byte>, pos: nat, slen: nat): (r: seq<Node>)
    requires Ready(e)
    ensures |r| == TotalCount(D.CommonPrefix(e.sysdic, surface))
    ensures forall n :: n in r ==> n.stat == NorNode
  {
    D.LookupRunsInRange(e.sysdic, surface);
    NorNodes(e, D.CommonPrefix(e.sysdic, surface), pos, slen)
  }

  /** The entry run of the default category of `cinfo`. */
  function UnkRun(e: Engine, cinfo: CP.CharInfo): (r: D.Run)
    requires Ready(e) && cinfo in e.property.table
    ensures r.start + r.count <= |e.unkdic.tokens|
  {
    e.unkRuns[cinfo.defaultType as int]
  }

  /** `addUnk`: one node per entry of the default category of `cinfo`. */
  function UnkNodes(e: Engine, cinfo: CP.CharInfo, pos: nat, len: nat, slen: nat): (r: seq<Node>)
    requires Ready(e) && cinfo in e.property.table
    ensures |r| == UnkRun(e, cinfo).count
    ensures forall n :: n in r ==> n.stat == UnkNode
  {
    var run := UnkRun(e, cinfo);
    EntryNodesStat(e.unkdic, UnkNode, run.start, run.count, pos, len, slen);
    EntryNodes(e.unkdic, UnkNode, run.start, run.count, pos, len, slen)
  }

  // ---------------------------------------------------------------------
  // What the classifier says about the rest of the sentence

  /** A character's record and its length in bytes, as `getCharInfo`
      returns them. */
  type Char = (CP.CharInfo, nat)

  /** The answers of the classifier `tokenize` works from, for the rest
      of the sentence after the white space: the record `cinfo` and the
      length `mlen` of its first character, the scan `group` of the
      characters after the first against `cinfo`, and for every byte
      offset `k` the character that starts there (`view[k]`, the answer of
      `getCharInfo` on the rest from `k`). */
  datatype Reading = Reading(cinfo: CP.CharInfo, mlen: nat, group: CP.Seek, view: seq<Char>)

  /** What the analysis relies on in a reading of `rest`: a known first
      character of at least one byte, a grouping scan that stays inside
      `rest`, and characters of at least one byte at every offset. */
  predicate Fits(e: Engine, rest: seq<byte>, rd: Reading)
    requires Ready(e)
  {
    && rd.cinfo in e.property.table && 1 <= rd.mlen
    && rd.mlen + rd.group.blen <= |rest| && rd.group.clen <= rd.group.blen
    && |rd.view| == |rest|
    && Steps(rd.view)
  }

  /** Every character in `view` is at least one byte long. */
  predicate Steps(view: seq<Char>) {
    forall k :: 0 <= k < |view| ==> view[k].1 >= 1
  }

  /** The reading the classifier gives of `rest`, whose first character
      has record `cinfo` and `mlen` bytes. */
  function Read(e: Engine, rest: seq<byte>, cinfo: CP.CharInfo, mlen: nat): (rd: Reading)
    requires Ready(e) && cinfo in e.property.table && 1 <= mlen <= |rest|
    ensures Fits(e, rest, rd)
  {
    CP.SeekBounds(e.property, rest[mlen..], cinfo);
    Reading(cinfo, mlen, CP.SeekToOther(e.property, rest[mlen..], cinfo),
            seq(|rest|, k requires 0 <= k < |rest| && CP.Valid(e.property) => CP.GetCharInfo(e.property, rest[k..])))
  }

  // ---------------------------------------------------------------------
  // The candidates

  /** The grouped unknown word: when the first character groups, one word
      spanning it and the scanned run after it is added, provided the run
      holds at most MAX_GROUPING_SIZE characters. The second component is
      the end of the scanned run whenever grouping was tried. */
  function Grouped(e: Engine, rd: Reading, pos: nat, slen: nat): (seq<Node>, Option<nat>)
    requires Ready(e) && rd.cinfo in e.property.table
  {
    if !rd.cinfo.group then ([], None)
    else
      var ulen := rd.mlen + rd.group.blen;
      (if rd.group.clen <= MAX_GROUPING_SIZE then UnkNodes(e, rd.cinfo, pos, ulen, slen) else [], Some(ulen))
  }

  /** The grouped unknown word is added only for a `group` category whose
      run holds at most MAX_GROUPING_SIZE characters, and then with one
      node per entry of the category's run. */
  lemma GroupedAtMostMax(e: Engine, rd: Reading, pos: nat, slen: nat)
    requires Ready(e) && rd.cinfo in e.property.table
    ensures Grouped(e, rd, pos, slen).0 != [] ==> rd.cinfo.group && rd.group.clen <= MAX_GROUPING_SIZE
    ensures rd.cinfo.group && rd.group.clen <= MAX_GROUPING_SIZE ==>
            |Grouped(e, rd, pos, slen).0| == UnkRun(e, rd.cinfo).count
    ensures forall n :: n in Grouped(e, rd, pos, slen).0 ==> n.stat == UnkNode
    ensures Grouped(e, rd, pos, slen).1.Some? <==> rd.cinfo.group
  {
  }

  /** The cap counts the characters after the first: a run of 25
      characters of a `group` category, the first and MAX_GROUPING_SIZE
      more, still gives the grouped word spanning all of it, while one more
      character does not. */
  lemma GroupsTwentyFive(e: Engine, rd: Reading, pos: nat, slen: nat)
    requires Ready(e) && rd.cinfo in e.property.table && rd.cinfo.group && UnkRun(e, rd.cinfo).count >= 1
    ensures rd.group.clen + 1 == 25 ==>
              Grouped(e, rd, pos, slen).0 != [] && Grouped(e, rd, pos, slen).1 == Some(rd.mlen + rd.group.blen)
    ensures rd.group.clen + 1 == 26 ==> Grouped(e, rd, pos, slen).0 == []
  {
  }

  /** The lengths of the incremental unknown words, in the order they are
      added: the first character, then the first two, and so on for up to
      `cinfo.length` rounds, stopping after the first word whose next
      character shares no category with `cinfo`, and skipping the word that
      ends where the grouped run ends. `i` counts the rounds and `ulen` is
      the length of the next word. With `inclusive` false the loop runs
      only while the next word ends before the end of the rest, as the
      loop is written; with `inclusive` true the word that ends at the end
      of the rest is added as well. */
  function IncrementalEnds(cinfo: CP.CharInfo, view: seq<Char>, isAdded: Option<nat>, i: nat, ulen: nat, inclusive: bool): seq<nat>
    decreases cinfo.length as int - i
  {
    if i >= cinfo.length as int || ulen > |view| || (!inclusive && ulen == |view|) then []
    else if isAdded == Some(ulen) then IncrementalEnds(cinfo, view, isAdded, i + 1, ulen, inclusive)
    else if ulen == |view| then [ulen]
    else
      [ulen] + (if CP.IsKindOf(cinfo, view[ulen].0)
                then IncrementalEnds(cinfo, view, isAdded, i + 1, ulen + view[ulen].1, inclusive)
                else [])
  }

  /** `addUnk` once for every length in `lens`. */
  function UnkNodesFor(e: Engine, cinfo: CP.CharInfo, pos: nat, lens: seq<nat>, slen: nat): (r: seq<Node>)
    requires Ready(e) && cinfo in e.property.table
    ensures forall n :: n in r ==> n.stat == UnkNode
    decreases |lens|
  {
    if lens == [] then []
    else UnkNodes(e, cinfo, pos, lens[0], slen) + UnkNodesFor(e, cinfo, pos, lens[1..], slen)
  }

  /** The grouped word, then the incremental words. */
  function UnknownWords(e: Engine, rd: Reading, pos: nat, slen: nat, inclusive: bool): (r: seq<Node>)
    requires Ready(e) && rd.cinfo in e.property.table
    ensures forall n :: n in r ==> n.stat == UnkNode
  {
    var grouped := Grouped(e, rd, pos, slen);
    grouped.0 + UnkNodesFor(e, rd.cinfo, pos, IncrementalEnds(rd.cinfo, rd.view, grouped.1, 0, rd.mlen, inclusive), slen)
  }

  /** The words added for `rest`, what follows `slen` bytes of white space
      in the bucket at `pos`, in the order they are created: every
      dictionary word that is a prefix of `rest`, then, when there is none
      or the first character's category always invokes, the grouped and
      the incremental unknown words. */
  function Words(e: Engine, rest: seq<byte>, rd: Reading, pos: nat, slen: nat, inclusive: bool): seq<Node>
    requires Ready(e) && Fits(e, rest, rd)
  {
    var nor := DictionaryWords(e, rest, pos, slen);
    nor + UnknownPart(e, rd, pos, slen, inclusive, nor != [])
  }

  /** The unknown words among the candidates: none after a dictionary word
      (`matched`) unless the category always invokes. */
  function UnknownPart(e: Engine, rd: Reading, pos: nat, slen: nat, inclusive: bool, matched: bool): seq<Node>
    requires Ready(e) && rd.cinfo in e.property.table
  {
    if matched && !rd.cinfo.invoke then [] else UnknownWords(e, rd, pos, slen, inclusive)
  }

  /** `sk` is a seek over the white space at the start of `sv`: it stays
      inside `sv`, and when it stops before the end it stops on a known
      character of at least one byte. */
  predicate Skipped(e: Engine, sv: seq<byte>, sk: CP.Seek)
    requires Ready(e)
  {
    && sk.blen <= |sv|
    && (sk.blen < |sv| ==> sk.info in e.property.table && 1 <= sk.mlen <= |sv| - sk.blen)
  }

  /** The white space `tokenize` skips at the start of `sv`. */
  function Skip(e: Engine, sv: seq<byte>): (r: CP.Seek)
    requires Ready(e)
    ensures Skipped(e, sv, r)
  {
    CP.SeekBounds(e.property, sv, e.space);
    CP.SeekToOther(e.property, sv, e.space)
  }

  /** The candidate words `tokenize` creates for the rest `sv` of the
      sentence from byte `pos` once the white space `sk` is skipped: none
      when nothing follows the white space. */
  function CandidatesAfter(e: Engine, sv: seq<byte>, sk: CP.Seek, pos: nat, inclusive: bool): seq<Node>
    requires Ready(e) && Skipped(e, sv, sk)
  {
    if sk.blen == |sv| then []
    else
      var rest := sv[sk.blen..];
      Words(e, rest, Read(e, rest, sk.info, sk.mlen), pos, sk.blen, inclusive)
  }

  /** The candidate words `tokenize` creates for the rest `sv` of the
      sentence from byte `pos`. */
  function Candidates(e: Engine, sv: seq<byte>, pos: nat, inclusive: bool): seq<Node>
    requires Ready(e)
  {
    CandidatesAfter(e, sv, Skip(e, sv), pos, inclusive)
  }

  // ---------------------------------------------------------------------
  // What the candidates are

  lemma {:induction false} NorNodesWithin(e: Engine, runs: seq<D.Run>, pos: nat, slen: nat, hi: nat)
    requires Ready(e) && forall r :: r in runs ==> r.start + r.count <= |e.sysdic.tokens|
    requires forall r :: r in runs ==> 1 <= r.length <= hi
    ensures forall n :: n in NorNodes(e, runs, pos, slen) ==> FreshAt(e, n, NorNode, pos, slen, 1, hi)
    decreases |runs|
  {
    if runs != [] {
      var init, last := runs[..|runs| - 1], runs[|runs| - 1];
      assert forall r :: r in init ==> r in runs;
      assert last in runs;
      NorNodesWithin(e, init, pos, slen, hi);
      EntryNodesFresh(e, e.sysdic, NorNode, last.start, last.count, pos, last.length, slen);
    }
  }

  lemma {:induction false} UnkNodesForWithin(e: Engine, cinfo: CP.CharInfo, pos: nat, lens: seq<nat>, slen: nat, lo: nat, hi: nat)
    requires Ready(e) && cinfo in e.property.table
    requires forall l :: l in lens ==> lo <= l <= hi
    ensures forall n :: n in UnkNodesFor(e, cinfo, pos, lens, slen) ==> FreshAt(e, n, UnkNode, pos, slen, lo, hi)
    decreases |lens|
  {
    if lens != [] {
      var here := UnkNodes(e, cinfo, pos, lens[0], slen);
      var rest := UnkNodesFor(e, cinfo, pos, lens[1..], slen);
      assert UnkNodesFor(e, cinfo, pos, lens, slen) == here + rest;
      assert lens[0] in lens;
      var run := UnkRun(e, cinfo);
      EntryNodesFresh(e, e.unkdic, UnkNode, run.start, run.count, pos, lens[0], slen);
      assert forall l :: l in lens[1..] ==> l in lens;
      UnkNodesForWithin(e, cinfo, pos, lens[1..], slen, lo, hi);
      forall n | n in here + rest
        ensures FreshAt(e, n, UnkNode, pos, slen, lo, hi)
      {
        if n in here {
          assert FreshAt(e, n, UnkNode, pos, slen, lens[0], lens[0]);
        }
      }
    }
  }

  lemma {:induction false} UnkNodesForCount(e: Engine, cinfo: CP.CharInfo, pos: nat, lens: seq<nat>, slen: nat)
    requires Ready(e) && cinfo in e.property.table
    ensures |UnkNodesFor(e, cinfo, pos, lens, slen)| == |lens| * UnkRun(e, cinfo).count
    decreases |lens|
  {
    if lens != [] {
      UnkNodesForCount(e, cinfo, pos, lens[1..], slen);
      assert |lens| * UnkRun(e, cinfo).count == UnkRun(e, cinfo).count + (|lens| - 1) * UnkRun(e, cinfo).count;
    }
  }

  /** Word lengths that grow strictly, from at least `lo` up to at most
      `hi`, none of them `isAdded`. */
  predicate Growing(ends: seq<nat>, lo: nat, hi: int, isAdded: Option<nat>) {
    && (forall k :: 0 <= k < |ends| ==> lo <= ends[k] <= hi && isAdded != Some(ends[k]))
    && (forall k, l :: 0 <= k < l < |ends| ==> ends[k] < ends[l])
  }

  lemma GrowingCons(u: nat, rest: seq<nat>, lo: nat, hi: int, isAdded: Option<nat>)
    requires Growing(rest, u + 1, hi, isAdded) && lo <= u <= hi && isAdded != Some(u)
    ensures Growing([u] + rest, lo, hi, isAdded)
  {
    var ends := [u] + rest;
    assert forall k :: 1 <= k < |ends| ==> ends[k] == rest[k - 1];
  }

  /** The incremental words grow strictly, from the first word's length up
      to at most the whole rest (strictly less as written), and none ends
      where the grouped run ends. */
  lemma {:induction false} EndsWithin(cinfo: CP.CharInfo, view: seq<Char>, isAdded: Option<nat>, i: nat, ulen: nat, inclusive: bool, hi: int)
    requires Steps(view)
    requires hi == |view| || (!inclusive && hi == |view| - 1)
    ensures Growing(IncrementalEnds(cinfo, view, isAdded, i, ulen, inclusive), ulen, hi, isAdded)
    decreases cinfo.length as int - i
  {
    if i >= cinfo.length as int || ulen > |view| || (!inclusive && ulen == |view|) {
    } else if isAdded == Some(ulen) {
      EndsWithin(cinfo, view, isAdded, i + 1, ulen, inclusive, hi);
    } else if ulen < |view| {
      var next := ulen + view[ulen].1;
      var rest := if CP.IsKindOf(cinfo, view[ulen].0) then IncrementalEnds(cinfo, view, isAdded, i + 1, next, inclusive) else [];
      assert IncrementalEnds(cinfo, view, isAdded, i, ulen, inclusive) == [ulen] + rest;
      if CP.IsKindOf(cinfo, view[ulen].0) {
        EndsWithin(cinfo, view, isAdded, i + 1, next, inclusive, hi);
      }
      GrowingCons(ulen, rest, ulen, hi, isAdded);
    } else {
      assert IncrementalEnds(cinfo, view, isAdded, i, ulen, inclusive) == [ulen];
    }
  }

  /** At most one word per round. */
  lemma {:induction false} EndsCount(cinfo: CP.CharInfo, view: seq<Char>, isAdded: Option<nat>, i: nat, ulen: nat, inclusive: bool)
    requires i <= cinfo.length as int
    ensures |IncrementalEnds(cinfo, view, isAdded, i, ulen, inclusive)| <= cinfo.length as int - i
    decreases cinfo.length as int - i
  {
    if i >= cinfo.length as int || ulen > |view| || (!inclusive && ulen == |view|) {
    } else if isAdded == Some(ulen) {
      EndsCount(cinfo, view, isAdded, i + 1, ulen, inclusive);
    } else if ulen < |view| && CP.IsKindOf(cinfo, view[ulen].0) {
      EndsCount(cinfo, view, isAdded, i + 1, ulen + view[ulen].1, inclusive);
    }
  }

  /** Once the next word would end where the grouped run ends, every
      remaining round is skipped. */
  lemma {:induction false} EndsStopAtGroupEnd(cinfo: CP.CharInfo, view: seq<Char>, i: nat, ulen: nat, inclusive: bool)
    ensures IncrementalEnds(cinfo, view, Some(ulen), i, ulen, inclusive) == []
    decreases cinfo.length as int - i
  {
    if i < cinfo.length as int {
      EndsStopAtGroupEnd(cinfo, view, i + 1, ulen, inclusive);
    }
  }

  /** Every character of `view` from byte `from` up to byte `to` shares a
      category with `cinfo`. */
  predicate SameKindAs(cinfo: CP.CharInfo, view: seq<Char>, from: nat, to: nat)
    decreases (to as int) - from
  {
    from == to ||
    (from < to && from < |view| && view[from].1 >= 1 &&
     CP.IsKindOf(cinfo, view[from].0) && SameKindAs(cinfo, view, from + view[from].1, to))
  }

  /** Each word grows only by characters sharing a category with the
      first character's record. */
  lemma {:induction false} EndsSameKind(cinfo: CP.CharInfo, view: seq<Char>, isAdded: Option<nat>, i: nat, ulen: nat, inclusive: bool)
    requires Steps(view)
    ensures forall l :: l in IncrementalEnds(cinfo, view, isAdded, i, ulen, inclusive) ==> SameKindAs(cinfo, view, ulen, l)
    decreases cinfo.length as int - i
  {
    if i >= cinfo.length as int || ulen > |view| || (!inclusive && ulen == |view|) {
    } else if isAdded == Some(ulen) {
      EndsSameKind(cinfo, view, isAdded, i + 1, ulen, inclusive);
      assert IncrementalEnds(cinfo, view, isAdded, i, ulen, inclusive) ==
             IncrementalEnds(cinfo, view, isAdded, i + 1, ulen, inclusive);
    } else if ulen < |view| && CP.IsKindOf(cinfo, view[ulen].0) {
      var next := ulen + view[ulen].1;
      var rest := IncrementalEnds(cinfo, view, isAdded, i + 1, next, inclusive);
      assert IncrementalEnds(cinfo, view, isAdded, i, ulen, inclusive) == [ulen] + rest;
      EndsSameKind(cinfo, view, isAdded, i + 1, next, inclusive);
      EndsWithin(cinfo, view, isAdded, i + 1, next, inclusive, |view|);
      forall l | l in rest
        ensures SameKindAs(cinfo, view, ulen, l)
      {
        assert next <= l;
        assert SameKindAs(cinfo, view, next, l);
      }
    }
  }

  /** `n` is a fresh word of the lattice whose bucket is at byte `pos`:
      it starts after `slen` bytes of white space and ends inside the
      `size` bytes of the rest of the sentence. Its lengths are exact, and
      it is at least one byte long, when the rest fits in a `uint16`. */
  predicate CandidateAt(e: Engine, n: Node, pos: nat, slen: nat, size: nat) {
    && (n.stat == NorNode || n.stat == UnkNode)
    && n.prev.None? && n.next.None? && n.cost == 0 && n.surface == At(pos + slen)
    && n.rcAttr < e.lSize && n.lcAttr < e.rSize && -0x8000 <= n.wcost < 0x8000
    && slen + n.length <= size && n.rlength <= slen + n.length
    && (size < U16 ==> 1 <= n.length && n.rlength == slen + n.length)
  }

  predicate AllAt(e: Engine, c: seq<Node>, pos: nat, slen: nat, size: nat) {
    forall n :: n in c ==> CandidateAt(e, n, pos, slen, size)
  }

  lemma AllAtConcat(e: Engine, a: seq<Node>, b: seq<Node>, pos: nat, slen: nat, size: nat)
    requires AllAt(e, a, pos, slen, size) && AllAt(e, b, pos, slen, size)
    ensures AllAt(e, a + b, pos, slen, size)
  {
  }

  lemma DictionarySpans(e: Engine, rest: seq<byte>, pos: nat, slen: nat, size: nat)
    requires Ready(e) && size == slen + |rest|
    ensures AllAt(e, DictionaryWords(e, rest, pos, slen), pos, slen, size)
  {
    D.LookupRunsInRange(e.sysdic, rest);
    D.PrefixHitsNotEmpty(e.sysdic, rest);
    D.CommonPrefixOrdered(e.sysdic, rest);
    NorNodesWithin(e, D.CommonPrefix(e.sysdic, rest), pos, slen, |rest|);
  }

  lemma UnknownSpans(e: Engine, rest: seq<byte>, rd: Reading, pos: nat, slen: nat, size: nat, inclusive: bool)
    requires Ready(e) && Fits(e, rest, rd) && size == slen + |rest|
    ensures AllAt(e, UnknownWords(e, rd, pos, slen, inclusive), pos, slen, size)
  {
    var grouped := Grouped(e, rd, pos, slen);
    if grouped.0 != [] {
      var run := UnkRun(e, rd.cinfo);
      EntryNodesFresh(e, e.unkdic, UnkNode, run.start, run.count, pos, grouped.1.value, slen);
    }
    var ends := IncrementalEnds(rd.cinfo, rd.view, grouped.1, 0, rd.mlen, inclusive);
    EndsWithin(rd.cinfo, rd.view, grouped.1, 0, rd.mlen, inclusive, |rest|);
    UnkNodesForWithin(e, rd.cinfo, pos, ends, slen, rd.mlen, |rest|);
  }

  lemma UnknownPartSpans(e: Engine, rest: seq<byte>, rd: Reading, pos: nat, slen: nat, size: nat, inclusive: bool, matched: bool)
    requires Ready(e) && Fits(e, rest, rd) && size == slen + |rest|
    ensures AllAt(e, UnknownPart(e, rd, pos, slen, inclusive, matched), pos, slen, size)
  {
    if !(matched && !rd.cinfo.invoke) {
      UnknownSpans(e, rest, rd, pos, slen, size, inclusive);
    }
  }

  lemma WordsSpans(e: Engine, rest: seq<byte>, rd: Reading, pos: nat, slen: nat, size: nat, inclusive: bool)
    requires Ready(e) && Fits(e, rest, rd) && size == slen + |rest|
    ensures AllAt(e, Words(e, rest, rd, pos, slen, inclusive), pos, slen, size)
  {
    var nor := DictionaryWords(e, rest, pos, slen);
    DictionarySpans(e, rest, pos, slen, size);
    UnknownPartSpans(e, rest, rd, pos, slen, size, inclusive, nor != []);
    AllAtConcat(e, nor, UnknownPart(e, rd, pos, slen, inclusive, nor != []), pos, slen, size);
  }

  /** Every candidate is a fresh normal or unknown word that starts right
      after the skipped white space and ends inside the sentence. */
  lemma CandidateSpans(e: Engine, sv: seq<byte>, sk: CP.Seek, pos: nat, inclusive: bool)
    requires Ready(e) && Skipped(e, sv, sk)
    ensures AllAt(e, CandidatesAfter(e, sv, sk, pos, inclusive), pos, sk.blen, |sv|)
  {
    if sk.blen < |sv| {
      var rest := sv[sk.blen..];
      WordsSpans(e, rest, Read(e, rest, sk.info, sk.mlen), pos, sk.blen, |sv|, inclusive);
    }
  }

  /** A rest of the sentence made only of white space yields no word. */
  lemma NoCandidatesInBlank(e: Engine, sv: seq<byte>, pos: nat, inclusive: bool)
    requires Ready(e) && CP.Chain(e.property, sv, e.space)
    ensures Candidates(e, sv, pos, inclusive) == []
  {
    CP.SeekConsumesChain(e.property, sv, e.space);
  }

  /** The first `k` nodes of `c` are dictionary words, the rest unknown words. */
  predicate NormalBefore(c: seq<Node>, k: nat) {
    && k <= |c|
    && (forall i :: 0 <= i < k ==> c[i].stat == NorNode)
    && (forall i :: k <= i < |c| ==> c[i].stat == UnkNode)
  }

  lemma NormalBeforeConcat(nor: seq<Node>, unk: seq<Node>)
    requires forall n :: n in nor ==> n.stat == NorNode
    requires forall n :: n in unk ==> n.stat == UnkNode
    ensures NormalBefore(nor + unk, |nor|)
  {
    var c := nor + unk;
    forall i | 0 <= i < |nor| ensures c[i].stat == NorNode {
      assert c[i] == nor[i];
    }
    forall i | |nor| <= i < |c| ensures c[i].stat == UnkNode {
      assert c[i] == unk[i - |nor|];
    }
  }

  /** Dictionary words come first, one per entry of every prefix hit, and
      unknown words after them; unknown words are tried only when no
      dictionary word matched or the first character's category always
      invokes. */
  lemma NormalThenUnknown(e: Engine, rest: seq<byte>, rd: Reading, pos: nat, slen: nat, inclusive: bool)
    requires Ready(e) && Fits(e, rest, rd)
    ensures NormalBefore(Words(e, rest, rd, pos, slen, inclusive), TotalCount(D.CommonPrefix(e.sysdic, rest)))
    ensures DictionaryWords(e, rest, pos, slen) != [] && !rd.cinfo.invoke ==>
              Words(e, rest, rd, pos, slen, inclusive) == DictionaryWords(e, rest, pos, slen)
    ensures DictionaryWords(e, rest, pos, slen) == [] || rd.cinfo.invoke ==>
              Words(e, rest, rd, pos, slen, inclusive)
              == DictionaryWords(e, rest, pos, slen) + UnknownWords(e, rd, pos, slen, inclusive)
  {
    var nor := DictionaryWords(e, rest, pos, slen);
    var unk := UnknownPart(e, rd, pos, slen, inclusive, nor != []);
    NormalBeforeConcat(nor, unk);
    assert nor + [] == nor;
  }

  /** Inclusive of the end, the unknown words of a character whose category
      has entries and allows at least one round are never empty. */
  lemma UnknownWordsNotEmpty(e: Engine, rest: seq<byte>, rd: Reading, pos: nat, slen: nat)
    requires Ready(e) && Fits(e, rest, rd)
    requires rd.cinfo.length >= 1 && UnkRun(e, rd.cinfo).count >= 1
    ensures UnknownWords(e, rd, pos, slen, true) != []
  {
    var grouped := Grouped(e, rd, pos, slen);
    if grouped.0 == [] {
      var ends := IncrementalEnds(rd.cinfo, rd.view, grouped.1, 0, rd.mlen, true);
      assert ends != [] && ends[0] == rd.mlen;
      assert UnkNodesFor(e, rd.cinfo, pos, ends, slen) != [];
    }
  }

  /** With the loop extended to the end of the input, every start that is
      not white space gets a word, provided the first character's category
      has entries and allows at least one round. */
  lemma EveryStartHasWords(e: Engine, rest: seq<byte>, rd: Reading, pos: nat, slen: nat)
    requires Ready(e) && Fits(e, rest, rd)
    requires rd.cinfo.length >= 1 && UnkRun(e, rd.cinfo).count >= 1
    ensures Words(e, rest, rd, pos, slen, true) != []
  {
    if DictionaryWords(e, rest, pos, slen) == [] {
      UnknownWordsNotEmpty(e, rest, rd, pos, slen);
    }
  }

  /** As written, the incremental loop never adds a word that reaches the
      end of the sentence, so a sentence whose last character matches no
      dictionary word and does not group gets no word there at all. */
  lemma FinalCharacterDroppedAsWritten(e: Engine, rest: seq<byte>, rd: Reading, pos: nat, slen: nat)
    requires Ready(e) && Fits(e, rest, rd)
    requires rd.mlen == |rest| && !rd.cinfo.group
    requires D.CommonPrefix(e.sysdic, rest) == []
    ensures Words(e, rest, rd, pos, slen, false) == []
    ensures rd.cinfo.length >= 1 && UnkRun(e, rd.cinfo).count >= 1 ==> Words(e, rest, rd, pos, slen, true) != []
  {
    assert IncrementalEnds(rd.cinfo, rd.view, None, 0, rd.mlen, false) == [];
    if rd.cinfo.length >= 1 && UnkRun(e, rd.cinfo).count >= 1 {
      EveryStartHasWords(e, rest, rd, pos, slen);
    }
  }
}
