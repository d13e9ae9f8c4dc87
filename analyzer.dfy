/** The analyzer object: it holds the loaded resources, the sentence, the
    node arena, the buckets of nodes by end offset and the candidates of
    the last tokenized offset, and updates them in place. Each operation
    is proved to leave the state the functional model of the lattice
    (modules Lattice and Viterbi) prescribes. */
module Analyzer {
  import opened Common
  import opened Mecab
  import L = Lattice
  import V = Viterbi
  import CP = CharProperty
  import D = Dictionary
  import W = Writer
  import P = Param

  /** The indices `hi - 1` down to `lo`: the candidates added since the
      arena held `lo` nodes, newest first, as `tokens_` lists them. */
  function Newest(lo: nat, hi: nat): (r: seq<nat>)
    requires lo <= hi
    ensures |r| == hi - lo
    decreases hi - lo
  {
    if hi == lo then [] else [hi - 1] + Newest(lo, hi - 1)
  }

  /** Entry `k` of `Newest(lo, hi)` is the node `hi - 1 - k`. */
  lemma {:induction false} NewestAt(lo: nat, hi: nat, k: nat)
    requires lo <= hi && k < hi - lo
    ensures Newest(lo, hi)[k] == hi - 1 - k
    decreases hi - lo
  {
    if k > 0 {
      NewestAt(lo, hi - 1, k - 1);
    }
  }

  /** The nodes added since `lo`, newest first, are those added since
      `mid` followed by those added between `lo` and `mid`. */
  lemma {:induction false} NewestJoin(lo: nat, mid: nat, hi: nat)
    requires lo <= mid <= hi
    ensures Newest(mid, hi) + Newest(lo, mid) == Newest(lo, hi)
    decreases hi - mid
  {
    if hi > mid {
      NewestJoin(lo, mid, hi - 1);
    }
  }

  /** The character at offset `k` of a reading is the classifier's answer
      on the rest from `k`. */
  lemma ReadView(e: L.Engine, rest: seq<byte>, cinfo: CP.CharInfo, mlen: nat)
    requires L.Ready(e) && cinfo in e.property.table && 1 <= mlen <= |rest|
    ensures var view := L.Read(e, rest, cinfo, mlen).view;
      |view| == |rest| && forall k :: 0 <= k < |rest| ==> view[k] == CP.GetCharInfo(e.property, rest[k..])
  {
  }

  /** Concatenation is associative. */
  lemma Assoc<T>(a: seq<T>, b: seq<T>, c: seq<T>)
    ensures a + (b + c) == (a + b) + c
  {
  }

  /** Appending nothing changes nothing. */
  lemma AppendNil<T>(a: seq<T>)
    ensures a + [] == a
  {
  }

  /** Nodes added since `mid`, in front of those added since `lo` and of
      the older entries, are the nodes added since `lo` in front of them. */
  lemma NewestAppend(lo: nat, mid: nat, hi: nat, older: seq<nat>)
    requires lo <= mid <= hi
    ensures Newest(mid, hi) + (Newest(lo, mid) + older) == Newest(lo, hi) + older
  {
    NewestJoin(lo, mid, hi);
    Assoc(Newest(mid, hi), Newest(lo, mid), older);
  }

  /** One more run adds its entries' nodes after those of the runs before. */
  lemma NorNodesStep(e: L.Engine, runs: seq<D.Run>, k: nat, pos: nat, slen: nat)
    requires L.Ready(e) && k < |runs| && forall r :: r in runs ==> r.start + r.count <= |e.sysdic.tokens|
    ensures runs[k].start + runs[k].count <= |e.sysdic.tokens|
    ensures L.NorNodes(e, runs[..k + 1], pos, slen)
         == L.NorNodes(e, runs[..k], pos, slen) + L.EntryNodes(e.sysdic, NorNode, runs[k].start, runs[k].count, pos, runs[k].length, slen)
  {
    assert runs[k] in runs;
    assert runs[..k + 1][..k] == runs[..k];
  }

  /** Whether the incremental loop stops after the word of `ulen` bytes,
      and the length of the next word when it does not, asking the
      classifier about the character after the word; `view` holds the
      classifier's answer at that offset. */
  method NextRound(p: CP.CharProperty, surface: seq<byte>, cinfo: CP.CharInfo, i: nat, ulen: nat, isAdded: Option<nat>,
                   ghost view: seq<L.Char>) returns (stop: bool, next: nat)
    requires CP.Valid(p) && i < cinfo.length as int && 1 <= ulen <= |surface| && isAdded != Some(ulen)
    requires |view| == |surface| && (ulen < |surface| ==> view[ulen] == CP.GetCharInfo(p, surface[ulen..]))
    ensures L.IncrementalEnds(cinfo, view, isAdded, i, ulen, true)
         == [ulen] + (if stop then [] else L.IncrementalEnds(cinfo, view, isAdded, i + 1, next, true))
    ensures !stop ==> ulen < next
  {
    if ulen == |surface| {
      return true, ulen;
    }
    var (c, clen) := CP.GetCharInfo(p, surface[ulen..]);
    stop, next := !CP.IsKindOf(cinfo, c), ulen + clen;
  }

  /** One more length adds its words after those of the lengths before. */
  lemma {:induction false} UnkNodesForSnoc(e: L.Engine, cinfo: CP.CharInfo, pos: nat, lens: seq<nat>, len: nat, slen: nat)
    requires L.Ready(e) && cinfo in e.property.table
    ensures L.UnkNodesFor(e, cinfo, pos, lens + [len], slen) == L.UnkNodesFor(e, cinfo, pos, lens, slen) + L.UnkNodes(e, cinfo, pos, len, slen)
    decreases |lens|
  {
    if lens == [] {
      assert [] + [len] == [len];
      assert [len][1..] == [];
    } else {
      assert (lens + [len])[1..] == lens[1..] + [len];
      UnkNodesForSnoc(e, cinfo, pos, lens[1..], len, slen);
      Assoc(L.UnkNodes(e, cinfo, pos, lens[0], slen), L.UnkNodesFor(e, cinfo, pos, lens[1..], slen), L.UnkNodes(e, cinfo, pos, len, slen));
    }
  }

  /** Writing `t` after `out` and then the rest is writing `out + t`
      and then the rest. */
  lemma PrependJoin(out: string, t: string, rest: Result<string, W.WriteError>)
    ensures W.Prepend(out, W.Prepend(t, rest)) == W.Prepend(out + t, rest)
  {
    if rest.Success? {
      Assoc(out, t, rest.value);
    }
  }

  /** Entry `k` of the costs is the predecessor's cost, the matrix cell
      for the pair of ids and the node's own cost. */
  lemma CostAt(e: L.Engine, nodes: seq<Node>, bucket: seq<nat>, rNode: Node, k: nat)
    requires L.Ready(e) && rNode.lcAttr < e.rSize && k < |bucket|
    requires forall k :: 0 <= k < |bucket| ==> bucket[k] < |nodes| && nodes[bucket[k]].rcAttr < e.lSize
    ensures 2 + nodes[bucket[k]].rcAttr + e.lSize * rNode.lcAttr < |e.matrix|
    ensures V.Costs(e, nodes, bucket, rNode)[k]
         == nodes[bucket[k]].cost + e.matrix[2 + nodes[bucket[k]].rcAttr + e.lSize * rNode.lcAttr] + rNode.wcost
  {
    L.CellInMatrix(e.matrix, nodes[bucket[k]].rcAttr, rNode.lcAttr);
  }

  /** The cost of reaching `rNode` through `lNode`: the cost so far, the
      matrix cell for their connection ids and the word cost. */
  method LinkCost(e: L.Engine, lNode: Node, rNode: Node) returns (cost: int)
    requires L.Ready(e) && lNode.rcAttr < e.lSize && rNode.lcAttr < e.rSize
    ensures cost == V.PathCost(e, lNode, rNode)
  {
    L.CellInMatrix(e.matrix, lNode.rcAttr, rNode.lcAttr);
    cost := lNode.cost + e.matrix[2 + lNode.rcAttr + e.lSize * rNode.lcAttr] + rNode.wcost;
  }

  /** The scan of `connect` over `bucket`: the least cost of reaching
      `rNode` through one of its nodes, and the first node giving it; no
      node when none costs less than the largest int64. */
  method BestWayIn(e: L.Engine, nodes: seq<Node>, bucket: seq<nat>, rNode: Node) returns (bestCost: int, bestNode: Option<nat>)
    requires L.Ready(e) && rNode.lcAttr < e.rSize
    requires forall k :: 0 <= k < |bucket| ==> bucket[k] < |nodes| && nodes[bucket[k]].rcAttr < e.lSize
    ensures var best := V.FirstMin(V.Costs(e, nodes, bucket, rNode));
      bestCost == best.0 && bestNode == if best.1.Some? then Some(bucket[best.1.value]) else None
  {
    ghost var costs := V.Costs(e, nodes, bucket, rNode);
    bestCost, bestNode := L.INT64_MAX, None;
    ghost var bestAt: Option<nat> := None;
    for k := 0 to |bucket|
      invariant bestAt.Some? ==> bestAt.value < k
      invariant bestNode == if bestAt.Some? then Some(bucket[bestAt.value]) else None
      invariant V.FirstMinFrom(costs, k, bestCost, bestAt) == V.FirstMin(costs)
    {
      var cost := LinkCost(e, nodes[bucket[k]], rNode);
      if bestCost > cost {
        bestCost, bestNode, bestAt := cost, Some(bucket[k]), Some(k);
      }
    }
  }

  /** What is written from node `i` on: its own text, then what is
      written from the node after it. */
  lemma WrittenFrom(f: W.Formats, s: seq<byte>, nodes: seq<Node>, i: nat)
    requires V.Placed(s, nodes) && V.Onward(nodes) && i < |nodes|
    ensures V.Written(f, s, nodes, V.Walk(nodes, i))
         == match W.Render(f.For(nodes[i].stat), s, nodes[i], 0)
            case Failure(err) => Failure(err)
            case Success(t) => W.Prepend(t, match nodes[i].next
                                            case None => Success("")
                                            case Some(k) => V.Written(f, s, nodes, V.Walk(nodes, k)))
  {
    var later := if nodes[i].next.Some? then V.Walk(nodes, nodes[i].next.value) else [];
    assert V.Walk(nodes, i) == [i] + later && ([i] + later)[1..] == later;
  }

  /** What a lattice that was never opened holds: nothing loaded. */
  function Unloaded(): L.Engine {
    L.Engine(D.Dictionary([], [], []), D.Dictionary([], [], []), CP.CharProperty([], []), CP.ZERO_INFO, [], [], 0, 0)
  }

  class Lattice {
    var engine: L.Engine
    var writer: W.Writer
    var sentence: seq<byte>
    var nodes: seq<Node>
    var endNodes: seq<seq<nat>>
    var tokens: seq<nat>

    /** The arena and the buckets, as the functional model sees them. */
    function State(): V.Lat
      reads this
    {
      V.Lat(nodes, endNodes)
    }

    /** The resources, the sentence and the writer stay as they were. */
    twostate predicate Kept()
      reads this
    {
      engine == old(engine) && sentence == old(sentence) && writer == old(writer)
    }

    constructor ()
      ensures engine == Unloaded() && sentence == [] && nodes == [] && endNodes == [] && tokens == []
      ensures fresh(writer) && writer.Current() == W.Formats("", "", "", "") && writer.sentence == []
    {
      engine := Unloaded();
      writer := new W.Writer();
      sentence, nodes, endNodes, tokens := [], [], [], [];
    }

    // -------------------------------------------------------------------
    // Nodes

    /** `newNode`: adds `n` to the arena; its index is returned. */
    method NewNode(n: Node) returns (i: nat)
      modifies this
      ensures Kept() && nodes == old(nodes) + [n] && i == |old(nodes)|
      ensures endNodes == old(endNodes) && tokens == old(tokens)
    {
      i := |nodes|;
      nodes := nodes + [n];
    }

    /** One node per entry of the run of `count` entries of `d` from
        `start`, each put in front of `tokens`: the loop shared by `addNor`
        and `addUnk`. */
    method AddEntries(d: D.Dictionary, stat: NodeStat, start: nat, count: nat, pos: nat, len: nat, slen: nat)
      requires D.Valid(d) && start + count <= |d.tokens|
      modifies this
      ensures Kept() && endNodes == old(endNodes)
      ensures nodes == old(nodes) + L.EntryNodes(d, stat, start, count, pos, len, slen)
      ensures tokens == Newest(|old(nodes)|, |nodes|) + old(tokens)
    {
      ghost var want := L.EntryNodes(d, stat, start, count, pos, len, slen);
      ghost var lo := |nodes|;
      for i := 0 to count
        invariant Kept() && endNodes == old(endNodes)
        invariant nodes == old(nodes) + want[..i]
        invariant tokens == Newest(lo, |nodes|) + old(tokens)
      {
        L.EntryNodesAt(d, stat, start, count, pos, len, slen, i);
        AddToken(L.EntryNode(d, stat, d.tokens[start + i], pos, len, slen), lo);
        assert want[..i + 1] == want[..i] + [want[i]];
      }
      assert want[..count] == want;
    }

    /** `tokens_.emplace_front(newNode(...))`. */
    method AddToken(n: Node, ghost lo: nat)
      requires lo <= |nodes|
      modifies this
      ensures Kept() && endNodes == old(endNodes) && nodes == old(nodes) + [n]
      ensures tokens == [|old(nodes)|] + old(tokens)
      ensures Newest(lo, |nodes|) == [|old(nodes)|] + Newest(lo, |old(nodes)|)
    {
      var k := NewNode(n);
      tokens := [k] + tokens;
    }

    /** `addNor`: the nodes of a dictionary hit. */
    method AddNor(run: D.Run, pos: nat, slen: nat)
      requires L.Ready(engine) && run.start + run.count <= |engine.sysdic.tokens|
      modifies this
      ensures Kept() && endNodes == old(endNodes)
      ensures nodes == old(nodes) + L.EntryNodes(engine.sysdic, NorNode, run.start, run.count, pos, run.length, slen)
      ensures tokens == Newest(|old(nodes)|, |nodes|) + old(tokens)
    {
      AddEntries(engine.sysdic, NorNode, run.start, run.count, pos, run.length, slen);
    }

    /** `addUnk`: the nodes of the default category of `cinfo`, `len`
        bytes long. */
    method AddUnk(cinfo: CP.CharInfo, pos: nat, len: nat, slen: nat)
      requires L.Ready(engine) && cinfo in engine.property.table
      modifies this
      ensures Kept() && endNodes == old(endNodes)
      ensures nodes == old(nodes) + L.UnkNodes(engine, cinfo, pos, len, slen)
      ensures tokens == Newest(|old(nodes)|, |nodes|) + old(tokens)
    {
      var run := engine.unkRuns[cinfo.defaultType as int];
      AddEntries(engine.unkdic, UnkNode, run.start, run.count, pos, len, slen);
    }

    // -------------------------------------------------------------------
    // tokenize

    /** `addNor` for each run of a common-prefix search, in order. */
    method AddNors(runs: seq<D.Run>, pos: nat, slen: nat)
      requires L.Ready(engine) && forall r :: r in runs ==> r.start + r.count <= |engine.sysdic.tokens|
      modifies this
      ensures Kept() && endNodes == old(endNodes)
      ensures nodes == old(nodes) + L.NorNodes(engine, runs, pos, slen)
      ensures tokens == Newest(|old(nodes)|, |nodes|) + old(tokens)
    {
      ghost var lo := |nodes|;
      for k := 0 to |runs|
        invariant Kept() && endNodes == old(endNodes)
        invariant nodes == old(nodes) + L.NorNodes(engine, runs[..k], pos, slen)
        invariant tokens == Newest(lo, |nodes|) + old(tokens)
      {
        NorNodesStep(engine, runs, k, pos, slen);
        ghost var before := nodes;
        AddNor(runs[k], pos, slen);
        Assoc(old(nodes), L.NorNodes(engine, runs[..k], pos, slen), L.EntryNodes(engine.sysdic, NorNode, runs[k].start, runs[k].count, pos, runs[k].length, slen));
        NewestAppend(lo, |before|, |nodes|, old(tokens));
      }
      assert runs[..|runs|] == runs;
    }

    /** The incremental unknown words of `tokenize`: the first character of
        `surface`, then the first two, and so on, for up to
        `cinfo.length` rounds, skipping the length the grouped word
        already has, and stopping after a word that reaches the end of
        `surface` or whose next character shares no category with
        `cinfo`. */
    method AddIncremental(surface: seq<byte>, cinfo: CP.CharInfo, mlen: nat, isAdded: Option<nat>, pos: nat, slen: nat, ghost view: seq<L.Char>)
      requires L.Ready(engine) && cinfo in engine.property.table && 1 <= mlen <= |surface|
      requires |view| == |surface| && forall k :: 0 <= k < |surface| ==> view[k] == CP.GetCharInfo(engine.property, surface[k..])
      modifies this
      ensures Kept() && endNodes == old(endNodes)
      ensures nodes == old(nodes) + L.UnkNodesFor(engine, cinfo, pos, L.IncrementalEnds(cinfo, view, isAdded, 0, mlen, true), slen)
      ensures tokens == Newest(|old(nodes)|, |nodes|) + old(tokens)
    {
      ghost var all := L.IncrementalEnds(cinfo, view, isAdded, 0, mlen, true);
      ghost var done: seq<nat> := [];
      var ulen: nat := mlen;
      var i: nat := 0;
      while i < cinfo.length as int && ulen <= |surface|
        invariant Kept() && endNodes == old(endNodes) && |old(nodes)| <= |nodes| && 1 <= ulen
        invariant all == done + L.IncrementalEnds(cinfo, view, isAdded, i, ulen, true)
        invariant nodes == old(nodes) + L.UnkNodesFor(engine, cinfo, pos, done, slen)
        invariant tokens == Newest(|old(nodes)|, |nodes|) + old(tokens)
        decreases cinfo.length as int - i
      {
        if isAdded == Some(ulen) {
          i := i + 1;
          continue;
        }
        var stop, next := IncrementalRound(surface, cinfo, i, ulen, isAdded, pos, slen, view, old(nodes), old(tokens), done);
        ghost var rest := if stop then [] else L.IncrementalEnds(cinfo, view, isAdded, i + 1, next, true);
        Assoc(done, [ulen], rest);
        done := done + [ulen];
        if stop {
          AppendNil(done);
          break;
        }
        ulen := next;
        i := i + 1;
      }
      AppendNil(done);
    }

    /** One round of the incremental loop that adds a word: the word of
        `ulen` bytes, then the length of the next word, unless the word
        reaches the end of `surface` or the character after it shares no
        category with `cinfo` (`stop`). */
    method IncrementalRound(surface: seq<byte>, cinfo: CP.CharInfo, i: nat, ulen: nat, isAdded: Option<nat>, pos: nat, slen: nat,
                            ghost view: seq<L.Char>, ghost start: seq<Node>, ghost older: seq<nat>, ghost done: seq<nat>) returns (stop: bool, next: nat)
      requires L.Ready(engine) && cinfo in engine.property.table
      requires i < cinfo.length as int && 1 <= ulen <= |surface| && isAdded != Some(ulen)
      requires |view| == |surface| && (ulen < |surface| ==> view[ulen] == CP.GetCharInfo(engine.property, surface[ulen..]))
      requires |start| <= |nodes| && nodes == start + L.UnkNodesFor(engine, cinfo, pos, done, slen)
      requires tokens == Newest(|start|, |nodes|) + older
      modifies this
      ensures Kept() && endNodes == old(endNodes) && |start| <= |nodes|
      ensures nodes == start + L.UnkNodesFor(engine, cinfo, pos, done + [ulen], slen)
      ensures tokens == Newest(|start|, |nodes|) + older
      ensures L.IncrementalEnds(cinfo, view, isAdded, i, ulen, true)
           == [ulen] + (if stop then [] else L.IncrementalEnds(cinfo, view, isAdded, i + 1, next, true))
      ensures !stop ==> ulen < next
    {
      AddRound(cinfo, pos, ulen, slen, start, older, done);
      stop, next := NextRound(engine.property, surface, cinfo, i, ulen, isAdded, view);
    }

    /** The word of `ulen` bytes, appended after the words of the rounds
        `done`. */
    method AddRound(cinfo: CP.CharInfo, pos: nat, ulen: nat, slen: nat, ghost start: seq<Node>, ghost older: seq<nat>, ghost done: seq<nat>)
      requires L.Ready(engine) && cinfo in engine.property.table && 1 <= ulen
      requires |start| <= |nodes| && nodes == start + L.UnkNodesFor(engine, cinfo, pos, done, slen)
      requires tokens == Newest(|start|, |nodes|) + older
      modifies this
      ensures Kept() && endNodes == old(endNodes) && |start| <= |nodes|
      ensures nodes == start + L.UnkNodesFor(engine, cinfo, pos, done + [ulen], slen)
      ensures tokens == Newest(|start|, |nodes|) + older
    {
      AddUnk(cinfo, pos, ulen, slen);
      UnkNodesForSnoc(engine, cinfo, pos, done, ulen, slen);
      Assoc(start, L.UnkNodesFor(engine, cinfo, pos, done, slen), L.UnkNodes(engine, cinfo, pos, ulen, slen));
      NewestAppend(|start|, |old(nodes)|, |nodes|, older);
    }

    /** The unknown words of `tokenize` for `surface`, whose first
        character has record `cinfo` and `mlen` bytes: the grouped word when
        the category groups and the run after the first character holds at
        most MAX_GROUPING_SIZE characters, then the incremental words. */
    method AddUnknown(surface: seq<byte>, cinfo: CP.CharInfo, mlen: nat, pos: nat, slen: nat)
      requires L.Ready(engine) && cinfo in engine.property.table && 1 <= mlen <= |surface|
      modifies this
      ensures Kept() && endNodes == old(endNodes)
      ensures nodes == old(nodes) + L.UnknownWords(engine, L.Read(engine, surface, cinfo, mlen), pos, slen, true)
      ensures tokens == Newest(|old(nodes)|, |nodes|) + old(tokens)
    {
      ghost var rd := L.Read(engine, surface, cinfo, mlen);
      ReadView(engine, surface, cinfo, mlen);
      var isAdded := AddGrouped(surface, cinfo, mlen, pos, slen, rd);
      ghost var mid := nodes;
      AddIncremental(surface, cinfo, mlen, isAdded, pos, slen, rd.view);
      Assoc(old(nodes), L.Grouped(engine, rd, pos, slen).0, L.UnkNodesFor(engine, cinfo, pos, L.IncrementalEnds(cinfo, rd.view, isAdded, 0, mlen, true), slen));
      NewestAppend(|old(nodes)|, |mid|, |nodes|, old(tokens));
    }

    /** The grouped unknown word of `tokenize`: when the category of the
        first character groups, the word spanning it and the run of
        characters after it that share a category, provided the run holds
        at most MAX_GROUPING_SIZE characters; `isAdded` is the end of the
        run whenever grouping was tried. */
    method AddGrouped(surface: seq<byte>, cinfo: CP.CharInfo, mlen: nat, pos: nat, slen: nat, ghost rd: L.Reading) returns (isAdded: Option<nat>)
      requires L.Ready(engine) && cinfo in engine.property.table && 1 <= mlen <= |surface|
      requires rd.cinfo == cinfo && rd.mlen == mlen && rd.group == CP.SeekToOther(engine.property, surface[mlen..], cinfo)
      modifies this
      ensures Kept() && endNodes == old(endNodes)
      ensures isAdded == L.Grouped(engine, rd, pos, slen).1
      ensures nodes == old(nodes) + L.Grouped(engine, rd, pos, slen).0
      ensures tokens == Newest(|old(nodes)|, |nodes|) + old(tokens)
    {
      ghost var grouped := L.Grouped(engine, rd, pos, slen);
      isAdded := None;
      if cinfo.group {
        var g := CP.SeekToOtherType(engine.property, surface[mlen..], cinfo);
        var ulen := mlen + g.blen;
        if g.clen <= MAX_GROUPING_SIZE {
          assert grouped.0 == L.UnkNodes(engine, cinfo, pos, ulen, slen);
          AddUnk(cinfo, pos, ulen, slen);
          assert engine == old(engine);
        } else {
          AppendNil(nodes);
        }
        isAdded := Some(ulen);
      } else {
        AppendNil(nodes);
      }
    }

    /** `tokenize`: every candidate word for the rest of the sentence from
        byte `pos` is added to the arena in the order it is created, and
        the list of new nodes holds exactly these, newest first. Nothing is
        added when only white space is left. */
    method Tokenize(pos: nat)
      requires L.Ready(engine) && pos <= |sentence|
      modifies this
      ensures Kept() && endNodes == old(endNodes)
      ensures nodes == old(nodes) + L.Candidates(engine, sentence[pos..], pos, true)
      ensures tokens == Newest(|old(nodes)|, |nodes|)
    {
      var sv := sentence[pos..];
      tokens := [];
      var sk := CP.SeekToOtherType(engine.property, sv, engine.space);
      assert sk == L.Skip(engine, sv);
      if sk.blen == |sv| {
        AppendNil(nodes);
        return;
      }
      AddWords(sv[sk.blen..], sk.info, sk.mlen, pos, sk.blen);
      AppendNil(Newest(|old(nodes)|, |nodes|));
    }

    /** The words `tokenize` adds for `surface`, what follows `slen` bytes
        of white space, whose first character has record `cinfo` and `mlen`
        bytes: every dictionary word that is a prefix of `surface`, then,
        unless one was found and the category does not always invoke, the
        unknown words. */
    method AddWords(surface: seq<byte>, cinfo: CP.CharInfo, mlen: nat, pos: nat, slen: nat)
      requires L.Ready(engine) && cinfo in engine.property.table && 1 <= mlen <= |surface|
      requires tokens == []
      modifies this
      ensures Kept() && endNodes == old(endNodes)
      ensures nodes == old(nodes) + L.Words(engine, surface, L.Read(engine, surface, cinfo, mlen), pos, slen, true)
      ensures tokens == Newest(|old(nodes)|, |nodes|) + []
    {
      var runs := D.CommonPrefixSearch(engine.sysdic, surface);
      D.LookupRunsInRange(engine.sysdic, surface);
      AddNors(runs, pos, slen);
      ghost var nor := L.DictionaryWords(engine, surface, pos, slen);
      assert tokens != [] <==> nor != [];
      if tokens != [] && !cinfo.invoke {
        AppendNil(nodes);
        return;
      }
      ghost var mid := nodes;
      AddUnknown(surface, cinfo, mlen, pos, slen);
      Assoc(old(nodes), nor, L.UnknownWords(engine, L.Read(engine, surface, cinfo, mlen), pos, slen, true));
      NewestAppend(|old(nodes)|, |mid|, |nodes|, []);
    }

    // -------------------------------------------------------------------
    // setSentence

    /** Installs loaded resources, leaving the rest of the state alone. */
    method SetEngine(e: L.Engine)
      modifies this
      ensures engine == e && writer == old(writer) && sentence == old(sentence)
      ensures nodes == old(nodes) && endNodes == old(endNodes) && tokens == old(tokens)
    {
      engine := e;
    }

    /** `open`: loads the two dictionaries, the classifier, one entry run per
        category and the matrix, stopping at the first file that does not
        pass, then opens the writer. The file contents are parameters. */
    method Open(param: P.Param, f: L.Files, version: nat) returns (ok: bool)
      modifies this, writer
      ensures ok <==> L.LoadedEngine(f, version).Success? && W.SelectFormats(param.conf).Some?
      ensures L.LoadedEngine(f, version).Success? ==> engine == L.LoadedEngine(f, version).value
      ensures L.LoadedEngine(f, version).Failure? ==> engine == old(engine)
      ensures ok ==> writer.Current() == W.SelectFormats(param.conf).value
      ensures sentence == old(sentence) && nodes == old(nodes) && endNodes == old(endNodes) && tokens == old(tokens)
    {
      var loaded := L.Load(f, version);
      if loaded.Failure? {
        return false;
      }
      SetEngine(loaded.value);
      ok := writer.Open(param);
    }

    /** `setSentence`: the writer gets the sentence, the arena only a BOS
        node, alone in the first of |s| + 1 buckets. */
    method SetSentence(s: seq<byte>)
      modifies this, writer
      ensures engine == old(engine) && writer == old(writer) && tokens == old(tokens)
      ensures sentence == s && writer.sentence == s && writer.Current() == old(writer.Current())
      ensures State() == V.Fresh(s)
    {
      sentence := s;
      writer.SetSentence(s);
      nodes := [];
      var bos := NewNode(L.NewBos());
      endNodes := [[bos]] + seq(|s|, _ => []);
    }

    // -------------------------------------------------------------------
    // connect and viterbi

    /** `addEndNode`: node `r` joins the front of bucket `q`. */
    method AddEndNode(q: nat, r: nat)
      requires q < |endNodes|
      modifies this
      ensures Kept() && nodes == old(nodes) && tokens == old(tokens)
      ensures endNodes == old(endNodes)[q := [r] + old(endNodes)[q]]
    {
      endNodes := endNodes[q := [r] + endNodes[q]];
    }

    /** `connect`: node `r` takes the cheapest way in through the bucket at
        `pos`, the first one met on a tie, and joins the bucket where it
        ends. */
    method Connect(pos: nat, r: nat)
      requires L.Ready(engine) && pos < |endNodes| && r < |nodes| && nodes[r].lcAttr < engine.rSize
      requires forall k :: 0 <= k < |endNodes[pos]| ==> endNodes[pos][k] < |nodes| && nodes[endNodes[pos][k]].rcAttr < engine.lSize
      requires pos + nodes[r].rlength < |endNodes|
      modifies this
      ensures Kept() && tokens == old(tokens)
      ensures State() == V.Connect(engine, old(State()), pos, r)
    {
      var rNode := nodes[r];
      var bestCost, bestNode := BestWayIn(engine, nodes, endNodes[pos], rNode);
      nodes := nodes[r := rNode.(prev := bestNode, next := None, cost := bestCost)];
      AddEndNode(pos + rNode.rlength, r);
    }

    /** Connects every node of `tokens`, newest first, at `pos`: the nodes
        from `lo` on, which `tokenize` has just made. */
    method ConnectTokens(pos: nat, ghost lo: nat)
      requires L.Ready(engine) && |sentence| < L.U16
      requires V.Arena(engine, sentence, State()) && V.Tree(State())
      requires V.Pending(sentence, State(), pos, lo, |nodes|) && endNodes[pos] != []
      requires tokens == Newest(lo, |nodes|)
      modifies this
      ensures Kept() && tokens == old(tokens)
      ensures State() == V.ConnectAll(engine, sentence, old(State()), pos, lo, |old(nodes)|)
    {
      ghost var hi := |nodes|;
      ghost var top := hi;
      for k := 0 to |tokens|
        invariant Kept() && tokens == old(tokens) && top == hi - k && |nodes| == hi
        invariant V.Arena(engine, sentence, State()) && V.Tree(State())
        invariant V.Pending(sentence, State(), pos, lo, top) && endNodes[pos] != []
        invariant V.ConnectAll(engine, sentence, State(), pos, lo, top) == V.ConnectAll(engine, sentence, old(State()), pos, lo, hi)
      {
        NewestAt(lo, hi, k);
        var r := tokens[k];
        assert r + 1 == top;
        ConnectNewest(pos, r, lo);
        top := r;
      }
    }

    /** Connects node `r`, the newest of the pending nodes from `lo` on,
        at `pos`. */
    method ConnectNewest(pos: nat, r: nat, ghost lo: nat)
      requires L.Ready(engine) && |sentence| < L.U16 && lo <= r
      requires V.Arena(engine, sentence, State()) && V.Tree(State())
      requires V.Pending(sentence, State(), pos, lo, r + 1) && endNodes[pos] != []
      modifies this
      ensures Kept() && tokens == old(tokens) && |nodes| == |old(nodes)|
      ensures V.Arena(engine, sentence, State()) && V.Tree(State())
      ensures V.Pending(sentence, State(), pos, lo, r) && endNodes[pos] != []
      ensures V.ConnectAll(engine, sentence, State(), pos, lo, r) == V.ConnectAll(engine, sentence, old(State()), pos, lo, r + 1)
    {
      V.ConnectStep(engine, sentence, State(), pos, lo, r);
      Connect(pos, r);
    }

    /** One round of the forward pass of `viterbi`: when some node ends at
        `pos`, the candidates that start there, each connected at `pos`. */
    method ForwardStep(pos: nat)
      requires L.Ready(engine) && pos < |sentence| < L.U16
      requires V.Arena(engine, sentence, State()) && V.Tree(State())
      modifies this
      ensures Kept() && State() == V.Step(engine, sentence, old(State()), pos, true)
    {
      if endNodes[pos] == [] {
        return;
      }
      Tokenize(pos);
      V.AddCandidates(engine, sentence, old(State()), pos, true);
      assert State() == V.Extended(engine, sentence, old(State()), pos, true);
      ConnectTokens(pos, |old(nodes)|);
    }

    /** The EOS node of `viterbi`, connected at the highest offset where
        some node ends. */
    method ConnectEos() returns (eos: nat)
      requires L.Ready(engine) && V.Arena(engine, sentence, State())
      modifies this
      ensures Kept() && eos == |old(nodes)|
      ensures State() == V.Eos(engine, sentence, old(State()))
    {
      ghost var l := State();
      V.LastFilledHighest(endNodes, |sentence|);
      V.EosFits(engine, sentence, l);
      eos := NewNode(L.NewEos());
      var pos: nat := |sentence| + 1;
      while pos > 0
        invariant Kept() && pos <= |sentence| + 1 == |endNodes| && State() == V.Lat(l.nodes + [L.NewEos()], l.endNodes)
        invariant forall u :: pos <= u < |endNodes| ==> endNodes[u] == []
      {
        pos := pos - 1;
        if endNodes[pos] == [] {
          continue;
        }
        assert V.LastFilled(l.endNodes, |sentence|) == Some(pos);
        Connect(pos, eos);
        return;
      }
    }

    /** The back-link walk of `viterbi`: from node `i` back along `prev`,
        each node's predecessor gets `next` pointing at it. */
    method LinkBack(i: nat)
      requires i < |nodes| && V.Backward(nodes)
      modifies this
      ensures Kept() && tokens == old(tokens)
      ensures State() == V.Lat(V.Backlink(old(nodes), i), old(endNodes))
    {
      var node: nat := i;
      while nodes[node].prev.Some?
        invariant Kept() && tokens == old(tokens) && endNodes == old(endNodes)
        invariant node < |nodes| && V.Backward(nodes)
        invariant V.Backlink(nodes, node) == V.Backlink(old(nodes), i)
        decreases node
      {
        var p := nodes[node].prev.value;
        nodes := nodes[p := nodes[p].(next := Some(node))];
        node := p;
      }
    }

    /** `viterbi`: the forward pass, the EOS node, and the back-link walk
        from it. */
    method Viterbi()
      requires L.Ready(engine) && |sentence| < L.U16
      requires V.Arena(engine, sentence, State()) && V.Tree(State())
      modifies this
      ensures Kept()
      ensures State() == V.Search(engine, sentence, old(State()), true)
    {
      ForwardPass();
      ghost var f := State();
      var eos := ConnectEos();
      V.EosKeeps(engine, sentence, f);
      LinkBack(eos);
    }

    /** The forward pass of `viterbi`: each offset in turn, from the
        first. */
    method ForwardPass()
      requires L.Ready(engine) && |sentence| < L.U16
      requires V.Arena(engine, sentence, State()) && V.Tree(State())
      modifies this
      ensures Kept()
      ensures State() == V.Forward(engine, sentence, old(State()), 0, true)
    {
      for pos := 0 to |sentence|
        invariant Kept() && V.Arena(engine, sentence, State()) && V.Tree(State())
        invariant V.Forward(engine, sentence, State(), pos, true) == V.Forward(engine, sentence, old(State()), 0, true)
      {
        ForwardStep(pos);
      }
    }

    // -------------------------------------------------------------------
    // stringify

    /** `stringify`: nothing before any sentence is set; otherwise the text
        the writer gives for each node met following `next` from the BOS
        node, or the first failure. */
    method Stringify() returns (r: Result<string, W.WriteError>)
      requires V.Placed(sentence, nodes) && V.Onward(nodes) && (endNodes != [] ==> |nodes| > 0)
      requires writer.sentence == sentence
      ensures r == V.Stringify(writer.Current(), sentence, State())
    {
      if endNodes == [] {
        return Success("");
      }
      ghost var f := writer.Current();
      var out := "";
      var node: Option<nat> := Some(0);
      W.PrependEmpty(Rest(node));
      while node.Some?
        invariant node.Some? ==> node.value < |nodes|
        invariant V.Written(f, sentence, nodes, V.Walk(nodes, 0)) == W.Prepend(out, Rest(node))
        decreases if node.Some? then |nodes| - node.value else 0
      {
        var i := node.value;
        WrittenFrom(f, sentence, nodes, i);
        var t := writer.WriteNode(nodes[i]);
        if t.Failure? {
          return Failure(t.error);
        }
        PrependJoin(out, t.value, Rest(nodes[i].next));
        out := out + t.value;
        node := nodes[i].next;
      }
      AppendNil(out);
      return Success(out);
    }

    /** What is still to be written from `node` on. */
    ghost function Rest(node: Option<nat>): Result<string, W.WriteError>
      reads this, writer
      requires V.Placed(sentence, nodes) && V.Onward(nodes)
      requires node.Some? ==> node.value < |nodes|
    {
      if node.None? then Success("") else V.Written(writer.Current(), sentence, nodes, V.Walk(nodes, node.value))
    }
  }
}
