/** The best-path search over the lattice: `connect`, the forward pass of
    `viterbi`, the end-of-sentence node, the back-link walk, and the walk
    `stringify` makes over the result. The state is the node arena and the
    buckets; every link and bucket entry is an index into the arena. */
module Viterbi {
  import opened Common
  import opened Mecab
  import opened Lattice
  import W = Writer

  /** The lattice: the node arena, in creation order, and one bucket per
      byte offset of the sentence (and one past its end) listing the nodes
      that end there, most recently added first. */
  datatype Lat = Lat(nodes: seq<Node>, endNodes: seq<seq<nat>>)

  /** What `setSentence` leaves: a fresh BOS node, alone in the first of
      |s| + 1 buckets. */
  function Fresh(s: seq<byte>): Lat {
    Lat([NewBos()], [[0]] + seq(|s|, _ => []))
  }

  // ---------------------------------------------------------------------
  // What keeps the lattice usable

  /** Every bucket entry is a node of the arena. */
  predicate Indexed(l: Lat) {
    forall q, k :: 0 <= q < |l.endNodes| && 0 <= k < |l.endNodes[q]| ==> l.endNodes[q][k] < |l.nodes|
  }

  /** Every node's connection ids address the matrix, and its word cost
      is an int16. */
  predicate InMatrix(e: Engine, nodes: seq<Node>) {
    forall i :: 0 <= i < |nodes| ==>
      nodes[i].rcAttr < e.lSize && nodes[i].lcAttr < e.rSize && -0x8000 <= nodes[i].wcost < 0x8000
  }

  /** Every node's surface lies inside the sentence (or the boundary key). */
  predicate Placed(s: seq<byte>, nodes: seq<Node>) {
    forall i :: 0 <= i < |nodes| ==> W.WellPlaced(s, nodes[i])
  }

  /** `prev` links point to older nodes. */
  predicate Backward(nodes: seq<Node>) {
    forall i :: 0 <= i < |nodes| && nodes[i].prev.Some? ==> nodes[i].prev.value < i
  }

  /** No node has a `next` link: only the back-link walk sets them. */
  predicate Unlinked(nodes: seq<Node>) {
    forall i :: 0 <= i < |nodes| ==> nodes[i].next.None?
  }

  /** `next` links point to newer nodes of the arena. */
  predicate Onward(nodes: seq<Node>) {
    forall i :: 0 <= i < |nodes| && nodes[i].next.Some? ==> i < nodes[i].next.value < |nodes|
  }

  /** The lattice of sentence `s` is usable by the search. */
  predicate Arena(e: Engine, s: seq<byte>, l: Lat) {
    && |l.endNodes| == |s| + 1
    && Indexed(l) && InMatrix(e, l.nodes) && Placed(s, l.nodes)
    && Backward(l.nodes) && Unlinked(l.nodes)
  }

  /** Every way in comes from the BOS node (node 0) or from a node that
      has a way in itself. */
  predicate Rooted(nodes: seq<Node>) {
    forall i :: 0 <= i < |nodes| && nodes[i].prev.Some? ==>
      nodes[i].prev.value == 0 || (nodes[i].prev.value < |nodes| && nodes[nodes[i].prev.value].prev.Some?)
  }

  /** What the forward pass keeps about the paths: the BOS node is alone in
      the first bucket; every other node in a bucket has a way in; and a
      node in bucket `q` has a path cost of at most `q` times 0x10000 in
      absolute value. */
  predicate Tree(l: Lat) {
    && |l.nodes| > 0 && l.nodes[0].stat == BosNode
    && |l.endNodes| > 0 && l.endNodes[0] == [0]
    && Rooted(l.nodes)
    && forall q, k :: 0 <= q < |l.endNodes| && 0 <= k < |l.endNodes[q]| && l.endNodes[q][k] < |l.nodes| ==>
         && (l.endNodes[q][k] == 0 || l.nodes[l.endNodes[q][k]].prev.Some?)
         && -0x10000 * q <= l.nodes[l.endNodes[q][k]].cost <= 0x10000 * q
  }

  /** Node `r` is in no bucket yet. */
  predicate Unplaced(l: Lat, r: nat) {
    forall q, k :: 0 <= q < |l.endNodes| && 0 <= k < |l.endNodes[q]| ==> l.endNodes[q][k] != r
  }

  /** `setSentence`'s lattice is usable, and its BOS node is alone in the
      first bucket with every other bucket empty. */
  lemma FreshLattice(e: Engine, s: seq<byte>)
    requires Ready(e)
    ensures Arena(e, s, Fresh(s)) && Tree(Fresh(s))
    ensures |Fresh(s).endNodes| == |s| + 1 && Fresh(s).endNodes[0] == [0]
    ensures Fresh(s).nodes == [NewBos()] && Fresh(s).nodes[0].stat == BosNode
    ensures forall q :: 1 <= q <= |s| ==> Fresh(s).endNodes[q] == []
  {
    BoundaryIdsInMatrix(e);
  }

  // ---------------------------------------------------------------------
  // connect

  /** The connection cost from a node with right id `rc` to one with left
      id `lc`. */
  function Cell(e: Engine, rc: nat, lc: nat): int
    requires Ready(e) && rc < e.lSize && lc < e.rSize
  {
    CellInMatrix(e.matrix, rc, lc);
    e.matrix[2 + rc + e.lSize * lc]
  }

  /** The cost of reaching `r` through its left neighbour `l`. */
  function PathCost(e: Engine, l: Node, r: Node): int
    requires Ready(e) && l.rcAttr < e.lSize && r.lcAttr < e.rSize
  {
    l.cost + Cell(e, l.rcAttr, r.lcAttr) + r.wcost
  }

  /** The cost of reaching `r` through each entry of `bucket`, in order. */
  function Costs(e: Engine, nodes: seq<Node>, bucket: seq<nat>, r: Node): (c: seq<int>)
    requires Ready(e) && r.lcAttr < e.rSize
    requires forall k :: 0 <= k < |bucket| ==> bucket[k] < |nodes| && nodes[bucket[k]].rcAttr < e.lSize
    ensures |c| == |bucket|
  {
    seq(|bucket|, k requires 0 <= k < |bucket| => PathCost(e, nodes[bucket[k]], r))
  }

  /** The scan `connect` makes over `costs` from position `k` on, holding
      the best cost so far and where it was found: a later position wins
      only with a strictly lower cost. */
  function FirstMinFrom(costs: seq<int>, k: nat, best: int, at: Option<nat>): (r: (int, Option<nat>))
    requires k <= |costs| && (at.Some? ==> at.value < k)
    ensures r.1.Some? ==> r.1.value < |costs|
    decreases |costs| - k
  {
    if k == |costs| then (best, at)
    else if best > costs[k] then FirstMinFrom(costs, k + 1, costs[k], Some(k))
    else FirstMinFrom(costs, k + 1, best, at)
  }

  /** The scan from its start, with the largest int64 as the best cost. */
  function FirstMin(costs: seq<int>): (r: (int, Option<nat>))
    ensures r.1.Some? ==> r.1.value < |costs|
  {
    FirstMinFrom(costs, 0, INT64_MAX, None)
  }

  /** What a scan has established about `costs[..k]`: `best` is no more
      than any cost seen, and is the cost at `at`, the first position
      holding it; with no position, `best` is still the start value. */
  predicate ScanSoFar(costs: seq<int>, k: nat, best: int, at: Option<nat>)
    requires k <= |costs|
  {
    && (forall j :: 0 <= j < k ==> best <= costs[j])
    && match at
       case None => best == INT64_MAX
       case Some(a) => a < k && best == costs[a] && best < INT64_MAX && forall j :: 0 <= j < a ==> best < costs[j]
  }

  lemma {:induction false} FirstMinFromScan(costs: seq<int>, k: nat, best: int, at: Option<nat>)
    requires k <= |costs| && (at.Some? ==> at.value < k) && ScanSoFar(costs, k, best, at)
    ensures ScanSoFar(costs, |costs|, FirstMinFrom(costs, k, best, at).0, FirstMinFrom(costs, k, best, at).1)
    decreases |costs| - k
  {
    if k < |costs| {
      if best > costs[k] {
        FirstMinFromScan(costs, k + 1, costs[k], Some(k));
      } else {
        FirstMinFromScan(costs, k + 1, best, at);
      }
    }
  }

  /** `connect`'s choice: the least cost, at the first position holding
      it; no position exactly when no cost is below the largest int64. */
  lemma FirstMinimum(costs: seq<int>)
    ensures forall j :: 0 <= j < |costs| ==> FirstMin(costs).0 <= costs[j]
    ensures FirstMin(costs).1.None? <==> forall j :: 0 <= j < |costs| ==> INT64_MAX <= costs[j]
    ensures FirstMin(costs).1.None? ==> FirstMin(costs).0 == INT64_MAX
    ensures FirstMin(costs).1.Some? ==> FirstMin(costs).0 == costs[FirstMin(costs).1.value]
    ensures FirstMin(costs).1.Some? ==> forall j :: 0 <= j < FirstMin(costs).1.value ==> FirstMin(costs).0 < costs[j]
  {
    FirstMinFromScan(costs, 0, INT64_MAX, None);
  }

  /** Node `r` with its new way in (`prev` and `cost`) and no `next`
      link, added to the front of bucket `q`. */
  function Relink(l: Lat, r: nat, prev: Option<nat>, cost: int, q: nat): Lat
    requires r < |l.nodes| && q < |l.endNodes|
  {
    Lat(l.nodes[r := l.nodes[r].(prev := prev, next := None, cost := cost)], l.endNodes[q := [r] + l.endNodes[q]])
  }

  /** Relinking a node to an older one keeps the lattice usable and
      changes nothing but that node and the bucket it joins. */
  lemma RelinkKeeps(e: Engine, s: seq<byte>, l: Lat, r: nat, prev: Option<nat>, cost: int, q: nat)
    requires Arena(e, s, l) && r < |l.nodes| && q < |l.endNodes| && (prev.Some? ==> prev.value < r)
    ensures var l' := Relink(l, r, prev, cost, q);
      && Arena(e, s, l') && |l'.nodes| == |l.nodes| && |l'.endNodes| == |l.endNodes|
      && (forall k :: 0 <= k < |l.nodes| && k != r ==> l'.nodes[k] == l.nodes[k])
      && (forall u :: 0 <= u < |l.endNodes| && u != q ==> l'.endNodes[u] == l.endNodes[u])
  {
    var l' := Relink(l, r, prev, cost, q);
    forall u, k | 0 <= u < |l'.endNodes| && 0 <= k < |l'.endNodes[u]|
      ensures l'.endNodes[u][k] < |l'.nodes|
    {
      if u == q && k > 0 {
        assert l'.endNodes[u][k] == l.endNodes[q][k - 1];
      }
    }
  }

  /** `connect`: node `r` takes the cheapest way in through the bucket at
      `pos` (the first one met on a tie), drops its `next` link, and joins
      the front of the bucket where it ends. */
  function Connect(e: Engine, l: Lat, pos: nat, r: nat): Lat
    requires Ready(e) && pos < |l.endNodes| && r < |l.nodes| && l.nodes[r].lcAttr < e.rSize
    requires forall k :: 0 <= k < |l.endNodes[pos]| ==> l.endNodes[pos][k] < |l.nodes| && l.nodes[l.endNodes[pos][k]].rcAttr < e.lSize
    requires pos + l.nodes[r].rlength < |l.endNodes|
  {
    var bucket := l.endNodes[pos];
    var best := FirstMin(Costs(e, l.nodes, bucket, l.nodes[r]));
    Relink(l, r, if best.1.Some? then Some(bucket[best.1.value]) else None, best.0, pos + l.nodes[r].rlength)
  }

  /** Connecting a node whose way in comes from older nodes keeps the
      lattice usable and changes nothing but that node and the bucket it
      joins. */
  lemma ConnectKeeps(e: Engine, s: seq<byte>, l: Lat, pos: nat, r: nat)
    requires Ready(e) && Arena(e, s, l) && pos < |l.endNodes| && r < |l.nodes|
    requires forall k :: 0 <= k < |l.endNodes[pos]| ==> l.endNodes[pos][k] < r
    requires pos + l.nodes[r].rlength < |l.endNodes|
    ensures var l' := Connect(e, l, pos, r);
      && Arena(e, s, l') && |l'.nodes| == |l.nodes| && |l'.endNodes| == |l.endNodes|
      && (forall k :: 0 <= k < |l.nodes| && k != r ==> l'.nodes[k] == l.nodes[k])
      && (forall q :: 0 <= q < |l.endNodes| && q != pos + l.nodes[r].rlength ==> l'.endNodes[q] == l.endNodes[q])
  {
    var bucket := l.endNodes[pos];
    var best := FirstMin(Costs(e, l.nodes, bucket, l.nodes[r]));
    RelinkKeeps(e, s, l, r, if best.1.Some? then Some(bucket[best.1.value]) else None, best.0, pos + l.nodes[r].rlength);
  }

  /** Giving node `r` a way in from node `p` (BOS, or a node with a way
      in) keeps every way in rooted. */
  lemma RelinkRooted(nodes: seq<Node>, r: nat, p: nat, cost: int)
    requires Rooted(nodes) && p < r < |nodes| && (p == 0 || nodes[p].prev.Some?)
    ensures Rooted(nodes[r := nodes[r].(prev := Some(p), next := None, cost := cost)])
  {
  }

  /** Connecting a node that is in no bucket to a node of the lattice
      keeps the forward pass's facts, provided the cost fits the bucket it
      joins. */
  lemma RelinkTree(l: Lat, r: nat, p: nat, cost: int, q: nat)
    requires Tree(l) && Indexed(l) && p < r < |l.nodes| && 1 <= q < |l.endNodes| && Unplaced(l, r)
    requires p == 0 || l.nodes[p].prev.Some?
    requires -0x10000 * q <= cost <= 0x10000 * q
    ensures Tree(Relink(l, r, Some(p), cost, q))
  {
    RelinkRooted(l.nodes, r, p, cost);
    var l' := Relink(l, r, Some(p), cost, q);
    forall u, k | 0 <= u < |l'.endNodes| && 0 <= k < |l'.endNodes[u]| && l'.endNodes[u][k] < |l'.nodes|
      ensures l'.endNodes[u][k] == 0 || l'.nodes[l'.endNodes[u][k]].prev.Some?
      ensures -0x10000 * u <= l'.nodes[l'.endNodes[u][k]].cost <= 0x10000 * u
    {
      if u == q && k == 0 {
        assert l'.endNodes[u][k] == r;
      } else {
        var j := if u == q then k - 1 else k;
        assert l'.endNodes[u][k] == l.endNodes[u][j] != r;
      }
    }
  }

  /** A way in from a node of cost at most `pos` times 0x10000 in absolute
      value costs at most `pos + 1` times 0x10000. */
  lemma CostBound(e: Engine, n: Node, m: Node, pos: nat)
    requires Ready(e) && n.rcAttr < e.lSize && m.lcAttr < e.rSize && -0x8000 <= m.wcost < 0x8000
    requires -0x10000 * pos <= n.cost <= 0x10000 * pos
    ensures -0x10000 * (pos + 1) <= PathCost(e, n, m) <= 0x10000 * (pos + 1)
  {
    CellInMatrix(e.matrix, n.rcAttr, m.lcAttr);
    assert -0x8000 <= e.matrix[2 + n.rcAttr + e.lSize * m.lcAttr] < 0x8000;
  }

  /** The way in through entry `k` of the bucket at `pos`. */
  lemma BucketCost(e: Engine, s: seq<byte>, l: Lat, pos: nat, r: nat, k: nat)
    requires Ready(e) && Arena(e, s, l) && Tree(l) && pos < |l.endNodes| && r < |l.nodes|
    requires k < |l.endNodes[pos]|
    ensures -0x10000 * (pos + 1) <= Costs(e, l.nodes, l.endNodes[pos], l.nodes[r])[k] <= 0x10000 * (pos + 1)
  {
    CostBound(e, l.nodes[l.endNodes[pos][k]], l.nodes[r], pos);
  }

  /** `connect` at a bucket that is not empty, for a node in no bucket
      that ends after `pos`, keeps the forward pass's facts. */
  lemma ConnectGrows(e: Engine, s: seq<byte>, l: Lat, pos: nat, r: nat)
    requires Ready(e) && Arena(e, s, l) && Tree(l) && pos < |s| < U16 && l.endNodes[pos] != []
    requires r < |l.nodes| && (forall k :: 0 <= k < |l.endNodes[pos]| ==> l.endNodes[pos][k] < r)
    requires 1 <= l.nodes[r].rlength && pos + l.nodes[r].rlength <= |s| && Unplaced(l, r)
    ensures Tree(Connect(e, l, pos, r))
  {
    var bucket := l.endNodes[pos];
    var costs := Costs(e, l.nodes, bucket, l.nodes[r]);
    FirstMinimum(costs);
    BucketCost(e, s, l, pos, r, 0);
    var best := FirstMin(costs);
    var a := best.1.value;
    BucketCost(e, s, l, pos, r, a);
    RelinkTree(l, r, bucket[a], best.0, pos + l.nodes[r].rlength);
  }

  // ---------------------------------------------------------------------
  // The forward pass

  /** The nodes `hi - 1` down to `lo`, all ending after `pos`, are each
      connected at `pos`: the order in which `tokens_` lists them. */
  predicate Pending(s: seq<byte>, l: Lat, pos: nat, lo: nat, hi: nat) {
    && lo <= hi <= |l.nodes| && pos < |s| && pos < |l.endNodes|
    && (forall k :: 0 <= k < |l.endNodes[pos]| ==> l.endNodes[pos][k] < lo)
    && (forall k :: lo <= k < hi ==> 1 <= l.nodes[k].rlength && pos + l.nodes[k].rlength <= |s|)
    && (forall q, k :: 0 <= q < |l.endNodes| && 0 <= k < |l.endNodes[q]| ==> l.endNodes[q][k] < lo || hi <= l.endNodes[q][k])
  }

  function ConnectAll(e: Engine, s: seq<byte>, l: Lat, pos: nat, lo: nat, hi: nat): (r: Lat)
    requires Ready(e) && Arena(e, s, l) && Tree(l) && Pending(s, l, pos, lo, hi) && l.endNodes[pos] != [] && |s| < U16
    ensures Arena(e, s, r) && Tree(r) && |r.nodes| == |l.nodes| && r.endNodes[pos] == l.endNodes[pos]
    decreases hi - lo
  {
    if hi == lo then l
    else
      var r := hi - 1;
      ConnectOne(e, s, l, pos, lo, r);
      ConnectAll(e, s, Connect(e, l, pos, r), pos, lo, r)
  }

  /** Connecting the newest pending node `r` first and then the rest is
      connecting them all, and keeps the facts the rest needs. */
  lemma ConnectStep(e: Engine, s: seq<byte>, l: Lat, pos: nat, lo: nat, r: nat)
    requires Ready(e) && Arena(e, s, l) && Tree(l) && Pending(s, l, pos, lo, r + 1) && l.endNodes[pos] != [] && |s| < U16
    requires lo <= r
    ensures var l' := Connect(e, l, pos, r);
      && Arena(e, s, l') && Tree(l') && Pending(s, l', pos, lo, r) && l'.endNodes[pos] == l.endNodes[pos]
      && ConnectAll(e, s, l', pos, lo, r) == ConnectAll(e, s, l, pos, lo, r + 1)
  {
    ConnectOne(e, s, l, pos, lo, r);
  }

  /** Connecting the newest pending node `r` keeps the lattice usable,
      keeps the forward pass's facts and leaves the older nodes pending. */
  lemma ConnectOne(e: Engine, s: seq<byte>, l: Lat, pos: nat, lo: nat, r: nat)
    requires Ready(e) && Arena(e, s, l) && Tree(l) && Pending(s, l, pos, lo, r + 1) && l.endNodes[pos] != [] && |s| < U16
    requires lo <= r
    ensures var l' := Connect(e, l, pos, r);
      && Arena(e, s, l') && Tree(l') && Pending(s, l', pos, lo, r)
      && |l'.nodes| == |l.nodes| && l'.endNodes[pos] == l.endNodes[pos]
  {
    PendingUnplaced(s, l, pos, lo, r);
    ConnectKeeps(e, s, l, pos, r);
    ConnectGrows(e, s, l, pos, r);
    ConnectPending(e, s, l, pos, lo, r);
  }

  /** Connecting the newest pending node leaves the others pending. */
  lemma ConnectPending(e: Engine, s: seq<byte>, l: Lat, pos: nat, lo: nat, r: nat)
    requires Ready(e) && Arena(e, s, l) && Pending(s, l, pos, lo, r + 1) && lo <= r
    ensures Pending(s, Connect(e, l, pos, r), pos, lo, r)
    ensures Connect(e, l, pos, r).endNodes[pos] == l.endNodes[pos]
  {
    var bucket := l.endNodes[pos];
    var best := FirstMin(Costs(e, l.nodes, bucket, l.nodes[r]));
    var prev := if best.1.Some? then Some(bucket[best.1.value]) else None;
    RelinkPending(s, l, pos, lo, r, prev, best.0);
  }

  /** The newest pending node is in no bucket and ends inside the
      sentence, after every node of the bucket at `pos`. */
  lemma PendingUnplaced(s: seq<byte>, l: Lat, pos: nat, lo: nat, r: nat)
    requires Pending(s, l, pos, lo, r + 1) && lo <= r
    ensures Unplaced(l, r) && pos < |s| && r < |l.nodes|
    ensures 1 <= l.nodes[r].rlength && pos + l.nodes[r].rlength <= |s|
    ensures forall k :: 0 <= k < |l.endNodes[pos]| ==> l.endNodes[pos][k] < r
  {
  }

  /** Relinking the newest pending node into the bucket where it ends
      leaves the others pending. */
  lemma RelinkPending(s: seq<byte>, l: Lat, pos: nat, lo: nat, r: nat, prev: Option<nat>, cost: int)
    requires Pending(s, l, pos, lo, r + 1) && lo <= r && Indexed(l) && |l.endNodes| == |s| + 1
    ensures Pending(s, Relink(l, r, prev, cost, pos + l.nodes[r].rlength), pos, lo, r)
  {
    var q := pos + l.nodes[r].rlength;
    var l' := Relink(l, r, prev, cost, q);
    forall u, k | 0 <= u < |l'.endNodes| && 0 <= k < |l'.endNodes[u]|
      ensures l'.endNodes[u][k] < lo || r <= l'.endNodes[u][k]
    {
      if u == q && k > 0 {
        assert l'.endNodes[u][k] == l.endNodes[q][k - 1];
      }
    }
  }

  /** The lattice with the candidates of offset `pos` appended to the
      arena. */
  function Extended(e: Engine, s: seq<byte>, l: Lat, pos: nat, inclusive: bool): Lat
    requires Ready(e) && pos < |s|
  {
    Lat(l.nodes + Candidates(e, s[pos..], pos, inclusive), l.endNodes)
  }

  /** A candidate made at `pos` fits the matrix and the sentence, is
      unlinked, and ends after `pos` inside the sentence. */
  lemma CandidateFits(e: Engine, s: seq<byte>, n: Node, pos: nat, slen: nat)
    requires pos < |s| < U16 && CandidateAt(e, n, pos, slen, |s| - pos)
    ensures n.rcAttr < e.lSize && n.lcAttr < e.rSize && -0x8000 <= n.wcost < 0x8000 && W.WellPlaced(s, n)
    ensures n.prev.None? && n.next.None? && 1 <= n.rlength && pos + n.rlength <= |s|
  {
  }

  /** Nodes without a way in, appended to the arena, keep the forward
      pass's facts. */
  lemma AppendTree(l: Lat, c: seq<Node>)
    requires Tree(l) && Indexed(l) && Backward(l.nodes) && forall k :: 0 <= k < |c| ==> c[k].prev.None?
    ensures Tree(Lat(l.nodes + c, l.endNodes))
  {
    var nodes := l.nodes + c;
    assert forall k :: 0 <= k < |l.nodes| ==> nodes[k] == l.nodes[k];
    assert forall k :: |l.nodes| <= k < |nodes| ==> nodes[k] == c[k - |l.nodes|];
  }

  /** Candidates made at `pos`, appended to the arena, keep the lattice
      usable and are ready to be connected there. */
  lemma AppendCandidates(e: Engine, s: seq<byte>, l: Lat, c: seq<Node>, pos: nat, slen: nat)
    requires Arena(e, s, l) && Tree(l) && pos < |s| < U16 && AllAt(e, c, pos, slen, |s| - pos)
    ensures Arena(e, s, Lat(l.nodes + c, l.endNodes)) && Tree(Lat(l.nodes + c, l.endNodes))
    ensures Pending(s, Lat(l.nodes + c, l.endNodes), pos, |l.nodes|, |l.nodes| + |c|)
  {
    var nodes := l.nodes + c;
    forall k | |l.nodes| <= k < |nodes|
      ensures nodes[k].rcAttr < e.lSize && nodes[k].lcAttr < e.rSize && -0x8000 <= nodes[k].wcost < 0x8000
      ensures W.WellPlaced(s, nodes[k])
      ensures nodes[k].prev.None? && nodes[k].next.None? && 1 <= nodes[k].rlength && pos + nodes[k].rlength <= |s|
    {
      assert nodes[k] == c[k - |l.nodes|];
      CandidateFits(e, s, c[k - |l.nodes|], pos, slen);
    }
    assert forall k :: 0 <= k < |l.nodes| ==> nodes[k] == l.nodes[k];
    forall k | 0 <= k < |c|
      ensures c[k].prev.None?
    {
      CandidateFits(e, s, c[k], pos, slen);
    }
    AppendTree(l, c);
  }

  /** The candidates of offset `pos`, appended to the arena, keep the
      lattice usable and are ready to be connected there. */
  lemma AddCandidates(e: Engine, s: seq<byte>, l: Lat, pos: nat, inclusive: bool)
    requires Ready(e) && Arena(e, s, l) && Tree(l) && pos < |s| < U16
    ensures Arena(e, s, Extended(e, s, l, pos, inclusive)) && Tree(Extended(e, s, l, pos, inclusive))
    ensures Pending(s, Extended(e, s, l, pos, inclusive), pos, |l.nodes|, |Extended(e, s, l, pos, inclusive).nodes|)
  {
    var sv := s[pos..];
    var sk := Skip(e, sv);
    CandidateSpans(e, sv, sk, pos, inclusive);
    AppendCandidates(e, s, l, Candidates(e, sv, pos, inclusive), pos, sk.blen);
  }

  /** One round of the forward pass: nothing when no node ends at `pos`,
      otherwise the candidates starting there, each connected at `pos`. */
  function Step(e: Engine, s: seq<byte>, l: Lat, pos: nat, inclusive: bool): (r: Lat)
    requires Ready(e) && Arena(e, s, l) && Tree(l) && pos < |s| < U16
    ensures Arena(e, s, r) && Tree(r)
  {
    if l.endNodes[pos] == [] then l
    else
      var l1 := Extended(e, s, l, pos, inclusive);
      AddCandidates(e, s, l, pos, inclusive);
      ConnectAll(e, s, l1, pos, |l.nodes|, |l1.nodes|)
  }

  /** The forward pass of `viterbi` from offset `pos` to the end. */
  function Forward(e: Engine, s: seq<byte>, l: Lat, pos: nat, inclusive: bool): (r: Lat)
    requires Ready(e) && Arena(e, s, l) && Tree(l) && pos <= |s| < U16
    ensures Arena(e, s, r) && Tree(r)
    decreases |s| - pos
  {
    if pos == |s| then l
    else Forward(e, s, Step(e, s, l, pos, inclusive), pos + 1, inclusive)
  }

  // ---------------------------------------------------------------------
  // Where the words lie

  /** The byte offset where a node's span of the sentence ends: after its
      surface, or 0 for the boundary nodes. */
  function SpanEnd(n: Node): int {
    match n.surface
    case BosKey => 0
    case At(o) => o + n.length
  }

  /** The byte offset where a node's span starts, the white space before
      its surface included. */
  function SpanStart(n: Node): int {
    SpanEnd(n) - n.rlength
  }

  /** Every node after BOS is a word; every node in bucket `q` ends at
      `q`; and every node with a way in starts where that way in ends. */
  predicate Tiled(l: Lat) {
    && (forall i :: 0 < i < |l.nodes| ==> l.nodes[i].stat == NorNode || l.nodes[i].stat == UnkNode)
    && (forall q, k :: 0 <= q < |l.endNodes| && 0 <= k < |l.endNodes[q]| && l.endNodes[q][k] < |l.nodes| ==>
          SpanEnd(l.nodes[l.endNodes[q][k]]) == q)
    && forall i :: 0 <= i < |l.nodes| ==> AfterWayIn(l.nodes, i)
  }

  /** Node `i` starts where its way in, if any, ends. */
  predicate AfterWayIn(nodes: seq<Node>, i: nat)
    requires i < |nodes|
  {
    nodes[i].prev.Some? && nodes[i].prev.value < |nodes| ==> SpanStart(nodes[i]) == SpanEnd(nodes[nodes[i].prev.value])
  }

  /** The nodes `lo` to `hi - 1` start at `pos`. */
  predicate StartAt(l: Lat, pos: nat, lo: nat, hi: nat) {
    forall k :: lo <= k < hi && k < |l.nodes| ==> SpanStart(l.nodes[k]) == pos
  }

  /** The lattice `setSentence` makes is tiled. */
  lemma FreshTiled(s: seq<byte>)
    ensures Tiled(Fresh(s))
  {
    var l := Fresh(s);
    forall q, k | 0 <= q < |l.endNodes| && 0 <= k < |l.endNodes[q]| && l.endNodes[q][k] < |l.nodes|
      ensures SpanEnd(l.nodes[l.endNodes[q][k]]) == q
    {
      assert q == 0;
    }
  }

  /** Putting a node into the bucket where it ends, with a way in from a
      node that ends where it starts, keeps the lattice tiled. */
  lemma RelinkTiled(l: Lat, r: nat, prev: Option<nat>, cost: int, q: nat)
    requires Tiled(l) && r < |l.nodes| && q < |l.endNodes| && SpanEnd(l.nodes[r]) == q
    requires prev.Some? ==> prev.value < |l.nodes| && SpanStart(l.nodes[r]) == SpanEnd(l.nodes[prev.value])
    ensures Tiled(Relink(l, r, prev, cost, q))
  {
    var l' := Relink(l, r, prev, cost, q);
    assert forall i :: 0 <= i < |l.nodes| ==> SpanEnd(l'.nodes[i]) == SpanEnd(l.nodes[i]) && l'.nodes[i].stat == l.nodes[i].stat;
    assert forall i :: 0 <= i < |l.nodes| ==> SpanStart(l'.nodes[i]) == SpanStart(l.nodes[i]);
    forall u, k | 0 <= u < |l'.endNodes| && 0 <= k < |l'.endNodes[u]| && l'.endNodes[u][k] < |l'.nodes|
      ensures SpanEnd(l'.nodes[l'.endNodes[u][k]]) == u
    {
      if u == q && k > 0 {
        assert l'.endNodes[u][k] == l.endNodes[q][k - 1];
      }
    }
    forall i | 0 <= i < |l'.nodes|
      ensures AfterWayIn(l'.nodes, i)
    {
      if i != r {
        assert AfterWayIn(l.nodes, i) && l'.nodes[i].prev == l.nodes[i].prev;
      }
    }
  }

  /** `connect` at `pos` of a node that starts there keeps the lattice
      tiled: its way in, if any, comes from the bucket at `pos`. */
  lemma ConnectTiled(e: Engine, s: seq<byte>, l: Lat, pos: nat, r: nat)
    requires Ready(e) && Arena(e, s, l) && Tiled(l) && pos < |l.endNodes| && r < |l.nodes|
    requires SpanStart(l.nodes[r]) == pos && pos + l.nodes[r].rlength < |l.endNodes|
    ensures Tiled(Connect(e, l, pos, r))
  {
    var bucket := l.endNodes[pos];
    var costs := Costs(e, l.nodes, bucket, l.nodes[r]);
    FirstMinimum(costs);
    var best := FirstMin(costs);
    if best.1.Some? {
      assert bucket[best.1.value] < |l.nodes|;
      assert SpanEnd(l.nodes[bucket[best.1.value]]) == pos;
    }
    RelinkTiled(l, r, if best.1.Some? then Some(bucket[best.1.value]) else None, best.0, pos + l.nodes[r].rlength);
  }

  /** Connecting the pending nodes, all starting at `pos`, keeps the
      lattice tiled. */
  lemma {:induction false} ConnectAllTiled(e: Engine, s: seq<byte>, l: Lat, pos: nat, lo: nat, hi: nat)
    requires Ready(e) && Arena(e, s, l) && Tree(l) && Pending(s, l, pos, lo, hi) && l.endNodes[pos] != [] && |s| < U16
    requires Tiled(l) && StartAt(l, pos, lo, hi)
    ensures Tiled(ConnectAll(e, s, l, pos, lo, hi))
    decreases hi - lo
  {
    if hi > lo {
      var r := hi - 1;
      var l' := Connect(e, l, pos, r);
      ConnectOneTiled(e, s, l, pos, lo, r, hi, l');
      ConnectAllTiled(e, s, l', pos, lo, r);
    }
  }

  /** Connecting the newest pending node keeps the lattice tiled and the
      older pending nodes starting at `pos`. */
  lemma ConnectOneTiled(e: Engine, s: seq<byte>, l: Lat, pos: nat, lo: nat, r: nat, hi: nat, l': Lat)
    requires Ready(e) && Arena(e, s, l) && Tree(l) && Pending(s, l, pos, lo, hi) && l.endNodes[pos] != [] && |s| < U16
    requires lo <= r && r + 1 == hi && Tiled(l) && StartAt(l, pos, lo, hi) && l' == Connect(e, l, pos, r)
    ensures Arena(e, s, l') && Tree(l') && Pending(s, l', pos, lo, r) && l'.endNodes[pos] != []
    ensures Tiled(l') && StartAt(l', pos, lo, r)
    ensures ConnectAll(e, s, l', pos, lo, r) == ConnectAll(e, s, l, pos, lo, hi)
  {
    ConnectStep(e, s, l, pos, lo, r);
    PendingUnplaced(s, l, pos, lo, r);
    ConnectKeeps(e, s, l, pos, r);
    ConnectTiled(e, s, l, pos, r);
  }

  /** Candidates made at `pos`, appended to the arena, keep it tiled and
      all start at `pos`. */
  lemma AppendTiled(e: Engine, s: seq<byte>, l: Lat, c: seq<Node>, pos: nat, slen: nat)
    requires Arena(e, s, l) && Tiled(l) && pos < |s| < U16 && AllAt(e, c, pos, slen, |s| - pos)
    ensures Tiled(Lat(l.nodes + c, l.endNodes))
    ensures StartAt(Lat(l.nodes + c, l.endNodes), pos, |l.nodes|, |l.nodes| + |c|)
  {
    var nodes := l.nodes + c;
    assert forall k :: 0 <= k < |l.nodes| ==> nodes[k] == l.nodes[k];
    forall k | 0 <= k < |l.nodes|
      ensures AfterWayIn(nodes, k)
    {
      assert AfterWayIn(l.nodes, k);
    }
    forall k | |l.nodes| <= k < |nodes|
      ensures SpanStart(nodes[k]) == pos && nodes[k].prev.None? && AfterWayIn(nodes, k)
      ensures nodes[k].stat == NorNode || nodes[k].stat == UnkNode
    {
      assert nodes[k] == c[k - |l.nodes|];
      assert CandidateAt(e, c[k - |l.nodes|], pos, slen, |s| - pos);
    }
  }

  /** One round of the forward pass keeps the lattice tiled. */
  lemma StepTiled(e: Engine, s: seq<byte>, l: Lat, pos: nat, inclusive: bool)
    requires Ready(e) && Arena(e, s, l) && Tree(l) && Tiled(l) && pos < |s| < U16
    ensures Tiled(Step(e, s, l, pos, inclusive))
  {
    if l.endNodes[pos] != [] {
      var l1 := Extended(e, s, l, pos, inclusive);
      ExtendedTiled(e, s, l, pos, inclusive);
      AddCandidates(e, s, l, pos, inclusive);
      ConnectAllTiled(e, s, l1, pos, |l.nodes|, |l1.nodes|);
    }
  }

  /** The candidates of offset `pos`, appended to the arena, keep it tiled
      and all start at `pos`. */
  lemma ExtendedTiled(e: Engine, s: seq<byte>, l: Lat, pos: nat, inclusive: bool)
    requires Ready(e) && Arena(e, s, l) && Tiled(l) && pos < |s| < U16
    ensures Tiled(Extended(e, s, l, pos, inclusive))
    ensures StartAt(Extended(e, s, l, pos, inclusive), pos, |l.nodes|, |Extended(e, s, l, pos, inclusive).nodes|)
  {
    var sv := s[pos..];
    var sk := Skip(e, sv);
    CandidateSpans(e, sv, sk, pos, inclusive);
    AppendTiled(e, s, l, Candidates(e, sv, pos, inclusive), pos, sk.blen);
  }

  /** The forward pass keeps the lattice tiled. */
  lemma {:induction false} ForwardTiled(e: Engine, s: seq<byte>, l: Lat, pos: nat, inclusive: bool)
    requires Ready(e) && Arena(e, s, l) && Tree(l) && Tiled(l) && pos <= |s| < U16
    ensures Tiled(Forward(e, s, l, pos, inclusive))
    decreases |s| - pos
  {
    if pos < |s| {
      StepTiled(e, s, l, pos, inclusive);
      ForwardTiled(e, s, Step(e, s, l, pos, inclusive), pos + 1, inclusive);
    }
  }

  // ---------------------------------------------------------------------
  // The end of the sentence

  /** The highest bucket index from `q` down whose bucket is not empty. */
  function LastFilled(b: seq<seq<nat>>, q: nat): (r: Option<nat>)
    requires q < |b|
    ensures r.Some? ==> r.value <= q
    decreases q
  {
    if b[q] != [] then Some(q) else if q == 0 then None else LastFilled(b, q - 1)
  }

  /** `LastFilled` finds the highest bucket up to `q` that is not empty,
      and finds none only when every one of them is empty. */
  lemma {:induction false} LastFilledHighest(b: seq<seq<nat>>, q: nat)
    requires q < |b|
    ensures LastFilled(b, q).None? ==> forall u :: 0 <= u <= q ==> b[u] == []
    ensures LastFilled(b, q).Some? ==> b[LastFilled(b, q).value] != []
    ensures LastFilled(b, q).Some? ==> forall u :: LastFilled(b, q).value < u <= q ==> b[u] == []
    decreases q
  {
    if b[q] == [] && q > 0 {
      LastFilledHighest(b, q - 1);
    }
  }

  /** A fresh EOS node, connected to the highest bucket that is not empty. */
  function Eos(e: Engine, s: seq<byte>, l: Lat): Lat
    requires Ready(e) && Arena(e, s, l)
  {
    var l1 := Lat(l.nodes + [NewEos()], l.endNodes);
    EosFits(e, s, l);
    match LastFilled(l.endNodes, |s|)
    case None => l1
    case Some(q) => Connect(e, l1, q, |l.nodes|)
  }

  /** The matrix has a cell for the boundary nodes' connection ids. */
  lemma BoundaryIdsInMatrix(e: Engine)
    requires Ready(e)
    ensures 0 < e.lSize && 0 < e.rSize
  {
  }

  lemma EosFits(e: Engine, s: seq<byte>, l: Lat)
    requires Ready(e) && Arena(e, s, l)
    ensures Arena(e, s, Lat(l.nodes + [NewEos()], l.endNodes))
  {
    BoundaryIdsInMatrix(e);
    var nodes := l.nodes + [NewEos()];
    assert forall i :: 0 <= i < |l.nodes| ==> nodes[i] == l.nodes[i];
  }

  lemma EosKeeps(e: Engine, s: seq<byte>, l: Lat)
    requires Ready(e) && Arena(e, s, l)
    ensures Arena(e, s, Eos(e, s, l)) && |Eos(e, s, l).nodes| == |l.nodes| + 1
  {
    EosFits(e, s, l);
    var l1 := Lat(l.nodes + [NewEos()], l.endNodes);
    match LastFilled(l.endNodes, |s|)
    case None =>
    case Some(q) =>
      ConnectKeeps(e, s, l1, q, |l.nodes|);
  }

  /** After the forward pass the EOS node gets a way in, every way in
      still leads back to BOS, and BOS stays alone in the first bucket
      unless the EOS node joins it there. */
  lemma EosRooted(e: Engine, s: seq<byte>, l: Lat)
    requires Ready(e) && Arena(e, s, l) && Tree(l) && |s| < U16
    ensures |Eos(e, s, l).nodes| == |l.nodes| + 1 && Rooted(Eos(e, s, l).nodes)
    ensures Eos(e, s, l).nodes[|l.nodes|].prev.Some? && Eos(e, s, l).nodes[|l.nodes|].stat == EosNode
    ensures Eos(e, s, l).nodes[0].stat == BosNode
    ensures LastFilled(l.endNodes, |s|) != Some(0) ==> Eos(e, s, l).endNodes[0] == [0]
  {
    EosFits(e, s, l);
    var r := |l.nodes|;
    var l1 := Lat(l.nodes + [NewEos()], l.endNodes);
    AppendTree(l, [NewEos()]);
    LastFilledHighest(l.endNodes, |s|);
    var q := LastFilled(l.endNodes, |s|).value;
    var bucket := l.endNodes[q];
    var costs := Costs(e, l1.nodes, bucket, l1.nodes[r]);
    FirstMinimum(costs);
    BucketCost(e, s, l1, q, r, 0);
    var a := FirstMin(costs).1.value;
    assert bucket[a] < r && (bucket[a] == 0 || l1.nodes[bucket[a]].prev.Some?);
    RelinkRooted(l1.nodes, r, bucket[a], FirstMin(costs).0);
    EosFirstBucket(e, s, l);
  }

  /** The EOS node joins the bucket it is connected at, so the first bucket
      is unchanged unless that is the first one. */
  lemma EosFirstBucket(e: Engine, s: seq<byte>, l: Lat)
    requires Ready(e) && Arena(e, s, l) && Tree(l)
    ensures LastFilled(l.endNodes, |s|) != Some(0) ==> Eos(e, s, l).endNodes[0] == l.endNodes[0]
  {
    EosFits(e, s, l);
    var l1 := Lat(l.nodes + [NewEos()], l.endNodes);
    assert l1.nodes[|l.nodes|] == NewEos() && NewEos().rlength == 0;
    match LastFilled(l.endNodes, |s|)
    case None =>
    case Some(q) =>
      ConnectBucket(e, l1, q, |l.nodes|);
  }

  /** `connect` changes only the bucket where the node ends. */
  lemma ConnectBucket(e: Engine, l: Lat, pos: nat, r: nat)
    requires Ready(e) && pos < |l.endNodes| && r < |l.nodes| && l.nodes[r].lcAttr < e.rSize
    requires forall k :: 0 <= k < |l.endNodes[pos]| ==> l.endNodes[pos][k] < |l.nodes| && l.nodes[l.endNodes[pos][k]].rcAttr < e.lSize
    requires pos + l.nodes[r].rlength < |l.endNodes|
    ensures |Connect(e, l, pos, r).endNodes| == |l.endNodes|
    ensures forall q :: 0 <= q < |l.endNodes| && q != pos + l.nodes[r].rlength ==> Connect(e, l, pos, r).endNodes[q] == l.endNodes[q]
  {
  }

  // ---------------------------------------------------------------------
  // The back-link walk

  /** Walking back from node `i` along `prev`, each node's predecessor
      gets `next` pointing back at it. */
  function Backlink(nodes: seq<Node>, i: nat): (r: seq<Node>)
    requires i < |nodes| && Backward(nodes)
    ensures |r| == |nodes|
    decreases i
  {
    match nodes[i].prev
    case None => nodes
    case Some(p) => Backlink(nodes[p := nodes[p].(next := Some(i))], p)
  }

  /** The back-link walk changes nothing but `next` links, and the links
      it sets point to newer nodes. */
  lemma {:induction false} BacklinkKeeps(nodes: seq<Node>, i: nat)
    requires i < |nodes| && Backward(nodes) && Onward(nodes)
    ensures forall k :: 0 <= k < |nodes| ==> Backlink(nodes, i)[k] == nodes[k].(next := Backlink(nodes, i)[k].next)
    ensures Onward(Backlink(nodes, i))
    decreases i
  {
    match nodes[i].prev
    case None =>
    case Some(p) =>
      BacklinkKeeps(nodes[p := nodes[p].(next := Some(i))], p);
  }

  /** The nodes met walking back from `i` along `prev`, oldest first: the
      first has no way in, and each is the way into the one after it. */
  function Chain(nodes: seq<Node>, i: nat): (c: seq<nat>)
    requires i < |nodes| && Backward(nodes)
    ensures c != [] && c[|c| - 1] == i
    ensures forall m :: 0 <= m < |c| ==> c[m] <= i
    ensures nodes[c[0]].prev.None?
    ensures forall m :: 0 < m < |c| ==> nodes[c[m]].prev == Some(c[m - 1])
    decreases i
  {
    match nodes[i].prev
    case None => [i]
    case Some(p) => Chain(nodes, p) + [i]
  }

  /** The chain depends only on the `prev` links. */
  lemma {:induction false} ChainByPrev(a: seq<Node>, b: seq<Node>, i: nat)
    requires i < |a| && i < |b| && Backward(a) && Backward(b)
    requires forall k :: 0 <= k <= i ==> a[k].prev == b[k].prev
    ensures Chain(a, i) == Chain(b, i)
    decreases i
  {
    match a[i].prev
    case None =>
    case Some(p) => ChainByPrev(a, b, p);
  }

  /** The walk from `i` depends only on the `next` links from `i` on. */
  lemma {:induction false} WalkAbove(a: seq<Node>, b: seq<Node>, i: nat)
    requires i < |a| == |b| && Onward(a) && Onward(b)
    requires forall k :: i <= k < |a| ==> a[k].next == b[k].next
    ensures Walk(a, i) == Walk(b, i)
    decreases |a| - i
  {
    match a[i].next
    case None =>
    case Some(k) => WalkAbove(a, b, k);
  }

  /** When no node older than `i` has a `next` link, the back-link walk
      from `i` makes the walk from the head of `i`'s chain follow the
      chain up to `i`, and then go on as the walk from `i` did. */
  lemma {:induction false} BacklinkWalks(nodes: seq<Node>, i: nat)
    requires i < |nodes| && Backward(nodes) && Onward(nodes)
    requires forall k :: 0 <= k < i ==> nodes[k].next.None?
    ensures Onward(Backlink(nodes, i))
    ensures Walk(Backlink(nodes, i), Chain(nodes, i)[0]) == Chain(nodes, i)[..|Chain(nodes, i)| - 1] + Walk(nodes, i)
    decreases i
  {
    BacklinkKeeps(nodes, i);
    match nodes[i].prev
    case None =>
    case Some(p) =>
      var linked := nodes[p := nodes[p].(next := Some(i))];
      BacklinkStep(nodes, i, p, linked);
      BacklinkWalks(linked, p);
      ChainByPrev(linked, nodes, p);
      WalkAbove(linked, nodes, i);
      var c := Chain(nodes, p);
      assert Chain(nodes, i) == c + [i];
      ChainAppend(c, i, Walk(nodes, i));
  }

  /** The first step of the back-link walk keeps the arena's order. */
  lemma BacklinkStep(nodes: seq<Node>, i: nat, p: nat, linked: seq<Node>)
    requires i < |nodes| && Backward(nodes) && Onward(nodes) && nodes[i].prev == Some(p)
    requires forall k :: 0 <= k < i ==> nodes[k].next.None?
    requires linked == nodes[p := nodes[p].(next := Some(i))]
    ensures Backward(linked) && Onward(linked) && Backlink(nodes, i) == Backlink(linked, p)
    ensures forall k :: 0 <= k < p ==> linked[k].next.None?
    ensures forall k :: 0 <= k <= p ==> linked[k].prev == nodes[k].prev
    ensures forall k :: i <= k < |nodes| ==> linked[k].next == nodes[k].next
    ensures Walk(linked, p) == [p] + Walk(linked, i)
  {
  }

  /** A chain extended by one node, cut before its last node, is the
      chain itself. */
  lemma ChainAppend(c: seq<nat>, i: nat, w: seq<nat>)
    requires c != []
    ensures (c + [i])[0] == c[0]
    ensures (c + [i])[..|c + [i]| - 1] + w == c[..|c| - 1] + ([c[|c| - 1]] + w)
  {
    assert (c + [i])[..|c|] == c;
    assert c[..|c| - 1] + [c[|c| - 1]] == c;
  }

  /** Every chain that starts with a way in ends at the BOS node. */
  lemma {:induction false} ChainReachesBos(nodes: seq<Node>, i: nat)
    requires i < |nodes| && Backward(nodes) && Rooted(nodes) && nodes[i].prev.Some?
    ensures Chain(nodes, i)[0] == 0
    decreases i
  {
    var p := nodes[i].prev.value;
    if p != 0 {
      ChainReachesBos(nodes, p);
    }
  }

  /** `viterbi`: the forward pass, the EOS node, and the back-link walk
      from it. */
  function Search(e: Engine, s: seq<byte>, l: Lat, inclusive: bool): Lat
    requires Ready(e) && Arena(e, s, l) && Tree(l) && |s| < U16
  {
    Finish(e, s, Forward(e, s, l, 0, inclusive))
  }

  /** The end of `viterbi`, after the forward pass: the EOS node, and the
      back-link walk from it. */
  function Finish(e: Engine, s: seq<byte>, f: Lat): Lat
    requires Ready(e) && Arena(e, s, f)
  {
    var v := Eos(e, s, f);
    EosKeeps(e, s, f);
    Lat(Backlink(v.nodes, |f.nodes|), v.endNodes)
  }

  /** The forward pass over `setSentence`'s lattice. */
  function Forwarded(e: Engine, s: seq<byte>, inclusive: bool): (r: Lat)
    requires Ready(e) && |s| < U16
    ensures Arena(e, s, r) && Tree(r)
  {
    FreshLattice(e, s);
    Forward(e, s, Fresh(s), 0, inclusive)
  }

  /** `setSentence` followed by `viterbi`. */
  function Analyze(e: Engine, s: seq<byte>, inclusive: bool): Lat
    requires Ready(e) && |s| < U16
  {
    FreshLattice(e, s);
    Search(e, s, Fresh(s), inclusive)
  }

  /** The nodes of `path` lead from the BOS node to the EOS node, the
      newest node of the arena, each the way into the next. */
  predicate BosToEos(nodes: seq<Node>, path: seq<nat>) {
    && path != [] && path[0] == 0 && path[|path| - 1] + 1 == |nodes|
    && nodes[0].stat == BosNode && nodes[|nodes| - 1].stat == EosNode
    && (forall m :: 0 <= m < |path| ==> path[m] < |nodes|)
    && (forall m :: 0 < m < |path| ==> nodes[path[m]].prev == Some(path[m - 1]))
    && (forall m :: 0 < m < |path| - 1 ==> nodes[path[m]].stat == NorNode || nodes[path[m]].stat == UnkNode)
    && forall m :: 0 < m < |path| - 1 ==> SpanStart(nodes[path[m]]) == SpanEnd(nodes[path[m - 1]])
  }

  /** After `viterbi`, following `next` from the BOS node walks the best
      path: from BOS to EOS, each node the way into the next, the chain of
      ways in that `connect` chose, back from EOS. */
  lemma BestPathWalked(e: Engine, s: seq<byte>, inclusive: bool)
    requires Ready(e) && |s| < U16
    ensures Onward(Analyze(e, s, inclusive).nodes) && Placed(s, Analyze(e, s, inclusive).nodes)
    ensures BosToEos(Analyze(e, s, inclusive).nodes, Walk(Analyze(e, s, inclusive).nodes, 0))
  {
    var f := Forwarded(e, s, inclusive);
    FreshLattice(e, s);
    FreshTiled(s);
    ForwardTiled(e, s, Fresh(s), 0, inclusive);
    EosKeeps(e, s, f);
    var v := Eos(e, s, f);
    EosChain(e, s, f);
    BacklinkFromEos(s, v.nodes, |f.nodes|);
    assert Analyze(e, s, inclusive) == Lat(Backlink(v.nodes, |f.nodes|), v.endNodes);
  }

  /** After the forward pass and the EOS node, the chain of ways in back
      from EOS leads from BOS to EOS. */
  lemma EosChain(e: Engine, s: seq<byte>, f: Lat)
    requires Ready(e) && Arena(e, s, f) && Tree(f) && Tiled(f) && |s| < U16
    ensures Arena(e, s, Eos(e, s, f)) && |Eos(e, s, f).nodes| == |f.nodes| + 1
    ensures BosToEos(Eos(e, s, f).nodes, Chain(Eos(e, s, f).nodes, |f.nodes|))
  {
    EosKeeps(e, s, f);
    EosRooted(e, s, f);
    EosKeepsOlder(e, s, f);
    var v := Eos(e, s, f);
    var r := |f.nodes|;
    ChainReachesBos(v.nodes, r);
    var c := Chain(v.nodes, r);
    forall m | 0 < m < |c| - 1
      ensures v.nodes[c[m]].stat == NorNode || v.nodes[c[m]].stat == UnkNode
      ensures SpanStart(v.nodes[c[m]]) == SpanEnd(v.nodes[c[m - 1]])
    {
      assert v.nodes[c[m + 1]].prev == Some(c[m]) && v.nodes[c[m]].prev == Some(c[m - 1]);
      assert c[m - 1] < c[m] < c[m + 1] <= r;
      assert AfterWayIn(f.nodes, c[m]);
    }
  }

  /** Adding the EOS node changes none of the older nodes. */
  lemma EosKeepsOlder(e: Engine, s: seq<byte>, f: Lat)
    requires Ready(e) && Arena(e, s, f)
    ensures |Eos(e, s, f).nodes| == |f.nodes| + 1
    ensures forall k :: 0 <= k < |f.nodes| ==> Eos(e, s, f).nodes[k] == f.nodes[k]
  {
    EosFits(e, s, f);
    var l1 := Lat(f.nodes + [NewEos()], f.endNodes);
    assert forall k :: 0 <= k < |f.nodes| ==> l1.nodes[k] == f.nodes[k];
    match LastFilled(f.endNodes, |s|)
    case None =>
    case Some(q) =>
      ConnectKeeps(e, s, l1, q, |f.nodes|);
  }

  /** The back-link walk from the newest node of an unlinked arena whose
      chain leads from BOS to EOS makes the walk from BOS follow that
      chain, and keeps every node's placement. */
  lemma BacklinkFromEos(s: seq<byte>, nodes: seq<Node>, i: nat)
    requires i + 1 == |nodes| && Backward(nodes) && Unlinked(nodes) && Placed(s, nodes)
    requires BosToEos(nodes, Chain(nodes, i))
    ensures Onward(Backlink(nodes, i)) && Placed(s, Backlink(nodes, i))
    ensures BosToEos(Backlink(nodes, i), Walk(Backlink(nodes, i), 0))
  {
    BacklinkWalks(nodes, i);
    BacklinkKeeps(nodes, i);
    var c := Chain(nodes, i);
    assert Walk(nodes, i) == [i];
    assert c[..|c| - 1] + [i] == c;
    BacklinkPath(s, nodes, Backlink(nodes, i), c);
  }

  /** The back-link walk keeps the placement and the ways in, so a chain
      of the lattice before it is still a path from BOS to EOS after it. */
  lemma BacklinkPath(s: seq<byte>, nodes: seq<Node>, b: seq<Node>, c: seq<nat>)
    requires |b| == |nodes| && forall k :: 0 <= k < |nodes| ==> b[k] == nodes[k].(next := b[k].next)
    requires BosToEos(nodes, c) && Placed(s, nodes)
    ensures BosToEos(b, c) && Placed(s, b)
  {
  }

  // ---------------------------------------------------------------------
  // stringify

  /** The nodes met following `next` from node `i`. */
  function Walk(nodes: seq<Node>, i: nat): (path: seq<nat>)
    requires i < |nodes| && Onward(nodes)
    ensures path != [] && path[0] == i
    ensures forall m :: 0 <= m < |path| ==> i <= path[m] < |nodes|
    decreases |nodes| - i
  {
    match nodes[i].next
    case None => [i]
    case Some(k) => [i] + Walk(nodes, k)
  }

  /** The text `writeNode` produces for each node of `path` in turn, or the
      first failure. */
  function Written(f: W.Formats, s: seq<byte>, nodes: seq<Node>, path: seq<nat>): Result<string, W.WriteError>
    requires Placed(s, nodes) && forall m :: 0 <= m < |path| ==> path[m] < |nodes|
  {
    if path == [] then Success("")
    else match W.Render(f.For(nodes[path[0]].stat), s, nodes[path[0]], 0)
      case Failure(err) => Failure(err)
      case Success(t) => W.Prepend(t, Written(f, s, nodes, path[1..]))
  }

  /** `stringify` as written: nothing before any sentence is set, and
      otherwise the walk from the front of the first bucket, which the
      source takes to be the BOS node. */
  function StringifyAsWritten(f: W.Formats, s: seq<byte>, l: Lat): Result<string, W.WriteError>
    requires Placed(s, l.nodes) && Onward(l.nodes)
    requires l.endNodes != [] ==> l.endNodes[0] != [] && l.endNodes[0][0] < |l.nodes|
  {
    if l.endNodes == [] then Success("") else Written(f, s, l.nodes, Walk(l.nodes, l.endNodes[0][0]))
  }

  /** `stringify` as intended: the walk from the BOS node, the first node
      of the arena. */
  function Stringify(f: W.Formats, s: seq<byte>, l: Lat): Result<string, W.WriteError>
    requires Placed(s, l.nodes) && Onward(l.nodes) && (l.endNodes != [] ==> |l.nodes| > 0)
  {
    if l.endNodes == [] then Success("") else Written(f, s, l.nodes, Walk(l.nodes, 0))
  }

  /** When no word ends after the start of the sentence (the empty
      sentence, or one of white space only), the EOS node joins the BOS
      node in the first bucket, in front of it, with BOS as its way in:
      `stringify` as written starts at the EOS node and never writes the
      BOS node, while the walk from the BOS node writes both. */
  lemma BlankSentenceSkipsBos(e: Engine, f: W.Formats, s: seq<byte>, inclusive: bool)
    requires Ready(e) && |s| < U16
    requires forall q :: 1 <= q <= |s| ==> Forwarded(e, s, inclusive).endNodes[q] == []
    ensures BosSkipped(f, s, Analyze(e, s, inclusive))
  {
    var fw := Forwarded(e, s, inclusive);
    AnalyzeFinishes(e, s, inclusive);
    BlankFinish(e, s, fw);
    BlankStringify(f, s, Finish(e, s, fw));
  }

  /** `viterbi` after `setSentence` ends with the EOS node and the
      back-link walk after the forward pass. */
  lemma AnalyzeFinishes(e: Engine, s: seq<byte>, inclusive: bool)
    requires Ready(e) && |s| < U16
    ensures Arena(e, s, Forwarded(e, s, inclusive)) && Tree(Forwarded(e, s, inclusive))
    ensures Analyze(e, s, inclusive) == Finish(e, s, Forwarded(e, s, inclusive))
  {
  }

  /** With no word ending after the start, the finished lattice holds EOS
      in front of BOS in the first bucket, with BOS as its way in. */
  lemma BlankFinish(e: Engine, s: seq<byte>, fw: Lat)
    requires Ready(e) && Arena(e, s, fw) && Tree(fw) && |s| < U16
    requires forall q :: 1 <= q <= |s| ==> fw.endNodes[q] == []
    ensures Onward(Finish(e, s, fw).nodes) && Placed(s, Finish(e, s, fw).nodes)
    ensures |Finish(e, s, fw).nodes| == |fw.nodes| + 1 && |Finish(e, s, fw).endNodes| == |s| + 1
    ensures Finish(e, s, fw).endNodes[0] == [|Finish(e, s, fw).nodes| - 1, 0]
    ensures Finish(e, s, fw).nodes[0].stat == BosNode
    ensures Finish(e, s, fw).nodes[|Finish(e, s, fw).nodes| - 1].stat == EosNode
    ensures Walk(Finish(e, s, fw).nodes, 0) == [0, |Finish(e, s, fw).nodes| - 1]
  {
    var r := |fw.nodes|;
    LastFilledHighest(fw.endNodes, |s|);
    BlankEos(e, s, fw);
    var v := Eos(e, s, fw);
    EosKeeps(e, s, fw);
    EosKeepsOlder(e, s, fw);
    BacklinkKeeps(v.nodes, r);
    BacklinkToBos(v.nodes, r);
  }

  /** Linking back from the newest node of an unlinked arena, whose way in
      is the BOS node, makes the walk from BOS go straight to it. */
  lemma BacklinkToBos(nodes: seq<Node>, r: nat)
    requires r + 1 == |nodes| && 0 < r && Backward(nodes) && Unlinked(nodes)
    requires nodes[r].prev == Some(0) && nodes[0].prev.None?
    ensures Onward(Backlink(nodes, r)) && Walk(Backlink(nodes, r), 0) == [0, r]
  {
    BacklinkWalks(nodes, r);
    assert Chain(nodes, 0) == [0];
    assert Chain(nodes, r) == [0, r];
    assert Walk(nodes, r) == [r];
  }

  /** The first bucket of `a` holds EOS in front of BOS, and the walk from
      BOS goes straight to EOS: `stringify` as written writes the EOS node
      alone, and the walk from BOS writes BOS and then EOS. */
  predicate BosSkipped(f: W.Formats, s: seq<byte>, a: Lat) {
    && Onward(a.nodes) && Placed(s, a.nodes) && |a.nodes| >= 2
    && a.endNodes != [] && a.endNodes[0] == [|a.nodes| - 1, 0]
    && a.nodes[0].stat == BosNode && a.nodes[|a.nodes| - 1].stat == EosNode
    && Walk(a.nodes, 0) == [0, |a.nodes| - 1]
    && StringifyAsWritten(f, s, a) == Written(f, s, a.nodes, [|a.nodes| - 1])
    && Stringify(f, s, a) == Written(f, s, a.nodes, [0, |a.nodes| - 1])
  }

  /** `stringify` on a lattice whose first bucket holds EOS then BOS, and
      whose walk from BOS is BOS then EOS. */
  lemma BlankStringify(f: W.Formats, s: seq<byte>, a: Lat)
    requires Onward(a.nodes) && Placed(s, a.nodes) && |a.nodes| >= 2
    requires a.endNodes != [] && a.endNodes[0] == [|a.nodes| - 1, 0] && Walk(a.nodes, 0) == [0, |a.nodes| - 1]
    requires a.nodes[0].stat == BosNode && a.nodes[|a.nodes| - 1].stat == EosNode
    ensures BosSkipped(f, s, a)
  {
    assert Walk(a.nodes, |a.nodes| - 1) == [|a.nodes| - 1];
  }

  /** EOS connected in the first bucket gets the BOS node as its way in,
      and goes in front of it there. */
  lemma BlankEos(e: Engine, s: seq<byte>, l: Lat)
    requires Ready(e) && Arena(e, s, l) && Tree(l) && |s| < U16 && LastFilled(l.endNodes, |s|) == Some(0)
    ensures Eos(e, s, l).endNodes[0] == [|l.nodes|, 0] && |Eos(e, s, l).nodes| == |l.nodes| + 1
    ensures Eos(e, s, l).nodes[|l.nodes|].prev == Some(0) && Eos(e, s, l).nodes[|l.nodes|].stat == EosNode
  {
    EosRooted(e, s, l);
    var r := |l.nodes|;
    var l1 := Lat(l.nodes + [NewEos()], l.endNodes);
    assert l1.nodes[r] == NewEos() && l1.endNodes[0] == [0];
    assert Eos(e, s, l) == Connect(e, l1, 0, r);
  }

  /** For the empty sentence the EOS node is connected in the first
      bucket, the only one, in front of the BOS node. */
  lemma EmptySentenceEos(e: Engine, l: Lat)
    requires Ready(e) && l == Fresh([]) && Arena(e, [], l)
    ensures Eos(e, [], l).endNodes == [[1, 0]]
  {
    assert LastFilled(l.endNodes, 0) == Some(0);
    assert NewEos().rlength == 0;
    var l1 := Lat(l.nodes + [NewEos()], l.endNodes);
    assert l1.nodes[1] == NewEos() && l1.endNodes == [[0]];
    assert Eos(e, [], l) == Connect(e, l1, 0, 1);
    assert Connect(e, l1, 0, 1).endNodes == l1.endNodes[0 := [1] + l1.endNodes[0]];
    assert [1] + [0] == [1, 0] && [[0]][0 := [1, 0]] == [[1, 0]];
  }

  /** Once some word ends after the start of the sentence, the EOS node
      stays out of the first bucket and `stringify` as written starts at
      the BOS node, as intended. */
  lemma StringifyFromBos(e: Engine, f: W.Formats, s: seq<byte>, inclusive: bool)
    requires Ready(e) && |s| < U16
    requires exists q :: 1 <= q <= |s| && Forwarded(e, s, inclusive).endNodes[q] != []
    ensures Onward(Analyze(e, s, inclusive).nodes) && Placed(s, Analyze(e, s, inclusive).nodes)
    ensures Analyze(e, s, inclusive).endNodes[0] == [0]
    ensures StringifyAsWritten(f, s, Analyze(e, s, inclusive)) == Stringify(f, s, Analyze(e, s, inclusive))
  {
    BestPathWalked(e, s, inclusive);
    var fw := Forwarded(e, s, inclusive);
    LastFilledHighest(fw.endNodes, |s|);
    EosRooted(e, s, fw);
  }
}
