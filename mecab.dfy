/** The lattice node shared by the analyzer and the output writer. */
module Mecab {
  import opened Common

  /** Longest run of same-category characters grouped into one unknown word. */
  const MAX_GROUPING_SIZE: nat := 24

  /** Surface of the sentence-boundary nodes. */
  const BOS_KEY: string := "BOS/EOS"

  /** Feature string of the sentence-boundary nodes. */
  const BOS_FEATURE: string := "BOS/EOS,*,*,*,*,*,*,*,*,*,*,*,*,*,*,*,*"

  datatype NodeStat = NorNode | UnkNode | BosNode | EosNode

  /** Where a node's surface starts: at the boundary key, or at a
      byte offset of the sentence. */
  datatype Surface = BosKey | At(offset: nat)

  /** A lattice node. Links are indices into the lattice's node arena;
      `feature` holds the C string the node points at, one character per
      byte. */
  datatype Node = Node(
    prev: Option<nat>,
    next: Option<nat>,
    surface: Surface,
    feature: string,
    length: nat,
    rlength: nat,
    lcAttr: nat,
    rcAttr: nat,
    cost: int,
    wcost: int,
    stat: NodeStat)
}
