/** Hash trees of the beacon chain, over a hash without collisions: a digest is
    the tree it was computed from. */
module Ssz {
  import opened Results
  import opened Rlp

  type PublicKey = Bytes

  const COMMITTEE_SIZE := 512

  type Keys = k: seq<PublicKey> | |k| == COMMITTEE_SIZE witness Copies([], COMMITTEE_SIZE)

  datatype SyncCommittee = SyncCommittee(pubkeys: Keys, aggregate: PublicKey)

  /** The default committee, of keys of 48 zeros. */
  function NoCommittee(): SyncCommittee {
    SyncCommittee(Copies(Copies(0, 48), COMMITTEE_SIZE), Copies(0, 48))
  }

  datatype ExecutionPayload = ExecutionPayload(
    parentHash: Bytes,
    feeRecipient: Bytes,
    stateRoot: Bytes,
    receiptsRoot: Bytes,
    blockNumber: nat,
    baseFeePerGas: nat,
    blockHash: Bytes,
    transactions: seq<Bytes>)

  /** A block body: its execution payload and the digest of everything else. */
  datatype BeaconBlockBody = BeaconBlockBody(payload: ExecutionPayload, rest: Node)

  datatype Node =
    | Chunk(bytes: Bytes)
    | Number(n: nat)
    | Parent(left: Node, right: Node)
    | CommitteeRoot(committee: SyncCommittee)
    | PayloadRoot(payload: ExecutionPayload)

  const ZERO_NODE: Node := Chunk(Copies(0, 32))

  datatype Header = Header(
    slot: nat,
    proposerIndex: nat,
    parentRoot: Node,
    stateRoot: Node,
    bodyRoot: Node)

  const DEFAULT_HEADER := Header(0, 0, ZERO_NODE, ZERO_NODE, ZERO_NODE)

  datatype BeaconBlock = BeaconBlock(
    slot: nat,
    proposerIndex: nat,
    parentRoot: Node,
    stateRoot: Node,
    body: BeaconBlockBody)

  /** The five fields of a container fill the first of eight leaves. */
  function FiveFields(a: Node, b: Node, c: Node, d: Node, e: Node): Node {
    Parent(
      Parent(Parent(a, b), Parent(c, d)),
      Parent(Parent(e, ZERO_NODE), Parent(ZERO_NODE, ZERO_NODE)))
  }

  function HeaderRoot(h: Header): Node {
    FiveFields(Number(h.slot), Number(h.proposerIndex), h.parentRoot, h.stateRoot, h.bodyRoot)
  }

  function BodyRoot(body: BeaconBlockBody): Node {
    Parent(PayloadRoot(body.payload), body.rest)
  }

  function BlockRoot(b: BeaconBlock): Node {
    FiveFields(Number(b.slot), Number(b.proposerIndex), b.parentRoot, b.stateRoot, BodyRoot(b.body))
  }

  /*** Merkle branches ***/

  function Pow2(i: nat): nat
    ensures Pow2(i) > 0
  {
    if i == 0 then 1 else 2 * Pow2(i - 1)
  }

  predicate GoesRight(index: nat, level: nat) {
    (index / Pow2(level)) % 2 == 1
  }

  /** Hashing `leaf` upwards with the first `depth` nodes of `branch`. */
  function FoldBranch(leaf: Node, branch: seq<Node>, depth: nat, index: nat): Node
    requires depth <= |branch|
  {
    if depth == 0 then leaf
    else
      var value := FoldBranch(leaf, branch, depth - 1, index);
      if GoesRight(index, depth - 1) then Parent(branch[depth - 1], value)
      else Parent(value, branch[depth - 1])
  }

  /** The branch check of the phase 0 specification. A branch that is too short
      does not verify, nodes past `depth` are not looked at. */
  predicate IsValidMerkleBranch(leaf: Node, branch: seq<Node>, depth: nat, index: nat, root: Node) {
    depth <= |branch| && FoldBranch(leaf, branch, depth, index) == root
  }

  /** The node of a tree at a depth and an index within it. */
  function NodeAt(root: Node, depth: nat, index: nat): Option<Node> {
    if depth == 0 then Some(root)
    else if !root.Parent? then None
    else NodeAt(if GoesRight(index, depth - 1) then root.right else root.left, depth - 1, index)
  }

  /** The siblings along the way to that node, lowest first. */
  function Siblings(root: Node, depth: nat, index: nat): (branch: seq<Node>)
    requires NodeAt(root, depth, index).Some?
    ensures |branch| == depth
  {
    if depth == 0 then []
    else
      var right := GoesRight(index, depth - 1);
      Siblings(if right then root.right else root.left, depth - 1, index)
      + [if right then root.left else root.right]
  }

  /** A branch verifies exactly when the leaf sits at that place of the tree and
      the branch lists its siblings. */
  lemma {:induction false} MerkleBranchExact(leaf: Node, branch: seq<Node>, depth: nat, index: nat, root: Node)
    ensures IsValidMerkleBranch(leaf, branch, depth, index, root)
       <==> (depth <= |branch| && NodeAt(root, depth, index) == Some(leaf)
             && branch[..depth] == Siblings(root, depth, index))
  {
    if 0 < depth <= |branch| && root.Parent? {
      var below := if GoesRight(index, depth - 1) then root.right else root.left;
      MerkleBranchExact(leaf, branch, depth - 1, index, below);
      assert branch[..depth] == branch[..depth - 1] + [branch[depth - 1]];
    }
  }

  /** One step down a tree. */
  lemma OneDown(root: Node, depth: nat, index: nat)
    requires root.Parent? && depth > 0
    ensures NodeAt(root, depth, index)
         == NodeAt(if GoesRight(index, depth - 1) then root.right else root.left, depth - 1, index)
  {
  }

  lemma Directions(index: nat)
    requires index < 8
    ensures GoesRight(index, 2) <==> index >= 4
    ensures GoesRight(index, 1) <==> index % 4 >= 2
    ensures GoesRight(index, 0) <==> index % 2 == 1
  {
    assert Pow2(0) == 1 && Pow2(1) == 2 && Pow2(2) == 4;
  }

  lemma ThirdLevel(root: Node, index: nat)
    requires index < 8 && root.Parent? && root.left.Parent? && root.right.Parent?
    requires root.left.left.Parent? && root.left.right.Parent? && root.right.left.Parent? && root.right.right.Parent?
    ensures
      var half := if index >= 4 then root.right else root.left;
      var quarter := if index % 4 >= 2 then half.right else half.left;
      NodeAt(root, 3, index) == Some(if index % 2 == 1 then quarter.right else quarter.left)
  {
    var half := if index >= 4 then root.right else root.left;
    var quarter := if index % 4 >= 2 then half.right else half.left;
    var leaf := if index % 2 == 1 then quarter.right else quarter.left;
    Directions(index);
    OneDown(root, 3, index);
    OneDown(half, 2, index);
    OneDown(quarter, 1, index);
    assert NodeAt(leaf, 0, index) == Some(leaf);
  }

  /** Where the fields of a header are in its tree. */
  lemma HeaderLeaves(h: Header)
    ensures NodeAt(HeaderRoot(h), 3, 0) == Some(Number(h.slot))
    ensures NodeAt(HeaderRoot(h), 3, 1) == Some(Number(h.proposerIndex))
    ensures NodeAt(HeaderRoot(h), 3, 2) == Some(h.parentRoot)
    ensures NodeAt(HeaderRoot(h), 3, 3) == Some(h.stateRoot)
    ensures NodeAt(HeaderRoot(h), 3, 4) == Some(h.bodyRoot)
  {
    ThirdLevel(HeaderRoot(h), 0);
    ThirdLevel(HeaderRoot(h), 1);
    ThirdLevel(HeaderRoot(h), 2);
    ThirdLevel(HeaderRoot(h), 3);
    ThirdLevel(HeaderRoot(h), 4);
  }
}
