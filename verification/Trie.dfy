/** The Merkle-Patricia trie of Appendix D of the Yellow Paper, as a value with
    a lookup, a walk and a hash-linked encoding. Branches carry no value of
    their own and no node is inlined in its parent. */
module Trie {
  import opened Results
  import opened Rlp
  import opened HexPrefix

  /** The hash function. Nothing is assumed of it here. */
  type Digest = Bytes -> Bytes

  /** All digests have 32 bytes. */
  ghost predicate Digests32(keccak: Digest) {
    forall b :: |keccak(b)| == 32
  }

  datatype Trie =
    | Empty
    | Leaf(path: Path, value: Bytes)
    | Extension(path: Path, child: Trie)
    | Branch(children: seq<Trie>)

  /*** Meaning ***/

  function Lookup(t: Trie, key: Path): Option<Bytes> {
    match t
    case Empty => None
    case Leaf(path, value) => if path == key then Some(value) else None
    case Extension(path, child) => if path <= key then Lookup(child, key[|path|..]) else None
    case Branch(children) =>
      if key == [] || key[0] >= |children| then None else Lookup(children[key[0]], key[1..])
  }

  /*** Encoding ***/

  /** The bytes of a node. The empty trie is encoded as the empty string. */
  function EncodeNode(keccak: Digest, t: Trie): Bytes
    decreases t, 1
  {
    if t.Empty? then Encode(Str([])) else Encode(List(StringItems(NodeItems(keccak, t))))
  }

  function NodeItems(keccak: Digest, t: Trie): seq<Bytes>
    requires !t.Empty?
    decreases t, 0
  {
    match t
    case Leaf(path, value) => [HexPrefixEncode(path, true), value]
    case Extension(path, child) => [HexPrefixEncode(path, false), keccak(EncodeNode(keccak, child))]
    case Branch(children) =>
      seq(|children|, i requires 0 <= i < |children| =>
        if children[i].Empty? then [] else keccak(EncodeNode(keccak, children[i]))) + [[]]
  }

  function RootHash(keccak: Digest, t: Trie): Bytes {
    keccak(EncodeNode(keccak, t))
  }

  /** Tries in which every key has `n` nibbles: paths fill the key, an extension
      leads to a branch, a branch has sixteen slots, not all empty. */
  ghost predicate Shape(t: Trie, n: nat)
    decreases t
  {
    match t
    case Empty => true
    case Leaf(path, _) => |path| == n
    case Extension(path, child) => 0 < |path| < n && child.Branch? && Shape(child, n - |path|)
    case Branch(children) =>
      && n > 0 && |children| == 16
      && (forall i :: 0 <= i < 16 ==> Shape(children[i], n - 1))
      && exists i :: 0 <= i < 16 && !children[i].Empty?
  }

  /** Every node is short enough to have an RLP encoding. */
  ghost predicate Sized(keccak: Digest, t: Trie)
    decreases t
  {
    && (t.Empty? || Encodable(List(StringItems(NodeItems(keccak, t)))))
    && match t
       case Extension(_, child) => Sized(keccak, child)
       case Branch(children) => forall i :: 0 <= i < |children| ==> Sized(keccak, children[i])
       case _ => true
  }

  ghost predicate WellFormed(keccak: Digest, t: Trie, n: nat) {
    Shape(t, n) && Sized(keccak, t)
  }

  /** The hash collides for no node of `t` and the node `bytes`, and no value
      stored in `t` is the digest of `bytes`. */
  ghost predicate Binds(keccak: Digest, t: Trie, bytes: Bytes)
    decreases t
  {
    && (keccak(bytes) == RootHash(keccak, t) ==> bytes == EncodeNode(keccak, t))
    && match t
       case Empty => true
       case Leaf(_, value) => keccak(bytes) != value
       case Extension(_, child) => Binds(keccak, child, bytes)
       case Branch(children) =>
         forall i :: 0 <= i < |children| ==> Binds(keccak, children[i], bytes)
  }

  ghost predicate BindsAll(keccak: Digest, t: Trie, proof: seq<Bytes>) {
    forall i :: 0 <= i < |proof| ==> Binds(keccak, t, proof[i])
  }

  /*** Walking ***/

  /** The encoded nodes met on the way to `key`, root first. The walk stops at a
      leaf, at an empty slot and at an extension whose path diverges. */
  function Walk(keccak: Digest, t: Trie, key: Path): seq<Bytes> {
    match t
    case Empty => []
    case Leaf(_, _) => [EncodeNode(keccak, t)]
    case Extension(path, child) =>
      [EncodeNode(keccak, t)] + if path <= key then Walk(keccak, child, key[|path|..]) else []
    case Branch(children) =>
      [EncodeNode(keccak, t)]
      + if key == [] || key[0] >= |children| then [] else Walk(keccak, children[key[0]], key[1..])
  }

  /** A well-formed node reads back as its items. */
  lemma DecodeNode(keccak: Digest, t: Trie, n: nat)
    requires WellFormed(keccak, t, n) && !t.Empty?
    ensures DecodeList(EncodeNode(keccak, t)) == Some(NodeItems(keccak, t))
    ensures |NodeItems(keccak, t)| == if t.Branch? then 17 else 2
  {
    DecodeListRoundTrip(NodeItems(keccak, t));
  }

  /** Every non-empty well-formed trie stores something. */
  lemma {:induction false} SomeKey(t: Trie, n: nat) returns (key: Path)
    requires Shape(t, n) && !t.Empty?
    ensures |key| == n && Lookup(t, key).Some?
    decreases t
  {
    match t
    case Leaf(path, _) =>
      key := path;
    case Extension(path, child) =>
      var rest := SomeKey(child, n - |path|);
      key := path + rest;
      assert key[|path|..] == rest;
    case Branch(children) =>
      var i :| 0 <= i < 16 && !children[i].Empty?;
      var rest := SomeKey(children[i], n - 1);
      key := [i] + rest;
      assert key[1..] == rest;
  }
}
