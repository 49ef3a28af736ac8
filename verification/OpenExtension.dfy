/** The failure of exclusion proofs, end to end: an account that is there and is
    reported as empty. */
module OpenExtension {
  import opened Results
  import opened Rlp
  import opened HexPrefix
  import opened Trie
  import opened Proof
  import opened ProofTheorems
  import opened Accounts

  /** Two paths part after their first `k` nibbles. */
  predicate PartAfter(p: Path, q: Path, k: nat) {
    |p| == |q| && k < |p| && p[..k] == q[..k] && p[k] != q[k]
  }

  function Tail(p: Path, k: nat, value: Bytes): Trie
    requires k < |p|
  {
    Leaf(p[k + 1..], value)
  }

  function Arms(p: Path, q: Path, k: nat, value: Bytes): (arms: seq<Trie>)
    requires PartAfter(p, q, k)
    ensures |arms| == 16 && arms[p[k]] == Tail(p, k, value) && arms[q[k]] == Tail(q, k, value)
    ensures forall i :: 0 <= i < 16 && i != p[k] && i != q[k] ==> arms[i] == Empty
  {
    seq(16, i => Empty)[p[k] as int := Tail(p, k, value)][q[k] as int := Tail(q, k, value)]
  }

  /** The trie of two such paths: an extension over a branch over two leaves. */
  function Fork(p: Path, q: Path, k: nat, value: Bytes): Trie
    requires PartAfter(p, q, k)
  {
    Extension(p[..k], Branch(Arms(p, q, k, value)))
  }

  lemma ForkShape(p: Path, q: Path, k: nat, value: Bytes)
    requires PartAfter(p, q, k) && k > 0
    ensures Shape(Fork(p, q, k, value), |p|)
  {
    var branch := Fork(p, q, k, value).child;
    assert !branch.children[p[k]].Empty?;
  }

  lemma TailSized(keccak: Digest, p: Path, k: nat, value: Bytes)
    requires k < |p| <= 64 && |value| <= 200
    ensures Sized(keccak, Tail(p, k, value))
  {
    StringsEncodable(NodeItems(keccak, Tail(p, k, value)));
  }

  lemma ForkSized(keccak: Digest, p: Path, q: Path, k: nat, value: Bytes)
    requires Digests32(keccak) && PartAfter(p, q, k) && |p| <= 64 && |value| <= 200
    ensures Sized(keccak, Fork(p, q, k, value))
  {
    var t := Fork(p, q, k, value);
    TailSized(keccak, p, k, value);
    TailSized(keccak, q, k, value);
    BranchItems(keccak, t.child);
    StringsEncodable(NodeItems(keccak, t.child));
    StringsEncodable(NodeItems(keccak, t));
  }

  lemma BranchItems(keccak: Digest, t: Trie)
    requires Digests32(keccak) && t.Branch? && |t.children| == 16
    ensures |NodeItems(keccak, t)| == 17
    ensures forall i :: 0 <= i < 17 ==> |NodeItems(keccak, t)[i]| <= 32
    ensures forall i :: 0 <= i < 16 && !t.children[i].Empty? ==> |NodeItems(keccak, t)[i]| == 32
  {
    forall i | 0 <= i < 16
      ensures |RootHash(keccak, t.children[i])| == 32
    {
    }
  }

  /** It holds the value under both paths and nothing else. */
  lemma ForkLookup(p: Path, q: Path, k: nat, value: Bytes, path: Path)
    requires PartAfter(p, q, k) && |path| == |p|
    ensures Lookup(Fork(p, q, k, value), path) == if path == p || path == q then Some(value) else None
  {
    var t := Fork(p, q, k, value);
    Cut(p, k);
    Cut(q, k);
    Cut(path, k);
    if p[..k] <= path {
      assert p[..k] == path[..k];
      var x := path[k];
      assert Lookup(t, path) == Lookup(t.child, path[k..]) == Lookup(t.child.children[x], path[k..][1..]);
      assert path[k..][1..] == path[k + 1..];
      assert t.child.children[x]
          == if x == p[k] then Tail(p, k, value) else if x == q[k] then Tail(q, k, value) else Empty;
    } else {
      assert path[..k] <= path;
    }
  }

  lemma Cut(p: Path, k: nat)
    requires k < |p|
    ensures p == p[..k] + [p[k]] + p[k + 1..]
  {
  }

  /** No node of a trie is shorter than the 32 bytes below which Appendix D would
      put it into its parent. */
  predicate NothingInlined(keccak: Digest, t: Trie) {
    && (t.Empty? || |EncodeNode(keccak, t)| >= 32)
    && match t
       case Extension(_, child) => NothingInlined(keccak, child)
       case Branch(children) => forall i :: 0 <= i < |children| ==> NothingInlined(keccak, children[i])
       case _ => true
  }

  lemma LongNode(keccak: Digest, t: Trie, i: nat)
    requires !t.Empty? && i < |NodeItems(keccak, t)| && |NodeItems(keccak, t)[i]| >= 32
    ensures |EncodeNode(keccak, t)| >= 32
  {
    StringInside(NodeItems(keccak, t), i);
  }

  lemma ForkNotInlined(keccak: Digest, p: Path, q: Path, k: nat, value: Bytes)
    requires Digests32(keccak) && PartAfter(p, q, k) && |value| >= 32
    ensures NothingInlined(keccak, Fork(p, q, k, value))
  {
    var t := Fork(p, q, k, value);
    LongNode(keccak, Tail(p, k, value), 1);
    LongNode(keccak, Tail(q, k, value), 1);
    BranchItems(keccak, t.child);
    LongNode(keccak, t.child, p[k]);
    LongNode(keccak, t, 1);
  }

  /** Two accounts of the same state. */
  function TwoAccounts(keccak: Digest, a: Bytes, b: Bytes, k: nat, s: AccountState): World
    requires PartAfter(Nibbles(keccak(a)), Nibbles(keccak(b)), k)
  {
    World(Fork(Nibbles(keccak(a)), Nibbles(keccak(b)), k, StateEncoding(s)), map[a := s, b := s])
  }

  lemma ForkHolds(keccak: Digest, a: Bytes, b: Bytes, k: nat, value: Bytes)
    requires Digests32(keccak) && PartAfter(Nibbles(keccak(a)), Nibbles(keccak(b)), k)
    ensures HoldsExactly(keccak, Fork(Nibbles(keccak(a)), Nibbles(keccak(b)), k, value), map[a := value, b := value])
  {
    var p, q := Nibbles(keccak(a)), Nibbles(keccak(b));
    var values := map[a := value, b := value];
    ForkLookup(p, q, k, value, p);
    ForkLookup(p, q, k, value, q);
    forall path: Path | |path| == 64 && Lookup(Fork(p, q, k, value), path).Some?
      ensures exists key :: key in values && Nibbles(keccak(key)) == path
    {
      ForkLookup(p, q, k, value, path);
      assert a in values && b in values;
    }
  }

  lemma ForkStores(p: Path, q: Path, k: nat, value: Bytes)
    requires PartAfter(p, q, k) && !IsEmptyValue(value)
    ensures StoresNoEmptyValue(Fork(p, q, k, value))
  {
  }

  lemma TwoEncodings(a: Bytes, b: Bytes, s: AccountState)
    ensures StateEncodings(map[a := s, b := s]) == map[a := StateEncoding(s), b := StateEncoding(s)]
  {
  }

  lemma TwoCommitted(keccak: Digest, a: Bytes, b: Bytes, k: nat, s: AccountState)
    requires IsDigest(keccak) && PartAfter(Nibbles(keccak(a)), Nibbles(keccak(b)), k) && k > 0
    requires FieldsCommitted(keccak, s)
    ensures
      var world := TwoAccounts(keccak, a, b, k, s);
      Committed(keccak, RootHash(keccak, world.trie), world) && NothingInlined(keccak, world.trie)
  {
    var p, q, value := Nibbles(keccak(a)), Nibbles(keccak(b)), StateEncoding(s);
    AccountSize(s.nonce, s.balance, s.storageHash, s.codeHash);
    ForkShape(p, q, k, value);
    ForkSized(keccak, p, q, k, value);
    ForkNotInlined(keccak, p, q, k, value);
    ForkHolds(keccak, a, b, k, value);
    TwoEncodings(a, b, s);
  }

  /** The root node alone, sent as the proof that an account is empty. */
  function RootOnly(keccak: Digest, t: Trie): Answer {
    Answer(Some(ProofResponse([EncodeNode(keccak, t)], 0, 0, EMPTY_CODE_HASH, EMPTY_STORAGE_HASH, [])), None)
  }

  const EMPTY_ACCOUNT := Account(0, 0, [], EMPTY_CODE_HASH, EMPTY_STORAGE_HASH, map[])

  lemma RootAccepted(keccak: Digest, t: Trie, address: Bytes)
    requires Digests32(keccak) && WellFormed(keccak, t, 64) && t.Extension? && t.path <= Nibbles(keccak(address))
    ensures
      var answer := RootOnly(keccak, t);
      && ProvedAccount(keccak, RootHash(keccak, t), address, answer) == Success(EMPTY_ACCOUNT)
      && EndsOpen(answer.proof.value.accountProof, Nibbles(keccak(address)))
  {
    LoneExtension(keccak, t, Nibbles(keccak(address)), EncodeAccount(0, 0, EMPTY_STORAGE_HASH, EMPTY_CODE_HASH));
  }

  /** For every hash, any two addresses whose digests share their first nibbles and
      any account that is not empty: in the state in which both have it, the root
      node alone is accepted as a proof that the first is empty. */
  lemma OpenExtensionExample(keccak: Digest, a: Bytes, b: Bytes, k: nat, s: AccountState)
    requires IsDigest(keccak) && PartAfter(Nibbles(keccak(a)), Nibbles(keccak(b)), k) && k > 0
    requires FieldsCommitted(keccak, s) && !IsEmptyValue(StateEncoding(s))
    ensures
      var world := TwoAccounts(keccak, a, b, k, s);
      var root, answer := RootHash(keccak, world.trie), RootOnly(keccak, world.trie);
      && Committed(keccak, root, world) && NothingInlined(keccak, world.trie) && StoresNoEmptyValue(world.trie)
      && AccountAt(world, a) == s
      && ProvedAccount(keccak, root, a, answer) == Success(EMPTY_ACCOUNT)
      && EndsOpen(answer.proof.value.accountProof, Nibbles(keccak(a)))
  {
    TwoCommitted(keccak, a, b, k, s);
    ForkStores(Nibbles(keccak(a)), Nibbles(keccak(b)), k, StateEncoding(s));
    RootAccepted(keccak, TwoAccounts(keccak, a, b, k, s).trie, a);
  }

  /** There is such an account: nonce 1 and nothing else. */
  lemma NotEmptyExists(keccak: Digest)
    requires IsDigest(keccak)
    ensures
      var s := NO_ACCOUNT.(nonce := 1);
      FieldsCommitted(keccak, s) && !IsEmptyValue(StateEncoding(s))
  {
    ZeroInRange(1, 0);
    NoStorageCommitted(keccak, NO_ACCOUNT.(nonce := 1));
    if IsEmptyValue(StateEncoding(NO_ACCOUNT.(nonce := 1))) {
      EmptyAccount(1, 0, EMPTY_STORAGE_HASH, EMPTY_CODE_HASH);
    }
  }
}
