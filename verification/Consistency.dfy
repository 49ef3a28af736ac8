/** The assumptions on the chain can be met together, and messages on which client
    and specification part. */
module ChainConsistency {
  import opened Results
  import opened Ssz
  import opened LightClient
  import opened LightClientSafety
  import opened SyncProgress
  import opened RunHistory
  import Altair

  /** A state tree with the two committees and the root of what is final, which at
      genesis is a zero chunk. */
  function StateTree(current: SyncCommittee, next: SyncCommittee, final: Node): Node {
    var finality := Parent(Parent(ZERO_NODE, final), ZERO_NODE);
    var committees := Parent(CommitteeRoot(current), CommitteeRoot(next));
    Parent(ZERO_NODE, Parent(Parent(ZERO_NODE, Parent(finality, committees)), ZERO_NODE))
  }

  lemma StateNodes(current: SyncCommittee, next: SyncCommittee, final: Node)
    ensures
      var root := StateTree(current, next, final);
      && NodeAt(root, 5, 22) == Some(CommitteeRoot(current))
      && NodeAt(root, 5, 23) == Some(CommitteeRoot(next))
      && NodeAt(root, 6, 41) == Some(final)
  {
    assert Pow2(0) == 1 && Pow2(1) == 2 && Pow2(2) == 4 && Pow2(3) == 8 && Pow2(4) == 16 && Pow2(5) == 32;
    var root := StateTree(current, next, final);
    var middle := root.right.left.right;
    forall index | index == 22 || index == 23
      ensures NodeAt(root, 5, index) == Some(if index == 22 then CommitteeRoot(current) else CommitteeRoot(next))
    {
      assert NodeAt(root, 5, index) == NodeAt(root.right, 4, index) == NodeAt(root.right.left, 3, index);
      assert NodeAt(root.right.left, 3, index) == NodeAt(middle, 2, index) == NodeAt(middle.right, 1, index);
      assert NodeAt(CommitteeRoot(current), 0, index) == Some(CommitteeRoot(current));
      assert NodeAt(CommitteeRoot(next), 0, index) == Some(CommitteeRoot(next));
    }
    assert NodeAt(root, 6, 41) == NodeAt(root.right, 5, 41) == NodeAt(root.right.left, 4, 41);
    assert NodeAt(root.right.left, 4, 41) == NodeAt(middle, 3, 41) == NodeAt(middle.left, 2, 41);
    assert NodeAt(middle.left, 2, 41) == NodeAt(middle.left.left, 1, 41) == NodeAt(final, 0, 41);
  }

  /** Two headers, the second of which finalizes the first. */
  function FirstHeader(c: SyncCommittee): Header {
    Header(1, 0, ZERO_NODE, StateTree(c, c, ZERO_NODE), ZERO_NODE)
  }

  function SecondHeader(c: SyncCommittee): Header {
    Header(2, 0, ZERO_NODE, StateTree(c, c, HeaderRoot(FirstHeader(c))), ZERO_NODE)
  }

  /** The chain of these two, with one committee for ever. */
  function TwoHeaders(c: SyncCommittee): Chain {
    Chain(header => header == FirstHeader(c) || header == SecondHeader(c), _ => c)
  }

  /** Only the two headers are ever signed. */
  function TwoSigned(c: SyncCommittee): SignatureCheck {
    (keys, header, signature, slot) => TwoHeaders(c).canon(header)
  }

  /** All assumptions on the chain can be met together. */
  lemma HonestChainExists(c: SyncCommittee)
    requires c != NoCommittee()
    ensures Honest(TwoHeaders(c), TwoSigned(c)) && Trusted(TwoHeaders(c), HeaderRoot(FirstHeader(c)))
    ensures FinalizesOlder(TwoHeaders(c)) && Altair.Real(TwoHeaders(c))
  {
    StateNodes(c, c, ZERO_NODE);
    StateNodes(c, c, HeaderRoot(FirstHeader(c)));
    FinalizedIsFirst(c);
    assert TwoHeaders(c).canon(FirstHeader(c));
  }

  /** All that the two headers finalize is the first. */
  lemma FinalizedIsFirst(c: SyncCommittee)
    ensures forall h, f ::
              TwoHeaders(c).canon(h) && NodeAt(h.stateRoot, 6, 41) == Some(HeaderRoot(f)) ==>
                h == SecondHeader(c) && f == FirstHeader(c)
  {
    StateNodes(c, c, ZERO_NODE);
    StateNodes(c, c, HeaderRoot(FirstHeader(c)));
  }

  function AllSign(): SyncAggregate {
    SyncAggregate(Copies(true, COMMITTEE_SIZE), [])
  }

  function OneSigns(): SyncAggregate {
    SyncAggregate(Copies(false, COMMITTEE_SIZE - 1) + [true], [])
  }

  lemma {:induction false} CountCopies(bit: bool, n: nat)
    ensures CountBits(Copies(bit, n)) == if bit then n else 0
  {
    if n > 0 {
      assert Copies(bit, n)[..n - 1] == Copies(bit, n - 1);
      CountCopies(bit, n - 1);
    }
  }

  lemma CountOne()
    ensures CountBits(OneSigns().bits) == 1
  {
    var others := Copies(false, COMMITTEE_SIZE - 1);
    assert (others + [true])[..COMMITTEE_SIZE - 1] == others;
    CountCopies(false, COMMITTEE_SIZE - 1);
  }

  lemma BranchExists(leaf: Node, depth: nat, index: nat, root: Node) returns (branch: seq<Node>)
    requires NodeAt(root, depth, index) == Some(leaf)
    ensures IsValidMerkleBranch(leaf, branch, depth, index, root)
    ensures branch == Siblings(root, depth, index)
  {
    branch := Siblings(root, depth, index);
    assert branch[..depth] == branch;
    MerkleBranchExact(leaf, branch, depth, index, root);
  }

  /** A client of this chain, its checkpoint the first header. */
  function TwoSetup(c: SyncCommittee): Setup {
    Setup(Config(0, 100, true), HeaderRoot(FirstHeader(c)), TwoSigned(c))
  }

  /** Everything that SyncProgress and WholeSync require can be met, by a bootstrap,
      one honest full update and two updates of the head. */
  lemma HonestSyncExists(c: SyncCommittee) returns (boot: Event, update: Event, finality: Event, optimistic: Event)
    requires c != NoCommittee()
    ensures Honest(TwoHeaders(c), TwoSetup(c).signed) && Trusted(TwoHeaders(c), TwoSetup(c).initialCheckpoint)
    ensures HonestSync(TwoHeaders(c), TwoSetup(c), boot, [update], finality, optimistic, 0, 1)
  {
    HonestChainExists(c);
    boot := HonestBoot(c);
    update := HonestUpdate(c);
    finality := HonestFinality(c);
    optimistic := HonestOptimistic(c);
  }

  lemma HonestFinality(c: SyncCommittee) returns (e: Event)
    ensures HonestHead(TwoHeaders(c), TwoSetup(c), e, 0, 1) && e.update.FinalityUpdate? && FinalizesBelow([e], 1)
  {
    var first, second := FirstHeader(c), SecondHeader(c);
    StateNodes(c, c, HeaderRoot(first));
    var branch := BranchExists(HeaderRoot(first), 6, 41, second.stateRoot);
    e := Deliver(FinalityUpdate(second, first, branch, AllSign(), 3), 36);
    SecondSigned(c, c, ToGeneric(e.update));
  }

  lemma HonestOptimistic(c: SyncCommittee) returns (e: Event)
    ensures HonestHead(TwoHeaders(c), TwoSetup(c), e, 0, 1) && e.update.OptimisticUpdate?
  {
    e := Deliver(OptimisticUpdate(SecondHeader(c), AllSign(), 3), 36);
    SecondSigned(c, c, ToGeneric(e.update));
  }

  lemma HonestBoot(c: SyncCommittee) returns (e: Event)
    ensures AfterGenesis(TwoSetup(c), e) && e.Boot? && e.bootstrap.header.slot == 1
    ensures CheckBootstrap(TwoSetup(c), e.bootstrap, e.now).Success?
  {
    var first := FirstHeader(c);
    StateNodes(c, c, ZERO_NODE);
    var branch := BranchExists(CommitteeRoot(c), 5, 22, first.stateRoot);
    e := Boot(Bootstrap(first, c, branch), 36);
    CheckpointAge(TwoSetup(c).config, 1, 36);
  }

  lemma HonestUpdate(c: SyncCommittee) returns (e: Event)
    ensures HonestFull(TwoHeaders(c), TwoSetup(c), e, 0)
    ensures AllAfterGenesis(TwoSetup(c), [e]) && HonestRun(TwoHeaders(c), TwoSetup(c), [e], 0)
    ensures FinalizesBelow([e], 1)
  {
    var first, second := FirstHeader(c), SecondHeader(c);
    StateNodes(c, c, HeaderRoot(first));
    var nextBranch := BranchExists(CommitteeRoot(c), 5, 23, second.stateRoot);
    var finalityBranch := BranchExists(HeaderRoot(first), 6, 41, second.stateRoot);
    e := Deliver(FullUpdate(second, c, nextBranch, first, finalityBranch, AllSign(), 3), 36);
    CountCopies(true, COMMITTEE_SIZE);
    assert [e][0] == e && [e][1..] == [];
    assert HonestRun(TwoHeaders(c), TwoSetup(c), [], 1);
  }

  lemma SiblingBelow(root: Node, depth: nat, index: nat, k: nat)
    requires k + 1 < depth && NodeAt(root, depth, index).Some?
    ensures
      var below := if GoesRight(index, depth - 1) then root.right else root.left;
      NodeAt(below, depth - 1, index).Some?
      && Siblings(root, depth, index)[k] == Siblings(below, depth - 1, index)[k]
  {
  }

  /** The siblings on the way to the next committee and to what is final include
      the current committee and both committees. */
  lemma NextNotZeros(current: SyncCommittee, next: SyncCommittee, final: Node)
    requires NodeAt(StateTree(current, next, final), 5, 23).Some?
    ensures Siblings(StateTree(current, next, final), 5, 23) != Altair.NoBranch(5)
  {
    assert Pow2(0) == 1 && Pow2(1) == 2 && Pow2(2) == 4 && Pow2(3) == 8 && Pow2(4) == 16;
    var root := StateTree(current, next, final);
    SiblingBelow(root, 5, 23, 0);
    SiblingBelow(root.right, 4, 23, 0);
    SiblingBelow(root.right.left, 3, 23, 0);
    SiblingBelow(root.right.left.right, 2, 23, 0);
    assert Altair.NoBranch(5)[0] == ZERO_NODE;
  }

  lemma FinalityNotZeros(current: SyncCommittee, next: SyncCommittee, final: Node)
    requires NodeAt(StateTree(current, next, final), 6, 41).Some?
    ensures Siblings(StateTree(current, next, final), 6, 41) != Altair.NoBranch(6)
  {
    assert Pow2(0) == 1 && Pow2(1) == 2 && Pow2(2) == 4 && Pow2(3) == 8 && Pow2(4) == 16 && Pow2(5) == 32;
    var root := StateTree(current, next, final);
    SiblingBelow(root, 6, 41, 2);
    SiblingBelow(root.right, 5, 41, 2);
    SiblingBelow(root.right.left, 4, 41, 2);
    assert Altair.NoBranch(6)[2] == ZERO_NODE;
  }

  /** Whoever is asked, the second header counts as signed by all. */
  lemma SecondSigned(c: SyncCommittee, asked: SyncCommittee, u: GenericUpdate)
    requires u.attestedHeader == SecondHeader(c) && u.syncAggregate == AllSign()
    ensures ValidSignature(TwoSigned(c), asked, u) && HasMajority(u)
  {
    CountCopies(true, COMMITTEE_SIZE);
    assert TwoHeaders(c).canon(u.attestedHeader);
    assert TwoSigned(c)(ParticipatingKeys(asked.pubkeys, u.syncAggregate.bits), u.attestedHeader,
                        u.syncAggregate.signature, u.signatureSlot);
  }

  /*** Client and specification part both ways ***/

  /** A full update without finality, as the specification writes it: the default
      header and a branch of zeros. The specification validates it; the client takes
      both for given and refuses them. */
  lemma RefusedWithoutFinality(c: SyncCommittee) returns (s: LightClientStore, u: Update)
    requires c != NoCommittee()
    ensures u.FullUpdate? && u.finalizedHeader == DEFAULT_HEADER && u.finalityBranch == Altair.NoBranch(6)
    ensures Safe(TwoHeaders(c), s) && TwoHeaders(c).canon(u.attestedHeader) && HasMajority(ToGeneric(u))
    ensures Altair.Validate(Altair.ToStore(s), Altair.ToUpdate(ToGeneric(u)), 3, TwoSigned(c))
    ensures Verify(s, TwoSigned(c), ToGeneric(u), 3) == Failure(InvalidFinalityProof)
  {
    var first, second := FirstHeader(c), SecondHeader(c);
    StateNodes(c, c, HeaderRoot(first));
    var nextBranch := BranchExists(CommitteeRoot(c), 5, 23, second.stateRoot);
    NextNotZeros(c, c, HeaderRoot(first));
    s := LightClientStore(first, c, None, first, 0, 0);
    u := FullUpdate(second, c, nextBranch, DEFAULT_HEADER, Altair.NoBranch(6), AllSign(), 3);
    SecondSigned(c, c, ToGeneric(u));
    WithoutFinality(s, TwoSigned(c), u);
  }

  lemma WithoutFinality(s: LightClientStore, signed: SignatureCheck, u: Update)
    requires s.finalizedHeader.slot == 1 && s.nextSyncCommittee.None?
    requires u.FullUpdate? && u.attestedHeader.slot == 2 && u.signatureSlot == 3
    requires u.finalizedHeader == DEFAULT_HEADER && u.finalityBranch == Altair.NoBranch(6)
    requires NodeAt(u.attestedHeader.stateRoot, 6, 41) != Some(HeaderRoot(DEFAULT_HEADER))
    requires u.nextSyncCommitteeBranch != Altair.NoBranch(5)
    requires IsNextCommitteeProofValid(u.attestedHeader, u.nextSyncCommittee, u.nextSyncCommitteeBranch)
    requires CountBits(u.syncAggregate.bits) > 0 && ValidSignature(signed, s.currentSyncCommittee, ToGeneric(u))
    ensures Altair.Validate(Altair.ToStore(s), Altair.ToUpdate(ToGeneric(u)), 3, signed)
    ensures Verify(s, signed, ToGeneric(u), 3) == Failure(InvalidFinalityProof)
  {
    MerkleBranchExact(HeaderRoot(DEFAULT_HEADER), u.finalityBranch, 6, 41, u.attestedHeader.stateRoot);
  }

  /** A header of the second slot that is not canonical, with another next
      committee. */
  function OtherHeader(c: SyncCommittee, other: SyncCommittee): Header {
    Header(2, 0, ZERO_NODE, StateTree(c, other, HeaderRoot(FirstHeader(c))), ZERO_NODE)
  }

  /** Here also that header is signed, by less than a quorum. */
  function MinoritySigned(c: SyncCommittee, other: SyncCommittee): SignatureCheck {
    (keys: seq<PublicKey>, header, signature, slot) =>
      TwoHeaders(c).canon(header) || (|keys| < 342 && header == OtherHeader(c, other))
  }

  lemma HonestMinority(c: SyncCommittee, other: SyncCommittee)
    requires c != NoCommittee()
    ensures Honest(TwoHeaders(c), MinoritySigned(c, other))
  {
    HonestChainExists(c);
    forall h: Header, bits: Bits, signature: Signature, slot: nat |
      && CountBits(bits) * 3 >= 512 * 2
      && MinoritySigned(c, other)(ParticipatingKeys(c.pubkeys, bits), h, signature, slot)
      ensures TwoHeaders(c).canon(h)
    {
      CountIsKeys(c.pubkeys, bits);
    }
  }

  /** An update of one signer with another next committee than the known one. The
      client, in a safe store, verifies it; the specification refuses it. */
  lemma AcceptedOtherCommittee(c: SyncCommittee, other: SyncCommittee) returns (s: LightClientStore, u: Update)
    requires c != other && c != NoCommittee()
    ensures Honest(TwoHeaders(c), MinoritySigned(c, other)) && Safe(TwoHeaders(c), s)
    ensures s.nextSyncCommittee == Some(c) && u.FullUpdate? && u.nextSyncCommittee == other
    ensures Altair.Plain(ToGeneric(u))
    ensures Verify(s, MinoritySigned(c, other), ToGeneric(u), 3).Success?
    ensures !Altair.Validate(Altair.ToStore(s), Altair.ToUpdate(ToGeneric(u)), 3, MinoritySigned(c, other))
  {
    HonestMinority(c, other);
    var first, third := FirstHeader(c), OtherHeader(c, other);
    StateNodes(c, other, HeaderRoot(first));
    var nextBranch := BranchExists(CommitteeRoot(other), 5, 23, third.stateRoot);
    var finalityBranch := BranchExists(HeaderRoot(first), 6, 41, third.stateRoot);
    NextNotZeros(c, other, HeaderRoot(first));
    FinalityNotZeros(c, other, HeaderRoot(first));
    s := LightClientStore(first, c, Some(c), first, 0, 0);
    u := FullUpdate(third, other, nextBranch, first, finalityBranch, OneSigns(), 3);
    MinorityUpdate(c, other, ToGeneric(u));
    OtherCommittee(s, MinoritySigned(c, other), u);
  }

  lemma MinorityUpdate(c: SyncCommittee, other: SyncCommittee, u: GenericUpdate)
    requires u.attestedHeader == OtherHeader(c, other) && u.syncAggregate == OneSigns()
    ensures Participants(u) == 1 && ValidSignature(MinoritySigned(c, other), c, u)
  {
    CountOne();
    CountIsKeys(c.pubkeys, u.syncAggregate.bits);
    assert MinoritySigned(c, other)(ParticipatingKeys(c.pubkeys, u.syncAggregate.bits), u.attestedHeader,
                                    u.syncAggregate.signature, u.signatureSlot);
  }

  lemma OtherCommittee(s: LightClientStore, signed: SignatureCheck, u: Update)
    requires s.finalizedHeader.slot == 1 && s.nextSyncCommittee.Some?
    requires u.FullUpdate? && u.attestedHeader.slot == 2 && u.signatureSlot == 3
    requires s.nextSyncCommittee.value != u.nextSyncCommittee && s.nextSyncCommittee.value != NoCommittee()
    requires u.finalizedHeader.slot == 1 && u.finalityBranch != Altair.NoBranch(6)
    requires IsFinalityProofValid(u.attestedHeader, u.finalizedHeader, u.finalityBranch)
    requires u.nextSyncCommitteeBranch != Altair.NoBranch(5)
    requires IsNextCommitteeProofValid(u.attestedHeader, u.nextSyncCommittee, u.nextSyncCommitteeBranch)
    requires CountBits(u.syncAggregate.bits) > 0 && ValidSignature(signed, s.currentSyncCommittee, ToGeneric(u))
    ensures Altair.Plain(ToGeneric(u)) && Verify(s, signed, ToGeneric(u), 3).Success?
    ensures !Altair.Validate(Altair.ToStore(s), Altair.ToUpdate(ToGeneric(u)), 3, signed)
  {
    Altair.ValidateExact(s, signed, ToGeneric(u), 3);
  }
}

/** The assumptions on state, proofs and hash can be met, for every hash of the
    right width, by an answer that the client accepts. */
module StateConsistency {
  import opened Results
  import opened Rlp
  import opened HexPrefix
  import opened Trie
  import opened Proof
  import opened Accounts
  import opened OpenExtension

  /** A state of one account. */
  function LoneWorld(keccak: Digest, address: Bytes, s: AccountState): World {
    World(Leaf(Nibbles(keccak(address)), StateEncoding(s)), map[address := s])
  }

  lemma LoneCommitted(keccak: Digest, address: Bytes, s: AccountState)
    requires IsDigest(keccak) && FieldsCommitted(keccak, s)
    ensures
      var world := LoneWorld(keccak, address, s);
      Committed(keccak, RootHash(keccak, world.trie), world)
  {
    var world := LoneWorld(keccak, address, s);
    AccountSize(s.nonce, s.balance, s.storageHash, s.codeHash);
    StringsEncodable(NodeItems(keccak, world.trie));
    assert address in StateEncodings(world.accounts);
  }

  lemma LoneBinds(keccak: Digest, address: Bytes, s: AccountState)
    requires Digests32(keccak) && FieldsCommitted(keccak, s)
    ensures NoCollision(keccak, LoneWorld(keccak, address, s).trie, {address}, address)
  {
    var t := LoneWorld(keccak, address, s).trie;
    AccountSize(s.nonce, s.balance, s.storageHash, s.codeHash);
    assert |keccak(EncodeNode(keccak, t))| == 32;
    assert Binds(keccak, t, EncodeNode(keccak, t));
  }

  /** For every hash, every address and every account that is not empty: a committed
      state and an answer of which everything that is assumed holds, and which the
      client accepts. */
  lemma AcceptedAnswerExists(keccak: Digest, address: Bytes, s: AccountState)
    requires IsDigest(keccak) && FieldsCommitted(keccak, s) && !IsEmptyValue(StateEncoding(s))
    ensures
      var world := LoneWorld(keccak, address, s);
      var root, answer := RootHash(keccak, world.trie), HonestAnswer(keccak, world, address, []);
      && Committed(keccak, root, world)
      && SoundAnswer(keccak, world, address, answer)
      && ProvedAccount(keccak, root, address, answer).Success?
  {
    var world := LoneWorld(keccak, address, s);
    LoneCommitted(keccak, address, s);
    LoneBinds(keccak, address, s);
    HonestAccountAccepted(keccak, RootHash(keccak, world.trie), world, address, []);
  }

  /** A hash that tells apart the inputs that matter here. */
  function ToyHash(b: Bytes): (h: Bytes)
    ensures |h| == 32
  {
    if b == [] then EMPTY_CODE_HASH
    else if b == [0x80] then EMPTY_STORAGE_HASH
    else if b == [1] then Copies(1, 32)
    else Copies(2, 32)
  }

  /** Digests that differ only in the second nibble of each byte. */
  lemma ToyPaths(a: Bytes, b: Bytes)
    requires |a| == |b| == 32 && a[0] == 1 && b[0] == 2
    ensures PartAfter(Nibbles(a), Nibbles(b), 1)
  {
    var p, q := Nibbles(a), Nibbles(b);
    assert p[0] == 0 && q[0] == 0 && p[1] == 1 && q[1] == 2;
    assert p[..1] == [p[0]] && q[..1] == [q[0]];
  }

  /** And there are such a hash and such an account, and two inputs whose digests
      share exactly their first nibble. */
  lemma DigestExists()
    ensures IsDigest(ToyHash) && PartAfter(Nibbles(ToyHash([1])), Nibbles(ToyHash([2])), 1)
    ensures
      var s := NO_ACCOUNT.(nonce := 1);
      FieldsCommitted(ToyHash, s) && !IsEmptyValue(StateEncoding(s))
  {
    NotEmptyExists(ToyHash);
    ToyPaths(ToyHash([1]), ToyHash([2]));
  }
}
