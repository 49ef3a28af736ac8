/** Account fetching: what a server answers is checked against the state root. */
module Accounts {
  import opened Results
  import opened Rlp
  import opened HexPrefix
  import opened Trie
  import opened Proof
  import opened ProofTheorems

  datatype StorageProof = StorageProof(key: Bytes, value: nat, proof: seq<Bytes>)

  datatype ProofResponse = ProofResponse(
    accountProof: seq<Bytes>,
    balance: nat,
    nonce: nat,
    codeHash: Bytes,
    storageHash: Bytes,
    storageProof: seq<StorageProof>)

  datatype Account = Account(
    balance: nat,
    nonce: nat,
    code: Bytes,
    codeHash: Bytes,
    storageHash: Bytes,
    slots: map<Bytes, nat>)

  /** What the server answers to one account request. */
  datatype Answer = Answer(proof: Option<ProofResponse>, code: Option<Bytes>)

  /** `ProofAborted` stands for a proof on which the verifier gives no answer. */
  datatype AccountError =
    | RpcError
    | InvalidAccountProof
    | InvalidStorageProof(key: Bytes)
    | CodeHashMismatch
    | ProofAborted
    | SlotNotFound

  function EncodeUint(value: nat): Bytes {
    Encode(Str(ToBigEndian(value)))
  }

  function AccountVerdict(keccak: Digest, stateRoot: Bytes, address: Bytes, p: ProofResponse): Verdict {
    Check(keccak, p.accountProof, stateRoot, Nibbles(keccak(address)),
          EncodeAccount(p.nonce, p.balance, p.storageHash, p.codeHash))
  }

  function SlotVerdict(keccak: Digest, storageHash: Bytes, s: StorageProof): Verdict {
    Check(keccak, s.proof, storageHash, Nibbles(keccak(s.key)), EncodeUint(s.value))
  }

  /** The proved slots, or the first storage proof that fails. */
  function ProvedSlots(keccak: Digest, storageHash: Bytes, proofs: seq<StorageProof>)
    : Result<map<Bytes, nat>, AccountError>
  {
    if proofs == [] then Success(map[])
    else
      var last := proofs[|proofs| - 1];
      match ProvedSlots(keccak, storageHash, proofs[..|proofs| - 1])
      case Failure(e) => Failure(e)
      case Success(slots) =>
        match SlotVerdict(keccak, storageHash, last)
        case Accepted => Success(slots[last.key := last.value])
        case Rejected => Failure(InvalidStorageProof(last.key))
        case Aborted => Failure(ProofAborted)
  }

  function ProvedCode(keccak: Digest, codeHash: Bytes, code: Option<Bytes>): Result<Bytes, AccountError> {
    if codeHash == EMPTY_CODE_HASH then Success([])
    else if code.None? then Failure(RpcError)
    else if codeHash != keccak(code.value) then Failure(CodeHashMismatch)
    else Success(code.value)
  }

  /** The account that an answer proves, with the order of the checks. */
  function ProvedAccount(keccak: Digest, stateRoot: Bytes, address: Bytes, answer: Answer)
    : Result<Account, AccountError>
  {
    if answer.proof.None? then Failure(RpcError)
    else
      var p := answer.proof.value;
      match AccountVerdict(keccak, stateRoot, address, p)
      case Rejected => Failure(InvalidAccountProof)
      case Aborted => Failure(ProofAborted)
      case Accepted =>
        match ProvedSlots(keccak, p.storageHash, p.storageProof)
        case Failure(e) => Failure(e)
        case Success(slots) =>
          match ProvedCode(keccak, p.codeHash, answer.code)
          case Failure(e) => Failure(e)
          case Success(code) => Success(Account(p.balance, p.nonce, code, p.codeHash, p.storageHash, slots))
  }

  method GetAccount(keccak: Digest, stateRoot: Bytes, address: Bytes, answer: Answer)
    returns (r: Result<Account, AccountError>)
    ensures r == ProvedAccount(keccak, stateRoot, address, answer)
  {
    if answer.proof.None? {
      return Failure(RpcError);
    }
    var p := answer.proof.value;
    var encoded := EncodeAccount(p.nonce, p.balance, p.storageHash, p.codeHash);
    var verdict := VerifyProof(keccak, p.accountProof, stateRoot, keccak(address), encoded);
    if verdict.Aborted? {
      return Failure(ProofAborted);
    }
    if verdict.Rejected? {
      return Failure(InvalidAccountProof);
    }
    var slots: map<Bytes, nat> := map[];
    for i := 0 to |p.storageProof|
      invariant ProvedSlots(keccak, p.storageHash, p.storageProof[..i]) == Success(slots)
    {
      var s := p.storageProof[i];
      assert p.storageProof[..i + 1][..i] == p.storageProof[..i];
      verdict := VerifyProof(keccak, s.proof, p.storageHash, keccak(s.key), EncodeUint(s.value));
      if !verdict.Accepted? {
        FirstFailure(keccak, p.storageHash, p.storageProof, i + 1);
        return Failure(if verdict.Aborted? then ProofAborted else InvalidStorageProof(s.key));
      }
      slots := slots[s.key := s.value];
    }
    assert p.storageProof[..|p.storageProof|] == p.storageProof;
    var code: Bytes := [];
    if p.codeHash != EMPTY_CODE_HASH {
      if answer.code.None? {
        return Failure(RpcError);
      }
      code := answer.code.value;
      if p.codeHash != keccak(code) {
        return Failure(CodeHashMismatch);
      }
    }
    return Success(Account(p.balance, p.nonce, code, p.codeHash, p.storageHash, slots));
  }

  /** The keys that come with proofs. */
  function SlotKeys(proofs: seq<StorageProof>): set<Bytes> {
    set i | 0 <= i < |proofs| :: proofs[i].key
  }

  /** Proved are exactly the slots that came with proofs. */
  lemma {:induction false} SlotsOfProofs(keccak: Digest, storageHash: Bytes, proofs: seq<StorageProof>)
    requires ProvedSlots(keccak, storageHash, proofs).Success?
    ensures ProvedSlots(keccak, storageHash, proofs).value.Keys == SlotKeys(proofs)
  {
    if proofs != [] {
      var n := |proofs| - 1;
      SlotsOfProofs(keccak, storageHash, proofs[..n]);
      MoreKeys(proofs);
    }
  }

  lemma MoreKeys(proofs: seq<StorageProof>)
    requires proofs != []
    ensures SlotKeys(proofs) == SlotKeys(proofs[..|proofs| - 1]) + {proofs[|proofs| - 1].key}
  {
    var n := |proofs| - 1;
    forall i | 0 <= i < n
      ensures proofs[i].key in SlotKeys(proofs[..n])
    {
      assert proofs[..n][i] == proofs[i];
    }
  }

  function SlotVerdicts(keccak: Digest, storageHash: Bytes, proofs: seq<StorageProof>): (v: seq<Verdict>)
    ensures |v| == |proofs|
  {
    seq(|proofs|, i requires 0 <= i < |proofs| => SlotVerdict(keccak, storageHash, proofs[i]))
  }

  /** The slots that given verdicts prove. */
  function SlotsOf(proofs: seq<StorageProof>, v: seq<Verdict>): Result<map<Bytes, nat>, AccountError>
    requires |v| == |proofs|
  {
    if proofs == [] then Success(map[])
    else
      var n := |proofs| - 1;
      match SlotsOf(proofs[..n], v[..n])
      case Failure(e) => Failure(e)
      case Success(slots) =>
        if v[n] == Accepted then Success(slots[proofs[n].key := proofs[n].value])
        else Failure(if v[n] == Aborted then ProofAborted else InvalidStorageProof(proofs[n].key))
  }

  lemma {:induction false} ProvedByVerdicts(keccak: Digest, storageHash: Bytes, proofs: seq<StorageProof>)
    ensures ProvedSlots(keccak, storageHash, proofs) == SlotsOf(proofs, SlotVerdicts(keccak, storageHash, proofs))
    decreases |proofs|
  {
    if proofs != [] {
      var n := |proofs| - 1;
      ProvedByVerdicts(keccak, storageHash, proofs[..n]);
      assert SlotVerdicts(keccak, storageHash, proofs[..n]) == SlotVerdicts(keccak, storageHash, proofs)[..n];
    }
  }

  lemma {:induction false} FirstRefused(proofs: seq<StorageProof>, v: seq<Verdict>, n: nat)
    requires |v| == |proofs| && n <= |v|
    requires (forall i :: 0 <= i < n ==> v[i] == Accepted) && (n < |v| ==> v[n] != Accepted)
    ensures n == |v| ==> SlotsOf(proofs, v).Success?
    ensures n < |v| ==>
              SlotsOf(proofs, v)
              == Failure(if v[n] == Aborted then ProofAborted else InvalidStorageProof(proofs[n].key))
    decreases |proofs|
  {
    if proofs != [] {
      var last := |proofs| - 1;
      FirstRefused(proofs[..last], v[..last], if n <= last then n else last);
    }
  }

  /** The error is that of the first storage proof that is not accepted. */
  lemma SlotsReported(keccak: Digest, storageHash: Bytes, proofs: seq<StorageProof>, n: nat)
    requires n <= |proofs|
    requires
      var v := SlotVerdicts(keccak, storageHash, proofs);
      (forall i :: 0 <= i < n ==> v[i] == Accepted) && (n < |proofs| ==> v[n] != Accepted)
    ensures n == |proofs| ==> ProvedSlots(keccak, storageHash, proofs).Success?
    ensures n < |proofs| ==>
              ProvedSlots(keccak, storageHash, proofs)
              == Failure(if SlotVerdicts(keccak, storageHash, proofs)[n] == Aborted then ProofAborted
                         else InvalidStorageProof(proofs[n].key))
  {
    ProvedByVerdicts(keccak, storageHash, proofs);
    FirstRefused(proofs, SlotVerdicts(keccak, storageHash, proofs), n);
  }

  /** A failure among the first proofs is the failure of all. */
  lemma {:induction false} FirstFailure(keccak: Digest, storageHash: Bytes, proofs: seq<StorageProof>, n: nat)
    requires n <= |proofs| && ProvedSlots(keccak, storageHash, proofs[..n]).Failure?
    ensures ProvedSlots(keccak, storageHash, proofs) == ProvedSlots(keccak, storageHash, proofs[..n])
  {
    if n < |proofs| {
      var most := proofs[..|proofs| - 1];
      assert most[..n] == proofs[..n];
      FirstFailure(keccak, storageHash, most, n);
    } else {
      assert proofs[..n] == proofs;
    }
  }

  /*** The state behind the root ***/

  /** An account as it really is, with the trie of its storage. */
  datatype AccountState = AccountState(
    nonce: nat,
    balance: nat,
    storageHash: Bytes,
    codeHash: Bytes,
    code: Bytes,
    storage: map<Bytes, nat>,
    storageTrie: Trie)

  /** What an address without an account counts as. */
  const NO_ACCOUNT := AccountState(0, 0, EMPTY_STORAGE_HASH, EMPTY_CODE_HASH, [], map[], Empty)

  datatype World = World(trie: Trie, accounts: map<Bytes, AccountState>)

  function AccountAt(world: World, address: Bytes): AccountState {
    if address in world.accounts then world.accounts[address] else NO_ACCOUNT
  }

  function SlotAt(a: AccountState, key: Bytes): nat {
    if key in a.storage then a.storage[key] else 0
  }

  /** Numbers and digests have the widths the client's types give them. */
  predicate InRange(nonce: nat, balance: nat, storageHash: Bytes, codeHash: Bytes) {
    nonce < Pow256(8) && balance < Pow256(32) && |storageHash| == 32 && |codeHash| == 32
  }

  /** The trie holds exactly these values, each under the hash of its key. */
  ghost predicate HoldsExactly(keccak: Digest, t: Trie, values: map<Bytes, Bytes>) {
    && (forall key :: key in values ==> Lookup(t, Nibbles(keccak(key))) == Some(values[key]))
    && (forall path: Path :: |path| == 64 && Lookup(t, path).Some? ==>
          exists key :: key in values && Nibbles(keccak(key)) == path)
  }

  function Encodings(storage: map<Bytes, nat>): map<Bytes, Bytes> {
    map key | key in storage :: EncodeUint(storage[key])
  }

  /** The storage trie of an account holds its storage, in RLP. */
  ghost predicate StorageCommitted(keccak: Digest, a: AccountState) {
    && WellFormed(keccak, a.storageTrie, 64) && RootHash(keccak, a.storageTrie) == a.storageHash
    && (forall key :: key in a.storage ==> a.storage[key] < Pow256(32))
    && HoldsExactly(keccak, a.storageTrie, Encodings(a.storage))
  }

  /** An account's fields have the range of their encoding, and its code and its
      storage are what its hashes say. */
  ghost predicate FieldsCommitted(keccak: Digest, a: AccountState) {
    && InRange(a.nonce, a.balance, a.storageHash, a.codeHash)
    && keccak(a.code) == a.codeHash && (a.codeHash == EMPTY_CODE_HASH ==> a.code == [])
    && StorageCommitted(keccak, a)
  }

  function StateEncoding(a: AccountState): Bytes {
    EncodeAccount(a.nonce, a.balance, a.storageHash, a.codeHash)
  }

  function StateEncodings(accounts: map<Bytes, AccountState>): map<Bytes, Bytes> {
    map address | address in accounts :: StateEncoding(accounts[address])
  }

  /** All that is asked of the hash by itself: its width and the two digests in the
      code. */
  ghost predicate IsDigest(keccak: Digest) {
    Digests32(keccak) && keccak([]) == EMPTY_CODE_HASH && keccak([0x80]) == EMPTY_STORAGE_HASH
  }

  /** The state trie holds the accounts, in RLP. */
  ghost predicate Committed(keccak: Digest, stateRoot: Bytes, world: World) {
    && IsDigest(keccak)
    && WellFormed(keccak, world.trie, 64) && RootHash(keccak, world.trie) == stateRoot
    && HoldsExactly(keccak, world.trie, StateEncodings(world.accounts))
    && forall address :: address in world.accounts ==> FieldsCommitted(keccak, world.accounts[address])
  }

  /** The hash does not collide for this key and a stored one. */
  ghost predicate NoOther(keccak: Digest, stored: set<Bytes>, key: Bytes) {
    forall k :: k in stored && keccak(k) == keccak(key) ==> k == key
  }

  /** The assumptions on one proof: no hash collision between its nodes and the
      trie's, and if it is to show an empty value, it does not stop at an open
      extension. */
  ghost predicate Sound(keccak: Digest, t: Trie, proof: seq<Bytes>, key: Path, value: Bytes) {
    BindsAll(keccak, t, proof) && (IsEmptyValue(value) ==> !EndsOpen(proof, key))
  }

  /** The assumptions on a whole answer. */
  ghost predicate SoundAnswer(keccak: Digest, world: World, address: Bytes, answer: Answer) {
    var a := AccountAt(world, address);
    && (answer.proof.Some? ==>
          var p := answer.proof.value;
          && InRange(p.nonce, p.balance, p.storageHash, p.codeHash)
          && NoOther(keccak, world.accounts.Keys, address)
          && Sound(keccak, world.trie, p.accountProof, Nibbles(keccak(address)),
                   EncodeAccount(p.nonce, p.balance, p.storageHash, p.codeHash))
          && (forall i :: 0 <= i < |p.storageProof| ==>
                SoundSlot(keccak, a, p.storageProof[i])))
    && (answer.code.Some? && keccak(answer.code.value) == keccak(a.code) ==> answer.code.value == a.code)
  }

  ghost predicate SoundSlot(keccak: Digest, a: AccountState, s: StorageProof) {
    && s.value < Pow256(32) && NoOther(keccak, a.storage.Keys, s.key)
    && Sound(keccak, a.storageTrie, s.proof, Nibbles(keccak(s.key)), EncodeUint(s.value))
  }

  /** An account as fetched is the account as it is; its slots are the storage's,
      zero where nothing is stored. */
  ghost predicate Faithful(world: World, address: Bytes, fetched: Account) {
    var a := AccountAt(world, address);
    && fetched.balance == a.balance && fetched.nonce == a.nonce && fetched.codeHash == a.codeHash
    && fetched.storageHash == a.storageHash && fetched.code == a.code
    && forall key :: key in fetched.slots ==> fetched.slots[key] == SlotAt(a, key)
  }

  /*** From verdicts to the state ***/

  lemma NibblesInjective(a: Bytes, b: Bytes)
    requires Nibbles(a) == Nibbles(b)
    ensures a == b
  {
    assert 2 * |a| == |Nibbles(a)| == |Nibbles(b)| == 2 * |b|;
    forall i | 0 <= i < |a|
      ensures a[i] == b[i]
    {
      assert Nibbles(a)[2 * i] == a[i] / 16 && Nibbles(a)[2 * i + 1] == a[i] % 16;
      assert Nibbles(b)[2 * i] == b[i] / 16 && Nibbles(b)[2 * i + 1] == b[i] % 16;
    }
  }

  /** What a lookup finds for a key whose hash is no other key's. */
  lemma LookupExact(keccak: Digest, t: Trie, values: map<Bytes, Bytes>, key: Bytes)
    requires Digests32(keccak) && HoldsExactly(keccak, t, values) && NoOther(keccak, values.Keys, key)
    ensures Lookup(t, Nibbles(keccak(key))) == if key in values then Some(values[key]) else None
  {
    var path := Nibbles(keccak(key));
    if key !in values && Lookup(t, path).Some? {
      var other :| other in values && Nibbles(keccak(other)) == path;
      NibblesInjective(keccak(other), keccak(key));
      assert false;
    }
  }

  /** An accepted value is what is stored, or stands for nothing where nothing is
      stored. */
  lemma AcceptedMeans(keccak: Digest, t: Trie, proof: seq<Bytes>, key: Path, value: Bytes)
    requires Digests32(keccak) && WellFormed(keccak, t, |key|) && Sound(keccak, t, proof, key, value)
    requires Check(keccak, proof, RootHash(keccak, t), key, value) == Accepted
    ensures Lookup(t, key) == Some(value) || (Lookup(t, key) == None && IsEmptyValue(value))
  {
    if t.Empty? {
      EmptyTrieProvesNothing(keccak, proof, key, value);
    } else {
      VerdictExact(keccak, t, proof, key, value);
    }
  }

  lemma BytesOfNumber(n: nat, k: nat)
    requires n < Pow256(k) && k <= 32
    ensures |ToBigEndian(n)| <= 32
  {
    BigEndianLength(n, k);
  }

  lemma UintInjective(m: nat, n: nat)
    requires m < Pow256(32) && n < Pow256(32) && EncodeUint(m) == EncodeUint(n)
    ensures m == n
  {
    BytesOfNumber(m, 32);
    BytesOfNumber(n, 32);
    EncodeInjective(Str(ToBigEndian(m)), Str(ToBigEndian(n)));
    BigEndianRoundTrip(m);
    BigEndianRoundTrip(n);
  }

  lemma AccountEncodable(nonce: nat, balance: nat, storageHash: Bytes, codeHash: Bytes)
    requires InRange(nonce, balance, storageHash, codeHash)
    ensures Encodable(AccountItem(nonce, balance, storageHash, codeHash))
  {
    AccountFields(nonce, balance, storageHash, codeHash);
    AccountStrings(nonce, balance, storageHash, codeHash);
    StringsEncodable([ToBigEndian(nonce), ToBigEndian(balance), storageHash, codeHash]);
  }

  lemma AccountFields(nonce: nat, balance: nat, storageHash: Bytes, codeHash: Bytes)
    requires InRange(nonce, balance, storageHash, codeHash)
    ensures
      var fields := [ToBigEndian(nonce), ToBigEndian(balance), storageHash, codeHash];
      forall i :: 0 <= i < 4 ==> |fields[i]| <= 32
  {
    BytesOfNumber(nonce, 8);
    BytesOfNumber(balance, 32);
  }

  lemma AccountStrings(nonce: nat, balance: nat, storageHash: Bytes, codeHash: Bytes)
    ensures AccountItem(nonce, balance, storageHash, codeHash)
         == List(StringItems([ToBigEndian(nonce), ToBigEndian(balance), storageHash, codeHash]))
  {
    var fields := [ToBigEndian(nonce), ToBigEndian(balance), storageHash, codeHash];
    assert AccountItem(nonce, balance, storageHash, codeHash).items == StringItems(fields);
  }

  /** The two digests make an account's encoding longer than a digest. */
  lemma AccountSize(nonce: nat, balance: nat, storageHash: Bytes, codeHash: Bytes)
    requires InRange(nonce, balance, storageHash, codeHash)
    ensures 32 < |EncodeAccount(nonce, balance, storageHash, codeHash)| <= 200
  {
    var fields := [ToBigEndian(nonce), ToBigEndian(balance), storageHash, codeHash];
    AccountFields(nonce, balance, storageHash, codeHash);
    AccountStrings(nonce, balance, storageHash, codeHash);
    StringsLength(fields, 32);
    LengthOfLength(|EncodeAll(StringItems(fields))|);
    StringInside(fields, 2);
  }

  /** Two accounts with the same RLP are the same account. */
  lemma AccountInjective(n1: nat, b1: nat, s1: Bytes, c1: Bytes, n2: nat, b2: nat, s2: Bytes, c2: Bytes)
    requires InRange(n1, b1, s1, c1) && InRange(n2, b2, s2, c2)
    requires EncodeAccount(n1, b1, s1, c1) == EncodeAccount(n2, b2, s2, c2)
    ensures n1 == n2 && b1 == b2 && s1 == s2 && c1 == c2
  {
    AccountEncodable(n1, b1, s1, c1);
    AccountEncodable(n2, b2, s2, c2);
    var x, y := AccountItem(n1, b1, s1, c1), AccountItem(n2, b2, s2, c2);
    EncodeInjective(x, y);
    assert x.items[0] == y.items[0] && x.items[1] == y.items[1];
    assert x.items[2] == y.items[2] && x.items[3] == y.items[3];
    BigEndianRoundTrip(n1);
    BigEndianRoundTrip(n2);
    BigEndianRoundTrip(b1);
    BigEndianRoundTrip(b2);
  }

  lemma ListsAreNotStrings(nonce: nat, balance: nat, storageHash: Bytes, codeHash: Bytes, s: Bytes)
    requires InRange(nonce, balance, storageHash, codeHash) && |s| <= 32
    ensures EncodeAccount(nonce, balance, storageHash, codeHash) != Encode(Str(s))
  {
    AccountEncodable(nonce, balance, storageHash, codeHash);
    if EncodeAccount(nonce, balance, storageHash, codeHash) == Encode(Str(s)) {
      EncodeInjective(AccountItem(nonce, balance, storageHash, codeHash), Str(s));
    }
  }

  /** A slot accepted as empty is a zero, an account accepted as empty is empty. */
  lemma EmptyUint(n: nat)
    requires n < Pow256(32) && IsEmptyValue(EncodeUint(n))
    ensures n == 0
  {
    BytesOfNumber(n, 32);
    assert InRange(0, 0, EMPTY_STORAGE_HASH, EMPTY_CODE_HASH);
    ListsAreNotStrings(0, 0, EMPTY_STORAGE_HASH, EMPTY_CODE_HASH, ToBigEndian(n));
    assert EncodeUint(0) == [0x80];
    assert 0 < Pow256(32);
    UintInjective(n, 0);
  }

  lemma EmptyAccount(nonce: nat, balance: nat, storageHash: Bytes, codeHash: Bytes)
    requires InRange(nonce, balance, storageHash, codeHash)
    requires IsEmptyValue(EncodeAccount(nonce, balance, storageHash, codeHash))
    ensures nonce == 0 && balance == 0 && storageHash == EMPTY_STORAGE_HASH && codeHash == EMPTY_CODE_HASH
  {
    assert Encode(Str([])) == [0x80];
    ListsAreNotStrings(nonce, balance, storageHash, codeHash, []);
    assert InRange(0, 0, EMPTY_STORAGE_HASH, EMPTY_CODE_HASH);
    AccountInjective(nonce, balance, storageHash, codeHash, 0, 0, EMPTY_STORAGE_HASH, EMPTY_CODE_HASH);
  }

  lemma SlotSound(keccak: Digest, a: AccountState, s: StorageProof)
    requires Digests32(keccak) && StorageCommitted(keccak, a) && SoundSlot(keccak, a, s)
    requires SlotVerdict(keccak, a.storageHash, s) == Accepted
    ensures s.value == SlotAt(a, s.key)
  {
    var key := Nibbles(keccak(s.key));
    AcceptedMeans(keccak, a.storageTrie, s.proof, key, EncodeUint(s.value));
    LookupExact(keccak, a.storageTrie, Encodings(a.storage), s.key);
    if s.key in a.storage {
      UintInjective(s.value, a.storage[s.key]);
    } else {
      EmptyUint(s.value);
    }
  }

  lemma {:induction false} SlotsSound(keccak: Digest, a: AccountState, proofs: seq<StorageProof>,
                                        slots: map<Bytes, nat>)
    requires Digests32(keccak) && StorageCommitted(keccak, a)
    requires forall i :: 0 <= i < |proofs| ==> SoundSlot(keccak, a, proofs[i])
    requires ProvedSlots(keccak, a.storageHash, proofs) == Success(slots)
    ensures forall key :: key in slots ==> slots[key] == SlotAt(a, key)
    decreases |proofs|
  {
    if proofs != [] {
      var n := |proofs| - 1;
      SlotsSound(keccak, a, proofs[..n], ProvedSlots(keccak, a.storageHash, proofs[..n]).value);
      SlotSound(keccak, a, proofs[n]);
    }
  }

  /** What the commitment says of one address, with or without an account. */
  lemma AccountCommitted(keccak: Digest, stateRoot: Bytes, world: World, address: Bytes)
    requires Committed(keccak, stateRoot, world)
    ensures FieldsCommitted(keccak, AccountAt(world, address))
  {
    if address !in world.accounts {
      NoAccountCommitted(keccak);
    }
  }

  lemma NoAccountCommitted(keccak: Digest)
    requires IsDigest(keccak)
    ensures FieldsCommitted(keccak, NO_ACCOUNT)
  {
    NoStorageCommitted(keccak, NO_ACCOUNT);
    ZeroInRange(0, 0);
  }

  lemma NoStorageCommitted(keccak: Digest, a: AccountState)
    requires keccak([0x80]) == EMPTY_STORAGE_HASH
    requires a.storage == map[] && a.storageTrie.Empty? && a.storageHash == EMPTY_STORAGE_HASH
    ensures StorageCommitted(keccak, a)
  {
    assert EncodeNode(keccak, Empty) == [0x80];
  }

  lemma OneFits(k: nat)
    requires k > 0
    ensures 1 < Pow256(k)
  {
  }

  lemma ZeroInRange(nonce: nat, balance: nat)
    requires nonce <= 1 && balance <= 1
    ensures InRange(nonce, balance, EMPTY_STORAGE_HASH, EMPTY_CODE_HASH)
  {
    OneFits(8);
    OneFits(32);
  }

  lemma CodeSound(keccak: Digest, a: AccountState, code: Option<Bytes>)
    requires keccak(a.code) == a.codeHash && (a.codeHash == EMPTY_CODE_HASH ==> a.code == [])
    requires code.Some? && keccak(code.value) == keccak(a.code) ==> code.value == a.code
    requires ProvedCode(keccak, a.codeHash, code).Success?
    ensures ProvedCode(keccak, a.codeHash, code).value == a.code
  {
  }

  /** End to end, through both levels of proof: an account that the client accepts
      has the balance, nonce, code hash, storage root and code of the state, and
      every slot that came with it, and no other, the value in storage. */
  lemma AccountFaithful(keccak: Digest, stateRoot: Bytes, world: World, address: Bytes, answer: Answer)
    requires Committed(keccak, stateRoot, world)
    requires SoundAnswer(keccak, world, address, answer)
    requires ProvedAccount(keccak, stateRoot, address, answer).Success?
    ensures Faithful(world, address, ProvedAccount(keccak, stateRoot, address, answer).value)
    ensures ProvedAccount(keccak, stateRoot, address, answer).value.slots.Keys
         == SlotKeys(answer.proof.value.storageProof)
  {
    var p := answer.proof.value;
    SlotsOfProofs(keccak, p.storageHash, p.storageProof);
    var a := AccountAt(world, address);
    FieldsSound(keccak, stateRoot, world, address, p);
    AccountCommitted(keccak, stateRoot, world, address);
    SlotsSound(keccak, a, p.storageProof, ProvedSlots(keccak, p.storageHash, p.storageProof).value);
    CodeSound(keccak, a, answer.code);
  }

  lemma FieldsSound(keccak: Digest, stateRoot: Bytes, world: World, address: Bytes, p: ProofResponse)
    requires Committed(keccak, stateRoot, world)
    requires InRange(p.nonce, p.balance, p.storageHash, p.codeHash)
    requires NoOther(keccak, world.accounts.Keys, address)
    requires Sound(keccak, world.trie, p.accountProof, Nibbles(keccak(address)),
                   EncodeAccount(p.nonce, p.balance, p.storageHash, p.codeHash))
    requires AccountVerdict(keccak, stateRoot, address, p) == Accepted
    ensures
      var a := AccountAt(world, address);
      p.nonce == a.nonce && p.balance == a.balance && p.storageHash == a.storageHash && p.codeHash == a.codeHash
  {
    var a := AccountAt(world, address);
    AcceptedMeans(keccak, world.trie, p.accountProof, Nibbles(keccak(address)),
                  EncodeAccount(p.nonce, p.balance, p.storageHash, p.codeHash));
    LookupExact(keccak, world.trie, StateEncodings(world.accounts), address);
    if address in world.accounts {
      AccountInjective(p.nonce, p.balance, p.storageHash, p.codeHash, a.nonce, a.balance, a.storageHash, a.codeHash);
    } else {
      EmptyAccount(p.nonce, p.balance, p.storageHash, p.codeHash);
    }
  }

  /*** An honest server ***/

  function HonestSlot(keccak: Digest, a: AccountState, key: Bytes): StorageProof {
    StorageProof(key, SlotAt(a, key), Walk(keccak, a.storageTrie, Nibbles(keccak(key))))
  }

  function HonestSlots(keccak: Digest, a: AccountState, keys: seq<Bytes>): (proofs: seq<StorageProof>)
    ensures |proofs| == |keys|
  {
    seq(|keys|, i requires 0 <= i < |keys| => HonestSlot(keccak, a, keys[i]))
  }

  /** The state's account with the walks to it and to the slots asked for. */
  function HonestAnswer(keccak: Digest, world: World, address: Bytes, keys: seq<Bytes>): Answer {
    var a := AccountAt(world, address);
    Answer(
      Some(ProofResponse(Walk(keccak, world.trie, Nibbles(keccak(address))),
                         a.balance, a.nonce, a.codeHash, a.storageHash, HonestSlots(keccak, a, keys))),
      Some(a.code))
  }

  /** No collision for one request: neither for the key nor for a node on the way
      to it. */
  ghost predicate NoCollision(keccak: Digest, t: Trie, stored: set<Bytes>, key: Bytes) {
    NoOther(keccak, stored, key) && BindsAll(keccak, t, Walk(keccak, t, Nibbles(keccak(key))))
  }

  lemma HonestSlotAccepted(keccak: Digest, a: AccountState, key: Bytes)
    requires Digests32(keccak) && StorageCommitted(keccak, a)
    requires NoCollision(keccak, a.storageTrie, a.storage.Keys, key)
    ensures SlotVerdict(keccak, a.storageHash, HonestSlot(keccak, a, key)) == Accepted <==> !a.storageTrie.Empty?
  {
    if !a.storageTrie.Empty? {
      LookupExact(keccak, a.storageTrie, Encodings(a.storage), key);
      assert EncodeUint(0) == [0x80];
      Completeness(keccak, a.storageTrie, Nibbles(keccak(key)), EncodeUint(SlotAt(a, key)));
    }
  }

  lemma LastSlot(keccak: Digest, storageHash: Bytes, proofs: seq<StorageProof>)
    requires proofs != []
    ensures ProvedSlots(keccak, storageHash, proofs).Success?
       <==> ProvedSlots(keccak, storageHash, proofs[..|proofs| - 1]).Success?
            && SlotVerdict(keccak, storageHash, proofs[|proofs| - 1]) == Accepted
  {
  }

  lemma {:induction false} HonestSlotsAccepted(keccak: Digest, a: AccountState, keys: seq<Bytes>)
    requires Digests32(keccak) && StorageCommitted(keccak, a)
    requires forall key :: key in keys ==> NoCollision(keccak, a.storageTrie, a.storage.Keys, key)
    ensures ProvedSlots(keccak, a.storageHash, HonestSlots(keccak, a, keys)).Success?
       <==> keys == [] || !a.storageTrie.Empty?
    decreases |keys|
  {
    var proofs := HonestSlots(keccak, a, keys);
    if keys != [] {
      var n := |keys| - 1;
      assert proofs[..n] == HonestSlots(keccak, a, keys[..n]);
      HonestSlotsAccepted(keccak, a, keys[..n]);
      HonestSlotAccepted(keccak, a, keys[n]);
      LastSlot(keccak, a.storageHash, proofs);
    }
  }

  lemma {:induction false} SlotValues(keccak: Digest, storageHash: Bytes, a: AccountState, proofs: seq<StorageProof>)
    requires ProvedSlots(keccak, storageHash, proofs).Success?
    requires forall i :: 0 <= i < |proofs| ==> proofs[i].value == SlotAt(a, proofs[i].key)
    ensures
      var slots := ProvedSlots(keccak, storageHash, proofs).value;
      forall key :: key in slots ==> slots[key] == SlotAt(a, key)
    decreases |proofs|
  {
    if proofs != [] {
      SlotValues(keccak, storageHash, a, proofs[..|proofs| - 1]);
    }
  }

  lemma HonestSlotsProved(keccak: Digest, a: AccountState, keys: seq<Bytes>)
    requires ProvedSlots(keccak, a.storageHash, HonestSlots(keccak, a, keys)).Success?
    ensures ProvedSlots(keccak, a.storageHash, HonestSlots(keccak, a, keys)).value
         == map key | key in keys :: SlotAt(a, key)
  {
    var proofs := HonestSlots(keccak, a, keys);
    SlotsOfProofs(keccak, a.storageHash, proofs);
    SlotValues(keccak, a.storageHash, a, proofs);
    forall key
      ensures key in SlotKeys(proofs) <==> key in keys
    {
      if key in keys {
        var i :| 0 <= i < |keys| && keys[i] == key;
        assert proofs[i].key == key;
      }
    }
  }

  /** Completeness end to end: the honest answer of a non-empty state is accepted,
      for every address and every list of slots, if and only if no slot is asked
      for or the account has storage. What it gives is the state's account with
      exactly the slots asked for. */
  lemma HonestAccountAccepted(keccak: Digest, stateRoot: Bytes, world: World, address: Bytes, keys: seq<Bytes>)
    requires Committed(keccak, stateRoot, world) && !world.trie.Empty?
    requires NoCollision(keccak, world.trie, world.accounts.Keys, address)
    requires
      var a := AccountAt(world, address);
      forall key :: key in keys ==> NoCollision(keccak, a.storageTrie, a.storage.Keys, key)
    ensures ProvedAccount(keccak, stateRoot, address, HonestAnswer(keccak, world, address, keys)).Success?
       <==> keys == [] || !AccountAt(world, address).storageTrie.Empty?
    ensures
      var a := AccountAt(world, address);
      var r := ProvedAccount(keccak, stateRoot, address, HonestAnswer(keccak, world, address, keys));
      r.Success? ==>
        r.value == Account(a.balance, a.nonce, a.code, a.codeHash, a.storageHash,
                           map key | key in keys :: SlotAt(a, key))
  {
    var a := AccountAt(world, address);
    AccountCommitted(keccak, stateRoot, world, address);
    LookupExact(keccak, world.trie, StateEncodings(world.accounts), address);
    Completeness(keccak, world.trie, Nibbles(keccak(address)), StateEncoding(a));
    HonestSlotsAccepted(keccak, a, keys);
    if keys == [] || !a.storageTrie.Empty? {
      HonestSlotsProved(keccak, a, keys);
    }
  }

  /*** What is reported ***/

  /** The error is that of the first failing check: the account's proof, then the
      storage proofs in order, then the code, which is fetched only where the code
      hash is not that of no code. */
  lemma AccountReported(keccak: Digest, stateRoot: Bytes, address: Bytes, answer: Answer)
    ensures
      var r := ProvedAccount(keccak, stateRoot, address, answer);
      if answer.proof.None? then r == Failure(RpcError)
      else
        var p := answer.proof.value;
        var slots := ProvedSlots(keccak, p.storageHash, p.storageProof);
        match AccountVerdict(keccak, stateRoot, address, p)
        case Rejected => r == Failure(InvalidAccountProof)
        case Aborted => r == Failure(ProofAborted)
        case Accepted =>
          && (r.Success? <==>
                slots.Success?
                && (p.codeHash == EMPTY_CODE_HASH || (answer.code.Some? && keccak(answer.code.value) == p.codeHash)))
          && (slots.Failure? ==> r == Failure(slots.error))
          && (slots.Success? && r.Failure? ==> r.error == if answer.code.None? then RpcError else CodeHashMismatch)
  {
  }

  /** The layout of an account, as a decoder reads it: nonce, balance, storage root
      and code hash. */
  lemma AccountLayout(nonce: nat, balance: nat, storageHash: Bytes, codeHash: Bytes)
    requires InRange(nonce, balance, storageHash, codeHash)
    ensures DecodeList(EncodeAccount(nonce, balance, storageHash, codeHash))
         == Some([ToBigEndian(nonce), ToBigEndian(balance), storageHash, codeHash])
  {
    AccountEncodable(nonce, balance, storageHash, codeHash);
    AccountStrings(nonce, balance, storageHash, codeHash);
    DecodeListRoundTrip([ToBigEndian(nonce), ToBigEndian(balance), storageHash, codeHash]);
  }

  /** The two values that count as empty, byte by byte: the encoding of zero, and that
      of an account with two zeros and the two digests of nothing. */
  lemma EmptyValues(value: Bytes)
    ensures IsEmptyValue(value)
       <==> || value == [0x80]
            || value == [0xf8, 68, 0x80, 0x80] + ([0xa0] + EMPTY_STORAGE_HASH) + ([0xa0] + EMPTY_CODE_HASH)
  {
    DigestEncoding(EMPTY_STORAGE_HASH);
    DigestEncoding(EMPTY_CODE_HASH);
    TwoZerosTwoDigests(EMPTY_STORAGE_HASH, EMPTY_CODE_HASH);
  }

  lemma DigestEncoding(digest: Bytes)
    requires |digest| == 32
    ensures Encode(Str(digest)) == [0xa0] + digest
  {
  }

  lemma TwoZerosTwoDigests(s: Bytes, c: Bytes)
    requires |s| == 32 && |c| == 32
    ensures EncodeAccount(0, 0, s, c) == [0xf8, 68, 0x80, 0x80] + ([0xa0] + s) + ([0xa0] + c)
  {
    DigestEncoding(s);
    DigestEncoding(c);
    var items := AccountItem(0, 0, s, c).items;
    assert items[3..] == [Str(c)] && [Str(c)][1..] == [] && items[2..][1..] == items[3..];
    assert items[1..][1..] == items[2..];
    assert EncodeAll(items[3..]) == [0xa0] + c + EncodeAll([]);
    assert EncodeAll(items[2..]) == ([0xa0] + s) + ([0xa0] + c);
    assert EncodeAll(items) == [0x80, 0x80] + ([0xa0] + s) + ([0xa0] + c);
    assert ToBigEndian(68) == [68];
  }
}
