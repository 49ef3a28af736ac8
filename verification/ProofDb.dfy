/** The EVM's database: accounts fetched ahead of a call, and fetches for what is
    missing from them. */
module ProofDb {
  import opened Results
  import opened Rlp
  import opened Trie
  import opened Accounts

  const PARALLEL_QUERY_BATCH_SIZE := 20

  type AccountCache = map<Bytes, Account>

  datatype AccountInfo = AccountInfo(balance: nat, nonce: nat, code: Bytes)

  /** The addresses 1 to 9. */
  predicate IsPrecompile(address: Bytes) {
    0 < FromBigEndian(address) <= 9
  }

  /** Of the 20-byte addresses those whose last byte alone is not zero, and at most 9. */
  lemma PrecompileExact(address: Bytes)
    requires |address| == 20
    ensures IsPrecompile(address)
       <==> (forall i :: 0 <= i < 19 ==> address[i] == 0) && 1 <= address[19] <= 9
  {
    var front := address[..19];
    assert FromBigEndian(address) == 256 * FromBigEndian(front) + address[19];
    ZeroExact(front);
  }

  lemma {:induction false} ZeroExact(b: Bytes)
    ensures FromBigEndian(b) == 0 <==> forall i :: 0 <= i < |b| ==> b[i] == 0
  {
    if b != [] {
      ZeroExact(b[..|b| - 1]);
    }
  }

  /** The 32-byte storage key of a slot number. */
  function SlotKey(slot: nat): Bytes {
    var be := ToBigEndian(slot);
    Copies<Byte>(0, if |be| <= 32 then 32 - |be| else 0) + be
  }

  /** Slot numbers and storage keys correspond one to one. */
  lemma SlotKeyExact(slot: nat)
    requires slot < Pow256(32)
    ensures |SlotKey(slot)| == 32 && FromBigEndian(SlotKey(slot)) == slot
  {
    BytesOfNumber(slot, 32);
    LeadingZeros(32 - |ToBigEndian(slot)|, ToBigEndian(slot));
    BigEndianRoundTrip(slot);
  }

  lemma {:induction false} LeadingZeros(n: nat, b: Bytes)
    ensures FromBigEndian(Copies<Byte>(0, n) + b) == FromBigEndian(b)
  {
    var padded := Copies<Byte>(0, n) + b;
    if b != [] {
      assert padded[..|padded| - 1] == Copies<Byte>(0, n) + b[..|b| - 1];
      LeadingZeros(n, b[..|b| - 1]);
    } else if n > 0 {
      assert padded == Copies<Byte>(0, n) && padded[..n - 1] == Copies<Byte>(0, n - 1) + [];
      LeadingZeros(n - 1, b);
    }
  }

  /*** Fetching ahead ***/

  /** The accounts proved by the answers to a list of requests, later ones
      replacing earlier ones of the same address. Failed requests are dropped. */
  function FetchedAccounts(keccak: Digest, stateRoot: Bytes, list: seq<Bytes>, answers: seq<Answer>): AccountCache
    requires |list| == |answers|
  {
    if list == [] then map[]
    else
      var n := |list| - 1;
      var before := FetchedAccounts(keccak, stateRoot, list[..n], answers[..n]);
      match ProvedAccount(keccak, stateRoot, list[n], answers[n])
      case Success(account) => before[list[n] := account]
      case Failure(_) => before
  }

  /** What the answers prove, request by request. */
  function Outcomes(keccak: Digest, stateRoot: Bytes, list: seq<Bytes>, answers: seq<Answer>)
    : (r: seq<Result<Account, AccountError>>)
    requires |list| == |answers|
    ensures |r| == |list|
  {
    seq(|list|, i requires 0 <= i < |list| => ProvedAccount(keccak, stateRoot, list[i], answers[i]))
  }

  /** The i-th request is the last one for the address whose answer proves it. */
  predicate IsLast(list: seq<Bytes>, outcomes: seq<Result<Account, AccountError>>, address: Bytes, i: nat)
    requires |list| == |outcomes|
  {
    && i < |list| && list[i] == address && outcomes[i].Success?
    && forall j :: i < j < |list| && list[j] == address ==> outcomes[j].Failure?
  }

  lemma LastBefore(list: seq<Bytes>, outcomes: seq<Result<Account, AccountError>>, address: Bytes, i: nat)
    requires |list| == |outcomes| && list != []
    ensures
      var n := |list| - 1;
      IsLast(list, outcomes, address, i)
      <==> if list[n] == address && outcomes[n].Success? then i == n else IsLast(list[..n], outcomes[..n], address, i)
  {
    var n := |list| - 1;
    if i < n {
      assert list[..n][i] == list[i] && outcomes[..n][i] == outcomes[i];
      assert forall j :: i < j < n ==> list[..n][j] == list[j] && outcomes[..n][j] == outcomes[j];
    }
  }

  function CacheOf(list: seq<Bytes>, outcomes: seq<Result<Account, AccountError>>): AccountCache
    requires |list| == |outcomes|
  {
    if list == [] then map[]
    else
      var n := |list| - 1;
      var before := CacheOf(list[..n], outcomes[..n]);
      if outcomes[n].Success? then before[list[n] := outcomes[n].value] else before
  }

  lemma {:induction false} CacheExact(list: seq<Bytes>, outcomes: seq<Result<Account, AccountError>>, address: Bytes)
    requires |list| == |outcomes|
    ensures address in CacheOf(list, outcomes) <==> exists i: nat :: IsLast(list, outcomes, address, i)
    ensures forall i: nat :: IsLast(list, outcomes, address, i) ==>
              address in CacheOf(list, outcomes) && CacheOf(list, outcomes)[address] == outcomes[i].value
    decreases |list|
  {
    if list != [] {
      var n := |list| - 1;
      CacheExact(list[..n], outcomes[..n], address);
      forall i: nat
        ensures IsLast(list, outcomes, address, i)
           <==> if list[n] == address && outcomes[n].Success? then i == n
                else IsLast(list[..n], outcomes[..n], address, i)
      {
        LastBefore(list, outcomes, address, i);
      }
      if list[n] == address && outcomes[n].Success? {
        assert IsLast(list, outcomes, address, n);
      } else if i: nat :| IsLast(list[..n], outcomes[..n], address, i) {
        assert IsLast(list, outcomes, address, i);
      }
    }
  }

  lemma {:induction false} FetchedIsCache(keccak: Digest, stateRoot: Bytes, list: seq<Bytes>, answers: seq<Answer>)
    requires |list| == |answers|
    ensures FetchedAccounts(keccak, stateRoot, list, answers)
         == CacheOf(list, Outcomes(keccak, stateRoot, list, answers))
    decreases |list|
  {
    if list != [] {
      var n := |list| - 1;
      FetchedIsCache(keccak, stateRoot, list[..n], answers[..n]);
      assert Outcomes(keccak, stateRoot, list[..n], answers[..n]) == Outcomes(keccak, stateRoot, list, answers)[..n];
    }
  }

  /** Fetched are exactly the addresses for which some answer proves an account, each
      with the account of its last such answer. */
  lemma FetchedExact(keccak: Digest, stateRoot: Bytes, list: seq<Bytes>, answers: seq<Answer>, address: Bytes)
    requires |list| == |answers|
    ensures
      var fetched := FetchedAccounts(keccak, stateRoot, list, answers);
      var outcomes := Outcomes(keccak, stateRoot, list, answers);
      && (address in fetched <==> exists i: nat :: IsLast(list, outcomes, address, i))
      && forall i: nat :: IsLast(list, outcomes, address, i) ==>
           address in fetched && fetched[address] == outcomes[i].value
  {
    FetchedIsCache(keccak, stateRoot, list, answers);
    CacheExact(list, Outcomes(keccak, stateRoot, list, answers), address);
  }

  /** One chunk of requests, all made before any answer is used. */
  method FetchChunk(keccak: Digest, stateRoot: Bytes, chunk: seq<Bytes>, answers: seq<Answer>)
    returns (fetched: seq<Result<Account, AccountError>>)
    requires |chunk| == |answers|
    ensures |fetched| == |chunk|
    ensures forall i :: 0 <= i < |chunk| ==> fetched[i] == ProvedAccount(keccak, stateRoot, chunk[i], answers[i])
  {
    fetched := [];
    for i := 0 to |chunk|
      invariant |fetched| == i
      invariant forall j :: 0 <= j < i ==> fetched[j] == ProvedAccount(keccak, stateRoot, chunk[j], answers[j])
    {
      var account := GetAccount(keccak, stateRoot, chunk[i], answers[i]);
      fetched := fetched + [account];
    }
  }

  lemma FetchedOneMore(keccak: Digest, stateRoot: Bytes, list: seq<Bytes>, answers: seq<Answer>, i: nat)
    requires |list| == |answers| && i < |list|
    ensures
      var before := FetchedAccounts(keccak, stateRoot, list[..i], answers[..i]);
      var account := ProvedAccount(keccak, stateRoot, list[i], answers[i]);
      FetchedAccounts(keccak, stateRoot, list[..i + 1], answers[..i + 1])
      == if account.Success? then before[list[i] := account.value] else before
  {
    assert list[..i + 1][..i] == list[..i] && answers[..i + 1][..i] == answers[..i];
  }

  /** The answers of one chunk, put in the map in order. */
  method InsertFetched(keccak: Digest, stateRoot: Bytes, list: seq<Bytes>, answers: seq<Answer>, start: nat, end: nat,
                       before: AccountCache, fetched: seq<Result<Account, AccountError>>)
    returns (accountMap: AccountCache)
    requires start <= end <= |list| == |answers| && |fetched| == end - start
    requires before == FetchedAccounts(keccak, stateRoot, list[..start], answers[..start])
    requires forall i :: start <= i < end ==>
               fetched[i - start] == ProvedAccount(keccak, stateRoot, list[i], answers[i])
    ensures accountMap == FetchedAccounts(keccak, stateRoot, list[..end], answers[..end])
  {
    accountMap := before;
    for i := start to end
      invariant accountMap == FetchedAccounts(keccak, stateRoot, list[..i], answers[..i])
    {
      FetchedOneMore(keccak, stateRoot, list, answers, i);
      if fetched[i - start].Success? {
        accountMap := accountMap[list[i] := fetched[i - start].value];
      }
    }
  }

  /** Chunk by chunk, the accounts of an access list and of the three addresses
      every call touches. The i-th answer is the server's to the i-th request. */
  method BatchFetchAccounts(keccak: Digest, stateRoot: Bytes, accessList: Option<seq<Bytes>>,
                            from: Bytes, to: Bytes, producer: Bytes, answers: seq<Answer>)
    returns (r: Result<AccountCache, AccountError>)
    requires accessList.Some? ==> |answers| == |accessList.value| + 3
    ensures accessList.None? ==> r == Failure(RpcError)
    ensures accessList.Some? ==>
              r == Success(FetchedAccounts(keccak, stateRoot, accessList.value + [from, to, producer], answers))
  {
    if accessList.None? {
      return Failure(RpcError);
    }
    var list := accessList.value + [from, to, producer];
    var accountMap: AccountCache := map[];
    var start := 0;
    while start < |list|
      invariant start <= |list|
      invariant accountMap == FetchedAccounts(keccak, stateRoot, list[..start], answers[..start])
    {
      var end := if start + PARALLEL_QUERY_BATCH_SIZE <= |list| then start + PARALLEL_QUERY_BATCH_SIZE else |list|;
      var fetched := FetchChunk(keccak, stateRoot, list[start..end], answers[start..end]);
      forall i | start <= i < end
        ensures fetched[i - start] == ProvedAccount(keccak, stateRoot, list[i], answers[i])
      {
        assert list[start..end][i - start] == list[i] && answers[start..end][i - start] == answers[i];
      }
      accountMap := InsertFetched(keccak, stateRoot, list, answers, start, end, accountMap, fetched);
      start := end;
    }
    assert list[..|list|] == list && answers[..|list|] == answers;
    return Success(accountMap);
  }

  /*** Lookups ***/

  function BasicOf(keccak: Digest, stateRoot: Bytes, accounts: AccountCache, address: Bytes, answer: Answer)
    : Result<AccountInfo, AccountError>
  {
    if IsPrecompile(address) then Success(AccountInfo(0, 0, []))
    else
      var found := if address in accounts then Success(accounts[address])
                   else ProvedAccount(keccak, stateRoot, address, answer);
      match found
      case Failure(e) => Failure(e)
      case Success(a) => Success(AccountInfo(a.balance, a.nonce, a.code))
  }

  /** A slot from the cache, or from a fetch when the account is not cached or the
      cached account lacks the slot. */
  function StorageOf(keccak: Digest, stateRoot: Bytes, accounts: AccountCache, address: Bytes, slot: nat,
                     answer: Answer)
    : Result<nat, AccountError>
  {
    var key := SlotKey(slot);
    if address in accounts && key in accounts[address].slots then Success(accounts[address].slots[key])
    else
      match ProvedAccount(keccak, stateRoot, address, answer)
      case Failure(e) => Failure(e)
      case Success(a) => if key in a.slots then Success(a.slots[key]) else Failure(SlotNotFound)
  }

  class ProofDB {
    const keccak: Digest
    const stateRoot: Bytes
    var accounts: AccountCache

    constructor (keccak: Digest, stateRoot: Bytes)
      ensures this.keccak == keccak && this.stateRoot == stateRoot && accounts == map[]
    {
      this.keccak := keccak;
      this.stateRoot := stateRoot;
      accounts := map[];
    }

    method SetAccounts(accounts: AccountCache)
      modifies this
      ensures this.accounts == accounts
    {
      this.accounts := accounts;
    }

    method Basic(address: Bytes, answer: Answer) returns (r: Result<AccountInfo, AccountError>)
      ensures r == BasicOf(keccak, stateRoot, accounts, address, answer)
    {
      if IsPrecompile(address) {
        return Success(AccountInfo(0, 0, []));
      }
      var account;
      if address in accounts {
        account := accounts[address];
      } else {
        var fetched := GetAccount(keccak, stateRoot, address, answer);
        if fetched.Failure? {
          return Failure(fetched.error);
        }
        account := fetched.value;
      }
      return Success(AccountInfo(account.balance, account.nonce, account.code));
    }

    method Storage(address: Bytes, slot: nat, answer: Answer) returns (r: Result<nat, AccountError>)
      ensures r == StorageOf(keccak, stateRoot, accounts, address, slot, answer)
    {
      var key := SlotKey(slot);
      if address in accounts {
        if key in accounts[address].slots {
          return Success(accounts[address].slots[key]);
        }
      }
      var fetched := GetAccount(keccak, stateRoot, address, answer);
      if fetched.Failure? {
        return Failure(fetched.error);
      }
      if key !in fetched.value.slots {
        return Failure(SlotNotFound);
      }
      return Success(fetched.value.slots[key]);
    }
  }

  /*** Transparency ***/

  ghost predicate FaithfulCache(world: World, accounts: AccountCache) {
    forall address :: address in accounts ==> Faithful(world, address, accounts[address])
  }

  /** Whatever the access list and however its requests are chunked, duplicated or
      answered, the cache holds only accounts as they are. */
  lemma {:induction false} FetchedFaithful(keccak: Digest, stateRoot: Bytes, world: World, list: seq<Bytes>,
                                             answers: seq<Answer>)
    requires |list| == |answers| && Committed(keccak, stateRoot, world)
    requires forall i :: 0 <= i < |list| ==>
               SoundAnswer(keccak, world, list[i], answers[i])
    ensures FaithfulCache(world, FetchedAccounts(keccak, stateRoot, list, answers))
    decreases |list|
  {
    if list != [] {
      var n := |list| - 1;
      FetchedFaithful(keccak, stateRoot, world, list[..n], answers[..n]);
      if ProvedAccount(keccak, stateRoot, list[n], answers[n]).Success? {
        AccountFaithful(keccak, stateRoot, world, list[n], answers[n]);
      }
    }
  }

  /** With a faithful cache every account the database reports is the state's, for
      every address but those from 1 to 9. It reports one whenever it is cached or its
      answer proves it. */
  lemma BasicTransparent(keccak: Digest, stateRoot: Bytes, world: World, accounts: AccountCache,
                         address: Bytes, answer: Answer)
    requires Committed(keccak, stateRoot, world) && FaithfulCache(world, accounts)
    requires SoundAnswer(keccak, world, address, answer) && |address| == 20
    ensures
      var r := BasicOf(keccak, stateRoot, accounts, address, answer);
      var a := AccountAt(world, address);
      if (exists i :: 0 <= i < 19 && address[i] != 0) || address[19] == 0 || address[19] > 9 then
        && (r.Success? <==> address in accounts || ProvedAccount(keccak, stateRoot, address, answer).Success?)
        && (r.Success? ==> r.value == AccountInfo(a.balance, a.nonce, a.code))
      else r == Success(AccountInfo(0, 0, []))
  {
    PrecompileExact(address);
    if !IsPrecompile(address) {
      BasicReported(keccak, stateRoot, world, accounts, address, answer);
    }
  }

  lemma BasicReported(keccak: Digest, stateRoot: Bytes, world: World, accounts: AccountCache,
                      address: Bytes, answer: Answer)
    requires Committed(keccak, stateRoot, world) && FaithfulCache(world, accounts)
    requires SoundAnswer(keccak, world, address, answer) && !IsPrecompile(address)
    ensures
      var r := BasicOf(keccak, stateRoot, accounts, address, answer);
      var a := AccountAt(world, address);
      && (r.Success? <==> address in accounts || ProvedAccount(keccak, stateRoot, address, answer).Success?)
      && (r.Success? ==> r.value == AccountInfo(a.balance, a.nonce, a.code))
  {
    if address !in accounts && ProvedAccount(keccak, stateRoot, address, answer).Success? {
      AccountFaithful(keccak, stateRoot, world, address, answer);
    }
  }

  /** A slot is reported exactly if it is cached, or if the answer proves an account
      with that slot: a slot missing from a cached account is fetched. */
  lemma StorageReported(keccak: Digest, stateRoot: Bytes, accounts: AccountCache, address: Bytes, slot: nat,
                        answer: Answer)
    ensures
      var r := StorageOf(keccak, stateRoot, accounts, address, slot, answer);
      var cached := address in accounts && SlotKey(slot) in accounts[address].slots;
      var fetched := ProvedAccount(keccak, stateRoot, address, answer);
      && (r.Success? <==> cached || (fetched.Success? && SlotKey(slot) in SlotKeys(answer.proof.value.storageProof)))
      && (r.Failure? ==> r.error == if fetched.Failure? then fetched.error else SlotNotFound)
  {
    if ProvedAccount(keccak, stateRoot, address, answer).Success? {
      SlotsOfProofs(keccak, answer.proof.value.storageHash, answer.proof.value.storageProof);
    }
  }

  /** And every slot it reports has the state's value. */
  lemma StorageTransparent(keccak: Digest, stateRoot: Bytes, world: World, accounts: AccountCache,
                           address: Bytes, slot: nat, answer: Answer)
    requires Committed(keccak, stateRoot, world) && FaithfulCache(world, accounts)
    requires SoundAnswer(keccak, world, address, answer)
    ensures
      var r := StorageOf(keccak, stateRoot, accounts, address, slot, answer);
      r.Success? ==> r.value == SlotAt(AccountAt(world, address), SlotKey(slot))
  {
    if ProvedAccount(keccak, stateRoot, address, answer).Success? {
      AccountFaithful(keccak, stateRoot, world, address, answer);
    }
  }

  /** So two databases that differ in their caches never disagree. */
  lemma CachesAgree(keccak: Digest, stateRoot: Bytes, world: World, c1: AccountCache, c2: AccountCache,
                    address: Bytes, slot: nat, a1: Answer, a2: Answer)
    requires Committed(keccak, stateRoot, world) && FaithfulCache(world, c1) && FaithfulCache(world, c2)
    requires SoundAnswer(keccak, world, address, a1) && SoundAnswer(keccak, world, address, a2)
    ensures
      var r1, r2 := BasicOf(keccak, stateRoot, c1, address, a1), BasicOf(keccak, stateRoot, c2, address, a2);
      r1.Success? && r2.Success? ==> r1 == r2
    ensures
      var r1 := StorageOf(keccak, stateRoot, c1, address, slot, a1);
      var r2 := StorageOf(keccak, stateRoot, c2, address, slot, a2);
      r1.Success? && r2.Success? ==> r1 == r2
  {
    if !IsPrecompile(address) {
      BasicReported(keccak, stateRoot, world, c1, address, a1);
      BasicReported(keccak, stateRoot, world, c2, address, a2);
    }
    StorageTransparent(keccak, stateRoot, world, c1, address, slot, a1);
    StorageTransparent(keccak, stateRoot, world, c2, address, slot, a2);
  }
}
