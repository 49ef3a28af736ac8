/** The node: it keeps the payloads of the most recent blocks. */
module Node {
  import opened Results
  import opened Rlp
  import opened Ssz
  import opened LightClient
  import opened ConsensusClient
  import opened Backfill
  import opened PayloadWindow
  import opened LightClientSafety
  import opened RunHistory

  datatype BlockTag = Latest | Finalized | Number(n: nat)

  datatype NodeError =
    | ExecutionError
    | ConsensusSyncError(error: ConsensusError)
    | ConsensusAdvanceError(error: ConsensusError)
    | ConsensusPayloadError(error: ConsensusError)
    | OutOfSync(delay: nat)

  function Insert(all: Payloads, p: ExecutionPayload): Payloads {
    all[p.blockNumber := p]
  }

  /** Everything inserted, later payloads replacing earlier ones of their number. */
  function InsertAll(all: Payloads, ps: seq<ExecutionPayload>): Payloads {
    if ps == [] then all else Insert(InsertAll(all, ps[..|ps| - 1]), ps[|ps| - 1])
  }

  lemma {:induction false} InsertAllAppend(all: Payloads, a: seq<ExecutionPayload>, b: seq<ExecutionPayload>)
    ensures InsertAll(all, a + b) == InsertAll(InsertAll(all, a), b)
  {
    if b == [] {
      assert a + b == a;
    } else {
      var n := |b| - 1;
      assert (a + b)[..|a + b| - 1] == a + b[..n];
      InsertAllAppend(all, a, b[..n]);
    }
  }

  lemma InsertTwo(all: Payloads, p: ExecutionPayload, q: ExecutionPayload)
    ensures InsertAll(all, [p, q]) == Insert(Insert(all, p), q)
  {
    assert [p, q][..1] == [p] && [p][..0] == [];
    assert InsertAll(all, [p]) == Insert(all, p);
  }

  function FinalizedBound(historySize: nat): (n: nat)
    ensures n >= 1 && n >= historySize / 32 && (n == 1 || n == historySize / 32)
  {
    if historySize / 32 > 1 then historySize / 32 else 1
  }

  /** Looking up by tag in a map of payloads. */
  function LookupIn(recent: Payloads, finalized: Payloads, tag: BlockTag): Option<ExecutionPayload> {
    match tag
    case Latest => if recent.Keys == {} then None else Some(recent[MaxKey(recent.Keys)])
    case Finalized => if finalized.Keys == {} then None else Some(finalized[MaxKey(finalized.Keys)])
    case Number(n) => if n in recent then Some(recent[n]) else None
  }

  /** The payload of the highest number of a map, none if it is empty. */
  predicate IsNewest(p: Option<ExecutionPayload>, all: Payloads) {
    match p
    case None => all == map[]
    case Some(q) =>
      exists k :: k in all && all[k] == q && forall j :: j in all ==> j <= k
  }

  /*** What Latest finds ***/

  predicate Numbered(all: Payloads) {
    forall k :: k in all ==> all[k].blockNumber == k
  }

  /** The last payload of a number. */
  function LastWith(ps: seq<ExecutionPayload>, n: nat): Option<ExecutionPayload> {
    if ps == [] then None
    else if ps[|ps| - 1].blockNumber == n then Some(ps[|ps| - 1])
    else LastWith(ps[..|ps| - 1], n)
  }

  lemma {:induction false} InsertedAt(all: Payloads, ps: seq<ExecutionPayload>, n: nat)
    ensures n in InsertAll(all, ps) <==> n in all || LastWith(ps, n).Some?
    ensures n in InsertAll(all, ps) ==>
              InsertAll(all, ps)[n] == if LastWith(ps, n).Some? then LastWith(ps, n).value else all[n]
  {
    if ps != [] {
      InsertedAt(all, ps[..|ps| - 1], n);
    }
  }

  lemma {:induction false} LastWithExact(ps: seq<ExecutionPayload>, n: nat)
    ensures LastWith(ps, n).Some? <==> exists i :: 0 <= i < |ps| && ps[i].blockNumber == n
    ensures LastWith(ps, n).Some? ==> LastWith(ps, n).value.blockNumber == n && LastWith(ps, n).value in ps
  {
    if ps != [] {
      var last := |ps| - 1;
      LastWithExact(ps[..last], n);
      if i :| 0 <= i < |ps| && ps[i].blockNumber == n {
        assert i < last ==> ps[..last][i] == ps[i];
      }
    }
  }

  /** No number inserted before or now is above that of the first payload of `log`,
      and the last payload of its number is that payload. */
  predicate HeadStands(before: Payloads, log: seq<ExecutionPayload>)
    requires log != []
  {
    var n := log[0].blockNumber;
    && (forall k :: k in before ==> k <= n)
    && (forall i :: 0 <= i < |log| ==> log[i].blockNumber <= n)
    && LastWith(log, n) == Some(log[0])
  }

  /** Exactly when the latest payload is the head's: nothing with a higher number was
      ever inserted, and nothing of the same number after it. */
  lemma LatestExact(before: Payloads, log: seq<ExecutionPayload>, finalized: Payloads)
    requires Numbered(before) && log != []
    ensures LookupIn(InsertAll(before, log), finalized, Latest) == Some(log[0]) <==> HeadStands(before, log)
  {
    var all, n := InsertAll(before, log), log[0].blockNumber;
    InsertedAt(before, log, n);
    LastWithExact(log, n);
    var top := MaxKey(all.Keys);
    InsertedAt(before, log, top);
    LastWithExact(log, top);
    forall k | k in before
      ensures k <= top
    {
      InsertedAt(before, log, k);
    }
    forall i | 0 <= i < |log|
      ensures log[i].blockNumber <= top
    {
      InsertedAt(before, log, log[i].blockNumber);
      LastWithExact(log, log[i].blockNumber);
    }
  }

  /** A server with two blocks. */
  function TwoBlocks(slot: nat, older: ExecutionPayload, newer: ExecutionPayload): BlockRpc {
    s =>
      if s == slot then Some(BeaconBlock(s, 0, ZERO_NODE, ZERO_NODE, BeaconBlockBody(older, ZERO_NODE)))
      else if s == slot + 1 then Some(BeaconBlock(s, 0, ZERO_NODE, ZERO_NODE, BeaconBlockBody(newer, ZERO_NODE)))
      else None
  }

  /** The head's payload can be displaced: a backfilled payload with its number or a
      higher one, and any state root, is what Latest then finds. With its own number
      the head's payload is gone from the map. */
  lemma HeadDisplaced(latest: ExecutionPayload, finalized: ExecutionPayload, stateRoot: Bytes, n: nat, slot: nat)
    requires latest.blockNumber <= n && finalized.blockNumber <= n && stateRoot != latest.stateRoot
    ensures
      var other := latest.(blockHash := latest.parentHash, stateRoot := stateRoot, blockNumber := n);
      var all := InsertAll(map[], [latest, finalized] + [other]);
      && LongestLinked([other], Fetched(TwoBlocks(slot, other, latest), slot, slot + 1), latest.parentHash)
      && LookupIn(all, map[], Latest) == Some(other) && other != latest
      && (n == latest.blockNumber ==> latest !in all.Values)
  {
    var other := latest.(blockHash := latest.parentHash, stateRoot := stateRoot, blockNumber := n);
    var before := InsertAll(map[], [latest, finalized]);
    InsertAllAppend(map[], [latest, finalized], [other]);
    InsertTwo(map[], latest, finalized);
    assert [other][..0] == [];
    assert InsertAll(before, [other]) == Insert(before, other);
    assert Fetched(TwoBlocks(slot, other, latest), slot, slot) == [];
    assert Fetched(TwoBlocks(slot, other, latest), slot, slot + 1) == [other];
    assert [other][1..] == [] && Linked([other], latest.parentHash);
    var all := InsertAll(map[], [latest, finalized] + [other]);
    assert all == map[latest.blockNumber := latest][finalized.blockNumber := finalized][n := other];
    assert n in all.Keys && forall k :: k in all.Keys ==> k <= n;
  }

  /*** Against an honest chain ***/

  /** Every payload is of a block of the chain at a slot up to `slot`. */
  ghost predicate FromChain(chain: BlockRpc, all: Payloads, slot: nat) {
    forall k :: k in all ==>
      exists s: nat :: s <= slot && chain(s).Some? && all[k] == chain(s).value.body.payload && all[k].blockNumber == k
  }

  /** Numbers grow along the chain. */
  lemma NumbersGrow(chain: BlockRpc, a: nat, b: nat)
    requires Chained(chain) && a < b && chain(a).Some? && chain(b).Some?
    ensures chain(a).value.body.payload.blockNumber < chain(b).value.body.payload.blockNumber
  {
    FetchedLinked(chain, a, b, b);
    LinkedDownExact(Fetched(chain, a, b), chain(b).value.body.payload);
    FetchedCovers(chain, a, b, a);
  }

  /** What one update inserts when every answer is the chain's: the head's payload, a
      finalized one and the backfill. */
  ghost predicate HonestLog(chain: BlockRpc, log: seq<ExecutionPayload>, startSlot: nat, head: nat, finalized: nat) {
    && Chained(chain) && |log| >= 2 && finalized <= head
    && chain(head).Some? && log[0] == chain(head).value.body.payload
    && chain(finalized).Some? && log[1] == chain(finalized).value.body.payload
    && LongestLinked(log[2..], Fetched(chain, startSlot, head), log[0].parentHash)
  }

  /** A payload of the chain below the head has a lower number, and the head's own
      is the head's. */
  ghost predicate AtMostHead(chain: BlockRpc, head: nat, p: ExecutionPayload)
    requires chain(head).Some?
  {
    var top := chain(head).value.body.payload;
    && p.blockNumber <= top.blockNumber && (p.blockNumber == top.blockNumber ==> p == top)
    && exists s: nat :: s <= head && chain(s).Some? && p == chain(s).value.body.payload
  }

  lemma ChainAtMostHead(chain: BlockRpc, head: nat, s: nat)
    requires Chained(chain) && chain(head).Some? && s <= head && chain(s).Some?
    ensures AtMostHead(chain, head, chain(s).value.body.payload)
  {
    if s < head {
      NumbersGrow(chain, s, head);
    }
  }

  lemma LogAtMostHead(chain: BlockRpc, log: seq<ExecutionPayload>, startSlot: nat, head: nat, finalized: nat, i: nat)
    requires HonestLog(chain, log, startSlot, head, finalized) && i < |log|
    ensures AtMostHead(chain, head, log[i])
  {
    if i == 0 {
      ChainAtMostHead(chain, head, head);
    } else if i == 1 {
      ChainAtMostHead(chain, head, finalized);
    } else {
      assert log[i] == log[2..][i - 2] == Fetched(chain, startSlot, head)[i - 2];
      FetchedFrom(chain, startSlot, head, log[i]);
      var s: nat :| startSlot <= s < head && chain(s).Some? && chain(s).value.body.payload == log[i];
      ChainAtMostHead(chain, head, s);
    }
  }

  /** Against an honest server the latest payload is always the head's: from maps
      filled from the chain, an update leaves maps filled from the chain, and Latest
      finds the payload of the head. */
  lemma HonestLatest(chain: BlockRpc, before: Payloads, log: seq<ExecutionPayload>, finalizedMap: Payloads,
                     startSlot: nat, last: nat, head: nat, finalized: nat)
    requires HonestLog(chain, log, startSlot, head, finalized)
    requires FromChain(chain, before, last) && last <= head
    ensures FromChain(chain, InsertAll(before, log), head)
    ensures LookupIn(InsertAll(before, log), finalizedMap, Latest) == Some(log[0])
  {
    forall i | 0 <= i < |log|
      ensures AtMostHead(chain, head, log[i])
    {
      LogAtMostHead(chain, log, startSlot, head, finalized, i);
    }
    forall k | k in before
      ensures AtMostHead(chain, head, before[k])
    {
      var s: nat :|
        s <= last && chain(s).Some? && before[k] == chain(s).value.body.payload && before[k].blockNumber == k;
      ChainAtMostHead(chain, head, s);
    }
    var n := log[0].blockNumber;
    LastWithExact(log, n);
    LatestExact(before, log, finalizedMap);
    forall k | k in InsertAll(before, log)
      ensures AtMostHead(chain, head, InsertAll(before, log)[k]) && InsertAll(before, log)[k].blockNumber == k
    {
      InsertedAt(before, log, k);
      LastWithExact(log, k);
    }
  }

  lemma HighestInserted(all: Payloads, p: ExecutionPayload)
    requires forall k :: k in all ==> k <= p.blockNumber
    ensures p.blockNumber in Insert(all, p).Keys && MaxKey(Insert(all, p).Keys) == p.blockNumber
  {
    assert p.blockNumber in Insert(all, p).Keys;
  }

  /** And the finalized payload is the one that was just inserted, when the map was
      filled from the chain up to a slot that is not past it. */
  lemma HonestFinalized(chain: BlockRpc, before: Payloads, recent: Payloads, last: nat, finalized: nat)
    requires Chained(chain) && chain(finalized).Some?
    requires FromChain(chain, before, last) && last <= finalized
    ensures
      var p := chain(finalized).value.body.payload;
      && FromChain(chain, Insert(before, p), finalized)
      && LookupIn(recent, Insert(before, p), Finalized) == Some(p)
  {
    var p := chain(finalized).value.body.payload;
    forall k | k in before
      ensures k <= p.blockNumber
    {
      var s: nat :|
        s <= last && chain(s).Some? && before[k] == chain(s).value.body.payload && before[k].blockNumber == k;
      ChainAtMostHead(chain, finalized, s);
    }
    HighestInserted(before, p);
  }

  /** The difference of two 64-bit slots. */
  function SlotDelay(expectedSlot: nat, syncedSlot: nat): nat {
    Wrap(expectedSlot - syncedSlot)
  }

  /** The longest linked prefix of what the server gives below the end block. */
  ghost predicate Backfilled(ps: seq<ExecutionPayload>, rpc: BlockRpc, startSlot: nat, endSlot: nat) {
    && rpc(endSlot).Some?
    && LongestLinked(ps, Fetched(rpc, startSlot, endSlot), rpc(endSlot).value.body.payload.parentHash)
  }

  /** With a head younger than the history nothing is backfilled the first time. */
  lemma EarlyBackfill(ps: seq<ExecutionPayload>, rpc: BlockRpc, startSlot: nat, endSlot: nat)
    requires Backfilled(ps, rpc, startSlot, endSlot) && startSlot >= endSlot
    ensures ps == []
  {
  }

  /*** Sync and advance ***/

  /** Whether the two servers are of the right chain. */
  datatype ChainChecks = ChainChecks(execution: bool, consensus: Result<(), ConsensusError>)

  /** What the consensus server answers to a sync, to an advance and to an update of
      the payloads. */
  datatype SyncAnswers = SyncAnswers(
    bootstrap: Option<Bootstrap>,
    updates: Option<seq<Update>>,
    finality: Option<Update>,
    optimistic: Option<Update>,
    clock: nat -> nat)

  datatype AdvanceAnswers = AdvanceAnswers(
    finality: Option<Update>,
    optimistic: Option<Update>,
    updates: Option<seq<Update>>,
    clock: nat -> nat)

  datatype PayloadAnswers = PayloadAnswers(
    latestBlock: Option<BeaconBlock>,
    finalizedBlock: Option<BeaconBlock>,
    rpc: BlockRpc)

  /** What the consensus part of a sync comes to. */
  ghost function SyncOutcome(setup: Setup, st: ClientState, checks: ChainChecks, a: SyncAnswers)
    : (r: (ClientState, Result<(), NodeError>))
    requires ClockAfterGenesis(setup.config, a.clock)
    ensures !checks.execution ==> r == (st, Failure(ExecutionError))
    ensures checks.execution && checks.consensus.Failure? ==>
              r == (st, Failure(ConsensusSyncError(checks.consensus.error)))
    ensures checks.execution && checks.consensus.Success? ==>
              var events := SyncEvents(a.bootstrap, a.updates, a.finality, a.optimistic, a.clock);
              && AllAfterGenesis(setup, events)
              && r.0 == RunStrict(setup, st, events).state
              && match RunStrict(setup, st, events).result
                 case Success(_) => r.1 == Success(())
                 case Failure(e) => r.1 == Failure(ConsensusSyncError(e))
  {
    if !checks.execution then (st, Failure(ExecutionError))
    else if checks.consensus.Failure? then (st, Failure(ConsensusSyncError(checks.consensus.error)))
    else
      var events := SyncEvents(a.bootstrap, a.updates, a.finality, a.optimistic, a.clock);
      assert AllAfterGenesis(setup, events);
      var out := RunStrict(setup, st, events);
      (out.state, if out.result.Failure? then Failure(ConsensusSyncError(out.result.error)) else Success(()))
  }

  class Node {
    const consensus: ConsensusClient
    const historySize: nat
    var payloads: Payloads
    var finalizedPayloads: Payloads
    var currentSlot: Option<nat>

    // everything ever inserted, without a bound
    ghost var inserted: Payloads
    ghost var finalizedInserted: Payloads

    ghost predicate Valid()
      reads this
    {
      && historySize > 0
      && Keeps(payloads, inserted, historySize)
      && Keeps(finalizedPayloads, finalizedInserted, FinalizedBound(historySize))
      && Numbered(inserted) && Numbered(finalizedInserted)
    }

    constructor (consensus: ConsensusClient)
      ensures Valid() && this.consensus == consensus && historySize == 64
      ensures payloads == finalizedPayloads == inserted == finalizedInserted == map[]
      ensures currentSlot == None
    {
      this.consensus := consensus;
      historySize := 64;
      payloads, finalizedPayloads := map[], map[];
      inserted, finalizedInserted := map[], map[];
      currentSlot := None;
    }

    /** Every finalized payload ever kept is that of a canonical header. */
    ghost predicate FinalizedCanonical(chain: Chain)
      reads this
    {
      forall k :: k in finalizedInserted ==>
        exists h: Header :: chain.canon(h) && Commits(h, finalizedInserted[k])
    }

    /** The payloads of the head and of the finalized block, checked against the
        consensus client's headers. When the two have the same slot, the finalized
        payload is checked against the head's header. */
    method FetchHeads(latestBlock: Option<BeaconBlock>, finalizedBlock: Option<BeaconBlock>)
      returns (r: Result<(ExecutionPayload, ExecutionPayload), NodeError>)
      ensures r.Success? ==> HeadsCommitted(r.value.0, r.value.1)
      ensures
        var head := ProvedPayload(consensus.store, Some(consensus.store.optimisticHeader.slot), latestBlock);
        var final := ProvedPayload(consensus.store, Some(consensus.store.finalizedHeader.slot), finalizedBlock);
        && (r.Success? <==> HeadsProved(latestBlock, finalizedBlock))
        && (r.Failure? ==>
              r.error == ConsensusPayloadError(if head.Failure? then head.error else final.error))
    {
      var latest := consensus.GetExecutionPayload(Some(consensus.store.optimisticHeader.slot), latestBlock);
      if latest.Failure? {
        return Failure(ConsensusPayloadError(latest.error));
      }
      var finalized := consensus.GetExecutionPayload(Some(consensus.store.finalizedHeader.slot), finalizedBlock);
      if finalized.Failure? {
        return Failure(ConsensusPayloadError(finalized.error));
      }
      PayloadExact(consensus.store, Some(consensus.store.optimisticHeader.slot), latest.value);
      PayloadExact(consensus.store, Some(consensus.store.finalizedHeader.slot), finalized.value);
      return Success((latest.value, finalized.value));
    }

    /** Both heads' blocks are there and have their headers' roots. */
    predicate HeadsProved(latestBlock: Option<BeaconBlock>, finalizedBlock: Option<BeaconBlock>)
      reads consensus
    {
      var s := consensus.store;
      && ProvedPayload(s, Some(s.optimisticHeader.slot), latestBlock).Success?
      && ProvedPayload(s, Some(s.finalizedHeader.slot), finalizedBlock).Success?
    }

    predicate HeadsCommitted(latest: ExecutionPayload, finalized: ExecutionPayload)
      reads consensus
    {
      var head, final := consensus.store.optimisticHeader, consensus.store.finalizedHeader;
      Commits(head, latest) && Commits(if final.slot == head.slot then head else final, finalized)
    }

    /** After a success both maps are exactly the newest part of everything ever
        inserted. After a failure they may hold more, never less and never
        anything else. `log` is what this call inserts, in order: the head's
        payload, the finalized one, then the backfill. */
    method UpdatePayloads(latestBlock: Option<BeaconBlock>, finalizedBlock: Option<BeaconBlock>, rpc: BlockRpc)
      returns (r: Result<(), NodeError>, ghost log: seq<ExecutionPayload>)
      requires Valid()
      modifies this
      ensures Valid()
      ensures r.Success? <==>
                HeadsProved(latestBlock, finalizedBlock) && rpc(consensus.store.optimisticHeader.slot).Some?
      ensures log != [] <==> HeadsProved(latestBlock, finalizedBlock)
      ensures inserted == InsertAll(old(inserted), log)
      ensures log == [] || (|log| >= 2 && finalizedInserted == Insert(old(finalizedInserted), log[1]))
      ensures log == [] ==> r.Failure? && finalizedInserted == old(finalizedInserted)
      ensures log != [] ==> HeadsCommitted(log[0], log[1])
      ensures log != [] && HeadsAgree(consensus.store) ==>
                Commits(consensus.store.finalizedHeader, log[1])
      ensures log != [] ==>
                (LookupIn(inserted, finalizedInserted, Latest) == Some(log[0]) <==> HeadStands(old(inserted), log))
      ensures
        var head := consensus.store.optimisticHeader.slot;
        r.Success? ==>
          log != [] && currentSlot == Some(head) && Backfilled(log[2..], rpc, old(StartSlot(head)), head)
      ensures r.Success? ==>
                && payloads == Newest(inserted, historySize)
                && finalizedPayloads == Newest(finalizedInserted, FinalizedBound(historySize))
      ensures r.Failure? ==> currentSlot == old(currentSlot)
    {
      ghost var before := inserted;
      r, log := UpdateHeads(latestBlock, finalizedBlock);
      if r.Failure? {
        return;
      }
      LatestExact(before, log, finalizedInserted);
      var latestHeader := consensus.store.optimisticHeader;
      var backfill := AddBackfill(rpc, latestHeader.slot);
      if backfill.Failure? {
        return Failure(ConsensusPayloadError(backfill.error)), log;
      }
      InsertAllAppend(before, log, backfill.value);
      log := log + backfill.value;
      assert log[2..] == backfill.value;
      LatestExact(before, log, finalizedInserted);
      currentSlot := Some(latestHeader.slot);
      Trim();
      return Success(()), log;
    }

    /** The two checks of the servers' chain ids and the consensus client's sync. */
    method SyncConsensus(checks: ChainChecks, a: SyncAnswers, ghost chain: Chain) returns (r: Result<(), NodeError>)
      requires ClockAfterGenesis(consensus.config, a.clock)
      modifies consensus
      ensures (consensus.State(), r) == SyncOutcome(consensus.Setting(), old(consensus.State()), checks, a)
      ensures Assumed(chain, consensus.Setting()) && r.Success? ==> Secure(chain, consensus.store)
    {
      if Assumed(chain, consensus.Setting()) {
        SyncSecure(chain, consensus.Setting(), consensus.State(),
                   a.bootstrap, a.updates, a.finality, a.optimistic, a.clock);
      }
      if !checks.execution {
        return Failure(ExecutionError);
      }
      if checks.consensus.Failure? {
        return Failure(ConsensusSyncError(checks.consensus.error));
      }
      var synced := consensus.Sync(a.bootstrap, a.updates, a.finality, a.optimistic, a.clock);
      if synced.Failure? {
        return Failure(ConsensusSyncError(synced.error));
      }
      return Success(());
    }

    /** Then the payloads. The first failure ends it. Whatever the servers answer,
        the finalized payloads stay canonical, and a sync that gets as far as the
        payloads leaves a secure store. */
    method Sync(checks: ChainChecks, a: SyncAnswers, b: PayloadAnswers, ghost chain: Chain)
      returns (r: Result<(), NodeError>, ghost log: seq<ExecutionPayload>)
      requires Valid() && ClockAfterGenesis(consensus.config, a.clock)
      modifies this, consensus
      ensures Valid() && inserted == InsertAll(old(inserted), log)
      ensures
        var (state, result) := SyncOutcome(consensus.Setting(), old(consensus.State()), checks, a);
        consensus.State() == state && (result.Failure? ==> r == result && log == [])
      ensures Assumed(chain, consensus.Setting()) && old(FinalizedCanonical(chain)) ==> FinalizedCanonical(chain)
      ensures Assumed(chain, consensus.Setting()) && log != [] ==> Secure(chain, consensus.store)
    {
      log := [];
      r := SyncConsensus(checks, a, chain);
      if r.Failure? {
        return;
      }
      r, log := UpdatePayloads(b.latestBlock, b.finalizedBlock, b.rpc);
    }

    method AdvanceConsensus(a: AdvanceAnswers, ghost chain: Chain) returns (r: Result<(), NodeError>)
      requires ClockAfterGenesis(consensus.config, a.clock)
      modifies consensus
      ensures
        var out := AdvanceOutcome(consensus.Setting(), old(consensus.State()),
                                  a.finality, a.optimistic, a.updates, a.clock);
        && consensus.State() == out.state
        && r == if out.result.Failure? then Failure(ConsensusAdvanceError(out.result.error)) else Success(())
      ensures Assumed(chain, consensus.Setting()) && old(Secure(chain, consensus.store)) ==>
                Secure(chain, consensus.store)
    {
      if Assumed(chain, consensus.Setting()) && Secure(chain, consensus.store) {
        AdvanceSecure(chain, consensus.Setting(), consensus.State(), a.finality, a.optimistic, a.updates, a.clock);
      }
      var advanced := consensus.Advance(a.finality, a.optimistic, a.updates, a.clock);
      if advanced.Failure? {
        return Failure(ConsensusAdvanceError(advanced.error));
      }
      return Success(());
    }

    /** The consensus client's advance, then the payloads. A secure store stays
        secure and the finalized payloads canonical, whether it fails or not. */
    method Advance(a: AdvanceAnswers, b: PayloadAnswers, ghost chain: Chain)
      returns (r: Result<(), NodeError>, ghost log: seq<ExecutionPayload>)
      requires Valid() && ClockAfterGenesis(consensus.config, a.clock)
      modifies this, consensus
      ensures Valid() && inserted == InsertAll(old(inserted), log)
      ensures
        var out := AdvanceOutcome(consensus.Setting(), old(consensus.State()),
                                  a.finality, a.optimistic, a.updates, a.clock);
        && consensus.State() == out.state
        && (out.result.Failure? ==> r == Failure(ConsensusAdvanceError(out.result.error)) && log == [])
      ensures Assumed(chain, consensus.Setting())
              && old(Secure(chain, consensus.store) && FinalizedCanonical(chain)) ==>
                Secure(chain, consensus.store) && FinalizedCanonical(chain)
    {
      log := [];
      r := AdvanceConsensus(a, chain);
      if r.Failure? {
        return;
      }
      r, log := UpdatePayloads(b.latestBlock, b.finalizedBlock, b.rpc);
    }

    /** Where the backfill starts: at the last head, or a history before this one. A
        head younger than the history makes the subtraction wrap around, past the
        head. */
    function StartSlot(head: nat): (start: nat)
      reads this
      ensures currentSlot.Some? ==> start == currentSlot.value
      ensures currentSlot.None? && head < 0x1_0000_0000_0000_0000 && historySize <= 0x1_0000_0000_0000_0000 ==>
                if historySize <= head then start == head - historySize else start >= head
    {
      if currentSlot.Some? then currentSlot.value else Wrap(head - historySize)
    }

    method AddBackfill(rpc: BlockRpc, endSlot: nat) returns (r: Result<seq<ExecutionPayload>, ConsensusError>)
      requires Valid()
      modifies this`payloads, this`inserted
      ensures Valid()
      ensures r.Success? <==> rpc(endSlot).Some?
      ensures r.Failure? ==> inserted == old(inserted)
      ensures r.Success? ==>
                && inserted == InsertAll(old(inserted), r.value)
                && Backfilled(r.value, rpc, old(StartSlot(endSlot)), endSlot)
    {
      r := GetPayloads(rpc, StartSlot(endSlot), endSlot);
      if r.Success? {
        AddAll(r.value);
      }
    }

    method UpdateHeads(latestBlock: Option<BeaconBlock>, finalizedBlock: Option<BeaconBlock>)
      returns (r: Result<(), NodeError>, ghost log: seq<ExecutionPayload>)
      requires Valid()
      modifies this`payloads, this`inserted, this`finalizedPayloads, this`finalizedInserted
      ensures Valid() && inserted == InsertAll(old(inserted), log)
      ensures r.Success? <==> HeadsProved(latestBlock, finalizedBlock)
      ensures r.Failure? ==> log == [] && finalizedInserted == old(finalizedInserted)
      ensures r.Success? ==>
                && |log| == 2 && finalizedInserted == Insert(old(finalizedInserted), log[1])
                && HeadsCommitted(log[0], log[1])
    {
      var heads := FetchHeads(latestBlock, finalizedBlock);
      if heads.Failure? {
        return Failure(heads.error), [];
      }
      var (latest, finalized) := heads.value;
      AddHeads(latest, finalized);
      return Success(()), [latest, finalized];
    }

    method AddHeads(latest: ExecutionPayload, finalized: ExecutionPayload)
      requires Valid()
      modifies this`payloads, this`inserted, this`finalizedPayloads, this`finalizedInserted
      ensures Valid() && inserted == InsertAll(old(inserted), [latest, finalized])
      ensures finalizedInserted == Insert(old(finalizedInserted), finalized)
    {
      AddPayload(latest);
      AddPayload(finalized);
      AddFinalized(finalized);
      InsertTwo(old(inserted), latest, finalized);
    }

    method AddPayload(p: ExecutionPayload)
      requires Valid()
      modifies this`payloads, this`inserted
      ensures Valid() && inserted == Insert(old(inserted), p)
    {
      InsertKeeps(payloads, inserted, historySize, p.blockNumber, p);
      payloads := payloads[p.blockNumber := p];
      inserted := inserted[p.blockNumber := p];
    }

    method AddAll(ps: seq<ExecutionPayload>)
      requires Valid()
      modifies this`payloads, this`inserted
      ensures Valid() && inserted == InsertAll(old(inserted), ps)
    {
      for i := 0 to |ps|
        invariant Valid() && inserted == InsertAll(old(inserted), ps[..i])
      {
        AddPayload(ps[i]);
        assert ps[..i + 1][..i] == ps[..i];
      }
      assert ps[..|ps|] == ps;
    }

    method AddFinalized(p: ExecutionPayload)
      requires Valid()
      modifies this`finalizedPayloads, this`finalizedInserted
      ensures Valid() && finalizedInserted == Insert(old(finalizedInserted), p)
    {
      InsertKeeps(finalizedPayloads, finalizedInserted, FinalizedBound(historySize), p.blockNumber, p);
      finalizedPayloads := finalizedPayloads[p.blockNumber := p];
      finalizedInserted := finalizedInserted[p.blockNumber := p];
    }

    method Trim()
      requires Valid()
      modifies this`payloads, this`finalizedPayloads
      ensures Valid() && payloads == Newest(inserted, historySize)
      ensures finalizedPayloads == Newest(finalizedInserted, FinalizedBound(historySize))
    {
      TrimPayloads();
      TrimFinalized();
    }

    method TrimPayloads()
      requires Valid()
      modifies this`payloads
      ensures Valid() && payloads == Newest(inserted, historySize)
    {
      while |payloads| > historySize
        invariant Valid()
        decreases |payloads|
      {
        PopKeeps(payloads, inserted, historySize);
        payloads := payloads - {MinKey(payloads.Keys)};
      }
      TrimmedIsNewest(payloads, inserted, historySize);
    }

    method TrimFinalized()
      requires Valid()
      modifies this`finalizedPayloads
      ensures Valid() && finalizedPayloads == Newest(finalizedInserted, FinalizedBound(historySize))
    {
      while |finalizedPayloads| > FinalizedBound(historySize)
        invariant Valid()
        decreases |finalizedPayloads|
      {
        PopKeeps(finalizedPayloads, finalizedInserted, FinalizedBound(historySize));
        finalizedPayloads := finalizedPayloads - {MinKey(finalizedPayloads.Keys)};
      }
      TrimmedIsNewest(finalizedPayloads, finalizedInserted, FinalizedBound(historySize));
    }

    /** Every lookup that finds something finds what the unbounded maps have, and
        the tags always find what they find there: Latest the payload of the highest
        number ever inserted, Finalized that of the highest number ever inserted as
        finalized, which is a canonical one. This holds also between a failed update
        and the next successful one. */
    method GetPayload(tag: BlockTag, ghost chain: Chain) returns (p: Option<ExecutionPayload>)
      requires Valid()
      ensures tag.Latest? ==> IsNewest(p, inserted)
      ensures tag.Finalized? ==> IsNewest(p, finalizedInserted)
      ensures tag.Finalized? && FinalizedCanonical(chain) && p.Some? ==>
                exists h: Header :: chain.canon(h) && Commits(h, p.value)
      ensures tag.Number? && p.Some? ==>
                tag.n in inserted && p.value == inserted[tag.n] && p.value.blockNumber == tag.n
      ensures p.Some? ==> p == LookupIn(inserted, finalizedInserted, tag)
      ensures !tag.Number? ==> p == LookupIn(inserted, finalizedInserted, tag)
      ensures tag.Number? && p.None? && tag.n in inserted ==>
                |Above(inserted.Keys, tag.n)| >= historySize
    {
      p := LookupIn(payloads, finalizedPayloads, tag);
      if inserted.Keys != {} {
        MaxAgrees(payloads, inserted, historySize);
      }
      if finalizedInserted.Keys != {} {
        MaxAgrees(finalizedPayloads, finalizedInserted, FinalizedBound(historySize));
      }
    }

    method CheckHeadAge(now: nat) returns (r: Result<(), NodeError>)
      requires consensus.config.genesisTime <= now
      ensures
        var expectedSlot := ExpectedCurrentSlot(consensus.config, now);
        r == if SlotDelay(expectedSlot, consensus.store.optimisticHeader.slot) > 10
             then Failure(OutOfSync(SlotDelay(expectedSlot, consensus.store.optimisticHeader.slot)))
             else Success(())
    {
      var syncedSlot := consensus.store.optimisticHeader.slot;
      var expectedSlot := ExpectedCurrentSlot(consensus.config, now);
      var slotDelay := SlotDelay(expectedSlot, syncedSlot);
      if slotDelay > 10 {
        return Failure(OutOfSync(slotDelay));
      }
      return Success(());
    }
  }

  /** In every state that a run keeps in order, the head-age subtraction does not
      underflow: the delay is the true number of slots the head is behind. */
  lemma HeadAgeExact(s: LightClientStore, currentSlot: nat)
    requires Ordered(s, currentSlot) && currentSlot < 0x1_0000_0000_0000_0000
    ensures SlotDelay(currentSlot, s.optimisticHeader.slot) == currentSlot - s.optimisticHeader.slot
  {
    NoWrap(currentSlot - s.optimisticHeader.slot);
  }

  /** A head ahead of the clock counts as far behind: the subtraction wraps around. */
  lemma HeadAheadOfClock(head: nat, currentSlot: nat)
    requires currentSlot < head < 0x1_0000_0000_0000_0000
    ensures SlotDelay(currentSlot, head) == 0x1_0000_0000_0000_0000 - (head - currentSlot)
    ensures SlotDelay(currentSlot, head) > 10 <==> head - currentSlot < 0x1_0000_0000_0000_0000 - 10
  {
    NoWrap(0x1_0000_0000_0000_0000 - (head - currentSlot));
  }
}
