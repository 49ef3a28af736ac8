/** The consensus client: the object that fetches, checks and installs updates. */
module ConsensusClient {
  import opened Results
  import opened Ssz
  import opened LightClient

  method GetBits(bits: seq<bool>) returns (count: nat)
    ensures count == CountBits(bits)
  {
    count := 0;
    for i := 0 to |bits|
      invariant count == CountBits(bits[..i])
    {
      assert bits[..i + 1][..i] == bits[..i];
      if bits[i] {
        count := count + 1;
      }
    }
    assert bits[..|bits|] == bits;
  }

  method GetParticipatingKeys(committee: SyncCommittee, bits: Bits) returns (pks: seq<PublicKey>)
    ensures pks == ParticipatingKeys(committee.pubkeys, bits)
  {
    pks := [];
    for i := 0 to |bits|
      invariant pks == ParticipatingKeys(committee.pubkeys, bits[..i])
    {
      assert bits[..i + 1][..i] == bits[..i];
      if bits[i] {
        pks := pks + [committee.pubkeys[i]];
      }
    }
    assert bits[..|bits|] == bits;
  }

  /** The events of checking `updates` in order, the k-th at clock(first + k). */
  function DeliverAll(updates: seq<Update>, clock: nat -> nat, first: nat): (events: seq<Event>)
    ensures |events| == |updates|
    ensures forall i :: 0 <= i < |events| ==> events[i] == Deliver(updates[i], clock(first + i))
  {
    seq(|updates|, i requires 0 <= i < |updates| => Deliver(updates[i], clock(first + i)))
  }

  function DeliverOne(update: Option<Update>, now: nat): Event {
    if update.Some? then Deliver(update.value, now) else Silence
  }

  /** The events of advancing: a finality update, then an optimistic one. */
  function AdvanceEvents(finality: Option<Update>, optimistic: Option<Update>, clock: nat -> nat, first: nat)
    : seq<Event>
  {
    [DeliverOne(finality, clock(first)), DeliverOne(optimistic, clock(first + 1))]
  }

  /** The events of a sync. Nothing is checked after a fetch that fails. */
  function SyncEvents(bootstrap: Option<Bootstrap>, updates: Option<seq<Update>>,
                      finality: Option<Update>, optimistic: Option<Update>, clock: nat -> nat): seq<Event>
  {
    [if bootstrap.Some? then Boot(bootstrap.value, clock(0)) else Silence]
    + if updates.None? then [Silence]
      else DeliverAll(updates.value, clock, 1) + AdvanceEvents(finality, optimistic, clock, 1 + |updates.value|)
  }

  /** The clock never runs before genesis. */
  ghost predicate ClockAfterGenesis(config: Config, clock: nat -> nat) {
    forall k :: config.genesisTime <= clock(k)
  }

  /*** Payloads ***/

  /** The header a block is checked against: the head's before the finalized one. */
  function HeaderAt(s: LightClientStore, slot: nat): Option<Header> {
    if slot == s.optimisticHeader.slot then Some(s.optimisticHeader)
    else if slot == s.finalizedHeader.slot then Some(s.finalizedHeader)
    else None
  }

  /** What a server's answer for the block of a slot proves. */
  function ProvedPayload(s: LightClientStore, slot: Option<nat>, block: Option<BeaconBlock>)
    : Result<ExecutionPayload, ConsensusError>
  {
    var h := HeaderAt(s, if slot.Some? then slot.value else s.optimisticHeader.slot);
    if block.None? then Failure(Unavailable)
    else if h.None? then Failure(PayloadNotFound)
    else if BlockRoot(block.value) != HeaderRoot(h.value) then Failure(InvalidHeaderHash)
    else Success(block.value.body.payload)
  }

  predicate IsBodyRoot(root: Node) {
    root.Parent? && root.left.PayloadRoot?
  }

  /** The header commits to the payload. */
  predicate Commits(h: Header, p: ExecutionPayload) {
    IsBodyRoot(h.bodyRoot) && h.bodyRoot.left.payload == p
  }

  /** The block with a given header. */
  function BlockOf(h: Header): (b: BeaconBlock)
    requires IsBodyRoot(h.bodyRoot)
    ensures BlockRoot(b) == HeaderRoot(h) && Commits(h, b.body.payload)
  {
    BeaconBlock(h.slot, h.proposerIndex, h.parentRoot, h.stateRoot,
                BeaconBlockBody(h.bodyRoot.left.payload, h.bodyRoot.right))
  }

  lemma RootsAgree(h: Header, b: BeaconBlock)
    requires BlockRoot(b) == HeaderRoot(h)
    ensures b.slot == h.slot && Commits(h, b.body.payload)
  {
    assert BodyRoot(b.body) == HeaderRoot(h).right.left.left;
  }

  /** A payload can be obtained for a slot exactly if it is the one that the header
      of that slot commits to, the head's header where both have the slot. */
  lemma PayloadExact(s: LightClientStore, slot: Option<nat>, p: ExecutionPayload)
    ensures
      var at := if slot.Some? then slot.value else s.optimisticHeader.slot;
      (exists block :: ProvedPayload(s, slot, block) == Success(p))
      <==> HeaderAt(s, at).Some? && Commits(HeaderAt(s, at).value, p)
  {
    var h := HeaderAt(s, if slot.Some? then slot.value else s.optimisticHeader.slot);
    if block :| ProvedPayload(s, slot, block) == Success(p) {
      RootsAgree(h.value, block.value);
    }
    if h.Some? && Commits(h.value, p) {
      assert ProvedPayload(s, slot, Some(BlockOf(h.value))) == Success(p);
    }
  }

  /** Otherwise: the block was not fetched, its slot is neither the head's nor the
      finalized one, or its root is another. */
  lemma PayloadRefused(s: LightClientStore, slot: Option<nat>, block: Option<BeaconBlock>)
    requires ProvedPayload(s, slot, block).Failure?
    ensures
      var e := ProvedPayload(s, slot, block).error;
      var ofHead := slot.None? || slot.value == s.optimisticHeader.slot;
      var header := if ofHead then s.optimisticHeader else s.finalizedHeader;
      && (e == Unavailable <==> block.None?)
      && (e == PayloadNotFound <==> block.Some? && !ofHead && slot.value != s.finalizedHeader.slot)
      && (e == InvalidHeaderHash <==>
            && block.Some? && (ofHead || slot.value == s.finalizedHeader.slot)
            && BlockRoot(block.value) != HeaderRoot(header))
      && e in {Unavailable, PayloadNotFound, InvalidHeaderHash}
  {
  }

  /** Every payload that is accepted as the finalized one is the finalized header's
      if and only if the slots differ, or no payload can be accepted, or both
      headers commit to the same one. */
  lemma FinalizedPayloadExact(s: LightClientStore)
    ensures
      var head, final := s.optimisticHeader, s.finalizedHeader;
      (forall block ::
         var r := ProvedPayload(s, Some(final.slot), block);
         r.Success? ==> Commits(final, r.value))
      <==> head.slot != final.slot || !IsBodyRoot(head.bodyRoot)
           || (IsBodyRoot(final.bodyRoot) && final.bodyRoot.left == head.bodyRoot.left)
  {
    var head, final := s.optimisticHeader, s.finalizedHeader;
    forall block | ProvedPayload(s, Some(final.slot), block).Success?
      ensures Commits(HeaderAt(s, final.slot).value, block.value.body.payload)
    {
      RootsAgree(HeaderAt(s, final.slot).value, block.value);
    }
    if IsBodyRoot(head.bodyRoot) {
      var block := Some(BlockOf(head));
      assert head.slot == final.slot ==>
               ProvedPayload(s, Some(final.slot), block) == Success(head.bodyRoot.left.payload);
    }
  }

  /** The three stages of a sync, one after the other. */
  lemma SyncStages(setup: Setup, st: ClientState, bootstrap: Option<Bootstrap>, updates: Option<seq<Update>>,
                   finality: Option<Update>, optimistic: Option<Update>, clock: nat -> nat)
    requires ClockAfterGenesis(setup.config, clock)
    ensures AllAfterGenesis(setup, SyncEvents(bootstrap, updates, finality, optimistic, clock))
    ensures updates.Some? ==> AllAfterGenesis(setup, DeliverAll(updates.value, clock, 1))
    ensures
      var booted := Step(setup, st, if bootstrap.Some? then Boot(bootstrap.value, clock(0)) else Silence);
      RunStrict(setup, st, SyncEvents(bootstrap, updates, finality, optimistic, clock))
      == if booted.result.Failure? then booted
         else if updates.None? then Outcome(booted.state, Failure(Unavailable))
         else
           var updated := RunStrict(setup, booted.state, DeliverAll(updates.value, clock, 1));
           if updated.result.Failure? then updated
           else
             RunStrict(setup, updated.state, AdvanceEvents(finality, optimistic, clock, 1 + |updates.value|))
  {
    var boot := if bootstrap.Some? then Boot(bootstrap.value, clock(0)) else Silence;
    var events := SyncEvents(bootstrap, updates, finality, optimistic, clock);
    var booted := Step(setup, st, boot).state;
    if updates.None? {
      assert events[1..] == [Silence] && [Silence][1..] == [];
      assert RunStrict(setup, booted, [Silence]) == Outcome(booted, Failure(Unavailable));
    } else {
      var delivered := DeliverAll(updates.value, clock, 1);
      var head := AdvanceEvents(finality, optimistic, clock, 1 + |updates.value|);
      assert events[1..] == delivered + head;
      StrictAppend(setup, booted, delivered, head);
    }
  }

  /** What an advance comes to. */
  ghost function AdvanceOutcome(setup: Setup, st: ClientState, finality: Option<Update>, optimistic: Option<Update>,
                                updates: Option<seq<Update>>, clock: nat -> nat): Outcome
    requires ClockAfterGenesis(setup.config, clock)
  {
    var head := RunStrict(setup, st, AdvanceEvents(finality, optimistic, clock, 0));
    if head.result.Failure? || head.state.store.nextSyncCommittee.Some? then head
    else if updates.None? then Outcome(head.state, Failure(Unavailable))
    else if |updates.value| != 1 then head
    else Outcome(Step(setup, head.state, Deliver(updates.value[0], clock(2))).state, head.result)
  }

  class ConsensusClient {
    var store: LightClientStore
    var lastCheckpoint: Option<Node>
    const initialCheckpoint: Node
    const config: Config
    const signed: SignatureCheck

    constructor (checkpoint: Node, config: Config, signed: SignatureCheck)
      ensures store == LightClientStore(DEFAULT_HEADER, NoCommittee(), None, DEFAULT_HEADER, 0, 0)
      ensures lastCheckpoint == None
      ensures initialCheckpoint == checkpoint && this.config == config && this.signed == signed
    {
      store := LightClientStore(DEFAULT_HEADER, NoCommittee(), None, DEFAULT_HEADER, 0, 0);
      lastCheckpoint := None;
      initialCheckpoint := checkpoint;
      this.config := config;
      this.signed := signed;
    }

    function Setting(): Setup {
      Setup(config, initialCheckpoint, signed)
    }

    function State(): ClientState
      reads this
    {
      ClientState(store, lastCheckpoint)
    }

    /** The payload of the block at `slot`, the head's where no slot is given. */
    method GetExecutionPayload(slot: Option<nat>, block: Option<BeaconBlock>)
      returns (r: Result<ExecutionPayload, ConsensusError>)
      ensures r == ProvedPayload(store, slot, block)
    {
      var at := if slot.Some? then slot.value else store.optimisticHeader.slot;
      if block.None? {
        return Failure(Unavailable);
      }
      var blockHash := BlockRoot(block.value);
      var latestSlot := store.optimisticHeader.slot;
      var finalizedSlot := store.finalizedHeader.slot;
      var verifiedBlockHash;
      if at == latestSlot {
        verifiedBlockHash := HeaderRoot(store.optimisticHeader);
      } else if at == finalizedSlot {
        verifiedBlockHash := HeaderRoot(store.finalizedHeader);
      } else {
        return Failure(PayloadNotFound);
      }
      if verifiedBlockHash != blockHash {
        return Failure(InvalidHeaderHash);
      }
      return Success(block.value.body.payload);
    }

    method DoBootstrap(bootstrap: Option<Bootstrap>, now: nat) returns (r: Result<(), ConsensusError>)
      requires config.genesisTime <= now
      modifies this`store
      ensures Outcome(State(), r)
           == Step(Setting(), old(State()), if bootstrap.Some? then Boot(bootstrap.value, now) else Silence)
    {
      if bootstrap.None? {
        return Failure(Unavailable);
      }
      var b := bootstrap.value;
      var isValid := IsValidCheckpoint(config, b.header.slot, now);
      if !isValid && config.strictCheckpointAge {
        return Failure(CheckpointTooOld);
      }
      var committeeValid :=
        IsCurrentCommitteeProofValid(b.header, b.currentSyncCommittee, b.currentSyncCommitteeBranch);
      if HeaderRoot(b.header) != initialCheckpoint {
        return Failure(InvalidHeaderHash);
      }
      if !committeeValid {
        return Failure(InvalidCurrentSyncCommitteeProof);
      }
      store := LightClientStore(b.header, b.currentSyncCommittee, None, b.header, 0, 0);
      return Success(());
    }

    method VerifyGenericUpdate(u: GenericUpdate, now: nat) returns (r: Result<(), ConsensusError>)
      requires config.genesisTime <= now
      ensures r == Verify(store, signed, u, ExpectedCurrentSlot(config, now))
    {
      var bits := GetBits(u.syncAggregate.bits);
      if bits == 0 {
        return Failure(InsufficientParticipation);
      }
      var finalizedSlot := if u.finalizedHeader.Some? then u.finalizedHeader.value.slot else DEFAULT_HEADER.slot;
      var validTime :=
        && ExpectedCurrentSlot(config, now) >= u.signatureSlot
        && u.signatureSlot > u.attestedHeader.slot
        && u.attestedHeader.slot >= finalizedSlot;
      if !validTime {
        return Failure(InvalidTimestamp);
      }
      var storePeriod := CalcSyncPeriod(store.finalizedHeader.slot);
      var signaturePeriod := CalcSyncPeriod(u.signatureSlot);
      var validPeriod :=
        if store.nextSyncCommittee.Some?
        then signaturePeriod == storePeriod || signaturePeriod == storePeriod + 1
        else signaturePeriod == storePeriod;
      if !validPeriod {
        return Failure(InvalidPeriod);
      }
      var attestedPeriod := CalcSyncPeriod(u.attestedHeader.slot);
      var hasNextCommittee :=
        store.nextSyncCommittee.None? && u.nextSyncCommittee.Some? && attestedPeriod == storePeriod;
      if u.attestedHeader.slot <= store.finalizedHeader.slot && !hasNextCommittee {
        return Failure(NotRelevant);
      }
      if u.finalizedHeader.Some? && u.finalityBranch.Some? {
        if !IsFinalityProofValid(u.attestedHeader, u.finalizedHeader.value, u.finalityBranch.value) {
          return Failure(InvalidFinalityProof);
        }
      }
      if u.nextSyncCommittee.Some? && u.nextSyncCommitteeBranch.Some? {
        if !IsNextCommitteeProofValid(u.attestedHeader, u.nextSyncCommittee.value, u.nextSyncCommitteeBranch.value) {
          return Failure(InvalidNextSyncCommitteeProof);
        }
      }
      var committee :=
        if signaturePeriod == storePeriod then store.currentSyncCommittee else store.nextSyncCommittee.value;
      var pks := GetParticipatingKeys(committee, u.syncAggregate.bits);
      if !signed(pks, u.attestedHeader, u.syncAggregate.signature, u.signatureSlot) {
        return Failure(InvalidSignature);
      }
      return Success(());
    }

    method ApplyGenericUpdate(u: GenericUpdate)
      modifies this
      ensures State() == Apply(old(State()), u)
    {
      var committeeBits := GetBits(u.syncAggregate.bits);
      store := store.(currentMaxActiveParticipants := Max(store.currentMaxActiveParticipants, committeeBits));

      var shouldUpdateOptimistic :=
        committeeBits > SafetyThreshold(store) && u.attestedHeader.slot > store.optimisticHeader.slot;
      if shouldUpdateOptimistic {
        store := store.(optimisticHeader := u.attestedHeader);
      }

      var attestedPeriod := CalcSyncPeriod(u.attestedHeader.slot);
      var finalizedSlot := if u.finalizedHeader.Some? then u.finalizedHeader.value.slot else 0;
      var finalizedPeriod := CalcSyncPeriod(finalizedSlot);
      var hasFinalizedNextCommittee :=
        && store.nextSyncCommittee.None?
        && HasSyncUpdate(u)
        && HasFinalityUpdate(u)
        && finalizedPeriod == attestedPeriod;
      var hasMajority := committeeBits * 3 >= 512 * 2;
      var isNewer := finalizedSlot > store.finalizedHeader.slot;

      if hasMajority && (isNewer || hasFinalizedNextCommittee) {
        var storePeriod := CalcSyncPeriod(store.finalizedHeader.slot);
        if store.nextSyncCommittee.None? {
          store := store.(nextSyncCommittee := u.nextSyncCommittee);
        } else if finalizedPeriod == storePeriod + 1 {
          store := store.(currentSyncCommittee := store.nextSyncCommittee.value);
          store := store.(nextSyncCommittee := u.nextSyncCommittee);
          store := store.(previousMaxActiveParticipants := store.currentMaxActiveParticipants);
          store := store.(currentMaxActiveParticipants := 0);
        }
        if finalizedSlot > store.finalizedHeader.slot {
          store := store.(finalizedHeader := u.finalizedHeader.value);
          if store.finalizedHeader.slot % 32 == 0 {
            lastCheckpoint := Some(HeaderRoot(store.finalizedHeader));
          }
          if store.finalizedHeader.slot > store.optimisticHeader.slot {
            store := store.(optimisticHeader := store.finalizedHeader);
          }
        }
      }
    }

    /** Verify, then apply what passed. */
    method Receive(update: Option<Update>, now: nat) returns (r: Result<(), ConsensusError>)
      requires config.genesisTime <= now
      modifies this
      ensures Outcome(State(), r) == Step(Setting(), old(State()), DeliverOne(update, now))
    {
      if update.None? {
        return Failure(Unavailable);
      }
      var u := ToGeneric(update.value);
      r := VerifyGenericUpdate(u, now);
      if r.Success? {
        ApplyGenericUpdate(u);
      }
    }

    /** A finality update and then an optimistic one, as sync and advance end and
        begin with. */
    method ReceiveHead(finality: Option<Update>, optimistic: Option<Update>, clock: nat -> nat, first: nat)
      returns (r: Result<(), ConsensusError>)
      requires ClockAfterGenesis(config, clock)
      modifies this
      ensures
        var events := AdvanceEvents(finality, optimistic, clock, first);
        && AllAfterGenesis(Setting(), events)
        && Outcome(State(), r) == RunStrict(Setting(), old(State()), events)
    {
      ghost var events := AdvanceEvents(finality, optimistic, clock, first);
      assert AllAfterGenesis(Setting(), events) && events[0..] == events;
      StrictStep(Setting(), State(), events, 0);
      r := Receive(finality, clock(first));
      if r.Failure? {
        return;
      }
      StrictStep(Setting(), State(), events, 1);
      r := Receive(optimistic, clock(first + 1));
    }

    /** Every update in order, up to the first that fails. */
    method ReceiveAll(updates: seq<Update>, clock: nat -> nat, first: nat)
      returns (r: Result<(), ConsensusError>)
      requires ClockAfterGenesis(config, clock)
      modifies this
      ensures AllAfterGenesis(Setting(), DeliverAll(updates, clock, first))
      ensures Outcome(State(), r) == RunStrict(Setting(), old(State()), DeliverAll(updates, clock, first))
    {
      ghost var setup := Setting();
      ghost var events := DeliverAll(updates, clock, first);
      ghost var target := RunStrict(setup, State(), events);
      assert events[0..] == events;
      r := Success(());
      for i := 0 to |updates|
        invariant target == RunStrict(setup, State(), events[i..]) && r == Success(())
      {
        StrictStep(setup, State(), events, i);
        r := Receive(Some(updates[i]), clock(first + i));
        if r.Failure? {
          return;
        }
      }
    }

    /** Bootstrap, then every update the server has, then the head. The first
        failure ends it; what was installed before stays. */
    method Sync(bootstrap: Option<Bootstrap>, updates: Option<seq<Update>>,
                finality: Option<Update>, optimistic: Option<Update>, clock: nat -> nat)
      returns (r: Result<(), ConsensusError>)
      requires ClockAfterGenesis(config, clock)
      modifies this
      ensures
        var events := SyncEvents(bootstrap, updates, finality, optimistic, clock);
        && AllAfterGenesis(Setting(), events)
        && Outcome(State(), r) == RunStrict(Setting(), old(State()), events)
    {
      SyncStages(Setting(), State(), bootstrap, updates, finality, optimistic, clock);
      r := DoBootstrap(bootstrap, clock(0));
      if r.Failure? {
        return;
      }
      if updates.None? {
        return Failure(Unavailable);
      }
      r := ReceiveAll(updates.value, clock, 1);
      if r.Failure? {
        return;
      }
      r := ReceiveHead(finality, optimistic, clock, 1 + |updates.value|);
    }

    /** Finality, then head, then an attempt to learn the next committee when it
        is unknown. That attempt may fail without failing the whole. */
    method Advance(finality: Option<Update>, optimistic: Option<Update>,
                   updates: Option<seq<Update>>, clock: nat -> nat)
      returns (r: Result<(), ConsensusError>)
      requires ClockAfterGenesis(config, clock)
      modifies this
      ensures Outcome(State(), r) == AdvanceOutcome(Setting(), old(State()), finality, optimistic, updates, clock)
    {
      r := ReceiveHead(finality, optimistic, clock, 0);
      if r.Failure? {
        return;
      }
      if store.nextSyncCommittee.None? {
        if updates.None? {
          return Failure(Unavailable);
        }
        if |updates.value| == 1 {
          var _ := Receive(Some(updates.value[0]), clock(2));
        }
      }
    }
  }
}
