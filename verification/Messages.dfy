/** What becomes of each kind of message, read off the message as the server sends
    it: the checks in their order and the effect of what passes them. */
module Messages {
  import opened Results
  import opened Ssz
  import opened LightClient
  import opened LightClientSafety

  /** A check and the error for failing it. */
  datatype Check = Check(holds: bool, error: ConsensusError)

  /** The error of the first check that fails. */
  function FirstFailed(checks: seq<Check>): (r: Result<(), ConsensusError>)
    ensures r.Success? <==> forall i :: 0 <= i < |checks| ==> checks[i].holds
    ensures r.Success? ==> r == Success(())
    ensures r.Failure? ==>
              exists i :: 0 <= i < |checks| && !checks[i].holds && checks[i].error == r.error
                          && forall j :: 0 <= j < i ==> checks[j].holds
  {
    if checks == [] then Success(())
    else if !checks[0].holds then Failure(checks[0].error)
    else
      var rest := FirstFailed(checks[1..]);
      assert forall i :: 1 <= i < |checks| ==> checks[i] == checks[1..][i - 1];
      rest
  }

  function Period(slot: nat): nat {
    slot / 8192
  }

  /** The committee in office at a slot, as far as the store knows it. */
  function InOffice(s: LightClientStore, slot: nat): Option<SyncCommittee> {
    if Period(slot) == Period(s.finalizedHeader.slot) then Some(s.currentSyncCommittee)
    else if Period(slot) == Period(s.finalizedHeader.slot) + 1 then s.nextSyncCommittee
    else None
  }

  predicate SignedBy(signed: SignatureCheck, committee: Option<SyncCommittee>, attested: Header,
                     aggregate: SyncAggregate, slot: nat)
  {
    && committee.Some?
    && signed(ParticipatingKeys(committee.value.pubkeys, aggregate.bits), attested, aggregate.signature, slot)
  }

  predicate ProvesFinality(attested: Header, finalized: Header, branch: seq<Node>) {
    IsValidMerkleBranch(HeaderRoot(finalized), branch, 6, 41, attested.stateRoot)
  }

  predicate ProvesNext(attested: Header, next: SyncCommittee, branch: seq<Node>) {
    IsValidMerkleBranch(CommitteeRoot(next), branch, 5, 23, attested.stateRoot)
  }

  predicate SomebodySigns(u: Update) {
    exists i :: 0 <= i < COMMITTEE_SIZE && u.syncAggregate.bits[i]
  }

  predicate InTime(u: Update, currentSlot: nat) {
    && currentSlot >= u.signatureSlot > u.attestedHeader.slot
    && (u.OptimisticUpdate? || u.attestedHeader.slot >= u.finalizedHeader.slot)
  }

  predicate BringsNews(s: LightClientStore, u: Update) {
    || u.attestedHeader.slot > s.finalizedHeader.slot
    || (u.FullUpdate? && s.nextSyncCommittee.None?
        && Period(u.attestedHeader.slot) == Period(s.finalizedHeader.slot))
  }

  /** The checks on an update, first to last. Which parts are checked depends on the
      kind of update. */
  function UpdateChecks(s: LightClientStore, signed: SignatureCheck, u: Update, currentSlot: nat): seq<Check> {
    [Check(SomebodySigns(u), InsufficientParticipation),
     Check(InTime(u, currentSlot), InvalidTimestamp),
     Check(InOffice(s, u.signatureSlot).Some?, InvalidPeriod),
     Check(BringsNews(s, u), NotRelevant),
     Check(u.OptimisticUpdate? || ProvesFinality(u.attestedHeader, u.finalizedHeader, u.finalityBranch),
           InvalidFinalityProof),
     Check(u.FullUpdate? ==> ProvesNext(u.attestedHeader, u.nextSyncCommittee, u.nextSyncCommitteeBranch),
           InvalidNextSyncCommitteeProof),
     Check(SignedBy(signed, InOffice(s, u.signatureSlot), u.attestedHeader, u.syncAggregate, u.signatureSlot),
           InvalidSignature)]
  }

  lemma {:induction false} SomebodySigned(bits: seq<bool>)
    ensures CountBits(bits) > 0 <==> exists i :: 0 <= i < |bits| && bits[i]
  {
    if bits != [] {
      var n := |bits| - 1;
      SomebodySigned(bits[..n]);
      if i :| 0 <= i < |bits| && bits[i] {
        assert i < n ==> bits[..n][i];
      }
    }
  }

  lemma FirstOf(first: Check, rest: seq<Check>)
    ensures FirstFailed([first] + rest) == if first.holds then FirstFailed(rest) else Failure(first.error)
  {
    assert ([first] + rest)[1..] == rest;
  }

  /** The verdict on a message of any kind is the first of its checks that fails. */
  lemma UpdateReported(s: LightClientStore, signed: SignatureCheck, u: Update, currentSlot: nat)
    ensures Verify(s, signed, ToGeneric(u), currentSlot) == FirstFailed(UpdateChecks(s, signed, u, currentSlot))
  {
    var c := UpdateChecks(s, signed, u, currentSlot);
    PartsAgree(u, currentSlot);
    OfficeAgrees(s, u);
    NewsAgrees(s, u);
    Unfold(c);
  }

  lemma Unfold(c: seq<Check>)
    requires |c| == 7
    ensures FirstFailed(c)
         == if !c[0].holds then Failure(c[0].error)
            else if !c[1].holds then Failure(c[1].error)
            else if !c[2].holds then Failure(c[2].error)
            else if !c[3].holds then Failure(c[3].error)
            else if !c[4].holds then Failure(c[4].error)
            else if !c[5].holds then Failure(c[5].error)
            else if !c[6].holds then Failure(c[6].error)
            else Success(())
  {
    forall k | 0 <= k < 7
      ensures FirstFailed(c[k..]) == if c[k].holds then FirstFailed(c[k + 1..]) else Failure(c[k].error)
    {
      assert c[k..] == [c[k]] + c[k + 1..];
      FirstOf(c[k], c[k + 1..]);
    }
    assert c[0..] == c && c[7..] == [];
  }

  lemma PartsAgree(u: Update, currentSlot: nat)
    ensures SomebodySigns(u) <==> Participants(ToGeneric(u)) > 0
    ensures InTime(u, currentSlot) <==> ValidTime(ToGeneric(u), currentSlot)
  {
    SomebodySigned(u.syncAggregate.bits);
  }

  lemma PeriodAgrees(slot: nat)
    ensures Period(slot) == CalcSyncPeriod(slot)
  {
  }

  lemma OfficeAgrees(s: LightClientStore, u: Update)
    ensures InOffice(s, u.signatureSlot).Some? <==> ValidPeriod(s, ToGeneric(u))
    ensures InOffice(s, u.signatureSlot).Some? ==>
              InOffice(s, u.signatureSlot).value == SigningCommittee(s, ToGeneric(u))
  {
    PeriodAgrees(u.signatureSlot);
    PeriodAgrees(s.finalizedHeader.slot);
  }

  lemma NewsAgrees(s: LightClientStore, u: Update)
    ensures BringsNews(s, u) <==> Relevant(s, ToGeneric(u))
  {
    PeriodAgrees(u.attestedHeader.slot);
    PeriodAgrees(s.finalizedHeader.slot);
  }

  /*** Effects ***/

  predicate Quorum(u: Update) {
    CountBits(u.syncAggregate.bits) >= 342
  }

  /** The update brings a finalized header that is installed. */
  predicate Finalizes(s: LightClientStore, u: Update) {
    Quorum(u) && !u.OptimisticUpdate? && u.finalizedHeader.slot > s.finalizedHeader.slot
  }

  /** With it, the next period begins. */
  predicate Enters(s: LightClientStore, u: Update) {
    Finalizes(s, u) && Period(u.finalizedHeader.slot) == Period(s.finalizedHeader.slot) + 1
  }

  /** The update brings a next committee that was not known. */
  predicate Learns(s: LightClientStore, u: Update) {
    && Quorum(u) && u.FullUpdate? && s.nextSyncCommittee.None?
    && (Finalizes(s, u) || Period(u.finalizedHeader.slot) == Period(u.attestedHeader.slot))
  }

  /** The head after an update is counted, which needs more than half of the best
      participation, its own included. */
  function HeadAfter(s: LightClientStore, u: Update): Header {
    var count := CountBits(u.syncAggregate.bits);
    if 2 * count > s.currentMaxActiveParticipants && 2 * count > s.previousMaxActiveParticipants
       && u.attestedHeader.slot > s.optimisticHeader.slot
    then u.attestedHeader else s.optimisticHeader
  }

  /** What an accepted message of any kind installs as finalized header, checkpoint
      and committees. */
  lemma UpdateInstalled(st: ClientState, signed: SignatureCheck, u: Update, currentSlot: nat)
    requires Verify(st.store, signed, ToGeneric(u), currentSlot).Success?
    ensures
      var s, out := st.store, Apply(st, ToGeneric(u));
      && (Enters(s, u) ==> s.nextSyncCommittee.Some?)
      && out.store.finalizedHeader == (if Finalizes(s, u) then u.finalizedHeader else s.finalizedHeader)
      && out.lastCheckpoint == (if Finalizes(s, u) && u.finalizedHeader.slot % 32 == 0
                                then Some(HeaderRoot(u.finalizedHeader)) else st.lastCheckpoint)
      && out.store.currentSyncCommittee
         == (if Enters(s, u) then s.nextSyncCommittee.value else s.currentSyncCommittee)
      && out.store.nextSyncCommittee
         == (if Learns(s, u) || (Enters(s, u) && u.FullUpdate?) then Some(u.nextSyncCommittee)
             else if Enters(s, u) then None else s.nextSyncCommittee)
  {
    VerifiedPeriods(st.store, signed, ToGeneric(u), currentSlot);
    PeriodAgrees(st.store.finalizedHeader.slot);
    PeriodAgrees(FinalizedSlot(ToGeneric(u)));
    PeriodAgrees(u.attestedHeader.slot);
  }

  /** And as head. */
  lemma HeadInstalled(st: ClientState, signed: SignatureCheck, u: Update, currentSlot: nat)
    requires Verify(st.store, signed, ToGeneric(u), currentSlot).Success?
    ensures
      var s, head := st.store, HeadAfter(st.store, u);
      Apply(st, ToGeneric(u)).store.optimisticHeader
      == if Finalizes(s, u) && u.finalizedHeader.slot > head.slot then u.finalizedHeader else head
  {
  }

  /*** Bootstraps and time ***/

  /** The checks on a bootstrap, first to last. */
  function BootChecks(setup: Setup, b: Bootstrap, now: nat): seq<Check>
    requires setup.config.genesisTime <= now
  {
    [Check(setup.config.strictCheckpointAge ==> IsValidCheckpoint(setup.config, b.header.slot, now), CheckpointTooOld),
     Check(HeaderRoot(b.header) == setup.initialCheckpoint, InvalidHeaderHash),
     Check(IsValidMerkleBranch(CommitteeRoot(b.currentSyncCommittee), b.currentSyncCommitteeBranch, 5, 22,
                               b.header.stateRoot),
           InvalidCurrentSyncCommitteeProof)]
  }

  /** The verdict on a bootstrap is the first of its checks that fails. What passes
      replaces the store: the header is finalized and head, its committee in office,
      the next one unknown, and nobody counted; the checkpoint stays. */
  lemma BootReported(setup: Setup, st: ClientState, b: Bootstrap, now: nat)
    requires setup.config.genesisTime <= now
    ensures
      var out := Step(setup, st, Boot(b, now));
      && out.result == FirstFailed(BootChecks(setup, b, now))
      && out.state.lastCheckpoint == st.lastCheckpoint
      && out.state.store
         == if out.result.Success? then LightClientStore(b.header, b.currentSyncCommittee, None, b.header, 0, 0)
            else st.store
  {
    var c := BootChecks(setup, b, now);
    FirstOf(c[0], c[1..]);
    FirstOf(c[1], c[2..]);
    FirstOf(c[2], []);
    assert c == [c[0]] + c[1..] && c[1..] == [c[1]] + c[2..] && c[2..] == [c[2]] + [];
  }

  /** A delivered message is verified at the slot of the clock, installed if it
      passes, and changes nothing if it does not. */
  lemma DeliverReported(setup: Setup, st: ClientState, u: Update, now: nat)
    requires setup.config.genesisTime <= now
    ensures
      var out := Step(setup, st, Deliver(u, now));
      var slot := (now - setup.config.genesisTime) / 12;
      && out.result == FirstFailed(UpdateChecks(st.store, setup.signed, u, slot))
      && out.state == if out.result.Success? then Apply(st, ToGeneric(u)) else st
  {
    UpdateReported(st.store, setup.signed, u, ExpectedCurrentSlot(setup.config, now));
  }

  /** Slots last twelve seconds, counted from genesis. */
  lemma SlotOfTime(config: Config, now: nat, slot: nat)
    requires config.genesisTime <= now
    ensures ExpectedCurrentSlot(config, now) == slot
       <==> config.genesisTime + 12 * slot <= now < config.genesisTime + 12 * (slot + 1)
  {
  }
}
