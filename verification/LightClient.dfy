/** The light client store, the messages that move it and the checks made on
    them, as functions. */
module LightClient {
  import opened Results
  import opened Rlp
  import opened Ssz

  type Bits = b: seq<bool> | |b| == COMMITTEE_SIZE witness Copies(false, COMMITTEE_SIZE)

  type Signature = Bytes

  /** Does the aggregate signature of these keys cover this header? The slot
      selects the fork the signing domain is computed for. */
  type SignatureCheck = (seq<PublicKey>, Header, Signature, nat) -> bool

  datatype SyncAggregate = SyncAggregate(bits: Bits, signature: Signature)

  datatype LightClientStore = LightClientStore(
    finalizedHeader: Header,
    currentSyncCommittee: SyncCommittee,
    nextSyncCommittee: Option<SyncCommittee>,
    optimisticHeader: Header,
    previousMaxActiveParticipants: nat,
    currentMaxActiveParticipants: nat)

  datatype Bootstrap = Bootstrap(
    header: Header,
    currentSyncCommittee: SyncCommittee,
    currentSyncCommitteeBranch: seq<Node>)

  datatype GenericUpdate = GenericUpdate(
    attestedHeader: Header,
    syncAggregate: SyncAggregate,
    signatureSlot: nat,
    nextSyncCommittee: Option<SyncCommittee>,
    nextSyncCommitteeBranch: Option<seq<Node>>,
    finalizedHeader: Option<Header>,
    finalityBranch: Option<seq<Node>>)

  /** The three updates a server sends. */
  datatype Update =
    | FullUpdate(
        attestedHeader: Header,
        nextSyncCommittee: SyncCommittee,
        nextSyncCommitteeBranch: seq<Node>,
        finalizedHeader: Header,
        finalityBranch: seq<Node>,
        syncAggregate: SyncAggregate,
        signatureSlot: nat)
    | FinalityUpdate(
        attestedHeader: Header,
        finalizedHeader: Header,
        finalityBranch: seq<Node>,
        syncAggregate: SyncAggregate,
        signatureSlot: nat)
    | OptimisticUpdate(
        attestedHeader: Header,
        syncAggregate: SyncAggregate,
        signatureSlot: nat)

  function ToGeneric(update: Update): GenericUpdate {
    match update
    case FullUpdate(attested, next, nextBranch, finalized, finalityBranch, aggregate, slot) =>
      GenericUpdate(attested, aggregate, slot, Some(next), Some(nextBranch), Some(finalized), Some(finalityBranch))
    case FinalityUpdate(attested, finalized, finalityBranch, aggregate, slot) =>
      GenericUpdate(attested, aggregate, slot, None, None, Some(finalized), Some(finalityBranch))
    case OptimisticUpdate(attested, aggregate, slot) =>
      GenericUpdate(attested, aggregate, slot, None, None, None, None)
  }

  /** Optional parts come with their branches. */
  predicate Paired(u: GenericUpdate) {
    && (u.nextSyncCommittee.Some? <==> u.nextSyncCommitteeBranch.Some?)
    && (u.finalizedHeader.Some? <==> u.finalityBranch.Some?)
  }

  datatype ConsensusError =
    | InsufficientParticipation
    | InvalidTimestamp
    | InvalidPeriod
    | NotRelevant
    | InvalidFinalityProof
    | InvalidNextSyncCommitteeProof
    | InvalidCurrentSyncCommitteeProof
    | InvalidSignature
    | InvalidHeaderHash
    | PayloadNotFound
    | CheckpointTooOld
    | Unavailable

  /*** Slots and time ***/

  function CalcSyncPeriod(slot: nat): nat {
    var epoch := slot / 32;
    epoch / 256
  }

  datatype Config = Config(genesisTime: nat, maxCheckpointAge: nat, strictCheckpointAge: bool)

  /** 64-bit arithmetic that wraps around. */
  function Wrap(n: int): nat {
    n % 0x1_0000_0000_0000_0000
  }

  function ExpectedCurrentSlot(config: Config, now: nat): nat
    requires config.genesisTime <= now
  {
    (now - config.genesisTime) / 12
  }

  function SlotTimestamp(config: Config, slot: nat): nat {
    Wrap(slot * 12 + config.genesisTime)
  }

  predicate IsValidCheckpoint(config: Config, slot: nat, now: nat)
    requires config.genesisTime <= now
  {
    var currentSlot := ExpectedCurrentSlot(config, now);
    var slotAge := Wrap(SlotTimestamp(config, currentSlot) - SlotTimestamp(config, slot));
    slotAge < config.maxCheckpointAge
  }

  /*** Participation ***/

  function CountBits(bits: seq<bool>): nat {
    if bits == [] then 0
    else CountBits(bits[..|bits| - 1]) + if bits[|bits| - 1] then 1 else 0
  }

  function ParticipatingKeys(keys: seq<PublicKey>, bits: seq<bool>): seq<PublicKey>
    requires |bits| <= |keys|
  {
    if bits == [] then []
    else
      var n := |bits| - 1;
      ParticipatingKeys(keys, bits[..n]) + if bits[n] then [keys[n]] else []
  }

  function Max(a: nat, b: nat): nat {
    if a >= b then a else b
  }

  function SafetyThreshold(s: LightClientStore): nat {
    Max(s.currentMaxActiveParticipants, s.previousMaxActiveParticipants) / 2
  }

  function Participants(u: GenericUpdate): nat {
    CountBits(u.syncAggregate.bits)
  }

  predicate HasMajority(u: GenericUpdate) {
    Participants(u) * 3 >= 512 * 2
  }

  /*** Verification ***/

  predicate HasSyncUpdate(u: GenericUpdate) {
    u.nextSyncCommittee.Some? && u.nextSyncCommitteeBranch.Some?
  }

  predicate HasFinalityUpdate(u: GenericUpdate) {
    u.finalizedHeader.Some? && u.finalityBranch.Some?
  }

  /** The finalized slot of an update, zero when it has none. */
  function FinalizedSlot(u: GenericUpdate): nat {
    if u.finalizedHeader.Some? then u.finalizedHeader.value.slot else 0
  }

  predicate IsFinalityProofValid(attested: Header, finalized: Header, branch: seq<Node>) {
    IsValidMerkleBranch(HeaderRoot(finalized), branch, 6, 41, attested.stateRoot)
  }

  predicate IsNextCommitteeProofValid(attested: Header, committee: SyncCommittee, branch: seq<Node>) {
    IsValidMerkleBranch(CommitteeRoot(committee), branch, 5, 23, attested.stateRoot)
  }

  predicate IsCurrentCommitteeProofValid(attested: Header, committee: SyncCommittee, branch: seq<Node>) {
    IsValidMerkleBranch(CommitteeRoot(committee), branch, 5, 22, attested.stateRoot)
  }

  predicate ValidTime(u: GenericUpdate, currentSlot: nat) {
    currentSlot >= u.signatureSlot > u.attestedHeader.slot >= FinalizedSlot(u)
  }

  predicate ValidPeriod(s: LightClientStore, u: GenericUpdate) {
    var storePeriod := CalcSyncPeriod(s.finalizedHeader.slot);
    var signaturePeriod := CalcSyncPeriod(u.signatureSlot);
    || signaturePeriod == storePeriod
    || (s.nextSyncCommittee.Some? && signaturePeriod == storePeriod + 1)
  }

  predicate Relevant(s: LightClientStore, u: GenericUpdate) {
    var hasNextCommittee :=
      && s.nextSyncCommittee.None? && u.nextSyncCommittee.Some?
      && CalcSyncPeriod(u.attestedHeader.slot) == CalcSyncPeriod(s.finalizedHeader.slot);
    u.attestedHeader.slot > s.finalizedHeader.slot || hasNextCommittee
  }

  function SigningCommittee(s: LightClientStore, u: GenericUpdate): SyncCommittee
    requires ValidPeriod(s, u)
  {
    if CalcSyncPeriod(u.signatureSlot) == CalcSyncPeriod(s.finalizedHeader.slot)
    then s.currentSyncCommittee
    else s.nextSyncCommittee.value
  }

  predicate ValidSignature(signed: SignatureCheck, committee: SyncCommittee, u: GenericUpdate) {
    signed(ParticipatingKeys(committee.pubkeys, u.syncAggregate.bits), u.attestedHeader,
           u.syncAggregate.signature, u.signatureSlot)
  }

  /** The checks on an update, in their order. */
  function Verify(s: LightClientStore, signed: SignatureCheck, u: GenericUpdate, currentSlot: nat)
    : Result<(), ConsensusError>
  {
    if Participants(u) == 0 then Failure(InsufficientParticipation)
    else if !ValidTime(u, currentSlot) then Failure(InvalidTimestamp)
    else if !ValidPeriod(s, u) then Failure(InvalidPeriod)
    else if !Relevant(s, u) then Failure(NotRelevant)
    else if HasFinalityUpdate(u)
         && !IsFinalityProofValid(u.attestedHeader, u.finalizedHeader.value, u.finalityBranch.value)
    then Failure(InvalidFinalityProof)
    else if HasSyncUpdate(u)
         && !IsNextCommitteeProofValid(u.attestedHeader, u.nextSyncCommittee.value, u.nextSyncCommitteeBranch.value)
    then Failure(InvalidNextSyncCommitteeProof)
    else if !ValidSignature(signed, SigningCommittee(s, u), u) then Failure(InvalidSignature)
    else Success(())
  }

  /*** Application ***/

  /** The client's mutable part. */
  datatype ClientState = ClientState(store: LightClientStore, lastCheckpoint: Option<Node>)

  /** The store once an update's participation is counted and its attested
      header considered for the head. */
  function Tracked(s: LightClientStore, u: GenericUpdate): LightClientStore {
    var counted := s.(currentMaxActiveParticipants := Max(s.currentMaxActiveParticipants, Participants(u)));
    if Participants(u) > SafetyThreshold(counted) && u.attestedHeader.slot > s.optimisticHeader.slot
    then counted.(optimisticHeader := u.attestedHeader)
    else counted
  }

  predicate IsNewer(s: LightClientStore, u: GenericUpdate) {
    FinalizedSlot(u) > s.finalizedHeader.slot
  }

  predicate BringsFinalizedNextCommittee(s: LightClientStore, u: GenericUpdate) {
    && s.nextSyncCommittee.None? && HasSyncUpdate(u) && HasFinalityUpdate(u)
    && CalcSyncPeriod(FinalizedSlot(u)) == CalcSyncPeriod(u.attestedHeader.slot)
  }

  predicate ShouldApply(s: LightClientStore, u: GenericUpdate) {
    HasMajority(u) && (IsNewer(s, u) || BringsFinalizedNextCommittee(s, u))
  }

  /** Does applying the update rotate the committees? */
  predicate Rotates(s: LightClientStore, u: GenericUpdate) {
    && ShouldApply(s, u) && s.nextSyncCommittee.Some?
    && CalcSyncPeriod(FinalizedSlot(u)) == CalcSyncPeriod(s.finalizedHeader.slot) + 1
  }

  function WithCommittees(s: LightClientStore, u: GenericUpdate): LightClientStore {
    if s.nextSyncCommittee.None? then s.(nextSyncCommittee := u.nextSyncCommittee)
    else if Rotates(s, u) then
      s.(currentSyncCommittee := s.nextSyncCommittee.value,
         nextSyncCommittee := u.nextSyncCommittee,
         previousMaxActiveParticipants := s.currentMaxActiveParticipants,
         currentMaxActiveParticipants := 0)
    else s
  }

  function WithFinality(s: LightClientStore, finalized: Header): LightClientStore {
    s.(finalizedHeader := finalized,
       optimisticHeader := if finalized.slot > s.optimisticHeader.slot then finalized else s.optimisticHeader)
  }

  function Apply(st: ClientState, u: GenericUpdate): ClientState {
    var tracked := Tracked(st.store, u);
    if !ShouldApply(tracked, u) then st.(store := tracked)
    else
      var rotated := WithCommittees(tracked, u);
      if !IsNewer(tracked, u) then st.(store := rotated)
      else
        var finalized := u.finalizedHeader.value;
        ClientState(
          WithFinality(rotated, finalized),
          if finalized.slot % 32 == 0 then Some(HeaderRoot(finalized)) else st.lastCheckpoint)
  }

  /*** Runs ***/

  /** What a client is configured with. */
  datatype Setup = Setup(config: Config, initialCheckpoint: Node, signed: SignatureCheck)

  /** One interaction with the server: what was fetched and the time of checking
      it. `Silence` is a fetch that fails. */
  datatype Event =
    | Boot(bootstrap: Bootstrap, now: nat)
    | Deliver(update: Update, now: nat)
    | Silence

  predicate AfterGenesis(setup: Setup, e: Event) {
    e.Silence? || setup.config.genesisTime <= e.now
  }

  function CheckBootstrap(setup: Setup, b: Bootstrap, now: nat): Result<(), ConsensusError>
    requires setup.config.genesisTime <= now
  {
    if !IsValidCheckpoint(setup.config, b.header.slot, now) && setup.config.strictCheckpointAge
    then Failure(CheckpointTooOld)
    else if HeaderRoot(b.header) != setup.initialCheckpoint then Failure(InvalidHeaderHash)
    else if !IsCurrentCommitteeProofValid(b.header, b.currentSyncCommittee, b.currentSyncCommitteeBranch)
    then Failure(InvalidCurrentSyncCommitteeProof)
    else Success(())
  }

  function BootstrappedStore(b: Bootstrap): LightClientStore {
    LightClientStore(b.header, b.currentSyncCommittee, None, b.header, 0, 0)
  }

  datatype Outcome = Outcome(state: ClientState, result: Result<(), ConsensusError>)

  /** One event: what passes its checks is installed, what fails them changes
      nothing. */
  function Step(setup: Setup, st: ClientState, e: Event): Outcome
    requires AfterGenesis(setup, e)
  {
    match e
    case Boot(b, now) =>
      var r := CheckBootstrap(setup, b, now);
      Outcome(if r.Success? then st.(store := BootstrappedStore(b)) else st, r)
    case Deliver(update, now) =>
      var u := ToGeneric(update);
      var r := Verify(st.store, setup.signed, u, ExpectedCurrentSlot(setup.config, now));
      Outcome(if r.Success? then Apply(st, u) else st, r)
    case Silence => Outcome(st, Failure(Unavailable))
  }

  predicate AllAfterGenesis(setup: Setup, events: seq<Event>) {
    forall i :: 0 <= i < |events| ==> AfterGenesis(setup, events[i])
  }

  /** A whole run, in which failed events are survived. */
  function Run(setup: Setup, st: ClientState, events: seq<Event>): ClientState
    requires AllAfterGenesis(setup, events)
    decreases |events|
  {
    if events == [] then st else Run(setup, Step(setup, st, events[0]).state, events[1..])
  }

  /** A sequence of events that is given up at the first failure. */
  function RunStrict(setup: Setup, st: ClientState, events: seq<Event>): Outcome
    requires AllAfterGenesis(setup, events)
    decreases |events|
  {
    if events == [] then Outcome(st, Success(()))
    else
      var first := Step(setup, st, events[0]);
      if first.result.Failure? then first else RunStrict(setup, first.state, events[1..])
  }

  lemma StrictStep(setup: Setup, st: ClientState, events: seq<Event>, k: nat)
    requires AllAfterGenesis(setup, events) && k < |events|
    ensures
      var first := Step(setup, st, events[k]);
      RunStrict(setup, st, events[k..])
      == if first.result.Failure? then first else RunStrict(setup, first.state, events[k + 1..])
  {
    assert events[k..][1..] == events[k + 1..];
  }

  /** Giving up early reaches a state that a prefix of the events reaches. */
  lemma {:induction false} StrictIsPrefix(setup: Setup, st: ClientState, events: seq<Event>) returns (n: nat)
    requires AllAfterGenesis(setup, events)
    ensures n <= |events| && AllAfterGenesis(setup, events[..n]) && (events != [] ==> n > 0)
    ensures RunStrict(setup, st, events).state == Run(setup, st, events[..n])
    ensures RunStrict(setup, st, events).result.Success? ==> n == |events|
    decreases |events|
  {
    if events == [] {
      n := 0;
    } else {
      var first := Step(setup, st, events[0]);
      if first.result.Failure? {
        n := 1;
        assert events[..1][1..] == [];
      } else {
        var k := StrictIsPrefix(setup, first.state, events[1..]);
        n := k + 1;
        assert events[..n][1..] == events[1..][..k];
      }
    }
  }

  /** Two sequences of events one after the other. */
  lemma {:induction false} StrictAppend(setup: Setup, st: ClientState, a: seq<Event>, b: seq<Event>)
    requires AllAfterGenesis(setup, a) && AllAfterGenesis(setup, b)
    ensures AllAfterGenesis(setup, a + b)
    ensures
      var first := RunStrict(setup, st, a);
      RunStrict(setup, st, a + b) == if first.result.Failure? then first else RunStrict(setup, first.state, b)
    decreases |a|
  {
    if a == [] {
      assert a + b == b;
    } else {
      assert (a + b)[1..] == a[1..] + b;
      StrictAppend(setup, Step(setup, st, a[0]).state, a[1..], b);
    }
  }
}
