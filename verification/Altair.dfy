/** The Altair light client sync protocol, as its specification writes it: an
    absent committee or header is the default value, an absent proof is a branch
    of zeros, and a failed assertion is None. Force updates and the best valid
    update are left out, as the client leaves them out. */
module Altair {
  import opened Results
  import opened Ssz
  import opened LightClient
  import opened LightClientSafety

  datatype Store = Store(
    finalizedHeader: Header,
    currentSyncCommittee: SyncCommittee,
    nextSyncCommittee: SyncCommittee,
    optimisticHeader: Header,
    previousMaxActiveParticipants: nat,
    currentMaxActiveParticipants: nat)

  datatype LightClientUpdate = LightClientUpdate(
    attestedHeader: Header,
    nextSyncCommittee: SyncCommittee,
    nextSyncCommitteeBranch: seq<Node>,
    finalizedHeader: Header,
    finalityBranch: seq<Node>,
    syncAggregate: SyncAggregate,
    signatureSlot: nat)

  function NoBranch(depth: nat): seq<Node> {
    Copies(ZERO_NODE, depth)
  }

  /*** Predicates of the specification ***/

  function PeriodAtSlot(slot: nat): nat {
    slot / (32 * 256)
  }

  predicate IsSyncCommitteeUpdate(u: LightClientUpdate) {
    u.nextSyncCommitteeBranch != NoBranch(5)
  }

  predicate IsFinalityUpdate(u: LightClientUpdate) {
    u.finalityBranch != NoBranch(6)
  }

  predicate IsNextSyncCommitteeKnown(store: Store) {
    store.nextSyncCommittee != NoCommittee()
  }

  function SafetyThreshold(store: Store): nat {
    Max(store.previousMaxActiveParticipants, store.currentMaxActiveParticipants) / 2
  }

  /** validate_light_client_update, true when every assertion holds. */
  predicate Validate(store: Store, u: LightClientUpdate, currentSlot: nat, signed: SignatureCheck) {
    var storePeriod := PeriodAtSlot(store.finalizedHeader.slot);
    var signaturePeriod := PeriodAtSlot(u.signatureSlot);
    var attestedPeriod := PeriodAtSlot(u.attestedHeader.slot);
    var hasNextCommittee :=
      !IsNextSyncCommitteeKnown(store) && IsSyncCommitteeUpdate(u) && attestedPeriod == storePeriod;
    && CountBits(u.syncAggregate.bits) >= 1
    && currentSlot >= u.signatureSlot > u.attestedHeader.slot >= u.finalizedHeader.slot
    && (if IsNextSyncCommitteeKnown(store) then signaturePeriod in {storePeriod, storePeriod + 1}
        else signaturePeriod == storePeriod)
    && (u.attestedHeader.slot > store.finalizedHeader.slot || hasNextCommittee)
    && (if !IsFinalityUpdate(u) then u.finalizedHeader == DEFAULT_HEADER
        else if u.finalizedHeader.slot == 0 then
          && u.finalizedHeader == DEFAULT_HEADER
          && IsValidMerkleBranch(ZERO_NODE, u.finalityBranch, 6, 41, u.attestedHeader.stateRoot)
        else
          IsValidMerkleBranch(HeaderRoot(u.finalizedHeader), u.finalityBranch, 6, 41, u.attestedHeader.stateRoot))
    && (if !IsSyncCommitteeUpdate(u) then u.nextSyncCommittee == NoCommittee()
        else
          && (attestedPeriod == storePeriod && IsNextSyncCommitteeKnown(store)
              ==> u.nextSyncCommittee == store.nextSyncCommittee)
          && IsValidMerkleBranch(CommitteeRoot(u.nextSyncCommittee), u.nextSyncCommitteeBranch,
                                 5, 23, u.attestedHeader.stateRoot))
    && var committee :=
         if signaturePeriod == storePeriod then store.currentSyncCommittee else store.nextSyncCommittee;
       signed(ParticipatingKeys(committee.pubkeys, u.syncAggregate.bits), u.attestedHeader,
              u.syncAggregate.signature, u.signatureSlot)
  }

  /** The committees that apply_light_client_update installs. */
  function Rotated(store: Store, u: LightClientUpdate): Store {
    if !IsNextSyncCommitteeKnown(store) then store.(nextSyncCommittee := u.nextSyncCommittee)
    else if PeriodAtSlot(u.finalizedHeader.slot) == PeriodAtSlot(store.finalizedHeader.slot) + 1 then
      store.(currentSyncCommittee := store.nextSyncCommittee,
             nextSyncCommittee := u.nextSyncCommittee,
             previousMaxActiveParticipants := store.currentMaxActiveParticipants,
             currentMaxActiveParticipants := 0)
    else store
  }

  /** And the headers. */
  function Finalized(store: Store, u: LightClientUpdate): Store {
    if u.finalizedHeader.slot <= store.finalizedHeader.slot then store
    else
      var finalized := store.(finalizedHeader := u.finalizedHeader);
      if finalized.finalizedHeader.slot > finalized.optimisticHeader.slot
      then finalized.(optimisticHeader := finalized.finalizedHeader)
      else finalized
  }

  /** apply_light_client_update. */
  function ApplyUpdate(store: Store, u: LightClientUpdate): Option<Store> {
    if !IsNextSyncCommitteeKnown(store)
       && PeriodAtSlot(u.finalizedHeader.slot) != PeriodAtSlot(store.finalizedHeader.slot)
    then None
    else Some(Finalized(Rotated(store, u), u))
  }

  /** How process_light_client_update counts participants and moves the head. */
  function Counted(store: Store, u: LightClientUpdate): Store {
    var bits := CountBits(u.syncAggregate.bits);
    var counted := store.(currentMaxActiveParticipants := Max(store.currentMaxActiveParticipants, bits));
    if bits > SafetyThreshold(counted) && u.attestedHeader.slot > counted.optimisticHeader.slot
    then counted.(optimisticHeader := u.attestedHeader)
    else counted
  }

  /** When it applies the update. */
  predicate Applies(store: Store, u: LightClientUpdate) {
    var hasFinalizedNextCommittee :=
      && !IsNextSyncCommitteeKnown(store) && IsSyncCommitteeUpdate(u) && IsFinalityUpdate(u)
      && PeriodAtSlot(u.finalizedHeader.slot) == PeriodAtSlot(u.attestedHeader.slot);
    && CountBits(u.syncAggregate.bits) * 3 >= |u.syncAggregate.bits| * 2
    && (u.finalizedHeader.slot > store.finalizedHeader.slot || hasFinalizedNextCommittee)
  }

  /** process_light_client_update. */
  function Process(store: Store, u: LightClientUpdate, currentSlot: nat, signed: SignatureCheck): Option<Store> {
    if !Validate(store, u, currentSlot, signed) then None
    else
      var counted := Counted(store, u);
      if Applies(counted, u) then ApplyUpdate(counted, u) else Some(counted)
  }

  /** initialize_light_client_store. */
  function Initialize(trustedRoot: Node, b: Bootstrap): Option<Store> {
    if HeaderRoot(b.header) == trustedRoot
       && IsValidMerkleBranch(CommitteeRoot(b.currentSyncCommittee), b.currentSyncCommitteeBranch, 5, 22,
                              b.header.stateRoot)
    then Some(Store(b.header, b.currentSyncCommittee, NoCommittee(), b.header, 0, 0))
    else None
  }

  /*** The client against the specification ***/

  function OrNone(c: Option<SyncCommittee>): SyncCommittee {
    if c.Some? then c.value else NoCommittee()
  }

  function ToStore(s: LightClientStore): Store {
    Store(s.finalizedHeader, s.currentSyncCommittee, OrNone(s.nextSyncCommittee), s.optimisticHeader,
          s.previousMaxActiveParticipants, s.currentMaxActiveParticipants)
  }

  function ToUpdate(u: GenericUpdate): LightClientUpdate {
    LightClientUpdate(
      u.attestedHeader,
      OrNone(u.nextSyncCommittee),
      if u.nextSyncCommitteeBranch.Some? then u.nextSyncCommitteeBranch.value else NoBranch(5),
      if u.finalizedHeader.Some? then u.finalizedHeader.value else DEFAULT_HEADER,
      if u.finalityBranch.Some? then u.finalityBranch.value else NoBranch(6),
      u.syncAggregate,
      u.signatureSlot)
  }

  /** What is there does not look absent to the specification: no branch is all
      zeros, and a finalized header is past genesis. */
  predicate Plain(u: GenericUpdate) {
    && (u.finalizedHeader.Some? ==> u.finalityBranch != Some(NoBranch(6)) && u.finalizedHeader.value.slot > 0)
    && (u.nextSyncCommittee.Some? ==> u.nextSyncCommitteeBranch != Some(NoBranch(5)))
  }

  /** A state that holds a default value where a real one belongs. */
  predicate HoldsDefaults(stateRoot: Node) {
    || NodeAt(stateRoot, 6, 41) == Some(HeaderRoot(DEFAULT_HEADER))
    || NodeAt(stateRoot, 5, 23) == Some(CommitteeRoot(NoCommittee()))
  }

  /** A check of the specification that the client does not make: a next committee
      offered while one is known for that period must be the same. */
  predicate OffersKnownCommittee(s: LightClientStore, u: GenericUpdate) {
    s.nextSyncCommittee.Some? && u.nextSyncCommittee.Some?
    && CalcSyncPeriod(u.attestedHeader.slot) == CalcSyncPeriod(s.finalizedHeader.slot)
    ==> u.nextSyncCommittee == s.nextSyncCommittee
  }

  /** The client can tell its next committee from none. */
  predicate KnowsReal(s: LightClientStore) {
    s.nextSyncCommittee != Some(NoCommittee())
  }

  lemma PeriodsAgree(slot: nat)
    ensures PeriodAtSlot(slot) == CalcSyncPeriod(slot)
  {
  }

  lemma PlainPredicates(s: LightClientStore, u: GenericUpdate)
    requires Paired(u) && Plain(u) && KnowsReal(s)
    ensures IsSyncCommitteeUpdate(ToUpdate(u)) == u.nextSyncCommittee.Some?
    ensures IsFinalityUpdate(ToUpdate(u)) == u.finalizedHeader.Some?
    ensures IsNextSyncCommitteeKnown(ToStore(s)) == s.nextSyncCommittee.Some?
    ensures FinalizedSlot(u) == ToUpdate(u).finalizedHeader.slot
  {
  }

  /** On plain messages the known committee is the whole difference: the
      specification validates exactly what the client verifies and what offers no
      other committee than the known one. Of the other messages there is none that
      both accept, unless the attested state itself holds a default value. */
  lemma ValidateExact(s: LightClientStore, signed: SignatureCheck, u: GenericUpdate, currentSlot: nat)
    requires Paired(u) && KnowsReal(s)
    ensures Plain(u) ==>
              (Validate(ToStore(s), ToUpdate(u), currentSlot, signed)
               <==> Verify(s, signed, u, currentSlot).Success? && OffersKnownCommittee(s, u))
    ensures !Plain(u) && !HoldsDefaults(u.attestedHeader.stateRoot) ==>
              !(Validate(ToStore(s), ToUpdate(u), currentSlot, signed)
                && Verify(s, signed, u, currentSlot).Success?)
  {
    if Plain(u) {
      ValidatePlain(s, signed, u, currentSlot);
    } else if !HoldsDefaults(u.attestedHeader.stateRoot) && Verify(s, signed, u, currentSlot).Success? {
      OneRefuses(s, signed, u, currentSlot);
    }
  }

  /** The update without the parts that the specification reads as absent. */
  function WithoutAbsent(u: GenericUpdate): GenericUpdate {
    var noFinality := u.finalizedHeader == Some(DEFAULT_HEADER) && u.finalityBranch == Some(NoBranch(6));
    var noCommittee := u.nextSyncCommittee == Some(NoCommittee()) && u.nextSyncCommitteeBranch == Some(NoBranch(5));
    u.(finalizedHeader := if noFinality then None else u.finalizedHeader,
       finalityBranch := if noFinality then None else u.finalityBranch,
       nextSyncCommittee := if noCommittee then None else u.nextSyncCommittee,
       nextSyncCommitteeBranch := if noCommittee then None else u.nextSyncCommitteeBranch)
  }

  /** Taking absent parts for present ones is the whole second difference: the
      specification validates exactly what the client would verify, and what offers
      no other committee, if the conversions dropped absent parts. What is still not
      plain then, the specification validates only at genesis. */
  lemma ConversionExact(s: LightClientStore, signed: SignatureCheck, u: GenericUpdate, currentSlot: nat)
    requires Paired(u) && KnowsReal(s)
    ensures
      var v := WithoutAbsent(u);
      Plain(v) ==>
        (Validate(ToStore(s), ToUpdate(u), currentSlot, signed)
         <==> Verify(s, signed, v, currentSlot).Success? && OffersKnownCommittee(s, v))
    ensures !Plain(WithoutAbsent(u)) && Validate(ToStore(s), ToUpdate(u), currentSlot, signed) ==>
              && u.finalizedHeader == Some(DEFAULT_HEADER) && u.finalityBranch != Some(NoBranch(6))
              && NodeAt(u.attestedHeader.stateRoot, 6, 41) == Some(ZERO_NODE)
  {
    var v := WithoutAbsent(u);
    assert ToUpdate(v) == ToUpdate(u);
    if Plain(v) {
      ValidatePlain(s, signed, v, currentSlot);
    } else if u.finalityBranch.Some? {
      MerkleBranchExact(ZERO_NODE, u.finalityBranch.value, 6, 41, u.attestedHeader.stateRoot);
    }
  }

  lemma ValidatePlain(s: LightClientStore, signed: SignatureCheck, u: GenericUpdate, currentSlot: nat)
    requires Paired(u) && Plain(u) && KnowsReal(s)
    ensures Validate(ToStore(s), ToUpdate(u), currentSlot, signed)
       <==> Verify(s, signed, u, currentSlot).Success? && OffersKnownCommittee(s, u)
  {
    PeriodsAgree(s.finalizedHeader.slot);
    PeriodsAgree(u.signatureSlot);
    PeriodsAgree(u.attestedHeader.slot);
    PlainPredicates(s, u);
  }

  lemma OneRefuses(s: LightClientStore, signed: SignatureCheck, u: GenericUpdate, currentSlot: nat)
    requires Paired(u) && !Plain(u) && !HoldsDefaults(u.attestedHeader.stateRoot)
    requires Verify(s, signed, u, currentSlot).Success?
    ensures !Validate(ToStore(s), ToUpdate(u), currentSlot, signed)
  {
    var root := u.attestedHeader.stateRoot;
    if u.finalizedHeader.Some? {
      MerkleBranchExact(HeaderRoot(u.finalizedHeader.value), u.finalityBranch.value, 6, 41, root);
      MerkleBranchExact(ZERO_NODE, u.finalityBranch.value, 6, 41, root);
    }
    if u.nextSyncCommittee.Some? {
      MerkleBranchExact(CommitteeRoot(u.nextSyncCommittee.value), u.nextSyncCommitteeBranch.value, 5, 23, root);
    }
  }

  lemma CountedRefined(s: LightClientStore, u: GenericUpdate)
    ensures Counted(ToStore(s), ToUpdate(u)) == ToStore(Tracked(s, u))
  {
  }

  lemma AppliesRefined(s: LightClientStore, u: GenericUpdate)
    requires Paired(u) && Plain(u) && KnowsReal(s)
    ensures Applies(ToStore(s), ToUpdate(u)) == ShouldApply(s, u)
  {
    PlainPredicates(s, u);
    PeriodsAgree(FinalizedSlot(u));
    PeriodsAgree(u.attestedHeader.slot);
  }

  lemma RotatedRefined(s: LightClientStore, u: GenericUpdate)
    requires Paired(u) && Plain(u) && KnowsReal(s) && ShouldApply(s, u)
    ensures Rotated(ToStore(s), ToUpdate(u)) == ToStore(WithCommittees(s, u))
  {
    PlainPredicates(s, u);
    PeriodsAgree(FinalizedSlot(u));
    PeriodsAgree(s.finalizedHeader.slot);
  }

  lemma FinalizedRefined(s: LightClientStore, u: GenericUpdate)
    requires Paired(u) && Plain(u)
    ensures Finalized(ToStore(s), ToUpdate(u))
         == ToStore(if IsNewer(s, u) then WithFinality(s, u.finalizedHeader.value) else s)
  {
  }

  /** On every update both accept, client and specification compute the same
      store. In particular no assertion of the specification fails. */
  lemma ProcessRefined(st: ClientState, signed: SignatureCheck, u: GenericUpdate, currentSlot: nat)
    requires Paired(u) && KnowsReal(st.store)
    requires Plain(u) || !HoldsDefaults(u.attestedHeader.stateRoot)
    requires Verify(st.store, signed, u, currentSlot).Success?
    requires Validate(ToStore(st.store), ToUpdate(u), currentSlot, signed)
    ensures Process(ToStore(st.store), ToUpdate(u), currentSlot, signed) == Some(ToStore(Apply(st, u).store))
  {
    var tracked := Tracked(st.store, u);
    ValidateExact(st.store, signed, u, currentSlot);
    CountedRefined(st.store, u);
    AppliesRefined(tracked, u);
    if ShouldApply(tracked, u) {
      NothingAsserted(st.store, signed, u, currentSlot);
      RotatedRefined(tracked, u);
      FinalizedRefined(WithCommittees(tracked, u), u);
    }
  }

  /** The assertion of apply_light_client_update holds. */
  lemma NothingAsserted(s: LightClientStore, signed: SignatureCheck, u: GenericUpdate, currentSlot: nat)
    requires Paired(u) && Plain(u) && KnowsReal(s)
    requires Verify(s, signed, u, currentSlot).Success? && ShouldApply(Tracked(s, u), u)
    ensures ApplyUpdate(ToStore(Tracked(s, u)), ToUpdate(u)).Some?
  {
    VerifiedPeriods(s, signed, u, currentSlot);
    PlainPredicates(Tracked(s, u), u);
    PeriodsAgree(FinalizedSlot(u));
    PeriodsAgree(s.finalizedHeader.slot);
  }

  /*** On an honest chain ***/

  /** No committee of the chain is the default one, and the default header is not
      on it. */
  ghost predicate Real(chain: Chain) {
    !chain.canon(DEFAULT_HEADER) && forall period :: chain.committee(period) != NoCommittee()
  }

  /** An update with a quorum from the right committee offers the known committee,
      and its state holds no default value. */
  lemma QuorumOffersKnown(chain: Chain, signed: SignatureCheck, s: LightClientStore, u: GenericUpdate, currentSlot: nat)
    requires Honest(chain, signed) && Safe(chain, s) && Real(chain) && Paired(u)
    requires Verify(s, signed, u, currentSlot).Success? && HasMajority(u)
    ensures OffersKnownCommittee(s, u) && !HoldsDefaults(u.attestedHeader.stateRoot)
  {
    VerifiedQuorum(chain, signed, s, u, currentSlot);
    CanonicalHoldsNoDefaults(chain, signed, u.attestedHeader);
  }

  lemma CanonicalHoldsNoDefaults(chain: Chain, signed: SignatureCheck, h: Header)
    requires Honest(chain, signed) && Real(chain) && chain.canon(h)
    ensures !HoldsDefaults(h.stateRoot)
  {
  }

  /** In a safe store, a verified update with a quorum is processed by the
      specification to exactly the client's new store if it is plain, and refused
      by it if it is not. */
  lemma QuorumRefined(chain: Chain, st: ClientState, signed: SignatureCheck, u: GenericUpdate, currentSlot: nat)
    requires Honest(chain, signed) && Safe(chain, st.store) && Real(chain) && Paired(u)
    requires Verify(st.store, signed, u, currentSlot).Success? && HasMajority(u)
    ensures Process(ToStore(st.store), ToUpdate(u), currentSlot, signed)
         == if Plain(u) then Some(ToStore(Apply(st, u).store)) else None
  {
    QuorumOffersKnown(chain, signed, st.store, u, currentSlot);
    ValidateExact(st.store, signed, u, currentSlot);
    if Plain(u) {
      ProcessRefined(st, signed, u, currentSlot);
    }
  }

  /*** Whole runs ***/

  function OrKeep(next: Option<Store>, store: Store): Store {
    if next.Some? then next.value else store
  }

  /** The specification's store after one event; a message whose assertions fail
      is passed over. */
  function AltairStep(setup: Setup, store: Store, e: Event): Store
    requires AfterGenesis(setup, e)
  {
    match e
    case Boot(b, _) => OrKeep(Initialize(setup.initialCheckpoint, b), store)
    case Deliver(update, now) =>
      OrKeep(Process(store, ToUpdate(ToGeneric(update)), ExpectedCurrentSlot(setup.config, now), setup.signed), store)
    case Silence => store
  }

  function AltairRun(setup: Setup, store: Store, events: seq<Event>): Store
    requires AllAfterGenesis(setup, events)
    decreases |events|
  {
    if events == [] then store else AltairRun(setup, AltairStep(setup, store, events[0]), events[1..])
  }

  /** A bootstrap that is not refused for its age, or a plain message that offers a
      committee only with a quorum. */
  predicate Comparable(setup: Setup, e: Event)
    requires AfterGenesis(setup, e)
  {
    match e
    case Boot(b, now) => setup.config.strictCheckpointAge ==> IsValidCheckpoint(setup.config, b.header.slot, now)
    case Deliver(update, _) =>
      Plain(ToGeneric(update)) && (update.FullUpdate? ==> HasMajority(ToGeneric(update)))
    case Silence => true
  }

  lemma StepRefined(chain: Chain, setup: Setup, st: ClientState, e: Event)
    requires Honest(chain, setup.signed) && Real(chain)
    requires AfterGenesis(setup, e) && Comparable(setup, e)
    requires Safe(chain, st.store) || e.Boot?
    ensures AltairStep(setup, ToStore(st.store), e) == ToStore(Step(setup, st, e).state.store)
  {
    if e.Deliver? {
      var u, now := ToGeneric(e.update), ExpectedCurrentSlot(setup.config, e.now);
      ValidateExact(st.store, setup.signed, u, now);
      if Verify(st.store, setup.signed, u, now).Success? {
        if HasMajority(u) {
          QuorumOffersKnown(chain, setup.signed, st.store, u, now);
        }
        ProcessRefined(st, setup.signed, u, now);
      }
    }
  }

  /** Over a whole run of such events, valid or not, from an accepted bootstrap or
      any safe store, client and specification never part: each passes over what
      the other passes over and ends in the same store. */
  lemma {:induction false} RunRefined(chain: Chain, setup: Setup, st: ClientState, events: seq<Event>)
    requires Honest(chain, setup.signed) && Trusted(chain, setup.initialCheckpoint) && Real(chain)
    requires AllAfterGenesis(setup, events)
    requires
      || Safe(chain, st.store)
      || (events != [] && events[0].Boot? && Step(setup, st, events[0]).result.Success?)
    requires forall i :: 0 <= i < |events| ==> Comparable(setup, events[i])
    ensures AltairRun(setup, ToStore(st.store), events) == ToStore(Run(setup, st, events).store)
    decreases |events|
  {
    if events != [] {
      StepRefined(chain, setup, st, events[0]);
      StepSafe(chain, setup, st, events[0]);
      RunRefined(chain, setup, Step(setup, st, events[0]).state, events[1..]);
    }
  }
}
