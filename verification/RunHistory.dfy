/** What the counters and slots of the store say about the run behind it. */
module RunHistory {
  import opened Results
  import opened Ssz
  import opened LightClient
  import opened LightClientSafety
  import opened ConsensusClient

  /** An applied update: the finalized period it was applied in and its signers. */
  datatype Applied = Applied(period: nat, bits: nat)

  /** A run as an observer records it beside the client: the updates applied since
      the last bootstrap, and the headers ever finalized by an update. */
  datatype Trace = Trace(state: ClientState, applied: seq<Applied>, finalized: seq<Header>)

  function Watch(setup: Setup, t: Trace, e: Event): Trace
    requires AfterGenesis(setup, e)
  {
    var out := Step(setup, t.state, e);
    var before, after := t.state.store.finalizedHeader, out.state.store.finalizedHeader;
    if out.result.Failure? then t.(state := out.state)
    else if e.Boot? then Trace(out.state, [], t.finalized)
    else
      Trace(out.state,
            t.applied + [Applied(CalcSyncPeriod(before.slot), Participants(ToGeneric(e.update)))],
            if after.slot > before.slot then t.finalized + [after] else t.finalized)
  }

  function WatchAll(setup: Setup, t: Trace, events: seq<Event>): Trace
    requires AllAfterGenesis(setup, events)
    decreases |events|
  {
    if events == [] then t else WatchAll(setup, Watch(setup, t, events[0]), events[1..])
  }

  lemma {:induction false} WatchingIsRunning(setup: Setup, t: Trace, events: seq<Event>)
    requires AllAfterGenesis(setup, events)
    ensures WatchAll(setup, t, events).state == Run(setup, t.state, events)
    decreases |events|
  {
    if events != [] {
      WatchingIsRunning(setup, Watch(setup, t, events[0]), events[1..]);
    }
  }

  /*** Participation ***/

  /** `m` is the largest signer count among the updates applied in `period`, zero
      when there are none. */
  ghost predicate IsBest(m: nat, applied: seq<Applied>, period: int) {
    && (forall i :: 0 <= i < |applied| && applied[i].period == period ==> applied[i].bits <= m)
    && (m == 0 || exists i :: 0 <= i < |applied| && applied[i].period == period && applied[i].bits == m)
  }

  /** The current maximum is the best participation in the finalized period, the
      previous one the best in the period before. */
  ghost predicate Windows(t: Trace) {
    var s := t.state.store;
    var period := CalcSyncPeriod(s.finalizedHeader.slot);
    && (forall i :: 0 <= i < |t.applied| ==> t.applied[i].period <= period)
    && IsBest(s.currentMaxActiveParticipants, t.applied, period)
    && IsBest(s.previousMaxActiveParticipants, t.applied, period - 1)
  }

  lemma BestExtended(m: nat, applied: seq<Applied>, period: int, a: Applied)
    requires IsBest(m, applied, period)
    ensures IsBest(if a.period == period then Max(m, a.bits) else m, applied + [a], period)
  {
    var longer := applied + [a];
    assert longer[|applied|] == a;
    if m != 0 {
      var i :| 0 <= i < |applied| && applied[i].period == period && applied[i].bits == m;
      assert longer[i] == applied[i];
    }
  }

  /** How an applied update moves the two counters. */
  lemma CountersMove(st: ClientState, signed: SignatureCheck, u: GenericUpdate, currentSlot: nat)
    requires Verify(st.store, signed, u, currentSlot).Success?
    ensures
      var s, s' := st.store, Apply(st, u).store;
      var period, period' := CalcSyncPeriod(s.finalizedHeader.slot), CalcSyncPeriod(s'.finalizedHeader.slot);
      var best := Max(s.currentMaxActiveParticipants, Participants(u));
      || (&& period' == period && s'.currentMaxActiveParticipants == best
          && s'.previousMaxActiveParticipants == s.previousMaxActiveParticipants)
      || (&& period' == period + 1 && s'.currentMaxActiveParticipants == 0
          && s'.previousMaxActiveParticipants == best)
  {
    RotationNeverSkips(st, signed, u, currentSlot);
  }

  lemma WindowsExtended(t: Trace, t': Trace, a: Applied)
    requires Windows(t) && t'.applied == t.applied + [a]
    requires a.period == CalcSyncPeriod(t.state.store.finalizedHeader.slot)
    requires
      var s, s' := t.state.store, t'.state.store;
      var period' := CalcSyncPeriod(s'.finalizedHeader.slot);
      var best := Max(s.currentMaxActiveParticipants, a.bits);
      || (&& period' == a.period && s'.currentMaxActiveParticipants == best
          && s'.previousMaxActiveParticipants == s.previousMaxActiveParticipants)
      || (&& period' == a.period + 1 && s'.currentMaxActiveParticipants == 0
          && s'.previousMaxActiveParticipants == best)
    ensures Windows(t')
  {
    var period: int := a.period;
    BestExtended(t.state.store.currentMaxActiveParticipants, t.applied, period, a);
    BestExtended(t.state.store.previousMaxActiveParticipants, t.applied, period - 1, a);
  }

  lemma WindowsKept(setup: Setup, t: Trace, e: Event)
    requires AfterGenesis(setup, e) && Windows(t)
    ensures Windows(Watch(setup, t, e))
  {
    if e.Deliver? && Step(setup, t.state, e).result.Success? {
      var u := ToGeneric(e.update);
      CountersMove(t.state, setup.signed, u, ExpectedCurrentSlot(setup.config, e.now));
      var a := Applied(CalcSyncPeriod(t.state.store.finalizedHeader.slot), Participants(u));
      WindowsExtended(t, Watch(setup, t, e), a);
    }
  }

  /** After any run from a bootstrap, the two counters are the best participation
      of the period in office and of the one before, rotating updates counting
      for the period they end. */
  lemma {:induction false} ParticipationHistory(setup: Setup, t: Trace, events: seq<Event>)
    requires AllAfterGenesis(setup, events)
    requires Windows(t) || (events != [] && events[0].Boot? && Step(setup, t.state, events[0]).result.Success?)
    ensures Windows(WatchAll(setup, t, events))
    decreases |events|
  {
    if events != [] {
      if Windows(t) {
        WindowsKept(setup, t, events[0]);
      }
      ParticipationHistory(setup, Watch(setup, t, events[0]), events[1..]);
    }
  }

  /** The same for the sequences of events that sync and advance give up at the
      first failure: some first part of them has been watched, all when nothing
      failed, and its counters are the state's. */
  lemma StrictParticipation(setup: Setup, t: Trace, events: seq<Event>) returns (n: nat)
    requires AllAfterGenesis(setup, events)
    requires Windows(t) || (events != [] && events[0].Boot? && Step(setup, t.state, events[0]).result.Success?)
    ensures n <= |events| && AllAfterGenesis(setup, events[..n])
    ensures
      var out := RunStrict(setup, t.state, events);
      && (out.result.Success? ==> n == |events|)
      && out.state == WatchAll(setup, t, events[..n]).state && Windows(WatchAll(setup, t, events[..n]))
  {
    n := StrictIsPrefix(setup, t.state, events);
    WatchingIsRunning(setup, t, events[..n]);
    ParticipationHistory(setup, t, events[..n]);
  }

  /** The head moves to an attested header only with more than half of the best
      participation seen in the period in office and the one before. */
  lemma HeadNeedsHalf(setup: Setup, t: Trace, update: Update, now: nat, i: nat)
    requires Windows(t) && setup.config.genesisTime <= now
    requires Step(setup, t.state, Deliver(update, now)).result.Success?
    requires
      var s, s' := t.state.store, Step(setup, t.state, Deliver(update, now)).state.store;
      s'.optimisticHeader != s.optimisticHeader && s'.optimisticHeader != s'.finalizedHeader
    requires i < |t.applied| && t.applied[i].period + 1 >= CalcSyncPeriod(t.state.store.finalizedHeader.slot)
    ensures
      var s' := Step(setup, t.state, Deliver(update, now)).state.store;
      && s'.optimisticHeader == update.attestedHeader
      && 2 * Participants(ToGeneric(update)) > t.applied[i].bits
  {
    var period := CalcSyncPeriod(t.state.store.finalizedHeader.slot);
    assert t.applied[i].period == period || t.applied[i].period == period - 1;
  }

  /*** Slots ***/

  /** Finalized before head, head not ahead of time. */
  predicate Ordered(s: LightClientStore, currentSlot: nat) {
    s.finalizedHeader.slot <= s.optimisticHeader.slot <= currentSlot
  }

  predicate NotBehind(s: LightClientStore, s': LightClientStore) {
    && s.finalizedHeader.slot <= s'.finalizedHeader.slot
    && s.optimisticHeader.slot <= s'.optimisticHeader.slot
  }

  /** The events of a run after its bootstrap: the clock does not run backwards
      and there is no further bootstrap. */
  ghost predicate Forward(setup: Setup, events: seq<Event>, from: nat) {
    && AllAfterGenesis(setup, events)
    && (forall i :: 0 <= i < |events| ==> !events[i].Boot?)
    && (forall i :: 0 <= i < |events| && events[i].Deliver? ==> from <= events[i].now)
    && (forall i, j :: 0 <= i < j < |events| && events[i].Deliver? && events[j].Deliver?
          ==> events[i].now <= events[j].now)
  }

  lemma StepOrdered(setup: Setup, st: ClientState, e: Event, from: nat)
    requires setup.config.genesisTime <= from && AfterGenesis(setup, e) && !e.Boot?
    requires Ordered(st.store, ExpectedCurrentSlot(setup.config, from))
    requires e.Deliver? ==> from <= e.now
    ensures NotBehind(st.store, Step(setup, st, e).state.store)
    ensures Ordered(Step(setup, st, e).state.store,
                    ExpectedCurrentSlot(setup.config, if e.Deliver? then e.now else from))
  {
  }

  /** From a bootstrap that is not in the future, neither slot ever decreases,
      the finalized one never passes the head and the head never passes the slot
      of the clock, at any later time. */
  lemma {:induction false} SlotOrder(setup: Setup, st: ClientState, events: seq<Event>, from: nat, later: nat)
    requires setup.config.genesisTime <= from <= later && Forward(setup, events, from)
    requires forall i :: 0 <= i < |events| && events[i].Deliver? ==> events[i].now <= later
    requires Ordered(st.store, ExpectedCurrentSlot(setup.config, from))
    ensures NotBehind(st.store, Run(setup, st, events).store)
    ensures Ordered(Run(setup, st, events).store, ExpectedCurrentSlot(setup.config, later))
    decreases |events|
  {
    if events != [] {
      var e := events[0];
      StepOrdered(setup, st, e, from);
      var at := if e.Deliver? then e.now else from;
      assert Forward(setup, events[1..], at);
      SlotOrder(setup, Step(setup, st, e).state, events[1..], at, later);
    }
  }

  /** The same for events given up at the first failure. */
  lemma StrictSlotOrder(setup: Setup, st: ClientState, events: seq<Event>, from: nat, later: nat)
    requires setup.config.genesisTime <= from <= later && Forward(setup, events, from)
    requires forall i :: 0 <= i < |events| && events[i].Deliver? ==> events[i].now <= later
    requires Ordered(st.store, ExpectedCurrentSlot(setup.config, from))
    ensures NotBehind(st.store, RunStrict(setup, st, events).state.store)
    ensures Ordered(RunStrict(setup, st, events).state.store, ExpectedCurrentSlot(setup.config, later))
  {
    var n := StrictIsPrefix(setup, st, events);
    SlotOrder(setup, st, events[..n], from, later);
  }

  /** A bootstrap not in the future starts in order. */
  lemma BootOrdered(setup: Setup, st: ClientState, b: Bootstrap, now: nat)
    requires setup.config.genesisTime <= now && Step(setup, st, Boot(b, now)).result.Success?
    ensures Ordered(Step(setup, st, Boot(b, now)).state.store, ExpectedCurrentSlot(setup.config, now))
       <==> b.header.slot <= ExpectedCurrentSlot(setup.config, now)
  {
  }

  /** What a canonical header commits to as finalized is older than it. */
  ghost predicate FinalizesOlder(chain: Chain) {
    forall h: Header, f: Header ::
      chain.canon(h) && NodeAt(h.stateRoot, 6, 41) == Some(HeaderRoot(f)) ==> f.slot < h.slot
  }

  /** The head is not behind the finalized header, and is the same header if it has
      the same slot. No counter exceeds the committee. */
  predicate HeadsAgree(s: LightClientStore) {
    && s.finalizedHeader.slot <= s.optimisticHeader.slot
    && (s.finalizedHeader.slot == s.optimisticHeader.slot ==> s.finalizedHeader == s.optimisticHeader)
    && s.currentMaxActiveParticipants <= COMMITTEE_SIZE
    && s.previousMaxActiveParticipants <= COMMITTEE_SIZE
  }

  lemma {:induction false} CountAtMost(bits: seq<bool>)
    ensures CountBits(bits) <= |bits|
  {
    if bits != [] {
      CountAtMost(bits[..|bits| - 1]);
    }
  }

  /** A quorum moves the head to its attested header, if that is not behind it. */
  lemma HeadsAgreeKept(st: ClientState, u: GenericUpdate)
    requires HeadsAgree(st.store) && Participants(u) <= COMMITTEE_SIZE
    requires HasMajority(u) && u.finalizedHeader.Some? ==> u.finalizedHeader.value.slot < u.attestedHeader.slot
    ensures HeadsAgree(Apply(st, u).store)
  {
  }

  lemma QuorumIsNewer(chain: Chain, signed: SignatureCheck, s: LightClientStore, u: GenericUpdate, currentSlot: nat)
    requires Honest(chain, signed) && FinalizesOlder(chain) && Safe(chain, s) && Paired(u)
    requires Verify(s, signed, u, currentSlot).Success? && HasMajority(u) && u.finalizedHeader.Some?
    ensures u.finalizedHeader.value.slot < u.attestedHeader.slot
  {
    VerifiedQuorum(chain, signed, s, u, currentSlot);
    MerkleBranchExact(HeaderRoot(u.finalizedHeader.value), u.finalityBranch.value, 6, 41, u.attestedHeader.stateRoot);
  }

  lemma ApplyHeadsAgree(chain: Chain, signed: SignatureCheck, st: ClientState, u: GenericUpdate, currentSlot: nat)
    requires Honest(chain, signed) && FinalizesOlder(chain) && Safe(chain, st.store) && Paired(u)
    requires Verify(st.store, signed, u, currentSlot).Success? && HeadsAgree(st.store)
    ensures HeadsAgree(Apply(st, u).store)
  {
    CountAtMost(u.syncAggregate.bits);
    if HasMajority(u) && u.finalizedHeader.Some? {
      QuorumIsNewer(chain, signed, st.store, u, currentSlot);
    }
    HeadsAgreeKept(st, u);
  }

  lemma StepHeadsAgree(chain: Chain, setup: Setup, st: ClientState, e: Event)
    requires Honest(chain, setup.signed) && FinalizesOlder(chain) && AfterGenesis(setup, e)
    requires (Safe(chain, st.store) && HeadsAgree(st.store)) || (e.Boot? && Step(setup, st, e).result.Success?)
    ensures HeadsAgree(Step(setup, st, e).state.store)
  {
    if e.Deliver? {
      var u, now := ToGeneric(e.update), ExpectedCurrentSlot(setup.config, e.now);
      if Verify(st.store, setup.signed, u, now).Success? {
        ApplyHeadsAgree(chain, setup.signed, st, u, now);
      }
    }
  }

  /** After an accepted bootstrap, no run makes head and finalized header different
      headers of one slot, whether failures are survived or end it. */
  lemma {:induction false} RunHeadsAgree(chain: Chain, setup: Setup, st: ClientState, events: seq<Event>)
    requires Honest(chain, setup.signed) && FinalizesOlder(chain) && Trusted(chain, setup.initialCheckpoint)
    requires AllAfterGenesis(setup, events)
    requires
      || (Safe(chain, st.store) && HeadsAgree(st.store))
      || (events != [] && events[0].Boot? && Step(setup, st, events[0]).result.Success?)
    ensures HeadsAgree(Run(setup, st, events).store)
    ensures HeadsAgree(RunStrict(setup, st, events).state.store)
    decreases |events|
  {
    if events != [] {
      StepSafe(chain, setup, st, events[0]);
      StepHeadsAgree(chain, setup, st, events[0]);
      RunHeadsAgree(chain, setup, Step(setup, st, events[0]).state, events[1..]);
    }
  }

  /** What is assumed of the chain a client is set up for, and what its store then
      keeps. */
  ghost predicate Assumed(chain: Chain, setup: Setup) {
    Honest(chain, setup.signed) && FinalizesOlder(chain) && Trusted(chain, setup.initialCheckpoint)
  }

  ghost predicate Secure(chain: Chain, s: LightClientStore) {
    Safe(chain, s) && HeadsAgree(s)
  }

  /** A sync that succeeds, from whatever store. */
  lemma SyncSecure(chain: Chain, setup: Setup, st: ClientState, bootstrap: Option<Bootstrap>,
                   updates: Option<seq<Update>>, finality: Option<Update>, optimistic: Option<Update>,
                   clock: nat -> nat)
    requires Assumed(chain, setup) && ClockAfterGenesis(setup.config, clock)
    ensures
      var events := SyncEvents(bootstrap, updates, finality, optimistic, clock);
      && AllAfterGenesis(setup, events)
      && var out := RunStrict(setup, st, events);
         out.result.Success? ==> Secure(chain, out.state.store)
  {
    var events := SyncEvents(bootstrap, updates, finality, optimistic, clock);
    assert AllAfterGenesis(setup, events) && events != [];
    if RunStrict(setup, st, events).result.Success? {
      assert Step(setup, st, events[0]).result.Success?;
      StrictRunSafe(chain, setup, st, events);
      RunHeadsAgree(chain, setup, st, events);
    }
  }

  /** An advance, successful or not. */
  lemma AdvanceSecure(chain: Chain, setup: Setup, st: ClientState, finality: Option<Update>,
                      optimistic: Option<Update>, updates: Option<seq<Update>>, clock: nat -> nat)
    requires Assumed(chain, setup) && ClockAfterGenesis(setup.config, clock) && Secure(chain, st.store)
    ensures Secure(chain, AdvanceOutcome(setup, st, finality, optimistic, updates, clock).state.store)
  {
    var events := AdvanceEvents(finality, optimistic, clock, 0);
    StrictRunSafe(chain, setup, st, events);
    RunHeadsAgree(chain, setup, st, events);
    if updates.Some? && |updates.value| == 1 {
      var e := Deliver(updates.value[0], clock(2));
      var head := RunStrict(setup, st, events).state;
      StepSafe(chain, setup, head, e);
      StepHeadsAgree(chain, setup, head, e);
    }
  }

  /** Within 64 bits and for a slot not in the future, the age test of a
      checkpoint compares its true age. */
  lemma CheckpointAge(config: Config, slot: nat, now: nat)
    requires config.genesisTime <= now < 0x1_0000_0000_0000_0000
    requires slot <= ExpectedCurrentSlot(config, now)
    ensures IsValidCheckpoint(config, slot, now)
       <==> 12 * (ExpectedCurrentSlot(config, now) - slot) < config.maxCheckpointAge
  {
    var currentSlot := ExpectedCurrentSlot(config, now);
    NoWrap(currentSlot * 12 + config.genesisTime);
    NoWrap(slot * 12 + config.genesisTime);
    NoWrap(12 * (currentSlot - slot));
  }

  lemma NoWrap(n: nat)
    requires n < 0x1_0000_0000_0000_0000
    ensures Wrap(n) == n
  {
  }

  /*** Checkpoints ***/

  /** The last header of a list that starts an epoch. */
  function LastEpochStart(finalized: seq<Header>): Option<Header> {
    if finalized == [] then None
    else
      var last := finalized[|finalized| - 1];
      if last.slot % 32 == 0 then Some(last) else LastEpochStart(finalized[..|finalized| - 1])
  }

  ghost predicate CheckpointIsLast(t: Trace) {
    t.state.lastCheckpoint
    == match LastEpochStart(t.finalized)
       case None => None
       case Some(h) => Some(HeaderRoot(h))
  }

  /** Over any run, bootstraps included, the checkpoint to save is the root of the
      latest header that an update finalized at the first slot of an epoch. */
  lemma {:induction false} CheckpointHistory(setup: Setup, t: Trace, events: seq<Event>)
    requires AllAfterGenesis(setup, events) && CheckpointIsLast(t)
    ensures CheckpointIsLast(WatchAll(setup, t, events))
    decreases |events|
  {
    if events != [] {
      var next := Watch(setup, t, events[0]);
      if next.finalized != t.finalized {
        assert next.finalized[..|next.finalized| - 1] == t.finalized;
      }
      CheckpointHistory(setup, next, events[1..]);
    }
  }

  /** The same for events given up at the first failure. */
  lemma StrictCheckpoint(setup: Setup, t: Trace, events: seq<Event>) returns (n: nat)
    requires AllAfterGenesis(setup, events) && CheckpointIsLast(t)
    ensures n <= |events| && AllAfterGenesis(setup, events[..n])
    ensures
      var out := RunStrict(setup, t.state, events);
      && (out.result.Success? ==> n == |events|)
      && out.state == WatchAll(setup, t, events[..n]).state && CheckpointIsLast(WatchAll(setup, t, events[..n]))
  {
    n := StrictIsPrefix(setup, t.state, events);
    WatchingIsRunning(setup, t, events[..n]);
    CheckpointHistory(setup, t, events[..n]);
  }
}
