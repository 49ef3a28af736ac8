/** An honest server brings the client forward, one period for each update. */
module SyncProgress {
  import opened Results
  import opened Ssz
  import opened LightClient
  import opened LightClientSafety
  import opened ConsensusClient
  import opened Messages

  /** A full update of `period`: its three slots lie in that period and not in the
      future, two thirds of the period's committee signed it, and its branches
      hold. */
  ghost predicate HonestFull(chain: Chain, setup: Setup, e: Event, period: nat) {
    && e.Deliver? && e.update.FullUpdate? && AfterGenesis(setup, e)
    && var u := e.update;
       && ExpectedCurrentSlot(setup.config, e.now) >= u.signatureSlot
       && u.signatureSlot > u.attestedHeader.slot >= u.finalizedHeader.slot
       && CalcSyncPeriod(u.finalizedHeader.slot) == CalcSyncPeriod(u.signatureSlot) == period
       && CountBits(u.syncAggregate.bits) * 3 >= 512 * 2
       && SignedBy(setup.signed, Some(chain.committee(period)), u.attestedHeader, u.syncAggregate, u.signatureSlot)
       && IsFinalityProofValid(u.attestedHeader, u.finalizedHeader, u.finalityBranch)
       && IsNextCommitteeProofValid(u.attestedHeader, u.nextSyncCommittee, u.nextSyncCommitteeBranch)
  }

  /** The store can take an update of `period` next: it stands in that period and
      does not know the committee after it, or it stands in the period before and
      knows the committee of `period`. */
  predicate ReadyFor(s: LightClientStore, period: nat) {
    CalcSyncPeriod(s.finalizedHeader.slot) + (if s.nextSyncCommittee.Some? then 1 else 0) == period
  }

  lemma OneStep(chain: Chain, setup: Setup, st: ClientState, e: Event, period: nat)
    requires Honest(chain, setup.signed) && Safe(chain, st.store) && ReadyFor(st.store, period)
    requires HonestFull(chain, setup, e, period)
    ensures
      var out := Step(setup, st, e);
      && out.result.Success? && Safe(chain, out.state.store)
      && ReadyFor(out.state.store, period + 1) && out.state.store.nextSyncCommittee.Some?
  {
    var u := ToGeneric(e.update);
    var now := ExpectedCurrentSlot(setup.config, e.now);
    assert CalcSyncPeriod(u.attestedHeader.slot) == period;
    assert ValidPeriod(st.store, u) && SigningCommittee(st.store, u) == chain.committee(period);
    assert Verify(st.store, setup.signed, u, now).Success?;
    ApplySafe(chain, setup.signed, st, u, now);
    VerifiedPeriods(st.store, setup.signed, u, now);
  }

  /** Updates of the periods p, p + 1, p + 2 and so on. */
  ghost predicate HonestRun(chain: Chain, setup: Setup, events: seq<Event>, p: nat) {
    events == [] || (HonestFull(chain, setup, events[0], p) && HonestRun(chain, setup, events[1..], p + 1))
  }

  lemma ProgressStep(chain: Chain, setup: Setup, st: ClientState, events: seq<Event>, p: nat)
    returns (next: ClientState)
    requires Honest(chain, setup.signed) && Safe(chain, st.store) && ReadyFor(st.store, p)
    requires AllAfterGenesis(setup, events) && events != [] && HonestFull(chain, setup, events[0], p)
    ensures RunStrict(setup, st, events) == RunStrict(setup, next, events[1..])
    ensures Safe(chain, next.store) && ReadyFor(next.store, p + 1) && next.store.nextSyncCommittee.Some?
  {
    OneStep(chain, setup, st, events[0], p);
    next := Step(setup, st, events[0]).state;
  }

  /** From a store ready for period p, k honest updates of the periods p, p + 1
      and so on are all accepted and leave it ready for period p + k. */
  lemma {:induction false} Progress(chain: Chain, setup: Setup, st: ClientState, events: seq<Event>, p: nat)
    requires Honest(chain, setup.signed) && Safe(chain, st.store) && ReadyFor(st.store, p)
    requires AllAfterGenesis(setup, events) && HonestRun(chain, setup, events, p)
    ensures
      var out := RunStrict(setup, st, events);
      && out.result.Success? && Safe(chain, out.state.store) && ReadyFor(out.state.store, p + |events|)
      && (st.store.nextSyncCommittee.Some? || events != [] ==> out.state.store.nextSyncCommittee.Some?)
    decreases |events|
  {
    if events != [] {
      var next := ProgressStep(chain, setup, st, events, p);
      Progress(chain, setup, next, events[1..], p + 1);
    }
  }

  lemma BootReady(chain: Chain, setup: Setup, st: ClientState, e: Event)
    requires Honest(chain, setup.signed) && Trusted(chain, setup.initialCheckpoint)
    requires AfterGenesis(setup, e) && e.Boot? && CheckBootstrap(setup, e.bootstrap, e.now).Success?
    ensures
      var out := Step(setup, st, e);
      && out.result.Success? && Safe(chain, out.state.store)
      && ReadyFor(out.state.store, CalcSyncPeriod(e.bootstrap.header.slot))
  {
    BootSafe(chain, setup, e.bootstrap, e.now);
  }

  /** Bootstrap and updates of a sync against an honest server: after an accepted
      bootstrap in period p, k such updates are all accepted and leave the client in
      period p + k - 1 with the committee of period p + k known. */
  lemma SyncProgress(chain: Chain, setup: Setup, st: ClientState, boot: Event, events: seq<Event>, p: nat)
    requires Honest(chain, setup.signed) && Trusted(chain, setup.initialCheckpoint)
    requires AfterGenesis(setup, boot) && boot.Boot? && CheckBootstrap(setup, boot.bootstrap, boot.now).Success?
    requires CalcSyncPeriod(boot.bootstrap.header.slot) == p
    requires AllAfterGenesis(setup, events) && HonestRun(chain, setup, events, p) && events != []
    ensures AllAfterGenesis(setup, [boot] + events)
    ensures
      var out := RunStrict(setup, st, [boot] + events);
      && out.result.Success? && Safe(chain, out.state.store)
      && CalcSyncPeriod(out.state.store.finalizedHeader.slot) == p + |events| - 1
      && out.state.store.nextSyncCommittee == Some(chain.committee(p + |events|))
  {
    BootReady(chain, setup, st, boot);
    assert ([boot] + events)[1..] == events;
    Arrival(chain, setup, Step(setup, st, boot).state, events, p);
  }

  lemma Arrival(chain: Chain, setup: Setup, st: ClientState, events: seq<Event>, p: nat)
    requires Honest(chain, setup.signed) && Safe(chain, st.store) && ReadyFor(st.store, p)
    requires AllAfterGenesis(setup, events) && HonestRun(chain, setup, events, p) && events != []
    ensures
      var out := RunStrict(setup, st, events);
      && out.result.Success? && Safe(chain, out.state.store)
      && CalcSyncPeriod(out.state.store.finalizedHeader.slot) == p + |events| - 1
      && out.state.store.nextSyncCommittee == Some(chain.committee(p + |events|))
  {
    Progress(chain, setup, st, events, p);
    ReadyAhead(RunStrict(setup, st, events).state.store, p + |events|);
  }

  lemma ReadyAhead(s: LightClientStore, period: nat)
    requires ReadyFor(s, period) && s.nextSyncCommittee.Some?
    ensures CalcSyncPeriod(s.finalizedHeader.slot) == period - 1
  {
  }

  /*** The head ***/

  /** A finality or optimistic update at the head: newer than `bound`, signed by
      somebody in period `last` or the next one, not in the future, and of valid
      finality. It need not have a quorum. */
  ghost predicate HonestHead(chain: Chain, setup: Setup, e: Event, last: nat, bound: nat) {
    && e.Deliver? && !e.update.FullUpdate? && AfterGenesis(setup, e)
    && var u := e.update;
       && InTime(u, ExpectedCurrentSlot(setup.config, e.now)) && u.attestedHeader.slot > bound
       && last <= CalcSyncPeriod(u.signatureSlot) <= last + 1 && SomebodySigns(u)
       && SignedBy(setup.signed, Some(chain.committee(CalcSyncPeriod(u.signatureSlot))),
                   u.attestedHeader, u.syncAggregate, u.signatureSlot)
       && (u.FinalityUpdate? ==> ProvesFinality(u.attestedHeader, u.finalizedHeader, u.finalityBranch))
  }

  /** In a safe store that is not past the update and knows the committee it may
      need, an update of the head is accepted. */
  lemma HeadAccepted(chain: Chain, setup: Setup, st: ClientState, e: Event, last: nat, bound: nat)
    requires Honest(chain, setup.signed) && Safe(chain, st.store) && HonestHead(chain, setup, e, last, bound)
    requires st.store.finalizedHeader.slot <= bound
    requires
      var sp, up := CalcSyncPeriod(st.store.finalizedHeader.slot), CalcSyncPeriod(e.update.signatureSlot);
      sp == up || (sp + 1 == up && st.store.nextSyncCommittee.Some?)
    ensures
      var out := Step(setup, st, e);
      && out.result.Success? && Safe(chain, out.state.store)
      && out.state == Apply(st, ToGeneric(e.update))
  {
    var u, now := ToGeneric(e.update), ExpectedCurrentSlot(setup.config, e.now);
    PartsAgree(e.update, now);
    assert SigningCommittee(st.store, u) == chain.committee(CalcSyncPeriod(u.signatureSlot));
    assert Verify(st.store, setup.signed, u, now).Success?;
    ApplySafe(chain, setup.signed, st, u, now);
  }

  /** No update finalizes anything above `bound`. */
  predicate FinalizesBelow(events: seq<Event>, bound: nat) {
    forall i :: 0 <= i < |events| && events[i].Deliver? && !events[i].update.OptimisticUpdate? ==>
      events[i].update.finalizedHeader.slot <= bound
  }

  lemma {:induction false} StaysBelow(setup: Setup, st: ClientState, events: seq<Event>, bound: nat)
    requires AllAfterGenesis(setup, events) && FinalizesBelow(events, bound)
    requires forall i :: 0 <= i < |events| ==> !events[i].Boot?
    requires st.store.finalizedHeader.slot <= bound
    ensures RunStrict(setup, st, events).state.store.finalizedHeader.slot <= bound
    decreases |events|
  {
    if events != [] {
      var first := Step(setup, st, events[0]);
      StaysBelow(setup, first.state, events[1..], bound);
    }
  }

  /** Finality and then head, from a safe store of period `last` that knows the
      next committee. */
  lemma HeadsAccepted(chain: Chain, setup: Setup, st: ClientState, finality: Event, optimistic: Event,
                      last: nat, bound: nat)
    requires Honest(chain, setup.signed) && Safe(chain, st.store)
    requires CalcSyncPeriod(st.store.finalizedHeader.slot) == last && st.store.nextSyncCommittee.Some?
    requires st.store.finalizedHeader.slot <= bound && FinalizesBelow([finality], bound)
    requires HonestHead(chain, setup, finality, last, bound) && HonestHead(chain, setup, optimistic, last, bound)
    requires finality.update.FinalityUpdate? && optimistic.update.OptimisticUpdate?
    ensures AllAfterGenesis(setup, [finality, optimistic])
    ensures
      var out := RunStrict(setup, st, [finality, optimistic]);
      && out.result.Success? && Safe(chain, out.state.store)
      && (Finalizes(st.store, finality.update) ==> Installed(out.state, finality.update))
  {
    var next := FinalityAccepted(chain, setup, st, finality, last, bound);
    var end := OptimisticAccepted(chain, setup, next, optimistic, last, bound);
    TwoEvents(setup, st, finality, optimistic, next);
  }

  lemma TwoEvents(setup: Setup, st: ClientState, first: Event, second: Event, next: ClientState)
    requires AfterGenesis(setup, first) && AfterGenesis(setup, second)
    requires Step(setup, st, first) == Outcome(next, Success(()))
    ensures AllAfterGenesis(setup, [first, second])
    ensures RunStrict(setup, st, [first, second]) == Step(setup, next, second)
  {
    assert [first, second][1..] == [second] && [second][1..] == [];
    assert RunStrict(setup, next, [second]) == Step(setup, next, second);
  }

  lemma OptimisticAccepted(chain: Chain, setup: Setup, st: ClientState, e: Event, last: nat, bound: nat)
    returns (next: ClientState)
    requires Honest(chain, setup.signed) && Safe(chain, st.store)
    requires HonestHead(chain, setup, e, last, bound) && e.update.OptimisticUpdate?
    requires st.store.finalizedHeader.slot <= bound
    requires
      var period := CalcSyncPeriod(st.store.finalizedHeader.slot);
      (period == last && st.store.nextSyncCommittee.Some?) || period == last + 1
    ensures Step(setup, st, e) == Outcome(next, Success(())) && Safe(chain, next.store)
    ensures next.store.finalizedHeader == st.store.finalizedHeader && next.lastCheckpoint == st.lastCheckpoint
  {
    HeadPeriods(chain, setup, e, last, bound, st.store);
    HeadAccepted(chain, setup, st, e, last, bound);
    next := Step(setup, st, e).state;
    UpdateInstalled(st, setup.signed, e.update, ExpectedCurrentSlot(setup.config, e.now));
  }

  /** The update's finalized header is the store's, and its root the checkpoint if it
      starts an epoch. */
  predicate Installed(st: ClientState, u: Update)
    requires !u.OptimisticUpdate?
  {
    && st.store.finalizedHeader == u.finalizedHeader
    && (u.finalizedHeader.slot % 32 == 0 ==> st.lastCheckpoint == Some(HeaderRoot(u.finalizedHeader)))
  }

  lemma FinalityAccepted(chain: Chain, setup: Setup, st: ClientState, e: Event, last: nat, bound: nat)
    returns (next: ClientState)
    requires Honest(chain, setup.signed) && Safe(chain, st.store)
    requires CalcSyncPeriod(st.store.finalizedHeader.slot) == last && st.store.nextSyncCommittee.Some?
    requires st.store.finalizedHeader.slot <= bound && FinalizesBelow([e], bound)
    requires HonestHead(chain, setup, e, last, bound) && e.update.FinalityUpdate?
    ensures Step(setup, st, e) == Outcome(next, Success(())) && Safe(chain, next.store)
    ensures next.store.finalizedHeader.slot <= bound
    ensures
      var period := CalcSyncPeriod(next.store.finalizedHeader.slot);
      (period == last && next.store.nextSyncCommittee.Some?) || period == last + 1
    ensures Finalizes(st.store, e.update) ==> Installed(next, e.update)
  {
    var u := ToGeneric(e.update);
    HeadAccepted(chain, setup, st, e, last, bound);
    next := Step(setup, st, e).state;
    RotationNeverSkips(st, setup.signed, u, ExpectedCurrentSlot(setup.config, e.now));
    UpdateInstalled(st, setup.signed, e.update, ExpectedCurrentSlot(setup.config, e.now));
    assert [e][0].update.finalizedHeader.slot <= bound;
  }

  /** When finality has entered a new period, the head is in it. */
  lemma HeadPeriods(chain: Chain, setup: Setup, e: Event, last: nat, bound: nat, s: LightClientStore)
    requires HonestHead(chain, setup, e, last, bound) && s.finalizedHeader.slot <= bound
    ensures CalcSyncPeriod(s.finalizedHeader.slot) <= CalcSyncPeriod(e.update.signatureSlot)
  {
  }

  /** The bootstrap and the updates of a sync, and how far they finalize. */
  lemma BootAndUpdates(chain: Chain, setup: Setup, st: ClientState, boot: Event, events: seq<Event>, p: nat, bound: nat)
    requires Honest(chain, setup.signed) && Trusted(chain, setup.initialCheckpoint)
    requires AfterGenesis(setup, boot) && boot.Boot? && CheckBootstrap(setup, boot.bootstrap, boot.now).Success?
    requires CalcSyncPeriod(boot.bootstrap.header.slot) == p && boot.bootstrap.header.slot <= bound
    requires AllAfterGenesis(setup, events) && HonestRun(chain, setup, events, p) && events != []
    requires FinalizesBelow(events, bound) && forall i :: 0 <= i < |events| ==> !events[i].Boot?
    ensures AllAfterGenesis(setup, [boot] + events)
    ensures
      var out := RunStrict(setup, st, [boot] + events);
      && out.result.Success? && Safe(chain, out.state.store) && out.state.store.nextSyncCommittee.Some?
      && CalcSyncPeriod(out.state.store.finalizedHeader.slot) == p + |events| - 1
      && out.state.store.finalizedHeader.slot <= bound
  {
    SyncProgress(chain, setup, st, boot, events, p);
    assert ([boot] + events)[1..] == events;
    StaysBelow(setup, Step(setup, st, boot).state, events, bound);
  }

  /** Updates and head of an honest server after a bootstrap in period p: as many
      full updates as there are, then a finality and an optimistic update that are
      newer than all that was finalized. */
  ghost predicate HonestSync(chain: Chain, setup: Setup, boot: Event, events: seq<Event>, finality: Event,
                             optimistic: Event, p: nat, bound: nat)
  {
    && boot.Boot? && AfterGenesis(setup, boot) && CheckBootstrap(setup, boot.bootstrap, boot.now).Success?
    && CalcSyncPeriod(boot.bootstrap.header.slot) == p && boot.bootstrap.header.slot <= bound
    && events != [] && AllAfterGenesis(setup, events) && HonestRun(chain, setup, events, p)
    && FinalizesBelow(events, bound) && (forall i :: 0 <= i < |events| ==> !events[i].Boot?)
    && HonestHead(chain, setup, finality, p + |events| - 1, bound) && FinalizesBelow([finality], bound)
    && HonestHead(chain, setup, optimistic, p + |events| - 1, bound)
    && finality.update.FinalityUpdate? && optimistic.update.OptimisticUpdate?
  }

  /** Neither the bootstrap nor an update reaches what this update finalizes. */
  predicate IsNewest(boot: Event, events: seq<Event>, u: Update)
    requires boot.Boot? && !u.OptimisticUpdate?
  {
    var slot := u.finalizedHeader.slot;
    slot > boot.bootstrap.header.slot && FinalizesBelow(events, slot - 1)
  }

  lemma SyncSucceeds(chain: Chain, setup: Setup, st: ClientState, boot: Event, events: seq<Event>, finality: Event,
                     optimistic: Event, p: nat, bound: nat)
    requires Honest(chain, setup.signed) && Trusted(chain, setup.initialCheckpoint)
    requires HonestSync(chain, setup, boot, events, finality, optimistic, p, bound)
    ensures AllAfterGenesis(setup, [boot] + events + [finality, optimistic])
    ensures
      var out := RunStrict(setup, st, [boot] + events + [finality, optimistic]);
      && out.result.Success? && Safe(chain, out.state.store)
      && (Quorum(finality.update) && IsNewest(boot, events, finality.update) ==> Installed(out.state, finality.update))
  {
    BootAndUpdates(chain, setup, st, boot, events, p, bound);
    if IsNewest(boot, events, finality.update) {
      BootAndUpdates(chain, setup, st, boot, events, p, finality.update.finalizedHeader.slot - 1);
    }
    var next := RunStrict(setup, st, [boot] + events).state;
    HeadsAccepted(chain, setup, next, finality, optimistic, p + |events| - 1, bound);
    StrictAppend(setup, st, [boot] + events, [finality, optimistic]);
  }

  lemma SyncEventsSplit(bootstrap: Bootstrap, updates: seq<Update>, finality: Update, optimistic: Update,
                        clock: nat -> nat)
    ensures SyncEvents(Some(bootstrap), Some(updates), Some(finality), Some(optimistic), clock)
         == [Boot(bootstrap, clock(0))] + DeliverAll(updates, clock, 1)
            + [Deliver(finality, clock(1 + |updates|)), Deliver(optimistic, clock(2 + |updates|))]
  {
  }

  /** A whole sync against an honest server, as the client runs it, succeeds. It ends
      with the header of the finality update as its finalized header, and as
      checkpoint if that starts an epoch, when that update has a quorum and is the
      newest. */
  lemma WholeSync(chain: Chain, setup: Setup, st: ClientState, bootstrap: Bootstrap, updates: seq<Update>,
                  finality: Update, optimistic: Update, clock: nat -> nat, p: nat, bound: nat)
    requires Honest(chain, setup.signed) && Trusted(chain, setup.initialCheckpoint)
    requires HonestSync(chain, setup, Boot(bootstrap, clock(0)), DeliverAll(updates, clock, 1),
                        Deliver(finality, clock(1 + |updates|)), Deliver(optimistic, clock(2 + |updates|)), p, bound)
    ensures
      var events := SyncEvents(Some(bootstrap), Some(updates), Some(finality), Some(optimistic), clock);
      && AllAfterGenesis(setup, events)
      && var out := RunStrict(setup, st, events);
         && out.result.Success? && Safe(chain, out.state.store)
         && (Quorum(finality) && IsNewest(Boot(bootstrap, clock(0)), DeliverAll(updates, clock, 1), finality) ==>
               Installed(out.state, finality))
  {
    SyncSucceeds(chain, setup, st, Boot(bootstrap, clock(0)), DeliverAll(updates, clock, 1),
                 Deliver(finality, clock(1 + |updates|)), Deliver(optimistic, clock(2 + |updates|)), p, bound);
    SyncEventsSplit(bootstrap, updates, finality, optimistic, clock);
  }

  /*** Advancing ***/

  /** The state an advance has after finality and head. */
  ghost function AfterHead(setup: Setup, st: ClientState, finality: Option<Update>, optimistic: Option<Update>,
                           clock: nat -> nat): Outcome
    requires ClockAfterGenesis(setup.config, clock)
  {
    var first := if finality.Some? then Step(setup, st, Deliver(finality.value, clock(0)))
                 else Outcome(st, Failure(Unavailable));
    if first.result.Failure? then first
    else if optimistic.Some? then Step(setup, first.state, Deliver(optimistic.value, clock(1)))
    else Outcome(first.state, Failure(Unavailable))
  }

  /** An advance succeeds exactly if both updates of the head do and either the next
      committee is then known or the server has an answer about it. What it does
      beyond the head is to install the one update of that answer, if it is alone and
      passes its checks. */
  lemma AdvanceExact(setup: Setup, st: ClientState, finality: Option<Update>, optimistic: Option<Update>,
                     updates: Option<seq<Update>>, clock: nat -> nat)
    requires ClockAfterGenesis(setup.config, clock)
    ensures
      var head := AfterHead(setup, st, finality, optimistic, clock);
      var out := AdvanceOutcome(setup, st, finality, optimistic, updates, clock);
      var known := head.state.store.nextSyncCommittee.Some?;
      var slot := (clock(2) - setup.config.genesisTime) / 12;
      && (out.result.Success? <==> head.result.Success? && (known || updates.Some?))
      && (out.result.Failure? ==>
            out.result == if head.result.Failure? then head.result else Failure(Unavailable))
      && out.state
         == if head.result.Success? && !known && updates.Some? && |updates.value| == 1
               && FirstFailed(UpdateChecks(head.state.store, setup.signed, updates.value[0], slot)).Success?
            then Apply(head.state, ToGeneric(updates.value[0])) else head.state
  {
    HeadEvents(setup, st, finality, optimistic, clock);
    if updates.Some? && |updates.value| == 1 {
      DeliverReported(setup, AfterHead(setup, st, finality, optimistic, clock).state, updates.value[0], clock(2));
    }
  }

  lemma HeadEvents(setup: Setup, st: ClientState, finality: Option<Update>, optimistic: Option<Update>,
                   clock: nat -> nat)
    requires ClockAfterGenesis(setup.config, clock)
    ensures RunStrict(setup, st, AdvanceEvents(finality, optimistic, clock, 0))
         == AfterHead(setup, st, finality, optimistic, clock)
  {
    var events := AdvanceEvents(finality, optimistic, clock, 0);
    var next := Step(setup, st, events[0]).state;
    assert events[1..] == [events[1]] && events[1..][1..] == [];
    assert RunStrict(setup, next, events[1..]) == Step(setup, next, events[1]);
  }

  lemma LastUpdate(setup: Setup, st: ClientState, finality: Option<Update>, optimistic: Option<Update>, u: Update,
                   clock: nat -> nat, head: ClientState)
    requires ClockAfterGenesis(setup.config, clock)
    requires AfterHead(setup, st, finality, optimistic, clock) == Outcome(head, Success(()))
    requires head.store.nextSyncCommittee.None?
    ensures AdvanceOutcome(setup, st, finality, optimistic, Some([u]), clock)
         == Outcome(Step(setup, head, Deliver(u, clock(2))).state, Success(()))
  {
    HeadEvents(setup, st, finality, optimistic, clock);
  }

  lemma HeadSafe(chain: Chain, setup: Setup, st: ClientState, finality: Option<Update>, optimistic: Option<Update>,
                 clock: nat -> nat)
    requires Honest(chain, setup.signed) && Trusted(chain, setup.initialCheckpoint)
    requires ClockAfterGenesis(setup.config, clock) && Safe(chain, st.store)
    ensures Safe(chain, AfterHead(setup, st, finality, optimistic, clock).state.store)
  {
    HeadEvents(setup, st, finality, optimistic, clock);
    StrictRunSafe(chain, setup, st, AdvanceEvents(finality, optimistic, clock, 0));
  }

  lemma LearnsFrom(chain: Chain, setup: Setup, st: ClientState, e: Event)
    requires Honest(chain, setup.signed) && Safe(chain, st.store) && st.store.nextSyncCommittee.None?
    requires HonestFull(chain, setup, e, CalcSyncPeriod(st.store.finalizedHeader.slot))
    ensures
      var out := Step(setup, st, e).state.store;
      && Safe(chain, out)
      && out.nextSyncCommittee == Some(chain.committee(CalcSyncPeriod(st.store.finalizedHeader.slot) + 1))
  {
    var period := CalcSyncPeriod(st.store.finalizedHeader.slot);
    OneStep(chain, setup, st, e, period);
    ReadyAhead(Step(setup, st, e).state.store, period + 1);
  }

  /** Against an honest server, an advance whose head is accepted learns the next
      committee when it is unknown. */
  lemma AdvanceLearns(chain: Chain, setup: Setup, st: ClientState, finality: Option<Update>, optimistic: Option<Update>,
                      u: Update, clock: nat -> nat, head: ClientState)
    requires Honest(chain, setup.signed) && Trusted(chain, setup.initialCheckpoint)
    requires ClockAfterGenesis(setup.config, clock) && Safe(chain, st.store)
    requires AfterHead(setup, st, finality, optimistic, clock) == Outcome(head, Success(()))
    requires head.store.nextSyncCommittee.None?
    requires HonestFull(chain, setup, Deliver(u, clock(2)), CalcSyncPeriod(head.store.finalizedHeader.slot))
    ensures
      var out := AdvanceOutcome(setup, st, finality, optimistic, Some([u]), clock);
      && out.result.Success? && Safe(chain, out.state.store)
      && out.state.store.nextSyncCommittee
         == Some(chain.committee(CalcSyncPeriod(head.store.finalizedHeader.slot) + 1))
  {
    HeadSafe(chain, setup, st, finality, optimistic, clock);
    LastUpdate(setup, st, finality, optimistic, u, clock, head);
    LearnsFrom(chain, setup, head, Deliver(u, clock(2)));
  }
}
