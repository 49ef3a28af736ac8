/** What every run of the light client keeps, whatever the server answers. */
module LightClientSafety {
  import opened Results
  import opened Sets
  import opened Ssz
  import opened LightClient

  /** The chain the client is to follow: which headers are canonical, and the
      sync committee of every period. */
  datatype Chain = Chain(canon: Header -> bool, committee: nat -> SyncCommittee)

  /** The assumptions on the chain. A header that two thirds of the committee in
      office signed is canonical. The state of a canonical header commits to the
      committees of its period and the next one, and any header it commits to as
      finalized is canonical. */
  ghost predicate Honest(chain: Chain, signed: SignatureCheck) {
    && (forall h: Header, bits: Bits, signature: Signature, slot: nat ::
          && CountBits(bits) * 3 >= 512 * 2
          && signed(ParticipatingKeys(chain.committee(CalcSyncPeriod(slot)).pubkeys, bits), h, signature, slot)
          ==> chain.canon(h))
    && (forall h: Header :: chain.canon(h) ==>
          && NodeAt(h.stateRoot, 5, 22) == Some(CommitteeRoot(chain.committee(CalcSyncPeriod(h.slot))))
          && NodeAt(h.stateRoot, 5, 23) == Some(CommitteeRoot(chain.committee(CalcSyncPeriod(h.slot) + 1))))
    && (forall h: Header, f: Header ::
          chain.canon(h) && NodeAt(h.stateRoot, 6, 41) == Some(HeaderRoot(f)) ==> chain.canon(f))
  }

  /** The checkpoint is the root of a canonical header. */
  ghost predicate Trusted(chain: Chain, checkpoint: Node) {
    exists h: Header :: chain.canon(h) && HeaderRoot(h) == checkpoint
  }

  /** The finalized header is canonical, the current committee is the one of its
      period, and a known next committee is the one of the period after. */
  ghost predicate Safe(chain: Chain, s: LightClientStore) {
    var period := CalcSyncPeriod(s.finalizedHeader.slot);
    && chain.canon(s.finalizedHeader)
    && s.currentSyncCommittee == chain.committee(period)
    && (s.nextSyncCommittee.Some? ==> s.nextSyncCommittee.value == chain.committee(period + 1))
  }

  lemma GenericIsPaired(update: Update)
    ensures Paired(ToGeneric(update))
  {
  }

  /** Periods of a verified update, which never leave the store's reach. The last
      clause is the Altair specification's assertion that the finalized period
      is the store's when the next committee is unknown; the code relies on it
      without checking it. */
  lemma VerifiedPeriods(s: LightClientStore, signed: SignatureCheck, u: GenericUpdate, currentSlot: nat)
    requires Verify(s, signed, u, currentSlot).Success?
    ensures
      var sp := CalcSyncPeriod(s.finalizedHeader.slot);
      var ap := CalcSyncPeriod(u.attestedHeader.slot);
      var fp := CalcSyncPeriod(FinalizedSlot(u));
      && sp <= ap <= CalcSyncPeriod(u.signatureSlot) <= sp + 1 && fp <= ap
      && (IsNewer(s, u) ==> sp <= fp)
      && (s.nextSyncCommittee.None? ==> ap == sp)
      && (ShouldApply(s, u) && s.nextSyncCommittee.None? ==> fp == sp)
  {
  }

  /** A verified update with a quorum is about canonical headers and carries the
      committee after its attested period. */
  lemma VerifiedQuorum(chain: Chain, signed: SignatureCheck, s: LightClientStore, u: GenericUpdate, currentSlot: nat)
    requires Honest(chain, signed) && Safe(chain, s) && Paired(u)
    requires Verify(s, signed, u, currentSlot).Success? && HasMajority(u)
    ensures chain.canon(u.attestedHeader)
    ensures u.finalizedHeader.Some? ==> chain.canon(u.finalizedHeader.value)
    ensures u.nextSyncCommittee.Some? ==>
              u.nextSyncCommittee.value == chain.committee(CalcSyncPeriod(u.attestedHeader.slot) + 1)
  {
    var attested := u.attestedHeader;
    assert SigningCommittee(s, u) == chain.committee(CalcSyncPeriod(u.signatureSlot));
    assert chain.canon(attested);
    if u.finalizedHeader.Some? {
      MerkleBranchExact(HeaderRoot(u.finalizedHeader.value), u.finalityBranch.value, 6, 41, attested.stateRoot);
    }
    if u.nextSyncCommittee.Some? {
      MerkleBranchExact(CommitteeRoot(u.nextSyncCommittee.value), u.nextSyncCommitteeBranch.value,
                        5, 23, attested.stateRoot);
    }
  }

  lemma ApplySafe(chain: Chain, signed: SignatureCheck, st: ClientState, u: GenericUpdate, currentSlot: nat)
    requires Honest(chain, signed) && Safe(chain, st.store) && Paired(u)
    requires Verify(st.store, signed, u, currentSlot).Success?
    ensures Safe(chain, Apply(st, u).store)
  {
    if ShouldApply(st.store, u) {
      VerifiedPeriods(st.store, signed, u, currentSlot);
      VerifiedQuorum(chain, signed, st.store, u, currentSlot);
      CommitteesSafe(chain, st, u);
    }
  }

  lemma CommitteesSafe(chain: Chain, st: ClientState, u: GenericUpdate)
    requires Safe(chain, st.store) && ShouldApply(st.store, u)
    requires u.finalizedHeader.Some? ==> chain.canon(u.finalizedHeader.value)
    requires
      var sp := CalcSyncPeriod(st.store.finalizedHeader.slot);
      var ap, fp := CalcSyncPeriod(u.attestedHeader.slot), CalcSyncPeriod(FinalizedSlot(u));
      && (u.nextSyncCommittee.Some? ==> u.nextSyncCommittee.value == chain.committee(ap + 1))
      && sp <= ap <= sp + 1 && fp <= ap && (IsNewer(st.store, u) ==> sp <= fp)
      && (st.store.nextSyncCommittee.None? ==> ap == sp && fp == sp)
    ensures Safe(chain, Apply(st, u).store)
  {
  }

  lemma BootSafe(chain: Chain, setup: Setup, b: Bootstrap, now: nat)
    requires Honest(chain, setup.signed) && Trusted(chain, setup.initialCheckpoint)
    requires setup.config.genesisTime <= now
    requires CheckBootstrap(setup, b, now).Success?
    ensures Safe(chain, BootstrappedStore(b))
  {
    var h: Header :| chain.canon(h) && HeaderRoot(h) == setup.initialCheckpoint;
    assert h == b.header;
    MerkleBranchExact(CommitteeRoot(b.currentSyncCommittee), b.currentSyncCommitteeBranch, 5, 22, h.stateRoot);
  }

  lemma StepSafe(chain: Chain, setup: Setup, st: ClientState, e: Event)
    requires Honest(chain, setup.signed) && Trusted(chain, setup.initialCheckpoint)
    requires AfterGenesis(setup, e)
    requires Safe(chain, st.store) || (e.Boot? && Step(setup, st, e).result.Success?)
    ensures Safe(chain, Step(setup, st, e).state.store)
  {
    match e
    case Boot(b, now) =>
      if CheckBootstrap(setup, b, now).Success? {
        BootSafe(chain, setup, b, now);
      }
    case Deliver(update, now) =>
      var u := ToGeneric(update);
      if Verify(st.store, setup.signed, u, ExpectedCurrentSlot(setup.config, now)).Success? {
        ApplySafe(chain, setup.signed, st, u, ExpectedCurrentSlot(setup.config, now));
      }
    case Silence =>
  }

  /** Safety over whole runs: once a bootstrap from a trusted checkpoint has been
      accepted, no sequence of answers makes the client hold a header or a
      committee that is not the chain's. */
  lemma {:induction false} RunSafe(chain: Chain, setup: Setup, st: ClientState, events: seq<Event>)
    requires Honest(chain, setup.signed) && Trusted(chain, setup.initialCheckpoint)
    requires AllAfterGenesis(setup, events)
    requires
      || Safe(chain, st.store)
      || (events != [] && events[0].Boot? && Step(setup, st, events[0]).result.Success?)
    ensures Safe(chain, Run(setup, st, events).store)
    decreases |events|
  {
    if events != [] {
      StepSafe(chain, setup, st, events[0]);
      RunSafe(chain, setup, Step(setup, st, events[0]).state, events[1..]);
    }
  }

  /** The same for the sequences of events that sync and advance give up at the
      first failure: after any sync whose bootstrap was accepted, or any advance
      from a safe store, complete or broken off, the store is safe. */
  lemma {:induction false} StrictRunSafe(chain: Chain, setup: Setup, st: ClientState, events: seq<Event>)
    requires Honest(chain, setup.signed) && Trusted(chain, setup.initialCheckpoint)
    requires AllAfterGenesis(setup, events)
    requires
      || Safe(chain, st.store)
      || (events != [] && events[0].Boot? && Step(setup, st, events[0]).result.Success?)
    ensures Safe(chain, RunStrict(setup, st, events).state.store)
    decreases |events|
  {
    if events != [] {
      StepSafe(chain, setup, st, events[0]);
      var first := Step(setup, st, events[0]);
      if first.result.Success? {
        StrictRunSafe(chain, setup, first.state, events[1..]);
      }
    }
  }

  /** The committees rotate exactly when the finalized header enters a new period,
      and that period is always the next one: no period is skipped. */
  lemma RotationNeverSkips(st: ClientState, signed: SignatureCheck, u: GenericUpdate, currentSlot: nat)
    requires Verify(st.store, signed, u, currentSlot).Success?
    ensures
      var before := CalcSyncPeriod(st.store.finalizedHeader.slot);
      var after := CalcSyncPeriod(Apply(st, u).store.finalizedHeader.slot);
      && (Rotates(st.store, u) <==> after == before + 1)
      && (!Rotates(st.store, u) <==> after == before)
  {
    VerifiedPeriods(st.store, signed, u, currentSlot);
  }

  /*** Quorums ***/

  ghost function Signers(bits: seq<bool>): set<nat> {
    set i | 0 <= i < |bits| && bits[i]
  }

  /** The count that is compared with two thirds is the number of committee
      positions that signed. */
  lemma {:induction false} CountIsSigners(bits: seq<bool>)
    ensures CountBits(bits) == |Signers(bits)|
  {
    if bits != [] {
      var n := |bits| - 1;
      CountIsSigners(bits[..n]);
      assert Signers(bits) == Signers(bits[..n]) + if bits[n] then {n} else {};
    }
  }

  /** It is also the number of keys handed to the signature check. */
  lemma {:induction false} CountIsKeys(keys: seq<PublicKey>, bits: seq<bool>)
    requires |bits| <= |keys|
    ensures |ParticipatingKeys(keys, bits)| == CountBits(bits)
  {
    if bits != [] {
      CountIsKeys(keys, bits[..|bits| - 1]);
    }
  }

  /** Each signer's key is among them, at the place of its rank. */
  lemma {:induction false} KeysInOrder(keys: seq<PublicKey>, bits: seq<bool>, i: nat)
    requires i < |bits| <= |keys| && bits[i]
    ensures CountBits(bits[..i]) < |ParticipatingKeys(keys, bits)|
    ensures ParticipatingKeys(keys, bits)[CountBits(bits[..i])] == keys[i]
  {
    var n := |bits| - 1;
    CountIsKeys(keys, bits[..n]);
    if i < n {
      assert bits[..n][..i] == bits[..i];
      KeysInOrder(keys, bits[..n], i);
    }
  }

  function Positions(n: nat): (s: set<nat>)
    ensures |s| == n
    ensures forall i :: i in s <==> 0 <= i < n
  {
    if n == 0 then {} else Positions(n - 1) + {n - 1}
  }

  /** Any update that moves the finalized header or a committee has at least 342
      of the 512 signers. */
  lemma ChangeNeedsQuorum(st: ClientState, u: GenericUpdate)
    ensures
      var s, s' := st.store, Apply(st, u).store;
      (s'.finalizedHeader != s.finalizedHeader || s'.currentSyncCommittee != s.currentSyncCommittee
       || s'.nextSyncCommittee != s.nextSyncCommittee)
      ==> |Signers(u.syncAggregate.bits)| >= 342
  {
    CountIsSigners(u.syncAggregate.bits);
  }

  /** Two quorums of one committee share at least 172 positions. */
  lemma QuorumsIntersect(a: Bits, b: Bits)
    requires CountBits(a) * 3 >= 512 * 2 && CountBits(b) * 3 >= 512 * 2
    ensures |Signers(a) * Signers(b)| >= 172
  {
    SignersOverlap(a, b);
  }

  lemma SignersOverlap(a: seq<bool>, b: seq<bool>)
    requires |a| == |b|
    ensures |Signers(a) * Signers(b)| >= CountBits(a) + CountBits(b) - |a|
  {
    CountIsSigners(a);
    CountIsSigners(b);
    Overlap(Signers(a), Signers(b), Positions(|a|));
  }

  lemma Overlap(a: set<nat>, b: set<nat>, all: set<nat>)
    requires a <= all && b <= all
    ensures |a * b| >= |a| + |b| - |all|
  {
    assert |a + b| + |a * b| == |a| + |b|;
    SubsetSize(a + b, all);
  }
}
