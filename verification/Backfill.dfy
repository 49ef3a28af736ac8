/** Filling in the payloads between two heads along the chain of parent hashes. */
module Backfill {
  import opened Results
  import opened Rlp
  import opened Ssz
  import opened LightClient

  type BlockRpc = nat -> Option<BeaconBlock>

  /** The payloads the server gives for the slots below `endSlot`, newest first. */
  function Fetched(rpc: BlockRpc, startSlot: nat, endSlot: nat): seq<ExecutionPayload> {
    if startSlot >= endSlot then []
    else
      var block := rpc(endSlot - 1);
      var older := Fetched(rpc, startSlot, endSlot - 1);
      if block.Some? then [block.value.body.payload] + older else older
  }

  /** The first payload has the hash `parent`, and every payload is the parent of
      the one before it. */
  predicate Linked(payloads: seq<ExecutionPayload>, parent: Bytes) {
    payloads == [] || (payloads[0].blockHash == parent && Linked(payloads[1..], payloads[0].parentHash))
  }

  /** The hash that the next payload of a linked sequence must have. */
  function Tip(payloads: seq<ExecutionPayload>, parent: Bytes): Bytes {
    if payloads == [] then parent else payloads[|payloads| - 1].parentHash
  }

  lemma {:induction false} LinkedAppend(a: seq<ExecutionPayload>, b: seq<ExecutionPayload>, parent: Bytes)
    ensures Linked(a + b, parent) <==> Linked(a, parent) && Linked(b, Tip(a, parent))
  {
    if a == [] {
      assert a + b == b;
    } else {
      assert (a + b)[1..] == a[1..] + b;
      LinkedAppend(a[1..], b, a[0].parentHash);
    }
  }

  /** `payloads` is the longest linked prefix of `fetched`. */
  ghost predicate LongestLinked(payloads: seq<ExecutionPayload>, fetched: seq<ExecutionPayload>, parent: Bytes) {
    && payloads <= fetched && Linked(payloads, parent)
    && forall n :: |payloads| < n <= |fetched| ==> !Linked(fetched[..n], parent)
  }

  method GetPayloads(rpc: BlockRpc, startSlot: nat, endSlot: nat)
    returns (r: Result<seq<ExecutionPayload>, ConsensusError>)
    ensures rpc(endSlot).None? ==> r == Failure(Unavailable)
    ensures rpc(endSlot).Some? ==>
              && r.Success?
              && LongestLinked(r.value, Fetched(rpc, startSlot, endSlot), rpc(endSlot).value.body.payload.parentHash)
  {
    var end := rpc(endSlot);
    if end.None? {
      return Failure(Unavailable);
    }
    var prevParentHash := end.value.body.payload.parentHash;
    ghost var parent := prevParentHash;
    ghost var all := Fetched(rpc, startSlot, endSlot);
    var payloads: seq<ExecutionPayload> := [];
    var slot := endSlot;
    while slot > startSlot
      invariant startSlot <= slot || slot == endSlot
      invariant all == payloads + Fetched(rpc, startSlot, slot)
      invariant Linked(payloads, parent) && prevParentHash == Tip(payloads, parent)
    {
      slot := slot - 1;
      var result := rpc(slot);
      if result.None? {
        continue;
      }
      var payload := result.value.body.payload;
      if payload.blockHash != prevParentHash {
        Unlinkable(payloads, payload, Fetched(rpc, startSlot, slot), parent);
        return Success(payloads);
      }
      LinkedAppend(payloads, [payload], parent);
      prevParentHash := payload.parentHash;
      payloads := payloads + [payload];
    }
    assert all == payloads;
    return Success(payloads);
  }

  /** A linked prefix cannot be extended past a payload of the wrong hash. */
  lemma Unlinkable(payloads: seq<ExecutionPayload>, next: ExecutionPayload, rest: seq<ExecutionPayload>, parent: Bytes)
    requires Linked(payloads, parent) && next.blockHash != Tip(payloads, parent)
    ensures LongestLinked(payloads, payloads + ([next] + rest), parent)
  {
    var all := payloads + ([next] + rest);
    var k := |payloads|;
    forall n | k < n <= |all|
      ensures !Linked(all[..n], parent)
    {
      assert all[..n] == payloads + all[k..n] && all[k] == next;
      LinkedAppend(payloads, all[k..n], parent);
    }
  }

  /*** Against an honest chain ***/

  /** No block at the slots from `lo` up to `hi`. */
  predicate AllMissed(chain: BlockRpc, lo: nat, hi: nat)
    decreases hi - lo
  {
    lo >= hi || (chain(lo).None? && AllMissed(chain, lo + 1, hi))
  }

  /** `p` is the child of `q`, by hash and by number. */
  predicate Follows(p: ExecutionPayload, q: ExecutionPayload) {
    q.blockHash == p.parentHash && q.blockNumber + 1 == p.blockNumber
  }

  /** Blocks by slot, some slots missed: a block follows the last one before it. */
  ghost predicate Chained(chain: BlockRpc) {
    forall a: nat, b: nat {:trigger chain(a), chain(b)} ::
      a < b && chain(a).Some? && chain(b).Some? && AllMissed(chain, a + 1, b) ==>
        Follows(chain(b).value.body.payload, chain(a).value.body.payload)
  }

  /** The payloads go down from `p`, by hash and by number. */
  predicate LinkedDown(payloads: seq<ExecutionPayload>, p: ExecutionPayload) {
    payloads == [] || (Follows(p, payloads[0]) && LinkedDown(payloads[1..], payloads[0]))
  }

  lemma {:induction false} LinkedDownExact(payloads: seq<ExecutionPayload>, p: ExecutionPayload)
    requires LinkedDown(payloads, p)
    ensures Linked(payloads, p.parentHash)
    ensures forall i :: 0 <= i < |payloads| ==> payloads[i].blockNumber == p.blockNumber - 1 - i
  {
    if payloads != [] {
      LinkedDownExact(payloads[1..], payloads[0]);
      assert forall i :: 1 <= i < |payloads| ==> payloads[i] == payloads[1..][i - 1];
    }
  }

  lemma FetchedStep(chain: BlockRpc, startSlot: nat, k: nat, p: ExecutionPayload)
    requires
      var q := if chain(k).Some? then chain(k).value.body.payload else p;
      (chain(k).Some? ==> Follows(p, q)) && LinkedDown(Fetched(chain, startSlot, k), q)
    ensures LinkedDown(Fetched(chain, startSlot, k + 1), p)
  {
    var below := Fetched(chain, startSlot, k);
    if startSlot <= k && chain(k).Some? {
      assert ([chain(k).value.body.payload] + below)[1..] == below;
    }
  }

  /** Below the block at `next`, what is fetched goes down from it. */
  lemma {:induction false} FetchedLinked(chain: BlockRpc, startSlot: nat, k: nat, next: nat)
    requires Chained(chain) && chain(next).Some? && k <= next && AllMissed(chain, k, next)
    ensures LinkedDown(Fetched(chain, startSlot, k), chain(next).value.body.payload)
  {
    if startSlot < k {
      FetchedLinked(chain, startSlot, k - 1, if chain(k - 1).Some? then k - 1 else next);
      FetchedStep(chain, startSlot, k - 1, chain(next).value.body.payload);
    }
  }

  /** A server that answers with the chain is believed whole: every payload of the
      range is returned, newest first, numbered without a gap down from the end
      block. */
  lemma HonestBackfill(chain: BlockRpc, startSlot: nat, endSlot: nat, payloads: seq<ExecutionPayload>)
    requires Chained(chain) && chain(endSlot).Some?
    requires LongestLinked(payloads, Fetched(chain, startSlot, endSlot), chain(endSlot).value.body.payload.parentHash)
    ensures payloads == Fetched(chain, startSlot, endSlot)
    ensures forall i :: 0 <= i < |payloads| ==>
              payloads[i].blockNumber == chain(endSlot).value.body.payload.blockNumber - 1 - i
    ensures forall s: nat :: startSlot <= s < endSlot && chain(s).Some? ==>
              chain(s).value.body.payload in payloads
  {
    FetchedLinked(chain, startSlot, endSlot, endSlot);
    var fetched := Fetched(chain, startSlot, endSlot);
    LinkedDownExact(fetched, chain(endSlot).value.body.payload);
    assert fetched[..|fetched|] == fetched;
    forall s: nat | startSlot <= s < endSlot && chain(s).Some?
      ensures chain(s).value.body.payload in fetched
    {
      FetchedCovers(chain, startSlot, endSlot, s);
    }
  }

  lemma {:induction false} FetchedCovers(chain: BlockRpc, startSlot: nat, endSlot: nat, s: nat)
    requires startSlot <= s < endSlot && chain(s).Some?
    ensures chain(s).value.body.payload in Fetched(chain, startSlot, endSlot)
  {
    if s < endSlot - 1 {
      FetchedCovers(chain, startSlot, endSlot - 1, s);
    }
  }

  lemma {:induction false} FetchedFrom(rpc: BlockRpc, startSlot: nat, endSlot: nat, p: ExecutionPayload)
    requires p in Fetched(rpc, startSlot, endSlot)
    ensures exists s: nat :: startSlot <= s < endSlot && rpc(s).Some? && rpc(s).value.body.payload == p
  {
    if rpc(endSlot - 1).Some? && rpc(endSlot - 1).value.body.payload == p {
      assert startSlot <= endSlot - 1 < endSlot;
    } else {
      FetchedFrom(rpc, startSlot, endSlot - 1, p);
    }
  }

  /** Fetched are exactly the payloads of the blocks from `startSlot` up to but not
      including `endSlot`, those of later slots first. */
  lemma FetchedExact(rpc: BlockRpc, startSlot: nat, endSlot: nat, p: ExecutionPayload)
    ensures p in Fetched(rpc, startSlot, endSlot)
       <==> exists s: nat :: startSlot <= s < endSlot && rpc(s).Some? && rpc(s).value.body.payload == p
    ensures forall mid: nat :: startSlot <= mid <= endSlot ==>
              Fetched(rpc, startSlot, endSlot) == Fetched(rpc, mid, endSlot) + Fetched(rpc, startSlot, mid)
  {
    if p in Fetched(rpc, startSlot, endSlot) {
      FetchedFrom(rpc, startSlot, endSlot, p);
    }
    if s: nat :| startSlot <= s < endSlot && rpc(s).Some? && rpc(s).value.body.payload == p {
      FetchedCovers(rpc, startSlot, endSlot, s);
    }
    forall mid: nat | startSlot <= mid <= endSlot
      ensures Fetched(rpc, startSlot, endSlot) == Fetched(rpc, mid, endSlot) + Fetched(rpc, startSlot, mid)
    {
      FetchedSplit(rpc, startSlot, mid, endSlot);
    }
  }

  lemma {:induction false} FetchedSplit(rpc: BlockRpc, startSlot: nat, mid: nat, endSlot: nat)
    requires startSlot <= mid <= endSlot
    ensures Fetched(rpc, startSlot, endSlot) == Fetched(rpc, mid, endSlot) + Fetched(rpc, startSlot, mid)
    decreases endSlot
  {
    if mid < endSlot {
      FetchedSplit(rpc, startSlot, mid, endSlot - 1);
    }
  }

  /*** What the links are worth ***/

  lemma {:induction false} OnlyLinksMatter(a: seq<ExecutionPayload>, b: seq<ExecutionPayload>, parent: Bytes)
    requires |a| == |b|
    requires forall i :: 0 <= i < |a| ==> a[i].blockHash == b[i].blockHash && a[i].parentHash == b[i].parentHash
    ensures Linked(a, parent) <==> Linked(b, parent)
  {
    if a != [] {
      OnlyLinksMatter(a[1..], b[1..], a[0].parentHash);
    }
  }

  /** The hashes that link the payloads are fields that the server fills in: any
      roots and any number pass for those of any payload. */
  lemma ContentsUnchecked(payloads: seq<ExecutionPayload>, parent: Bytes, k: nat,
                          stateRoot: Bytes, receiptsRoot: Bytes, blockNumber: nat)
    requires Linked(payloads, parent) && k < |payloads|
    ensures
      var altered := payloads[k].(stateRoot := stateRoot, receiptsRoot := receiptsRoot, blockNumber := blockNumber);
      Linked(payloads[k := altered], parent)
  {
    var altered := payloads[k].(stateRoot := stateRoot, receiptsRoot := receiptsRoot, blockNumber := blockNumber);
    OnlyLinksMatter(payloads[k := altered], payloads, parent);
  }

  function Contents(p: ExecutionPayload): ExecutionPayload {
    p.(blockHash := [])
  }

  /** The block hash is the hash of the contents. */
  predicate Genuine(hash: ExecutionPayload -> Bytes, p: ExecutionPayload) {
    p.blockHash == hash(Contents(p))
  }

  /** Linked payloads are those of the chain exactly if the block hash of each is
      that of its contents, which the client does not check. The hash need not
      collide for the payloads at hand, and the chain is any linked sequence of
      genuine payloads. */
  lemma {:induction false} AuthenticBackfill(hash: ExecutionPayload -> Bytes, chain: seq<ExecutionPayload>,
                                             payloads: seq<ExecutionPayload>, parent: Bytes)
    requires Linked(chain, parent) && forall i :: 0 <= i < |chain| ==> Genuine(hash, chain[i])
    requires Linked(payloads, parent) && |payloads| <= |chain|
    requires forall i :: 0 <= i < |payloads| && hash(Contents(payloads[i])) == hash(Contents(chain[i])) ==>
               Contents(payloads[i]) == Contents(chain[i])
    ensures payloads <= chain <==> forall i :: 0 <= i < |payloads| ==> Genuine(hash, payloads[i])
  {
    if payloads != [] {
      if Genuine(hash, payloads[0]) {
        assert payloads[0] == chain[0];
        AuthenticBackfill(hash, chain[1..], payloads[1..], chain[0].parentHash);
        assert payloads == [payloads[0]] + payloads[1..] && chain == [chain[0]] + chain[1..];
      }
    }
  }
}
