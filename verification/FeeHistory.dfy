/** Fee history over the payload window. */
module FeeHistory {
  import opened Results
  import opened Sets
  import opened PayloadWindow
  import LightClient

  datatype FeeHistory = FeeHistory(oldestBlock: nat, baseFeePerGas: seq<nat>, reward: seq<seq<nat>>)

  datatype FeeError = EmptyExecutionPayload | InvalidBlockRange(lastBlock: nat, latest: nat)

  /** The requested last block, brought down to the newest known one. */
  function ClampedLast(payloads: Payloads, lastBlock: nat): nat
    requires payloads.Keys != {}
  {
    var latest := MaxKey(payloads.Keys);
    if lastBlock > latest then latest else lastBlock
  }

  /** The first block of the range, brought up to the oldest known one. The
      subtraction is on 64 bits and wraps around. */
  function ClampedOldest(payloads: Payloads, blockCount: nat, lastBlock: nat): nat
    requires payloads.Keys != {}
  {
    var oldest := MinKey(payloads.Keys);
    var requested := LightClient.Wrap(ClampedLast(payloads, lastBlock) - blockCount);
    if requested < oldest then oldest else requested
  }

  /** Every number from `lo` up to but not including `end` is known. */
  predicate AllPresent(payloads: Payloads, lo: nat, end: nat) {
    forall n :: lo <= n < end ==> n in payloads
  }

  function BaseFees(payloads: Payloads, lo: nat, end: nat): (fees: seq<nat>)
    requires AllPresent(payloads, lo, end)
    ensures |fees| == if lo <= end then end - lo else 0
    ensures forall i :: 0 <= i < |fees| ==> fees[i] == payloads[lo + i].baseFeePerGas
  {
    if lo >= end then [] else BaseFees(payloads, lo, end - 1) + [payloads[end - 1].baseFeePerGas]
  }

  /** Rewards are not computed: there is an empty list for every known payload,
      whatever the range. */
  function NoRewards(payloads: Payloads): (rewards: seq<seq<nat>>)
    ensures |rewards| == |payloads| && forall i :: 0 <= i < |rewards| ==> rewards[i] == []
  {
    Copies([], |payloads|)
  }

  method GetFeeHistory(blockCount: nat, lastBlock: nat, payloads: Payloads)
    returns (r: Result<FeeHistory, FeeError>)
    ensures payloads.Keys == {} ==> r == Failure(EmptyExecutionPayload)
    ensures payloads.Keys != {} && lastBlock < MinKey(payloads.Keys) ==>
              r == Failure(InvalidBlockRange(lastBlock, MaxKey(payloads.Keys)))
    ensures payloads.Keys != {} && lastBlock >= MinKey(payloads.Keys) ==>
              var lo, hi := ClampedOldest(payloads, blockCount, lastBlock), ClampedLast(payloads, lastBlock);
              && (r.Success? <==> AllPresent(payloads, lo, hi + 1))
              && (r.Success? ==> r.value == FeeHistory(lo, BaseFees(payloads, lo, hi + 1), NoRewards(payloads)))
              && (r.Failure? ==> r.error == EmptyExecutionPayload)
  {
    if payloads.Keys == {} {
      return Failure(EmptyExecutionPayload);
    }
    var latest := MaxKey(payloads.Keys);
    var oldest := MinKey(payloads.Keys);
    if lastBlock < oldest {
      return Failure(InvalidBlockRange(lastBlock, latest));
    }
    var requestLatest := lastBlock;
    if requestLatest > latest {
      requestLatest := latest;
    }
    var requestOldest := LightClient.Wrap(requestLatest - blockCount);
    if requestOldest < oldest {
      requestOldest := oldest;
    }
    var fees: seq<nat> := [];
    var blockId := requestOldest;
    while blockId <= requestLatest
      invariant requestOldest <= blockId && (blockId <= requestLatest + 1 || blockId == requestOldest)
      invariant AllPresent(payloads, requestOldest, blockId)
      invariant fees == BaseFees(payloads, requestOldest, blockId)
      decreases requestLatest + 1 - blockId
    {
      if blockId !in payloads {
        return Failure(EmptyExecutionPayload);
      }
      fees := fees + [payloads[blockId].baseFeePerGas];
      blockId := blockId + 1;
    }
    assert fees == BaseFees(payloads, requestOldest, requestLatest + 1);
    return Success(FeeHistory(requestOldest, fees, NoRewards(payloads)));
  }

  /** The range that is returned, for all 64-bit numbers. It ends at the requested
      block, or at the newest known one if that is older. It starts `blockCount`
      blocks before its end, or at the oldest known block, exactly when `blockCount`
      does not exceed the end; otherwise the subtraction wraps around and the range is
      empty. */
  lemma RangeExact(payloads: Payloads, blockCount: nat, lastBlock: nat)
    requires payloads.Keys != {} && MinKey(payloads.Keys) <= lastBlock
    requires MaxKey(payloads.Keys) < 0x1_0000_0000_0000_0000 && blockCount < 0x1_0000_0000_0000_0000
    ensures
      var lo, hi := ClampedOldest(payloads, blockCount, lastBlock), ClampedLast(payloads, lastBlock);
      var oldest := MinKey(payloads.Keys);
      && hi <= lastBlock && (hi == lastBlock || hi in payloads)
      && (forall n :: n in payloads && n <= lastBlock ==> n <= hi)
      && (hi < lastBlock ==> forall n :: n in payloads ==> n <= hi)
      && (hi == lastBlock ==> exists n :: n in payloads && n >= hi)
      && (blockCount <= hi <==> lo <= hi)
      && (blockCount <= hi ==> lo == if hi - blockCount < oldest then oldest else hi - blockCount)
  {
    var hi := ClampedLast(payloads, lastBlock);
    assert MinKey(payloads.Keys) <= MaxKey(payloads.Keys);
    if blockCount <= hi {
      assert LightClient.Wrap(hi - blockCount) == hi - blockCount;
    } else {
      assert LightClient.Wrap(hi - blockCount) == hi - blockCount + 0x1_0000_0000_0000_0000;
    }
  }

  /** A successful answer never has more entries than there are payloads. */
  lemma NoMoreThanPayloads(payloads: Payloads, lo: nat, end: nat)
    requires AllPresent(payloads, lo, end)
    ensures |BaseFees(payloads, lo, end)| <= |payloads|
  {
    SubsetSize(Interval(lo, end), payloads.Keys);
  }

  function Interval(lo: nat, end: nat): (s: set<nat>)
    ensures |s| == if lo <= end then end - lo else 0
    ensures forall n :: n in s <==> lo <= n < end
    decreases end - lo
  {
    if lo >= end then {} else {lo} + Interval(lo + 1, end)
  }
}
