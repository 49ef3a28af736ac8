/** Transaction receipts and logs, checked against the receipts root of a payload. */
module Receipts {
  import opened Results
  import opened Rlp
  import opened RlpPrefix
  import opened Ssz
  import opened PayloadWindow

  const MAX_SUPPORTED_LOGS_NUMBER := 5

  /** A log: what consensus commits to, then what the server adds. */
  datatype Log = Log(
    address: Bytes,
    topics: seq<Bytes>,
    data: Bytes,
    transactionHash: Option<Bytes>,
    logIndex: Option<nat>)

  /** A receipt: what consensus commits to, then what the server adds. */
  datatype Receipt = Receipt(
    status: Option<nat>,
    cumulativeGasUsed: nat,
    logsBloom: Bytes,
    logs: seq<Log>,
    transactionType: Option<nat>,
    transactionHash: Bytes,
    blockNumber: Option<nat>)

  /** `ReceiptAborted` stands for the fields the client takes without asking
      whether the server gave them. */
  datatype ReceiptError =
    | RpcError
    | ReceiptRootMismatch(txHash: Bytes)
    | NoReceiptForTransaction(txHash: Bytes)
    | MissingLog(txHash: Bytes, logIndex: nat)
    | MissingTransactionHash
    | TooManyLogsToProve(requested: nat, most: nat)
    | ReceiptAborted

  /*** Encoding ***/

  function LogItem(log: Log): Item {
    List([Str(log.address), List(StringItems(log.topics)), Str(log.data)])
  }

  function LogItems(logs: seq<Log>): seq<Item> {
    seq(|logs|, i requires 0 <= i < |logs| => LogItem(logs[i]))
  }

  /** The part of a receipt that is the same for all transaction types. */
  function BodyItem(r: Receipt): Item
    requires r.status.Some?
  {
    List([
      Str(ToBigEndian(r.status.value)),
      Str(ToBigEndian(r.cumulativeGasUsed)),
      Str(r.logsBloom),
      List(LogItems(r.logs))])
  }

  /** The fields that the encoding reads are there. */
  predicate Complete(r: Receipt) {
    r.status.Some? && r.transactionType.Some?
  }

  /** The low byte of a non-zero type comes before the body. */
  function TypePrefix(r: Receipt): Bytes
    requires Complete(r)
  {
    if r.transactionType.value == 0 then [] else [r.transactionType.value % 256]
  }

  function EncodeReceipt(r: Receipt): Bytes
    requires Complete(r)
  {
    TypePrefix(r) + Encode(BodyItem(r))
  }

  /** Two logs with the same committed part. */
  predicate SameLog(a: Log, b: Log) {
    a.address == b.address && a.topics == b.topics && a.data == b.data
  }

  /** Two receipts with the same committed part. */
  predicate SameReceipt(a: Receipt, b: Receipt)
    requires Complete(a) && Complete(b)
  {
    && TypePrefix(a) == TypePrefix(b)
    && a.status == b.status && a.cumulativeGasUsed == b.cumulativeGasUsed && a.logsBloom == b.logsBloom
    && |a.logs| == |b.logs| && forall i :: 0 <= i < |a.logs| ==> SameLog(a.logs[i], b.logs[i])
  }

  lemma StringItemsInjective(a: seq<Bytes>, b: seq<Bytes>)
    requires StringItems(a) == StringItems(b)
    ensures a == b
  {
    assert |a| == |StringItems(a)|;
    forall i | 0 <= i < |a|
      ensures a[i] == b[i]
    {
      assert StringItems(a)[i] == StringItems(b)[i];
    }
  }

  lemma LogItemExact(a: Log, b: Log)
    ensures LogItem(a) == LogItem(b) <==> SameLog(a, b)
  {
    if LogItem(a) == LogItem(b) {
      var x, y := LogItem(a).items, LogItem(b).items;
      assert x[0] == y[0] && x[1] == y[1] && x[2] == y[2];
      StringItemsInjective(a.topics, b.topics);
    }
  }

  lemma BodyItemExact(a: Receipt, b: Receipt)
    requires Complete(a) && Complete(b)
    ensures BodyItem(a) == BodyItem(b)
       <==> && a.status == b.status && a.cumulativeGasUsed == b.cumulativeGasUsed && a.logsBloom == b.logsBloom
            && |a.logs| == |b.logs| && (forall i :: 0 <= i < |a.logs| ==> SameLog(a.logs[i], b.logs[i]))
  {
    BigEndianRoundTrip(a.status.value);
    BigEndianRoundTrip(b.status.value);
    BigEndianRoundTrip(a.cumulativeGasUsed);
    BigEndianRoundTrip(b.cumulativeGasUsed);
    if BodyItem(a) == BodyItem(b) {
      var x, y := BodyItem(a).items, BodyItem(b).items;
      assert x[0] == y[0] && x[1] == y[1] && x[2] == y[2] && x[3] == y[3];
      assert |LogItems(a.logs)| == |LogItems(b.logs)|;
      forall i | 0 <= i < |a.logs|
        ensures SameLog(a.logs[i], b.logs[i])
      {
        assert LogItems(a.logs)[i] == LogItems(b.logs)[i];
        LogItemExact(a.logs[i], b.logs[i]);
      }
    } else if |a.logs| == |b.logs| && forall i :: 0 <= i < |a.logs| ==> SameLog(a.logs[i], b.logs[i]) {
      forall i | 0 <= i < |a.logs|
        ensures LogItems(a.logs)[i] == LogItems(b.logs)[i]
      {
        LogItemExact(a.logs[i], b.logs[i]);
      }
      assert LogItems(a.logs) == LogItems(b.logs);
    }
  }

  /** The layout of a receipt, as a decoder reads it after the type byte: status, gas,
      bloom, and for every log its address, topics and data. */
  lemma ReceiptLayout(r: Receipt) returns (logs: seq<Item>)
    requires Complete(r) && Encodable(BodyItem(r))
    ensures
      var t := r.transactionType.value;
      if t == 0 then DecodesTo(EncodeReceipt(r), r, logs)
      else EncodeReceipt(r)[0] == t % 256 && DecodesTo(EncodeReceipt(r)[1..], r, logs)
    ensures |logs| == |r.logs|
    ensures forall i :: 0 <= i < |logs| ==>
              logs[i] == List([Str(r.logs[i].address), List(StringItems(r.logs[i].topics)), Str(r.logs[i].data)])
  {
    logs := LogItems(r.logs);
    var body := Encode(BodyItem(r));
    DecodeEncode(BodyItem(r), []);
    assert body + [] == body;
    assert r.transactionType.value == 0 ==> EncodeReceipt(r) == body;
    assert r.transactionType.value != 0 ==> EncodeReceipt(r)[1..] == body;
  }

  predicate DecodesTo(body: Bytes, r: Receipt, logs: seq<Item>)
    requires Complete(r)
  {
    var fields :=
      [Str(ToBigEndian(r.status.value)), Str(ToBigEndian(r.cumulativeGasUsed)), Str(r.logsBloom), List(logs)];
    DecodeItem(body) == Some(Parsed(List(fields), []))
  }

  /** Whatever their types, two receipts have the same encoding exactly when type
      byte, status, gas, bloom and logs are the same. */
  lemma EncodeReceiptExact(a: Receipt, b: Receipt)
    requires Complete(a) && Complete(b)
    requires Encodable(BodyItem(a)) && Encodable(BodyItem(b))
    ensures EncodeReceipt(a) == EncodeReceipt(b) <==> SameReceipt(a, b)
  {
    BodyItemExact(a, b);
    if EncodeReceipt(a) == EncodeReceipt(b) {
      SamePrefix(a, b);
      var n := |TypePrefix(a)|;
      assert Encode(BodyItem(a)) == EncodeReceipt(a)[n..] == EncodeReceipt(b)[n..] == Encode(BodyItem(b));
      EncodeInjective(BodyItem(a), BodyItem(b));
    }
  }

  lemma SamePrefix(a: Receipt, b: Receipt)
    requires Complete(a) && Complete(b) && EncodeReceipt(a) == EncodeReceipt(b)
    requires Encodable(BodyItem(a)) && Encodable(BodyItem(b))
    ensures TypePrefix(a) == TypePrefix(b)
  {
    if TypePrefix(a) == [] && TypePrefix(b) != [] {
      ByteBeforeList(TypePrefix(b)[0], BodyItem(b).items, BodyItem(a).items);
    } else if TypePrefix(a) != [] && TypePrefix(b) == [] {
      ByteBeforeList(TypePrefix(a)[0], BodyItem(a).items, BodyItem(b).items);
    } else if TypePrefix(a) != [] {
      assert EncodeReceipt(a)[0] == TypePrefix(a)[0] && EncodeReceipt(b)[0] == TypePrefix(b)[0];
    }
  }

  function WithType(r: Receipt, t: nat): Receipt {
    r.(transactionType := Some(t))
  }

  lemma WideTypesCollide(r: Receipt)
    requires r.status.Some?
    ensures EncodeReceipt(WithType(r, 1)) == EncodeReceipt(WithType(r, 257))
  {
  }

  /** The encoding tells the types up to a bound apart exactly when the bound is
      at most 256: types above one byte are cut off, and 257 encodes like 1. */
  lemma TypesToldApart(r: Receipt, bound: nat)
    requires r.status.Some? && Encodable(BodyItem(r))
    ensures bound <= 256 <==>
            forall t: nat, u: nat ::
              t <= bound && u <= bound && EncodeReceipt(WithType(r, t)) == EncodeReceipt(WithType(r, u)) ==> t == u
  {
    if bound <= 256 {
      forall t: nat, u: nat | t <= bound && u <= bound && EncodeReceipt(WithType(r, t)) == EncodeReceipt(WithType(r, u))
        ensures t == u
      {
        assert BodyItem(WithType(r, t)) == BodyItem(r) == BodyItem(WithType(r, u));
        SamePrefix(WithType(r, t), WithType(r, u));
      }
    } else {
      WideTypesCollide(r);
    }
  }

  /*** Fetching ***/

  /** The encodings of receipts, if all of them can be encoded. */
  predicate AllComplete(receipts: seq<Receipt>) {
    forall i :: 0 <= i < |receipts| ==> Complete(receipts[i])
  }

  function EncodeReceipts(receipts: seq<Receipt>): seq<Bytes>
    requires AllComplete(receipts)
  {
    seq(|receipts|, i requires 0 <= i < |receipts| => EncodeReceipt(receipts[i]))
  }

  /** The server's answers behind one proved receipt: to the first request, and to
      the requests for every transaction of the block. */
  datatype ReceiptAnswers = ReceiptAnswers(first: Result<Option<Receipt>, ()>, others: seq<Option<Receipt>>)

  /** The root of an ordered trie of encodings. Nothing is assumed of it here. */
  type OrderedRoot = seq<Bytes> -> Bytes

  /** The block that the first answer names, when its payload is known. */
  function NamedPayload(answers: ReceiptAnswers, payloads: Payloads): Option<ExecutionPayload> {
    if answers.first.Success? && answers.first.value.Some? && answers.first.value.value.blockNumber.Some?
       && answers.first.value.value.blockNumber.value in payloads
    then Some(payloads[answers.first.value.value.blockNumber.value]) else None
  }

  /** There is an answer for every transaction of that block. */
  predicate Shaped(answers: ReceiptAnswers, payloads: Payloads) {
    var payload := NamedPayload(answers, payloads);
    payload.Some? ==> |answers.others| == |payload.value.transactions|
  }

  predicate AllAnswered(others: seq<Option<Receipt>>) {
    forall i :: 0 <= i < |others| ==> others[i].Some?
  }

  function Answered(others: seq<Option<Receipt>>): seq<Receipt>
    requires AllAnswered(others)
  {
    seq(|others|, i requires 0 <= i < |others| => others[i].value)
  }

  /** The receipts fetched for a block hash to its receipts root, and the receipt
      is one of them. */
  predicate Proves(orderedRoot: OrderedRoot, answers: ReceiptAnswers, payload: ExecutionPayload, receipt: Receipt) {
    && AllAnswered(answers.others) && AllComplete(Answered(answers.others))
    && orderedRoot(EncodeReceipts(Answered(answers.others))) == payload.receiptsRoot
    && receipt in Answered(answers.others)
  }

  /** What the answers to a request come to: the first one, when the answers for its
      whole block prove it. */
  function ReceiptOutcome(orderedRoot: OrderedRoot, txHash: Bytes, answers: ReceiptAnswers, payloads: Payloads)
    : Result<Option<Receipt>, ReceiptError>
  {
    var payload := NamedPayload(answers, payloads);
    if answers.first.Failure? then Failure(RpcError)
    else if answers.first.value.None? then Success(None)
    else if answers.first.value.value.blockNumber.None? then Failure(ReceiptAborted)
    else if payload.None? then Success(None)
    else if Proves(orderedRoot, answers, payload.value, answers.first.value.value) then Success(answers.first.value)
    else
      Failure(if !AllAnswered(answers.others) then RpcError
              else if !AllComplete(Answered(answers.others)) then ReceiptAborted
              else ReceiptRootMismatch(txHash))
  }

  method GetTransactionReceipt(orderedRoot: OrderedRoot, txHash: Bytes, answers: ReceiptAnswers, payloads: Payloads)
    returns (r: Result<Option<Receipt>, ReceiptError>)
    requires Shaped(answers, payloads)
    ensures r == ReceiptOutcome(orderedRoot, txHash, answers, payloads)
  {
    if answers.first.Failure? {
      return Failure(RpcError);
    }
    if answers.first.value.None? {
      return Success(None);
    }
    var receipt := answers.first.value.value;
    if receipt.blockNumber.None? {
      return Failure(ReceiptAborted);
    }
    if receipt.blockNumber.value !in payloads {
      return Success(None);
    }
    var payload := payloads[receipt.blockNumber.value];
    var receipts: seq<Receipt> := [];
    for i := 0 to |answers.others|
      invariant |receipts| == i
      invariant forall j :: 0 <= j < i ==> answers.others[j] == Some(receipts[j])
    {
      if answers.others[i].None? {
        return Failure(RpcError);
      }
      receipts := receipts + [answers.others[i].value];
    }
    assert receipts == Answered(answers.others);
    var encoded: seq<Bytes> := [];
    for i := 0 to |receipts|
      invariant |encoded| == i
      invariant forall j :: 0 <= j < i ==> Complete(receipts[j]) && encoded[j] == EncodeReceipt(receipts[j])
    {
      if !Complete(receipts[i]) {
        return Failure(ReceiptAborted);
      }
      encoded := encoded + [EncodeReceipt(receipts[i])];
    }
    assert encoded == EncodeReceipts(receipts);
    if orderedRoot(encoded) != payload.receiptsRoot || receipt !in receipts {
      return Failure(ReceiptRootMismatch(txHash));
    }
    return Success(Some(receipt));
  }

  /** A receipt is returned exactly if it is the first answer, its block's payload is
      known, all answers for that block are there and can be encoded, their encodings
      hash to the payload's receipts root, and it is one of them; with or without
      logs. */
  lemma ReceiptReturned(orderedRoot: OrderedRoot, txHash: Bytes, answers: ReceiptAnswers, payloads: Payloads,
                        receipt: Receipt)
    ensures ReceiptOutcome(orderedRoot, txHash, answers, payloads) == Success(Some(receipt))
       <==> && answers.first == Success(Some(receipt))
            && receipt.blockNumber.Some? && receipt.blockNumber.value in payloads
            && (forall i :: 0 <= i < |answers.others| ==>
                  answers.others[i].Some? && Complete(answers.others[i].value))
            && orderedRoot(Encodings(answers.others)) == payloads[receipt.blockNumber.value].receiptsRoot
            && Some(receipt) in answers.others
  {
    var others := answers.others;
    if AllAnswered(others) {
      assert AllComplete(Answered(others)) <==> forall i :: 0 <= i < |others| ==> Complete(others[i].value) by {
        assert forall i :: 0 <= i < |others| ==> Answered(others)[i] == others[i].value;
      }
      assert receipt in Answered(others) <==> Some(receipt) in others by {
        if Some(receipt) in others {
          var i :| 0 <= i < |others| && others[i] == Some(receipt);
          assert Answered(others)[i] == receipt;
        }
      }
      if AllComplete(Answered(others)) {
        assert EncodeReceipts(Answered(others)) == Encodings(others);
      }
    }
  }

  /** The encodings of the answers, empty where there is none. */
  function Encodings(others: seq<Option<Receipt>>): seq<Bytes> {
    seq(|others|, i requires 0 <= i < |others| =>
      if others[i].Some? && Complete(others[i].value) then EncodeReceipt(others[i].value) else [])
  }

  /** Otherwise: nothing is returned exactly if the server has no receipt or its block
      is not known, a failed request is reported as such, a missing field stops the
      client, and what is left is a wrong root or a receipt that is not there. */
  lemma ReceiptNotReturned(orderedRoot: OrderedRoot, txHash: Bytes, answers: ReceiptAnswers, payloads: Payloads)
    ensures
      var r := ReceiptOutcome(orderedRoot, txHash, answers, payloads);
      var first := answers.first;
      var numbered := first.Success? && first.value.Some? && first.value.value.blockNumber.Some?;
      var known := numbered && first.value.value.blockNumber.value in payloads;
      && (r == Success(None) <==> first == Success(None) || (numbered && !known))
      && (r == Failure(RpcError) <==> first.Failure? || (known && None in answers.others))
      && (r == Failure(ReceiptAborted) <==>
            || (first.Success? && first.value.Some? && !numbered)
            || (known && None !in answers.others
                && exists o :: o in answers.others && !Complete(o.value)))
      && (r.Success? || r.error in {RpcError, ReceiptAborted, ReceiptRootMismatch(txHash)})
  {
    var others := answers.others;
    assert AllAnswered(others) <==> None !in others;
    if AllAnswered(others) {
      assert forall i :: 0 <= i < |others| ==> Answered(others)[i] == others[i].value && others[i] in others;
    }
  }

  /** Which blocks' logs are asked for. */
  datatype Filter = Filter(fromBlock: Option<nat>, toBlock: Option<nat>, blockHash: Option<Bytes>)

  /** Logs of blocks not seen yet are not asked for: without an end and without a
      block hash, the filter ends at the newest known block. When no block is known
      that aborts the request. */
  function Narrowed(filter: Filter, payloads: Payloads): Option<Filter> {
    if filter.toBlock.Some? || filter.blockHash.Some? then Some(filter)
    else if payloads.Keys == {} then None
    else
      var newest := MaxKey(payloads.Keys);
      Some(Filter(if filter.fromBlock.Some? then filter.fromBlock else Some(newest), Some(newest), None))
  }

  /** A filter with an end or a block hash is asked for as it is. Any other ends at
      the newest known block, and starts there unless it has a start. */
  lemma NarrowedExact(filter: Filter, payloads: Payloads)
    ensures
      var r := Narrowed(filter, payloads);
      if filter.toBlock.Some? || filter.blockHash.Some? then r == Some(filter)
      else
        && (r.None? <==> forall n :: n !in payloads)
        && (r.Some? ==>
              && r.value.blockHash.None? && r.value.toBlock.Some? && r.value.toBlock.value in payloads
              && (forall n :: n in payloads ==> n <= r.value.toBlock.value)
              && r.value.fromBlock == if filter.fromBlock.Some? then filter.fromBlock else r.value.toBlock)
  {
    assert payloads.Keys == {} <==> forall n :: n !in payloads;
  }

  /** What the answers behind one log come to: None when they prove it. */
  function LogFailure(orderedRoot: OrderedRoot, answers: ReceiptAnswers, payloads: Payloads, log: Log)
    : Option<ReceiptError>
  {
    if log.transactionHash.None? then Some(MissingTransactionHash)
    else
      var txHash := log.transactionHash.value;
      match ReceiptOutcome(orderedRoot, txHash, answers, payloads)
      case Failure(e) => Some(e)
      case Success(None) => Some(NoReceiptForTransaction(txHash))
      case Success(Some(receipt)) =>
        if exists k :: 0 <= k < |receipt.logs| && Encode(LogItem(receipt.logs[k])) == Encode(LogItem(log)) then None
        else Some(if log.logIndex.None? then ReceiptAborted else MissingLog(txHash, log.logIndex.value))
  }

  method CheckLog(orderedRoot: OrderedRoot, answers: ReceiptAnswers, payloads: Payloads, log: Log)
    returns (failure: Option<ReceiptError>)
    requires Shaped(answers, payloads)
    ensures failure == LogFailure(orderedRoot, answers, payloads, log)
  {
    if log.transactionHash.None? {
      return Some(MissingTransactionHash);
    }
    var txHash := log.transactionHash.value;
    var proved := GetTransactionReceipt(orderedRoot, txHash, answers, payloads);
    if proved.Failure? {
      return Some(proved.error);
    }
    if proved.value.None? {
      return Some(NoReceiptForTransaction(txHash));
    }
    var receipt := proved.value.value;
    var encodings := seq(|receipt.logs|, k requires 0 <= k < |receipt.logs| => Encode(LogItem(receipt.logs[k])));
    assert forall k :: 0 <= k < |receipt.logs| ==> encodings[k] == Encode(LogItem(receipt.logs[k]));
    if Encode(LogItem(log)) !in encodings {
      return Some(if log.logIndex.None? then ReceiptAborted else MissingLog(txHash, log.logIndex.value));
    }
    return None;
  }

  /** The server's answers behind every log of a list, by position. */
  type LogAnswers = nat -> ReceiptAnswers

  /** The outcome for every log of a list. */
  function LogFailures(orderedRoot: OrderedRoot, answers: LogAnswers, payloads: Payloads, logs: seq<Log>)
    : (failures: seq<Option<ReceiptError>>)
    ensures |failures| == |logs|
  {
    seq(|logs|, i requires 0 <= i < |logs| => LogFailure(orderedRoot, answers(i), payloads, logs[i]))
  }

  /** The first failure from a position on. */
  function FirstFailure(failures: seq<Option<ReceiptError>>, from: nat): Option<ReceiptError>
    decreases |failures| - from
  {
    if from >= |failures| then None
    else if failures[from].Some? then failures[from]
    else FirstFailure(failures, from + 1)
  }

  lemma {:induction false} NoFailure(failures: seq<Option<ReceiptError>>, from: nat)
    ensures FirstFailure(failures, from) == None <==> forall i :: from <= i < |failures| ==> failures[i] == None
    ensures FirstFailure(failures, from).Some? ==>
              exists i :: from <= i < |failures| && failures[i] == FirstFailure(failures, from)
                          && forall j :: from <= j < i ==> failures[j] == None
    decreases |failures| - from
  {
    if from < |failures| {
      NoFailure(failures, from + 1);
    }
  }

  /** The logs of the server, returned only when each is in a proved receipt. */
  method GetLogs(orderedRoot: OrderedRoot, filter: Filter, rpc: Filter -> Option<seq<Log>>, answers: LogAnswers,
                 payloads: Payloads)
    returns (r: Result<seq<Log>, ReceiptError>)
    requires forall i :: Shaped(answers(i), payloads)
    ensures
      match Narrowed(filter, payloads)
      case None => r == Failure(ReceiptAborted)
      case Some(narrowed) =>
        match rpc(narrowed)
        case None => r == Failure(RpcError)
        case Some(logs) =>
          if |logs| > 5 then r == Failure(TooManyLogsToProve(|logs|, 5))
          else
            match FirstFailure(LogFailures(orderedRoot, answers, payloads, logs), 0)
            case Some(e) => r == Failure(e)
            case None => r == Success(logs)
  {
    var narrowed := filter;
    if filter.toBlock.None? && filter.blockHash.None? {
      if payloads.Keys == {} {
        return Failure(ReceiptAborted);
      }
      var block := MaxKey(payloads.Keys);
      narrowed := narrowed.(toBlock := Some(block));
      if narrowed.fromBlock.None? {
        narrowed := narrowed.(fromBlock := Some(block));
      }
    }
    var fetched := rpc(narrowed);
    if fetched.None? {
      return Failure(RpcError);
    }
    var logs := fetched.value;
    if |logs| > MAX_SUPPORTED_LOGS_NUMBER {
      return Failure(TooManyLogsToProve(|logs|, MAX_SUPPORTED_LOGS_NUMBER));
    }
    ghost var failures := LogFailures(orderedRoot, answers, payloads, logs);
    for i := 0 to |logs|
      invariant FirstFailure(failures, 0) == FirstFailure(failures, i)
    {
      assert failures[i] == LogFailure(orderedRoot, answers(i), payloads, logs[i]);
      var failure := CheckLog(orderedRoot, answers(i), payloads, logs[i]);
      if failure.Some? {
        return Failure(failure.value);
      }
    }
    return Success(logs);
  }

  /** A log is one of those that the answers prove a receipt to have. */
  predicate ProvesLog(orderedRoot: OrderedRoot, answers: ReceiptAnswers, payloads: Payloads, log: Log) {
    var payload := NamedPayload(answers, payloads);
    && payload.Some?
    && var receipt := answers.first.value.value;
       && Proves(orderedRoot, answers, payload.value, receipt)
       && exists k :: 0 <= k < |receipt.logs| && Encode(LogItem(receipt.logs[k])) == Encode(LogItem(log))
  }

  lemma LogProved(orderedRoot: OrderedRoot, answers: ReceiptAnswers, payloads: Payloads, log: Log)
    ensures LogFailure(orderedRoot, answers, payloads, log) == None
       <==> log.transactionHash.Some? && ProvesLog(orderedRoot, answers, payloads, log)
  {
  }

  /** Otherwise: why not, in the order of the checks. */
  lemma LogReported(orderedRoot: OrderedRoot, answers: ReceiptAnswers, payloads: Payloads, log: Log)
    requires !(log.transactionHash.Some? && ProvesLog(orderedRoot, answers, payloads, log))
    ensures
      var r := LogFailure(orderedRoot, answers, payloads, log);
      if log.transactionHash.None? then r == Some(MissingTransactionHash)
      else
        var hash := log.transactionHash.value;
        match ReceiptOutcome(orderedRoot, hash, answers, payloads)
        case Failure(e) => r == Some(e)
        case Success(None) => r == Some(NoReceiptForTransaction(hash))
        case Success(Some(_)) =>
          r == Some(if log.logIndex.Some? then MissingLog(hash, log.logIndex.value) else ReceiptAborted)
  {
  }

  /** Logs are returned exactly when every one of them names a transaction and is
      in a proved receipt. */
  lemma LogsReturned(orderedRoot: OrderedRoot, answers: LogAnswers, payloads: Payloads, logs: seq<Log>)
    ensures FirstFailure(LogFailures(orderedRoot, answers, payloads, logs), 0) == None
       <==> forall i :: 0 <= i < |logs| ==>
              logs[i].transactionHash.Some? && ProvesLog(orderedRoot, answers(i), payloads, logs[i])
  {
    var failures := LogFailures(orderedRoot, answers, payloads, logs);
    NoFailure(failures, 0);
    forall i | 0 <= i < |logs|
      ensures failures[i] == None
         <==> logs[i].transactionHash.Some? && ProvesLog(orderedRoot, answers(i), payloads, logs[i])
    {
      LogProved(orderedRoot, answers(i), payloads, logs[i]);
    }
  }

  /*** What is proved ***/

  /** The block's own receipts: their encodings hash to the payload's receipts
      root. */
  ghost predicate ReceiptsOf(orderedRoot: OrderedRoot, payload: ExecutionPayload, own: seq<Receipt>) {
    && (forall i :: 0 <= i < |own| ==> Proper(own[i]))
    && orderedRoot(EncodeReceipts(own)) == payload.receiptsRoot
  }

  /** The assumptions on the answers: their root does not collide with that of the
      block's own receipts, and what they hold is short enough for RLP. */
  ghost predicate SoundReceipts(orderedRoot: OrderedRoot, answers: ReceiptAnswers, own: seq<Receipt>)
    requires AllComplete(own)
  {
    && (AllAnswered(answers.others) && AllComplete(Answered(answers.others)) ==>
          var fetched := EncodeReceipts(Answered(answers.others));
          orderedRoot(fetched) == orderedRoot(EncodeReceipts(own)) ==> fetched == EncodeReceipts(own))
    && forall i :: 0 <= i < |answers.others| && answers.others[i].Some? && Complete(answers.others[i].value) ==>
         Proper(answers.others[i].value)
  }

  /** A receipt that has an encoding. */
  predicate Proper(r: Receipt) {
    Complete(r) && Encodable(BodyItem(r))
  }

  /** A proved receipt is, in all that its block's receipts root commits to, one of
      the block's own receipts. */
  lemma ReceiptSound(orderedRoot: OrderedRoot, answers: ReceiptAnswers, payload: ExecutionPayload,
                     receipt: Receipt, own: seq<Receipt>) returns (i: nat)
    requires Proves(orderedRoot, answers, payload, receipt)
    requires ReceiptsOf(orderedRoot, payload, own) && SoundReceipts(orderedRoot, answers, own)
    ensures i < |own| && Complete(receipt) && SameReceipt(receipt, own[i])
  {
    var receipts := Answered(answers.others);
    i :| 0 <= i < |receipts| && receipts[i] == receipt;
    assert EncodeReceipts(receipts) == EncodeReceipts(own);
    assert |receipts| == |EncodeReceipts(receipts)| == |own|;
    assert EncodeReceipts(receipts)[i] == EncodeReceipt(receipt) && EncodeReceipts(own)[i] == EncodeReceipt(own[i]);
    assert answers.others[i] == Some(receipt);
    EncodeReceiptExact(receipt, own[i]);
  }

  function HonestReceipts(own: seq<Receipt>, i: nat): (answers: ReceiptAnswers)
    requires i < |own|
    ensures AllAnswered(answers.others) && Answered(answers.others) == own
  {
    ReceiptAnswers(Success(Some(own[i])), seq(|own|, j requires 0 <= j < |own| => Some(own[j])))
  }

  /** Every receipt of a block is accepted, and for every hash that is asked for:
      nothing ties the receipt to the requested transaction. */
  lemma AcceptedForAnyHash(orderedRoot: OrderedRoot, payloads: Payloads, n: nat, own: seq<Receipt>, i: nat,
                           txHash: Bytes)
    requires n in payloads && AllComplete(own) && orderedRoot(EncodeReceipts(own)) == payloads[n].receiptsRoot
    requires i < |own| && own[i].blockNumber == Some(n)
    ensures ReceiptOutcome(orderedRoot, txHash, HonestReceipts(own, i), payloads) == Success(Some(own[i]))
  {
    assert own[i] in Answered(HonestReceipts(own, i).others);
  }

  /** A proved receipt is that of the j-th transaction of the block, in all that
      consensus commits to, if and only if it encodes like the j-th answer; the client
      does not compare the two for the transaction that was requested. */
  lemma RequestedExact(orderedRoot: OrderedRoot, answers: ReceiptAnswers, payload: ExecutionPayload,
                       receipt: Receipt, own: seq<Receipt>, j: nat)
    requires Proves(orderedRoot, answers, payload, receipt) && j < |own|
    requires ReceiptsOf(orderedRoot, payload, own) && SoundReceipts(orderedRoot, answers, own)
    ensures j < |answers.others| && Complete(receipt)
    ensures SameReceipt(receipt, own[j])
       <==> EncodeReceipt(receipt) == EncodeReceipt(Answered(answers.others)[j])
  {
    var receipts := Answered(answers.others);
    var i := ReceiptSound(orderedRoot, answers, payload, receipt, own);
    assert |receipts| == |EncodeReceipts(receipts)| == |EncodeReceipts(own)| == |own|;
    assert EncodeReceipt(receipts[j]) == EncodeReceipts(receipts)[j] == EncodeReceipts(own)[j];
    var k :| 0 <= k < |answers.others| && answers.others[k] == Some(receipt);
    EncodeReceiptExact(receipt, own[j]);
  }

  /** So is every receipt that the client returns. */
  lemma ReturnedSound(orderedRoot: OrderedRoot, txHash: Bytes, answers: ReceiptAnswers, payloads: Payloads,
                      receipt: Receipt, own: seq<Receipt>)
    returns (i: nat)
    requires ReceiptOutcome(orderedRoot, txHash, answers, payloads) == Success(Some(receipt))
    requires receipt.blockNumber.Some? && receipt.blockNumber.value in payloads ==>
               ReceiptsOf(orderedRoot, payloads[receipt.blockNumber.value], own)
    requires AllComplete(own) && SoundReceipts(orderedRoot, answers, own)
    ensures receipt.blockNumber.Some? && receipt.blockNumber.value in payloads
    ensures i < |own| && Complete(receipt) && SameReceipt(receipt, own[i])
  {
    ReceiptReturned(orderedRoot, txHash, answers, payloads, receipt);
    i := ReceiptSound(orderedRoot, answers, payloads[receipt.blockNumber.value], receipt, own);
  }

  lemma {:induction false} ItemEncodable(items: seq<Item>, i: nat)
    requires AllEncodable(items) && i < |items|
    ensures Encodable(items[i])
  {
    if i > 0 {
      ItemEncodable(items[1..], i - 1);
    }
  }

  lemma LogEncodable(r: Receipt, k: nat)
    requires Complete(r) && Encodable(BodyItem(r)) && k < |r.logs|
    ensures Encodable(LogItem(r.logs[k]))
  {
    ItemEncodable(BodyItem(r).items, 3);
    ItemEncodable(LogItems(r.logs), k);
  }

  /** A log that the client returns is, relative to the payload it holds for the
      block, a log of the block: one of the receipts that the payload's receipts
      root commits to has a log of the same address, topics and data. */
  lemma LogSound(orderedRoot: OrderedRoot, answers: ReceiptAnswers, payloads: Payloads, log: Log, own: seq<Receipt>)
    returns (i: nat, k: nat)
    requires ProvesLog(orderedRoot, answers, payloads, log) && Encodable(LogItem(log))
    requires ReceiptsOf(orderedRoot, NamedPayload(answers, payloads).value, own)
    requires SoundReceipts(orderedRoot, answers, own)
    ensures i < |own| && k < |own[i].logs| && SameLog(log, own[i].logs[k])
  {
    var receipt := answers.first.value.value;
    k :| 0 <= k < |receipt.logs| && Encode(LogItem(receipt.logs[k])) == Encode(LogItem(log));
    i := ReceiptSound(orderedRoot, answers, NamedPayload(answers, payloads).value, receipt, own);
    var j :| 0 <= j < |answers.others| && answers.others[j].value == receipt;
    LogEncodable(receipt, k);
    EncodeInjective(LogItem(receipt.logs[k]), LogItem(log));
    LogItemExact(receipt.logs[k], log);
  }
}
