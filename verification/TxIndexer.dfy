/**
 EVMTxIndexer.IndexBlock (eth/indexer/evm_tx_indexer.go): from a block and its results to the
 records saved for its eth messages.
 */
module TxIndexer {
  import opened Bytes
  import opened IndexKeys
  import opened TxResultCodec
  import opened EventsParser
  import opened IndexStore

  /** A tx of a block as the decoder sees it; `options` is None for a tx that has no extension options. */
  datatype Tx = Undecodable | DecodedTx(options: Option<seq<string>>, msgs: seq<Msg>)

  datatype DeliverTx = DeliverTx(code: uint32, log: string, events: seq<Event>)

  datatype Block = Block(height: int64, txs: seq<Tx>)

  const ETH_TX_OPTION := "/eth.evm.v1.ExtensionOptionsEthereumTx"
  const ERR_EXCEED_BLOCK_GAS_LIMIT := "out of gas in location: block gas meter; gasWanted:"
  const ERR_STATE_DB_COMMIT := "failed to commit stateDB"

  predicate IsEthTx(tx: Tx) {
    tx.DecodedTx? && tx.options == Some([ETH_TX_OPTION])
  }

  predicate Contains(s: string, sub: string) {
    exists k :: 0 <= k <= |s| - |sub| && s[k..][..|sub|] == sub
  }

  predicate TxIsValidEnough(res: DeliverTx) {
    res.code == 0 || Contains(res.log, ERR_EXCEED_BLOCK_GAS_LIMIT) || Contains(res.log, ERR_STATE_DB_COMMIT)
  }

  // ----- the records of a block -----

  /** The gas and outcome recorded for message `k`, None when a successful tx has no event for it. */
  function Charge(code: uint32, p: ParsedTxs, msg: Msg, k: nat): Option<(uint64, bool)>
    requires msg.EthMsg?
  {
    if code != 0 then Some((msg.gas, true))
    else if k < |p.txs| then Some((p.txs[k].gasUsed, p.txs[k].failed))
    else None
  }

  function AddGas(cumulative: uint64, gas: uint64): uint64 { (cumulative + gas) % TWO_64 }

  function ResultOf(height: int64, txIndex: nat, k: nat, ethTxIndex: int32, failed: bool, gas: uint64,
                    total: uint64): TxResult {
    TxResult(height, ToUint32(txIndex), ToUint32(k), ethTxIndex, failed, gas, total)
  }

  /** The loop over the messages of one tx, from message `k` on; None is the panic on a message of another type. */
  function SaveMsgs(height: int64, txIndex: nat, msgs: seq<Msg>, code: uint32, p: ParsedTxs, k: nat,
                    saved: seq<Saved>, cumulative: uint64)
    : Option<seq<Saved>>
    requires k <= |msgs|
    decreases |msgs| - k
  {
    if k == |msgs| then Some(saved)
    else if msgs[k].OtherMsg? then None
    else
      match Charge(code, p, msgs[k], k)
      case None => SaveMsgs(height, txIndex, msgs, code, p, k + 1, saved, cumulative)
      case Some((gas, failed)) =>
        var total := AddGas(cumulative, gas);
        var record := Saved(msgs[k].hash, ResultOf(height, txIndex, k, ToInt32(|saved|), failed, gas, total));
        SaveMsgs(height, txIndex, msgs, code, p, k + 1, saved + [record], total)
  }

  /** What one tx of a block adds to the records. */
  function SaveTx(height: int64, txIndex: nat, tx: Tx, res: DeliverTx, saved: seq<Saved>): Option<seq<Saved>> {
    if !TxIsValidEnough(res) || !IsEthTx(tx) then Some(saved)
    else
      match Parse(res.code, res.events, Some(tx.msgs))
      case ParseFailed => Some(saved)
      case ParsePanicked => None
      case Parsed(p) => SaveMsgs(height, txIndex, tx.msgs, res.code, p, 0, saved, 0)
  }

  /** The loop over the txs of a block, from tx `t` on; a missing result panics. */
  function SaveTxs(block: Block, results: seq<DeliverTx>, t: nat, saved: seq<Saved>): Option<seq<Saved>>
    requires t <= |block.txs|
    decreases |block.txs| - t
  {
    if t == |block.txs| then Some(saved)
    else if t >= |results| then None
    else
      match SaveTx(block.height, t, block.txs[t], results[t], saved)
      case None => None
      case Some(saved') => SaveTxs(block, results, t + 1, saved')
  }

  /** All records of a block, None if indexing it panics. */
  function Records(block: Block, results: seq<DeliverTx>): Option<seq<Saved>> {
    SaveTxs(block, results, 0, [])
  }

  // ----- the indexer -----

  /** Where the store can fail: at one of the batch's Set calls, counted from 0, or at the final write. */
  datatype Fault = NoFault | SetFails(at: nat) | WriteFails

  datatype Outcome = Indexed | IndexFailed | IndexPanicked

  /** The fault strikes one of the first `sets` Set calls. */
  predicate StrikesSet(fault: Fault, sets: nat) { fault.SetFails? && fault.at < sets }

  lemma {:induction false} SavedGrows(height: int64, txIndex: nat, msgs: seq<Msg>, code: uint32, p: ParsedTxs,
                                      k: nat, saved: seq<Saved>, cumulative: uint64)
    requires k <= |msgs|
    ensures var r := SaveMsgs(height, txIndex, msgs, code, p, k, saved, cumulative); r.Some? ==> saved <= r.value
    decreases |msgs| - k
  {
    hide Charge, AddGas, ResultOf;
    if k < |msgs| && msgs[k].EthMsg? {
      match Charge(code, p, msgs[k], k)
      case None => SavedGrows(height, txIndex, msgs, code, p, k + 1, saved, cumulative);
      case Some((gas, failed)) =>
        var total := AddGas(cumulative, gas);
        var result := ResultOf(height, txIndex, k, ToInt32(|saved|), failed, gas, total);
        SavedGrows(height, txIndex, msgs, code, p, k + 1, saved + [Saved(msgs[k].hash, result)], total);
    }
  }

  lemma {:induction false} TxsSavedGrow(block: Block, results: seq<DeliverTx>, t: nat, saved: seq<Saved>)
    requires t <= |block.txs|
    ensures var r := SaveTxs(block, results, t, saved); r.Some? ==> saved <= r.value
    decreases |block.txs| - t
  {
    if t < |block.txs| && t < |results| {
      var r := SaveTx(block.height, t, block.txs[t], results[t], saved);
      TxSavedGrows(block.height, t, block.txs[t], results[t], saved);
      if r.Some? {
        TxsSavedGrow(block, results, t + 1, r.value);
      }
    }
  }

  lemma TxSavedGrows(height: int64, t: nat, tx: Tx, res: DeliverTx, saved: seq<Saved>)
    ensures var r := SaveTx(height, t, tx, res, saved); r.Some? ==> saved <= r.value
  {
    hide Parse, SaveMsgs, IsEthTx, TxIsValidEnough;
    EthTxDecoded(tx);
    if tx.DecodedTx? && Parse(res.code, res.events, Some(tx.msgs)).Parsed? {
      SavedGrows(height, t, tx.msgs, res.code, Parse(res.code, res.events, Some(tx.msgs)).p, 0, saved, 0);
    }
  }

  lemma {:induction false} BatchLength(saved: seq<Saved>)
    ensures |Batch(saved)| == 2 * |saved|
  {
    if saved != [] {
      BatchLength(saved[..|saved| - 1]);
    }
  }

  lemma NextIndex(n: int)
    ensures ToInt32(ToInt32(n) + 1) == ToInt32(n + 1)
  {
  }

  /** saveTxResult: queues the two writes of a record; false when the batch refuses one. */
  method SaveTxResult(batch: seq<Write>, hash: Hash, result: TxResult, fault: Fault) returns (batch': seq<Write>, ok: bool)
    ensures ok ==> batch' == batch + WritesOf(Saved(hash, result))
    ensures !ok ==> fault.SetFails? && fault.at < |batch| + 2
    ensures ok && !StrikesSet(fault, |batch|) ==> !StrikesSet(fault, |batch'|)
  {
    var message := new Message.Of(result);
    var bz := message.Marshal();
    batch' := batch;
    if fault == SetFails(|batch'|) { return batch', false; }
    batch' := batch' + [Write(TxHashKey(hash), bz[..])];
    if fault == SetFails(|batch'|) { return batch', false; }
    batch' := batch' + [Write(TxIndexKey(result.height, result.ethTxIndex), hash)];
    ok := true;
  }

  /** The state the loops carry: the batch holds the records, and the index counts them. */
  ghost predicate Carries(batch: seq<Write>, ethTxIndex: int32, saved: seq<Saved>, fault: Fault) {
    batch == Batch(saved) && ethTxIndex == ToInt32(|saved|) && !StrikesSet(fault, |batch|)
  }

  lemma CarryOn(batch: seq<Write>, ethTxIndex: int32, saved: seq<Saved>, fault: Fault, s: Saved)
    requires Carries(batch, ethTxIndex, saved, fault) && !StrikesSet(fault, |batch + WritesOf(s)|)
    ensures Carries(batch + WritesOf(s), ToInt32(ethTxIndex + 1), saved + [s], fault)
  {
    hide WritesOf;
    NextIndex(|saved|);
    assert (saved + [s])[..|saved|] == saved;
  }

  /** What a loop leaves behind that is to end with the records `end`, or to panic if that is None. */
  ghost predicate LeftBy(end: Option<seq<Saved>>, batch: seq<Write>, ethTxIndex: int32, fault: Fault, outcome: Outcome) {
    match outcome
    case Indexed => end.Some? && Carries(batch, ethTxIndex, end.value, fault)
    case IndexPanicked => end == None
    case IndexFailed => end.Some? ==> StrikesSet(fault, 2 * |end.value|)
  }

  /** The loop over the messages of one tx. */
  method IndexMsgs(height: int64, txIndex: nat, msgs: seq<Msg>, code: uint32, p: ParsedTxs,
                   batch: seq<Write>, ethTxIndex: int32, ghost saved: seq<Saved>, fault: Fault)
    returns (batch': seq<Write>, ethTxIndex': int32, outcome: Outcome)
    requires Carries(batch, ethTxIndex, saved, fault)
    ensures LeftBy(SaveMsgs(height, txIndex, msgs, code, p, 0, saved, 0), batch', ethTxIndex', fault, outcome)
  {
    hide Carries, ToInt32, AddGas, ResultOf, SaveMsgs, WritesOf;
    batch', ethTxIndex' := batch, ethTxIndex;
    ghost var saved' := saved;
    ghost var end := SaveMsgs(height, txIndex, msgs, code, p, 0, saved, 0);
    var cumulativeGasUsed: uint64 := 0;
    for k := 0 to |msgs|
      invariant Carries(batch', ethTxIndex', saved', fault)
      invariant end == SaveMsgs(height, txIndex, msgs, code, p, k, saved', cumulativeGasUsed)
    {
      SaveMsgsStep(height, txIndex, msgs, code, p, k, saved', cumulativeGasUsed);
      if msgs[k].OtherMsg? { return batch', ethTxIndex', IndexPanicked; }
      var gasUsed, failed := msgs[k].gas, true;
      if code == 0 {
        var parsedTx := GetTxByMsgIndex(p, k);
        if parsedTx == None { continue; }
        gasUsed, failed := parsedTx.value.gasUsed, parsedTx.value.failed;
      }
      cumulativeGasUsed := AddGas(cumulativeGasUsed, gasUsed);
      var txResult := ResultOf(height, txIndex, k, ethTxIndex', failed, gasUsed, cumulativeGasUsed);
      ghost var s := Saved(msgs[k].hash, txResult);
      CarriedIndex(batch', ethTxIndex', saved', fault);
      SavedGrows(height, txIndex, msgs, code, p, k + 1, saved' + [s], cumulativeGasUsed);
      var queued, ok := SaveTxResult(batch', msgs[k].hash, txResult, fault);
      if !ok { return batch', ethTxIndex', IndexFailed; }
      CarryOn(batch', ethTxIndex', saved', fault, s);
      batch', ethTxIndex', saved' := queued, ToInt32(ethTxIndex' + 1), saved' + [s];
    }
    SaveMsgsStep(height, txIndex, msgs, code, p, |msgs|, saved', cumulativeGasUsed);
    outcome := Indexed;
  }

  /** One round of the loop over the messages. */
  lemma SaveMsgsStep(height: int64, txIndex: nat, msgs: seq<Msg>, code: uint32, p: ParsedTxs, k: nat,
                     saved: seq<Saved>, cumulative: uint64)
    requires k <= |msgs|
    ensures SaveMsgs(height, txIndex, msgs, code, p, k, saved, cumulative) ==
            if k == |msgs| then Some(saved)
            else if msgs[k].OtherMsg? then None
            else if code == 0 && k >= |p.txs| then SaveMsgs(height, txIndex, msgs, code, p, k + 1, saved, cumulative)
            else
              var gas, failed := if code == 0 then p.txs[k].gasUsed else msgs[k].gas, code != 0 || p.txs[k].failed;
              var total := AddGas(cumulative, gas);
              var result := ResultOf(height, txIndex, k, ToInt32(|saved|), failed, gas, total);
              SaveMsgs(height, txIndex, msgs, code, p, k + 1, saved + [Saved(msgs[k].hash, result)], total)
  {
    hide AddGas, ResultOf, ToInt32;
  }

  /** One tx of the block: skipped, or its messages indexed. */
  method IndexTx(height: int64, txIndex: nat, tx: Tx, result: DeliverTx,
                 batch: seq<Write>, ethTxIndex: int32, ghost saved: seq<Saved>, fault: Fault)
    returns (batch': seq<Write>, ethTxIndex': int32, outcome: Outcome)
    requires Carries(batch, ethTxIndex, saved, fault)
    ensures LeftBy(SaveTx(height, txIndex, tx, result, saved), batch', ethTxIndex', fault, outcome)
  {
    hide Carries, TxIsValidEnough, IsEthTx, Parse, SaveMsgs;
    batch', ethTxIndex', outcome := batch, ethTxIndex, Indexed;
    if !TxIsValidEnough(result) { return; }
    if !IsEthTx(tx) { return; }
    EthTxDecoded(tx);
    var parsed := ParseTxResult(result.code, result.events, Some(tx.msgs));
    match parsed
    case ParseFailed => return;
    case ParsePanicked => outcome := IndexPanicked;
    case Parsed(p) =>
      batch', ethTxIndex', outcome :=
        IndexMsgs(height, txIndex, tx.msgs, result.code, p, batch, ethTxIndex, saved, fault);
  }

  lemma EthTxDecoded(tx: Tx)
    ensures IsEthTx(tx) ==> tx.DecodedTx?
  {
  }

  lemma NothingCarried(fault: Fault)
    ensures Carries([], 0, [], fault)
  {
  }

  lemma CarriedIndex(batch: seq<Write>, ethTxIndex: int32, saved: seq<Saved>, fault: Fault)
    requires Carries(batch, ethTxIndex, saved, fault)
    ensures batch == Batch(saved) && ethTxIndex == ToInt32(|saved|)
    ensures |batch| == 2 * |saved| && !StrikesSet(fault, |batch|)
  {
    BatchLength(saved);
  }

  // ----- records are numbered without gaps -----

  lemma NumberedNext(saved: seq<Saved>, height: int64, s: Saved)
    requires Numbered(saved, height)
    requires s.result.height == height && s.result.ethTxIndex == ToInt32(|saved|)
    ensures Numbered(saved + [s], height)
  {
    hide ToInt32;
  }

  lemma {:induction false} MsgsNumbered(height: int64, txIndex: nat, msgs: seq<Msg>, code: uint32, p: ParsedTxs,
                                        k: nat, saved: seq<Saved>, cumulative: uint64)
    requires k <= |msgs| && Numbered(saved, height)
    requires SaveMsgs(height, txIndex, msgs, code, p, k, saved, cumulative).Some?
    ensures Numbered(SaveMsgs(height, txIndex, msgs, code, p, k, saved, cumulative).value, height)
    decreases |msgs| - k
  {
    hide Charge, AddGas, Numbered;
    if k < |msgs| {
      match Charge(code, p, msgs[k], k)
      case None => MsgsNumbered(height, txIndex, msgs, code, p, k + 1, saved, cumulative);
      case Some((gas, failed)) =>
        var total := AddGas(cumulative, gas);
        var s := Saved(msgs[k].hash, ResultOf(height, txIndex, k, ToInt32(|saved|), failed, gas, total));
        NumberedNext(saved, height, s);
        MsgsNumbered(height, txIndex, msgs, code, p, k + 1, saved + [s], total);
    }
  }

  lemma {:induction false} TxsNumbered(block: Block, results: seq<DeliverTx>, t: nat, saved: seq<Saved>)
    requires t <= |block.txs| && Numbered(saved, block.height)
    requires SaveTxs(block, results, t, saved).Some?
    ensures Numbered(SaveTxs(block, results, t, saved).value, block.height)
    decreases |block.txs| - t
  {
    hide Parse, SaveMsgs, Numbered, TxIsValidEnough;
    if t < |block.txs| {
      var tx, res := block.txs[t], results[t];
      if TxIsValidEnough(res) && IsEthTx(tx) {
        var parsed := Parse(res.code, res.events, Some(tx.msgs));
        if parsed.Parsed? {
          MsgsNumbered(block.height, t, tx.msgs, res.code, parsed.p, 0, saved, 0);
        }
      }
      TxsNumbered(block, results, t + 1, SaveTx(block.height, t, tx, res, saved).value);
    }
  }

  /** The records of a block carry its height and the indices 0, 1, 2, ... in order. */
  lemma RecordsNumbered(block: Block, results: seq<DeliverTx>)
    requires Records(block, results).Some?
    ensures Numbered(Records(block, results).value, block.height)
  {
    TxsNumbered(block, results, 0, []);
  }

  // ----- the index agrees with the event path -----

  /**
   The record at `base + j` is the one of message `j` of tx `txIndex`, and says of gas and outcome
   what slot `j` says.
   */
  predicate Agrees(saved: seq<Saved>, base: nat, height: int64, txIndex: nat, msgs: seq<Msg>, p: ParsedTxs, j: nat) {
    && j < |msgs| && msgs[j].EthMsg? && base + j < |saved|
    && var s := saved[base + j];
    && s.hash == msgs[j].hash && s.result.height == height
    && s.result.txIndex == ToUint32(txIndex) && s.result.msgIndex == ToUint32(j)
    && (j < |p.txs| ==>
          && s.result.gasUsed == p.txs[j].gasUsed
          && s.result.failed == p.txs[j].failed
          && s.result.cumulativeGasUsed == Accumulated(p, j))
  }

  /** How many messages of a tx get a record. */
  function Recorded(code: uint32, msgs: seq<Msg>, p: ParsedTxs): nat {
    if code == 0 && |p.txs| < |msgs| then |p.txs| else |msgs|
  }

  /** When the tx failed, every slot is charged the gas limit of its message. */
  ghost predicate ChargedIfFailed(code: uint32, msgs: seq<Msg>, p: ParsedTxs) {
    code != 0 ==> forall j :: 0 <= j < |p.txs| ==> Charged(p.txs, p.txs, msgs, j)
  }

  lemma AddToSum(txs: seq<ParsedTx>, k: nat)
    requires k < |txs|
    ensures AddGas(GasSum(txs, k) % TWO_64, txs[k].gasUsed) == GasSum(txs, k + 1) % TWO_64
  {
  }

  lemma {:induction false} MsgsAgree(height: int64, txIndex: nat, msgs: seq<Msg>, code: uint32, p: ParsedTxs,
                                     k: nat, base: nat, saved: seq<Saved>, cumulative: uint64)
    requires k <= |msgs| && ChargedIfFailed(code, msgs, p)
    requires |saved| == base + if k <= Recorded(code, msgs, p) then k else Recorded(code, msgs, p)
    requires k <= |p.txs| ==> cumulative == GasSum(p.txs, k) % TWO_64
    requires SaveMsgs(height, txIndex, msgs, code, p, k, saved, cumulative).Some?
    ensures var saved' := SaveMsgs(height, txIndex, msgs, code, p, k, saved, cumulative).value;
            && saved <= saved' && |saved'| == base + Recorded(code, msgs, p)
            && forall j :: k <= j < Recorded(code, msgs, p) ==> Agrees(saved', base, height, txIndex, msgs, p, j)
    decreases |msgs| - k
  {
    hide AddGas, GasSum, SaveMsgs, ToInt32, ToUint32;
    SaveMsgsStep(height, txIndex, msgs, code, p, k, saved, cumulative);
    if k == |msgs| {
    } else if code == 0 && k >= |p.txs| {
      MsgsAgree(height, txIndex, msgs, code, p, k + 1, base, saved, cumulative);
    } else {
      if code != 0 && k < |p.txs| {
        assert Charged(p.txs, p.txs, msgs, k);
      }
      var gas, failed := if code == 0 then p.txs[k].gasUsed else msgs[k].gas, code != 0 || p.txs[k].failed;
      var total := AddGas(cumulative, gas);
      var s := Saved(msgs[k].hash, ResultOf(height, txIndex, k, ToInt32(|saved|), failed, gas, total));
      if k < |p.txs| {
        AddToSum(p.txs, k);
      }
      MsgsAgree(height, txIndex, msgs, code, p, k + 1, base, saved + [s], total);
      var saved' := SaveMsgs(height, txIndex, msgs, code, p, k, saved, cumulative).value;
      assert saved'[base + k] == (saved + [s])[|saved|] == s;
      assert Agrees(saved', base, height, txIndex, msgs, p, k);
    }
  }

  /**
   For every eth tx that is indexed: the number of its records, and for each message with a parsed
   entry the gas, the outcome and the cumulative gas that the event path reports.
   */
  lemma IndexAgreesWithEvents(height: int64, txIndex: nat, tx: Tx, res: DeliverTx, saved: seq<Saved>)
    requires TxIsValidEnough(res) && IsEthTx(tx)
    requires Parse(res.code, res.events, Some(tx.msgs)).Parsed?
    requires SaveTx(height, txIndex, tx, res, saved).Some?
    ensures var p := Parse(res.code, res.events, Some(tx.msgs)).p;
            var saved' := SaveTx(height, txIndex, tx, res, saved).value;
            var n := Recorded(res.code, tx.msgs, p);
            && saved <= saved' && |saved'| == |saved| + n
            && forall j :: 0 <= j < n ==> Agrees(saved', |saved|, height, txIndex, tx.msgs, p, j)
  {
    hide ParseEvents, SaveMsgs, TxIsValidEnough, Agrees, ChargeGasLimits;
    var p := Parse(res.code, res.events, Some(tx.msgs)).p;
    if res.code != 0 {
      var before := ParseEvents(res.events).value;
      ChargedSlots(before, tx.msgs, 0);
      forall j | 0 <= j < |p.txs| ensures Charged(p.txs, p.txs, tx.msgs, j) {
        assert Charged(p.txs, before.txs, tx.msgs, j);
      }
    }
    assert GasSum(p.txs, 0) == 0;
    MsgsAgree(height, txIndex, tx.msgs, res.code, p, 0, |saved|, saved, 0);
  }

  class EVMTxIndexer {
    var db: Store

    constructor (db: Store)
      ensures this.db == db
    {
      this.db := db;
    }

    /** IndexBlock: writes all records of the block at once, or, on an error or a panic, nothing. */
    method IndexBlock(block: Block, results: seq<DeliverTx>, fault: Fault) returns (outcome: Outcome)
      modifies this
      ensures outcome == Indexed <==>
              && Records(block, results).Some?
              && fault != WriteFails && !StrikesSet(fault, 2 * |Records(block, results).value|)
      ensures outcome == Indexed ==> db == WriteAll(old(db), Batch(Records(block, results).value))
      ensures outcome != Indexed ==> db == old(db)
    {
      hide SaveTx, Carries, Batch, WriteAll;
      var batch: seq<Write>, ethTxIndex: int32 := [], 0;
      ghost var saved: seq<Saved> := [];
      NothingCarried(fault);
      for txIndex := 0 to |block.txs|
        invariant Carries(batch, ethTxIndex, saved, fault)
        invariant Records(block, results) == SaveTxs(block, results, txIndex, saved)
        invariant db == old(db)
      {
        if txIndex >= |results| { return IndexPanicked; }
        ghost var end := SaveTx(block.height, txIndex, block.txs[txIndex], results[txIndex], saved);
        batch, ethTxIndex, outcome :=
          IndexTx(block.height, txIndex, block.txs[txIndex], results[txIndex], batch, ethTxIndex, saved, fault);
        if outcome != Indexed {
          if end.Some? {
            TxsSavedGrow(block, results, txIndex + 1, end.value);
          }
          return;
        }
        saved := end.value;
      }
      CarriedIndex(batch, ethTxIndex, saved, fault);
      if fault == WriteFails { return IndexFailed; }
      db := WriteAll(db, batch);
      return Indexed;
    }

    /** GetByTxHash */
    method LookUpHash(hash: Hash) returns (r: Lookup)
      requires forall key :: key in db ==> |db[key]| < TWO_63
      ensures r == GetByTxHash(db, hash)
    {
      hide DecodeFrom;
      var key := TxHashKey(hash);
      if key !in db || |db[key]| == 0 { return NotFound; }
      var txKey := new Message();
      var err := txKey.Unmarshal(db[key]);
      if err != None { return Corrupt(err.value); }
      return Found(txKey.View());
    }

    /** GetByBlockAndIndex */
    method LookUpIndex(blockNumber: int64, txIndex: int32) returns (r: Lookup)
      requires forall key :: key in db ==> |db[key]| < TWO_63
      ensures r == GetByBlockAndIndex(db, blockNumber, txIndex)
    {
      var key := TxIndexKey(blockNumber, txIndex);
      if key !in db || |db[key]| == 0 { return NotFound; }
      r := LookUpHash(BytesToHash(db[key]));
    }
  }

  /**
   After a block of at most 2^31 records is indexed, index k of its height leads to the k-th record, or to
   a later one of the block with the same hash; only a record that is all zeros, of a block of height 0,
   is not found.
   */
  lemma IndexedBlockLookups(db: Store, block: Block, results: seq<DeliverTx>, k: nat)
    requires Records(block, results).Some? && k < |Records(block, results).value| <= TWO_31
    ensures var saved := Records(block, results).value;
            var db' := WriteAll(db, Batch(saved));
            && saved[k].result.ethTxIndex == k
            && LastOf(saved, saved[k].hash).Some?
            && var r := saved[LastOf(saved, saved[k].hash).value].result;
            && GetByBlockAndIndex(db', block.height, k) == (if r == ZERO then NotFound else Found(r))
            && r.height == block.height
            && ((forall j :: 0 <= j < |saved| && j != k ==> saved[j].hash != saved[k].hash) ==> r == saved[k].result)
  {
    hide Records, WriteAll, Batch, GetByBlockAndIndex, GetByTxHash;
    var saved := Records(block, results).value;
    RecordsNumbered(block, results);
    LookupAfterWriting(db, saved, block.height, k);
    SmallIndex(k);
  }
}
