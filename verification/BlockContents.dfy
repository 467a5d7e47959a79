/**
 Which messages of a block get a record in the index (eth/indexer/evm_tx_indexer.go, eth/rpc/rpc.go), said
 without the loops: under what conditions, in what order, and with what contents.
 */
module BlockContents {
  import opened Bytes
  import opened EventsParser
  import opened IndexStore
  import opened TxIndexer

  /** `sub` stands somewhere in `s`. */
  predicate Occurs(sub: string, s: string) {
    exists k :: 0 <= k <= |s| && sub <= s[k..]
  }

  /** Tx `t` succeeded or failed for one of two reasons, and has the eth option and no other. */
  predicate Eligible(block: Block, results: seq<DeliverTx>, t: nat) {
    && t < |block.txs| && t < |results|
    && (results[t].code == 0
        || Occurs("out of gas in location: block gas meter; gasWanted:", results[t].log)
        || Occurs("failed to commit stateDB", results[t].log))
    && block.txs[t].DecodedTx? && block.txs[t].options == Some(["/eth.evm.v1.ExtensionOptionsEthereumTx"])
  }

  function ParseOf(block: Block, results: seq<DeliverTx>, t: nat): ParseOutcome
    requires Eligible(block, results, t)
  {
    Parse(results[t].code, results[t].events, Some(block.txs[t].msgs))
  }

  /** Message `msg` of tx `tx`. */
  datatype Spot = Spot(tx: nat, msg: nat)

  /** The message has a record: its tx is eligible and its events parse, and it failed or has a parsed entry. */
  predicate HasRecord(block: Block, results: seq<DeliverTx>, at: Spot) {
    && Eligible(block, results, at.tx)
    && ParseOf(block, results, at.tx).Parsed?
    && at.msg < |block.txs[at.tx].msgs|
    && (results[at.tx].code != 0 || at.msg < |ParseOf(block, results, at.tx).p.txs|)
  }

  predicate Before(a: Spot, b: Spot) { a.tx < b.tx || (a.tx == b.tx && a.msg < b.msg) }

  /** Record `k` is that of message spots[k]; its cumulative gas adds its gas to that of the message before. */
  predicate IsRecordOf(block: Block, results: seq<DeliverTx>, saved: seq<Saved>, spots: seq<Spot>, k: nat)
    requires k < |saved| == |spots|
  {
    && HasRecord(block, results, spots[k])
    && var Spot(t, j) := spots[k];
    && var res, msg, p := results[t], block.txs[t].msgs[j], ParseOf(block, results, t).p;
    && var r := saved[k].result;
    && msg.EthMsg? && saved[k].hash == msg.hash
    && r.height == block.height && r.txIndex == t % TWO_32 && r.msgIndex == j % TWO_32 && r.ethTxIndex == ToInt32(k)
    && r.gasUsed == (if res.code != 0 then msg.gas else p.txs[j].gasUsed)
    && r.failed == (res.code != 0 || p.txs[j].failed)
    && (j == 0 ==> r.cumulativeGasUsed == r.gasUsed)
    && (j > 0 ==>
          && k > 0 && spots[k - 1] == Spot(t, j - 1)
          && r.cumulativeGasUsed == (saved[k - 1].result.cumulativeGasUsed + r.gasUsed) % TWO_64)
  }

  /** The records of exactly the messages before `end` that have one, in order. */
  ghost predicate Lists(block: Block, results: seq<DeliverTx>, end: Spot, saved: seq<Saved>, spots: seq<Spot>) {
    && |spots| == |saved|
    && (forall k :: 0 <= k < |saved| ==> IsRecordOf(block, results, saved, spots, k))
    && (forall i, j :: 0 <= i < j < |spots| ==> Before(spots[i], spots[j]))
    && (forall at :: at in spots <==> HasRecord(block, results, at) && Before(at, end))
  }

  // ----- the guards -----

  lemma OccursIsContained(s: string, sub: string)
    ensures Contains(s, sub) <==> Occurs(sub, s)
  {
    if Contains(s, sub) {
      var k :| 0 <= k <= |s| - |sub| && s[k..][..|sub|] == sub;
      assert sub <= s[k..];
    }
    if Occurs(sub, s) {
      var k :| 0 <= k <= |s| && sub <= s[k..];
      assert s[k..][..|sub|] == sub;
    }
  }

  lemma EligibleIsIndexed(block: Block, results: seq<DeliverTx>, t: nat)
    requires t < |block.txs| && t < |results|
    ensures Eligible(block, results, t) <==> TxIsValidEnough(results[t]) && IsEthTx(block.txs[t])
  {
    hide Occurs, Contains;
    OccursIsContained(results[t].log, "out of gas in location: block gas meter; gasWanted:");
    OccursIsContained(results[t].log, "failed to commit stateDB");
  }

  // ----- the loops list what they should -----

  lemma NothingListed(block: Block, results: seq<DeliverTx>)
    ensures Lists(block, results, Spot(0, 0), [], [])
  {
  }

  /** Moving the end past spots without records changes nothing. */
  lemma EndMoves(block: Block, results: seq<DeliverTx>, end: Spot, end': Spot, saved: seq<Saved>, spots: seq<Spot>)
    requires Lists(block, results, end, saved, spots)
    requires forall at :: HasRecord(block, results, at) ==> (Before(at, end) <==> Before(at, end'))
    ensures Lists(block, results, end', saved, spots)
  {
    hide HasRecord, Before, IsRecordOf;
  }

  lemma RecordStays(block: Block, results: seq<DeliverTx>, saved: seq<Saved>, spots: seq<Spot>, s: Saved, at: Spot, k: nat)
    requires k < |saved| == |spots| && IsRecordOf(block, results, saved, spots, k)
    ensures IsRecordOf(block, results, saved + [s], spots + [at], k)
  {
    hide HasRecord, ToInt32;
  }

  lemma OneMoreListed(block: Block, results: seq<DeliverTx>, t: nat, j: nat, saved: seq<Saved>, spots: seq<Spot>, s: Saved)
    requires Lists(block, results, Spot(t, j), saved, spots)
    requires IsRecordOf(block, results, saved + [s], spots + [Spot(t, j)], |saved|)
    ensures Lists(block, results, Spot(t, j + 1), saved + [s], spots + [Spot(t, j)])
  {
    hide HasRecord, IsRecordOf;
    var at := Spot(t, j);
    assert HasRecord(block, results, at) by { RecordHere(block, results, saved + [s], spots + [at], |saved|); }
    forall k | 0 <= k < |saved + [s]| ensures IsRecordOf(block, results, saved + [s], spots + [at], k) {
      if k < |saved| {
        RecordStays(block, results, saved, spots, s, at, k);
      }
    }
    forall i | 0 <= i < |spots| ensures Before(spots[i], at) {
      assert spots[i] in spots;
    }
    forall x ensures x in spots + [at] <==> HasRecord(block, results, x) && Before(x, Spot(t, j + 1)) {
      assert Before(x, Spot(t, j + 1)) <==> Before(x, at) || x == at;
    }
  }

  lemma RecordHere(block: Block, results: seq<DeliverTx>, saved: seq<Saved>, spots: seq<Spot>, k: nat)
    requires k < |saved| == |spots| && IsRecordOf(block, results, saved, spots, k)
    ensures HasRecord(block, results, spots[k])
  {
  }

  /** The loop over the messages of tx `t`, from message `j` on. */
  lemma {:induction false} MsgsListed(block: Block, results: seq<DeliverTx>, t: nat, j: nat, saved: seq<Saved>,
                                      cumulative: uint64, spots: seq<Spot>)
    returns (spots': seq<Spot>)
    requires Eligible(block, results, t) && ParseOf(block, results, t).Parsed? && j <= |block.txs[t].msgs|
    requires Lists(block, results, Spot(t, j), saved, spots)
    requires j == 0 ==> cumulative == 0
    requires j > 0 && HasRecord(block, results, Spot(t, j - 1)) ==>
               saved != [] && spots[|saved| - 1] == Spot(t, j - 1) && saved[|saved| - 1].result.cumulativeGasUsed == cumulative
    requires SaveMsgs(block.height, t, block.txs[t].msgs, results[t].code, ParseOf(block, results, t).p, j, saved, cumulative).Some?
    ensures var msgs := block.txs[t].msgs;
            var saved' := SaveMsgs(block.height, t, msgs, results[t].code, ParseOf(block, results, t).p, j, saved, cumulative).value;
            Lists(block, results, Spot(t, |msgs|), saved', spots')
    decreases |block.txs[t].msgs| - j
  {
    hide SaveMsgs, Lists, ParseOf, Occurs, ToInt32, AddGas;
    var msgs, code, p := block.txs[t].msgs, results[t].code, ParseOf(block, results, t).p;
    SameLength(block, results, Spot(t, j), saved, spots);
    SaveMsgsStep(block.height, t, msgs, code, p, j, saved, cumulative);
    if j == |msgs| {
      spots' := spots;
    } else if code == 0 && j >= |p.txs| {
      SkippedMsg(block, results, t, j, saved, spots);
      spots' := MsgsListed(block, results, t, j + 1, saved, cumulative, spots);
    } else {
      var gas, failed := if code == 0 then p.txs[j].gasUsed else msgs[j].gas, code != 0 || p.txs[j].failed;
      var total := AddGas(cumulative, gas);
      var s := Saved(msgs[j].hash, ResultOf(block.height, t, j, ToInt32(|saved|), failed, gas, total));
      NewRecord(block, results, t, j, saved, cumulative, spots);
      OneMoreListed(block, results, t, j, saved, spots, s);
      spots' := MsgsListed(block, results, t, j + 1, saved + [s], total, spots + [Spot(t, j)]);
    }
  }

  lemma SameLength(block: Block, results: seq<DeliverTx>, end: Spot, saved: seq<Saved>, spots: seq<Spot>)
    requires Lists(block, results, end, saved, spots)
    ensures |saved| == |spots|
  {
  }

  lemma SkippedMsg(block: Block, results: seq<DeliverTx>, t: nat, j: nat, saved: seq<Saved>, spots: seq<Spot>)
    requires Lists(block, results, Spot(t, j), saved, spots) && !HasRecord(block, results, Spot(t, j))
    ensures Lists(block, results, Spot(t, j + 1), saved, spots)
  {
    hide HasRecord, Lists;
    forall at | HasRecord(block, results, at) ensures Before(at, Spot(t, j)) <==> Before(at, Spot(t, j + 1)) {
      assert at != Spot(t, j);
    }
    EndMoves(block, results, Spot(t, j), Spot(t, j + 1), saved, spots);
  }

  lemma NewRecord(block: Block, results: seq<DeliverTx>, t: nat, j: nat, saved: seq<Saved>, cumulative: uint64,
                  spots: seq<Spot>)
    requires HasRecord(block, results, Spot(t, j)) && block.txs[t].msgs[j].EthMsg? && |saved| == |spots|
    requires j == 0 ==> cumulative == 0
    requires j > 0 ==> saved != [] && spots[|saved| - 1] == Spot(t, j - 1) && saved[|saved| - 1].result.cumulativeGasUsed == cumulative
    ensures var msgs, code, p := block.txs[t].msgs, results[t].code, ParseOf(block, results, t).p;
            var gas, failed := if code == 0 then p.txs[j].gasUsed else msgs[j].gas, code != 0 || p.txs[j].failed;
            var result := ResultOf(block.height, t, j, ToInt32(|saved|), failed, gas, AddGas(cumulative, gas));
            IsRecordOf(block, results, saved + [Saved(msgs[j].hash, result)], spots + [Spot(t, j)], |saved|)
  {
    hide ParseOf, Occurs, ToInt32;
    FirstGas();
  }

  lemma FirstGas()
    ensures forall gas: uint64 :: AddGas(0, gas) == gas
  {
  }

  /** The loop over the txs, from tx `t` on. */
  lemma {:induction false} TxsListed(block: Block, results: seq<DeliverTx>, t: nat, saved: seq<Saved>, spots: seq<Spot>)
    returns (spots': seq<Spot>)
    requires t <= |block.txs| && Lists(block, results, Spot(t, 0), saved, spots)
    requires SaveTxs(block, results, t, saved).Some?
    ensures Lists(block, results, Spot(|block.txs|, 0), SaveTxs(block, results, t, saved).value, spots')
    decreases |block.txs| - t
  {
    hide Lists, SaveTx;
    if t == |block.txs| {
      spots' := spots;
    } else {
      var next := TxListed(block, results, t, saved, spots);
      spots' := TxsListed(block, results, t + 1, SaveTx(block.height, t, block.txs[t], results[t], saved).value, next);
    }
  }

  lemma TxListed(block: Block, results: seq<DeliverTx>, t: nat, saved: seq<Saved>, spots: seq<Spot>)
    returns (spots': seq<Spot>)
    requires t < |block.txs| && t < |results| && Lists(block, results, Spot(t, 0), saved, spots)
    requires SaveTx(block.height, t, block.txs[t], results[t], saved).Some?
    ensures Lists(block, results, Spot(t + 1, 0), SaveTx(block.height, t, block.txs[t], results[t], saved).value, spots')
  {
    hide Lists, SaveMsgs, TxIsValidEnough, IsEthTx, Parse, Occurs;
    EligibleIsIndexed(block, results, t);
    if Eligible(block, results, t) && ParseOf(block, results, t).Parsed? {
      var msgs := block.txs[t].msgs;
      spots' := MsgsListed(block, results, t, 0, saved, 0, spots);
      var saved' := SaveTx(block.height, t, block.txs[t], results[t], saved).value;
      EndMoves(block, results, Spot(t, |msgs|), Spot(t + 1, 0), saved', spots');
    } else {
      spots' := spots;
      EndMoves(block, results, Spot(t, 0), Spot(t + 1, 0), saved, spots);
    }
  }

  /**
   The records of a block that does not panic: exactly one for every message that has one, and no others, in
   the order of txs and messages, each with the contents of its message.
   */
  lemma RecordsOfBlock(block: Block, results: seq<DeliverTx>) returns (spots: seq<Spot>)
    requires Records(block, results).Some?
    ensures var saved := Records(block, results).value;
            && |spots| == |saved|
            && (forall at :: at in spots <==> HasRecord(block, results, at))
            && (forall i, j :: 0 <= i < j < |spots| ==> Before(spots[i], spots[j]))
            && (forall k :: 0 <= k < |saved| ==> IsRecordOf(block, results, saved, spots, k))
  {
    hide SaveTxs, HasRecord, IsRecordOf;
    NothingListed(block, results);
    spots := TxsListed(block, results, 0, [], []);
    forall at | HasRecord(block, results, at) ensures Before(at, Spot(|block.txs|, 0)) {
      RecordInBlock(block, results, at);
    }
  }

  lemma RecordInBlock(block: Block, results: seq<DeliverTx>, at: Spot)
    requires HasRecord(block, results, at)
    ensures at.tx < |block.txs|
  {
  }

  // ----- when indexing panics -----

  /** Tx `t` has a result, and if it is eligible its parsing does not panic and a parsed one has eth messages only. */
  predicate Harmless(block: Block, results: seq<DeliverTx>, t: nat) {
    && t < |results|
    && (Eligible(block, results, t) ==>
          match ParseOf(block, results, t)
          case ParsePanicked => false
          case ParseFailed => true
          case Parsed(_) => forall j :: 0 <= j < |block.txs[t].msgs| ==> block.txs[t].msgs[j].EthMsg?)
  }

  lemma {:induction false} MsgsPanic(height: int64, t: nat, msgs: seq<Msg>, code: uint32, p: ParsedTxs, j: nat,
                                     saved: seq<Saved>, cumulative: uint64)
    requires j <= |msgs|
    ensures SaveMsgs(height, t, msgs, code, p, j, saved, cumulative).Some? <==>
            forall k :: j <= k < |msgs| ==> msgs[k].EthMsg?
    decreases |msgs| - j
  {
    hide SaveMsgs, AddGas, ResultOf, ToInt32;
    SaveMsgsStep(height, t, msgs, code, p, j, saved, cumulative);
    if j < |msgs| && msgs[j].EthMsg? {
      if code == 0 && j >= |p.txs| {
        MsgsPanic(height, t, msgs, code, p, j + 1, saved, cumulative);
      } else {
        var gas, failed := if code == 0 then p.txs[j].gasUsed else msgs[j].gas, code != 0 || p.txs[j].failed;
        var total := AddGas(cumulative, gas);
        var s := Saved(msgs[j].hash, ResultOf(height, t, j, ToInt32(|saved|), failed, gas, total));
        MsgsPanic(height, t, msgs, code, p, j + 1, saved + [s], total);
      }
    }
  }

  lemma TxPanics(block: Block, results: seq<DeliverTx>, t: nat, saved: seq<Saved>)
    requires t < |block.txs| && t < |results|
    ensures SaveTx(block.height, t, block.txs[t], results[t], saved).Some? <==> Harmless(block, results, t)
  {
    hide SaveMsgs, TxIsValidEnough, IsEthTx, Parse, Occurs;
    EligibleIsIndexed(block, results, t);
    if Eligible(block, results, t) && ParseOf(block, results, t).Parsed? {
      MsgsPanic(block.height, t, block.txs[t].msgs, results[t].code, ParseOf(block, results, t).p, 0, saved, 0);
    }
  }

  lemma {:induction false} TxsPanic(block: Block, results: seq<DeliverTx>, t: nat, saved: seq<Saved>)
    requires t <= |block.txs|
    ensures SaveTxs(block, results, t, saved).Some? <==> forall u :: t <= u < |block.txs| ==> Harmless(block, results, u)
    decreases |block.txs| - t
  {
    hide SaveTx, Harmless;
    if t < |block.txs| {
      if t < |results| {
        TxPanics(block, results, t, saved);
        var next := SaveTx(block.height, t, block.txs[t], results[t], saved);
        if next.Some? {
          TxsPanic(block, results, t + 1, next.value);
        }
      } else {
        NoResult(block, results, t);
      }
    }
  }

  lemma NoResult(block: Block, results: seq<DeliverTx>, t: nat)
    requires t >= |results|
    ensures !Harmless(block, results, t)
  {
  }

  /** Indexing a block does not panic exactly if every tx is harmless. */
  lemma PanicsIff(block: Block, results: seq<DeliverTx>)
    ensures Records(block, results).Some? <==> forall t :: 0 <= t < |block.txs| ==> Harmless(block, results, t)
  {
    hide SaveTxs, Harmless;
    TxsPanic(block, results, 0, []);
  }
}
