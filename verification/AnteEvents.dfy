/**
 The pending events the ante handler emits (app/evmante/evmante_emit_event.go) and the committed events
 of the messages' execution (x/evm/keeper/msg_server.go), read back by ParseTxResult: which results it
 accepts, what every slot then holds, and which records built from the slots are numbered right.
 */
module AnteEvents {
  import opened Bytes
  import opened Decimals
  import opened IndexKeys
  import opened TxResultCodec
  import opened EventsParser

  function EmittedEvent(hash: Hash, index: uint64): Event {
    Pending([EthHashAttr(hash), IndexAttr(Format(index))])
  }

  /** `txIndex + uint64(i)` */
  function EmittedIndex(base: uint64, i: nat): uint64 { ToUint64(base + i) }

  /** The events for the first `n` messages, when the block has seen `base` eth txs. */
  function Emitted(msgs: seq<Msg>, base: uint64, n: nat): seq<Event>
    requires n <= |msgs| && forall i :: 0 <= i < n ==> msgs[i].EthMsg?
  {
    if n == 0 then [] else Emitted(msgs, base, n - 1) + [EmittedEvent(msgs[n - 1].hash, EmittedIndex(base, n - 1))]
  }

  /** EthEmitEventDecorator.AnteHandle, up to the call of the next decorator. */
  method AnteHandle(msgs: seq<Msg>, txIndex: uint64) returns (events: seq<Event>, ok: bool)
    ensures ok <==> forall i :: 0 <= i < |msgs| ==> msgs[i].EthMsg?
    ensures ok ==> events == Emitted(msgs, txIndex, |msgs|)
  {
    events := [];
    for i := 0 to |msgs|
      invariant forall j :: 0 <= j < i ==> msgs[j].EthMsg?
      invariant events == Emitted(msgs, txIndex, i)
    {
      if msgs[i].OtherMsg? { return events, false; }
      events := events + [EmittedEvent(msgs[i].hash, EmittedIndex(txIndex, i))];
    }
    ok := true;
  }

  /** An emitted event is understood exactly if its index fits an int32. */
  lemma EmittedEventParsed(hash: Hash, index: uint64)
    ensures PendingOf(EmittedEvent(hash, index).attrs)
         == if index < TWO_31 then Some(PendingInfo(hash, index)) else None
  {
    hide ParseInt, Format;
    var attrs := EmittedEvent(hash, index).attrs;
    var start := PendingInfo(ZERO_HASH, -1);
    ParseFormat(index, TWO_31);
    assert ScanAttrs(attrs, 0, start) == ScanAttrs(attrs, 1, start.(hash := hash));
    if index < TWO_31 {
      assert ScanAttrs(attrs, 2, PendingInfo(hash, index)) == Some(PendingInfo(hash, index));
    }
  }

  predicate AllEth(msgs: seq<Msg>) { forall i :: 0 <= i < |msgs| ==> msgs[i].EthMsg? }

  /** The slots right after the ante handler: one per message, numbered on from `base`. */
  ghost predicate FreshSlots(p: ParsedTxs, msgs: seq<Msg>, base: uint64, n: nat)
    requires n <= |msgs| && AllEth(msgs)
  {
    && |p.txs| == n
    && forall i :: 0 <= i < n ==> p.txs[i] == ParsedTx(i, msgs[i].hash, ToInt32(EmittedIndex(base, i)), 0, false)
  }

  predicate IndicesFit(base: uint64, n: nat) {
    forall i :: 0 <= i < n ==> EmittedIndex(base, i) < TWO_31
  }

  lemma {:induction false} EmittedParsed(msgs: seq<Msg>, base: uint64, n: nat)
    requires n <= |msgs| && AllEth(msgs)
    ensures ParseEvents(Emitted(msgs, base, n)).Some? <==> IndicesFit(base, n)
    ensures IndicesFit(base, n) ==> FreshSlots(ParseEvents(Emitted(msgs, base, n)).value, msgs, base, n)
  {
    hide AddEvent, FreshSlots, EmittedEvent, EmittedIndex;
    if n == 0 {
      NoFreshSlots(msgs, base);
    } else {
      EmittedParsed(msgs, base, n - 1);
      var events := Emitted(msgs, base, n);
      assert events[..|events| - 1] == Emitted(msgs, base, n - 1);
      if IndicesFit(base, n - 1) {
        EmittedStep(ParseEvents(events[..|events| - 1]).value, msgs, base, n - 1);
      }
    }
  }

  lemma NoFreshSlots(msgs: seq<Msg>, base: uint64)
    requires AllEth(msgs)
    ensures FreshSlots(NO_TXS, msgs, base, 0)
  {
  }

  lemma EmittedStep(p: ParsedTxs, msgs: seq<Msg>, base: uint64, n: nat)
    requires n < |msgs| && AllEth(msgs) && FreshSlots(p, msgs, base, n)
    ensures var r := AddEvent(p, EmittedEvent(msgs[n].hash, EmittedIndex(base, n)));
            && (r.Some? <==> EmittedIndex(base, n) < TWO_31)
            && (r.Some? ==> FreshSlots(r.value, msgs, base, n + 1))
  {
    hide PendingOf, EmittedIndex, ToInt32, Format;
    var index := EmittedIndex(base, n);
    EmittedEventParsed(msgs[n].hash, index);
    FitsInt32(index);
  }

  lemma FitsInt32(index: uint64)
    ensures index < TWO_31 ==> ToInt32(index) == index
  {
  }

  predicate NoPending(events: seq<Event>) { forall i :: 0 <= i < |events| ==> !events[i].Pending? }

  /** Every committed event of the first message carries the index the ante handler gave it. */
  predicate FirstIndexKept(events: seq<Event>, first: Hash, base: uint64) {
    forall i :: 0 <= i < |events| && events[i].EthereumTx? && events[i].body.Some? && events[i].body.value.hash == first
                ==> events[i].body.value.index == Format(base)
  }

  lemma ExecutionStep(p: ParsedTxs, hs: seq<Hash>, e: Event, base: uint64)
    requires SlotsMatch(p, hs) && |hs| > 0 && p.txs[0].ethTxIndex == base < TWO_31
    requires !e.Pending? && AddEvent(p, e).Some? && FirstIndexKept([e], hs[0], base)
    ensures |AddEvent(p, e).value.txs| == |p.txs| && AddEvent(p, e).value.txs[0].ethTxIndex == base
  {
    hide CommittedTx, ToInt32, Format, ParseUint;
    if e.EthereumTx? {
      CommittedFields(e.body.value, |p.txs| - 1);
      ParseFormat(base, TWO_31);
      FitsInt32(base);
      assert [e][0] == e;
      assert IsLast(hs, e.body.value.hash, p.txHashes[e.body.value.hash]);
    }
  }

  /** Executing the messages replaces slots but adds none, and keeps the first index. */
  lemma {:induction false} ExecutionKeepsFirstIndex(before: seq<Event>, rest: seq<Event>, first: Hash, base: uint64)
    requires ParseEvents(before).Some? && |ParseEvents(before).value.txs| > 0
    requires var p := ParseEvents(before).value; p.txs[0].ethHash == first && p.txs[0].ethTxIndex == base
    requires base < TWO_31 && NoPending(rest) && FirstIndexKept(rest, first, base)
    requires ParseEvents(before + rest).Some?
    ensures var p, p' := ParseEvents(before).value, ParseEvents(before + rest).value;
            |p'.txs| == |p.txs| && p'.txs[0].ethTxIndex == base
    ensures PendingHashes(before + rest) == PendingHashes(before)
  {
    hide SlotsMatch, AddEvent, PendingOf, Format;
    if rest == [] {
      assert before + rest == before;
    } else {
      var k := |rest| - 1;
      var events := before + rest;
      assert events[..|events| - 1] == before + rest[..k];
      ExecutionKeepsFirstIndex(before, rest[..k], first, base);
      FirstHash(before, first);
      ParsedSlots(before + rest[..k]);
      ExecutionStep(ParseEvents(before + rest[..k]).value, PendingHashes(before), rest[k], base);
    }
  }

  lemma FirstHash(events: seq<Event>, first: Hash)
    requires ParseEvents(events).Some? && |ParseEvents(events).value.txs| > 0
    requires ParseEvents(events).value.txs[0].ethHash == first
    ensures |PendingHashes(events)| > 0 && PendingHashes(events)[0] == first
  {
    ParsedSlots(events);
  }

  /** Over any events that keep the first index, slots are found by eth tx index, and no other index finds one. */
  lemma LookupIfIndexKept(msgs: seq<Msg>, base: uint64, rest: seq<Event>, code: uint32, i: int)
    requires AllEth(msgs) && |msgs| > 0 && base + |msgs| <= TWO_31
    requires NoPending(rest) && FirstIndexKept(rest, msgs[0].hash, base)
    requires Parse(code, Emitted(msgs, base, |msgs|) + rest, Some(msgs)).Parsed?
    ensures var p := Parse(code, Emitted(msgs, base, |msgs|) + rest, Some(msgs)).p;
            && |p.txs| == |msgs|
            && GetTxByTxIndex(p, base + i) == if 0 <= i < |msgs| then Some(p.txs[i]) else None
    ensures 0 <= i < |msgs| ==>
              Parse(code, Emitted(msgs, base, |msgs|) + rest, Some(msgs)).p.txs[i].ethHash == msgs[i].hash
  {
    hide ParseEvents, Emitted, EmittedIndex, ToInt32, FirstIndexKept, NoPending, ChargeGasLimits;
    var before := Emitted(msgs, base, |msgs|);
    SmallIndicesFit(base, |msgs|);
    EmittedParsed(msgs, base, |msgs|);
    FitsInt32(base);
    ExecutionKeepsFirstIndex(before, rest, msgs[0].hash, base);
    ParsedSlots(before);
    ParsedSlots(before + rest);
    if code != 0 {
      var p, p' := ParseEvents(before + rest).value, Parse(code, before + rest, Some(msgs)).p;
      ChargedSlots(p, msgs, 0);
      assert Charged(p'.txs, p.txs, msgs, 0);
      assert 0 <= i < |msgs| ==> Charged(p'.txs, p.txs, msgs, i);
    }
  }

  lemma SmallIndicesFit(base: uint64, n: nat)
    requires base + n <= TWO_31
    ensures IndicesFit(base, n) && EmittedIndex(base, 0) == base
  {
  }

  /** The ante handler's events are accepted exactly if the last index fits an int32. */
  lemma IndicesFitIff(base: uint64, n: nat)
    ensures IndicesFit(base, n) <==> n == 0 || base + n <= TWO_31
  {
    if n > 0 && base + n > TWO_31 {
      if base >= TWO_31 {
        assert EmittedIndex(base, 0) == base;
      } else {
        assert EmittedIndex(base, TWO_31 - base) == TWO_31;
      }
    }
  }

  // ----- execution -----

  /** What executing a message comes to; `before` and `after` count the other events around its own. */
  datatype Outcome = Outcome(gasUsed: uint64, vmError: string, before: nat, after: nat)

  function Others(n: nat): seq<Event> {
    if n == 0 then [] else Others(n - 1) + [OtherEvent]
  }

  /** EmitEthereumTxEvents: the typed event of a message executed as the `index`-th eth tx of the block. */
  function ExecutedEvent(hash: Hash, index: uint64, o: Outcome): Event {
    EthereumTx(Some(Committed(hash, Format(index), Format(o.gasUsed), o.vmError)))
  }

  /** The events of the first `n` messages. */
  function Executed(msgs: seq<Msg>, base: uint64, outcomes: seq<Outcome>, n: nat): seq<Event>
    requires AllEth(msgs) && n <= |msgs| == |outcomes|
  {
    if n == 0 then []
    else
      var o := outcomes[n - 1];
      Executed(msgs, base, outcomes, n - 1) + Others(o.before)
      + [ExecutedEvent(msgs[n - 1].hash, EmittedIndex(base, n - 1), o)] + Others(o.after)
  }

  lemma NextEmittedIndex(base: uint64, i: nat)
    ensures EmittedIndex(base, 0) == base
    ensures EmittedIndex(base, i + 1) == ToUint64(EmittedIndex(base, i) as int + 1)
  {
  }

  /** The handler run on one message after the other: each reads BlockTxIndex and raises it. */
  method ExecuteMsgs(msgs: seq<Msg>, blockTxIndex: uint64, outcomes: seq<Outcome>)
    returns (events: seq<Event>, blockTxIndex': uint64)
    requires AllEth(msgs) && |msgs| == |outcomes|
    ensures events == Executed(msgs, blockTxIndex, outcomes, |msgs|)
    ensures blockTxIndex' == EmittedIndex(blockTxIndex, |msgs|)
  {
    hide ExecutedEvent, Others, EmittedIndex;
    events, blockTxIndex' := [], blockTxIndex;
    NextEmittedIndex(blockTxIndex, 0);
    for i := 0 to |msgs|
      invariant events == Executed(msgs, blockTxIndex, outcomes, i)
      invariant blockTxIndex' == EmittedIndex(blockTxIndex, i)
    {
      var o := outcomes[i];
      NextEmittedIndex(blockTxIndex, i);
      events := events + Others(o.before) + [ExecutedEvent(msgs[i].hash, blockTxIndex', o)] + Others(o.after);
      blockTxIndex' := ToUint64(blockTxIndex' as int + 1);
    }
  }

  /** The events of a whole tx: a tx that failed keeps only those of the ante handler. */
  function TxEvents(msgs: seq<Msg>, base: uint64, outcomes: seq<Outcome>, code: uint32): seq<Event>
    requires AllEth(msgs) && |msgs| == |outcomes|
  {
    Emitted(msgs, base, |msgs|) + if code == 0 then Executed(msgs, base, outcomes, |msgs|) else []
  }

  function HashesOf(msgs: seq<Msg>, n: nat): seq<Hash>
    requires AllEth(msgs) && n <= |msgs|
  {
    if n == 0 then [] else HashesOf(msgs, n - 1) + [msgs[n - 1].hash]
  }

  lemma {:induction false} HashesAt(msgs: seq<Msg>, n: nat)
    requires AllEth(msgs) && n <= |msgs|
    ensures |HashesOf(msgs, n)| == n && forall i :: 0 <= i < n ==> HashesOf(msgs, n)[i] == msgs[i].hash
  {
    if n > 0 {
      HashesAt(msgs, n - 1);
    }
  }

  lemma {:induction false} EmittedHashes(msgs: seq<Msg>, base: uint64, n: nat)
    requires AllEth(msgs) && n <= |msgs| && IndicesFit(base, n)
    ensures PendingHashes(Emitted(msgs, base, n)) == HashesOf(msgs, n)
  {
    hide PendingOf, EmittedEvent, EmittedIndex;
    if n > 0 {
      EmittedHashes(msgs, base, n - 1);
      var events := Emitted(msgs, base, n);
      assert events[..|events| - 1] == Emitted(msgs, base, n - 1);
      EmittedEventParsed(msgs[n - 1].hash, EmittedIndex(base, n - 1));
      EmittedIsPending(msgs[n - 1].hash, EmittedIndex(base, n - 1));
    }
  }

  lemma EmittedIsPending(hash: Hash, index: uint64)
    ensures EmittedEvent(hash, index).Pending?
  {
  }

  lemma {:induction false} OthersIgnored(events: seq<Event>, n: nat)
    ensures ParseEvents(events + Others(n)) == ParseEvents(events)
  {
    hide ParseEvents;
    if n == 0 {
      assert events + Others(n) == events;
    } else {
      OthersIgnored(events, n - 1);
      OneMore(events + Others(n - 1), OtherEvent);
      assert events + Others(n) == events + Others(n - 1) + [OtherEvent];
    }
  }

  /** The last of the first `m` messages with hash `h`. */
  function LastBefore(msgs: seq<Msg>, h: Hash, m: nat): (r: Option<nat>)
    requires AllEth(msgs) && m <= |msgs|
    ensures r.Some? ==> r.value < m && msgs[r.value].hash == h && forall j :: r.value < j < m ==> msgs[j].hash != h
    ensures r.None? ==> forall j :: 0 <= j < m ==> msgs[j].hash != h
  {
    if m == 0 then None else if msgs[m - 1].hash == h then Some(m - 1) else LastBefore(msgs, h, m - 1)
  }

  /** No later message has the hash of message `i`. */
  predicate LastWithHash(msgs: seq<Msg>, i: nat)
    requires AllEth(msgs) && i < |msgs|
  {
    LastBefore(msgs, msgs[i].hash, |msgs|) == Some(i)
  }

  /** The slot of message `j` once it is executed. */
  function FilledSlotOf(msgs: seq<Msg>, base: nat, outcomes: seq<Outcome>, j: nat): ParsedTx
    requires AllEth(msgs) && j < |msgs| == |outcomes| && base + |msgs| <= TWO_31
  {
    ParsedTx(|msgs| - 1, msgs[j].hash, base + j, outcomes[j].gasUsed, outcomes[j].vmError != "")
  }

  /** Slot `i` when the first `m` messages are executed: the events of a repeated hash all go to its last slot. */
  function SlotAfter(msgs: seq<Msg>, base: nat, outcomes: seq<Outcome>, m: nat, i: nat): ParsedTx
    requires AllEth(msgs) && i < |msgs| == |outcomes| && m <= |msgs| && base + |msgs| <= TWO_31
  {
    var pending := ParsedTx(i, msgs[i].hash, base + i, 0, false);
    match LastBefore(msgs, msgs[i].hash, m)
    case Some(j) => if LastWithHash(msgs, i) then FilledSlotOf(msgs, base, outcomes, j) else pending
    case None => pending
  }

  ghost predicate SlotsAfter(p: ParsedTxs, msgs: seq<Msg>, base: nat, outcomes: seq<Outcome>, m: nat)
    requires AllEth(msgs) && m <= |msgs| == |outcomes| && base + |msgs| <= TWO_31
  {
    && SlotsMatch(p, HashesOf(msgs, |msgs|)) && |p.txs| == |msgs|
    && forall i :: 0 <= i < |msgs| ==> p.txs[i] == SlotAfter(msgs, base, outcomes, m, i)
  }

  lemma ExecutedEventParsed(msgs: seq<Msg>, base: nat, outcomes: seq<Outcome>, j: nat)
    requires AllEth(msgs) && j < |msgs| == |outcomes| && base + |msgs| <= TWO_31
    ensures CommittedTx(ExecutedEvent(msgs[j].hash, EmittedIndex(base, j), outcomes[j]).body.value, |msgs| - 1)
         == Some(FilledSlotOf(msgs, base, outcomes, j))
  {
    hide Format, ParseUint;
    var index := EmittedIndex(base, j);
    assert index == base + j;
    ParseFormat(index, TWO_31);
    ParseFormat(outcomes[j].gasUsed, TWO_64);
    FitsInt32(index);
  }

  /** The map sends the hash of a message to the last slot with that hash. */
  lemma SlotOfHash(p: ParsedTxs, msgs: seq<Msg>, m: nat) returns (j: nat)
    requires AllEth(msgs) && SlotsMatch(p, HashesOf(msgs, |msgs|)) && m < |msgs|
    ensures msgs[m].hash in p.txHashes && p.txHashes[msgs[m].hash] == j < |msgs| == |p.txs|
    ensures forall i :: 0 <= i < |msgs| ==> (msgs[i].hash == msgs[m].hash && LastWithHash(msgs, i) <==> i == j)
  {
    HashesAt(msgs, |msgs|);
    var hs := HashesOf(msgs, |msgs|);
    assert hs[m] in hs;
    j := p.txHashes[msgs[m].hash];
    assert IsLast(hs, msgs[m].hash, j);
  }

  lemma ExecuteStep(p: ParsedTxs, msgs: seq<Msg>, base: nat, outcomes: seq<Outcome>, m: nat)
    requires AllEth(msgs) && m < |msgs| == |outcomes| && base + |msgs| <= TWO_31
    requires SlotsAfter(p, msgs, base, outcomes, m)
    ensures var r := AddEvent(p, ExecutedEvent(msgs[m].hash, EmittedIndex(base, m), outcomes[m]));
            r.Some? && SlotsAfter(r.value, msgs, base, outcomes, m + 1)
  {
    hide SlotsMatch, CommittedTx, LastWithHash, EmittedIndex, Format;
    var e := ExecutedEvent(msgs[m].hash, EmittedIndex(base, m), outcomes[m]);
    ExecutedEventParsed(msgs, base, outcomes, m);
    var j := SlotOfHash(p, msgs, m);
    var r := AddEvent(p, e);
    CommittedKeepsMatch(p, HashesOf(msgs, |msgs|), FilledSlotOf(msgs, base, outcomes, m));
    forall i | 0 <= i < |msgs| ensures r.value.txs[i] == SlotAfter(msgs, base, outcomes, m + 1, i) {
      if i != j {
        assert r.value.txs[i] == SlotAfter(msgs, base, outcomes, m, i);
      }
    }
  }

  /** Execution of the first `m` messages is accepted, and fills the slots as described. */
  lemma {:induction false} ExecutionParsed(msgs: seq<Msg>, base: uint64, outcomes: seq<Outcome>, m: nat)
    requires AllEth(msgs) && m <= |msgs| == |outcomes| && base + |msgs| <= TWO_31
    ensures var r := ParseEvents(Emitted(msgs, base, |msgs|) + Executed(msgs, base, outcomes, m));
            r.Some? && SlotsAfter(r.value, msgs, base, outcomes, m)
  {
    hide ParseEvents, SlotsAfter, AddEvent, ExecutedEvent, Emitted;
    var before := Emitted(msgs, base, |msgs|);
    if m == 0 {
      assert before + [] == before;
      NothingExecuted(msgs, base, outcomes);
    } else {
      var o, e := outcomes[m - 1], ExecutedEvent(msgs[m - 1].hash, EmittedIndex(base, m - 1), outcomes[m - 1]);
      var first := before + Executed(msgs, base, outcomes, m - 1);
      ExecutionParsed(msgs, base, outcomes, m - 1);
      OthersIgnored(first, o.before);
      OneMore(first + Others(o.before), e);
      ExecuteStep(ParseEvents(first).value, msgs, base, outcomes, m - 1);
      OthersIgnored(first + Others(o.before) + [e], o.after);
      assert before + Executed(msgs, base, outcomes, m) == first + Others(o.before) + [e] + Others(o.after);
    }
  }

  lemma OneMore(events: seq<Event>, e: Event)
    ensures ParseEvents(events + [e]) ==
            match ParseEvents(events)
            case None => None
            case Some(p) => AddEvent(p, e)
  {
    assert (events + [e])[..|events|] == events;
  }

  lemma NothingExecuted(msgs: seq<Msg>, base: uint64, outcomes: seq<Outcome>)
    requires AllEth(msgs) && |msgs| == |outcomes| && base + |msgs| <= TWO_31
    ensures var r := ParseEvents(Emitted(msgs, base, |msgs|)); r.Some? && SlotsAfter(r.value, msgs, base, outcomes, 0)
  {
    hide ParseEvents, Emitted, PendingHashes, SlotsMatch;
    SmallIndicesFit(base, |msgs|);
    EmittedParsed(msgs, base, |msgs|);
    EmittedHashes(msgs, base, |msgs|);
    ParsedSlots(Emitted(msgs, base, |msgs|));
    forall i | 0 <= i < |msgs| ensures ToInt32(EmittedIndex(base, i)) == base + i {
      FitsInt32(EmittedIndex(base, i));
    }
  }

  /** What slot `i` holds of a tx result the chain produced. */
  function ChainSlot(msgs: seq<Msg>, base: nat, outcomes: seq<Outcome>, code: uint32, i: nat): ParsedTx
    requires AllEth(msgs) && i < |msgs| == |outcomes| && base + |msgs| <= TWO_31
  {
    if code != 0 then ParsedTx(i, msgs[i].hash, base + i, msgs[i].gas, true)
    else if LastWithHash(msgs, i) then FilledSlotOf(msgs, base, outcomes, i)
    else ParsedTx(i, msgs[i].hash, base + i, 0, false)
  }

  /**
   Every result the chain produces, for any messages, base, outcomes and code: it is accepted exactly if all
   indices fit an int32, and then slot i is that of message i, with the eth tx index base + i.
   */
  lemma ChainResultParsed(msgs: seq<Msg>, base: uint64, outcomes: seq<Outcome>, code: uint32)
    requires AllEth(msgs) && |msgs| == |outcomes|
    ensures var r := Parse(code, TxEvents(msgs, base, outcomes, code), Some(msgs));
            && (r.Parsed? <==> msgs == [] || base + |msgs| <= TWO_31)
            && (r.Parsed? ==> |r.p.txs| == |msgs|)
            && (r.Parsed? && msgs != [] ==>
                  forall i :: 0 <= i < |msgs| ==> r.p.txs[i] == ChainSlot(msgs, base, outcomes, code, i))
  {
    hide ParseEvents, Emitted, Executed, ChargeGasLimits, SlotAfter, ChainSlot;
    IndicesFitIff(base, |msgs|);
    EmittedParsed(msgs, base, |msgs|);
    var before, events := Emitted(msgs, base, |msgs|), TxEvents(msgs, base, outcomes, code);
    assert events[..|before|] == before;
    PrefixFails(events, |before|);
    if msgs == [] {
      NoMessages(base, outcomes, code);
    } else if base + |msgs| <= TWO_31 {
      if code == 0 {
        ExecutionParsed(msgs, base, outcomes, |msgs|);
        forall i | 0 <= i < |msgs|
          ensures SlotAfter(msgs, base, outcomes, |msgs|, i) == ChainSlot(msgs, base, outcomes, code, i)
        {
          AllExecuted(msgs, base, outcomes, i);
        }
      } else {
        assert events == before;
        FailedResult(msgs, base, outcomes, code);
      }
    }
  }

  lemma NoMessages(base: uint64, outcomes: seq<Outcome>, code: uint32)
    requires outcomes == []
    ensures Parse(code, TxEvents([], base, outcomes, code), Some([])) == Parsed(NO_TXS)
  {
  }

  lemma AllExecuted(msgs: seq<Msg>, base: nat, outcomes: seq<Outcome>, i: nat)
    requires AllEth(msgs) && i < |msgs| == |outcomes| && base + |msgs| <= TWO_31
    ensures SlotAfter(msgs, base, outcomes, |msgs|, i) == ChainSlot(msgs, base, outcomes, 0, i)
  {
  }

  lemma FailedResult(msgs: seq<Msg>, base: uint64, outcomes: seq<Outcome>, code: uint32)
    requires AllEth(msgs) && |msgs| == |outcomes| && base + |msgs| <= TWO_31 && code != 0
    ensures var r := Parse(code, Emitted(msgs, base, |msgs|), Some(msgs));
            && r.Parsed? && |r.p.txs| == |msgs|
            && forall i :: 0 <= i < |msgs| ==> r.p.txs[i] == ChainSlot(msgs, base, outcomes, code, i)
  {
    hide ParseEvents, Emitted, ChargeGasLimits, SlotsMatch, LastBefore;
    NothingExecuted(msgs, base, outcomes);
    var p := ParseEvents(Emitted(msgs, base, |msgs|)).value;
    ChargeSucceeds(p, msgs, 0);
    ChargedSlots(p, msgs, 0);
    var p' := ChargeGasLimits(p, msgs, 0).p;
    forall i | 0 <= i < |msgs| ensures p'.txs[i] == ChainSlot(msgs, base, outcomes, code, i) {
      assert Charged(p'.txs, p.txs, msgs, i);
      NoneBefore(msgs, base, outcomes, i);
    }
  }

  lemma NoneBefore(msgs: seq<Msg>, base: nat, outcomes: seq<Outcome>, i: nat)
    requires AllEth(msgs) && i < |msgs| == |outcomes| && base + |msgs| <= TWO_31
    ensures SlotAfter(msgs, base, outcomes, 0, i) == ParsedTx(i, msgs[i].hash, base + i, 0, false)
  {
  }

  lemma {:induction false} ChargeSucceeds(p: ParsedTxs, msgs: seq<Msg>, i: nat)
    requires AllEth(msgs) && i <= |p.txs| <= |msgs|
    ensures ChargeGasLimits(p, msgs, i).Parsed?
    decreases |p.txs| - i
  {
    if i < |p.txs| {
      ChargeSucceeds(p.(txs := p.txs[i := p.txs[i].(failed := true, gasUsed := msgs[i].gas)]), msgs, i + 1);
    }
  }

  /** In every result the chain produces, eth tx index base + i finds the slot of message i, and no other index finds one. */
  lemma LookupByTxIndex(msgs: seq<Msg>, base: uint64, outcomes: seq<Outcome>, code: uint32, i: int)
    requires AllEth(msgs) && |msgs| == |outcomes| && base + |msgs| <= TWO_31
    ensures var r := Parse(code, TxEvents(msgs, base, outcomes, code), Some(msgs));
            && r.Parsed?
            && GetTxByTxIndex(r.p, base + i)
            == if 0 <= i < |msgs| then Some(ChainSlot(msgs, base, outcomes, code, i)) else None
  {
    hide Parse, TxEvents, LastBefore;
    ChainResultParsed(msgs, base, outcomes, code);
  }

  // ----- the message index of a record -----

  /** No pending event stands between slot `i`'s own and the last committed event that fills it. */
  ghost predicate CommittedInTurn(events: seq<Event>, i: nat) {
    match LastFill(events, |events|, i)
    case None => true
    case Some(k) => |PendingHashes(events[..k])| == i + 1
  }

  /** Overwriting the slots of a failed tx leaves the message indices. */
  lemma MsgIndicesKept(code: uint32, events: seq<Event>, tx: Option<seq<Msg>>, i: nat)
    requires Parse(code, events, tx).Parsed? && i < |PendingHashes(events)|
    ensures var p, p' := ParseEvents(events).value, Parse(code, events, tx).p;
            |p.txs| == |p'.txs| == |PendingHashes(events)| && p'.txs[i].msgIndex == p.txs[i].msgIndex
  {
    hide ParseEvents, ChargeGasLimits;
    ParsedSlots(events);
    if code != 0 && tx.Some? {
      var p := ParseEvents(events).value;
      ChargedSlots(p, tx.value, 0);
      assert Charged(Parse(code, events, tx).p.txs, p.txs, tx.value, i);
    }
  }

  /** The message index of slot `i` is the number of the pending events before the event that filled it, less one. */
  lemma MsgIndexOfSlot(code: uint32, events: seq<Event>, tx: Option<seq<Msg>>, i: nat)
    requires Parse(code, events, tx).Parsed? && i < |PendingHashes(events)|
    ensures |Parse(code, events, tx).p.txs| == |PendingHashes(events)|
    ensures var m := Parse(code, events, tx).p.txs[i].msgIndex;
            match LastFill(events, |events|, i)
            case None => m == i
            case Some(k) => m == |PendingHashes(events[..k])| - 1 && i <= m < |PendingHashes(events)|
  {
    hide ParseEvents, LastFill, Parse;
    MsgIndicesKept(code, events, tx, i);
    ParsedIfAccepted(code, events, tx);
    SlotsMeanEvents(events, i);
    var r := LastFill(events, |events|, i);
    if r.Some? {
      PendingHashesGrow(events, r.value);
      CommittedFields(events[r.value].body.value, |PendingHashes(events[..r.value])| - 1);
    }
  }

  lemma ParsedIfAccepted(code: uint32, events: seq<Event>, tx: Option<seq<Msg>>)
    requires Parse(code, events, tx).Parsed?
    ensures ParseEvents(events).Some?
  {
  }

  /**
   Of every accepted result, failed or not: the record built on demand for slot `i` carries message index `i`
   exactly when the message was committed before the next one was pending, and its cumulative gas is that of
   the slots up to the index it carries.
   */
  lemma IndexerResultInTurn(code: uint32, events: seq<Event>, tx: Option<seq<Msg>>, i: nat, height: int64, txIndex: uint32)
    requires Parse(code, events, tx).Parsed?
    requires i < |PendingHashes(events)| <= TWO_32
    ensures i < |Parse(code, events, tx).p.txs|
    ensures var p := Parse(code, events, tx).p;
            var r := IndexerResult(height, txIndex, p, p.txs[i]);
            && (r.msgIndex == i <==> CommittedInTurn(events, i))
            && i <= r.msgIndex < |p.txs| && r.cumulativeGasUsed == Accumulated(p, r.msgIndex)
  {
    hide Parse, LastFill, Accumulated;
    MsgIndexOfSlot(code, events, tx, i);
    Uint32Exact(Parse(code, events, tx).p.txs[i].msgIndex);
  }

  lemma Uint32Exact(x: int)
    ensures 0 <= x < TWO_32 ==> ToUint32(x) == x
  {
  }

  // ----- batches -----

  /** Every committed event comes after all pending ones, as in any result the chain produces. */
  ghost predicate PendingFirst(events: seq<Event>) {
    forall k :: 0 <= k < |events| && events[k].EthereumTx? ==> PendingHashes(events[..k]) == PendingHashes(events)
  }

  predicate HasCommitted(events: seq<Event>, h: Hash) {
    exists k :: 0 <= k < |events| && events[k].EthereumTx? && events[k].body.Some? && events[k].body.value.hash == h
  }

  /** Slot `i` is the last of its hash, and there is a committed event with that hash. */
  ghost predicate Overwritten(events: seq<Event>, i: nat)
    requires i < |PendingHashes(events)|
  {
    var hs := PendingHashes(events);
    IsLast(hs, hs[i], i) && HasCommitted(events, hs[i])
  }

  lemma OverwrittenIsFilled(events: seq<Event>, i: nat)
    requires PendingFirst(events) && i < |PendingHashes(events)|
    ensures Overwritten(events, i) <==> LastFill(events, |events|, i).Some?
  {
    hide PendingHashes, LastFill;
    var hs := PendingHashes(events);
    if Overwritten(events, i) {
      var k :| 0 <= k < |events| && events[k].EthereumTx? && events[k].body.Some? && events[k].body.value.hash == hs[i];
      assert Fills(events, k, i);
    }
    var r := LastFill(events, |events|, i);
    if r.Some? {
      assert Fills(events, r.value, i);
      assert events[r.value].body.value.hash == hs[i];
    }
  }

  /**
   In a batch whose messages are all pending before one is committed, the record of message `i` is numbered
   right exactly if it is the last one or its slot was not overwritten.  Every other record carries the index
   and the cumulative gas of the last message, and that gas is right exactly if the messages after it used a
   multiple of 2^64 gas together.
   */
  lemma BatchMisnumbered(code: uint32, events: seq<Event>, tx: Option<seq<Msg>>, i: nat, height: int64, txIndex: uint32)
    requires Parse(code, events, tx).Parsed? && PendingFirst(events)
    requires i < |PendingHashes(events)| <= TWO_32
    ensures |Parse(code, events, tx).p.txs| == |PendingHashes(events)|
    ensures var p, n := Parse(code, events, tx).p, |PendingHashes(events)|;
            var r := IndexerResult(height, txIndex, p, p.txs[i]);
            var right := i == n - 1 || !Overwritten(events, i);
            && (r.msgIndex == i <==> right)
            && r.msgIndex == (if right then i else n - 1)
            && r.cumulativeGasUsed == Accumulated(p, if right then i else n - 1)
            && (!right ==>
                  (r.cumulativeGasUsed == Accumulated(p, i) <==> (GasSum(p.txs, n) - GasSum(p.txs, i + 1)) % TWO_64 == 0))
  {
    hide Parse, LastFill, PendingHashes, GasSum, Overwritten;
    MsgIndexOfSlot(code, events, tx, i);
    OverwrittenIsFilled(events, i);
    var p := Parse(code, events, tx).p;
    Uint32Exact(p.txs[i].msgIndex);
    SameRemainder(GasSum(p.txs, |p.txs|), GasSum(p.txs, i + 1));
  }

  lemma SameRemainder(a: int, b: int)
    ensures a % TWO_64 == b % TWO_64 <==> (a - b) % TWO_64 == 0
  {
  }

  /** The chain's events are such a batch, whatever execution emits. */
  lemma {:induction false} ChainPendingFirst(before: seq<Event>, rest: seq<Event>)
    requires NoCommitted(before) && NoPending(rest)
    ensures PendingFirst(before + rest) && PendingHashes(before + rest) == PendingHashes(before)
  {
    hide PendingOf;
    if rest == [] {
      assert before + rest == before;
    } else {
      var events, k := before + rest, |rest| - 1;
      assert events[..|events| - 1] == before + rest[..k];
      ChainPendingFirst(before, rest[..k]);
      forall j | 0 <= j < |events| && events[j].EthereumTx? ensures PendingHashes(events[..j]) == PendingHashes(events) {
        if j < |events| - 1 {
          assert events[..|events| - 1][..j] == events[..j];
          assert events[..|events| - 1][j] == events[j];
        }
      }
    }
  }

  predicate NoCommitted(events: seq<Event>) { forall i :: 0 <= i < |events| ==> !events[i].EthereumTx? }

  lemma {:induction false} EmittedNoCommitted(msgs: seq<Msg>, base: uint64, n: nat)
    requires n <= |msgs| && AllEth(msgs)
    ensures NoCommitted(Emitted(msgs, base, n))
  {
    if n > 0 {
      EmittedNoCommitted(msgs, base, n - 1);
    }
  }

  lemma {:induction false} ExecutedNoPending(msgs: seq<Msg>, base: uint64, outcomes: seq<Outcome>, n: nat)
    requires AllEth(msgs) && n <= |msgs| == |outcomes|
    ensures NoPending(Executed(msgs, base, outcomes, n))
  {
    hide ExecutedEvent, EmittedIndex;
    if n > 0 {
      ExecutedNoPending(msgs, base, outcomes, n - 1);
      OthersNoPending(outcomes[n - 1].before);
      OthersNoPending(outcomes[n - 1].after);
      ExecutedIsCommitted(msgs[n - 1].hash, EmittedIndex(base, n - 1), outcomes[n - 1]);
    }
  }

  lemma {:induction false} OthersNoPending(n: nat)
    ensures NoPending(Others(n))
  {
    if n > 0 {
      OthersNoPending(n - 1);
    }
  }

  lemma ExecutedIsCommitted(hash: Hash, index: uint64, o: Outcome)
    ensures ExecutedEvent(hash, index, o).EthereumTx?
  {
  }

  lemma ChainEventsPendingFirst(msgs: seq<Msg>, base: uint64, outcomes: seq<Outcome>, code: uint32)
    requires AllEth(msgs) && |msgs| == |outcomes|
    ensures PendingFirst(TxEvents(msgs, base, outcomes, code))
  {
    hide Emitted, Executed, PendingFirst;
    EmittedNoCommitted(msgs, base, |msgs|);
    ExecutedNoPending(msgs, base, outcomes, |msgs|);
    ChainPendingFirst(Emitted(msgs, base, |msgs|), if code == 0 then Executed(msgs, base, outcomes, |msgs|) else []);
  }

  /**
   The record of message `i` of every executed batch, unless a later message has its hash: its own gas, outcome
   and eth tx index, but the message index and the cumulative gas of the last message.
   */
  lemma ExecutedRecord(msgs: seq<Msg>, base: uint64, outcomes: seq<Outcome>, i: nat, height: int64, txIndex: uint32)
    requires AllEth(msgs) && |msgs| == |outcomes| && base + |msgs| <= TWO_31
    requires i < |msgs| && LastWithHash(msgs, i)
    ensures var r := Parse(0, TxEvents(msgs, base, outcomes, 0), Some(msgs));
            && r.Parsed? && |r.p.txs| == |msgs|
            && IndexerResult(height, txIndex, r.p, r.p.txs[i])
            == TxResult(height, txIndex, |msgs| - 1, base + i, outcomes[i].vmError != "", outcomes[i].gasUsed,
                        Accumulated(r.p, |msgs| - 1))
  {
    hide Parse, TxEvents, LastBefore, Accumulated;
    ChainResultParsed(msgs, base, outcomes, 0);
    Uint32Exact(|msgs| - 1);
  }
}
