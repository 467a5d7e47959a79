/**
 ParseTxResult and the lookups on its result (eth/rpc/events_parser.go), with the pending
 events the ante handler emits (app/evmante/evmante_emit_event.go) and their parser
 (x/evm/events.go).
 */
module EventsParser {
  import opened Bytes
  import opened Decimals
  import opened IndexKeys
  import opened TxResultCodec

  // ----- events -----

  /** An attribute of a pending event; the text of an `eth_hash` is taken as converted already. */
  datatype Attr = EthHashAttr(hash: Hash) | IndexAttr(text: string) | OtherAttr

  /** The typed event of an executed tx. */
  datatype Committed = Committed(hash: Hash, index: string, gasUsed: string, vmError: string)

  /** `body` is None when the typed event cannot be decoded. */
  datatype Event = Pending(attrs: seq<Attr>) | EthereumTx(body: Option<Committed>) | OtherEvent

  datatype Msg = EthMsg(hash: Hash, gas: uint64) | OtherMsg

  datatype PendingInfo = PendingInfo(hash: Hash, index: int32)

  /** The scan over the attributes, from index `i` on. */
  function ScanAttrs(attrs: seq<Attr>, i: nat, acc: PendingInfo): Option<PendingInfo>
    requires i <= |attrs|
    decreases |attrs| - i
  {
    if i == |attrs| then Some(acc)
    else
      match attrs[i]
      case EthHashAttr(h) => ScanAttrs(attrs, i + 1, acc.(hash := h))
      case IndexAttr(text) =>
        (match ParseInt(text, TWO_31)
         case None => None
         case Some(n) => ScanAttrs(attrs, i + 1, acc.(index := ToInt32(n))))
      case OtherAttr => ScanAttrs(attrs, i + 1, acc)
  }

  function PendingOf(attrs: seq<Attr>): Option<PendingInfo> {
    match ScanAttrs(attrs, 0, PendingInfo(ZERO_HASH, -1))
    case None => None
    case Some(p) => if p.index == -1 then None else Some(p)
  }

  /** Every index attribute from `i` on is a number of 32 bits. */
  predicate IndicesParse(attrs: seq<Attr>, i: nat) {
    forall j :: i <= j < |attrs| && attrs[j].IndexAttr? ==> ParseInt(attrs[j].text, TWO_31).Some?
  }

  /** The last index attribute stands at `k`. */
  predicate LastIndexAt(attrs: seq<Attr>, k: nat) {
    k < |attrs| && attrs[k].IndexAttr? && forall j :: k < j < |attrs| ==> !attrs[j].IndexAttr?
  }

  /** The last hash attribute stands at `k`. */
  predicate LastHashAt(attrs: seq<Attr>, k: nat) {
    k < |attrs| && attrs[k].EthHashAttr? && forall j :: k < j < |attrs| ==> !attrs[j].EthHashAttr?
  }

  predicate HasIndex(attrs: seq<Attr>, i: nat) { exists j :: i <= j < |attrs| && attrs[j].IndexAttr? }

  predicate HasHash(attrs: seq<Attr>, i: nat) { exists j :: i <= j < |attrs| && attrs[j].EthHashAttr? }

  lemma {:induction false} ScannedIndex(attrs: seq<Attr>, i: nat, acc: PendingInfo)
    requires i <= |attrs|
    ensures var r := ScanAttrs(attrs, i, acc);
            && (r.Some? <==> IndicesParse(attrs, i))
            && (r.Some? ==>
                  forall k :: i <= k && LastIndexAt(attrs, k) ==> ParseInt(attrs[k].text, TWO_31) == Some(r.value.index))
            && (r.Some? && !HasIndex(attrs, i) ==> r.value.index == acc.index)
    decreases |attrs| - i
  {
    hide ParseInt, ToInt32;
    if i < |attrs| {
      match attrs[i]
      case EthHashAttr(h) => ScannedIndex(attrs, i + 1, acc.(hash := h));
      case IndexAttr(text) =>
        var n := ParseInt(text, TWO_31);
        if n.Some? {
          ParsedFits(text);
          ScannedIndex(attrs, i + 1, acc.(index := ToInt32(n.value)));
        }
      case OtherAttr => ScannedIndex(attrs, i + 1, acc);
    }
  }

  lemma {:induction false} ScannedHash(attrs: seq<Attr>, i: nat, acc: PendingInfo)
    requires i <= |attrs| && ScanAttrs(attrs, i, acc).Some?
    ensures var r := ScanAttrs(attrs, i, acc);
            && (forall k :: i <= k && LastHashAt(attrs, k) ==> attrs[k].hash == r.value.hash)
            && (!HasHash(attrs, i) ==> r.value.hash == acc.hash)
    decreases |attrs| - i
  {
    hide ParseInt, ToInt32;
    if i < |attrs| {
      match attrs[i]
      case EthHashAttr(h) => ScannedHash(attrs, i + 1, acc.(hash := h));
      case IndexAttr(text) => ScannedHash(attrs, i + 1, acc.(index := ToInt32(ParseInt(text, TWO_31).value)));
      case OtherAttr => ScannedHash(attrs, i + 1, acc);
    }
  }

  lemma ParsedFits(text: string)
    requires ParseInt(text, TWO_31).Some?
    ensures ToInt32(ParseInt(text, TWO_31).value) == ParseInt(text, TWO_31).value
  {
  }

  lemma {:induction false} LastIndexExists(attrs: seq<Attr>, i: nat) returns (k: nat)
    requires HasIndex(attrs, i)
    ensures i <= k && LastIndexAt(attrs, k)
    decreases |attrs| - i
  {
    if HasIndex(attrs, i + 1) {
      k := LastIndexExists(attrs, i + 1);
    } else {
      k := i;
    }
  }

  /**
   What a pending event says: it is understood exactly if every index attribute is a number of 32 bits, there
   is one, and the last is not -1; then the last index and the last hash count, the zero hash if there is none.
   */
  ghost predicate SaysPending(attrs: seq<Attr>, r: Option<PendingInfo>) {
    && (r.Some? <==>
          IndicesParse(attrs, 0) && exists k: nat :: LastIndexAt(attrs, k) && ParseInt(attrs[k].text, TWO_31) != Some(-1))
    && (r.Some? ==> forall k: nat :: LastIndexAt(attrs, k) ==> ParseInt(attrs[k].text, TWO_31) == Some(r.value.index))
    && (r.Some? ==> forall k: nat :: LastHashAt(attrs, k) ==> r.value.hash == attrs[k].hash)
    && (r.Some? && !HasHash(attrs, 0) ==> r.value.hash == ZERO_HASH)
  }

  lemma PendingMeaning(attrs: seq<Attr>)
    ensures SaysPending(attrs, PendingOf(attrs))
  {
    hide ParseInt, ScanAttrs, LastIndexAt, LastHashAt, IndicesParse, HasIndex, HasHash;
    var start := PendingInfo(ZERO_HASH, -1);
    ScannedIndex(attrs, 0, start);
    if ScanAttrs(attrs, 0, start).Some? {
      ScannedHash(attrs, 0, start);
    }
    if HasIndex(attrs, 0) {
      var k := LastIndexExists(attrs, 0);
    } else {
      forall k: nat ensures !LastIndexAt(attrs, k) {
        NoLastIndex(attrs, k);
      }
    }
  }

  lemma NoLastIndex(attrs: seq<Attr>, k: nat)
    requires !HasIndex(attrs, 0)
    ensures !LastIndexAt(attrs, k)
  {
  }

  /** GetEthHashAndIndexFromPendingEthereumTxEvent */
  method ParsePendingEvent(attrs: seq<Attr>) returns (r: Option<PendingInfo>)
    ensures SaysPending(attrs, r)
    ensures r == PendingOf(attrs)
  {
    hide SaysPending;
    PendingMeaning(attrs);
    var ethHash: Hash, txIndex: int32 := ZERO_HASH, -1;
    for i := 0 to |attrs|
      invariant ScanAttrs(attrs, 0, PendingInfo(ZERO_HASH, -1)) == ScanAttrs(attrs, i, PendingInfo(ethHash, txIndex))
    {
      match attrs[i]
      case EthHashAttr(h) => ethHash := h;
      case IndexAttr(text) =>
        var parsed := ParseInt(text, TWO_31);
        if parsed == None { return None; }
        txIndex := ToInt32(parsed.value);
      case OtherAttr =>
    }
    if txIndex == -1 { return None; }
    return Some(PendingInfo(ethHash, txIndex));
  }

  // ----- parsing a tx result -----

  datatype ParsedTx = ParsedTx(msgIndex: int, ethHash: Hash, ethTxIndex: int32, gasUsed: uint64, failed: bool)

  datatype ParsedTxs = ParsedTxs(txs: seq<ParsedTx>, txHashes: map<Hash, nat>)

  const NO_TXS := ParsedTxs([], map[])

  /** The record a committed event stands for, when it is the `msgIndex`-th pending tx so far. */
  function CommittedTx(c: Committed, msgIndex: int): Option<ParsedTx> {
    match ParseUint(c.index, TWO_31)
    case None => None
    case Some(index) =>
      match ParseUint(c.gasUsed, TWO_64)
      case None => None
      case Some(gas) => Some(ParsedTx(msgIndex, c.hash, ToInt32(index), ToUint64(gas), |c.vmError| > 0))
  }

  function AddEvent(p: ParsedTxs, e: Event): Option<ParsedTxs> {
    var n := |p.txs|;
    match e
    case Pending(attrs) =>
      (match PendingOf(attrs)
       case None => None
       case Some(info) =>
         Some(ParsedTxs(p.txs + [ParsedTx(n, info.hash, info.index, 0, false)], p.txHashes[info.hash := n])))
    case EthereumTx(None) => None
    case EthereumTx(Some(c)) =>
      (match CommittedTx(c, n - 1)
       case None => None
       case Some(tx) =>
         if c.hash in p.txHashes && p.txHashes[c.hash] < n
         then Some(p.(txs := p.txs[p.txHashes[c.hash] := tx]))
         else None)
    case OtherEvent => Some(p)
  }

  function ParseEvents(events: seq<Event>): Option<ParsedTxs> {
    if events == [] then Some(NO_TXS)
    else
      match ParseEvents(events[..|events| - 1])
      case None => None
      case Some(p) => AddEvent(p, events[|events| - 1])
  }

  datatype ParseOutcome = Parsed(p: ParsedTxs) | ParseFailed | ParsePanicked

  /** The overwriting of every slot from `i` on when the tx failed; an index past the messages panics. */
  function ChargeGasLimits(p: ParsedTxs, msgs: seq<Msg>, i: nat): ParseOutcome
    requires i <= |p.txs|
    decreases |p.txs| - i
  {
    if i == |p.txs| then Parsed(p)
    else if i >= |msgs| then ParsePanicked
    else if msgs[i].OtherMsg? then ParseFailed
    else ChargeGasLimits(p.(txs := p.txs[i := p.txs[i].(failed := true, gasUsed := msgs[i].gas)]), msgs, i + 1)
  }

  /** `tx` is None where the source is given no tx. */
  function Parse(code: uint32, events: seq<Event>, tx: Option<seq<Msg>>): ParseOutcome {
    match ParseEvents(events)
    case None => ParseFailed
    case Some(p) => if code != 0 && tx.Some? then ChargeGasLimits(p, tx.value, 0) else Parsed(p)
  }

  predicate InRange(p: ParsedTxs) {
    forall h :: h in p.txHashes ==> p.txHashes[h] < |p.txs|
  }

  lemma {:induction false} HashesInRange(events: seq<Event>)
    requires ParseEvents(events).Some?
    ensures InRange(ParseEvents(events).value)
  {
    if events != [] {
      HashesInRange(events[..|events| - 1]);
    }
  }

  method ParseTxResult(code: uint32, events: seq<Event>, tx: Option<seq<Msg>>) returns (r: ParseOutcome)
    ensures r == Parse(code, events, tx)
  {
    var txs: seq<ParsedTx>, txHashes: map<Hash, nat> := [], map[];
    var msgIndex := -1;
    for i := 0 to |events|
      invariant ParseEvents(events[..i]) == Some(ParsedTxs(txs, txHashes))
      invariant msgIndex == |txs| - 1
    {
      assert events[..i + 1][..i] == events[..i];
      PrefixFails(events, i + 1);
      HashesInRange(events[..i]);
      match events[i]
      case Pending(attrs) =>
        msgIndex := msgIndex + 1;
        var info := ParsePendingEvent(attrs);
        if info == None { return ParseFailed; }
        txs := txs + [ParsedTx(msgIndex, info.value.hash, info.value.index, 0, false)];
        txHashes := txHashes[info.value.hash := msgIndex];
      case EthereumTx(body) =>
        if body == None { return ParseFailed; }
        var committed := CommittedTx(body.value, msgIndex);
        if committed == None { return ParseFailed; }
        if committed.value.ethHash !in txHashes { return ParseFailed; }
        txs := txs[txHashes[committed.value.ethHash] := committed.value];
      case OtherEvent =>
    }
    assert events[..|events|] == events;
    if code != 0 && tx.Some? {
      ghost var start := ParsedTxs(txs, txHashes);
      var msgs := tx.value;
      var i := 0;
      while i < |txs|
        invariant i <= |txs|
        invariant ChargeGasLimits(start, msgs, 0) == ChargeGasLimits(ParsedTxs(txs, txHashes), msgs, i)
      {
        if i >= |msgs| { return ParsePanicked; }
        if msgs[i].OtherMsg? { return ParseFailed; }
        txs := txs[i := txs[i].(failed := true, gasUsed := msgs[i].gas)];
        i := i + 1;
      }
    }
    return Parsed(ParsedTxs(txs, txHashes));
  }

  /** A rejected prefix stays rejected. */
  lemma {:induction false} PrefixFails(events: seq<Event>, k: nat)
    requires k <= |events|
    ensures ParseEvents(events[..k]) == None ==> ParseEvents(events) == None
    decreases |events|
  {
    if k < |events| {
      var prefix := events[..|events| - 1];
      assert prefix[..k] == events[..k];
      PrefixFails(prefix, k);
    } else {
      assert events[..k] == events;
    }
  }

  // ----- lookups -----

  function GetTxByHash(p: ParsedTxs, hash: Hash): Option<ParsedTx>
    requires hash in p.txHashes ==> p.txHashes[hash] < |p.txs|
  {
    if hash in p.txHashes then Some(p.txs[p.txHashes[hash]]) else None
  }

  function GetTxByMsgIndex(p: ParsedTxs, i: int): Option<ParsedTx> {
    if i < 0 || i >= |p.txs| then None else Some(p.txs[i])
  }

  function GetTxByTxIndex(p: ParsedTxs, txIndex: int): Option<ParsedTx> {
    if |p.txs| == 0 then None else GetTxByMsgIndex(p, txIndex - p.txs[0].ethTxIndex)
  }

  /** Gas used by the first `n` entries. */
  function GasSum(txs: seq<ParsedTx>, n: nat): nat
    requires n <= |txs|
  {
    if n == 0 then 0 else GasSum(txs, n - 1) + txs[n - 1].gasUsed
  }

  method AccumulativeGasUsed(p: ParsedTxs, msgIndex: int) returns (result: uint64)
    ensures result == Accumulated(p, msgIndex)
  {
    if msgIndex < 0 || msgIndex >= |p.txs| { return 0; }
    result := 0;
    for i := 0 to msgIndex + 1
      invariant result == GasSum(p.txs, i) % TWO_64
    {
      result := (result + p.txs[i].gasUsed) % TWO_64;
    }
  }

  function Accumulated(p: ParsedTxs, msgIndex: int): uint64 {
    if msgIndex < 0 || msgIndex >= |p.txs| then 0 else GasSum(p.txs, msgIndex + 1) % TWO_64
  }

  /** From one slot to the next the accumulated gas grows by the gas of that slot, modulo 2^64; outside it is 0. */
  lemma AccumulatedGrows(p: ParsedTxs, i: int)
    ensures 0 <= i < |p.txs| ==> Accumulated(p, i) == (Accumulated(p, i - 1) + p.txs[i].gasUsed) % TWO_64
    ensures !(0 <= i < |p.txs|) ==> Accumulated(p, i) == 0
  {
    if 0 <= i < |p.txs| {
      assert GasSum(p.txs, i + 1) == GasSum(p.txs, i) + p.txs[i].gasUsed;
      assert GasSum(p.txs, 0) == 0;
    }
  }

  /** ParseTxIndexerResult, for the entry the getter has picked. */
  function IndexerResult(height: int64, txIndex: uint32, p: ParsedTxs, tx: ParsedTx): TxResult {
    TxResult(height, txIndex, ToUint32(tx.msgIndex), tx.ethTxIndex, tx.failed, tx.gasUsed, Accumulated(p, tx.msgIndex))
  }

  // ----- what the slots hold -----

  /** The hashes of the pending events, in order. */
  function PendingHashes(events: seq<Event>): seq<Hash> {
    if events == [] then []
    else
      var before := PendingHashes(events[..|events| - 1]);
      var e := events[|events| - 1];
      if e.Pending? && PendingOf(e.attrs).Some? then before + [PendingOf(e.attrs).value.hash] else before
  }

  /** `k` is the last place of `h` in `hs`. */
  ghost predicate IsLast(hs: seq<Hash>, h: Hash, k: nat) {
    k < |hs| && hs[k] == h && forall j :: k < j < |hs| ==> hs[j] != h
  }

  /** Slot i has the hash of the i-th pending event; the map holds exactly the pending hashes, each at its last slot. */
  ghost predicate SlotsMatch(p: ParsedTxs, hs: seq<Hash>) {
    && |p.txs| == |hs|
    && (forall i :: 0 <= i < |hs| ==> p.txs[i].ethHash == hs[i])
    && (forall h :: h in p.txHashes <==> h in hs)
    && (forall h :: h in p.txHashes ==> IsLast(hs, h, p.txHashes[h]))
  }

  lemma CommittedFields(c: Committed, msgIndex: int)
    requires CommittedTx(c, msgIndex).Some?
    ensures CommittedTx(c, msgIndex).value.ethHash == c.hash && CommittedTx(c, msgIndex).value.msgIndex == msgIndex
    ensures ParseUint(c.index, TWO_31).Some?
    ensures CommittedTx(c, msgIndex).value.ethTxIndex == ToInt32(ParseUint(c.index, TWO_31).value)
  {
    hide ParseUint, ToInt32, ToUint64;
  }

  lemma PendingKeepsMatch(p: ParsedTxs, hs: seq<Hash>, tx: ParsedTx)
    requires SlotsMatch(p, hs)
    ensures SlotsMatch(ParsedTxs(p.txs + [tx], p.txHashes[tx.ethHash := |p.txs|]), hs + [tx.ethHash])
  {
    var p' := ParsedTxs(p.txs + [tx], p.txHashes[tx.ethHash := |p.txs|]);
    var hs' := hs + [tx.ethHash];
    forall h | h in p'.txHashes ensures IsLast(hs', h, p'.txHashes[h]) {
      assert h == tx.ethHash || IsLast(hs, h, p.txHashes[h]);
    }
  }

  lemma CommittedKeepsMatch(p: ParsedTxs, hs: seq<Hash>, tx: ParsedTx)
    requires SlotsMatch(p, hs) && tx.ethHash in p.txHashes
    ensures p.txHashes[tx.ethHash] < |p.txs|
    ensures SlotsMatch(p.(txs := p.txs[p.txHashes[tx.ethHash] := tx]), hs)
  {
    assert IsLast(hs, tx.ethHash, p.txHashes[tx.ethHash]);
  }

  lemma {:induction false} ParsedSlots(events: seq<Event>)
    requires ParseEvents(events).Some?
    ensures SlotsMatch(ParseEvents(events).value, PendingHashes(events))
  {
    hide SlotsMatch, PendingOf, CommittedTx;
    if events == [] {
      NothingMatches();
    } else {
      var before, e := events[..|events| - 1], events[|events| - 1];
      ParsedSlots(before);
      var p, hs := ParseEvents(before).value, PendingHashes(before);
      match e
      case Pending(attrs) =>
        var info := PendingOf(attrs).value;
        PendingKeepsMatch(p, hs, ParsedTx(|p.txs|, info.hash, info.index, 0, false));
      case EthereumTx(body) =>
        CommittedFields(body.value, |p.txs| - 1);
        CommittedKeepsMatch(p, hs, CommittedTx(body.value, |p.txs| - 1).value);
      case OtherEvent =>
    }
  }

  lemma NothingMatches()
    ensures SlotsMatch(NO_TXS, [])
  {
  }

  predicate Charged(after: seq<ParsedTx>, before: seq<ParsedTx>, msgs: seq<Msg>, j: nat)
    requires j < |before| == |after|
  {
    j < |msgs| && msgs[j].EthMsg? && after[j] == before[j].(failed := true, gasUsed := msgs[j].gas)
  }

  lemma {:induction false} ChargedSlots(p: ParsedTxs, msgs: seq<Msg>, i: nat)
    requires i <= |p.txs| && ChargeGasLimits(p, msgs, i).Parsed?
    ensures var p' := ChargeGasLimits(p, msgs, i).p;
            && |p'.txs| == |p.txs| && p'.txHashes == p.txHashes
            && (forall j :: 0 <= j < i ==> p'.txs[j] == p.txs[j])
            && (forall j :: i <= j < |p.txs| ==> Charged(p'.txs, p.txs, msgs, j))
    decreases |p.txs| - i
  {
    if i < |p.txs| {
      var p1 := p.(txs := p.txs[i := p.txs[i].(failed := true, gasUsed := msgs[i].gas)]);
      ChargedSlots(p1, msgs, i + 1);
      var p' := ChargeGasLimits(p, msgs, i).p;
      assert p'.txs[i] == p1.txs[i];
      forall j | i <= j < |p.txs| ensures Charged(p'.txs, p.txs, msgs, j) {
        assert j > i ==> Charged(p'.txs, p1.txs, msgs, j);
      }
    }
  }

  /** For every result ParseTxResult accepts, whatever the code. */
  lemma SlotsHoldPendingHashes(code: uint32, events: seq<Event>, tx: Option<seq<Msg>>)
    requires Parse(code, events, tx).Parsed?
    ensures SlotsMatch(Parse(code, events, tx).p, PendingHashes(events))
  {
    ParsedSlots(events);
    if code != 0 && tx.Some? {
      var before, after := ParseEvents(events).value, Parse(code, events, tx).p;
      ChargedSlots(before, tx.value, 0);
      forall i | 0 <= i < |after.txs| ensures after.txs[i].ethHash == before.txs[i].ethHash {
        assert Charged(after.txs, before.txs, tx.value, i);
      }
    }
  }

  /** A hash finds a slot exactly if it is pending, and the slot has that hash. */
  lemma FoundIffPending(code: uint32, events: seq<Event>, tx: Option<seq<Msg>>, hash: Hash)
    requires Parse(code, events, tx).Parsed?
    ensures var p := Parse(code, events, tx).p;
            && (hash in p.txHashes ==> p.txHashes[hash] < |p.txs|)
            && (GetTxByHash(p, hash).Some? <==> hash in PendingHashes(events))
            && (GetTxByHash(p, hash).Some? ==> GetTxByHash(p, hash).value.ethHash == hash)
  {
    hide Parse;
    SlotsHoldPendingHashes(code, events, tx);
    var p := Parse(code, events, tx).p;
    if hash in p.txHashes {
      assert IsLast(PendingHashes(events), hash, p.txHashes[hash]);
    }
  }

  // ----- what a slot means -----

  /** Event `k` is a committed one, and of the pending events before it the `i`-th is the last with its hash. */
  ghost predicate Fills(events: seq<Event>, k: nat, i: nat) {
    && k < |events| && events[k].EthereumTx? && events[k].body.Some?
    && IsLast(PendingHashes(events[..k]), events[k].body.value.hash, i)
  }

  /** The last of the first `n` events that fills slot `i`. */
  ghost function LastFill(events: seq<Event>, n: nat, i: nat): (r: Option<nat>)
    requires n <= |events|
    ensures r.Some? ==> r.value < n && Fills(events, r.value, i)
    ensures r.Some? ==> forall k :: r.value < k < n ==> !Fills(events, k, i)
    ensures r.None? ==> forall k :: 0 <= k < n ==> !Fills(events, k, i)
  {
    if n == 0 then None else if Fills(events, n - 1, i) then Some(n - 1) else LastFill(events, n - 1, i)
  }

  /** The pending events that parse, in order. */
  function PendingInfos(events: seq<Event>): (infos: seq<PendingInfo>)
    ensures |infos| == |PendingHashes(events)|
    ensures forall i :: 0 <= i < |infos| ==> infos[i].hash == PendingHashes(events)[i]
  {
    if events == [] then []
    else
      var before := PendingInfos(events[..|events| - 1]);
      var e := events[|events| - 1];
      if e.Pending? && PendingOf(e.attrs).Some? then before + [PendingOf(e.attrs).value] else before
  }

  /**
   What slot `i` holds, said without the fold: the last committed event that fills it, numbered
   by the pending events in front of that event, or else the pending event itself.
   */
  ghost function SlotMeaning(events: seq<Event>, i: nat): Option<ParsedTx>
    requires i < |PendingHashes(events)|
  {
    match LastFill(events, |events|, i)
    case Some(k) => CommittedTx(events[k].body.value, |PendingHashes(events[..k])| - 1)
    case None => var info := PendingInfos(events)[i]; Some(ParsedTx(i, info.hash, info.index, 0, false))
  }

  lemma {:induction false} PendingHashesGrow(events: seq<Event>, k: nat)
    requires k <= |events|
    ensures PendingHashes(events[..k]) <= PendingHashes(events)
  {
    hide PendingOf;
    if k < |events| {
      assert events[..|events| - 1][..k] == events[..k];
      PendingHashesGrow(events[..|events| - 1], k);
    } else {
      assert events[..k] == events;
    }
  }

  lemma {:induction false} FillOfPrefix(events: seq<Event>, n: nat, i: nat)
    requires n < |events|
    ensures LastFill(events[..|events| - 1], n, i) == LastFill(events, n, i)
  {
    hide PendingHashes;
    if n > 0 {
      var before := events[..|events| - 1];
      assert before[..n - 1] == events[..n - 1];
      FillOfPrefix(events, n - 1, i);
    }
  }

  /** A slot that is not yet pending has not been filled. */
  lemma {:induction false} NotYetFilled(events: seq<Event>, n: nat, i: nat)
    requires n <= |events| && i >= |PendingHashes(events)|
    ensures LastFill(events, n, i) == None
  {
    hide PendingHashes;
    if n > 0 {
      NotYetFilled(events, n - 1, i);
      PendingHashesGrow(events, n - 1);
    }
  }

  /** The event at the end leaves the meaning of slot `i` as it was if it does not fill it. */
  lemma SameMeaning(events: seq<Event>, i: nat)
    requires events != [] && i < |PendingHashes(events[..|events| - 1])|
    requires !Fills(events, |events| - 1, i)
    ensures i < |PendingHashes(events)| && SlotMeaning(events, i) == SlotMeaning(events[..|events| - 1], i)
  {
    hide Fills, CommittedTx, PendingOf;
    var before := events[..|events| - 1];
    FillOfPrefix(events, |before|, i);
    var r := LastFill(before, |before|, i);
    if r.Some? {
      assert before[..r.value] == events[..r.value];
    }
  }

  /** An event that does not fill slot `i` leaves it alone. */
  lemma OtherSlotsKept(p: ParsedTxs, hs: seq<Hash>, e: Event, i: nat)
    requires SlotsMatch(p, hs) && i < |hs| && AddEvent(p, e).Some?
    requires !(e.EthereumTx? && e.body.Some? && IsLast(hs, e.body.value.hash, i))
    ensures i < |AddEvent(p, e).value.txs| && AddEvent(p, e).value.txs[i] == p.txs[i]
  {
    hide CommittedTx, PendingOf;
    if e.EthereumTx? {
      assert IsLast(hs, e.body.value.hash, p.txHashes[e.body.value.hash]);
    }
  }

  /** A committed event goes to the last slot with its hash. */
  lemma SlotFilled(p: ParsedTxs, hs: seq<Hash>, e: Event, i: nat)
    requires SlotsMatch(p, hs) && AddEvent(p, e).Some?
    requires e.EthereumTx? && e.body.Some? && IsLast(hs, e.body.value.hash, i)
    ensures i < |AddEvent(p, e).value.txs|
    ensures CommittedTx(e.body.value, |hs| - 1) == Some(AddEvent(p, e).value.txs[i])
  {
    hide CommittedTx, PendingOf;
    assert IsLast(hs, e.body.value.hash, p.txHashes[e.body.value.hash]);
  }

  /** A pending event adds a slot at the end. */
  lemma SlotAdded(p: ParsedTxs, hs: seq<Hash>, e: Event)
    requires SlotsMatch(p, hs) && AddEvent(p, e).Some? && e.Pending? && PendingOf(e.attrs).Some?
    ensures var info := PendingOf(e.attrs).value;
            && |hs| < |AddEvent(p, e).value.txs|
            && AddEvent(p, e).value.txs[|hs|] == ParsedTx(|hs|, info.hash, info.index, 0, false)
  {
    hide PendingOf;
  }

  /** Slot by slot, an accepted tx result means what its events say, whatever hashes repeat. */
  lemma {:induction false} SlotsMeanEvents(events: seq<Event>, i: nat)
    requires ParseEvents(events).Some? && i < |PendingHashes(events)|
    ensures SlotsMatch(ParseEvents(events).value, PendingHashes(events))
    ensures SlotMeaning(events, i) == Some(ParseEvents(events).value.txs[i])
  {
    hide CommittedTx, PendingOf, LastFill, SlotMeaning, AddEvent, IsLast;
    ParsedSlots(events);
    var before, e := events[..|events| - 1], events[|events| - 1];
    ParsedSlots(before);
    var p, hs := ParseEvents(before).value, PendingHashes(before);
    if i == |hs| {
      NewInfo(events);
      NewSlot(events);
      SlotAdded(p, hs, e);
    } else if Fills(events, |before|, i) {
      FilledSlot(events, i);
      SlotFilled(p, hs, e, i);
    } else {
      SlotsMeanEvents(before, i);
      SameMeaning(events, i);
      OtherSlotsKept(p, hs, e, i);
    }
  }

  lemma NewSlot(events: seq<Event>)
    requires events != [] && |PendingHashes(events)| > |PendingHashes(events[..|events| - 1])|
    ensures var i, info := |PendingHashes(events[..|events| - 1])|, PendingOf(events[|events| - 1].attrs).value;
            SlotMeaning(events, i) == Some(ParsedTx(i, info.hash, info.index, 0, false))
  {
    hide CommittedTx, PendingOf, PendingHashes, PendingInfos;
    var before := events[..|events| - 1];
    NewInfo(events);
    NotYetFilled(before, |before|, |PendingHashes(before)|);
    FillOfPrefix(events, |before|, |PendingHashes(before)|);
  }

  lemma NewInfo(events: seq<Event>)
    requires events != [] && |PendingHashes(events)| > |PendingHashes(events[..|events| - 1])|
    ensures var e := events[|events| - 1];
            && e.Pending? && PendingOf(e.attrs).Some?
            && PendingInfos(events)[|PendingHashes(events[..|events| - 1])|] == PendingOf(e.attrs).value
  {
    hide PendingOf;
  }

  lemma FilledSlot(events: seq<Event>, i: nat)
    requires events != [] && i < |PendingHashes(events)| && Fills(events, |events| - 1, i)
    ensures SlotMeaning(events, i)
         == CommittedTx(events[|events| - 1].body.value, |PendingHashes(events[..|events| - 1])| - 1)
  {
    hide CommittedTx, PendingHashes;
  }
}
