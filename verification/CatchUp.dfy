/**
 The catch-up command (app/server/evm_tx_indexer_cli.go): which heights it indexes, what it
 leaves in the store, and when running it again changes nothing.
 */
module CatchUp {
  import opened Bytes
  import opened Decimals
  import opened IndexKeys
  import opened TxResultCodec
  import opened IndexStore
  import opened TxIndexer

  datatype FromArg = LastIndexed | FromNumber(text: string)
  datatype ToArg = Latest | ToNumber(text: string)

  /** What the node has of one height; `results` is None when they cannot be loaded. */
  datatype Stored = Stored(block: Block, results: Option<seq<DeliverTx>>)

  datatype Range = Range(first: int64, last: int64)

  /** strconv.ParseInt(text, 10, 64) */
  function ParseHeight(text: string): (r: Option<int64>)
    ensures r == ParseInt(text, TWO_63)
  {
    match ParseInt(text, TWO_63)
    case None => None
    case Some(n) => Some(n)
  }

  /**
   The clamped range, or None where the command refuses its arguments; `lastIndexed` is None when
   the store cannot tell it.
   */
  function BlockRange(from: FromArg, to: ToArg, lastIndexed: Option<int64>, min: int64, max: int64): (r: Option<Range>)
    ensures r.Some? ==> min <= r.value.first <= r.value.last <= max
  {
    var first :=
      match from
      case LastIndexed => if lastIndexed == None || lastIndexed.value < 0 then Some(0) else lastIndexed
      case FromNumber(text) =>
        var n := ParseHeight(text);
        if n == None || n.value > max then None else n;
    var last :=
      match to
      case Latest => Some(max)
      case ToNumber(text) =>
        var n := ParseHeight(text);
        if n == None then None else if n.value > max then Some(max) else n;
    if first == None || last == None then None
    else
      var f := if first.value < min then min else first.value;
      if f > last.value then None else Some(Range(f, last.value))
  }

  /** The first height asked for: the last indexed one, 0 if there is none, or a number. */
  function FirstAsked(from: FromArg, lastIndexed: Option<int64>): Option<int> {
    match from
    case LastIndexed => Some(if lastIndexed == None || lastIndexed.value < 0 then 0 else lastIndexed.value)
    case FromNumber(text) => ParseInt(text, TWO_63)
  }

  function LastAsked(to: ToArg, max: int64): Option<int> {
    match to
    case Latest => Some(max as int)
    case ToNumber(text) => ParseInt(text, TWO_63)
  }

  /** Height `h` is asked for, and the node has it. */
  predicate Wanted(from: FromArg, to: ToArg, lastIndexed: Option<int64>, min: int64, max: int64, h: int) {
    var first, last := FirstAsked(from, lastIndexed), LastAsked(to, max);
    first.Some? && last.Some? && first.value <= h <= last.value && min <= h <= max
  }

  /** The range holds exactly the wanted heights; there is none exactly if no height is wanted. */
  ghost predicate IsWanted(r: Option<Range>, from: FromArg, to: ToArg, lastIndexed: Option<int64>, min: int64, max: int64) {
    && (r == None <==> forall h: int :: !Wanted(from, to, lastIndexed, min, max, h))
    && forall h: int :: Wanted(from, to, lastIndexed, min, max, h) <==> r.Some? && r.value.first <= h <= r.value.last
  }

  /**
   Whatever the arguments, exactly the asked-for heights the node has are indexed; the command refuses
   exactly if there are none, as when an argument is no number.
   */
  lemma RangeIsIntersection(from: FromArg, to: ToArg, lastIndexed: Option<int64>, min: int64, max: int64)
    ensures IsWanted(BlockRange(from, to, lastIndexed, min, max), from, to, lastIndexed, min, max)
  {
    hide ParseInt;
    var r := BlockRange(from, to, lastIndexed, min, max);
    if r.Some? {
      assert Wanted(from, to, lastIndexed, min, max, r.value.first);
    }
  }

  /** The records of one height, none if it cannot be loaded or indexed. */
  function RecordsAt(chain: map<int64, Stored>, height: int): seq<Saved> {
    if height in chain && chain[height].results.Some?
       && Records(chain[height].block, chain[height].results.value).Some?
    then Records(chain[height].block, chain[height].results.value).value
    else []
  }

  function RecordsBetween(chain: map<int64, Stored>, first: int, last: int): seq<Saved>
    decreases last - first
  {
    if first > last then [] else RecordsBetween(chain, first, last - 1) + RecordsAt(chain, last)
  }

  /** Everything written for the heights from `first` to `last`. */
  function Writes(chain: map<int64, Stored>, first: int, last: int): seq<Write> {
    Batch(RecordsBetween(chain, first, last))
  }

  datatype Result = Done | Refused | StoppedAt(height: int64)

  function FaultAt(faults: map<int64, Fault>, height: int64): Fault {
    if height in faults then faults[height] else NoFault
  }

  /** The node has the block and its results, indexing it does not panic, and the store does not fail. */
  predicate Indexable(chain: map<int64, Stored>, faults: map<int64, Fault>, height: int) {
    && height in chain && chain[height].results.Some?
    && var records := Records(chain[height].block, chain[height].results.value);
    && records.Some? && FaultAt(faults, height) != WriteFails
    && !StrikesSet(FaultAt(faults, height), 2 * |records.value|)
  }

  /** The loop over the chosen range: it stops at the first height that cannot be loaded or indexed. */
  method IndexRange(indexer: EVMTxIndexer, range: Range, chain: map<int64, Stored>, faults: map<int64, Fault>)
    returns (r: Result)
    requires range.first <= range.last < TWO_63 - 1
    modifies indexer
    ensures r != Refused
    ensures r == Done ==> forall h :: range.first <= h <= range.last ==> Indexable(chain, faults, h)
    ensures r.StoppedAt? ==> !Indexable(chain, faults, r.height)
    ensures r.StoppedAt? ==> forall h :: range.first <= h < r.height ==> Indexable(chain, faults, h)
    ensures r == Done ==> indexer.db == WriteAll(old(indexer.db), Writes(chain, range.first, range.last))
    ensures r.StoppedAt? ==> range.first <= r.height <= range.last
    ensures r.StoppedAt? ==> indexer.db == WriteAll(old(indexer.db), Writes(chain, range.first, r.height - 1))
  {
    hide WriteAll, Batch, Records, StrikesSet, FaultAt;
    ghost var start := indexer.db;
    EmptyBatch(start);
    var height := range.first;
    while height <= range.last
      invariant range.first <= height <= range.last + 1
      invariant forall h :: range.first <= h < height ==> Indexable(chain, faults, h)
      invariant indexer.db == WriteAll(start, Writes(chain, range.first, height - 1))
    {
      if height !in chain || chain[height].results == None { return StoppedAt(height); }
      var outcome := indexer.IndexBlock(chain[height].block, chain[height].results.value, FaultAt(faults, height));
      if outcome != Indexed { return StoppedAt(height); }
      BatchOfBoth(RecordsBetween(chain, range.first, height - 1), RecordsAt(chain, height));
      WriteBoth(start, Writes(chain, range.first, height - 1), Batch(RecordsAt(chain, height)));
      height := height + 1;
    }
    r := Done;
  }

  /** The whole command; `base` and `storeHeight` are the block store's first and last height. */
  method Run(indexer: EVMTxIndexer, from: FromArg, to: ToArg, base: int64, storeHeight: int64,
             chain: map<int64, Stored>, faults: map<int64, Fault>)
    returns (r: Result, range: Range, lastIndexed: Option<int64>)
    requires 0 <= base && 0 <= storeHeight
    modifies indexer
    ensures WellKeyed(old(indexer.db)) ==> lastIndexed.Some? && IsEndHeight(old(indexer.db), true, lastIndexed.value)
    ensures IsWanted(if r == Refused then None else Some(range), from, to, lastIndexed, base, storeHeight - 1)
    ensures r == Refused ==> indexer.db == old(indexer.db)
    ensures r == Done ==> forall h :: range.first <= h <= range.last ==> Indexable(chain, faults, h)
    ensures r == Done ==> indexer.db == WriteAll(old(indexer.db), Writes(chain, range.first, range.last))
    ensures r.StoppedAt? ==> range.first <= r.height <= range.last && !Indexable(chain, faults, r.height)
    ensures r.StoppedAt? ==> indexer.db == WriteAll(old(indexer.db), Writes(chain, range.first, r.height - 1))
    ensures r != Refused ==> base <= range.first <= range.last <= storeHeight - 1
  {
    hide WriteAll, Writes, WellKeyed, IsEndHeight, InIndexRange, BlockRange, IsWanted, Indexable;
    lastIndexed := LoadEndBlock(indexer.db, true);
    var chosen := BlockRange(from, to, lastIndexed, base, storeHeight - 1);
    RangeIsIntersection(from, to, lastIndexed, base, storeHeight - 1);
    if chosen == None { return Refused, Range(0, 0), lastIndexed; }
    range := chosen.value;
    r := IndexRange(indexer, range, chain, faults);
  }

  lemma {:induction false} RecordsSplit(chain: map<int64, Stored>, first: int, mid: int, last: int)
    requires first <= mid <= last + 1
    ensures RecordsBetween(chain, first, last) == RecordsBetween(chain, first, mid - 1) + RecordsBetween(chain, mid, last)
    decreases last - mid
  {
    hide RecordsAt;
    if mid <= last {
      RecordsSplit(chain, first, mid, last - 1);
    }
  }

  lemma WritesSplit(chain: map<int64, Stored>, first: int, mid: int, last: int)
    requires first <= mid <= last + 1
    ensures Writes(chain, first, last) == Writes(chain, first, mid - 1) + Writes(chain, mid, last)
  {
    RecordsSplit(chain, first, mid, last);
    BatchOfBoth(RecordsBetween(chain, first, mid - 1), RecordsBetween(chain, mid, last));
  }

  /** Indexing any last part of the indexed heights again leaves the store as it is, whatever hashes repeat. */
  lemma RerunSuffix(db: Store, chain: map<int64, Stored>, first: int, mid: int, last: int)
    requires first <= mid <= last + 1
    ensures var once := WriteAll(db, Writes(chain, first, last));
            WriteAll(once, Writes(chain, mid, last)) == once
  {
    WritesSplit(chain, first, mid, last);
    RewriteSuffix(db, Writes(chain, first, mid - 1), Writes(chain, mid, last));
  }

  /** Two batches leave the same value under every key both write. */
  ghost predicate AgreeOnCommonKeys(first: seq<Write>, second: seq<Write>) {
    forall key :: LastWrite(first, key) == None || LastWrite(second, key) == None
                  || LastWrite(first, key) == LastWrite(second, key)
  }

  lemma RewrittenValue(db: Store, first: seq<Write>, second: seq<Write>, key: seq<byte>)
    ensures var once := WriteAll(db, first + second);
            Get(WriteAll(once, first), key) == Get(once, key) <==>
            LastWrite(first, key) == None || LastWrite(second, key) == None || LastWrite(first, key) == LastWrite(second, key)
  {
    hide WriteAll, LastWrite, Get;
    WrittenValue(db, first + second, key);
    LastWriteOfBoth(first, second, key);
    WrittenValue(WriteAll(db, first + second), first, key);
  }

  /** Writing a first part again changes nothing exactly if it agrees with the second on the keys both write. */
  lemma RewritePrefix(db: Store, first: seq<Write>, second: seq<Write>)
    ensures WriteAll(WriteAll(db, first + second), first) == WriteAll(db, first + second) <==> AgreeOnCommonKeys(first, second)
  {
    hide WriteAll, LastWrite, Get;
    var once := WriteAll(db, first + second);
    forall key
      ensures Get(WriteAll(once, first), key) == Get(once, key) <==>
              LastWrite(first, key) == None || LastWrite(second, key) == None || LastWrite(first, key) == LastWrite(second, key)
    {
      RewrittenValue(db, first, second, key);
    }
    if AgreeOnCommonKeys(first, second) {
      StoresEqual(WriteAll(once, first), once);
    }
  }

  lemma EncodeInjective(a: TxResult, b: TxResult)
    requires Encode(a) == Encode(b)
    ensures a == b
  {
    hide Decode, Encode;
    RoundTrip(a);
    RoundTrip(b);
  }

  ghost predicate HeightsApart(saved: seq<Saved>, later: seq<Saved>) {
    forall i, j :: 0 <= i < |saved| && 0 <= j < |later| ==> saved[i].result.height != later[j].result.height
  }

  ghost predicate ShareHash(saved: seq<Saved>, later: seq<Saved>) {
    exists i, j :: 0 <= i < |saved| && 0 <= j < |later| && saved[i].hash == later[j].hash
  }

  /** A written key is the hash key or the index key of one of the records. */
  lemma {:induction false} WriterOf(saved: seq<Saved>, key: seq<byte>) returns (k: nat)
    requires LastWrite(Batch(saved), key).Some?
    ensures k < |saved|
    ensures key == TxHashKey(saved[k].hash) || key == TxIndexKey(saved[k].result.height, saved[k].result.ethTxIndex)
  {
    hide TxHashKey, TxIndexKey, Encode;
    var before, s := saved[..|saved| - 1], saved[|saved| - 1];
    LastWriteOfPair(Batch(before), s, key);
    if key == TxHashKey(s.hash) || key == TxIndexKey(s.result.height, s.result.ethTxIndex) {
      k := |saved| - 1;
    } else {
      k := WriterOf(before, key);
    }
  }

  lemma NoCommonKey(saved: seq<Saved>, later: seq<Saved>, key: seq<byte>)
    requires HeightsApart(saved, later) && !ShareHash(saved, later)
    ensures LastWrite(Batch(saved), key) == None || LastWrite(Batch(later), key) == None
  {
    hide Batch, LastWrite, TxHashKey, TxIndexKey;
    if LastWrite(Batch(saved), key).Some? && LastWrite(Batch(later), key).Some? {
      var i := WriterOf(saved, key);
      var j := WriterOf(later, key);
      var a, b := saved[i], later[j];
      HashKeyInjective(a.hash, b.hash);
      IndexRangeSeparates(a.hash, b.result.height, b.result.ethTxIndex);
      IndexRangeSeparates(b.hash, a.result.height, a.result.ethTxIndex);
      TxIndexKeyInjective(a.result.height, a.result.ethTxIndex, b.result.height, b.result.ethTxIndex);
    }
  }

  /** The two batches leave different values under a hash they share. */
  lemma SharedHashDiffers(saved: seq<Saved>, later: seq<Saved>)
    requires HeightsApart(saved, later) && ShareHash(saved, later)
    ensures !AgreeOnCommonKeys(Batch(saved), Batch(later))
  {
    hide Batch, LastWrite, TxHashKey, TxIndexKey, Encode;
    var i, j :| 0 <= i < |saved| && 0 <= j < |later| && saved[i].hash == later[j].hash;
    var hash := saved[i].hash;
    HashKeyWritten(saved, hash);
    HashKeyWritten(later, hash);
    var a, b := saved[LastOf(saved, hash).value].result, later[LastOf(later, hash).value].result;
    if Encode(a) == Encode(b) {
      EncodeInjective(a, b);
    }
    assert LastWrite(Batch(saved), TxHashKey(hash)) != LastWrite(Batch(later), TxHashKey(hash));
  }

  /** Writing records again after those of other heights changes nothing exactly if no hash is in both. */
  lemma RerunRecords(db: Store, saved: seq<Saved>, later: seq<Saved>)
    requires HeightsApart(saved, later)
    ensures var once := WriteAll(db, Batch(saved) + Batch(later));
            WriteAll(once, Batch(saved)) == once <==> !ShareHash(saved, later)
  {
    hide WriteAll, Batch, LastWrite, HeightsApart, ShareHash;
    RewritePrefix(db, Batch(saved), Batch(later));
    if ShareHash(saved, later) {
      SharedHashDiffers(saved, later);
    } else {
      forall key ensures LastWrite(Batch(saved), key) == None || LastWrite(Batch(later), key) == None {
        NoCommonKey(saved, later, key);
      }
    }
  }

  /** Every stored block is stored under its own height. */
  ghost predicate OwnHeights(chain: map<int64, Stored>) {
    forall n :: n in chain ==> chain[n].block.height == n
  }

  lemma {:induction false} RecordHeights(chain: map<int64, Stored>, first: int, last: int)
    requires OwnHeights(chain)
    ensures forall s :: s in RecordsBetween(chain, first, last) ==> first <= s.result.height <= last
    decreases last - first
  {
    hide Records, Numbered;
    if first <= last {
      RecordHeights(chain, first, last - 1);
      forall s | s in RecordsAt(chain, last) ensures s.result.height == last {
        RecordsNumbered(chain[last].block, chain[last].results.value);
        HeightOfNumbered(RecordsAt(chain, last), last, s);
      }
    }
  }

  lemma HeightOfNumbered(saved: seq<Saved>, height: int64, s: Saved)
    requires Numbered(saved, height) && s in saved
    ensures s.result.height == height
  {
  }

  /**
   Once `first` to `last` are indexed, indexing the part from `a` to `b` again changes nothing exactly if no
   hash is recorded both in that part and above it.
   */
  lemma RerunRange(db: Store, chain: map<int64, Stored>, first: int, a: int, b: int, last: int)
    requires OwnHeights(chain) && first <= a <= b + 1 <= last + 1
    ensures var once := WriteAll(db, Writes(chain, first, last));
            WriteAll(once, Writes(chain, a, b)) == once <==>
            !ShareHash(RecordsBetween(chain, a, b), RecordsBetween(chain, b + 1, last))
  {
    hide WriteAll, Batch, RecordsBetween, ShareHash;
    var saved, later := RecordsBetween(chain, a, b), RecordsBetween(chain, b + 1, last);
    WritesSplit(chain, first, a, last);
    WritesSplit(chain, a, b + 1, last);
    WriteBoth(db, Writes(chain, first, a - 1), Writes(chain, a, last));
    RecordHeights(chain, a, b);
    RecordHeights(chain, b + 1, last);
    assert HeightsApart(saved, later);
    RerunRecords(WriteAll(db, Writes(chain, first, a - 1)), saved, later);
  }

  /** The records of every block carry its height. */
  ghost predicate HeightsKept(history: seq<BlockRecords>) {
    forall m :: 0 <= m < |history| ==> forall s :: s in history[m].saved ==> s.result.height == history[m].height
  }

  lemma {:induction false} BlockOf(history: seq<BlockRecords>, s: Saved) returns (m: nat)
    requires s in AllSaved(history)
    ensures m < |history| && s in history[m].saved
  {
    if s in history[|history| - 1].saved {
      m := |history| - 1;
    } else {
      m := BlockOf(history[..|history| - 1], s);
    }
  }

  /**
   In any history of blocks of distinct heights, over any store, indexing one of them again changes nothing
   exactly if no block indexed after it has a record under one of its hashes.
   */
  lemma RerunBlock(db: Store, history: seq<BlockRecords>, m: nat)
    requires HeightsKept(history) && DistinctHeights(history) && m < |history|
    ensures var once := StoreAfter(db, history);
            WriteAll(once, Batch(history[m].saved)) == once <==> !ShareHash(history[m].saved, AllSaved(history[m + 1..]))
  {
    hide WriteAll, Batch, AllSaved, ShareHash;
    var saved, rest := history[m].saved, history[m + 1..];
    var before := StoreAfter(db, history[..m]);
    assert history == history[..m + 1] + rest;
    StoreAfterBoth(db, history[..m + 1], rest);
    assert history[..m + 1][..m] == history[..m];
    StoreIsOneBatch(WriteAll(before, Batch(saved)), rest);
    WriteBoth(before, Batch(saved), Batch(AllSaved(rest)));
    forall i, j | 0 <= i < |saved| && 0 <= j < |AllSaved(rest)|
      ensures saved[i].result.height != AllSaved(rest)[j].result.height
    {
      var n := BlockOf(rest, AllSaved(rest)[j]);
      assert saved[i] in history[m].saved;
      assert AllSaved(rest)[j] in history[m + 1 + n].saved;
    }
    assert HeightsApart(saved, AllSaved(rest));
    RerunRecords(before, saved, AllSaved(rest));
  }
}
