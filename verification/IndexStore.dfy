/**
 The contents of the eth tx index: what a saved record writes, what the lookups find, and the
 first and the last indexed height (eth/indexer/evm_tx_indexer.go).
 */
module IndexStore {
  import opened Bytes
  import opened Sequences
  import opened Varints
  import opened IndexKeys
  import opened TxResultCodec

  type Store = map<seq<byte>, seq<byte>>

  /** A record saved under the hash of its eth tx. */
  datatype Saved = Saved(hash: Hash, result: TxResult)

  datatype Write = Write(key: seq<byte>, value: seq<byte>)

  /** saveTxResult: the record under its hash, and the hash under height and index. */
  function WritesOf(s: Saved): seq<Write> {
    [Write(TxHashKey(s.hash), Encode(s.result)), Write(TxIndexKey(s.result.height, s.result.ethTxIndex), s.hash)]
  }

  function Batch(saved: seq<Saved>): seq<Write> {
    if saved == [] then [] else Batch(saved[..|saved| - 1]) + WritesOf(saved[|saved| - 1])
  }

  /** Writing a batch: later writes to a key win. */
  function WriteAll(db: Store, batch: seq<Write>): Store {
    if batch == [] then db
    else
      var w := batch[|batch| - 1];
      WriteAll(db, batch[..|batch| - 1])[w.key := w.value]
  }

  // ----- lookups -----

  datatype Lookup = Found(result: TxResult) | NotFound | Corrupt(err: WireError)

  function GetByTxHash(db: Store, hash: Hash): Lookup {
    var key := TxHashKey(hash);
    if key !in db || db[key] == [] then NotFound
    else
      match Decode(db[key], ZERO)
      case Decoded(m, None) => Found(m)
      case Decoded(_, Some(e)) => Corrupt(e)
  }

  /** common.BytesToHash: the last 32 bytes, padded with zeros in front. */
  function BytesToHash(bz: seq<byte>): Hash {
    if |bz| >= 32 then bz[|bz| - 32..] else ZERO_HASH[|bz|..] + bz
  }

  function GetByBlockAndIndex(db: Store, blockNumber: int64, txIndex: int32): Lookup {
    var key := TxIndexKey(blockNumber, txIndex);
    if key !in db || db[key] == [] then NotFound else GetByTxHash(db, BytesToHash(db[key]))
  }

  // ----- what a key holds after a batch -----

  function LastWrite(batch: seq<Write>, key: seq<byte>): Option<seq<byte>> {
    if batch == [] then None
    else if batch[|batch| - 1].key == key then Some(batch[|batch| - 1].value)
    else LastWrite(batch[..|batch| - 1], key)
  }

  function Get(db: Store, key: seq<byte>): Option<seq<byte>> {
    if key in db then Some(db[key]) else None
  }

  lemma {:induction false} WrittenValue(db: Store, batch: seq<Write>, key: seq<byte>)
    ensures Get(WriteAll(db, batch), key) == if LastWrite(batch, key).Some? then LastWrite(batch, key) else Get(db, key)
  {
    if batch != [] {
      WrittenValue(db, batch[..|batch| - 1], key);
    }
  }

  lemma StoresEqual(a: Store, b: Store)
    requires forall key :: Get(a, key) == Get(b, key)
    ensures a == b
  {
    forall key ensures key in a <==> key in b {
      assert Get(a, key) == Get(b, key);
    }
    forall key | key in a ensures a[key] == b[key] {
      assert Get(a, key) == Get(b, key);
    }
  }

  lemma {:induction false} LastWriteOfBoth(first: seq<Write>, second: seq<Write>, key: seq<byte>)
    ensures LastWrite(first + second, key)
         == if LastWrite(second, key).Some? then LastWrite(second, key) else LastWrite(first, key)
  {
    if second == [] {
      assert first + second == first;
    } else {
      var all := first + second;
      assert all[..|all| - 1] == first + second[..|second| - 1];
      LastWriteOfBoth(first, second[..|second| - 1], key);
    }
  }

  lemma WriteBoth(db: Store, first: seq<Write>, second: seq<Write>)
    ensures WriteAll(WriteAll(db, first), second) == WriteAll(db, first + second)
  {
    forall key
      ensures Get(WriteAll(WriteAll(db, first), second), key) == Get(WriteAll(db, first + second), key)
    {
      WrittenValue(WriteAll(db, first), second, key);
      WrittenValue(db, first, key);
      WrittenValue(db, first + second, key);
      LastWriteOfBoth(first, second, key);
    }
    StoresEqual(WriteAll(WriteAll(db, first), second), WriteAll(db, first + second));
  }

  /** Writing the end of a batch once more changes nothing, whatever keys repeat. */
  lemma RewriteSuffix(db: Store, first: seq<Write>, second: seq<Write>)
    ensures WriteAll(WriteAll(db, first + second), second) == WriteAll(db, first + second)
  {
    var once := WriteAll(db, first + second);
    forall key ensures Get(WriteAll(once, second), key) == Get(once, key) {
      WrittenValue(once, second, key);
      WrittenValue(db, first + second, key);
      LastWriteOfBoth(first, second, key);
    }
    StoresEqual(WriteAll(once, second), once);
  }

  // ----- the records of one block -----

  /** The records of one block: all of its height, numbered from 0 without gaps. */
  ghost predicate Numbered(saved: seq<Saved>, height: int64) {
    forall k :: 0 <= k < |saved| ==> saved[k].result.height == height && saved[k].result.ethTxIndex == ToInt32(k)
  }

  /** The last record saved under a hash. */
  function LastOf(saved: seq<Saved>, hash: Hash): (r: Option<nat>)
    ensures r.Some? ==> r.value < |saved| && saved[r.value].hash == hash
    ensures r.Some? ==> forall k :: r.value < k < |saved| ==> saved[k].hash != hash
    ensures r.None? ==> forall k :: 0 <= k < |saved| ==> saved[k].hash != hash
  {
    if saved == [] then None
    else if saved[|saved| - 1].hash == hash then Some(|saved| - 1)
    else LastOf(saved[..|saved| - 1], hash)
  }

  lemma LastWriteOfPair(batch: seq<Write>, s: Saved, key: seq<byte>)
    ensures LastWrite(batch + WritesOf(s), key)
         == if key == TxIndexKey(s.result.height, s.result.ethTxIndex) then Some(s.hash)
            else if key == TxHashKey(s.hash) then Some(Encode(s.result))
            else LastWrite(batch, key)
  {
    hide TxIndexKey, TxHashKey, Encode;
    var all := batch + WritesOf(s);
    assert all[..|all| - 1] == batch + [WritesOf(s)[0]];
    assert all[..|all| - 1][..|batch|] == batch;
  }

  lemma {:induction false} HashKeyWritten(saved: seq<Saved>, hash: Hash)
    ensures LastWrite(Batch(saved), TxHashKey(hash)) ==
            match LastOf(saved, hash)
            case None => None
            case Some(j) => Some(Encode(saved[j].result))
  {
    hide TxIndexKey, TxHashKey, Encode;
    if saved != [] {
      var before, s := saved[..|saved| - 1], saved[|saved| - 1];
      HashKeyWritten(before, hash);
      LastWriteOfPair(Batch(before), s, TxHashKey(hash));
      IndexRangeSeparates(hash, s.result.height, s.result.ethTxIndex);
      HashKeyInjective(hash, s.hash);
    }
  }

  lemma HashKeyInjective(h: Hash, h': Hash)
    ensures TxHashKey(h) == TxHashKey(h') <==> h == h'
  {
    assert TxHashKey(h)[1..] == h && TxHashKey(h')[1..] == h';
  }

  lemma SmallIndex(k: nat)
    requires k < TWO_31
    ensures ToInt32(k) == k
  {
  }

  lemma {:induction false} IndexKeyWritten(saved: seq<Saved>, height: int64, n: int64, i: int32)
    requires Numbered(saved, height) && |saved| <= TWO_31
    ensures LastWrite(Batch(saved), TxIndexKey(n, i))
         == if n == height && 0 <= i < |saved| then Some(saved[i].hash) else None
  {
    hide TxIndexKey, TxHashKey, Encode, ToInt32;
    if saved != [] {
      var before, s := saved[..|saved| - 1], saved[|saved| - 1];
      IndexKeyWritten(before, height, n, i);
      LastWriteOfPair(Batch(before), s, TxIndexKey(n, i));
      IndexRangeSeparates(s.hash, n, i);
      if TxIndexKey(n, i) == TxIndexKey(s.result.height, s.result.ethTxIndex) {
        TxIndexKeyInjective(n, i, s.result.height, s.result.ethTxIndex);
      }
      SmallIndex(|saved| - 1);
    }
  }

  lemma EncodedEmpty(m: TxResult)
    ensures Encode(m) == [] <==> m == ZERO
  {
    hide DecodeFrom, EncodeFrom;
    RoundTrip(m);
    RoundTrip(ZERO);
    EncodeZero();
    if Encode(m) == [] {
      assert Decode(Encode(m), ZERO).m == Decode(Encode(ZERO), ZERO).m;
    }
  }

  lemma EncodeZero()
    ensures Encode(ZERO) == []
  {
    SizeIsLength(ZERO);
  }

  /** A written record is found under its hash, unless all its fields are zero: then its encoding is empty. */
  lemma FoundByHash(db: Store, hash: Hash, m: TxResult)
    requires Get(db, TxHashKey(hash)) == Some(Encode(m))
    ensures GetByTxHash(db, hash) == if m == ZERO then NotFound else Found(m)
  {
    hide DecodeFrom, EncodeFrom, TxHashKey;
    EncodedEmpty(m);
    RoundTrip(m);
  }

  /**
   After a block's records are written, index k of its height leads to the last record saved under
   the k-th hash: the k-th one itself when no later record of the block has that hash.
   */
  lemma LookupAfterWriting(db: Store, saved: seq<Saved>, height: int64, k: nat)
    requires Numbered(saved, height) && |saved| <= TWO_31 && k < |saved|
    ensures LastOf(saved, saved[k].hash).Some?
    ensures var j := LastOf(saved, saved[k].hash).value;
            var expected := if saved[j].result == ZERO then NotFound else Found(saved[j].result);
            && GetByBlockAndIndex(WriteAll(db, Batch(saved)), height, k) == expected
            && GetByTxHash(WriteAll(db, Batch(saved)), saved[k].hash) == expected
    ensures LastOf(saved, saved[k].hash) == Some(k) <==> forall j :: k < j < |saved| ==> saved[j].hash != saved[k].hash
  {
    hide TxIndexKey, TxHashKey, Encode, GetByTxHash;
    var db' := WriteAll(db, Batch(saved));
    var hash := saved[k].hash;
    WrittenValue(db, Batch(saved), TxIndexKey(height, k));
    IndexKeyWritten(saved, height, height, k);
    WrittenValue(db, Batch(saved), TxHashKey(hash));
    HashKeyWritten(saved, hash);
    FoundByHash(db', hash, saved[LastOf(saved, hash).value].result);
    assert BytesToHash(hash) == hash;
  }

  /** Records of other heights, under hashes the block does not save, are found as before. */
  lemma OtherLookupsKept(db: Store, saved: seq<Saved>, height: int64, n: int64, i: int32)
    requires Numbered(saved, height) && |saved| <= TWO_31 && n != height
    requires TxIndexKey(n, i) in db ==> LastOf(saved, BytesToHash(db[TxIndexKey(n, i)])).None?
    ensures GetByBlockAndIndex(WriteAll(db, Batch(saved)), n, i) == GetByBlockAndIndex(db, n, i)
  {
    hide TxIndexKey, TxHashKey, Encode, BytesToHash, Decode;
    var key := TxIndexKey(n, i);
    WrittenValue(db, Batch(saved), key);
    IndexKeyWritten(saved, height, n, i);
    if key in db {
      var hash := BytesToHash(db[key]);
      WrittenValue(db, Batch(saved), TxHashKey(hash));
      HashKeyWritten(saved, hash);
    }
  }

  // ----- first and last indexed height -----

  /** The index holds hash keys, and index keys of heights and indices that are not negative. */
  ghost predicate WellKeyed(db: Store) {
    forall key :: key in db ==> IsHashKey(key) || IsIndexKey(key)
  }

  ghost predicate IsHashKey(key: seq<byte>) { exists h: Hash :: key == TxHashKey(h) }

  ghost predicate IsIndexKey(key: seq<byte>) {
    exists n: int64, i: int32 :: n >= 0 && i >= 0 && key == TxIndexKey(n, i)
  }

  ghost predicate HasEntry(db: Store, n: int64) {
    exists i: int32 :: i >= 0 && TxIndexKey(n, i) in db
  }

  /** The key an iterator over the index range starts at; with `reverse`, the one a reverse iterator starts at. */
  ghost predicate IsEdge(db: Store, reverse: bool, edge: Option<seq<byte>>) {
    match edge
    case None => forall key :: key in db ==> !InIndexRange(key)
    case Some(e) =>
      && e in db && InIndexRange(e)
      && forall key :: key in db && InIndexRange(key) ==> key == e || (if reverse then Less(key, e) else Less(e, key))
  }

  lemma KeepEdge(key: seq<byte>, edge: seq<byte>, other: seq<byte>, reverse: bool)
    requires if reverse then Less(edge, key) else Less(key, edge)
    requires other == edge || if reverse then Less(other, edge) else Less(edge, other)
    ensures if reverse then Less(other, key) else Less(key, other)
  {
    if other != edge {
      if reverse { LessTransitive(other, edge, key); } else { LessTransitive(key, edge, other); }
    }
  }

  /** db.Iterator and db.ReverseIterator over the index range, as far as their first key. */
  method FirstInRange(db: Store, reverse: bool) returns (edge: Option<seq<byte>>)
    ensures IsEdge(db, reverse, edge)
  {
    hide InIndexRange, Less;
    edge := None;
    var todo := db.Keys;
    var seen: Store := map[];
    while todo != {}
      invariant todo <= db.Keys
      invariant seen.Keys == db.Keys - todo
      invariant IsEdge(seen, reverse, edge)
      decreases |todo|
    {
      var key :| key in todo;
      ghost var before := edge;
      if InIndexRange(key) {
        if edge == None || (if reverse then Less(edge.value, key) else Less(key, edge.value)) {
          forall other | before != None && other in seen && InIndexRange(other)
            ensures if reverse then Less(other, key) else Less(key, other)
          {
            KeepEdge(key, before.value, other, reverse);
          }
          edge := Some(key);
        } else {
          LessTotal(key, edge.value);
        }
      }
      seen := seen[key := []];
      todo := todo - {key};
    }
    assert seen.Keys == db.Keys;
    assert forall key :: key in db <==> key in seen;
  }

  /** `r` is the greatest (with `last`) or least height that has an entry, and -1 exactly when none has. */
  ghost predicate IsEndHeight(db: Store, last: bool, r: int64) {
    if r == -1 then forall n: int64 :: !HasEntry(db, n)
    else HasEntry(db, r) && forall n: int64 :: HasEntry(db, n) ==> if last then n <= r else r <= n
  }

  /** In a well-keyed store only index keys lie in the iterated range. */
  lemma EdgeIsIndexKey(db: Store, key: seq<byte>) returns (n: int64, i: int32)
    requires WellKeyed(db) && key in db && InIndexRange(key)
    ensures n >= 0 && i >= 0 && key == TxIndexKey(n, i)
  {
    hide TxIndexKey, TxHashKey, InIndexRange;
    if IsHashKey(key) {
      var h: Hash :| key == TxHashKey(h);
      IndexRangeSeparates(h, 0, 0);
    }
    assert IsIndexKey(key);
    n, i :| n >= 0 && i >= 0 && key == TxIndexKey(n, i);
  }

  lemma EdgeIsEndHeight(db: Store, last: bool, edge: Option<seq<byte>>)
    requires WellKeyed(db) && IsEdge(db, last, edge)
    ensures edge.Some? ==> ParseBlockNumberFromKey(edge.value).Some?
    ensures IsEndHeight(db, last, if edge == None then -1 else ParseBlockNumberFromKey(edge.value).value)
  {
    hide TxIndexKey, InIndexRange, ParseBlockNumberFromKey, Less, WellKeyed;
    forall n: int64 | HasEntry(db, n) ensures edge.Some? && AtEnd(last, n, edge.value) {
      var i: int32 :| i >= 0 && TxIndexKey(n, i) in db;
      EntryBound(db, last, edge, n, i);
    }
    if edge.Some? {
      var n, i := EdgeIsIndexKey(db, edge.value);
      ParseTxIndexKey(n, i);
      assert HasEntry(db, n);
    }
  }

  ghost predicate AtEnd(last: bool, n: int64, edge: seq<byte>) {
    match ParseBlockNumberFromKey(edge)
    case None => false
    case Some(r) => n >= 0 && r >= 0 && if last then n <= r else r <= n
  }

  lemma EntryBound(db: Store, last: bool, edge: Option<seq<byte>>, n: int64, i: int32)
    requires WellKeyed(db) && IsEdge(db, last, edge)
    requires i >= 0 && TxIndexKey(n, i) in db
    ensures edge.Some? && AtEnd(last, n, edge.value)
  {
    hide TxIndexKey, TxHashKey, InIndexRange, ParseBlockNumberFromKey, Less, WellKeyed;
    IndexRangeSeparates(ZERO_HASH, n, i);
    var n1, i1 := EdgeIsIndexKey(db, TxIndexKey(n, i));
    TxIndexKeyInjective(n, i, n1, i1);
    var r, j := EdgeIsIndexKey(db, edge.value);
    ParseTxIndexKey(r, j);
    TxIndexKeyOrderOfPairs(n, i, r, j);
    TxIndexKeyOrderOfPairs(r, j, n, i);
    if TxIndexKey(n, i) == edge.value {
      TxIndexKeyInjective(n, i, r, j);
    }
  }

  /** LoadLastBlock and, with `last` false, LoadFirstBlock; None when the key has a wrong length. */
  method LoadEndBlock(db: Store, last: bool) returns (r: Option<int64>)
    ensures WellKeyed(db) ==> r.Some? && IsEndHeight(db, last, r.value)
    ensures r == None ==> exists key :: key in db && InIndexRange(key) && |key| != TX_INDEX_KEY_LENGTH
  {
    hide InIndexRange, WellKeyed, IsEndHeight;
    var edge := FirstInRange(db, last);
    if WellKeyed(db) {
      EdgeIsEndHeight(db, last, edge);
    }
    if edge == None {
      r := Some(-1);
    } else {
      r := ParseBlockNumberFromKey(edge.value);
    }
  }

  /** Writing the records of a block of non-negative height keeps the store well keyed. */
  lemma WritingKeepsKeys(db: Store, saved: seq<Saved>, height: int64)
    requires WellKeyed(db) && Numbered(saved, height) && |saved| <= TWO_31 && height >= 0
    ensures WellKeyed(WriteAll(db, Batch(saved)))
  {
    hide TxIndexKey, TxHashKey, Encode;
    forall key | key in WriteAll(db, Batch(saved)) ensures IsHashKey(key) || IsIndexKey(key) {
      WrittenValue(db, Batch(saved), key);
      if key !in db {
        WrittenKey(saved, height, key);
      }
    }
  }

  lemma {:induction false} WrittenKey(saved: seq<Saved>, height: int64, key: seq<byte>)
    requires Numbered(saved, height) && |saved| <= TWO_31 && height >= 0
    requires LastWrite(Batch(saved), key).Some?
    ensures IsHashKey(key) || IsIndexKey(key)
  {
    hide TxIndexKey, TxHashKey, Encode;
    if saved != [] {
      var before, s := saved[..|saved| - 1], saved[|saved| - 1];
      LastWriteOfPair(Batch(before), s, key);
      if LastWrite(Batch(before), key).Some? {
        WrittenKey(before, height, key);
      }
    }
  }

  /** It adds an entry for that height exactly when there are records, and for no other. */
  lemma EntriesAfterWriting(db: Store, saved: seq<Saved>, height: int64, n: int64)
    requires Numbered(saved, height) && |saved| <= TWO_31
    ensures HasEntry(WriteAll(db, Batch(saved)), n) <==> HasEntry(db, n) || (n == height && saved != [])
  {
    hide TxIndexKey, TxHashKey, Encode;
    var db' := WriteAll(db, Batch(saved));
    forall i: int32 | i >= 0
      ensures TxIndexKey(n, i) in db' <==> TxIndexKey(n, i) in db || (n == height && i < |saved|)
    {
      WrittenValue(db, Batch(saved), TxIndexKey(n, i));
      IndexKeyWritten(saved, height, n, i);
    }
    if n == height && saved != [] {
      assert TxIndexKey(n, 0) in db';
    }
  }

  // ----- whole histories -----

  /** One indexed block: its height and the records saved for it. */
  datatype BlockRecords = BlockRecords(height: int64, saved: seq<Saved>)

  /** The store after a history of blocks has been indexed into it. */
  function StoreAfter(db: Store, history: seq<BlockRecords>): Store {
    if history == [] then db
    else WriteAll(StoreAfter(db, history[..|history| - 1]), Batch(history[|history| - 1].saved))
  }

  /** Every block has at most 2^31 records, numbered as IndexBlock numbers them. */
  ghost predicate Plausible(history: seq<BlockRecords>) {
    forall b :: b in history ==> |b.saved| <= TWO_31 && Numbered(b.saved, b.height)
  }

  ghost predicate NoNegativeHeight(history: seq<BlockRecords>) {
    forall b :: b in history ==> b.height >= 0
  }

  /** A height with records was indexed. */
  ghost predicate WasIndexed(history: seq<BlockRecords>, n: int64) {
    exists b :: b in history && b.height == n && b.saved != []
  }

  lemma {:induction false} HistoryEntries(db: Store, history: seq<BlockRecords>)
    requires Plausible(history)
    ensures WellKeyed(db) && NoNegativeHeight(history) ==> WellKeyed(StoreAfter(db, history))
    ensures forall n: int64 :: HasEntry(StoreAfter(db, history), n) <==> HasEntry(db, n) || WasIndexed(history, n)
  {
    hide WriteAll, HasEntry, WellKeyed, Numbered;
    if history != [] {
      var before, b := history[..|history| - 1], history[|history| - 1];
      HistoryEntries(db, before);
      if WellKeyed(db) && NoNegativeHeight(history) {
        WritingKeepsKeys(StoreAfter(db, before), b.saved, b.height);
      }
      forall n: int64 ensures HasEntry(StoreAfter(db, history), n) <==> HasEntry(db, n) || WasIndexed(history, n) {
        EntriesAfterWriting(StoreAfter(db, before), b.saved, b.height, n);
        if WasIndexed(before, n) {
          var b' :| b' in before && b'.height == n && b'.saved != [];
          assert b' in history;
        }
      }
    }
  }

  /**
   After any history of blocks, in any order and with any repetitions, LoadLastBlock and LoadFirstBlock
   return the greatest and the least height that had records or was in the store before, and -1 exactly
   when there is none.
   */
  lemma EndHeightOfHistory(db: Store, history: seq<BlockRecords>, last: bool, r: int64)
    requires Plausible(history) && IsEndHeight(StoreAfter(db, history), last, r)
    ensures r == -1 <==> forall n: int64 :: !WasIndexed(history, n) && !HasEntry(db, n)
    ensures r != -1 ==> WasIndexed(history, r) || HasEntry(db, r)
    ensures forall n: int64 :: WasIndexed(history, n) || HasEntry(db, n) ==> if last then n <= r else r <= n
  {
    hide StoreAfter, HasEntry, Plausible, WasIndexed;
    HistoryEntries(db, history);
    assert r != -1 ==> HasEntry(StoreAfter(db, history), r);
  }

  /** All records saved over a history, in order. */
  function AllSaved(history: seq<BlockRecords>): seq<Saved> {
    if history == [] then [] else AllSaved(history[..|history| - 1]) + history[|history| - 1].saved
  }

  lemma {:induction false} BatchOfBoth(a: seq<Saved>, b: seq<Saved>)
    ensures Batch(a + b) == Batch(a) + Batch(b)
  {
    hide WritesOf;
    if b == [] {
      assert a + b == a;
    } else {
      assert (a + b)[..|a + b| - 1] == a + b[..|b| - 1];
      BatchOfBoth(a, b[..|b| - 1]);
    }
  }

  /** Block by block or all at once, the store is the same. */
  lemma {:induction false} StoreIsOneBatch(db: Store, history: seq<BlockRecords>)
    ensures StoreAfter(db, history) == WriteAll(db, Batch(AllSaved(history)))
  {
    hide WriteAll, Batch;
    if history == [] {
      EmptyBatch(db);
    } else {
      var before, b := history[..|history| - 1], history[|history| - 1];
      StoreIsOneBatch(db, before);
      BatchOfBoth(AllSaved(before), b.saved);
      WriteBoth(db, Batch(AllSaved(before)), Batch(b.saved));
    }
  }

  lemma EmptyBatch(db: Store)
    ensures WriteAll(db, Batch([])) == db
  {
  }

  lemma {:induction false} StoreAfterBoth(db: Store, first: seq<BlockRecords>, second: seq<BlockRecords>)
    ensures StoreAfter(db, first + second) == StoreAfter(StoreAfter(db, first), second)
  {
    hide WriteAll, Batch;
    if second == [] {
      assert first + second == first;
    } else {
      var all := first + second;
      assert all[..|all| - 1] == first + second[..|second| - 1];
      StoreAfterBoth(db, first, second[..|second| - 1]);
    }
  }

  ghost predicate DistinctHeights(history: seq<BlockRecords>) {
    forall i, j :: 0 <= i < j < |history| ==> history[i].height != history[j].height
  }

  lemma {:induction false} HistoryIndexKey(db: Store, history: seq<BlockRecords>, m: nat, k: nat)
    requires Plausible(history) && DistinctHeights(history)
    requires m < |history| && k < |history[m].saved|
    ensures Get(StoreAfter(db, history), TxIndexKey(history[m].height, k)) == Some(history[m].saved[k].hash)
  {
    hide WriteAll, Batch, Get, TxIndexKey, Numbered, LastWrite;
    var last := |history| - 1;
    var before, b := history[..last], history[last];
    assert b in history;
    assert forall x :: x in before ==> x in history;
    assert history[m] in history;
    WrittenValue(StoreAfter(db, before), Batch(b.saved), TxIndexKey(history[m].height, k));
    IndexKeyWritten(b.saved, b.height, history[m].height, k);
    if m < last {
      HistoryIndexKey(db, before, m, k);
    }
  }

  /**
   After any history of blocks of distinct heights, whatever the store held before, index k of an indexed
   height is found, and leads to the last record saved under that hash in the whole history.
   */
  lemma LookupInHistory(db: Store, history: seq<BlockRecords>, m: nat, k: nat)
    requires Plausible(history) && DistinctHeights(history)
    requires m < |history| && k < |history[m].saved|
    ensures LastOf(AllSaved(history), history[m].saved[k].hash).Some?
    ensures var r := AllSaved(history)[LastOf(AllSaved(history), history[m].saved[k].hash).value].result;
            GetByBlockAndIndex(StoreAfter(db, history), history[m].height, k) == if r == ZERO then NotFound else Found(r)
  {
    hide WriteAll, Batch, Encode, GetByTxHash, TxIndexKey, TxHashKey, LastWrite;
    var hash := history[m].saved[k].hash;
    HistoryIndexKey(db, history, m, k);
    StoreIsOneBatch(db, history);
    WrittenValue(db, Batch(AllSaved(history)), TxHashKey(hash));
    HashKeyWritten(AllSaved(history), hash);
    SavedInHistory(history, m, k);
    var j := LastOf(AllSaved(history), hash).value;
    FoundByHash(StoreAfter(db, history), hash, AllSaved(history)[j].result);
    assert BytesToHash(hash) == hash;
  }

  lemma {:induction false} SavedInHistory(history: seq<BlockRecords>, m: nat, k: nat)
    requires m < |history| && k < |history[m].saved|
    ensures history[m].saved[k] in AllSaved(history)
  {
    if m < |history| - 1 {
      SavedInHistory(history[..|history| - 1], m, k);
    } else {
      assert history[m].saved[k] in history[m].saved;
    }
  }

  // ----- every lookup after a history -----

  lemma SameLookup(a: Store, b: Store, hash: Hash)
    requires Get(a, TxHashKey(hash)) == Get(b, TxHashKey(hash))
    ensures GetByTxHash(a, hash) == GetByTxHash(b, hash)
  {
    hide TxHashKey, Decode;
  }

  /** A hash leads to the last record saved under it in the history, and if there is none to what it led to before. */
  lemma HashLookup(db: Store, history: seq<BlockRecords>, hash: Hash)
    ensures GetByTxHash(StoreAfter(db, history), hash) ==
            match LastOf(AllSaved(history), hash)
            case None => GetByTxHash(db, hash)
            case Some(j) =>
              var r := AllSaved(history)[j].result;
              if r == ZERO then NotFound else Found(r)
  {
    hide WriteAll, Batch, Encode, GetByTxHash, TxHashKey, LastWrite, AllSaved, StoreAfter;
    var all, db' := AllSaved(history), StoreAfter(db, history);
    StoreIsOneBatch(db, history);
    WrittenValue(db, Batch(all), TxHashKey(hash));
    HashKeyWritten(all, hash);
    match LastOf(all, hash)
    case None => SameLookup(db', db, hash);
    case Some(j) => FoundByHash(db', hash, all[j].result);
  }

  /** The last block of height `n` that has a record number `i`. */
  function LastBlock(history: seq<BlockRecords>, n: int64, i: int32): (r: Option<nat>)
    ensures r.Some? ==> IsLastBlock(history, n, i, r.value)
    ensures r.None? ==> forall m :: 0 <= m < |history| ==> !HasNumber(history[m], n, i)
  {
    if history == [] then None
    else if HasNumber(history[|history| - 1], n, i) then Some(|history| - 1)
    else LastBlock(history[..|history| - 1], n, i)
  }

  predicate HasNumber(b: BlockRecords, n: int64, i: int32) { b.height == n && 0 <= i < |b.saved| }

  predicate IsLastBlock(history: seq<BlockRecords>, n: int64, i: int32, m: nat) {
    m < |history| && HasNumber(history[m], n, i) && forall k :: m < k < |history| ==> !HasNumber(history[k], n, i)
  }

  predicate IsLastSaved(all: seq<Saved>, hash: Hash, k: nat) {
    k < |all| && all[k].hash == hash && forall j :: k < j < |all| ==> all[j].hash != hash
  }

  lemma {:induction false} IndexKeyAfter(db: Store, history: seq<BlockRecords>, n: int64, i: int32)
    requires Plausible(history)
    ensures Get(StoreAfter(db, history), TxIndexKey(n, i)) ==
            match LastBlock(history, n, i)
            case None => Get(db, TxIndexKey(n, i))
            case Some(m) => Some(history[m].saved[i].hash)
  {
    hide WriteAll, Batch, Get, TxIndexKey, Numbered, LastWrite;
    if history != [] {
      var before, b := history[..|history| - 1], history[|history| - 1];
      assert b in history;
      assert forall x :: x in before ==> x in history;
      IndexKeyAfter(db, before, n, i);
      WrittenValue(StoreAfter(db, before), Batch(b.saved), TxIndexKey(n, i));
      IndexKeyWritten(b.saved, b.height, n, i);
    }
  }

  lemma EmptyStoreLookups(hash: Hash, n: int64, i: int32)
    ensures GetByTxHash(map[], hash) == NotFound && Get(map[], TxIndexKey(n, i)) == None
  {
  }

  lemma OneLastSaved(all: seq<Saved>, hash: Hash, k: nat)
    requires IsLastSaved(all, hash, k)
    ensures LastOf(all, hash) == Some(k)
  {
  }

  /**
   After any history over the empty store a hash is not found exactly if no record was saved under it or the
   last one is all zeros; otherwise that one is found.  No lookup fails.
   */
  lemma LookupHashAfter(history: seq<BlockRecords>, hash: Hash)
    ensures var r, all := GetByTxHash(StoreAfter(map[], history), hash), AllSaved(history);
            && (r == NotFound <==>
                  || (forall k :: 0 <= k < |all| ==> all[k].hash != hash)
                  || (exists k: nat :: IsLastSaved(all, hash, k) && all[k].result == ZERO))
            && (forall k: nat :: IsLastSaved(all, hash, k) && all[k].result != ZERO ==> r == Found(all[k].result))
            && !r.Corrupt?
  {
    hide StoreAfter, AllSaved, GetByTxHash;
    var all := AllSaved(history);
    HashLookup(map[], history, hash);
    EmptyStoreLookups(hash, 0, 0);
    var j := LastOf(all, hash);
    if j.Some? {
      assert IsLastSaved(all, hash, j.value);
    }
    forall k: nat | IsLastSaved(all, hash, k) ensures j == Some(k) {
      OneLastSaved(all, hash, k);
    }
  }

  /**
   After any history over the empty store, heights repeated or not, a height and an index are not found exactly
   if no block of that height has so many records, or the hash recorded there last leads to a record that is
   all zeros; otherwise the last record under that hash is found.
   */
  lemma LookupIndexAfter(history: seq<BlockRecords>, n: int64, i: int32)
    requires Plausible(history)
    ensures var r, all := GetByBlockAndIndex(StoreAfter(map[], history), n, i), AllSaved(history);
            && ((forall m :: 0 <= m < |history| ==> !(history[m].height == n && 0 <= i < |history[m].saved|)) ==> r == NotFound)
            && (forall m: nat, k: nat :: IsLastBlock(history, n, i, m) && IsLastSaved(all, history[m].saved[i].hash, k) ==>
                  r == if all[k].result == ZERO then NotFound else Found(all[k].result))
            && (r == NotFound ==>
                  || (forall m :: 0 <= m < |history| ==> !(history[m].height == n && 0 <= i < |history[m].saved|))
                  || (exists m: nat, k: nat ::
                        IsLastBlock(history, n, i, m) && IsLastSaved(all, history[m].saved[i].hash, k) && all[k].result == ZERO))
            && !r.Corrupt?
  {
    hide StoreAfter, AllSaved, GetByTxHash, TxIndexKey, Plausible;
    var db, all, m := StoreAfter(map[], history), AllSaved(history), LastBlock(history, n, i);
    IndexKeyAfter(map[], history, n, i);
    EmptyStoreLookups(ZERO_HASH, n, i);
    if m.Some? {
      var hash := history[m.value].saved[i].hash;
      assert BytesToHash(hash) == hash;
      HashLookup(map[], history, hash);
      SavedInHistory(history, m.value, i);
      var k := LastOf(all, hash);
      assert IsLastSaved(all, hash, k.value);
      forall m': nat, k': nat | IsLastBlock(history, n, i, m') && IsLastSaved(all, history[m'].saved[i].hash, k')
        ensures m' == m.value && k' == k.value
      {
        OneLastBlock(history, n, i, m', m.value);
        OneLastSaved(all, hash, k');
      }
    }
  }

  lemma OneLastBlock(history: seq<BlockRecords>, n: int64, i: int32, m: nat, m': nat)
    requires IsLastBlock(history, n, i, m) && IsLastBlock(history, n, i, m')
    ensures m == m'
  {
  }
}
