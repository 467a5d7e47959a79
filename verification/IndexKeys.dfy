/**
 The keys of the eth tx index (eth/indexer/evm_tx_indexer.go), and the byte order in which
 the key-value store iterates over them.
 */
module IndexKeys {
  import opened Bytes
  import opened Sequences

  /** A 32-byte Ethereum hash. */
  type Hash = h: seq<byte> | |h| == 32 witness ZERO_HASH

  const ZERO_HASH: seq<byte> :=
    [0, 0, 0, 0, 0, 0, 0, 0, 0, 0, 0, 0, 0, 0, 0, 0,
     0, 0, 0, 0, 0, 0, 0, 0, 0, 0, 0, 0, 0, 0, 0, 0]

  // ----- big-endian numbers -----

  function BigEndian(size: nat, v: nat): (bs: seq<byte>)
    ensures |bs| == size
  {
    if size == 0 then [] else BigEndian(size - 1, v / 256) + [v % 256]
  }

  function FromBigEndian(bs: seq<byte>): nat {
    if bs == [] then 0 else FromBigEndian(bs[..|bs| - 1]) * 256 + bs[|bs| - 1]
  }

  function Pow256(size: nat): (p: nat)
    ensures p >= 1
  {
    if size == 0 then 1 else 256 * Pow256(size - 1)
  }

  lemma {:induction false} BigEndianRoundTrip(size: nat, v: nat)
    requires v < Pow256(size)
    ensures FromBigEndian(BigEndian(size, v)) == v
  {
    if size > 0 {
      var bs := BigEndian(size, v);
      assert bs[..size - 1] == BigEndian(size - 1, v / 256);
      BigEndianRoundTrip(size - 1, v / 256);
    }
  }

  lemma Uint64Fits(v: uint64)
    ensures v < Pow256(8)
  {
    assert Pow256(1) == 0x100;
    assert Pow256(2) == 0x1_0000;
    assert Pow256(3) == 0x100_0000;
    assert Pow256(4) == 0x1_0000_0000;
    assert Pow256(5) == 0x100_0000_0000;
    assert Pow256(6) == 0x1_0000_0000_0000;
    assert Pow256(7) == 0x100_0000_0000_0000;
  }

  // ----- byte order -----

  /** Big-endian prefixes of one size compare as numbers do; what follows decides between equal ones. */
  lemma {:induction false} BigEndianOrder(size: nat, v: nat, w: nat, x: seq<byte>, y: seq<byte>)
    requires v < Pow256(size) && w < Pow256(size)
    ensures Less(BigEndian(size, v) + x, BigEndian(size, w) + y) <==> v < w || (v == w && Less(x, y))
  {
    if size == 0 {
      assert BigEndian(size, v) + x == x && BigEndian(size, w) + y == y;
    } else {
      var x', y' := [v % 256] + x, [w % 256] + y;
      BigEndianOrder(size - 1, v / 256, w / 256, x', y');
      assert BigEndian(size, v) + x == BigEndian(size - 1, v / 256) + x';
      assert BigEndian(size, w) + y == BigEndian(size - 1, w / 256) + y';
      LessCons(v % 256, x, w % 256, y);
    }
  }

  // ----- the two families of keys -----

  const PREFIX_TX_HASH: byte := 1
  const PREFIX_TX_INDEX: byte := 2
  const TX_INDEX_KEY_LENGTH := 1 + 8 + 8

  function TxHashKey(hash: Hash): seq<byte> { [PREFIX_TX_HASH] + hash }

  function TxIndexKey(blockNumber: int64, txIndex: int32): (key: seq<byte>)
    ensures |key| == TX_INDEX_KEY_LENGTH
  {
    [PREFIX_TX_INDEX] + BigEndian(8, ToUint64(blockNumber)) + BigEndian(8, ToUint64(txIndex))
  }

  function ParseBlockNumberFromKey(key: seq<byte>): Option<int64> {
    if |key| != TX_INDEX_KEY_LENGTH then None else Some(ToInt64(FromBigEndian(key[1..9])))
  }

  lemma ParseTxIndexKey(blockNumber: int64, txIndex: int32)
    ensures ParseBlockNumberFromKey(TxIndexKey(blockNumber, txIndex)) == Some(blockNumber)
  {
    hide BigEndian, FromBigEndian, Pow256;
    var v := ToUint64(blockNumber);
    Uint64Fits(v);
    BigEndianRoundTrip(8, v);
    assert TxIndexKey(blockNumber, txIndex)[1..9] == BigEndian(8, v);
  }

  /** For all heights and indices, the order of the keys is the order of the pairs as unsigned numbers. */
  lemma TxIndexKeyOrder(h: int64, i: int32, h': int64, i': int32)
    ensures Less(TxIndexKey(h, i), TxIndexKey(h', i')) <==>
            ToUint64(h) < ToUint64(h') || (ToUint64(h) == ToUint64(h') && ToUint64(i) < ToUint64(i'))
  {
    hide BigEndian, Less, Pow256, ToUint64;
    var v, w, v', w' := ToUint64(h), ToUint64(i), ToUint64(h'), ToUint64(i');
    Uint64Fits(v);
    Uint64Fits(w);
    Uint64Fits(v');
    Uint64Fits(w');
    var x, x' := BigEndian(8, w), BigEndian(8, w');
    assert TxIndexKey(h, i) == [PREFIX_TX_INDEX] + (BigEndian(8, v) + x);
    assert TxIndexKey(h', i') == [PREFIX_TX_INDEX] + (BigEndian(8, v') + x');
    LessCons(PREFIX_TX_INDEX, BigEndian(8, v) + x, PREFIX_TX_INDEX, BigEndian(8, v') + x');
    BigEndianOrder(8, v, v', x, x');
    assert x + [] == x && x' + [] == x';
    BigEndianOrder(8, w, w', [], []);
    LessTotal([], []);
  }

  /** The key order is the order of the pairs on heights and indices that are not negative. */
  lemma TxIndexKeyOrderOfPairs(h: int64, i: int32, h': int64, i': int32)
    requires h >= 0 && i >= 0 && h' >= 0 && i' >= 0
    ensures Less(TxIndexKey(h, i), TxIndexKey(h', i')) <==> h < h' || (h == h' && i < i')
  {
    hide TxIndexKey;
    TxIndexKeyOrder(h, i, h', i');
  }

  lemma TxIndexKeyInjective(h: int64, i: int32, h': int64, i': int32)
    requires TxIndexKey(h, i) == TxIndexKey(h', i')
    ensures h == h' && i == i'
  {
    hide TxIndexKey, Less;
    TxIndexKeyOrder(h, i, h', i');
    TxIndexKeyOrder(h', i', h, i);
    LessTotal(TxIndexKey(h, i), TxIndexKey(h, i));
  }

  /** The range LoadFirstBlock and LoadLastBlock iterate over. */
  predicate InIndexRange(key: seq<byte>) {
    !Less(key, [PREFIX_TX_INDEX]) && Less(key, [PREFIX_TX_INDEX + 1])
  }

  /** The keys byte by byte: 1 and the hash; 2 and the two numbers, eight bytes each, as unsigned numbers. */
  lemma KeyBytes(hash: Hash, n: int64, i: int32)
    ensures TxHashKey(hash)[0] == 1 && TxHashKey(hash)[1..] == hash
    ensures var key := TxIndexKey(n, i);
            && |key| == 17 && key[0] == 2
            && FromBigEndian(key[1..9]) == (if n < 0 then n + TWO_64 else n)
            && FromBigEndian(key[9..]) == (if i < 0 then i + TWO_64 else i)
  {
    hide FromBigEndian, BigEndian;
    var key := TxIndexKey(n, i);
    assert key[1..9] == BigEndian(8, ToUint64(n)) && key[9..] == BigEndian(8, ToUint64(i));
    Uint64Fits(ToUint64(n));
    Uint64Fits(ToUint64(i));
    BigEndianRoundTrip(8, ToUint64(n));
    BigEndianRoundTrip(8, ToUint64(i));
  }

  /** The iterated range holds every index key and no hash key. */
  lemma IndexRangeSeparates(hash: Hash, h: int64, i: int32)
    ensures InIndexRange(TxIndexKey(h, i)) && !InIndexRange(TxHashKey(hash))
    ensures TxIndexKey(h, i) != TxHashKey(hash)
  {
  }
}
