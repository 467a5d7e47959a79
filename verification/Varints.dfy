/**
 Base-128 varints (Protocol Buffers Encoding, "Base 128 Varints"): the size formula and the
 writer of eth/indexer.pb.go, and the reading loop that file repeats for every field.
 */
module Varints {
  import opened Bytes

  /** The errors the generated decoder can return. */
  datatype WireError =
    | IntOverflow
    | UnexpectedEOF
    | InvalidLength
    | UnexpectedEndOfGroup
    | IllegalWireType
    | EndGroupForNonGroup
    | IllegalTag
    | WrongWireType

  // ----- what a varint is -----

  /** One to ten bytes; all but the last have the continuation bit. */
  predicate IsVarint(bs: seq<byte>) {
    && 1 <= |bs| <= 10
    && bs[|bs| - 1] < 128
    && forall j :: 0 <= j < |bs| - 1 ==> bs[j] >= 128
  }

  /** Seven bits a byte, least significant group first. */
  function VarintValue(bs: seq<byte>): nat {
    if bs == [] then 0 else bs[0] % 128 + 128 * VarintValue(bs[1..])
  }

  // ----- writing -----

  function Varint(v: nat): (bs: seq<byte>)
    ensures |bs| >= 1
  {
    if v < 128 then [v] else [v % 128 + 128] + Varint(v / 128)
  }

  /** math/bits.Len64 */
  function BitLen(x: nat): nat {
    if x == 0 then 0 else 1 + BitLen(x / 2)
  }

  /** `x | 1` */
  function Or1(x: nat): nat { if x % 2 == 0 then x + 1 else x }

  function Sov(x: nat): nat { (BitLen(Or1(x)) + 6) / 7 }

  lemma Halve7(x: nat)
    ensures x / 2 / 2 / 2 / 2 / 2 / 2 / 2 == x / 128
  {
  }

  lemma BitLenShift3(x: nat)
    requires x >= 8
    ensures BitLen(x) == 3 + BitLen(x / 2 / 2 / 2)
  {
    assert BitLen(x) == 1 + BitLen(x / 2);
    assert BitLen(x / 2) == 1 + BitLen(x / 2 / 2);
    assert BitLen(x / 2 / 2) == 1 + BitLen(x / 2 / 2 / 2);
  }

  lemma BitLenShift7(x: nat)
    requires x >= 128
    ensures BitLen(x) == 7 + BitLen(x / 128)
  {
    BitLenShift3(x);
    var y := x / 2 / 2 / 2;
    BitLenShift3(y);
    var z := y / 2 / 2 / 2;
    assert BitLen(z) == 1 + BitLen(z / 2);
    Halve7(x);
  }

  lemma {:induction false} BitLenBound(x: nat, bits: nat, bound: nat)
    requires 0 < x < bound && bound == Pow2(bits)
    ensures 1 <= BitLen(x) <= bits
  {
    if x >= 2 {
      BitLenBound(x / 2, bits - 1, bound / 2);
    }
  }

  function Pow2(k: nat): nat {
    if k == 0 then 1 else 2 * Pow2(k - 1)
  }

  /** The closed formula counts exactly the bytes the writer produces. */
  lemma {:induction false} SovIsLength(x: nat)
    ensures Sov(x) == |Varint(x)|
  {
    if x < 128 {
      assert Pow2(7) == 128;
      BitLenBound(Or1(x), 7, 128);
    } else {
      BitLenShift7(Or1(x));
      assert Or1(x) / 128 == x / 128;
      BitLenOr1(x / 128);
      SovIsLength(x / 128);
    }
  }

  lemma BitLenOr1(x: nat)
    requires x > 0
    ensures BitLen(Or1(x)) == BitLen(x)
  {
    assert Or1(x) / 2 == x / 2;
  }

  lemma {:induction false} VarintIsVarint(v: nat, k: nat)
    requires 1 <= k <= 10 && v < Pow128(k)
    ensures |Varint(v)| <= k
    ensures IsVarint(Varint(v))
    ensures VarintValue(Varint(v)) == v
  {
    if v >= 128 {
      VarintIsVarint(v / 128, k - 1);
      var tail := Varint(v / 128);
      assert Varint(v)[1..] == tail;
      assert forall j :: 1 <= j < |Varint(v)| ==> Varint(v)[j] == tail[j - 1];
    } else {
      assert Varint(v)[1..] == [];
    }
  }

  function Pow128(k: nat): (p: nat)
    ensures p >= 1
  {
    if k == 0 then 1 else 128 * Pow128(k - 1)
  }

  lemma Pow128At10()
    ensures Pow128(10) >= 0x1_0000_0000_0000_0000
  {
    assert Pow128(1) == 128;
    assert Pow128(2) == 16384;
    assert Pow128(3) == 2097152;
    assert Pow128(4) == 268435456;
    assert Pow128(5) == 34359738368;
    assert Pow128(6) == 128 * 34359738368;
    assert Pow128(7) == 16384 * 34359738368;
    assert Pow128(8) == 2097152 * 34359738368;
    assert Pow128(9) == 268435456 * 34359738368;
  }

  /** Every 64-bit value is written as a varint of at most ten bytes that denotes it. */
  lemma VarintOfUint64(v: uint64)
    ensures IsVarint(Varint(v))
    ensures VarintValue(Varint(v)) == v
    ensures |Varint(v)| == Sov(v)
  {
    Pow128At10();
    VarintIsVarint(v, 10);
    SovIsLength(v);
  }

  /** `dAtA[i] = b`, seen from an earlier index `lo` and a later index `hi`. */
  method StoreByte(dAtA: array<byte>, lo: nat, i: nat, hi: nat, b: byte)
    requires lo <= i < hi <= dAtA.Length
    modifies dAtA
    ensures dAtA[lo..i + 1] == old(dAtA[lo..i]) + [b]
    ensures dAtA[..lo] == old(dAtA[..lo])
    ensures dAtA[hi..] == old(dAtA[hi..])
  {
    dAtA[i] := b;
  }

  lemma NextByte(before: seq<byte>, w: nat)
    ensures w < 128 ==> Varint(w) == [w]
    ensures w >= 128 ==> |Varint(w)| == 1 + |Varint(w / 128)|
    ensures w >= 128 ==> before + Varint(w) == before + [w % 128 + 128] + Varint(w / 128)
  {
  }

  /** encodeVarintIndexer: writes the bytes of `v` so that they end just before `offset`. */
  method EncodeVarint(dAtA: array<byte>, offset: nat, v: uint64) returns (base: nat)
    requires Sov(v) <= offset <= dAtA.Length
    modifies dAtA
    ensures base == offset - Sov(v)
    ensures dAtA[base..offset] == Varint(v)
    ensures dAtA[..base] == old(dAtA[..base])
    ensures dAtA[offset..] == old(dAtA[offset..])
  {
    hide Sov, Varint;
    SovIsLength(v);
    var i := offset - Sov(v);
    base := i;
    var w: nat := v;
    while w >= 128
      invariant base <= i && i + |Varint(w)| == offset
      invariant dAtA[base..i] + Varint(w) == Varint(v)
      invariant dAtA[..base] == old(dAtA[..base])
      invariant dAtA[offset..] == old(dAtA[offset..])
      decreases w
    {
      ghost var before := dAtA[base..i];
      NextByte(before, w);
      StoreByte(dAtA, base, i, offset, w % 128 + 128);
      w := w / 128;
      i := i + 1;
    }
    NextByte(dAtA[base..i], w);
    StoreByte(dAtA, base, i, offset, w);
  }

  // ----- reading -----

  /** What a reading loop has gathered when it stops, well or not. */
  datatype VarintRead = VarintRead(value: nat, next: nat, err: Option<WireError>)

  /** Reads from index `i` after `k` bytes of the same varint have been taken. */
  function ReadFrom(s: seq<byte>, i: nat, k: nat): (r: VarintRead)
    requires i <= |s| && k <= 10
    ensures i <= r.next <= |s|
    ensures r.err == None ==> i < r.next
    decreases 10 - k
  {
    if k == 10 then VarintRead(0, i, Some(IntOverflow))
    else if i == |s| then VarintRead(0, i, Some(UnexpectedEOF))
    else if s[i] < 128 then VarintRead(s[i], i + 1, None)
    else
      var r := ReadFrom(s, i + 1, k + 1);
      VarintRead(s[i] % 128 + 128 * r.value, r.next, r.err)
  }

  function Read(s: seq<byte>, i: nat): (r: VarintRead)
    requires i <= |s|
    ensures i <= r.next <= |s|
    ensures r.err == None ==> i < r.next
  {
    ReadFrom(s, i, 0)
  }

  lemma {:induction false} ReadFromComplete(s: seq<byte>, i: nat, k: nat, n: nat)
    requires i < n <= |s| && k + (n - i) <= 10
    requires IsVarint(s[i..n])
    ensures ReadFrom(s, i, k) == VarintRead(VarintValue(s[i..n]), n, None)
    decreases n - i
  {
    var bs := s[i..n];
    if n == i + 1 {
      assert bs[1..] == [];
      assert s[i] == bs[0];
    } else {
      assert s[i] == bs[0];
      assert bs[1..] == s[i + 1..n];
      ReadFromComplete(s, i + 1, k + 1, n);
    }
  }

  lemma {:induction false} ReadFromSound(s: seq<byte>, i: nat, k: nat)
    requires i <= |s| && k <= 10
    requires ReadFrom(s, i, k).err == None
    ensures var r := ReadFrom(s, i, k);
            && k + (r.next - i) <= 10
            && IsVarint(s[i..r.next])
            && r.value == VarintValue(s[i..r.next])
    decreases 10 - k
  {
    var r := ReadFrom(s, i, k);
    var bs := s[i..r.next];
    if s[i] < 128 {
      assert bs == [s[i]];
      assert bs[1..] == [];
    } else {
      ReadFromSound(s, i + 1, k + 1);
      assert bs[1..] == s[i + 1..r.next];
      assert forall j :: 1 <= j < |bs| ==> bs[j] == bs[1..][j - 1];
    }
  }

  /** The loop succeeds, ending at `n`, exactly when a well-formed varint lies in `i..n`. */
  lemma ReadIffVarint(s: seq<byte>, i: nat, n: nat)
    requires i <= n <= |s|
    ensures Read(s, i).err == None && Read(s, i).next == n <==> IsVarint(s[i..n])
    ensures IsVarint(s[i..n]) ==> Read(s, i).value == VarintValue(s[i..n])
  {
    if Read(s, i).err == None && Read(s, i).next == n {
      ReadFromSound(s, i, 0);
    }
    if IsVarint(s[i..n]) {
      ReadFromComplete(s, i, 0, n);
    }
  }

  predicate AllContinue(s: seq<byte>, i: nat, n: nat)
    requires i <= n <= |s|
  {
    forall k :: i <= k < n ==> s[k] >= 128
  }

  lemma {:induction false} ReadFromFails(s: seq<byte>, i: nat, k: nat)
    requires i <= |s| && k <= 10
    ensures ReadFrom(s, i, k).err == Some(IntOverflow) <==> i + (10 - k) <= |s| && AllContinue(s, i, i + (10 - k))
    ensures ReadFrom(s, i, k).err == Some(UnexpectedEOF) <==> |s| < i + (10 - k) && AllContinue(s, i, |s|)
    ensures ReadFrom(s, i, k).err in {None, Some(IntOverflow), Some(UnexpectedEOF)}
    decreases 10 - k
  {
    if k < 10 && i < |s| && s[i] >= 128 {
      ReadFromFails(s, i + 1, k + 1);
    }
  }

  /**
   Reading fails exactly if no byte ends the varint in time: with an overflow if ten bytes go on, and with an
   unexpected end if fewer than ten are left and all of them go on.
   */
  lemma ReadFails(s: seq<byte>, i: nat)
    requires i <= |s|
    ensures Read(s, i).err == Some(IntOverflow) <==> i + 10 <= |s| && AllContinue(s, i, i + 10)
    ensures Read(s, i).err == Some(UnexpectedEOF) <==> |s| < i + 10 && AllContinue(s, i, |s|)
    ensures Read(s, i).err in {None, Some(IntOverflow), Some(UnexpectedEOF)}
  {
    ReadFromFails(s, i, 0);
  }

  // ----- or-ing bits in -----

  /** `a | b` */
  function Or(a: nat, b: nat): nat {
    if a == 0 && b == 0 then 0
    else 2 * Or(a / 2, b / 2) + if a % 2 == 1 || b % 2 == 1 then 1 else 0
  }

  lemma {:induction false} OrZero(a: nat)
    ensures Or(a, 0) == a && Or(0, a) == a
  {
    if a > 0 {
      OrZero(a / 2);
    }
  }

  lemma DoubleHalf(c: nat, p: nat)
    ensures c * (2 * p) / 2 == c * p && c * (2 * p) % 2 == 0
  {
    assert c * (2 * p) == 2 * (c * p);
  }

  /** Or-ing in bits above a set of lower bits adds them. */
  lemma {:induction false} OrDisjoint(a: nat, c: nat, k: nat)
    requires a < Pow2(k)
    ensures Or(a, c * Pow2(k)) == a + c * Pow2(k)
  {
    if k == 0 {
      OrZero(c);
    } else {
      DoubleHalf(c, Pow2(k - 1));
      OrDisjoint(a / 2, c, k - 1);
    }
  }

  lemma {:induction false} Pow2Add(a: nat, b: nat)
    ensures Pow2(a + b) == Pow2(a) * Pow2(b) && Pow2(a) > 0
  {
    if a > 0 {
      Pow2Add(a - 1, b);
      DoubleTimes(Pow2(a - 1), Pow2(b));
    }
  }

  lemma DoubleTimes(x: nat, y: nat)
    ensures 2 * x * y == 2 * (x * y)
  {
  }

  lemma NonzeroMultiple(d: int, m: int)
    requires m > 0
    ensures d == 0 || d * m >= m || d * m <= -m
  {
    if d >= 1 {
      assert (d - 1) * m >= 0;
    } else if d <= -1 {
      assert (-1 - d) * m >= 0;
    }
  }

  lemma ModUnique(x: int, q: int, r: int, m: int)
    requires m > 0 && x == q * m + r && 0 <= r < m
    ensures x % m == r
  {
    var q' := x / m;
    assert x == q' * m + x % m;
    assert (q - q') * m == q * m - q' * m;
    NonzeroMultiple(q - q', m);
  }

  lemma Product(a: int, b: int)
    requires a >= 0 && b >= 0
    ensures a * b >= 0
  {
  }

  lemma SplitProduct(b: nat, c: nat, p: nat)
    requires c > 0
    ensures b * p == b / c * (c * p) + b % c * p
    ensures 0 <= b % c * p && b % c * p + p <= c * p
  {
    var q, r := b / c, b % c;
    assert b == q * c + r;
    assert (q * c + r) * p == q * c * p + r * p;
    assert q * c * p == q * (c * p);
    Product(c - 1 - r, p);
    assert (c - 1 - r) * p == c * p - p - r * p;
  }

  /** Bits or-ed in at the place worth p, below the top: those that do not fit c places fall off. */
  lemma OrBelow(total: nat, b: nat, p: nat, c: nat, j: nat)
    requires p == Pow2(j) && c > 0 && total < p
    ensures c * p > 0 && Or(total % (c * p), b * p % (c * p)) == (total + b * p) % (c * p)
  {
    hide Or, Pow2;
    SplitProduct(b, c, p);
    OrDisjoint(total, b % c, j);
    OrRemainders(total, b * p, b / c, b % c * p, c * p);
  }

  lemma OrRemainders(total: nat, x: nat, q: nat, r: nat, w: nat)
    requires x == q * w + r && total + r < w && Or(total, r) == total + r
    ensures Or(total % w, x % w) == (total + x) % w
  {
    hide Or;
    ModUnique(x, q, r, w);
    ModUnique(total, 0, total, w);
    ModUnique(total + x, q, total + r, w);
  }

  /** Bits or-ed in past the top all fall off. */
  lemma OrAbove(total: nat, b: nat, w: nat, c: nat)
    requires w > 0
    ensures Or(total % w, b * (w * c) % w) == (total + b * (w * c)) % w
  {
    assert b * (w * c) == b * c * w;
    ModUnique(b * (w * c), b * c, 0, w);
    assert (total / w + b * c) * w == total / w * w + b * c * w;
    ModUnique(total + b * (w * c), total / w + b * c, total % w, w);
    OrZero(total % w);
  }

  /** In an accumulator of `bits` bits that holds `total`, `|= b << shift` adds what is not shifted out. */
  lemma OrAccumulates(total: nat, b: nat, shift: nat, bits: nat)
    requires total < Pow2(shift)
    ensures Pow2(bits) > 0
    ensures Or(total % Pow2(bits), b * Pow2(shift) % Pow2(bits)) == (total + b * Pow2(shift)) % Pow2(bits)
  {
    hide Pow2, Or;
    if shift < bits {
      Pow2Add(bits - shift, shift);
      Pow2Add(shift, 0);
      OrBelow(total, b, Pow2(shift), Pow2(bits - shift), shift);
    } else {
      Pow2Add(bits, shift - bits);
      OrAbove(total, b, Pow2(bits), Pow2(shift - bits));
    }
  }

  lemma WordSizes()
    ensures Pow2(32) == TWO_32 && Pow2(64) == TWO_64
  {
    assert Pow2(8) == 256;
    Pow2Add(8, 8);
    Pow2Add(16, 16);
    Pow2Add(32, 32);
  }

  lemma NextShift(total: nat, b: nat, shift: nat)
    requires total < Pow2(shift)
    ensures Pow2(shift + 7) == Pow2(shift) * 128
    ensures total + b % 128 * Pow2(shift) < Pow2(shift + 7)
  {
    SevenBits();
    hide Pow2;
    Pow2Add(shift, 7);
    SplitProduct(b, 128, Pow2(shift));
  }

  lemma SevenBits()
    ensures Pow2(7) == 128
  {
  }

  /** The seven bits of a byte, shifted to the place worth `weight`. */
  function Shifted(b: byte, weight: nat): nat { b % 128 * weight }

  /** `total` gathered so far and, each unit worth `weight`, the rest `r` make up `whole`. */
  ghost predicate Gathered(whole: VarintRead, total: nat, weight: nat, r: VarintRead) {
    whole.value == total + weight * r.value && whole.next == r.next && whole.err == r.err
  }

  lemma GatherStart(r: VarintRead)
    ensures Gathered(r, 0, 1, r)
  {
  }

  lemma GatherEnd(s: seq<byte>, i: nat, k: nat, whole: VarintRead, total: nat, weight: nat)
    requires i <= |s| && k <= 10 && (i == |s| || k == 10)
    requires Gathered(whole, total, weight, ReadFrom(s, i, k))
    ensures whole == VarintRead(total, i, Some(if k == 10 then IntOverflow else UnexpectedEOF))
  {
  }

  lemma MulSplit(p: nat, a: nat, b: nat)
    ensures p * (a + 128 * b) == a * p + p * 128 * b
  {
  }

  lemma GatherStep(s: seq<byte>, i: nat, k: nat, whole: VarintRead, total: nat, weight: nat)
    requires i < |s| && k < 10
    requires Gathered(whole, total, weight, ReadFrom(s, i, k))
    ensures s[i] < 128 ==> whole == VarintRead(total + Shifted(s[i], weight), i + 1, None)
    ensures s[i] >= 128 ==>
              Gathered(whole, total + Shifted(s[i], weight), weight * 128, ReadFrom(s, i + 1, k + 1))
  {
    if s[i] >= 128 {
      MulSplit(weight, s[i] % 128, ReadFrom(s, i + 1, k + 1).value);
    }
  }

  /**
   The loop of eth/indexer.pb.go:227-240 into an accumulator of 32 or 64 bits; bits shifted out
   of the accumulator are dropped.
   */
  method ReadVarint(dAtA: seq<byte>, iNdEx: nat, modulus: nat) returns (acc: nat, next: nat, err: Option<WireError>)
    requires iNdEx <= |dAtA|
    requires modulus == TWO_32 || modulus == TWO_64
    ensures acc == Read(dAtA, iNdEx).value % modulus
    ensures next == Read(dAtA, iNdEx).next
    ensures err == Read(dAtA, iNdEx).err
  {
    hide ReadFrom, Gathered, Shifted, Pow2, Or;
    ghost var whole := Read(dAtA, iNdEx);
    ghost var total: nat, k: nat := 0, 0;
    acc, next, err := 0, iNdEx, None;
    var shift: nat := 0;
    GatherStart(whole);
    ShiftStart();
    while true
      invariant 0 <= k <= 10 && shift == 7 * k && iNdEx <= next <= |dAtA|
      invariant acc == total % modulus && total < Pow2(shift)
      invariant Gathered(whole, total, Pow2(shift), ReadFrom(dAtA, next, k))
      decreases 10 - k
    {
      if shift >= 64 {
        GatherEnd(dAtA, next, k, whole, total, Pow2(shift));
        return acc, next, Some(IntOverflow);
      }
      if next >= |dAtA| {
        GatherEnd(dAtA, next, k, whole, total, Pow2(shift));
        return acc, next, Some(UnexpectedEOF);
      }
      GatherStep(dAtA, next, k, whole, total, Pow2(shift));
      var b := dAtA[next];
      next := next + 1;
      OrShifted(total, b, shift, modulus);
      acc := Or(acc, Shifted(b, Pow2(shift)) % modulus);
      total := total + Shifted(b, Pow2(shift));
      if b < 128 {
        return acc, next, None;
      }
      shift := shift + 7;
      k := k + 1;
    }
  }

  lemma ShiftStart()
    ensures Pow2(0) == 1
  {
  }

  /** One round of the loop. */
  lemma OrShifted(total: nat, b: byte, shift: nat, modulus: nat)
    requires total < Pow2(shift) && (modulus == TWO_32 || modulus == TWO_64)
    ensures Or(total % modulus, Shifted(b, Pow2(shift)) % modulus) == (total + Shifted(b, Pow2(shift))) % modulus
    ensures total + Shifted(b, Pow2(shift)) < Pow2(shift + 7) && Pow2(shift + 7) == Pow2(shift) * 128
  {
    hide Pow2, Or;
    WordSizes();
    OrAccumulates(total, b % 128, shift, if modulus == TWO_32 then 32 else 64);
    NextShift(total, b, shift);
  }
}
