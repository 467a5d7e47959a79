/**
 The codec of TxResult (eth/indexer.pb.go): the writer that fills a buffer backwards, and the
 reader, which takes known fields, lets the last one win, and skips unknown ones.
 */
module TxResultCodec {
  import opened Bytes
  import opened Varints
  import opened Wire

  /** The value stored in the eth tx index. */
  datatype TxResult = TxResult(
    height: int64,
    txIndex: uint32,
    msgIndex: uint32,
    ethTxIndex: int32,
    failed: bool,
    gasUsed: uint64,
    cumulativeGasUsed: uint64)

  const ZERO := TxResult(0, 0, 0, 0, false, 0, 0)

  /** Field-wise merge: the second one's non-zero fields win. */
  function Merge(a: TxResult, b: TxResult): TxResult {
    TxResult(
      if b.height != 0 then b.height else a.height,
      if b.txIndex != 0 then b.txIndex else a.txIndex,
      if b.msgIndex != 0 then b.msgIndex else a.msgIndex,
      if b.ethTxIndex != 0 then b.ethTxIndex else a.ethTxIndex,
      b.failed || a.failed,
      if b.gasUsed != 0 then b.gasUsed else a.gasUsed,
      if b.cumulativeGasUsed != 0 then b.cumulativeGasUsed else a.cumulativeGasUsed)
  }

  // ----- fields by number -----

  /** The 64-bit value written for a field: signed ones are converted, so a negative int32 takes ten bytes. */
  function Raw(m: TxResult, num: nat): uint64
    requires 1 <= num <= 7
  {
    match num
    case 1 => ToUint64(m.height)
    case 2 => m.txIndex
    case 3 => m.msgIndex
    case 4 => ToUint64(m.ethTxIndex)
    case 5 => if m.failed then 1 else 0
    case 6 => m.gasUsed
    case 7 => m.cumulativeGasUsed
  }

  /** What reading the varint `v` for a field leaves in the struct. */
  function SetField(m: TxResult, num: nat, v: nat): TxResult
    requires 1 <= num <= 7
  {
    match num
    case 1 => m.(height := ToInt64(v))
    case 2 => m.(txIndex := ToUint32(v))
    case 3 => m.(msgIndex := ToUint32(v))
    case 4 => m.(ethTxIndex := ToInt32(v))
    case 5 => m.(failed := ToInt64(v) != 0)
    case 6 => m.(gasUsed := ToUint64(v))
    case 7 => m.(cumulativeGasUsed := ToUint64(v))
  }

  // ----- writing -----

  function EncodeField(num: nat, raw: uint64): seq<byte>
    requires 1 <= num <= 7
  {
    if raw == 0 then [] else [num * 8] + Varint(raw)
  }

  function EncodeFrom(m: TxResult, num: nat): seq<byte>
    requires 1 <= num <= 8
    decreases 8 - num
  {
    if num == 8 then [] else EncodeField(num, Raw(m, num)) + EncodeFrom(m, num + 1)
  }

  function Encode(m: TxResult): seq<byte> { EncodeFrom(m, 1) }

  function FieldSize(raw: uint64): nat { if raw == 0 then 0 else 1 + Sov(raw) }

  /** TxResult.Size */
  function Size(m: TxResult): nat {
    FieldSize(ToUint64(m.height)) + FieldSize(m.txIndex) + FieldSize(m.msgIndex) + FieldSize(ToUint64(m.ethTxIndex))
    + (if m.failed then 2 else 0) + FieldSize(m.gasUsed) + FieldSize(m.cumulativeGasUsed)
  }

  lemma FieldSizeIsLength(num: nat, raw: uint64)
    requires 1 <= num <= 7
    ensures |EncodeField(num, raw)| == FieldSize(raw)
  {
    SovIsLength(raw);
  }

  lemma SizeFrom(m: TxResult, num: nat)
    requires 1 <= num <= 7
    ensures |EncodeFrom(m, num)| == FieldSize(Raw(m, num)) + |EncodeFrom(m, num + 1)|
  {
    FieldSizeIsLength(num, Raw(m, num));
  }

  /** The precomputed size is the length of the encoding. */
  lemma SizeIsLength(m: TxResult)
    ensures Size(m) == |Encode(m)|
  {
    hide EncodeFrom, FieldSize;
    SizeFrom(m, 1);
    SizeFrom(m, 2);
    SizeFrom(m, 3);
    SizeFrom(m, 4);
    SizeFrom(m, 5);
    SizeFrom(m, 6);
    SizeFrom(m, 7);
    EncodeNothing(m);
    BoolSize(m.failed);
  }

  lemma EncodeNothing(m: TxResult)
    ensures EncodeFrom(m, 8) == []
  {
  }

  lemma BoolSize(b: bool)
    ensures FieldSize(if b then 1 else 0) == if b then 2 else 0
  {
    assert BitLen(1) == 1 + BitLen(0);
  }

  /** Writes a tag and a varint just before index `i`. */
  method PutTagged(dAtA: array<byte>, i: nat, tag: byte, raw: uint64) returns (j: nat)
    requires 1 + Sov(raw) <= i <= dAtA.Length
    modifies dAtA
    ensures j == i - 1 - Sov(raw)
    ensures dAtA[j..] == [tag] + Varint(raw) + old(dAtA[i..])
    ensures dAtA[..j] == old(dAtA[..j])
  {
    hide Sov, Varint;
    j := EncodeVarint(dAtA, i, raw);
    assert dAtA[j..] == dAtA[j..i] + dAtA[i..];
    assert dAtA[..j - 1] == old(dAtA[..j - 1]) by {
      assert dAtA[..j][..j - 1] == dAtA[..j - 1];
      assert old(dAtA[..j])[..j - 1] == old(dAtA[..j - 1]);
    }
    j := j - 1;
    StoreByte(dAtA, j, j, j + 1, tag);
    assert dAtA[j..] == dAtA[j..j + 1] + dAtA[j + 1..];
  }

  /** Writes one field, if it is not zero, just before index `i`; nothing below `low` is touched. */
  method PutField(dAtA: array<byte>, i: nat, num: nat, raw: uint64, ghost low: nat, ghost m: TxResult) returns (j: nat)
    requires 1 <= num <= 7 && raw == Raw(m, num)
    requires low + FieldSize(raw) <= i <= dAtA.Length && dAtA[i..] == EncodeFrom(m, num + 1)
    modifies dAtA
    ensures j == i - FieldSize(raw)
    ensures dAtA[j..] == EncodeFrom(m, num)
    ensures dAtA[..low] == old(dAtA[..low])
  {
    hide Sov, Raw, Varint;
    j := i;
    if raw != 0 {
      j := PutTagged(dAtA, i, num * 8, raw);
      assert dAtA[..j][..low] == dAtA[..low];
      assert old(dAtA[..j])[..low] == old(dAtA[..low]);
    }
  }

  // ----- reading -----

  /** `int32(wire >> 3)` */
  function FieldNum(v: nat): int32 { ToInt32(v % TWO_64 / 8) }

  datatype DecodeResult = Decoded(m: TxResult, err: Option<WireError>)

  datatype DecodeStep = Next(next: nat, m: TxResult) | Stop(m: TxResult, err: WireError)

  /** One round of the reading loop: a whole field, or the struct as it stands when an error stops the loop. */
  function ReadField(s: seq<byte>, i: nat, m: TxResult): (r: DecodeStep)
    requires i < |s|
    ensures r.Next? ==> i < r.next <= |s|
  {
    var t := Read(s, i);
    var num := FieldNum(t.value);
    if t.err.Some? then Stop(m, t.err.value)
    else if t.value % 8 == 4 then Stop(m, EndGroupForNonGroup)
    else if num <= 0 then Stop(m, IllegalTag)
    else if num > 7 then SkipUnknown(s, i, m)
    else if t.value % 8 != 0 then Stop(m, WrongWireType)
    else
      var v := Read(s, t.next);
      if v.err == None then Next(v.next, SetField(m, num, v.value))
      else Stop(if num == 5 then m else SetField(m, num, v.value), v.err.value)
  }

  function SkipUnknown(s: seq<byte>, i: nat, m: TxResult): (r: DecodeStep)
    requires i < |s|
    ensures r.Next? ==> i < r.next <= |s|
  {
    match SkipFrom(s[i..], 0, 0)
    case SkipFailed(e) => Stop(m, e)
    case Skipped(n) =>
      if i + n >= TWO_63 then Stop(m, InvalidLength)
      else if i + n > |s| then Stop(m, UnexpectedEOF)
      else Next(i + n, m)
  }

  function DecodeFrom(s: seq<byte>, i: nat, m: TxResult): DecodeResult
    requires i <= |s|
    decreases |s| - i
  {
    if i == |s| then Decoded(m, None)
    else
      match ReadField(s, i, m)
      case Stop(m', e) => Decoded(m', Some(e))
      case Next(n, m') => DecodeFrom(s, n, m')
  }

  function Decode(s: seq<byte>, m: TxResult): DecodeResult { DecodeFrom(s, 0, m) }

  // ----- reading accepts exactly the sequences of admissible fields -----

  function NumOf(f: Field): int32 { FieldNum(VarintValue(f.tag)) }

  /** Well formed, with a positive number, and a varint if the number is a known one. */
  predicate Admissible(f: Field) {
    WellFormed(f) && NumOf(f) > 0 && (NumOf(f) <= 7 ==> f.VarintField?)
  }

  predicate AllAdmissible(fs: Fields) {
    fs.Cons? ==> Admissible(fs.head) && AllAdmissible(fs.tail)
  }

  function Apply(m: TxResult, f: Field): TxResult
    requires Admissible(f)
  {
    if NumOf(f) <= 7 then SetField(m, NumOf(f), VarintValue(f.value)) else m
  }

  function ApplyAll(m: TxResult, fs: Fields): TxResult
    requires AllAdmissible(fs)
    decreases fs
  {
    match fs
    case Nil => m
    case Cons(f, rest) => ApplyAll(Apply(m, f), rest)
  }

  lemma FieldInSuffix(f: Field, s: seq<byte>, i: nat, n: nat)
    requires i <= n <= |s|
    ensures FieldAt(f, s[i..], 0, n - i) <==> FieldAt(f, s, i, n)
  {
    assert s[i..][0..n - i] == s[i..n];
  }

  lemma ReadsField(s: seq<byte>, i: nat, n: nat, f: Field, m: TxResult)
    requires |s| < TWO_63 && Admissible(f) && FieldAt(f, s, i, n)
    ensures i < n && ReadField(s, i, m) == Next(n, Apply(m, f))
  {
    hide Read, IsVarint, VarintValue, FieldNum, SetField;
    TagRead(s, i, n, f);
    if NumOf(f) <= 7 {
      TagAt(s, i, n, f.tag, f.value);
      TagAt(s, i + |f.tag|, n, f.value, []);
    } else {
      FieldInSuffix(f, s, i, n);
      SkipOverField(s[i..], 0, n - i, f, 0);
    }
  }

  /** The tag in front of a field, whatever its kind. */
  lemma TagRead(s: seq<byte>, i: nat, n: nat, f: Field)
    requires WellFormed(f) && FieldAt(f, s, i, n)
    ensures i + |f.tag| <= n && |f.tag| >= 1
    ensures Read(s, i) == VarintRead(VarintValue(f.tag), i + |f.tag|, None)
    ensures VarintValue(f.tag) % 8 != 4
    ensures VarintValue(f.tag) % 8 == 0 <==> f.VarintField?
  {
    hide Read, VarintValue;
    var rest := Render(f)[|f.tag|..];
    assert Render(f) == f.tag + rest;
    TagAt(s, i, n, f.tag, rest);
  }

  /** The field a successful round has read. */
  lemma FieldRead(s: seq<byte>, i: nat, m: TxResult) returns (f: Field)
    requires i < |s| < TWO_63 && ReadField(s, i, m).Next?
    ensures Admissible(f) && FieldAt(f, s, i, ReadField(s, i, m).next)
    ensures ReadField(s, i, m).m == Apply(m, f)
  {
    hide Read, IsVarint, VarintValue, FieldNum, SetField;
    var t := Read(s, i);
    var n := ReadField(s, i, m).next;
    ReadIffVarint(s, i, t.next);
    if FieldNum(t.value) <= 7 {
      ReadIffVarint(s, t.next, n);
      f := VarintField(s[i..t.next], s[t.next..n]);
    } else {
      f := FieldSkippedOver(s[i..], 0);
      FieldInSuffix(f, s, i, n);
      SameTag(s, i);
    }
  }

  /** A tag at `i` is the tag at the front of the suffix from `i`. */
  lemma SameTag(s: seq<byte>, i: nat)
    requires i <= |s| && Read(s, i).err == None
    ensures s[i..][0..Read(s[i..], 0).next] == s[i..Read(s, i).next]
  {
    hide Read, IsVarint;
    var n := Read(s, i).next;
    ReadIffVarint(s, i, n);
    assert s[i..][0..n - i] == s[i..n];
    ReadIffVarint(s[i..], 0, n - i);
  }

  lemma {:induction false} DecodesFields(s: seq<byte>, i: nat, n: nat, fs: Fields, m: TxResult)
    requires |s| < TWO_63 && AllAdmissible(fs)
    requires i <= n <= |s| && s[i..n] == RenderAll(fs)
    ensures DecodeFrom(s, i, m) == DecodeFrom(s, n, ApplyAll(m, fs))
    decreases fs
  {
    hide ReadField, Admissible;
    if fs.Cons? {
      var f := fs.head;
      SplitAt(s, i, n, Render(f), RenderAll(fs.tail));
      var j := i + |Render(f)|;
      ReadsField(s, i, j, f, m);
      DecodesFields(s, j, n, fs.tail, Apply(m, f));
    }
  }

  lemma {:induction false} FieldsDecoded(s: seq<byte>, i: nat, m: TxResult) returns (fs: Fields)
    requires i <= |s| < TWO_63 && DecodeFrom(s, i, m).err == None
    ensures AllAdmissible(fs) && s[i..] == RenderAll(fs)
    ensures DecodeFrom(s, i, m).m == ApplyAll(m, fs)
    decreases |s| - i
  {
    hide ReadField, Admissible;
    if i == |s| {
      fs := Nil;
    } else {
      var step := ReadField(s, i, m);
      var f := FieldRead(s, i, m);
      fs := FieldsDecoded(s, step.next, step.m);
      assert s[i..] == s[i..step.next] + s[step.next..];
      fs := Cons(f, fs);
    }
  }

  /** `fs` is a way to read all of `s` that turns `m` into `m'`. */
  ghost predicate Reads(s: seq<byte>, fs: Fields, m: TxResult, m': TxResult) {
    AllAdmissible(fs) && RenderAll(fs) == s && ApplyAll(m, fs) == m'
  }

  /** Unmarshal accepts exactly the sequences of admissible fields, applied in order. */
  lemma DecodeIffFields(s: seq<byte>, i: nat, m: TxResult, m': TxResult)
    requires i <= |s| < TWO_63
    ensures DecodeFrom(s, i, m) == Decoded(m', None) <==> exists fs :: Reads(s[i..], fs, m, m')
  {
    if DecodeFrom(s, i, m) == Decoded(m', None) {
      var fs := FieldsDecoded(s, i, m);
      assert Reads(s[i..], fs, m, m');
    }
    forall fs | Reads(s[i..], fs, m, m') ensures DecodeFrom(s, i, m) == Decoded(m', None) {
      assert s[i..|s|] == s[i..];
      DecodesFields(s, i, |s|, fs, m);
    }
  }

  // ----- concatenation, unknown fields -----

  /** After an accepted prefix the reader is where it would be on the rest alone. */
  lemma DecodePrefix(s: seq<byte>, rest: seq<byte>, m: TxResult)
    requires |s + rest| < TWO_63 && Decode(s, m).err == None
    ensures Decode(s + rest, m) == DecodeFrom(s + rest, |s|, Decode(s, m).m)
  {
    var fs := FieldsDecoded(s, 0, m);
    assert (s + rest)[0..|s|] == s == s[0..];
    DecodesFields(s + rest, 0, |s|, fs, m);
  }

  /** Whether the bytes from `i` on are accepted, and with which result, does not depend on what is in front. */
  lemma DecodeSuffix(s: seq<byte>, i: nat, m: TxResult, m': TxResult)
    requires i <= |s| < TWO_63
    ensures DecodeFrom(s, i, m) == Decoded(m', None) <==> Decode(s[i..], m) == Decoded(m', None)
  {
    assert s[i..][0..] == s[i..];
    DecodeIffFields(s, i, m, m');
    DecodeIffFields(s[i..], 0, m, m');
  }

  /** A well-formed field with an unknown number changes nothing, wherever it stands between fields. */
  lemma UnknownFieldIgnored(before: seq<byte>, u: Field, after: seq<byte>, m: TxResult, m': TxResult)
    requires |before + Render(u) + after| < TWO_63
    requires Decode(before, m).err == None
    requires WellFormed(u) && NumOf(u) > 7
    ensures Decode(before + Render(u) + after, m) == Decoded(m', None)
       <==> Decode(before + after, m) == Decoded(m', None)
  {
    hide WellFormed, NumOf, DecodeFrom, Render;
    var m1 := Decode(before, m).m;
    var s := before + Render(u) + after;
    var j := |before| + |Render(u)|;
    assert s == before + (Render(u) + after);
    DecodePrefix(before, Render(u) + after, m);
    ReadsUnknown(before, u, after, m1);
    DecodeSuffix(s, j, m1, m');
    assert s[j..] == after;
    DecodePrefix(before, after, m);
    DecodeSuffix(before + after, |before|, m1, m');
    assert (before + after)[|before|..] == after;
  }

  lemma ReadsUnknown(before: seq<byte>, u: Field, after: seq<byte>, m: TxResult)
    requires |before + Render(u) + after| < TWO_63
    requires WellFormed(u) && NumOf(u) > 7
    ensures var s := before + Render(u) + after;
            DecodeFrom(s, |before|, m) == DecodeFrom(s, |before| + |Render(u)|, m)
  {
    hide WellFormed, NumOf, ReadField, Render;
    var s := before + Render(u) + after;
    var n := |before| + |Render(u)|;
    assert s[|before|..n] == Render(u);
    ReadsField(s, |before|, n, u, m);
  }

  // ----- the writer's output is read back -----

  function FieldsFrom(m: TxResult, num: nat): Fields
    requires 1 <= num <= 8
    decreases 8 - num
  {
    if num == 8 then Nil
    else
      var rest := FieldsFrom(m, num + 1);
      if Raw(m, num) == 0 then rest else Cons(VarintField([num * 8], Varint(Raw(m, num))), rest)
  }

  lemma KnownField(num: nat, raw: uint64)
    requires 1 <= num <= 7
    ensures var f := VarintField([num * 8], Varint(raw));
            Admissible(f) && NumOf(f) == num && VarintValue(f.value) == raw
  {
    VarintOfUint64(raw);
    var tag: seq<byte> := [num * 8];
    assert tag[1..] == [];
    assert VarintValue(tag) == num * 8;
  }

  /** Setting every field from `num` on, where the second is not zero. */
  function MergeFrom(a: TxResult, b: TxResult, num: nat): TxResult
    requires 1 <= num <= 8
    decreases 8 - num
  {
    if num == 8 then a
    else MergeFrom(if Raw(b, num) == 0 then a else SetField(a, num, Raw(b, num)), b, num + 1)
  }

  lemma {:induction false} EncodeIsFields(a: TxResult, b: TxResult, num: nat)
    requires 1 <= num <= 8
    ensures AllAdmissible(FieldsFrom(b, num))
    ensures RenderAll(FieldsFrom(b, num)) == EncodeFrom(b, num)
    ensures ApplyAll(a, FieldsFrom(b, num)) == MergeFrom(a, b, num)
    decreases 8 - num
  {
    hide Raw, SetField, Admissible, NumOf;
    if num < 8 {
      var raw := Raw(b, num);
      KnownField(num, raw);
      EncodeIsFields(if raw == 0 then a else SetField(a, num, raw), b, num + 1);
    }
  }

  /** The merge of one field. */
  function MergeField(a: TxResult, b: TxResult, num: nat): TxResult
    requires 1 <= num <= 7
  {
    match num
    case 1 => if b.height != 0 then a.(height := b.height) else a
    case 2 => if b.txIndex != 0 then a.(txIndex := b.txIndex) else a
    case 3 => if b.msgIndex != 0 then a.(msgIndex := b.msgIndex) else a
    case 4 => if b.ethTxIndex != 0 then a.(ethTxIndex := b.ethTxIndex) else a
    case 5 => if b.failed then a.(failed := true) else a
    case 6 => if b.gasUsed != 0 then a.(gasUsed := b.gasUsed) else a
    case 7 => if b.cumulativeGasUsed != 0 then a.(cumulativeGasUsed := b.cumulativeGasUsed) else a
  }

  lemma SignedRoundTrip(x: int64, y: int32)
    ensures ToInt64(ToUint64(x)) == x && (ToUint64(x) == 0 <==> x == 0)
    ensures ToInt32(ToUint64(y)) == y && (ToUint64(y) == 0 <==> y == 0)
  {
  }

  lemma SmallRoundTrip(v: uint32, w: uint64)
    ensures ToUint32(v) == v && ToUint64(w) == w
  {
  }

  lemma SetRaw(a: TxResult, b: TxResult, num: nat)
    requires 1 <= num <= 7
    ensures MergeField(a, b, num) == if Raw(b, num) == 0 then a else SetField(a, num, Raw(b, num))
  {
    hide ToInt64, ToInt32, ToUint32, ToUint64;
    SignedRoundTrip(b.height, b.ethTxIndex);
    SmallRoundTrip(b.txIndex, b.gasUsed);
    SmallRoundTrip(b.msgIndex, b.cumulativeGasUsed);
    OneIsOne();
  }

  lemma OneIsOne()
    ensures ToInt64(1) == 1
  {
  }

  lemma MergeStep(a: TxResult, b: TxResult, num: nat)
    requires 1 <= num <= 7
    ensures MergeFrom(a, b, num) == MergeFrom(MergeField(a, b, num), b, num + 1)
  {
    hide Raw, SetField, MergeField;
    SetRaw(a, b, num);
  }

  lemma MergeFromIsMerge(a: TxResult, b: TxResult)
    ensures MergeFrom(a, b, 1) == Merge(a, b)
  {
    hide MergeFrom;
    var a1 := MergeField(a, b, 1);
    var a2 := MergeField(a1, b, 2);
    var a3 := MergeField(a2, b, 3);
    var a4 := MergeField(a3, b, 4);
    var a5 := MergeField(a4, b, 5);
    var a6 := MergeField(a5, b, 6);
    MergeStep(a, b, 1);
    MergeStep(a1, b, 2);
    MergeStep(a2, b, 3);
    MergeStep(a3, b, 4);
    MergeStep(a4, b, 5);
    MergeStep(a5, b, 6);
    MergeStep(a6, b, 7);
    MergeNothing(MergeField(a6, b, 7), b);
  }

  lemma MergeNothing(a: TxResult, b: TxResult)
    ensures MergeFrom(a, b, 8) == a
  {
  }

  /** Reading an encoding into a struct merges it in. */
  lemma DecodeEncodeMerges(a: TxResult, b: TxResult)
    ensures Decode(Encode(b), a) == Decoded(Merge(a, b), None)
  {
    hide DecodeFrom, Merge, MergeFrom;
    EncodeIsFields(a, b, 1);
    MergeFromIsMerge(a, b);
    EncodeShort(b);
    assert Encode(b)[0..] == Encode(b);
    assert Reads(Encode(b)[0..], FieldsFrom(b, 1), a, Merge(a, b));
    DecodeIffFields(Encode(b), 0, a, Merge(a, b));
  }

  lemma FieldShort(num: nat, raw: uint64)
    requires 1 <= num <= 7
    ensures |EncodeField(num, raw)| <= 11
  {
    VarintOfUint64(raw);
  }

  lemma {:induction false} EncodeFromShort(m: TxResult, num: nat)
    requires 1 <= num <= 8
    ensures |EncodeFrom(m, num)| <= 11 * (8 - num)
    decreases 8 - num
  {
    if num < 8 {
      FieldShort(num, Raw(m, num));
      EncodeFromShort(m, num + 1);
    }
  }

  lemma EncodeShort(m: TxResult)
    ensures |Encode(m)| <= 77
  {
    EncodeFromShort(m, 1);
  }

  /** Unmarshal undoes Marshal, for every TxResult. */
  lemma RoundTrip(m: TxResult)
    ensures Decode(Encode(m), ZERO) == Decoded(m, None)
  {
    DecodeEncodeMerges(ZERO, m);
    assert Merge(ZERO, m) == m;
  }

  /** Two encodings one after the other read as their merge. */
  lemma LastOneWins(a: TxResult, b: TxResult)
    ensures Decode(Encode(a) + Encode(b), ZERO) == Decoded(Merge(a, b), None)
  {
    hide DecodeFrom, EncodeFrom, Merge;
    EncodeShort(a);
    EncodeShort(b);
    RoundTrip(a);
    DecodePrefix(Encode(a), Encode(b), ZERO);
    DecodeSuffix(Encode(a) + Encode(b), |Encode(a)|, a, Merge(a, b));
    assert (Encode(a) + Encode(b))[|Encode(a)|..] == Encode(b);
    DecodeEncodeMerges(a, b);
  }

  // ----- the bytes themselves -----

  /** A tag and a varint, or nothing for zero. */
  function Tagged(tag: byte, v: uint64): seq<byte> { if v == 0 then [] else [tag] + Varint(v) }

  /**
   The encoding, byte by byte: each non-zero field behind its tag, in this order; a negative number is
   written as the 64-bit number it wraps to, and a flag as the byte 1.
   */
  lemma EncodedBytes(m: TxResult)
    ensures Encode(m) == Tagged(0x08, if m.height < 0 then m.height + TWO_64 else m.height)
                       + Tagged(0x10, m.txIndex)
                       + Tagged(0x18, m.msgIndex)
                       + Tagged(0x20, if m.ethTxIndex < 0 then m.ethTxIndex + TWO_64 else m.ethTxIndex)
                       + (if m.failed then [0x28, 0x01] else [])
                       + Tagged(0x30, m.gasUsed)
                       + Tagged(0x38, m.cumulativeGasUsed)
  {
    hide EncodeFrom, Tagged, Raw;
    RawValues(m);
    OneEncoded(m, 1);
    OneEncoded(m, 2);
    OneEncoded(m, 3);
    OneEncoded(m, 4);
    OneEncoded(m, 5);
    OneEncoded(m, 6);
    OneEncoded(m, 7);
    EncodeNothing(m);
    Join(Tagged(0x08, Raw(m, 1)), Tagged(0x10, Raw(m, 2)), Tagged(0x18, Raw(m, 3)), Tagged(0x20, Raw(m, 4)),
         Tagged(0x28, Raw(m, 5)), Tagged(0x30, Raw(m, 6)), Tagged(0x38, Raw(m, 7)));
    FlagBytes(m.failed);
  }

  lemma Join(a: seq<byte>, b: seq<byte>, c: seq<byte>, d: seq<byte>, e: seq<byte>, f: seq<byte>, g: seq<byte>)
    ensures a + (b + (c + (d + (e + (f + (g + [])))))) == a + b + c + d + e + f + g
  {
    assert g + [] == g;
    assert d + (e + (f + g)) == d + e + f + g;
    assert b + (c + (d + e + f + g)) == b + c + (d + e + f + g);
    assert a + (b + c + (d + e + f + g)) == a + b + c + (d + e + f + g);
    assert a + b + c + (d + e + f + g) == a + b + c + d + e + f + g;
  }

  lemma RawValues(m: TxResult)
    ensures Raw(m, 1) == if m.height < 0 then m.height + TWO_64 else m.height
    ensures Raw(m, 2) == m.txIndex && Raw(m, 3) == m.msgIndex
    ensures Raw(m, 4) == if m.ethTxIndex < 0 then m.ethTxIndex + TWO_64 else m.ethTxIndex
    ensures Raw(m, 5) == if m.failed then 1 else 0
    ensures Raw(m, 6) == m.gasUsed && Raw(m, 7) == m.cumulativeGasUsed
  {
    hide ToUint64;
    WrappedNegative(m.height);
    WrappedNegative(m.ethTxIndex);
  }

  lemma OneEncoded(m: TxResult, num: nat)
    requires 1 <= num <= 7
    ensures EncodeFrom(m, num) == Tagged(num * 8, Raw(m, num)) + EncodeFrom(m, num + 1)
  {
  }

  lemma WrappedNegative(x: int64)
    ensures ToUint64(x) == if x < 0 then x + TWO_64 else x
  {
  }

  lemma FlagBytes(b: bool)
    ensures Tagged(0x28, if b then 1 else 0) == if b then [0x28, 0x01] else []
  {
  }

  /** What a varint behind each tag sets, at any place of any buffer, whatever follows. */
  lemma TagsSetFields(s: seq<byte>, i: nat, n: nat, m: TxResult)
    requires i + 1 < n <= |s| && IsVarint(s[i + 1..n])
    ensures var v := VarintValue(s[i + 1..n]);
            && (s[i] == 0x08 ==> DecodeFrom(s, i, m) == DecodeFrom(s, n, m.(height := ToInt64(v))))
            && (s[i] == 0x10 ==> DecodeFrom(s, i, m) == DecodeFrom(s, n, m.(txIndex := v % TWO_32)))
            && (s[i] == 0x18 ==> DecodeFrom(s, i, m) == DecodeFrom(s, n, m.(msgIndex := v % TWO_32)))
            && (s[i] == 0x20 ==> DecodeFrom(s, i, m) == DecodeFrom(s, n, m.(ethTxIndex := ToInt32(v))))
            && (s[i] == 0x28 ==> DecodeFrom(s, i, m) == DecodeFrom(s, n, m.(failed := v % TWO_64 != 0)))
            && (s[i] == 0x30 ==> DecodeFrom(s, i, m) == DecodeFrom(s, n, m.(gasUsed := v % TWO_64)))
            && (s[i] == 0x38 ==> DecodeFrom(s, i, m) == DecodeFrom(s, n, m.(cumulativeGasUsed := v % TWO_64)))
  {
    hide DecodeFrom, Read, ToInt64, ToInt32;
    var v := VarintValue(s[i + 1..n]);
    Conversions(v);
    if s[i] in {0x08, 0x10, 0x18, 0x20, 0x28, 0x30, 0x38} {
      KnownTagRead(s, i, n, m);
    }
  }

  lemma Conversions(v: nat)
    ensures ToUint32(v) == v % TWO_32 && ToUint64(v) == v % TWO_64
    ensures ToInt64(v) != 0 <==> v % TWO_64 != 0
  {
  }

  lemma KnownTagRead(s: seq<byte>, i: nat, n: nat, m: TxResult)
    requires i + 1 < n <= |s| && IsVarint(s[i + 1..n]) && s[i] % 8 == 0 && 1 <= s[i] / 8 <= 7
    ensures DecodeFrom(s, i, m) == DecodeFrom(s, n, SetField(m, s[i] / 8, VarintValue(s[i + 1..n])))
  {
    hide Read, IsVarint, VarintValue, SetField, SkipUnknown, FieldNum;
    OneByteTag(s, i);
    ReadIffVarint(s, i + 1, n);
  }

  lemma OneByteTag(s: seq<byte>, i: nat)
    requires i < |s| && s[i] < 128
    ensures Read(s, i) == VarintRead(s[i], i + 1, None) && FieldNum(s[i]) == s[i] / 8
  {
  }

  // ----- the message object -----

  lemma WireParts(v: nat)
    ensures v % TWO_64 % 8 == v % 8
    ensures ToInt32(v % TWO_64 / 8) == FieldNum(v)
  {
  }

  lemma TruncateTwice(v: nat)
    ensures ToInt64(v % TWO_64) == ToInt64(v) && ToUint64(v % TWO_64) == ToUint64(v)
    ensures ToInt32(v % TWO_32) == ToInt32(v) && ToUint32(v % TWO_32) == ToUint32(v)
  {
  }

  class Message {
    var Height: int64
    var TxIndex: uint32
    var MsgIndex: uint32
    var EthTxIndex: int32
    var Failed: bool
    var GasUsed: uint64
    var CumulativeGasUsed: uint64

    function View(): TxResult
      reads this
    {
      TxResult(Height, TxIndex, MsgIndex, EthTxIndex, Failed, GasUsed, CumulativeGasUsed)
    }

    constructor ()
      ensures View() == ZERO
    {
      Height, TxIndex, MsgIndex, EthTxIndex := 0, 0, 0, 0;
      Failed, GasUsed, CumulativeGasUsed := false, 0, 0;
    }

    constructor Of(m: TxResult)
      ensures View() == m
    {
      Height, TxIndex, MsgIndex, EthTxIndex := m.height, m.txIndex, m.msgIndex, m.ethTxIndex;
      Failed, GasUsed, CumulativeGasUsed := m.failed, m.gasUsed, m.cumulativeGasUsed;
    }

    /** MarshalToSizedBuffer: fills the end of the buffer, last field first, and leaves the front alone. */
    method MarshalToSizedBuffer(dAtA: array<byte>) returns (n: nat)
      requires Size(View()) <= dAtA.Length
      modifies dAtA
      ensures n == Size(View()) <= dAtA.Length
      ensures dAtA[dAtA.Length - n..] == Encode(View())
      ensures dAtA[..dAtA.Length - n] == old(dAtA[..dAtA.Length - n])
    {
      hide FieldSize, EncodeFrom, ToUint64;
      ghost var m := View();
      ghost var low := dAtA.Length - Size(m);
      BoolSize(Failed);
      EncodeNothing(m);
      var i := dAtA.Length;
      i := PutField(dAtA, i, 7, CumulativeGasUsed, low, m);
      i := PutField(dAtA, i, 6, GasUsed, low, m);
      i := PutField(dAtA, i, 5, if Failed then 1 else 0, low, m);
      i := PutField(dAtA, i, 4, ToUint64(EthTxIndex), low, m);
      i := PutField(dAtA, i, 3, MsgIndex, low, m);
      i := PutField(dAtA, i, 2, TxIndex, low, m);
      i := PutField(dAtA, i, 1, ToUint64(Height), low, m);
      n := dAtA.Length - i;
    }

    /** Marshal: the buffer is exactly as long as the encoding. */
    method Marshal() returns (dAtA: array<byte>)
      ensures dAtA[..] == Encode(View()) && dAtA.Length == Size(View())
    {
      dAtA := new byte[Size(View())];
      var n := MarshalToSizedBuffer(dAtA);
      assert dAtA[..] == dAtA[dAtA.Length - n..];
    }

    /** Stores what a field's loop has accumulated. */
    method Store(num: nat, acc: nat, ghost v: nat)
      requires 1 <= num <= 7
      requires acc == v % (if num in {2, 3, 4} then TWO_32 else TWO_64)
      modifies this
      ensures View() == SetField(old(View()), num, v)
    {
      hide ToInt64, ToInt32, ToUint32, ToUint64;
      TruncateTwice(v);
      match num
      case 1 => Height := ToInt64(acc);
      case 2 => TxIndex := ToUint32(acc);
      case 3 => MsgIndex := ToUint32(acc);
      case 4 => EthTxIndex := ToInt32(acc);
      case 5 => Failed := ToInt64(acc) != 0;
      case 6 => GasUsed := ToUint64(acc);
      case 7 => CumulativeGasUsed := ToUint64(acc);
    }

    /** Unmarshal: never reads outside the buffer, always stops, and leaves what the reading function says. */
    method Unmarshal(dAtA: seq<byte>) returns (err: Option<WireError>)
      requires |dAtA| < TWO_63
      modifies this
      ensures Decoded(View(), err) == Decode(dAtA, old(View()))
    {
      hide Read, SetField, SkipFrom, FieldNum;
      var l := |dAtA|;
      var iNdEx := 0;
      while iNdEx < l
        invariant 0 <= iNdEx <= l
        invariant Decode(dAtA, old(View())) == DecodeFrom(dAtA, iNdEx, View())
        decreases l - iNdEx
      {
        var preIndex := iNdEx;
        ghost var step := ReadField(dAtA, iNdEx, View());
        var wire, next, e := ReadVarint(dAtA, iNdEx, TWO_64);
        if e != None { return e; }
        WireParts(Read(dAtA, preIndex).value);
        iNdEx := next;
        var fieldNum := ToInt32(wire / 8);
        var wireType := wire % 8;
        if wireType == 4 { return Some(EndGroupForNonGroup); }
        if fieldNum <= 0 { return Some(IllegalTag); }
        if fieldNum <= 7 {
          if wireType != 0 { return Some(WrongWireType); }
          ghost var v := Read(dAtA, iNdEx).value;
          var acc, next, e := ReadVarint(dAtA, iNdEx, if fieldNum in {2, 3, 4} then TWO_32 else TWO_64);
          iNdEx := next;
          if e == None || fieldNum != 5 {
            Store(fieldNum, acc, v);
          }
          if e != None { return e; }
        } else {
          iNdEx := preIndex;
          var skippy, e := SkipIndexer(dAtA[iNdEx..]);
          if e != None { return e; }
          if skippy < 0 || iNdEx + skippy >= TWO_63 { return Some(InvalidLength); }
          if iNdEx + skippy > l { return Some(UnexpectedEOF); }
          iNdEx := iNdEx + skippy;
        }
      }
      return None;
    }
  }
}
