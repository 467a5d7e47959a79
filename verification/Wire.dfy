/**
 Fields on the wire: a grammar of well-formed fields (Protocol Buffers Encoding, "Message
 Structure" and "Groups") and skipIndexer, which steps over one field with a depth counter
 instead of recursion.
 */
module Wire {
  import opened Bytes
  import opened Varints

  // ----- the grammar -----

  /** Scalars of the four scalar wire types, and groups nested to any depth. */
  datatype Field =
    | VarintField(tag: seq<byte>, value: seq<byte>)
    | Fixed64Field(tag: seq<byte>, payload: seq<byte>)
    | BytesField(tag: seq<byte>, length: seq<byte>, payload: seq<byte>)
    | Fixed32Field(tag: seq<byte>, payload: seq<byte>)
    | GroupField(tag: seq<byte>, body: Fields, endTag: seq<byte>)

  datatype Fields = Nil | Cons(head: Field, tail: Fields)

  function WireType(tag: seq<byte>): nat { VarintValue(tag) % 8 }

  predicate IsTag(tag: seq<byte>, wireType: nat) {
    IsVarint(tag) && WireType(tag) == wireType
  }

  predicate WellFormed(f: Field) {
    match f
    case VarintField(tag, value) => IsTag(tag, 0) && IsVarint(value)
    case Fixed64Field(tag, payload) => IsTag(tag, 1) && |payload| == 8
    case BytesField(tag, length, payload) =>
      IsTag(tag, 2) && IsVarint(length) && ToInt64(VarintValue(length)) == |payload|
    case Fixed32Field(tag, payload) => IsTag(tag, 5) && |payload| == 4
    case GroupField(tag, body, endTag) => IsTag(tag, 3) && AllWellFormed(body) && IsTag(endTag, 4)
  }

  predicate AllWellFormed(fs: Fields) {
    fs.Cons? ==> WellFormed(fs.head) && AllWellFormed(fs.tail)
  }

  function Render(f: Field): seq<byte> {
    match f
    case VarintField(tag, value) => tag + value
    case Fixed64Field(tag, payload) => tag + payload
    case BytesField(tag, length, payload) => tag + length + payload
    case Fixed32Field(tag, payload) => tag + payload
    case GroupField(tag, body, endTag) => tag + RenderAll(body) + endTag
  }

  function RenderAll(fs: Fields): seq<byte> {
    match fs
    case Nil => []
    case Cons(f, rest) => Render(f) + RenderAll(rest)
  }

  // ----- skipping -----

  datatype SkipResult = Skipped(next: int) | SkipFailed(err: WireError)

  /** One round of the loop: the index after the field and the depth after it. */
  datatype SkipStep = Stepped(next: int, depth: nat) | StepFailed(err: WireError)

  function StepOver(s: seq<byte>, i: nat, depth: nat): (r: SkipStep)
    requires i < |s|
    ensures r.Stepped? ==> i < r.next
  {
    var t := Read(s, i);
    if t.err.Some? then StepFailed(t.err.value)
    else
      match t.value % 8
      case 0 =>
        var v := Read(s, t.next);
        if v.err.Some? then StepFailed(v.err.value) else Advance(v.next, 0, depth)
      case 1 => Advance(t.next, 8, depth)
      case 2 =>
        var v := Read(s, t.next);
        if v.err.Some? then StepFailed(v.err.value)
        else if ToInt64(v.value) < 0 then StepFailed(InvalidLength)
        else Advance(v.next, ToInt64(v.value), depth)
      case 3 => Advance(t.next, 0, depth + 1)
      case 4 => if depth == 0 then StepFailed(UnexpectedEndOfGroup) else Advance(t.next, 0, depth - 1)
      case 5 => Advance(t.next, 4, depth)
      case _ => StepFailed(IllegalWireType)
  }

  /** `iNdEx += n`, with the check at the end of the round that catches the wrap to a negative index. */
  function Advance(i: nat, n: nat, depth: nat): (r: SkipStep)
    ensures r.Stepped? ==> r.next == i + n && r.depth == depth
  {
    if i + n >= TWO_63 then StepFailed(InvalidLength) else Stepped(i + n, depth)
  }

  function SkipFrom(s: seq<byte>, i: nat, depth: nat): (r: SkipResult)
    ensures r.Skipped? ==> i < r.next && i < |s|
    decreases |s| - i
  {
    if i >= |s| then SkipFailed(UnexpectedEOF)
    else
      match StepOver(s, i, depth)
      case StepFailed(e) => SkipFailed(e)
      case Stepped(next, d) => if d == 0 then Skipped(next) else SkipFrom(s, next, d)
  }

  /** skipIndexer: never reads outside `dAtA`, always stops, and moves forward when it succeeds. */
  method SkipIndexer(dAtA: seq<byte>) returns (n: int, err: Option<WireError>)
    requires |dAtA| < TWO_63
    ensures err == None ==> n > 0
    ensures match SkipFrom(dAtA, 0, 0)
            case Skipped(next) => err == None && n == next
            case SkipFailed(e) => err == Some(e) && n == 0
  {
    hide Read, Advance, ToInt64;
    var iNdEx, depth := 0, 0;
    while iNdEx < |dAtA|
      invariant 0 <= iNdEx && 0 <= depth
      invariant SkipFrom(dAtA, 0, 0) == SkipFrom(dAtA, iNdEx, depth)
      decreases |dAtA| - iNdEx
    {
      ghost var step := StepOver(dAtA, iNdEx, depth);
      var wire, next, e := ReadVarint(dAtA, iNdEx, TWO_64);
      if e != None { return 0, e; }
      WireTypeOfWire(Read(dAtA, iNdEx).value);
      iNdEx := next;
      match wire % 8 {
        case 0 =>
          var _, next, e := ReadVarint(dAtA, iNdEx, TWO_64);
          if e != None { return 0, e; }
          iNdEx := next;
        case 1 => iNdEx := iNdEx + 8;
        case 2 =>
          var v, next, e := ReadVarint(dAtA, iNdEx, TWO_64);
          if e != None { return 0, e; }
          LengthOfWire(Read(dAtA, iNdEx).value);
          var length := ToInt64(v);
          if length < 0 { return 0, Some(InvalidLength); }
          iNdEx := next + length;
        case 3 => depth := depth + 1;
        case 4 =>
          if depth == 0 { return 0, Some(UnexpectedEndOfGroup); }
          depth := depth - 1;
        case 5 => iNdEx := iNdEx + 4;
        case _ => return 0, Some(IllegalWireType);
      }
      IndexWraps(iNdEx, depth);
      assert step == Advance(iNdEx, 0, depth);
      if ToInt64(iNdEx) < 0 { return 0, Some(InvalidLength); }
      if depth == 0 { return iNdEx, None; }
    }
    return 0, Some(UnexpectedEOF);
  }

  lemma LengthOfWire(v: nat)
    ensures ToInt64(v % TWO_64) == ToInt64(v)
  {
  }

  lemma IndexWraps(i: nat, depth: nat)
    requires i < TWO_64
    ensures Advance(i, 0, depth) == if ToInt64(i) < 0 then StepFailed(InvalidLength) else Stepped(i, depth)
    ensures forall j: nat, n: nat :: j + n == i ==> Advance(j, n, depth) == Advance(i, 0, depth)
  {
  }

  lemma WireTypeOfWire(v: nat)
    ensures v % TWO_64 % 8 == v % 8
  {
  }

  // ----- skipping steps over exactly the well-formed fields -----

  /** `f` lies in `s` from `i` to `n`. */
  ghost predicate FieldAt(f: Field, s: seq<byte>, i: nat, n: nat) {
    i <= n <= |s| && s[i..n] == Render(f)
  }

  lemma SplitAt(s: seq<byte>, i: nat, n: nat, left: seq<byte>, right: seq<byte>)
    requires i <= n <= |s| && s[i..n] == left + right
    ensures i + |left| <= n && s[i..i + |left|] == left && s[i + |left|..n] == right
  {
    assert s[i..i + |left|] == s[i..n][..|left|];
    assert s[i + |left|..n] == s[i..n][|left|..];
  }

  lemma TagAt(s: seq<byte>, i: nat, n: nat, tag: seq<byte>, rest: seq<byte>)
    requires i <= n <= |s| && s[i..n] == tag + rest && IsVarint(tag)
    ensures i + |tag| <= n
    ensures Read(s, i) == VarintRead(VarintValue(tag), i + |tag|, None)
    ensures s[i + |tag|..n] == rest
  {
    hide Read, VarintValue, IsVarint;
    SplitAt(s, i, n, tag, rest);
    ReadIffVarint(s, i, i + |tag|);
  }

  /** A scalar field is stepped over in one round. */
  lemma StepOverScalar(s: seq<byte>, i: nat, n: nat, f: Field, depth: nat)
    requires |s| < TWO_63 && WellFormed(f) && !f.GroupField? && FieldAt(f, s, i, n)
    ensures i < n && StepOver(s, i, depth) == Stepped(n, depth)
  {
    hide Read, VarintValue, IsVarint, ToInt64;
    match f
    case VarintField(tag, value) =>
      TagAt(s, i, n, tag, value);
      TagAt(s, i + |tag|, n, value, []);
    case Fixed64Field(tag, payload) => TagAt(s, i, n, tag, payload);
    case BytesField(tag, length, payload) =>
      assert tag + length + payload == tag + (length + payload);
      TagAt(s, i, n, tag, length + payload);
      TagAt(s, i + |tag|, n, length, payload);
    case Fixed32Field(tag, payload) => TagAt(s, i, n, tag, payload);
  }

  /** With the counter above zero, skipping passes over whole fields and goes on after them. */
  lemma {:induction false} SkipOverFields(s: seq<byte>, i: nat, n: nat, fs: Fields, depth: nat)
    requires |s| < TWO_63 && AllWellFormed(fs) && depth > 0
    requires i <= n <= |s| && s[i..n] == RenderAll(fs)
    ensures SkipFrom(s, i, depth) == SkipFrom(s, n, depth)
    decreases fs, 1
  {
    hide Read, StepOver;
    if fs.Cons? {
      var f := fs.head;
      SplitAt(s, i, n, Render(f), RenderAll(fs.tail));
      SkipOverField(s, i, i + |Render(f)|, f, depth);
      SkipOverFields(s, i + |Render(f)|, n, fs.tail, depth);
    }
  }

  lemma StepOverGroupTag(s: seq<byte>, i: nat, depth: nat)
    requires i < |s| < TWO_63 && Read(s, i).err == None
    ensures Read(s, i).value % 8 == 3 ==> StepOver(s, i, depth) == Stepped(Read(s, i).next, depth + 1)
    ensures Read(s, i).value % 8 == 4 && depth > 0 ==> StepOver(s, i, depth) == Stepped(Read(s, i).next, depth - 1)
  {
    hide Read;
  }

  /** A field is passed over as a whole; at depth zero skipping stops right after it. */
  lemma {:induction false} SkipOverField(s: seq<byte>, i: nat, n: nat, f: Field, depth: nat)
    requires |s| < TWO_63 && WellFormed(f) && FieldAt(f, s, i, n)
    ensures SkipFrom(s, i, depth) == if depth == 0 then Skipped(n) else SkipFrom(s, n, depth)
    decreases f, 0
  {
    hide Read, VarintValue, IsVarint, StepOver;
    if f.GroupField? {
      var tag, body, endTag := f.tag, f.body, f.endTag;
      assert tag + RenderAll(body) + endTag == tag + (RenderAll(body) + endTag);
      TagAt(s, i, n, tag, RenderAll(body) + endTag);
      StepOverGroupTag(s, i, depth);
      var j := i + |tag|;
      SplitAt(s, j, n, RenderAll(body), endTag);
      var k := j + |RenderAll(body)|;
      SkipOverFields(s, j, k, body, depth + 1);
      TagAt(s, k, n, endTag, []);
      StepOverGroupTag(s, k, depth + 1);
    } else {
      StepOverScalar(s, i, n, f, depth);
    }
  }

  /** The scalar field one round has stepped over. */
  lemma ScalarSteppedOver(s: seq<byte>, i: nat, depth: nat) returns (f: Field)
    requires i < |s| && StepOver(s, i, depth).Stepped?
    requires Read(s, i).value % 8 !in {3, 4}
    requires StepOver(s, i, depth).next <= |s|
    ensures WellFormed(f) && !f.GroupField? && FieldAt(f, s, i, StepOver(s, i, depth).next)
    ensures f.tag == s[i..Read(s, i).next]
    ensures StepOver(s, i, depth).depth == depth
  {
    hide Read, VarintValue, IsVarint;
    var t := Read(s, i);
    var n := StepOver(s, i, depth).next;
    ReadIffVarint(s, i, t.next);
    var tag := s[i..t.next];
    match t.value % 8
    case 0 =>
      ReadIffVarint(s, t.next, n);
      f := VarintField(tag, s[t.next..n]);
    case 1 => f := Fixed64Field(tag, s[t.next..n]);
    case 2 =>
      var v := Read(s, t.next);
      ReadIffVarint(s, t.next, v.next);
      f := BytesField(tag, s[t.next..v.next], s[v.next..n]);
      assert s[i..n] == tag + s[t.next..v.next] + s[v.next..n];
    case 5 => f := Fixed32Field(tag, s[t.next..n]);
  }

  /** What one round does with a start or an end tag. */
  lemma GroupTagSteppedOver(s: seq<byte>, i: nat, depth: nat)
    requires i < |s| && StepOver(s, i, depth).Stepped?
    ensures Read(s, i).err == None
    ensures Read(s, i).value % 8 == 3 ==> StepOver(s, i, depth) == Stepped(Read(s, i).next, depth + 1)
    ensures Read(s, i).value % 8 == 4 ==> depth > 0 && StepOver(s, i, depth) == Stepped(Read(s, i).next, depth - 1)
    ensures IsVarint(s[i..Read(s, i).next])
    ensures WireType(s[i..Read(s, i).next]) == Read(s, i).value % 8
  {
    hide Read, VarintValue, IsVarint;
    ReadIffVarint(s, i, Read(s, i).next);
  }

  lemma GroupAt(s: seq<byte>, i: nat, j: nat, n: nat, body: Fields, endTag: seq<byte>)
    requires i <= j <= n <= |s| && s[j..n] == RenderAll(body) + endTag
    ensures FieldAt(GroupField(s[i..j], body, endTag), s, i, n)
  {
    assert s[i..n] == s[i..j] + s[j..n];
    assert s[i..j] + RenderAll(body) + endTag == s[i..j] + (RenderAll(body) + endTag);
  }

  lemma ConsAt(s: seq<byte>, i: nat, k: nat, n: nat, f: Field, fs: Fields, endTag: seq<byte>)
    requires FieldAt(f, s, i, k) && k <= n <= |s| && s[k..n] == RenderAll(fs) + endTag
    ensures s[i..n] == RenderAll(Cons(f, fs)) + endTag
  {
    assert s[i..n] == s[i..k] + s[k..n];
    assert RenderAll(Cons(f, fs)) + endTag == Render(f) + (RenderAll(fs) + endTag);
  }

  /** The fields and the end tag that take the counter from `depth` down to `depth - 1`. */
  lemma {:induction false} GroupSkippedOver(s: seq<byte>, i: nat, depth: nat)
    returns (fs: Fields, endTag: seq<byte>, m: nat)
    requires depth > 0
    requires SkipFrom(s, i, depth).Skipped? && SkipFrom(s, i, depth).next <= |s|
    ensures i < m <= |s| && AllWellFormed(fs) && IsTag(endTag, 4)
    ensures s[i..m] == RenderAll(fs) + endTag
    ensures SkipFrom(s, i, depth) == if depth == 1 then Skipped(m) else SkipFrom(s, m, depth - 1)
    decreases |s| - i
  {
    hide Read, VarintValue, IsVarint, StepOver;
    GroupTagSteppedOver(s, i, depth);
    var t := Read(s, i);
    var j := StepOver(s, i, depth).next;
    var d := StepOver(s, i, depth).depth;
    var tag := s[i..t.next];
    if t.value % 8 == 4 {
      fs, endTag, m := Nil, tag, j;
      assert s[i..m] == RenderAll(Nil) + tag;
    } else {
      var f: Field, k: nat;
      if t.value % 8 == 3 {
        var body, bodyEnd, after := GroupSkippedOver(s, j, depth + 1);
        f, k := GroupField(tag, body, bodyEnd), after;
        GroupAt(s, i, j, k, body, bodyEnd);
      } else {
        f := ScalarSteppedOver(s, i, depth);
        k := j;
      }
      fs, endTag, m := GroupSkippedOver(s, k, depth);
      ConsAt(s, i, k, m, f, fs, endTag);
      fs := Cons(f, fs);
    }
  }

  /** The field a successful skip has stepped over. */
  lemma FieldSkippedOver(s: seq<byte>, i: nat) returns (f: Field)
    requires SkipFrom(s, i, 0).Skipped? && SkipFrom(s, i, 0).next <= |s|
    ensures WellFormed(f) && FieldAt(f, s, i, SkipFrom(s, i, 0).next)
    ensures f.tag == s[i..Read(s, i).next]
  {
    hide Read, VarintValue, IsVarint, StepOver;
    GroupTagSteppedOver(s, i, 0);
    var t := Read(s, i);
    var j := StepOver(s, i, 0).next;
    if t.value % 8 == 3 {
      var body, endTag, m := GroupSkippedOver(s, j, 1);
      f := GroupField(s[i..t.next], body, endTag);
      GroupAt(s, i, j, m, body, endTag);
    } else {
      f := ScalarSteppedOver(s, i, 0);
    }
  }

  /** skipIndexer accepts, ending at `n` inside the buffer, exactly when a well-formed field lies there. */
  lemma SkipIffField(s: seq<byte>, i: nat, n: nat)
    requires |s| < TWO_63 && i <= n <= |s|
    ensures SkipFrom(s, i, 0) == Skipped(n) <==> exists f :: WellFormed(f) && FieldAt(f, s, i, n)
  {
    if SkipFrom(s, i, 0) == Skipped(n) {
      var f := FieldSkippedOver(s, i);
    }
    forall f | WellFormed(f) && FieldAt(f, s, i, n) ensures SkipFrom(s, i, 0) == Skipped(n) {
      SkipOverField(s, i, n, f, 0);
    }
  }
}
