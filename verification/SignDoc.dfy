/**
 The sign doc's payload (eth/eip712/message.go): its array of messages is flattened into one key
 for each message.
 */
module SignDoc {
  import opened Bytes
  import opened Decimals
  import opened Schema

  type Payload = map<string, Json>

  const MSGS_FIELD := "msgs"
  const MSG_TYPE_FIELD := "type"

  /** msgFieldForIndex */
  function MsgField(i: nat): string { "msg" + Format(i) }

  lemma MsgFieldInjective(i: nat, j: nat)
    ensures MsgField(i) == MsgField(j) <==> i == j
  {
    assert MsgField(i)[3..] == Format(i) && MsgField(j)[3..] == Format(j);
    FormatInjective(i, j);
  }

  /** The key of message `i` is `msg` and the decimal digits of `i`, without leading zeros. */
  lemma MsgFieldDigits(i: nat)
    ensures var key := MsgField(i);
            && |key| > 3 && key[..3] == "msg" && AllDigits(key[3..]) && Value(key[3..]) == i
            && (key[3] == '0' ==> i == 0 && |key| == 4)
  {
    assert MsgField(i)[3..] == Format(i);
    ValueOfFormat(i);
    NoLeadingZero(i);
  }

  lemma MsgFieldIsNotMsgs(i: nat)
    ensures MsgField(i) != MSGS_FIELD
  {
    ValueOfFormat(i);
    assert MsgField(i)[3] == Format(i)[0];
  }

  // ----- flattening -----

  predicate HasMessages(payload: Payload) {
    MSGS_FIELD in payload && payload[MSGS_FIELD].Arr?
  }

  /** An array of objects, and none of the keys they will get is taken. */
  predicate Flattenable(payload: Payload) {
    && HasMessages(payload)
    && var msgs := payload[MSGS_FIELD].elems;
    forall i :: 0 <= i < |msgs| ==> msgs[i].Obj? && MsgField(i) !in payload
  }

  /** The payload with the first `n` messages set at their own keys. */
  function WithMessages(payload: Payload, msgs: seq<Json>, n: nat): Payload
    requires n <= |msgs|
  {
    if n == 0 then payload else WithMessages(payload, msgs, n - 1)[MsgField(n - 1) := msgs[n - 1]]
  }

  lemma {:induction false} WithMessagesAt(payload: Payload, msgs: seq<Json>, n: nat)
    requires n <= |msgs|
    ensures var p := WithMessages(payload, msgs, n);
            && (forall i :: 0 <= i < n ==> MsgField(i) in p && p[MsgField(i)] == msgs[i])
            && (forall k :: (forall i :: 0 <= i < n ==> k != MsgField(i)) ==> (k in p <==> k in payload) && (k in payload ==> p[k] == payload[k]))
    decreases n
  {
    hide MsgField;
    if n > 0 {
      WithMessagesAt(payload, msgs, n - 1);
      var before, p := WithMessages(payload, msgs, n - 1), WithMessages(payload, msgs, n);
      forall i | 0 <= i < n ensures MsgField(i) in p && p[MsgField(i)] == msgs[i] {
        MsgFieldInjective(i, n - 1);
      }
      forall k | forall i :: 0 <= i < n ==> k != MsgField(i)
        ensures (k in p <==> k in payload) && (k in payload ==> p[k] == payload[k])
      {
        assert k != MsgField(n - 1);
        assert k in before <==> k in payload;
      }
    }
  }

  /** FlattenPayloadMessages: succeeds exactly on a flattenable payload. */
  method FlattenPayloadMessages(payload: Payload) returns (flattened: Payload, n: nat, ok: bool)
    ensures ok <==> Flattenable(payload)
    ensures ok ==> n == |payload[MSGS_FIELD].elems|
    ensures ok ==> flattened == WithMessages(payload, payload[MSGS_FIELD].elems, n) - {MSGS_FIELD}
  {
    hide MsgField;
    flattened, n, ok := map[], 0, false;
    if MSGS_FIELD !in payload { return; }
    if !payload[MSGS_FIELD].Arr? { return; }
    var msgs := payload[MSGS_FIELD].elems;
    var result := payload;
    for i := 0 to |msgs|
      invariant result == WithMessages(payload, msgs, i)
      invariant forall j :: 0 <= j < i ==> msgs[j].Obj? && MsgField(j) !in payload
    {
      NotYetSet(payload, msgs, i);
      if MsgField(i) in result { return; }
      if !msgs[i].Obj? { return; }
      result := result[MsgField(i) := msgs[i]];
    }
    return result - {MSGS_FIELD}, |msgs|, true;
  }

  lemma NotYetSet(payload: Payload, msgs: seq<Json>, i: nat)
    requires i < |msgs|
    ensures MsgField(i) in WithMessages(payload, msgs, i) <==> MsgField(i) in payload
  {
    hide MsgField;
    WithMessagesAt(payload, msgs, i);
    forall j | 0 <= j < i ensures MsgField(i) != MsgField(j) {
      MsgFieldInjective(i, j);
    }
  }

  function Flatten(payload: Payload): Payload
    requires HasMessages(payload)
  {
    WithMessages(payload, payload[MSGS_FIELD].elems, |payload[MSGS_FIELD].elems|) - {MSGS_FIELD}
  }

  /** The first `n` messages of a flattened payload. */
  function MessagesOf(flat: Payload, n: nat): Option<seq<Json>> {
    if n == 0 then Some([])
    else
      match MessagesOf(flat, n - 1)
      case None => None
      case Some(msgs) => if MsgField(n - 1) in flat then Some(msgs + [flat[MsgField(n - 1)]]) else None
  }

  ghost function MsgFields(n: nat): set<string> {
    if n == 0 then {} else MsgFields(n - 1) + {MsgField(n - 1)}
  }

  /** Undoing the flattening, given the number of messages. */
  ghost function Unflatten(flat: Payload, n: nat): Option<Payload> {
    match MessagesOf(flat, n)
    case None => None
    case Some(msgs) => Some((flat - MsgFields(n))[MSGS_FIELD := Arr(msgs)])
  }

  lemma {:induction false} MsgFieldsAre(n: nat, k: string)
    ensures k in MsgFields(n) <==> exists i :: 0 <= i < n && k == MsgField(i)
  {
    hide MsgField;
    if n > 0 {
      MsgFieldsAre(n - 1, k);
    }
  }

  lemma {:induction false} MessagesRead(flat: Payload, msgs: seq<Json>, n: nat)
    requires n <= |msgs|
    requires forall i :: 0 <= i < n ==> MsgField(i) in flat && flat[MsgField(i)] == msgs[i]
    ensures MessagesOf(flat, n) == Some(msgs[..n])
  {
    hide MsgField;
    if n > 0 {
      MessagesRead(flat, msgs, n - 1);
      assert msgs[..n] == msgs[..n - 1] + [msgs[n - 1]];
    }
  }

  /** Every other field is kept, the messages stand at their own keys, and `msgs` is gone. */
  lemma FlattenedFields(payload: Payload, k: string)
    requires Flattenable(payload)
    ensures var msgs, flat := payload[MSGS_FIELD].elems, Flatten(payload);
            && (forall i :: 0 <= i < |msgs| ==> MsgField(i) in flat && flat[MsgField(i)] == msgs[i])
            && (k in flat <==> k in MsgFields(|msgs|) || (k in payload && k != MSGS_FIELD))
            && (k in payload && k != MSGS_FIELD ==> k in flat && flat[k] == payload[k] && k !in MsgFields(|msgs|))
  {
    hide MsgField;
    var msgs, flat := payload[MSGS_FIELD].elems, Flatten(payload);
    WithMessagesAt(payload, msgs, |msgs|);
    forall i | 0 <= i < |msgs| ensures MsgField(i) in flat && flat[MsgField(i)] == msgs[i] {
      MsgFieldIsNotMsgs(i);
    }
    MsgFieldsAre(|msgs|, k);
  }

  /** Together with the number of messages, the flattened payload gives back the original. */
  lemma FlattenRoundTrip(payload: Payload)
    requires Flattenable(payload)
    ensures Unflatten(Flatten(payload), |payload[MSGS_FIELD].elems|) == Some(payload)
  {
    hide MsgField, Flatten;
    var msgs, flat := payload[MSGS_FIELD].elems, Flatten(payload);
    var n := |msgs|;
    FlattenedFields(payload, MSGS_FIELD);
    MessagesRead(flat, msgs, n);
    assert msgs[..n] == msgs;
    var back := (flat - MsgFields(n))[MSGS_FIELD := Arr(msgs)];
    forall k ensures (k in back <==> k in payload) && (k in payload ==> back[k] == payload[k]) {
      FlattenedFields(payload, k);
    }
    assert back == payload;
  }
}
