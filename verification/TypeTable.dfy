/**
 createEIP712Types (eth/eip712/types.go): the map of types, updated in place message by message,
 and what it holds at the end.
 */
module TypeTable {
  import opened Bytes
  import opened Decimals
  import opened Names
  import opened Schema
  import opened SchemaProperties
  import opened SignDoc

  const BASE_TX: seq<TypeField> :=
    [TypeField("account_number", "string"),
     TypeField("chain_id", "string"),
     TypeField("fee", "Fee"),
     TypeField("memo", "string"),
     TypeField("sequence", "string")]

  const BASE_DOMAIN: seq<TypeField> :=
    [TypeField("name", "string"),
     TypeField("version", "string"),
     TypeField("chainId", "uint256"),
     TypeField("verifyingContract", "string"),
     TypeField("salt", "string")]

  const BASE_FEE: seq<TypeField> := [TypeField("amount", "Coin[]"), TypeField("gas", "string")]
  const BASE_COIN: seq<TypeField> := [TypeField("denom", "string"), TypeField("amount", "string")]

  const BASE_TYPES: Types :=
    map["EIP712Domain" := BASE_DOMAIN, TX_FIELD := BASE_TX, "Fee" := BASE_FEE, "Coin" := BASE_COIN]

  /** msgRootType: `Type` and the last part of the message's type. */
  function MsgRootType(msg: Json): Option<string>
    requires msg.Obj?
  {
    if MSG_TYPE_FIELD !in msg.fields || !msg.fields[MSG_TYPE_FIELD].Text? || msg.fields[MSG_TYPE_FIELD].s == "" then None
    else
      var tokens := Split(msg.fields[MSG_TYPE_FIELD].s, '/');
      Some("Type" + tokens[|tokens| - 1])
  }

  /** The place behind the last slash among the first `k` characters. */
  function BehindSlash(text: string, k: nat): (i: nat)
    requires k <= |text|
    ensures i <= k && (i == 0 || text[i - 1] == '/')
    ensures forall j :: i <= j < k ==> text[j] != '/'
  {
    if k == 0 || text[k - 1] == '/' then k else BehindSlash(text, k - 1)
  }

  /** What follows the last slash. */
  function AfterSlash(text: string): string { text[BehindSlash(text, |text|)..] }

  /** The last token of the message's type is what follows its last slash. */
  lemma LastToken(text: string)
    ensures var tokens := Split(text, '/'); tokens[|tokens| - 1] == AfterSlash(text)
  {
    hide Split;
    var k, name := BehindSlash(text, |text|), AfterSlash(text);
    assert '/' !in name;
    if k == 0 {
      assert text == name;
      SplitNothing(name, '/');
    } else {
      assert text == text[..k - 1] + ['/'] + name;
      SplitLast(text[..k - 1], '/', name);
    }
  }

  /** A message of type `module/Name` has root type `TypeName`. */
  lemma RootTypeOfName(msg: Json, path: string, name: string)
    requires msg.Obj? && MSG_TYPE_FIELD in msg.fields && '/' !in name
    ensures msg.fields[MSG_TYPE_FIELD] == Text(path + "/" + name) ==> MsgRootType(msg) == Some("Type" + name)
    ensures msg.fields[MSG_TYPE_FIELD] == Text(name) && name != "" ==> MsgRootType(msg) == Some("Type" + name)
  {
    SplitLast(path, '/', name);
    SplitNothing(name, '/');
  }

  /** addMsgTypeDefToTxSchema */
  function AppendToTx(types: Types, field: string, key: string): Types {
    types[TX_FIELD := (if TX_FIELD in types then types[TX_FIELD] else []) + [TypeField(field, key)]]
  }

  /** addMsgTypesToRoot; None where it returns an error. */
  ghost function AddMsg(types: Types, field: string, payload: Payload): Option<Types> {
    if field !in payload || !payload[field].Obj? || MsgRootType(payload[field]) == None then None
    else
      var g := Generate(types, MsgRootType(payload[field]).value, "_", payload[field]);
      if g.key == None then None else Some(AppendToTx(g.types, field, g.key.value))
  }

  /** createEIP712Types for the first `n` messages. */
  ghost function CreateTypes(payload: Payload, n: nat): Option<Types> {
    if n == 0 then Some(BASE_TYPES)
    else
      match CreateTypes(payload, n - 1)
      case None => None
      case Some(types) => AddMsg(types, MsgField(n - 1), payload)
  }

  class Table {
    var types: Types

    constructor ()
      ensures types == BASE_TYPES
    {
      types := BASE_TYPES;
    }

    /** typesAreEqual */
    static method TypesAreEqual(types1: seq<TypeField>, types2: seq<TypeField>) returns (equal: bool)
      ensures equal <==> types1 == types2
    {
      if |types1| != |types2| { return false; }
      for i := 0 to |types1|
        invariant types1[..i] == types2[..i]
      {
        if types1[i].name != types2[i].name || types1[i].typ != types2[i].typ { return false; }
      }
      return true;
    }

    /** addTypesToRoot */
    method AddTypesToRoot(typeDef: string, def: seq<TypeField>) returns (key: Option<string>)
      modifies this
      ensures Generated(types, key) == AddFrom(old(types), typeDef, def, 0)
    {
      hide Indexed;
      var index := 0;
      while true
        invariant 0 <= index < MAX_DUPLICATE_TYPE_DEFS
        invariant types == old(types)
        invariant AddFrom(types, typeDef, def, 0) == AddFrom(types, typeDef, def, index)
        decreases MAX_DUPLICATE_TYPE_DEFS - index
      {
        var indexed := Indexed(typeDef, index);
        if indexed in types {
          var equal := TypesAreEqual(def, types[indexed]);
          if equal { return Some(indexed); }
        } else {
          types := types[indexed := def];
          return Some(indexed);
        }
        index := index + 1;
        if index == MAX_DUPLICATE_TYPE_DEFS { return None; }
      }
    }

    /** recursivelyAddTypesToRoot */
    method RecursivelyAdd(rootType: string, prefix: string, payload: Json) returns (key: Option<string>)
      modifies this
      ensures Generated(types, key) == Generate(old(types), rootType, prefix, payload)
      decreases payload
    {
      hide AddFrom, Sanitize, Descending, Generate;
      var sorted := SortedJSONKeys(payload);
      GenerateUnfolds(types, rootType, prefix, payload);
      if sorted == None { return None; }
      var names := sorted.value;
      assert names == Sorted(payload.fields.Keys);
      var typesToAdd: seq<TypeField> := [];
      ghost var end := WalkFields(types, rootType, prefix, payload, names, []);
      for i := 0 to |names|
        invariant end == WalkFields(types, rootType, prefix, payload, names[i..], typesToAdd)
      {
        var name := names[i];
        assert names[i..][1..] == names[i + 1..];
        var kind := KindOf(payload.fields[name]);
        match kind
        case Leave =>
        case Plain(typ) => typesToAdd := typesToAdd + [TypeField(name, typ)];
        case Walk(obj, isCollection) =>
          var fieldTypeDef := RecursivelyAdd(rootType, SubField(prefix, name), obj);
          if fieldTypeDef == None { return None; }
          typesToAdd := typesToAdd + [TypeField(name, Sanitize(fieldTypeDef.value) + Brackets(isCollection))];
      }
      key := AddTypesToRoot(TypeDefFor(prefix, rootType), typesToAdd);
    }

    /** addMsgTypesToRoot */
    method AddMsgTypes(field: string, payload: Payload) returns (ok: bool)
      modifies this
      ensures ok <==> AddMsg(old(types), field, payload).Some?
      ensures ok ==> types == AddMsg(old(types), field, payload).value
    {
      hide Generate, MsgRootType;
      if field !in payload || !payload[field].Obj? { return false; }
      var rootType := MsgRootType(payload[field]);
      if rootType == None { return false; }
      var msgTypeDef := RecursivelyAdd(rootType.value, "_", payload[field]);
      if msgTypeDef == None { return false; }
      types := AppendToTx(types, field, msgTypeDef.value);
      return true;
    }

    /** createEIP712Types, on a fresh table */
    method Create(payload: Payload, n: nat) returns (ok: bool)
      requires types == BASE_TYPES
      modifies this
      ensures ok <==> CreateTypes(payload, n).Some?
      ensures ok ==> types == CreateTypes(payload, n).value
    {
      hide AddMsg, MsgField;
      for i := 0 to n
        invariant CreateTypes(payload, i) == Some(types)
      {
        var added := AddMsgTypes(MsgField(i), payload);
        if !added {
          FailedPrefix(payload, i + 1, n);
          return false;
        }
      }
      return true;
    }
  }

  lemma {:induction false} FailedPrefix(payload: Payload, i: nat, n: nat)
    requires i <= n && CreateTypes(payload, i) == None
    ensures CreateTypes(payload, n) == None
  {
    hide AddMsg;
    if i < n {
      FailedPrefix(payload, i, n - 1);
    }
  }

  lemma GenerateUnfolds(types: Types, rootType: string, prefix: string, payload: Json)
    ensures Generate(types, rootType, prefix, payload) ==
            if !payload.Obj? then Generated(types, None)
            else
              var w := WalkFields(types, rootType, prefix, payload, Sorted(payload.fields.Keys), []);
              if w.def == None then Generated(w.types, None)
              else AddFrom(w.types, TypeDefFor(prefix, rootType), w.def.value, 0)
  {
    hide AddFrom, WalkFields;
  }

  // ----- what the table holds at the end -----

  /**
   Entry `j` after the five base fields of Tx is message `j`: its type is called `Type` and what follows the
   last slash of the message's type, with a number; it is defined and describes the message, nested objects
   by definitions with the names of their paths; and generating it once more would find that very type and
   change nothing.
   */
  ghost predicate Entry(types: Types, payload: Payload, j: nat) {
    && TX_FIELD in types && 5 + j < |types[TX_FIELD]|
    && MsgField(j) in payload && payload[MsgField(j)].Obj? && MsgRootType(payload[MsgField(j)]).Some?
    && types[TX_FIELD][5 + j].name == MsgField(j)
    && var msg, key := payload[MsgField(j)], types[TX_FIELD][5 + j].typ;
    && "type" in msg.fields && msg.fields["type"].Text?
    && var at := Place("Type" + AfterSlash(msg.fields["type"].s), []);
    && (exists index: nat :: index < 1000 && key == "Type" + AfterSlash(msg.fields["type"].s) + Format(index))
    && key in types && Conforms(types, at, msg, key)
    && Generate(types, MsgRootType(msg).value, "_", msg) == Generated(types, Some(key))
  }

  lemma RootOfMessage(msg: Json)
    requires msg.Obj? && MsgRootType(msg).Some?
    ensures "type" in msg.fields && msg.fields["type"].Text?
    ensures MsgRootType(msg).value == "Type" + AfterSlash(msg.fields["type"].s)
  {
    LastToken(msg.fields["type"].s);
  }

  ghost predicate Sound(types: Types, payload: Payload, n: nat) {
    && Closed(types) && Extends(BASE_TYPES, types)
    && TX_FIELD in types && |types[TX_FIELD]| == 5 + n && BASE_TX <= types[TX_FIELD]
    && forall j :: 0 <= j < n ==> Entry(types, payload, j)
  }

  lemma BaseSound(payload: Payload)
    ensures Sound(BASE_TYPES, payload, 0)
  {
    BaseClosed();
  }

  lemma CoinList()
    ensures Strip("Coin[]") == "Coin"
  {
    ListOf("Coin");
    assert "Coin[]" == "Coin" + "[]";
  }

  lemma BaseClosed()
    ensures Closed(BASE_TYPES)
  {
    CoinList();
    assert AllKnown(BASE_TYPES, BASE_DOMAIN);
    assert AllKnown(BASE_TYPES, BASE_TX);
    assert AllKnown(BASE_TYPES, BASE_FEE);
    assert AllKnown(BASE_TYPES, BASE_COIN);
  }

  lemma EntryLater(types: Types, later: Types, payload: Payload, j: nat)
    requires Entry(types, payload, j) && Extends(types, later) && types[TX_FIELD] <= later[TX_FIELD]
    ensures Entry(later, payload, j)
  {
    hide Generate, Conforms, MsgField, MsgRootType;
    var msg, key := payload[MsgField(j)], types[TX_FIELD][5 + j].typ;
    ConformsLater(types, later, Place("Type" + AfterSlash(msg.fields["type"].s), []), msg, key);
    GenerateStable(types, MsgRootType(msg).value, "_", msg, later);
  }

  lemma AppendExtends(types: Types, field: string, key: string)
    ensures Extends(types, AppendToTx(types, field, key))
  {
  }

  lemma AppendCloses(types: Types, field: string, key: string)
    requires Closed(types) && TX_FIELD in types && Known(types, key)
    ensures Closed(AppendToTx(types, field, key))
  {
    hide Known;
    var types' := AppendToTx(types, field, key);
    AppendExtends(types, field, key);
    forall k | k in types' ensures AllKnown(types', types'[k]) {
      assert AllKnown(types, types[k]);
      assert AllKnown(types, types[TX_FIELD] + [TypeField(field, key)]);
      KnownLater(types, types', types'[k]);
    }
  }

  lemma ExtendsTransitive(a: Types, b: Types, c: Types)
    requires Extends(a, b) && Extends(b, c)
    ensures Extends(a, c)
  {
    forall k | k in a ensures k in c && (k != TX_FIELD ==> c[k] == a[k]) {
      assert k in b;
    }
  }

  lemma KeepsTx(types: Types, later: Types)
    requires Keeps(types, later) && TX_FIELD in types
    ensures TX_FIELD in later && later[TX_FIELD] == types[TX_FIELD]
  {
  }

  /** The new entry of Tx. */
  lemma NewEntry(types: Types, payload: Payload, n: nat)
    requires TX_FIELD in types && |types[TX_FIELD]| == 5 + n
    requires AddMsg(types, MsgField(n), payload).Some?
    ensures Entry(AddMsg(types, MsgField(n), payload).value, payload, n)
  {
    hide Generate, Conforms, MsgField, MsgRootType, Keeps, Extends;
    var msg := payload[MsgField(n)];
    var root := MsgRootType(msg).value;
    var g := Generate(types, root, "_", msg);
    var key := g.key.value;
    var later, at := AppendToTx(g.types, MsgField(n), key), Place(root, []);
    GenerateKeeps(types, root, "_", msg);
    KeepsTx(types, g.types);
    RootPlace(root);
    GenerateConforms(types, at, msg);
    AppendExtends(g.types, MsgField(n), key);
    ConformsLater(g.types, later, at, msg, key);
    GenerateStable(types, root, "_", msg, later);
    RootOfMessage(msg);
    ObjectDefined(later, root, msg, key);
  }

  lemma ObjectDefined(types: Types, root: string, v: Json, key: string)
    requires v.Obj? && Conforms(types, Place(root, []), v, key)
    ensures key in types && exists index: nat :: index < 1000 && key == root + Format(index)
  {
  }

  lemma RootPlace(root: string)
    ensures PathOf(Place(root, []).names) == "_"
  {
  }

  lemma AddMsgSound(types: Types, payload: Payload, n: nat)
    requires Sound(types, payload, n) && AddMsg(types, MsgField(n), payload).Some?
    ensures Sound(AddMsg(types, MsgField(n), payload).value, payload, n + 1)
  {
    hide Generate, Conforms, MsgField, MsgRootType, Keeps, Extends, Closed, Entry;
    var msg := payload[MsgField(n)];
    var root := MsgRootType(msg).value;
    var g := Generate(types, root, "_", msg);
    var key := g.key.value;
    var later := AppendToTx(g.types, MsgField(n), key);
    GenerateKeeps(types, root, "_", msg);
    KeepsTx(types, g.types);
    KeepsExtends(types, g.types);
    AppendExtends(g.types, MsgField(n), key);
    ExtendsTransitive(types, g.types, later);
    ExtendsTransitive(BASE_TYPES, types, later);
    RootPlace(root);
    GenerateConforms(types, Place(root, []), msg);
    ConformingKnown(g.types, Place(root, []), msg, key);
    GenerateCloses(types, Place(root, []), msg);
    AppendCloses(g.types, MsgField(n), key);
    NewEntry(types, payload, n);
    forall j | 0 <= j < n ensures Entry(later, payload, j) {
      EntryLater(types, later, payload, j);
    }
  }

  /** The types created for a payload of `n` messages. */
  lemma {:induction false} CreatedTypes(payload: Payload, n: nat)
    requires CreateTypes(payload, n).Some?
    ensures Sound(CreateTypes(payload, n).value, payload, n)
  {
    hide AddMsg, Sound, MsgField;
    if n == 0 {
      BaseSound(payload);
    } else {
      CreatedTypes(payload, n - 1);
      AddMsgSound(CreateTypes(payload, n - 1).value, payload, n - 1);
    }
  }

  /** Equal messages share one type. */
  lemma EqualMessagesShareType(payload: Payload, n: nat, i: nat, j: nat)
    requires CreateTypes(payload, n).Some? && i < n && j < n
    requires MsgField(i) in payload && MsgField(j) in payload && payload[MsgField(i)] == payload[MsgField(j)]
    ensures var types := CreateTypes(payload, n).value;
            && TX_FIELD in types && |types[TX_FIELD]| == 5 + n
            && types[TX_FIELD][5 + i].typ == types[TX_FIELD][5 + j].typ
  {
    hide CreateTypes, Generate, Conforms, MsgField, MsgRootType;
    CreatedTypes(payload, n);
    var types := CreateTypes(payload, n).value;
    assert Entry(types, payload, i) && Entry(types, payload, j);
  }

  // ----- when creation fails -----

  /** Message `j` is an object with a text that is not empty as its type. */
  predicate Typed(payload: Payload, j: nat) {
    && MsgField(j) in payload && payload[MsgField(j)].Obj?
    && "type" in payload[MsgField(j)].fields
    && payload[MsgField(j)].fields["type"].Text? && payload[MsgField(j)].fields["type"].s != ""
  }

  /** Generating the types of message `j` after those of the messages before it fills a name. */
  ghost predicate FillsName(payload: Payload, j: nat) {
    && Typed(payload, j) && CreateTypes(payload, j).Some?
    && var msg := payload[MsgField(j)];
    && var g := Generate(CreateTypes(payload, j).value, "Type" + AfterSlash(msg.fields["type"].s), "_", msg);
    && g.key == None && SomeNameFull(g.types)
  }

  lemma AddMsgFails(payload: Payload, j: nat)
    requires CreateTypes(payload, j).Some?
    ensures CreateTypes(payload, j + 1) == None <==> !Typed(payload, j) || FillsName(payload, j)
  {
    hide Generate, MsgField, SomeNameFull, Split;
    var types := CreateTypes(payload, j).value;
    if Typed(payload, j) {
      var msg := payload[MsgField(j)];
      RootOfMessage(msg);
      var root := MsgRootType(msg).value;
      if Generate(types, root, "_", msg).key == None {
        GenerateFails(types, root, "_", msg);
      }
    }
  }

  /** Creation fails exactly if a message has no type text, or the types of one fill a name. */
  lemma {:induction false} CreateFailsIff(payload: Payload, n: nat)
    ensures CreateTypes(payload, n) == None <==> exists j :: 0 <= j < n && (!Typed(payload, j) || FillsName(payload, j))
  {
    hide AddMsg, Typed, FillsName;
    if n > 0 {
      CreateFailsIff(payload, n - 1);
      if CreateTypes(payload, n - 1).Some? {
        AddMsgFails(payload, n - 1);
      }
    }
  }
}
