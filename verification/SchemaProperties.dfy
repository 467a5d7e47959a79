/** What the schema generator guarantees: nothing overwritten, stable, closed, and true to the JSON. */
module SchemaProperties {
  import opened Bytes
  import opened Decimals
  import opened Names
  import opened Schema

  // ----- nothing is overwritten -----

  ghost predicate Keeps(before: Types, after: Types) {
    forall k :: k in before ==> k in after && after[k] == before[k]
  }

  const TX_FIELD := "Tx"

  /** Every definition but that of Tx, which grows with each message, is kept. */
  ghost predicate Extends(before: Types, after: Types) {
    forall k :: k in before ==> k in after && (k != TX_FIELD ==> after[k] == before[k])
  }

  lemma {:induction false} AddKeeps(types: Types, typeDef: string, def: seq<TypeField>, i: nat)
    requires i < MAX_DUPLICATE_TYPE_DEFS
    ensures Keeps(types, AddFrom(types, typeDef, def, i).types)
    decreases MAX_DUPLICATE_TYPE_DEFS - i
  {
    hide Indexed;
    if i + 1 < MAX_DUPLICATE_TYPE_DEFS {
      AddKeeps(types, typeDef, def, i + 1);
    }
  }

  /** The duplicate index is taken by another definition. */
  predicate TakenByOther(types: Types, typeDef: string, def: seq<TypeField>, j: nat) {
    Indexed(typeDef, j) in types && types[Indexed(typeDef, j)] != def
  }

  /** The key names the definition, and its index is the least one not taken by another. */
  lemma {:induction false} AddedKey(types: Types, typeDef: string, def: seq<TypeField>, i: nat) returns (index: nat)
    requires i < MAX_DUPLICATE_TYPE_DEFS && AddFrom(types, typeDef, def, i).key.Some?
    ensures i <= index < MAX_DUPLICATE_TYPE_DEFS
    ensures var r := AddFrom(types, typeDef, def, i);
            && r.key == Some(Indexed(typeDef, index))
            && (r.types == types || r.types == types[r.key.value := def])
            && r.key.value in r.types && r.types[r.key.value] == def
    ensures !TakenByOther(types, typeDef, def, index)
    ensures forall j :: i <= j < index ==> TakenByOther(types, typeDef, def, j)
    decreases MAX_DUPLICATE_TYPE_DEFS - i
  {
    hide Indexed;
    if TakenByOther(types, typeDef, def, i) {
      index := AddedKey(types, typeDef, def, i + 1);
    } else {
      index := i;
    }
  }

  /** Adding fails exactly when all thousand indices are taken by other definitions, and then changes nothing. */
  lemma {:induction false} AddFailsIffAllTaken(types: Types, typeDef: string, def: seq<TypeField>, i: nat)
    requires i < MAX_DUPLICATE_TYPE_DEFS
    ensures AddFrom(types, typeDef, def, i).key == None <==>
            forall j :: i <= j < 1000 ==> TakenByOther(types, typeDef, def, j)
    ensures AddFrom(types, typeDef, def, i).key == None ==> AddFrom(types, typeDef, def, i).types == types
    decreases MAX_DUPLICATE_TYPE_DEFS - i
  {
    hide Indexed;
    if TakenByOther(types, typeDef, def, i) && i + 1 < MAX_DUPLICATE_TYPE_DEFS {
      AddFailsIffAllTaken(types, typeDef, def, i + 1);
    }
  }

  lemma KeepsTransitive(a: Types, b: Types, c: Types)
    requires Keeps(a, b) && Keeps(b, c)
    ensures Keeps(a, c)
  {
    forall k | k in a ensures k in c && c[k] == a[k] {
      assert k in b;
    }
  }

  lemma KeepsThenExtends(a: Types, b: Types, c: Types)
    requires Keeps(a, b) && Extends(b, c)
    ensures Extends(a, c)
  {
    forall k | k in a ensures k in c && (k != TX_FIELD ==> c[k] == a[k]) {
      assert k in b;
    }
  }

  lemma {:induction false} GenerateKeeps(types: Types, rootType: string, prefix: string, payload: Json)
    ensures Keeps(types, Generate(types, rootType, prefix, payload).types)
    decreases payload, 1, 0
  {
    hide AddFrom, Sanitize, KindOf, Keeps;
    if payload.Obj? {
      var names := Sorted(payload.fields.Keys);
      WalkKeeps(types, rootType, prefix, payload, names, []);
      var w := WalkFields(types, rootType, prefix, payload, names, []);
      if w.def.Some? {
        AddKeeps(w.types, TypeDefFor(prefix, rootType), w.def.value, 0);
        KeepsTransitive(types, w.types, Generate(types, rootType, prefix, payload).types);
      }
    } else {
      KeepsItself(types);
    }
  }

  lemma KeepsItself(types: Types)
    ensures Keeps(types, types)
  {
  }

  lemma {:induction false} WalkKeeps(types: Types, rootType: string, prefix: string, payload: Json,
                                     names: seq<string>, acc: seq<TypeField>)
    requires payload.Obj? && forall n :: n in names ==> n in payload.fields
    ensures Keeps(types, WalkFields(types, rootType, prefix, payload, names, acc).types)
    decreases payload, 0, |names|
  {
    hide Sanitize, Keeps;
    if names == [] {
      KeepsItself(types);
    } else {
      var name, rest := names[0], names[1..];
      match KindOf(payload.fields[name])
      case Leave => WalkKeeps(types, rootType, prefix, payload, rest, acc);
      case Plain(typ) => WalkKeeps(types, rootType, prefix, payload, rest, acc + [TypeField(name, typ)]);
      case Walk(obj, isCollection) =>
        GenerateKeeps(types, rootType, SubField(prefix, name), obj);
        var g := Generate(types, rootType, SubField(prefix, name), obj);
        if g.key.Some? {
          var acc' := acc + [TypeField(name, Sanitize(g.key.value) + Brackets(isCollection))];
          WalkKeeps(g.types, rootType, prefix, payload, rest, acc');
          KeepsTransitive(types, g.types, WalkFields(g.types, rootType, prefix, payload, rest, acc').types);
        }
    }
  }

  // ----- failure -----

  /** All thousand keys of some name are taken. */
  ghost predicate SomeNameFull(types: Types) {
    exists typeDef :: NameFull(types, typeDef)
  }

  ghost predicate NameFull(types: Types, typeDef: string) {
    forall j :: 0 <= j < 1000 ==> Indexed(typeDef, j) in types
  }

  /** Generating the types of an object fails only when some name is full. */
  lemma {:induction false} GenerateFails(types: Types, rootType: string, prefix: string, payload: Json)
    requires payload.Obj? && Generate(types, rootType, prefix, payload).key == None
    ensures SomeNameFull(Generate(types, rootType, prefix, payload).types)
    decreases payload, 1, 0
  {
    hide AddFrom, Sanitize, KindOf, TypeDefFor, Indexed;
    var names := Sorted(payload.fields.Keys);
    var w := WalkFields(types, rootType, prefix, payload, names, []);
    if w.def == None {
      WalkFails(types, rootType, prefix, payload, names, []);
    } else {
      var typeDef := TypeDefFor(prefix, rootType);
      AddFailsIffAllTaken(w.types, typeDef, w.def.value, 0);
      forall j | 0 <= j < 1000 ensures Indexed(typeDef, j) in w.types {
        assert TakenByOther(w.types, typeDef, w.def.value, j);
      }
      assert NameFull(w.types, typeDef);
    }
  }

  lemma {:induction false} WalkFails(types: Types, rootType: string, prefix: string, payload: Json,
                                     names: seq<string>, acc: seq<TypeField>)
    requires payload.Obj? && forall n :: n in names ==> n in payload.fields
    requires WalkFields(types, rootType, prefix, payload, names, acc).def == None
    ensures SomeNameFull(WalkFields(types, rootType, prefix, payload, names, acc).types)
    decreases payload, 0, |names|
  {
    hide Sanitize, SomeNameFull;
    var name, rest := names[0], names[1..];
    match KindOf(payload.fields[name])
    case Leave => WalkFails(types, rootType, prefix, payload, rest, acc);
    case Plain(typ) => WalkFails(types, rootType, prefix, payload, rest, acc + [TypeField(name, typ)]);
    case Walk(obj, isCollection) =>
      var g := Generate(types, rootType, SubField(prefix, name), obj);
      if g.key == None {
        GenerateFails(types, rootType, SubField(prefix, name), obj);
      } else {
        var f := TypeField(name, Sanitize(g.key.value) + Brackets(isCollection));
        WalkFails(g.types, rootType, prefix, payload, rest, acc + [f]);
      }
  }

  // ----- stability -----

  lemma {:induction false} AddStable(types: Types, typeDef: string, def: seq<TypeField>, i: nat, later: Types)
    requires i < MAX_DUPLICATE_TYPE_DEFS && AddFrom(types, typeDef, def, i).key.Some?
    requires Extends(AddFrom(types, typeDef, def, i).types, later)
    ensures AddFrom(later, typeDef, def, i) == Generated(later, AddFrom(types, typeDef, def, i).key)
    decreases MAX_DUPLICATE_TYPE_DEFS - i
  {
    hide Indexed;
    var key := Indexed(typeDef, i);
    NotTx(typeDef, i);
    AddKeeps(types, typeDef, def, i);
    if key in types && types[key] != def {
      AddStable(types, typeDef, def, i + 1, later);
    }
  }

  lemma NotTx(typeDef: string, i: nat)
    ensures Indexed(typeDef, i) != TX_FIELD
  {
    IndexedEndsWithDigit(typeDef, i);
  }

  /**
   Once an object's types are in the map, generating them again in any extension of it returns the
   same key and changes nothing.
   */
  lemma {:induction false} GenerateStable(types: Types, rootType: string, prefix: string, payload: Json, later: Types)
    requires Generate(types, rootType, prefix, payload).key.Some?
    requires Extends(Generate(types, rootType, prefix, payload).types, later)
    ensures Generate(later, rootType, prefix, payload) == Generated(later, Generate(types, rootType, prefix, payload).key)
    decreases payload, 1, 0
  {
    hide AddFrom, Sanitize, KindOf, Keeps, Extends, WalkFields;
    var names := Sorted(payload.fields.Keys);
    var w := WalkFields(types, rootType, prefix, payload, names, []);
    AddKeeps(w.types, TypeDefFor(prefix, rootType), w.def.value, 0);
    KeepsThenExtends(w.types, Generate(types, rootType, prefix, payload).types, later);
    WalkStable(types, rootType, prefix, payload, names, [], later);
    AddStable(w.types, TypeDefFor(prefix, rootType), w.def.value, 0, later);
  }

  lemma {:induction false} WalkStable(types: Types, rootType: string, prefix: string, payload: Json,
                                      names: seq<string>, acc: seq<TypeField>, later: Types)
    requires payload.Obj? && forall n :: n in names ==> n in payload.fields
    requires WalkFields(types, rootType, prefix, payload, names, acc).def.Some?
    requires Extends(WalkFields(types, rootType, prefix, payload, names, acc).types, later)
    ensures WalkFields(later, rootType, prefix, payload, names, acc)
         == Walked(later, WalkFields(types, rootType, prefix, payload, names, acc).def)
    decreases payload, 0, |names|
  {
    hide Sanitize, Keeps, Extends, Generate;
    if names != [] {
      var name, rest := names[0], names[1..];
      match KindOf(payload.fields[name])
      case Leave => WalkStable(types, rootType, prefix, payload, rest, acc, later);
      case Plain(typ) => WalkStable(types, rootType, prefix, payload, rest, acc + [TypeField(name, typ)], later);
      case Walk(obj, isCollection) =>
        var g := Generate(types, rootType, SubField(prefix, name), obj);
        var acc' := acc + [TypeField(name, Sanitize(g.key.value) + Brackets(isCollection))];
        WalkKeeps(g.types, rootType, prefix, payload, rest, acc');
        KeepsThenExtends(g.types, WalkFields(g.types, rootType, prefix, payload, rest, acc').types, later);
        GenerateStable(types, rootType, SubField(prefix, name), obj, later);
        WalkStable(g.types, rootType, prefix, payload, rest, acc', later);
    }
  }

  // ----- the definitions describe the JSON -----

  /** A value the schema can describe: not null, and not a list that starts with null or with a list. */
  predicate Typable(v: Json) {
    if v.Arr? then v.elems == [] || !(v.elems[0].Null? || v.elems[0].Arr?) else !v.Null?
  }

  function NamesOf(def: seq<TypeField>): (names: seq<string>)
    ensures |names| == |def| && forall i :: 0 <= i < |def| ==> names[i] == def[i].name
  {
    if def == [] then [] else NamesOf(def[..|def| - 1]) + [def[|def| - 1].name]
  }

  function TypableNames(fields: map<string, Json>, names: seq<string>): seq<string> {
    if names == [] then []
    else
      var before, n := TypableNames(fields, names[..|names| - 1]), names[|names| - 1];
      if n in fields && Typable(fields[n]) then before + [n] else before
  }

  /**
   Value `v` at place `at` is of type `t`: scalars of the scalar types; an object of a definition with the
   name of its place that lists, in descending order, exactly its typable fields with types their values
   have; a list of the type of its first element.
   */
  ghost predicate Conforms(types: Types, at: Place, v: Json, t: string)
    decreases v
  {
    match v
    case Null => false
    case Boolean(_) => t == "bool"
    case Number(_) => t == "int64"
    case Text(_) => t == "string"
    case Arr(elems) =>
      if elems == [] then t == "string[]"
      else IsList(t) && !elems[0].Arr? && Conforms(types, at, elems[0], ElementOf(t))
    case Obj(fields) =>
      && IsNamed(t, at) && t in types
      && NamesOf(types[t]) == TypableNames(fields, Sorted(fields.Keys))
      && forall i :: 0 <= i < |types[t]| ==>
           && types[t][i].name in fields
           && Conforms(types, Below(at, types[t][i].name), fields[types[t][i].name], types[t][i].typ)
  }

  predicate IsList(t: string) { |t| >= 2 && t[|t| - 2..] == "[]" }

  function ElementOf(t: string): string
    requires IsList(t)
  {
    t[..|t| - 2]
  }

  lemma ListOf(t: string)
    ensures IsList(t + "[]") && ElementOf(t + "[]") == t
  {
  }

  lemma {:induction false} ConformsLater(types: Types, later: Types, at: Place, v: Json, t: string)
    requires Extends(types, later) && Conforms(types, at, v, t)
    ensures Conforms(later, at, v, t)
    decreases v
  {
    hide IsSorted, IsNamed;
    match v
    case Arr(elems) =>
      if elems != [] {
        ConformsLater(types, later, at, elems[0], ElementOf(t));
      }
    case Obj(fields) =>
      NamedEndsWithDigit(t, at);
      assert t != TX_FIELD;
      var def := types[t];
      forall i | 0 <= i < |def|
        ensures def[i].name in fields && Conforms(later, Below(at, def[i].name), fields[def[i].name], def[i].typ)
      {
        ConformsLater(types, later, Below(at, def[i].name), fields[def[i].name], def[i].typ);
      }
    case _ =>
  }

  ghost predicate FieldConforms(types: Types, at: Place, fields: map<string, Json>, f: TypeField) {
    f.name in fields && Conforms(types, Below(at, f.name), fields[f.name], f.typ)
  }

  /** The definition of the fields listed in `done`. */
  ghost predicate Describes(types: Types, at: Place, fields: map<string, Json>, done: seq<string>, def: seq<TypeField>) {
    && NamesOf(def) == TypableNames(fields, done)
    && forall i :: 0 <= i < |def| ==> FieldConforms(types, at, fields, def[i])
  }

  lemma DescribesLater(types: Types, later: Types, at: Place, fields: map<string, Json>, done: seq<string>,
                       def: seq<TypeField>)
    requires Extends(types, later) && Describes(types, at, fields, done, def)
    ensures Describes(later, at, fields, done, def)
  {
    hide Extends, Conforms;
    forall i | 0 <= i < |def| ensures FieldConforms(later, at, fields, def[i]) {
      ConformsLater(types, later, Below(at, def[i].name), fields[def[i].name], def[i].typ);
    }
  }

  lemma DescribesNext(types: Types, at: Place, fields: map<string, Json>, done: seq<string>, def: seq<TypeField>,
                      f: TypeField)
    requires Describes(types, at, fields, done, def) && FieldConforms(types, at, fields, f)
    requires f.name in fields && Typable(fields[f.name])
    ensures Describes(types, at, fields, done + [f.name], def + [f])
  {
    hide FieldConforms;
    assert (done + [f.name])[..|done|] == done;
    assert (def + [f])[..|def|] == def;
  }

  lemma DescribesSkipped(types: Types, at: Place, fields: map<string, Json>, done: seq<string>, def: seq<TypeField>,
                         name: string)
    requires Describes(types, at, fields, done, def) && !(name in fields && Typable(fields[name]))
    ensures Describes(types, at, fields, done + [name], def)
  {
    assert (done + [name])[..|done|] == done;
  }

  /** The loop leaves out exactly what is not typable, and types scalars and lists of them rightly. */
  lemma KindConforms(types: Types, at: Place, v: Json)
    ensures KindOf(v).Leave? <==> !Typable(v)
    ensures KindOf(v).Plain? ==> Conforms(types, at, v, KindOf(v).typ)
  {
    if v.Arr? && v.elems != [] {
      ListOf(EthType(v.elems[0]));
    }
  }

  lemma WalkedConforms(types: Types, at: Place, v: Json, key: string)
    requires KindOf(v).Walk? && Conforms(types, at, KindOf(v).obj, key)
    ensures Conforms(types, at, v, key + Brackets(KindOf(v).isCollection))
  {
    if v.Arr? {
      ListOf(key);
    } else {
      assert key + "" == key;
    }
  }

  /** The key of a nested object is a name sanitizing leaves alone. */
  lemma NestedKey(types: Types, rootType: string, prefix: string, payload: Json)
    requires BelowRoot(prefix) && Generate(types, rootType, prefix, payload).key.Some?
    ensures var key := Generate(types, rootType, prefix, payload).key.value; Sanitize(key) == key
  {
    hide AddFrom, Sanitize, WalkFields, BelowRoot;
    var w := WalkFields(types, rootType, prefix, payload, Sorted(payload.fields.Keys), []);
    var index := AddedKey(w.types, TypeDefFor(prefix, rootType), w.def.value, 0);
    NestedNameFixed(prefix, rootType, index);
  }

  ghost function GenerateAt(types: Types, at: Place, payload: Json): Generated {
    Generate(types, at.root, PathOf(at.names), payload)
  }

  /** The key a generated definition gets is the name of its place, with a number. */
  lemma GeneratedName(types: Types, at: Place, payload: Json)
    requires GenerateAt(types, at, payload).key.Some?
    ensures IsNamed(GenerateAt(types, at, payload).key.value, at)
  {
    hide AddFrom, WalkFields, TypeDefFor, TypeName, PathOf;
    var w := WalkFields(types, at.root, PathOf(at.names), payload, Sorted(payload.fields.Keys), []);
    var index := AddedKey(w.types, TypeDefFor(PathOf(at.names), at.root), w.def.value, 0);
    TypeDefIsTypeName(at);
    assert GenerateAt(types, at, payload).key.value == TypeName(at) + Format(index);
  }

  /** The definition generated for an object describes it. */
  lemma {:induction false} GenerateConforms(types: Types, at: Place, payload: Json)
    requires GenerateAt(types, at, payload).key.Some?
    ensures var g := GenerateAt(types, at, payload); Conforms(g.types, at, payload, g.key.value)
    decreases payload, 1, 0
  {
    hide AddFrom, Sanitize, WalkFields, Keeps, Extends, FieldConforms, Descending, IsNamed, PathOf, TypeDefFor;
    var names, prefix := Sorted(payload.fields.Keys), PathOf(at.names);
    var w := WalkFields(types, at.root, prefix, payload, names, []);
    var g := GenerateAt(types, at, payload);
    NothingDescribed(types, at, payload.fields);
    WalkDescribes(types, at, payload, [], names, []);
    var index := AddedKey(w.types, TypeDefFor(prefix, at.root), w.def.value, 0);
    GeneratedName(types, at, payload);
    AddKeeps(w.types, TypeDefFor(prefix, at.root), w.def.value, 0);
    KeepsExtends(w.types, g.types);
    assert [] + names == names;
    DescribesLater(w.types, g.types, at, payload.fields, names, w.def.value);
    ConformsByDef(g.types, at, payload, g.key.value);
  }

  lemma ConformsByDef(types: Types, at: Place, payload: Json, key: string)
    requires payload.Obj? && IsNamed(key, at) && key in types
    requires Describes(types, at, payload.fields, Sorted(payload.fields.Keys), types[key])
    ensures Conforms(types, at, payload, key)
  {
    hide IsNamed, NamesOf;
    var def := types[key];
    forall i | 0 <= i < |def|
      ensures def[i].name in payload.fields && Conforms(types, Below(at, def[i].name), payload.fields[def[i].name], def[i].typ)
    {
      assert FieldConforms(types, at, payload.fields, def[i]);
    }
  }

  lemma NothingDescribed(types: Types, at: Place, fields: map<string, Json>)
    ensures Describes(types, at, fields, [], [])
  {
  }

  lemma KeepsExtends(a: Types, b: Types)
    requires Keeps(a, b)
    ensures Extends(a, b)
  {
  }

  lemma {:induction false} WalkDescribes(types: Types, at: Place, payload: Json, done: seq<string>, names: seq<string>,
                                         acc: seq<TypeField>)
    requires payload.Obj? && forall n :: n in names ==> n in payload.fields
    requires Describes(types, at, payload.fields, done, acc)
    requires WalkFields(types, at.root, PathOf(at.names), payload, names, acc).def.Some?
    ensures var w := WalkFields(types, at.root, PathOf(at.names), payload, names, acc);
            Describes(w.types, at, payload.fields, done + names, w.def.value)
    decreases payload, 0, |names|
  {
    hide Sanitize, Keeps, Extends, Generate, Describes, Conforms, Typable, KindOf, PathOf;
    if names == [] {
      assert done + names == done;
    } else {
      var name, rest := names[0], names[1..];
      var v := payload.fields[name];
      assert done + names == done + [name] + rest;
      KindConforms(types, Below(at, name), v);
      match KindOf(v)
      case Leave =>
        DescribesSkipped(types, at, payload.fields, done, acc, name);
        WalkDescribes(types, at, payload, done + [name], rest, acc);
      case Plain(typ) =>
        DescribesNext(types, at, payload.fields, done, acc, TypeField(name, typ));
        WalkDescribes(types, at, payload, done + [name], rest, acc + [TypeField(name, typ)]);
      case Walk(obj, isCollection) =>
        var below := Below(at, name);
        PathBelow(at.names, name);
        PathBelowRoot(below.names);
        var g := GenerateAt(types, below, obj);
        GenerateConforms(types, below, obj);
        NestedKey(types, at.root, PathOf(below.names), obj);
        WalkedConforms(g.types, below, v, g.key.value);
        GenerateKeeps(types, at.root, PathOf(below.names), obj);
        KeepsExtends(types, g.types);
        DescribesLater(types, g.types, at, payload.fields, done, acc);
        var f := TypeField(name, Sanitize(g.key.value) + Brackets(isCollection));
        DescribesNext(g.types, at, payload.fields, done, acc, f);
        WalkDescribes(g.types, at, payload, done + [name], rest, acc + [f]);
    }
  }

  // ----- closure -----

  predicate Primitive(t: string) { t in {"string", "bool", "int64", "uint256"} }

  /** `t` without the brackets of a list. */
  function Strip(t: string): string { if IsList(t) then ElementOf(t) else t }

  ghost predicate Known(types: Types, t: string) { Primitive(Strip(t)) || Strip(t) in types }

  ghost predicate AllKnown(types: Types, def: seq<TypeField>) {
    forall i :: 0 <= i < |def| ==> Known(types, def[i].typ)
  }

  /** Every type a definition uses is primitive or defined. */
  ghost predicate Closed(types: Types) {
    forall k :: k in types ==> AllKnown(types, types[k])
  }

  lemma KnownLater(types: Types, later: Types, def: seq<TypeField>)
    requires AllKnown(types, def) && Extends(types, later)
    ensures AllKnown(later, def)
  {
    hide Strip, Primitive;
  }

  lemma ClosedAdd(types: Types, key: string, def: seq<TypeField>)
    requires Closed(types) && AllKnown(types, def) && key !in types
    ensures Closed(types[key := def])
  {
    hide AllKnown;
    var types' := types[key := def];
    assert Extends(types, types');
    forall k | k in types' ensures AllKnown(types', types'[k]) {
      KnownLater(types, types', types'[k]);
    }
  }

  lemma {:induction false} AddCloses(types: Types, typeDef: string, def: seq<TypeField>, i: nat)
    requires i < MAX_DUPLICATE_TYPE_DEFS && Closed(types) && AllKnown(types, def)
    ensures Closed(AddFrom(types, typeDef, def, i).types)
    decreases MAX_DUPLICATE_TYPE_DEFS - i
  {
    hide Indexed, Closed, AllKnown;
    var key := Indexed(typeDef, i);
    if key !in types {
      ClosedAdd(types, key, def);
    } else if types[key] != def && i + 1 < MAX_DUPLICATE_TYPE_DEFS {
      AddCloses(types, typeDef, def, i + 1);
    }
  }

  /** A conforming value has a known type. */
  lemma {:induction false} ConformingKnown(types: Types, at: Place, v: Json, t: string)
    requires Conforms(types, at, v, t)
    ensures Known(types, t)
  {
    match v
    case Arr(elems) =>
      if elems != [] {
        ScalarOrObject(types, at, elems[0], ElementOf(t));
      } else {
        ListOf("string");
        assert t == "string" + "[]";
      }
    case Obj(fields) => ScalarOrObject(types, at, v, t);
    case _ =>
  }

  lemma ScalarOrObject(types: Types, at: Place, v: Json, t: string)
    requires !v.Arr? && Conforms(types, at, v, t)
    ensures (Primitive(t) || t in types) && (v.Obj? ==> Strip(t) == t)
  {
    hide IsNamed;
    if v.Obj? {
      NamedEndsWithDigit(t, at);
    }
  }

  /** Generating types keeps the map closed. */
  lemma {:induction false} GenerateCloses(types: Types, at: Place, payload: Json)
    requires Closed(types) && GenerateAt(types, at, payload).key.Some?
    ensures Closed(GenerateAt(types, at, payload).types)
    decreases payload, 1, 0
  {
    hide AddFrom, Sanitize, WalkFields, Closed, AllKnown, Describes, Descending, PathOf, TypeDefFor;
    var names, prefix := Sorted(payload.fields.Keys), PathOf(at.names);
    var w := WalkFields(types, at.root, prefix, payload, names, []);
    NothingDescribed(types, at, payload.fields);
    WalkDescribes(types, at, payload, [], names, []);
    DescribedKnown(w.types, at, payload.fields, [] + names, w.def.value);
    WalkCloses(types, at, payload, names, []);
    AddCloses(w.types, TypeDefFor(prefix, at.root), w.def.value, 0);
  }

  lemma DescribedKnown(types: Types, at: Place, fields: map<string, Json>, done: seq<string>, def: seq<TypeField>)
    requires Describes(types, at, fields, done, def)
    ensures AllKnown(types, def)
  {
    hide Conforms, Known;
    forall i | 0 <= i < |def| ensures Known(types, def[i].typ) {
      assert FieldConforms(types, at, fields, def[i]);
      ConformingKnown(types, Below(at, def[i].name), fields[def[i].name], def[i].typ);
    }
  }

  lemma {:induction false} WalkCloses(types: Types, at: Place, payload: Json, names: seq<string>, acc: seq<TypeField>)
    requires payload.Obj? && forall n :: n in names ==> n in payload.fields
    requires Closed(types) && WalkFields(types, at.root, PathOf(at.names), payload, names, acc).def.Some?
    ensures Closed(WalkFields(types, at.root, PathOf(at.names), payload, names, acc).types)
    decreases payload, 0, |names|
  {
    hide Sanitize, Generate, Closed, KindOf, PathOf;
    if names != [] {
      var name, rest := names[0], names[1..];
      match KindOf(payload.fields[name])
      case Leave => WalkCloses(types, at, payload, rest, acc);
      case Plain(typ) => WalkCloses(types, at, payload, rest, acc + [TypeField(name, typ)]);
      case Walk(obj, isCollection) =>
        PathBelow(at.names, name);
        var g := GenerateAt(types, Below(at, name), obj);
        GenerateCloses(types, Below(at, name), obj);
        var f := TypeField(name, Sanitize(g.key.value) + Brackets(isCollection));
        WalkCloses(g.types, at, payload, rest, acc + [f]);
    }
  }
}
