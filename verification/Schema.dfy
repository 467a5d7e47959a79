/**
 The EIP-712 schema generator (eth/eip712/types.go): a JSON object is walked depth first, and the
 definition of each nested object is put into one map of types.
 */
module Schema {
  import opened Bytes
  import opened Names

  /** A JSON value; an object is a finite map, its keys taken literally. */
  datatype Json =
    | Null
    | Boolean(b: bool)
    | Number(text: string)
    | Text(s: string)
    | Arr(elems: seq<Json>)
    | Obj(fields: map<string, Json>)

  datatype TypeField = TypeField(name: string, typ: string)

  type Types = map<string, seq<TypeField>>

  const MAX_DUPLICATE_TYPE_DEFS := 1000

  // ----- sorted keys -----

  ghost predicate IsSorted(names: seq<string>, keys: set<string>) {
    Descending(names) && Lists(names, keys)
  }

  /** Inserts a new name into a descending list. */
  method InsertName(names: seq<string>, name: string) returns (names': seq<string>)
    requires Descending(names) && name !in names
    ensures Descending(names') && forall n :: n in names' <==> n == name || n in names
  {
    hide Before;
    var i := 0;
    while i < |names| && Before(name, names[i])
      invariant 0 <= i <= |names|
      invariant forall j :: 0 <= j < i ==> Before(name, names[j])
    {
      i := i + 1;
    }
    names' := names[..i] + [name] + names[i..];
    forall j | i <= j < |names| ensures Before(names[j], name) {
      BeforeTotal(name, names[i]);
      if j > i { BeforeTransitive(names[j], names[i], name); }
    }
    assert names == names[..i] + names[i..];
  }

  /** sortedJSONKeys: whatever order the map is enumerated in, one list comes out. */
  method SortedJSONKeys(json: Json) returns (names: Option<seq<string>>)
    ensures json.Obj? <==> names.Some?
    ensures json.Obj? ==> IsSorted(names.value, json.fields.Keys)
    ensures json.Obj? ==> forall other :: IsSorted(other, json.fields.Keys) ==> other == names.value
  {
    hide Descending;
    if !json.Obj? { return None; }
    var sorted: seq<string> := [];
    NothingDescends();
    var todo := json.fields.Keys;
    while todo != {}
      invariant todo <= json.fields.Keys && IsSorted(sorted, json.fields.Keys - todo)
      decreases |todo|
    {
      var k :| k in todo;
      sorted := InsertName(sorted, k);
      todo := todo - {k};
    }
    assert json.fields.Keys - todo == json.fields.Keys;
    forall other | IsSorted(other, json.fields.Keys) ensures other == sorted {
      DescendingUnique(other, sorted, json.fields.Keys);
    }
    return Some(sorted);
  }

  lemma NothingDescends()
    ensures Descending([])
  {
  }

  lemma {:induction false} SortedExists(keys: set<string>)
    ensures exists names :: IsSorted(names, keys)
  {
    if keys == {} {
      assert IsSorted([], keys);
    } else {
      var top := Topmost(keys);
      SortedExists(keys - {top});
      var rest :| IsSorted(rest, keys - {top});
      TopFirst(top, rest, keys);
    }
  }

  lemma TopFirst(top: string, rest: seq<string>, keys: set<string>)
    requires top in keys && IsSorted(rest, keys - {top})
    requires forall k :: k in keys ==> k == top || Before(k, top)
    ensures IsSorted([top] + rest, keys)
  {
    hide Before;
    assert forall i :: 0 <= i < |rest| ==> rest[i] in keys - {top};
  }

  lemma {:induction false} Topmost(keys: set<string>) returns (top: string)
    requires keys != {}
    ensures top in keys && forall k :: k in keys ==> k == top || Before(k, top)
  {
    hide Before;
    var k :| k in keys;
    var rest := keys - {k};
    if rest == {} {
      assert keys == {k};
      top := k;
    } else {
      top := Topmost(rest);
      BeforeTotal(k, top);
      if Before(top, k) {
        forall j | j in keys ensures j == k || Before(j, k) {
          if j != k && j != top { BeforeTransitive(j, top, k); }
        }
        top := k;
      }
    }
  }

  /** The one descending list of a set of keys. */
  ghost function Sorted(keys: set<string>): (names: seq<string>)
    ensures IsSorted(names, keys)
  {
    SortedExists(keys);
    var names :| IsSorted(names, keys);
    names
  }

  // ----- adding a definition -----

  datatype Generated = Generated(types: Types, key: Option<string>)

  /** The search from duplicate index `i` on; None when all thousand indices are taken by other definitions. */
  function AddFrom(types: Types, typeDef: string, def: seq<TypeField>, i: nat): Generated
    requires i < MAX_DUPLICATE_TYPE_DEFS
    decreases MAX_DUPLICATE_TYPE_DEFS - i
  {
    var key := Indexed(typeDef, i);
    if key in types && types[key] == def then Generated(types, Some(key))
    else if key !in types then Generated(types[key := def], Some(key))
    else if i + 1 == MAX_DUPLICATE_TYPE_DEFS then Generated(types, None)
    else AddFrom(types, typeDef, def, i + 1)
  }

  // ----- the walk -----

  const ETH_BOOL := "bool"
  const ETH_INT64 := "int64"
  const ETH_STRING := "string"

  /** getEthTypeForJSON */
  function EthType(json: Json): string {
    match json
    case Boolean(_) => ETH_BOOL
    case Number(_) => ETH_INT64
    case Text(_) => ETH_STRING
    case _ => ""
  }

  /** What the loop does with a field: give it a type at once, walk into an object, or leave it out. */
  datatype Kind = Leave | Plain(typ: string) | Walk(obj: Json, isCollection: bool)

  function KindOf(field: Json): (k: Kind)
    ensures k.Walk? ==> k.obj.Obj? && (k.obj == field || (field.Arr? && |field.elems| > 0 && k.obj == field.elems[0]))
  {
    if field.Arr? && field.elems == [] then Plain("string[]")
    else
      var isCollection := field.Arr?;
      var value := if isCollection then field.elems[0] else field;
      if EthType(value) != "" then Plain(EthType(value) + Brackets(isCollection))
      else if value.Obj? then Walk(value, isCollection)
      else Leave
  }

  function Brackets(isCollection: bool): string { if isCollection then "[]" else "" }

  datatype Walked = Walked(types: Types, def: Option<seq<TypeField>>)

  /** recursivelyAddTypesToRoot: the types afterwards, and the key of the object's definition unless it failed. */
  ghost function Generate(types: Types, rootType: string, prefix: string, payload: Json): Generated
    decreases payload, 1, 0
  {
    if !payload.Obj? then Generated(types, None)
    else
      var w := WalkFields(types, rootType, prefix, payload, Sorted(payload.fields.Keys), []);
      if w.def == None then Generated(w.types, None)
      else AddFrom(w.types, TypeDefFor(prefix, rootType), w.def.value, 0)
  }

  ghost function WalkFields(types: Types, rootType: string, prefix: string, payload: Json, names: seq<string>,
                            acc: seq<TypeField>): Walked
    requires payload.Obj? && forall n :: n in names ==> n in payload.fields
    decreases payload, 0, |names|
  {
    if names == [] then Walked(types, Some(acc))
    else
      var name, rest := names[0], names[1..];
      match KindOf(payload.fields[name])
      case Leave => WalkFields(types, rootType, prefix, payload, rest, acc)
      case Plain(typ) => WalkFields(types, rootType, prefix, payload, rest, acc + [TypeField(name, typ)])
      case Walk(obj, isCollection) =>
        var g := Generate(types, rootType, SubField(prefix, name), obj);
        if g.key == None then Walked(g.types, None)
        else WalkFields(g.types, rootType, prefix, payload, rest, acc + [TypeField(name, Sanitize(g.key.value) + Brackets(isCollection))])
  }
}
