/** Text as eth/eip712/types.go handles it: ordering, splitting, and turning paths into type names. */
module Names {
  import opened Decimals
  import opened Sequences

  // ----- order -----

  function Codes(s: string): seq<int> { seq(|s|, i requires 0 <= i < |s| => s[i] as int) }

  /** strings.Compare(a, b) < 0 */
  predicate Before(a: string, b: string) { Less(Codes(a), Codes(b)) }

  lemma CodesInjective(a: string, b: string)
    ensures Codes(a) == Codes(b) <==> a == b
  {
    if Codes(a) == Codes(b) {
      assert |a| == |Codes(a)| == |b|;
      forall i | 0 <= i < |a| ensures a[i] == b[i] {
        assert Codes(a)[i] == Codes(b)[i];
      }
    }
  }

  lemma BeforeTotal(a: string, b: string)
    ensures Before(a, b) || a == b || Before(b, a)
    ensures !(Before(a, b) && Before(b, a))
    ensures !Before(a, a)
  {
    hide Codes, Less;
    CodesInjective(a, b);
    LessTotal(Codes(a), Codes(b));
  }

  lemma BeforeTransitive(a: string, b: string, c: string)
    requires Before(a, b) && Before(b, c)
    ensures Before(a, c)
  {
    hide Codes, Less;
    LessTransitive(Codes(a), Codes(b), Codes(c));
  }

  /** The first `k` characters are the same, and then `a` ends or has the smaller one. */
  predicate DiffersAt(a: string, b: string, k: nat) {
    k <= |a| && k < |b| && a[..k] == b[..k] && (k == |a| || a[k] < b[k])
  }

  lemma {:induction false} LessAtDifference(a: string, b: string) returns (k: nat)
    requires Less(Codes(a), Codes(b))
    ensures DiffersAt(a, b, k)
  {
    if a == "" || a[0] < b[0] {
      k := 0;
    } else {
      assert Codes(a)[1..] == Codes(a[1..]) && Codes(b)[1..] == Codes(b[1..]);
      k := LessAtDifference(a[1..], b[1..]);
      k := k + 1;
      assert a[..k] == [a[0]] + a[1..][..k - 1] && b[..k] == [b[0]] + b[1..][..k - 1];
    }
  }

  lemma {:induction false} DifferenceIsLess(a: string, b: string, k: nat)
    requires DiffersAt(a, b, k)
    ensures Less(Codes(a), Codes(b))
  {
    if k > 0 {
      assert a[0] == a[..k][0] == b[..k][0] == b[0];
      assert Codes(a)[1..] == Codes(a[1..]) && Codes(b)[1..] == Codes(b[1..]);
      assert a[1..][..k - 1] == a[..k][1..] && b[1..][..k - 1] == b[..k][1..];
      DifferenceIsLess(a[1..], b[1..], k - 1);
    }
  }

  /** One text comes before another exactly if it is a proper beginning of it or smaller where they first differ. */
  lemma BeforeIff(a: string, b: string)
    ensures Before(a, b) <==> exists k: nat :: DiffersAt(a, b, k)
  {
    hide DiffersAt, Less, Codes;
    if Before(a, b) {
      var k := LessAtDifference(a, b);
    }
    if k: nat :| DiffersAt(a, b, k) {
      DifferenceIsLess(a, b, k);
    }
  }

  /** Strictly descending, as sort.Slice leaves distinct keys here. */
  predicate Descending(names: seq<string>) {
    forall i, j :: 0 <= i < j < |names| ==> Before(names[j], names[i])
  }

  ghost predicate Lists(names: seq<string>, keys: set<string>) {
    forall n :: n in names <==> n in keys
  }

  /** There is only one strictly descending list of a set of keys, whatever order they were enumerated in. */
  lemma {:induction false} DescendingUnique(a: seq<string>, b: seq<string>, keys: set<string>)
    requires Descending(a) && Descending(b) && Lists(a, keys) && Lists(b, keys)
    ensures a == b
  {
    hide Before;
    ListsNothing(a, keys);
    ListsNothing(b, keys);
    if a != [] {
      assert a[0] in b;
      assert b[0] in a;
      BeforeTotal(a[0], b[0]);
      assert a[0] == b[0];
      var rest := keys - {a[0]};
      ListsRest(a, keys);
      ListsRest(b, keys);
      DescendingUnique(a[1..], b[1..], rest);
    }
  }

  lemma ListsNothing(names: seq<string>, keys: set<string>)
    requires Lists(names, keys)
    ensures names == [] <==> keys == {}
  {
    if names != [] {
      assert names[0] in names;
    }
  }

  lemma ListsRest(names: seq<string>, keys: set<string>)
    requires names != [] && Descending(names) && Lists(names, keys)
    ensures Descending(names[1..]) && Lists(names[1..], keys - {names[0]})
  {
    hide Before;
    forall n ensures n in names[1..] <==> n in keys - {names[0]} {
      BeforeTotal(names[0], names[0]);
      assert n in names <==> n == names[0] || n in names[1..];
    }
  }

  // ----- splitting -----

  /** strings.Split for a separator of one character */
  function Split(s: string, sep: char): (parts: seq<string>)
    ensures |parts| >= 1
  {
    if s == [] then [[]]
    else
      var rest := Split(s[1..], sep);
      if s[0] == sep then [[]] + rest else [[s[0]] + rest[0]] + rest[1..]
  }

  lemma {:induction false} SplitNothing(s: string, sep: char)
    requires sep !in s
    ensures Split(s, sep) == [s]
  {
    if s != [] {
      SplitNothing(s[1..], sep);
      assert [s[0]] + s[1..] == s;
    }
  }

  predicate PartOf(part: string, s: string, sep: char) {
    forall c :: c in part ==> c in s && c != sep
  }

  predicate AllFrom(parts: seq<string>, s: string, sep: char) {
    forall i :: 0 <= i < |parts| ==> PartOf(parts[i], s, sep)
  }

  lemma {:induction false} SplitParts(s: string, sep: char)
    ensures AllFrom(Split(s, sep), s, sep)
  {
    if s != [] {
      SplitParts(s[1..], sep);
      var rest := Split(s[1..], sep);
      forall i | 0 <= i < |rest| ensures PartOf(rest[i], s, sep) {
        assert PartOf(rest[i], s[1..], sep);
      }
      assert s[0] != sep ==> PartOf([s[0]] + rest[0], s, sep);
    }
  }

  // ----- type names -----

  function Upper(c: char): char { if 'a' <= c <= 'z' then (c - 'a') + 'A' else c }

  /** The title caser, taken as upper-casing the first character. */
  function Title(s: string): string { if s == [] then s else [Upper(s[0])] + s[1..] }

  function TitleAll(parts: seq<string>): string {
    if parts == [] then [] else Title(parts[0]) + TitleAll(parts[1..])
  }

  function SanitizePart(part: string): string {
    if part == "_" then "Type" else TitleAll(Split(part, '_'))
  }

  function SanitizeParts(parts: seq<string>): string {
    if parts == [] then [] else SanitizePart(parts[0]) + SanitizeParts(parts[1..])
  }

  /** sanitizeTypedef */
  function Sanitize(s: string): string { SanitizeParts(Split(s, '.')) }

  /** Splitting cuts at every separator. */
  lemma {:induction false} SplitBoth(a: string, sep: char, b: string)
    ensures Split(a + [sep] + b, sep) == Split(a, sep) + Split(b, sep)
  {
    var s := a + [sep] + b;
    if a == [] {
      assert s[1..] == b;
    } else {
      assert s[1..] == a[1..] + [sep] + b;
      SplitBoth(a[1..], sep, b);
    }
  }

  lemma {:induction false} SanitizePartsOfBoth(a: seq<string>, b: seq<string>)
    ensures SanitizeParts(a + b) == SanitizeParts(a) + SanitizeParts(b)
  {
    hide SanitizePart;
    if a == [] {
      assert a + b == b;
    } else {
      assert (a + b)[1..] == a[1..] + b;
      SanitizePartsOfBoth(a[1..], b);
    }
  }

  lemma {:induction false} TitleAllOfBoth(a: seq<string>, b: seq<string>)
    ensures TitleAll(a + b) == TitleAll(a) + TitleAll(b)
  {
    hide Title;
    if a == [] {
      assert a + b == b;
    } else {
      assert (a + b)[1..] == a[1..] + b;
      TitleAllOfBoth(a[1..], b);
    }
  }

  /**
   The type name of a path grows with each field; the words of a field name are capitalized and joined.
   A field name that is a lone underscore counts as the root again.
   */
  lemma SanitizeGrows(prefix: string, name: string, word: string)
    requires '.' !in name && '.' !in word && '_' !in word
    ensures Sanitize("_") == "Type"
    ensures Sanitize(SubField(prefix, "_")) == Sanitize(prefix) + "Type"
    ensures Sanitize(SubField(prefix, word)) == Sanitize(prefix) + Title(word)
    ensures name + word != "" ==> (
              Sanitize(SubField(prefix, name + "_" + word))
           == Sanitize(if name == "_" then prefix else SubField(prefix, name)) + Title(word))
  {
    hide Sanitize, SanitizePart, TitleAll, Title;
    RootName();
    OneWord(word);
    AddField(prefix, "_");
    AddField(prefix, word);
    AddField(prefix, name);
    AddField(prefix, name + "_" + word);
    if name + word != "" {
      AddWord(name, word);
    }
  }

  lemma RootName()
    ensures Sanitize("_") == "Type" && SanitizePart("_") == "Type"
  {
    SplitNothing("_", '.');
    assert ["_"][1..] == [];
  }

  lemma OneWord(word: string)
    requires '_' !in word
    ensures SanitizePart(word) == Title(word)
  {
    SplitNothing(word, '_');
    assert TitleAll([word]) == Title(word) + TitleAll([]) by { assert [word][1..] == []; }
  }

  lemma AddWord(name: string, word: string)
    requires '_' !in word && name + word != ""
    ensures SanitizePart(name + "_" + word) == (if name == "_" then "" else SanitizePart(name)) + Title(word)
  {
    hide Title;
    SplitBoth(name, '_', word);
    TitleAllOfBoth(Split(name, '_'), Split(word, '_'));
    OneWord(word);
    NoWords();
    assert |name + "_" + word| >= 2;
  }

  /** Underscores alone make no words. */
  lemma NoWords()
    ensures TitleAll(Split("_", '_')) == ""
  {
    assert Split("", '_') == [""];
    assert "_"[1..] == "";
    assert Split("_", '_') == ["", ""];
    assert ["", ""][1..] == [""] && [""][1..] == [];
  }

  lemma AddField(prefix: string, name: string)
    requires '.' !in name
    ensures Sanitize(SubField(prefix, name)) == Sanitize(prefix) + SanitizePart(name)
  {
    hide SanitizePart;
    SplitBoth(prefix, '.', name);
    SplitNothing(name, '.');
    SanitizePartsOfBoth(Split(prefix, '.'), [name]);
    assert SanitizeParts([name]) == SanitizePart(name) + SanitizeParts([]) by { assert [name][1..] == []; }
  }

  /** The last part is what follows the last separator. */
  lemma SplitLast(a: string, sep: char, b: string)
    requires sep !in b
    ensures var parts := Split(a + [sep] + b, sep); parts[|parts| - 1] == b
  {
    SplitBoth(a, sep, b);
    SplitNothing(b, sep);
  }

  /** Neither a dot nor an underscore. */
  predicate Clean(s: string) { '.' !in s && '_' !in s }

  lemma CleanTogether(a: string, b: string)
    ensures Clean(a + b) <==> Clean(a) && Clean(b)
  {
    assert forall c :: c in a + b <==> c in a || c in b;
  }

  lemma {:induction false} TitleAllClean(parts: seq<string>)
    requires forall i :: 0 <= i < |parts| ==> Clean(parts[i])
    ensures Clean(TitleAll(parts))
  {
    if parts != [] {
      TitleAllClean(parts[1..]);
      var p := parts[0];
      assert Clean(Title(p)) by {
        if p != [] { assert forall c :: c in p[1..] ==> c in p; }
      }
      CleanTogether(Title(p), TitleAll(parts[1..]));
    }
  }

  lemma {:induction false} SanitizePartsClean(parts: seq<string>)
    requires forall i :: 0 <= i < |parts| ==> '.' !in parts[i]
    ensures Clean(SanitizeParts(parts))
  {
    if parts != [] {
      SanitizePartsClean(parts[1..]);
      SplitParts(parts[0], '_');
      forall i | 0 <= i < |Split(parts[0], '_')| ensures Clean(Split(parts[0], '_')[i]) {
        assert PartOf(Split(parts[0], '_')[i], parts[0], '_');
      }
      TitleAllClean(Split(parts[0], '_'));
      CleanTogether(SanitizePart(parts[0]), SanitizeParts(parts[1..]));
    }
  }

  /** A sanitized name has no dots and no underscores. */
  lemma SanitizeIsClean(s: string)
    ensures Clean(Sanitize(s))
  {
    SplitParts(s, '.');
    forall i | 0 <= i < |Split(s, '.')| ensures '.' !in Split(s, '.')[i] {
      assert PartOf(Split(s, '.')[i], s, '.');
    }
    SanitizePartsClean(Split(s, '.'));
  }

  predicate StartsWithType(s: string) { "Type" <= s }

  /** Sanitizing leaves a name that is already one alone. */
  lemma SanitizeFixed(s: string)
    requires Clean(s) && StartsWithType(s)
    ensures Sanitize(s) == s
  {
    SplitNothing(s, '.');
    SplitNothing(s, '_');
    assert s[0] == 'T' && [s[0]] + s[1..] == s;
    assert TitleAll([s]) == Title(s) + TitleAll([]) by { assert [s][1..] == []; }
    assert SanitizeParts([s]) == SanitizePart(s) + SanitizeParts([]) by { assert [s][1..] == []; }
  }

  /** The path of a field below the root: `_.` and more. */
  predicate BelowRoot(prefix: string) { "_." <= prefix }

  lemma SanitizeBelowRoot(prefix: string)
    requires BelowRoot(prefix)
    ensures StartsWithType(Sanitize(prefix))
  {
    assert prefix[1..][0] == '.';
    assert Split(prefix, '.')[0] == "_";
  }

  /** prefixForSubField */
  function SubField(prefix: string, name: string): string { prefix + "." + name }

  lemma SubFieldBelowRoot(prefix: string, name: string)
    requires prefix == "_" || BelowRoot(prefix)
    ensures BelowRoot(SubField(prefix, name))
  {
  }

  /** typeDefForPrefix */
  function TypeDefFor(prefix: string, rootType: string): string {
    if prefix == "_" then rootType else Sanitize(prefix)
  }

  /** typeDefWithIndex */
  function Indexed(typeDef: string, index: nat): (key: string)
    ensures |key| > 0
  {
    typeDef + Format(index)
  }

  predicate EndsWithDigit(s: string) { |s| > 0 && IsDigit(s[|s| - 1]) }

  lemma IndexedEndsWithDigit(typeDef: string, index: nat)
    ensures EndsWithDigit(Indexed(typeDef, index))
  {
    ValueOfFormat(index);
    assert Format(index)[|Format(index)| - 1] in Format(index);
  }

  /** The name given to a nested object survives the second sanitizing. */
  lemma NestedNameFixed(prefix: string, rootType: string, index: nat)
    requires BelowRoot(prefix)
    ensures Sanitize(Indexed(TypeDefFor(prefix, rootType), index)) == Indexed(TypeDefFor(prefix, rootType), index)
  {
    hide Sanitize, Format;
    SanitizeIsClean(prefix);
    SanitizeBelowRoot(prefix);
    ValueOfFormat(index);
    CleanTogether(Sanitize(prefix), Format(index));
    SanitizeFixed(Indexed(Sanitize(prefix), index));
  }

  // ----- type names, character by character -----

  /**
   What is left of the first character of `s`, the one before it being `prev`: nothing of a dot or an
   underscore, a capital of a letter behind one of them, and `Type` of an underscore alone between dots.
   */
  function Kept(s: string, prev: char): string
    requires s != ""
  {
    if s[0] == '.' then ""
    else if s[0] == '_' then (if prev == '.' && (|s| == 1 || s[1] == '.') then "Type" else "")
    else if (prev == '.' || prev == '_') && 'a' <= s[0] <= 'z' then [(s[0] as int - 32) as char]
    else [s[0]]
  }

  /** A path read once from left to right. */
  function Capitalized(s: string, prev: char): string {
    if s == "" then "" else Kept(s, prev) + Capitalized(s[1..], s[0])
  }

  lemma KeptOfPart(a: string, prev: char, b: string)
    ensures Kept("." + b, prev) == ""
    ensures a != "" ==> Kept(a + "." + b, prev) == Kept(a, prev)
  {
    if a != "" {
      var s := a + "." + b;
      assert s[0] == a[0] && |s| > 1 && s[1] == if |a| == 1 then '.' else a[1];
    }
  }

  lemma Joined<T>(a: seq<T>, b: seq<T>, c: seq<T>)
    ensures a + (b + c) == a + b + c
  {
  }

  lemma {:induction false} CapitalizedParts(a: string, prev: char, b: string)
    ensures Capitalized(a + "." + b, prev) == Capitalized(a, prev) + Capitalized(b, '.')
  {
    hide Kept;
    var s := a + "." + b;
    KeptOfPart(a, prev, b);
    if a == "" {
      assert s == "." + b && s[1..] == b;
    } else {
      assert s[1..] == a[1..] + "." + b && s[0] == a[0];
      CapitalizedParts(a[1..], a[0], b);
      Joined(Kept(a, prev), Capitalized(a[1..], a[0]), Capitalized(b, '.'));
    }
  }

  /** The words, titled; the first one only if it follows a dot or an underscore. */
  function Words(words: seq<string>, prev: char): string
    requires words != []
  {
    if prev == '.' || prev == '_' then TitleAll(words) else words[0] + TitleAll(words[1..])
  }

  lemma KeptInPart(part: string, prev: char)
    requires part != "" && '.' !in part && !(prev == '.' && part == "_")
    ensures Kept(part, prev)
         == if part[0] == '_' then "" else [if prev == '.' || prev == '_' then Upper(part[0]) else part[0]]
  {
    assert part[0] in part;
    assert |part| > 1 ==> part[1] in part;
  }

  lemma WordsStep(words: seq<string>, c: char, prev: char)
    requires words != []
    ensures Words([""] + words, prev) == TitleAll(words)
    ensures Words([[c] + words[0]] + words[1..], prev)
         == [if prev == '.' || prev == '_' then Upper(c) else c] + (words[0] + TitleAll(words[1..]))
  {
    hide Upper;
    var more, longer := [""] + words, [[c] + words[0]] + words[1..];
    assert more[1..] == words && longer[1..] == words[1..];
    assert Title(more[0]) == "";
    assert Title(longer[0]) == [Upper(c)] + words[0] by { assert longer[0][1..] == words[0]; }
    Joined([Upper(c)], words[0], TitleAll(words[1..]));
    Joined([c], words[0], TitleAll(words[1..]));
  }

  /** Within a part: the words are titled, the first one only if it begins the part. */
  lemma {:induction false} CapitalizedWords(part: string, prev: char)
    requires '.' !in part && !(prev == '.' && part == "_")
    ensures Capitalized(part, prev) == Words(Split(part, '_'), prev)
  {
    hide Kept, Upper, Title;
    if part == "" {
      NoPart(prev);
    } else {
      var rest, c := part[1..], part[0];
      assert c in part && forall x :: x in rest ==> x in part;
      CapitalizedWords(rest, c);
      KeptInPart(part, prev);
      WordsStep(Split(rest, '_'), c, prev);
    }
  }

  lemma NoPart(prev: char)
    ensures Words(Split("", '_'), prev) == ""
  {
    assert [""][1..] == [];
    assert TitleAll([""]) == Title("") + TitleAll([""][1..]);
  }

  lemma CapitalizedPart(part: string)
    requires '.' !in part
    ensures Capitalized(part, '.') == SanitizePart(part)
  {
    hide Split, TitleAll;
    if part == "_" {
      LoneUnderscore();
    } else {
      CapitalizedWords(part, '.');
    }
  }

  lemma LoneUnderscore()
    ensures Capitalized("_", '.') == "Type"
  {
    assert "_"[1..] == "";
  }

  lemma {:induction false} FirstDot(s: string) returns (k: nat)
    requires '.' in s
    ensures k < |s| && s[k] == '.' && '.' !in s[..k]
  {
    if s[0] == '.' {
      k := 0;
    } else {
      k := FirstDot(s[1..]);
      k := k + 1;
      assert s[..k] == [s[0]] + s[1..][..k - 1];
    }
  }

  /** Splitting, titling and joining is the one pass over the characters, for every text. */
  lemma {:induction false} SanitizeIsCapitalized(s: string)
    ensures Sanitize(s) == Capitalized(s, '.')
    decreases |s|
  {
    hide Capitalized, SanitizePart;
    if '.' in s {
      var k := FirstDot(s);
      var a, b := s[..k], s[k + 1..];
      assert s == a + "." + b;
      SplitBoth(a, '.', b);
      SplitNothing(a, '.');
      SanitizePartsOfBoth([a], Split(b, '.'));
      OnePart(a);
      CapitalizedPart(a);
      CapitalizedParts(a, '.', b);
      SanitizeIsCapitalized(b);
    } else {
      SplitNothing(s, '.');
      OnePart(s);
      CapitalizedPart(s);
    }
  }

  lemma OnePart(part: string)
    ensures SanitizeParts([part]) == SanitizePart(part)
  {
    assert [part][1..] == [];
  }

  // ----- the type name of an object -----

  /** Where an object stands: in a message whose type is called `root`, below the named fields. */
  datatype Place = Place(root: string, names: seq<string>)

  function Below(at: Place, name: string): Place { at.(names := at.names + [name]) }

  /** The prefix the walk has reached. */
  function PathOf(names: seq<string>): string {
    if names == [] then "_" else SubField(PathOf(names[..|names| - 1]), names[|names| - 1])
  }

  /** The names of the fields, with dots between them. */
  function Dotted(names: seq<string>): string {
    if names == [] then "" else if |names| == 1 then names[0]
    else Dotted(names[..|names| - 1]) + "." + names[|names| - 1]
  }

  /** A message has the name of its type; an object inside it `Type` and the capitalized words of its path. */
  function TypeName(at: Place): string {
    if at.names == [] then at.root else "Type" + Capitalized(Dotted(at.names), '.')
  }

  /** `t` is that name with a number below 1000 behind it. */
  ghost predicate IsNamed(t: string, at: Place) {
    exists index: nat :: index < 1000 && t == TypeName(at) + Format(index)
  }

  lemma {:induction false} PathIsDotted(names: seq<string>)
    requires names != []
    ensures PathOf(names) == "_" + "." + Dotted(names)
  {
    var before, last := names[..|names| - 1], names[|names| - 1];
    if before == [] {
      assert PathOf(before) == "_" && Dotted(names) == last;
    } else {
      PathIsDotted(before);
      Joined("_" + "." + Dotted(before), ".", last);
      Joined("_" + ".", Dotted(before), "." + last);
      Joined(Dotted(before), ".", last);
    }
  }

  lemma PathBelow(names: seq<string>, name: string)
    ensures PathOf(names + [name]) == SubField(PathOf(names), name)
  {
    assert (names + [name])[..|names|] == names;
  }

  /** What the walk calls an object is its type name. */
  lemma TypeDefIsTypeName(at: Place)
    ensures TypeDefFor(PathOf(at.names), at.root) == TypeName(at)
  {
    hide Sanitize, Dotted, Capitalized;
    if at.names != [] {
      PathIsDotted(at.names);
      SanitizeIsCapitalized(PathOf(at.names));
      CapitalizedParts("_", '.', Dotted(at.names));
      LoneUnderscore();
    }
  }

  lemma PathBelowRoot(names: seq<string>)
    requires names != []
    ensures BelowRoot(PathOf(names))
  {
    PathIsDotted(names);
  }

  lemma NamedEndsWithDigit(t: string, at: Place)
    requires IsNamed(t, at)
    ensures EndsWithDigit(t)
  {
    var index: nat :| index < 1000 && t == TypeName(at) + Format(index);
    IndexedEndsWithDigit(TypeName(at), index);
  }
}
