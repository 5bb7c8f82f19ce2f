/**
 Reading and writing dumped dictionaries: `dict.get`, `or`, `str`, and a
 dictionary as the JSON object that is encoded with its keys in order.
 */
module Dumps {
  import opened Basics
  import opened Ordering
  import opened Json

  // ----- reading

  function Find(fields: seq<Field>, name: string): Option<Value> {
    if fields == [] then None
    else if fields[0].name == name then Some(fields[0].value)
    else Find(fields[1..], name)
  }

  /** The entry under `name`, if the value is a dictionary that has one. */
  function Lookup(v: Value, name: string): Option<Value> { if v.Object? then Find(v.fields, name) else None }

  /** `v.get(name)`, and null when `v` is not a dictionary. */
  function Get(v: Value, name: string): Value {
    var entry := Lookup(v, name);
    if entry.Some? then entry.value else Null
  }

  /** `a or b` */
  function Or(a: Value, b: Value): Value { if Truthy(a) then a else b }

  function ItemsOf(v: Value): seq<Value> { if v.Array? then v.items else [] }

  /** The items that are dictionaries. */
  function Dicts(items: seq<Value>): seq<Value> {
    if items == [] then [] else (if items[0].Object? then [items[0]] else []) + Dicts(items[1..])
  }

  /** `str(value)` of a scalar; a list or dictionary is written as JSON. */
  function TextOf(v: Value): string {
    match v
    case Null => "None"
    case Bool(b) => if b then "True" else "False"
    case Number(text) => text
    case Str(s) => s
    case _ => Encode(v)
  }

  /** `str(value or "")` */
  function Text(v: Value): string { if Truthy(v) then TextOf(v) else "" }

  /** An entry under its camel or its snake name. */
  function Either(v: Value, camel: string, snake: string): Value { Or(Get(v, camel), Get(v, snake)) }

  /** The value of the first alias that is there. */
  function FirstAlias(v: Value, aliases: seq<string>): Option<Value> {
    if aliases == [] then None
    else if Lookup(v, aliases[0]).Some? then Lookup(v, aliases[0])
    else FirstAlias(v, aliases[1..])
  }

  // ----- nesting

  function Depth(v: Value): nat
    decreases v, 0
  {
    match v
    case Array(items) => 1 + DepthOfItems(items)
    case Object(fields) => 1 + DepthOfFields(fields)
    case _ => 0
  }

  function DepthOfItems(items: seq<Value>): (d: nat)
    ensures forall v :: v in items ==> Depth(v) <= d
    decreases items, |items|
  {
    if items == [] then 0
    else
      var first, rest := Depth(items[0]), DepthOfItems(items[1..]);
      if first > rest then first else rest
  }

  function DepthOfFields(fields: seq<Field>): nat
    decreases fields, |fields|
  {
    if fields == [] then 0
    else
      assert fields[0] in fields;
      var first, rest := Depth(fields[0].value), DepthOfFields(fields[1..]);
      if first > rest then first else rest
  }

  lemma {:induction false} EntriesAreNoDeeper(fields: seq<Field>, name: string)
    ensures Find(fields, name).Some? ==> Depth(Find(fields, name).value) <= DepthOfFields(fields)
  {
    if fields != [] && fields[0].name != name { EntriesAreNoDeeper(fields[1..], name); }
  }

  lemma {:induction false} DictsAreNoDeeper(items: seq<Value>)
    ensures DepthOfItems(Dicts(items)) <= DepthOfItems(items)
  {
    if items != [] {
      DictsAreNoDeeper(items[1..]);
      var rest := Dicts(items[1..]);
      if items[0].Object? {
        assert Dicts(items) == [items[0]] + rest && ([items[0]] + rest)[1..] == rest;
      } else {
        assert Dicts(items) == rest;
      }
    }
  }

  // ----- a dictionary as a JSON object

  ghost predicate IsLeast(keys: set<string>, k: string) {
    k in keys && forall x :: x in keys ==> StringLe(k, x)
  }

  lemma {:induction false} LeastExists(keys: set<string>)
    requires keys != {}
    ensures exists k :: IsLeast(keys, k)
  {
    var k :| k in keys;
    var rest := keys - {k};
    if rest == {} {
      assert keys == {k};
      StringLeTotal(k, k);
      assert IsLeast(keys, k);
    } else {
      LeastExists(rest);
      var l :| IsLeast(rest, l);
      StringLeTotal(k, l);
      StringLeTotal(k, k);
      if StringLe(k, l) {
        forall x | x in keys ensures StringLe(k, x) { if x != k { StringLeTransitive(k, l, x); } }
        assert IsLeast(keys, k);
      } else {
        assert IsLeast(keys, l);
      }
    }
  }

  lemma LeastIsUnique(keys: set<string>)
    ensures forall k, l :: IsLeast(keys, k) && IsLeast(keys, l) ==> k == l
  {
    forall k, l | IsLeast(keys, k) && IsLeast(keys, l) ensures k == l { StringLeAntisymmetric(k, l); }
  }

  ghost function Least(keys: set<string>): (k: string)
    requires keys != {}
    ensures IsLeast(keys, k)
  {
    LeastExists(keys);
    LeastIsUnique(keys);
    var k :| IsLeast(keys, k);
    k
  }

  /** The fields of a dictionary in key order, as `sort_keys=True` writes them. */
  ghost function FieldsOf(m: map<string, Value>): (fields: seq<Field>)
    decreases |m.Keys|
  {
    if m == map[] then []
    else
      var k := Least(m.Keys);
      FewerKeys(m, k);
      [Field(k, m[k])] + FieldsOf(m - {k})
  }

  lemma FewerKeys(m: map<string, Value>, k: string)
    requires k in m
    ensures |(m - {k}).Keys| < |m.Keys|
  {
    assert (m - {k}).Keys == m.Keys - {k};
  }

  ghost function Dict(m: map<string, Value>): Value { Object(FieldsOf(m)) }

  lemma {:induction false} DictHolds(m: map<string, Value>, name: string)
    ensures Lookup(Dict(m), name) == if name in m then Some(m[name]) else None
    decreases |m.Keys|
  {
    if m != map[] {
      var k := Least(m.Keys);
      FewerKeys(m, k);
      DictHolds(m - {k}, name);
      assert FieldsOf(m)[0] == Field(k, m[k]) && FieldsOf(m)[1..] == FieldsOf(m - {k});
    }
  }

  /** Two dictionaries are written alike only if they are the same. */
  lemma DictIsInjective(m: map<string, Value>, n: map<string, Value>)
    ensures Dict(m) == Dict(n) <==> m == n
  {
    if Dict(m) == Dict(n) {
      forall name ensures (name in m <==> name in n) && (name in m ==> m[name] == n[name]) {
        DictHolds(m, name);
        DictHolds(n, name);
      }
    }
  }

  // ----- projections

  /** The dictionary with an entry for each field. */
  ghost function Projection(fields: seq<string>, entry: string -> Value): Value {
    Dict(map name | name in fields :: entry(name))
  }

  lemma ProjectionIsExact(fields: seq<string>, f: string -> Value, g: string -> Value)
    ensures Projection(fields, f) == Projection(fields, g) <==> (forall name :: name in fields ==> f(name) == g(name))
  {
    var m, n := map name | name in fields :: f(name), map name | name in fields :: g(name);
    DictIsInjective(m, n);
    if m == n {
      forall name | name in fields ensures f(name) == g(name) { assert m[name] == n[name]; }
    }
  }

  /** _project_fields */
  ghost function ProjectFields(v: Value, fields: seq<string>): Value { Projection(fields, name => Get(v, name)) }

  ghost predicate AgreeOn(v: Value, w: Value, fields: seq<string>) {
    forall name :: name in fields ==> Get(v, name) == Get(w, name)
  }

  lemma ProjectFieldsIsExact(v: Value, w: Value, fields: seq<string>)
    ensures ProjectFields(v, fields) == ProjectFields(w, fields) <==> AgreeOn(v, w, fields)
  {
    ProjectionIsExact(fields, name => Get(v, name), name => Get(w, name));
  }

  /** The dictionary with the entries that are there. */
  ghost function PartialProjection(names: set<string>, entry: string -> Option<Value>): Value {
    Dict(map name | name in names && entry(name).Some? :: entry(name).value)
  }

  lemma PartialProjectionIsExact(names: set<string>, f: string -> Option<Value>, g: string -> Option<Value>)
    ensures PartialProjection(names, f) == PartialProjection(names, g) <==> (forall name :: name in names ==> f(name) == g(name))
  {
    var m, n := map name | name in names && f(name).Some? :: f(name).value, map name | name in names && g(name).Some? :: g(name).value;
    DictIsInjective(m, n);
    if m == n {
      forall name | name in names ensures f(name) == g(name) {
        assert (name in m <==> name in n) && (name in m ==> m[name] == n[name]);
      }
    }
  }

  // ----- what reading finds

  /** What a dictionary holds under a name, and null when it holds nothing. */
  function Entry(m: map<string, Value>, name: string): Value { if name in m then m[name] else Null }

  lemma GetOfDict(m: map<string, Value>, name: string)
    ensures Get(Dict(m), name) == Entry(m, name)
  {
    DictHolds(m, name);
  }

  /** The dictionary gives this value under its camel name or, when that holds nothing true, under its snake name. */
  ghost predicate Gives(m: map<string, Value>, camel: string, snake: string, v: Value) {
    if camel in m && Truthy(m[camel]) then v == m[camel] else v == if snake in m then m[snake] else Null
  }

  lemma EitherName(m: map<string, Value>, camel: string, snake: string)
    ensures forall v :: Gives(m, camel, snake, v) <==> Either(Dict(m), camel, snake) == v
  {
    GetOfDict(m, camel);
    GetOfDict(m, snake);
  }

  /** Only dictionaries have entries. */
  lemma OnlyDictionariesHold(v: Value, name: string)
    ensures Lookup(v, name).Some? ==> v.Object? && exists value :: Field(name, value) in v.fields
    ensures v.Object? && Lookup(v, name).None? ==> forall value :: Field(name, value) !in v.fields
  {
    if v.Object? { FindsField(v.fields, name); }
  }

  lemma {:induction false} FindsField(fields: seq<Field>, name: string)
    ensures Find(fields, name).Some? ==> Field(name, Find(fields, name).value) in fields
    ensures Find(fields, name).None? ==> forall value :: Field(name, value) !in fields
  {
    if fields != [] && fields[0].name != name {
      FindsField(fields[1..], name);
      forall value | Field(name, value) in fields ensures Field(name, value) in fields[1..] {
        assert fields == [fields[0]] + fields[1..];
      }
    }
  }

  /** False are null, `False`, zero, and everything empty. */
  lemma FalseExactly(v: Value)
    ensures !Truthy(v) <==>
            || v in {Null, Bool(false), Str(""), Array([]), Object([])}
            || (v.Number? && exists k: nat :: IsZeroMantissa(v.text, k))
  {
    if v.Number? { ZeroExactly(v.text); }
  }

  /** Before the exponent, or the end, stand zeros only, a point, and a sign. */
  ghost predicate IsZeroMantissa(text: string, k: nat) {
    k <= |text| && (forall i :: 0 <= i < k ==> text[i] in "0.+-") && (k < |text| ==> text[k] in "eE")
  }

  lemma {:induction false} ZeroExactly(text: string)
    ensures IsZero(text) <==> exists k: nat :: IsZeroMantissa(text, k)
  {
    if text == [] || text[0] in "eE" {
      assert IsZeroMantissa(text, 0);
    } else {
      var rest := text[1..];
      ZeroExactly(text[1..]);
      if IsZero(text) {
        var k: nat :| IsZeroMantissa(text[1..], k);
        assert forall i :: 0 < i < k + 1 ==> text[i] == text[1..][i - 1];
        assert IsZeroMantissa(text, k + 1);
      }
      forall k: nat | IsZeroMantissa(text, k) ensures IsZero(text) {
        assert k > 0;
        assert forall i :: 0 <= i < k - 1 ==> text[1..][i] == text[i + 1];
        assert IsZeroMantissa(text[1..], k - 1);
      }
    }
  }

  lemma {:induction false} DictsConcat(a: seq<Value>, b: seq<Value>)
    ensures Dicts(a + b) == Dicts(a) + Dicts(b)
  {
    if a == [] {
      assert a + b == b;
    } else {
      var head := if a[0].Object? then [a[0]] else [];
      DictsConcat(a[1..], b);
      assert (a + b)[0] == a[0] && (a + b)[1..] == a[1..] + b;
      ConcatAssociates(head, Dicts(a[1..]), Dicts(b));
    }
  }

  /** A list is read as its items, and anything else as no items; of them the dictionaries are kept in order. */
  lemma ItemsAreRead(a: seq<Value>, v: Value, b: seq<Value>)
    ensures ItemsOf(Array(a)) == a && (!v.Array? ==> ItemsOf(v) == [])
    ensures Dicts([]) == []
    ensures Dicts(a + [v] + b) == Dicts(a) + (if v.Object? then [v] else []) + Dicts(b)
  {
    DictsConcat(a + [v], b);
    DictsConcat(a, [v]);
  }

  /** The first of the aliases that the dictionary has decides. */
  lemma {:induction false} FirstAliasWins(v: Value, aliases: seq<string>, k: nat)
    requires k < |aliases| && Lookup(v, aliases[k]).Some? && forall i :: 0 <= i < k ==> Lookup(v, aliases[i]).None?
    ensures FirstAlias(v, aliases) == Lookup(v, aliases[k])
    decreases k
  {
    if k > 0 { FirstAliasWins(v, aliases[1..], k - 1); }
  }

  lemma {:induction false} NoAliasNothing(v: Value, aliases: seq<string>)
    requires forall alias :: alias in aliases ==> Lookup(v, alias).None?
    ensures FirstAlias(v, aliases).None?
  {
    if aliases != [] { NoAliasNothing(v, aliases[1..]); }
  }

  /** A text is read as it is, what is false as the empty text, other scalars as Python prints them. */
  lemma TextForms(v: Value)
    ensures forall s :: Text(Str(s)) == s
    ensures v.Number? && Truthy(v) ==> Text(v) == v.text
    ensures !Truthy(v) ==> Text(v) == ""
    ensures Text(Bool(true)) == "True"
    ensures v != Array([]) && v != Object([]) && (v.Array? || v.Object?) ==> Text(v) == Encode(v)
  {
  }
}
