/**
 `json.dumps(value, ensure_ascii=False, sort_keys=True, separators=(",", ":"))`
 as a function, and the proof that no two values share an encoding. Every sort
 key and every fingerprint input of `query_graph_contract.py` is such a text.
 */
module Json {
  import opened Text
  import opened Ordering

  /** The characters of a rendered number: digits, sign, point, exponent, NaN, Infinity. */
  predicate IsNumberChar(c: char) { IsDigit(c) || IsSign(c) || c == '.' || IsLetter(c) }

  predicate IsNumberText(s: string) {
    && s != []
    && (IsDigit(s[0]) || s[0] == '-' || s[0] == 'N' || s[0] == 'I')
    && forall i :: 0 <= i < |s| ==> IsNumberChar(s[i])
  }

  /** A number is kept as its rendered literal: 1 and 1.0 encode differently. */
  type NumberText = s: string | IsNumberText(s) witness "0"

  /** A JSON-native value. The fields of an object are held in key order, the order in which they are written. */
  datatype Value =
    | Null
    | Bool(b: bool)
    | Number(text: NumberText)
    | Str(s: string)
    | Array(items: seq<Value>)
    | Object(fields: seq<Field>)

  datatype Field = Field(name: string, value: Value)

  /** Python's truth of a JSON-native value: numbers with a zero mantissa and everything empty are false. */
  predicate Truthy(v: Value) {
    match v
    case Null => false
    case Bool(b) => b
    case Number(text) => !IsZero(text)
    case Str(s) => s != []
    case Array(items) => items != []
    case Object(fields) => fields != []
  }

  predicate IsZero(text: string) {
    text == [] || text[0] == 'e' || text[0] == 'E'
    || ((text[0] == '0' || text[0] == '.' || IsSign(text[0])) && IsZero(text[1..]))
  }

  function HexDigit(n: nat): char
    requires n < 16
  {
    if n < 10 then ('0' as int + n) as char else ('a' as int + (n - 10)) as char
  }

  /** json.encoder.ESCAPE_DCT: quotes, backslashes and control characters are escaped, nothing else. */
  function EscapeChar(c: char): string {
    if c == '\"' then ['\\', '\"']
    else if c == '\\' then ['\\', '\\']
    else if c == '\n' then ['\\', 'n']
    else if c == '\r' then ['\\', 'r']
    else if c == '\t' then ['\\', 't']
    else if c as int == 8 then ['\\', 'b']
    else if c as int == 12 then ['\\', 'f']
    else if c as int < 32 then ['\\', 'u', '0', '0', HexDigit(c as int / 16), HexDigit(c as int % 16)]
    else [c]
  }

  // The encoders below write in front of `rest`, the text that follows.

  function Escape(s: string, rest: string): string {
    if s == [] then rest else EscapeChar(s[0]) + Escape(s[1..], rest)
  }

  function WriteString(s: string, rest: string): string { ['\"'] + Escape(s, ['\"'] + rest) }

  function Write(v: Value, rest: string): string
    decreases v, 0
  {
    match v
    case Null => "null" + rest
    case Bool(b) => (if b then "true" else "false") + rest
    case Number(text) => text + rest
    case Str(s) => WriteString(s, rest)
    case Array(items) => ['['] + WriteItems(items, true, [']'] + rest)
    case Object(fields) => ['{'] + WriteFields(fields, true, ['}'] + rest)
  }

  function WriteItems(items: seq<Value>, first: bool, rest: string): string
    decreases items, |items|
  {
    if items == [] then rest
    else Comma(first, Write(items[0], WriteItems(items[1..], false, rest)))
  }

  function WriteFields(fields: seq<Field>, first: bool, rest: string): string
    decreases fields, |fields|
  {
    if fields == [] then rest
    else Comma(first, WriteString(fields[0].name, [':'] + Write(fields[0].value, WriteFields(fields[1..], false, rest))))
  }

  function Comma(first: bool, rest: string): string { if first then rest else [','] + rest }

  function Encode(v: Value): string { Write(v, "") }

  // ----- the encoding is a prefix code

  lemma SameTail(head: string, x: string, y: string)
    requires head + x == head + y
    ensures x == y
  {
    assert x == (head + x)[|head|..] && y == (head + y)[|head|..];
  }

  lemma EscapeCharIsPrefixFree(c: char, d: char, x: string, y: string)
    requires EscapeChar(c) + x == EscapeChar(d) + y
    ensures c == d && x == y
  {
    var s, t := EscapeChar(c) + x, EscapeChar(d) + y;
    assert s[0] == EscapeChar(c)[0] && t[0] == EscapeChar(d)[0];
    if s[0] == '\\' {
      assert s[1] == EscapeChar(c)[1] && t[1] == EscapeChar(d)[1];
      if s[1] == 'u' {
        assert s[4] == EscapeChar(c)[4] && t[4] == EscapeChar(d)[4];
        assert s[5] == EscapeChar(c)[5] && t[5] == EscapeChar(d)[5];
      }
    }
    assert EscapeChar(c) == EscapeChar(d);
    SameTail(EscapeChar(c), x, y);
  }

  /** An escaped text never shows a bare quote before its closing one. */
  lemma EscapeHead(s: string, rest: string)
    requires s != []
    ensures Escape(s, rest) != [] && Escape(s, rest)[0] != '\"'
  {
    assert Escape(s, rest)[0] == EscapeChar(s[0])[0];
  }

  lemma {:induction false} EscapeIsPrefixFree(a: string, b: string, x: string, y: string)
    requires Escape(a, ['\"'] + x) == Escape(b, ['\"'] + y)
    ensures a == b && x == y
  {
    if a != [] { EscapeHead(a, ['\"'] + x); }
    if b != [] { EscapeHead(b, ['\"'] + y); }
    assert a == [] <==> b == [];
    if a == [] {
      SameTail(['\"'], x, y);
    } else {
      EscapeCharIsPrefixFree(a[0], b[0], Escape(a[1..], ['\"'] + x), Escape(b[1..], ['\"'] + y));
      EscapeIsPrefixFree(a[1..], b[1..], x, y);
      assert a == [a[0]] + a[1..] && b == [b[0]] + b[1..];
    }
  }

  lemma StringIsPrefixFree(a: string, b: string, x: string, y: string)
    requires WriteString(a, x) == WriteString(b, y)
    ensures a == b && x == y
  {
    SameTail(['\"'], Escape(a, ['\"'] + x), Escape(b, ['\"'] + y));
    EscapeIsPrefixFree(a, b, x, y);
  }

  /** What may follow a complete value inside a larger encoding. */
  predicate Delimited(x: string) { x == [] || x[0] == ',' || x[0] == ']' || x[0] == '}' }

  predicate Closed(x: string) { x != [] && (x[0] == ']' || x[0] == '}') }

  lemma NumberHead(a: string, x: string)
    requires forall i :: 0 <= i < |a| ==> IsNumberChar(a[i])
    ensures if a == [] then a + x == x else a + x != [] && !Delimited(a + x)
  {
    if a != [] { assert (a + x)[0] == a[0]; }
  }

  lemma {:induction false} NumberIsPrefixFree(a: string, b: string, x: string, y: string)
    requires forall i :: 0 <= i < |a| ==> IsNumberChar(a[i])
    requires forall i :: 0 <= i < |b| ==> IsNumberChar(b[i])
    requires Delimited(x) && Delimited(y) && a + x == b + y
    ensures a == b && x == y
  {
    NumberHead(a, x);
    NumberHead(b, y);
    assert a == [] <==> b == [];
    if a != [] {
      assert a + x == [a[0]] + (a[1..] + x) && b + y == [b[0]] + (b[1..] + y);
      assert (a + x)[0] == a[0] && (b + y)[0] == b[0];
      SameTail([a[0]], a[1..] + x, b[1..] + y);
      NumberIsPrefixFree(a[1..], b[1..], x, y);
      assert a == [a[0]] + a[1..] && b == [b[0]] + b[1..];
    }
  }

  /** The kind of a value, as its first written character tells it. */
  function Tag(c: char): char { if IsDigit(c) || c == '-' || c == 'N' || c == 'I' then '0' else c }

  lemma FirstChar(v: Value, rest: string)
    ensures Write(v, rest) != []
    ensures Tag(Write(v, rest)[0]) == match v
      case Null => 'n'
      case Bool(b) => if b then 't' else 'f'
      case Number(_) => '0'
      case Str(_) => '\"'
      case Array(_) => '['
      case Object(_) => '{'
  {}

  lemma {:induction false} WriteIsPrefixFree(v: Value, w: Value, x: string, y: string)
    requires Write(v, x) == Write(w, y)
    requires Delimited(x) && Delimited(y)
    ensures v == w && x == y
    decreases v, 0
  {
    FirstChar(v, x);
    FirstChar(w, y);
    match v
    case Null => SameTail("null", x, y);
    case Bool(b) => SameTail(if b then "true" else "false", x, y);
    case Number(text) => NumberIsPrefixFree(text, w.text, x, y);
    case Str(s) => StringIsPrefixFree(s, w.s, x, y);
    case Array(items) =>
      SameTail(['['], WriteItems(items, true, [']'] + x), WriteItems(w.items, true, [']'] + y));
      ItemsArePrefixFree(items, w.items, true, [']'] + x, [']'] + y);
      SameTail([']'], x, y);
    case Object(fields) =>
      SameTail(['{'], WriteFields(fields, true, ['}'] + x), WriteFields(w.fields, true, ['}'] + y));
      FieldsArePrefixFree(fields, w.fields, true, ['}'] + x, ['}'] + y);
      SameTail(['}'], x, y);
  }

  /** An item list does not begin with a closing bracket, and continues with a comma. */
  lemma ItemsHead(items: seq<Value>, first: bool, rest: string)
    ensures items != [] ==> !Closed(WriteItems(items, first, rest))
    ensures !first && Closed(rest) ==> Delimited(WriteItems(items, first, rest))
  {
    if items != [] { FirstChar(items[0], WriteItems(items[1..], false, rest)); }
  }

  lemma SameComma(first: bool, x: string, y: string)
    requires Comma(first, x) == Comma(first, y)
    ensures x == y
  {
    if !first { SameTail([','], x, y); }
  }

  lemma {:induction false} ItemsArePrefixFree(a: seq<Value>, b: seq<Value>, first: bool, x: string, y: string)
    requires WriteItems(a, first, x) == WriteItems(b, first, y)
    requires Closed(x) && Closed(y)
    ensures a == b && x == y
    decreases a, |a|
  {
    ItemsHead(a, first, x);
    ItemsHead(b, first, y);
    assert a == [] <==> b == [];
    if a != [] {
      var r, q := WriteItems(a[1..], false, x), WriteItems(b[1..], false, y);
      SameComma(first, Write(a[0], r), Write(b[0], q));
      ItemsHead(a[1..], false, x);
      ItemsHead(b[1..], false, y);
      WriteIsPrefixFree(a[0], b[0], r, q);
      ItemsArePrefixFree(a[1..], b[1..], false, x, y);
      assert a == [a[0]] + a[1..] && b == [b[0]] + b[1..];
    }
  }

  lemma FieldsHead(fields: seq<Field>, first: bool, rest: string)
    ensures fields != [] ==> !Closed(WriteFields(fields, first, rest))
    ensures !first && Closed(rest) ==> Delimited(WriteFields(fields, first, rest))
  {}

  lemma {:induction false} FieldsArePrefixFree(a: seq<Field>, b: seq<Field>, first: bool, x: string, y: string)
    requires WriteFields(a, first, x) == WriteFields(b, first, y)
    requires Closed(x) && Closed(y)
    ensures a == b && x == y
    decreases a, |a|
  {
    FieldsHead(a, first, x);
    FieldsHead(b, first, y);
    assert a == [] <==> b == [];
    if a != [] {
      var r, q := WriteFields(a[1..], false, x), WriteFields(b[1..], false, y);
      var v, w := [':'] + Write(a[0].value, r), [':'] + Write(b[0].value, q);
      SameComma(first, WriteString(a[0].name, v), WriteString(b[0].name, w));
      StringIsPrefixFree(a[0].name, b[0].name, v, w);
      SameTail([':'], Write(a[0].value, r), Write(b[0].value, q));
      FieldsHead(a[1..], false, x);
      FieldsHead(b[1..], false, y);
      WriteIsPrefixFree(a[0].value, b[0].value, r, q);
      FieldsArePrefixFree(a[1..], b[1..], false, x, y);
      assert a == [a[0]] + a[1..] && b == [b[0]] + b[1..];
    }
  }

  /** Equal encodings come from equal values, so a fingerprint input determines its payload. */
  lemma EncodeIsInjective()
    ensures Injective(Encode)
  {
    forall v, w | Encode(v) == Encode(w) ensures v == w {
      WriteIsPrefixFree(v, w, "", "");
    }
  }
}
