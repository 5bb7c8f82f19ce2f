/**
 The two key spellings: `to_camel` of `models.py`, which names every dumped
 field, and `snake_case_key` of `graph/state.py`, which undoes it when a list
 item is identified. ASCII identifiers only.
 */
module KeyNames {
  import opened Text

  // ----- to_camel

  /** `piece[:1].upper() + piece[1:]` */
  function Capitalize(piece: string): string {
    if piece == "" then "" else [UpperChar(piece[0])] + piece[1..]
  }

  function CapitalizeAll(pieces: seq<string>): string {
    if pieces == [] then "" else Capitalize(pieces[0]) + CapitalizeAll(pieces[1..])
  }

  function ToCamel(value: string): string {
    var pieces := Split(value, "_");
    pieces[0] + CapitalizeAll(pieces[1..])
  }

  /** The same by characters: drop each underscore and capitalize what follows it. */
  function Camel(s: string, capital: bool): string {
    if s == "" then ""
    else if s[0] == '_' then Camel(s[1..], true)
    else [if capital then UpperChar(s[0]) else s[0]] + Camel(s[1..], false)
  }

  lemma {:induction false} ToCamelByCharacters(s: string)
    ensures ToCamel(s) == Camel(s, false)
    ensures CapitalizeAll(Split(s, "_")) == Camel(s, true)
  {
    if s != "" {
      var rest := Split(s[1..], "_");
      ToCamelByCharacters(s[1..]);
      if s[0] == '_' {
        assert "_" <= s;
        assert ([""] + rest)[1..] == rest;
      } else {
        assert !("_" <= s);
        assert Split(s, "_") == Prepend(s[0], rest);
        assert Prepend(s[0], rest)[1..] == rest[1..];
        assert Capitalize([s[0]] + rest[0]) == [UpperChar(s[0])] + rest[0];
      }
    }
  }

  // ----- snake_case_key

  /** `started`: a character has been emitted already. */
  function Snake(s: string, started: bool): string {
    if s == "" then ""
    else (if IsUpper(s[0]) && started then "_" else "") + [LowerChar(s[0])] + Snake(s[1..], true)
  }

  method SnakeCaseKey(value: string) returns (key: string)
    ensures key == Snake(value, false)
  {
    var chars: seq<char> := [];
    for i := 0 to |value|
      invariant chars == [] <==> i == 0
      invariant chars + Snake(value[i..], i > 0) == Snake(value, false)
    {
      assert value[i..][1..] == value[i + 1..];
      ghost var before := chars;
      if IsUpper(value[i]) && chars != [] {
        chars := chars + ['_'];
      }
      chars := chars + [LowerChar(value[i])];
      assert before + Snake(value[i..], i > 0) == chars + Snake(value[i + 1..], true);
    }
    assert chars + Snake(value[|value|..], true) == chars;
    return chars;
  }

  // ----- the two are mutual inverses

  predicate IsSnakeChar(c: char) { IsLower(c) || IsDigit(c) || c == '_' }

  predicate IsCamelChar(c: char) { IsLetter(c) || IsDigit(c) }

  /** Every underscore is followed by a lower-case letter. */
  predicate SegmentsStartWithLetter(s: string) {
    forall i :: 0 <= i < |s| && s[i] == '_' ==> i + 1 < |s| && IsLower(s[i + 1])
  }

  /** No leading underscore, and every later segment starts with a letter. */
  predicate IsLowerSnake(s: string) { (s != "" ==> s[0] != '_') && SegmentsStartWithLetter(s) }

  lemma {:induction false} SnakeUndoesCamel(s: string, capital: bool, started: bool)
    requires forall i :: 0 <= i < |s| ==> IsSnakeChar(s[i])
    requires SegmentsStartWithLetter(s)
    requires if capital then started && s != "" && IsLower(s[0]) else started || s == "" || s[0] != '_'
    ensures Snake(Camel(s, capital), started) == (if capital then "_" else "") + s
  {
    if s != "" {
      assert s == [s[0]] + s[1..];
      forall i | 0 <= i < |s[1..]| && s[1..][i] == '_' ensures i + 1 < |s[1..]| && IsLower(s[1..][i + 1]) {
        assert s[i + 1] == '_';
      }
      if s[0] == '_' {
        assert IsLower(s[0 + 1]);
        SnakeUndoesCamel(s[1..], true, started);
      } else {
        SnakeUndoesCamel(s[1..], false, true);
        var c := Camel(s, capital);
        assert c[1..] == Camel(s[1..], false);
      }
    }
  }

  lemma {:induction false} CamelHasNoUnderscore(s: string, capital: bool)
    requires forall i :: 0 <= i < |s| ==> IsSnakeChar(s[i])
    ensures forall i :: 0 <= i < |Camel(s, capital)| ==> IsCamelChar(Camel(s, capital)[i])
  {
    if s != "" { CamelHasNoUnderscore(s[1..], s[0] == '_'); }
  }

  lemma {:induction false} SnakeIsSnake(s: string, started: bool)
    requires forall i :: 0 <= i < |s| ==> IsCamelChar(s[i])
    ensures SegmentsStartWithLetter(Snake(s, started))
    ensures forall i :: 0 <= i < |Snake(s, started)| ==> IsSnakeChar(Snake(s, started)[i])
    ensures !started ==> IsLowerSnake(Snake(s, started))
  {
    if s != "" {
      SnakeIsSnake(s[1..], true);
      var head := (if IsUpper(s[0]) && started then "_" else "") + [LowerChar(s[0])];
      var tail := Snake(s[1..], true);
      var whole := head + tail;
      forall i | 0 <= i < |whole| && whole[i] == '_' ensures i + 1 < |whole| && IsLower(whole[i + 1]) {
        if i >= |head| { assert tail[i - |head|] == '_'; }
      }
    }
  }

  /** Among texts of lower-case letters, digits and underscores, `snake_case_key` undoes `to_camel`
      exactly on those whose later segments start with a letter and which do not start with `_`. */
  lemma SnakeAfterCamel(s: string)
    requires forall i :: 0 <= i < |s| ==> IsSnakeChar(s[i])
    ensures Snake(ToCamel(s), false) == s <==> IsLowerSnake(s)
  {
    ToCamelByCharacters(s);
    if IsLowerSnake(s) { SnakeUndoesCamel(s, false, false); }
    CamelHasNoUnderscore(s, false);
    SnakeIsSnake(ToCamel(s), false);
  }

  lemma CamelOfWord(c: char, tail: string)
    requires c != '_'
    ensures Camel([c] + tail, false) == [c] + Camel(tail, false)
    ensures Camel(['_', c] + tail, false) == [UpperChar(c)] + Camel(tail, false)
  {
    var plain, marked := [c] + tail, ['_', c] + tail;
    assert plain[1..] == tail && marked[1..] == plain;
  }

  lemma {:induction false} CamelUndoesSnake(s: string, started: bool)
    requires forall i :: 0 <= i < |s| ==> IsCamelChar(s[i])
    requires !started && s != "" ==> !IsUpper(s[0])
    ensures Camel(Snake(s, started), false) == s
  {
    if s != "" {
      CamelUndoesSnake(s[1..], true);
      CamelOfWord(LowerChar(s[0]), Snake(s[1..], true));
      assert s == [s[0]] + s[1..];
      if IsUpper(s[0]) {
        assert Snake(s, started) == ['_', LowerChar(s[0])] + Snake(s[1..], true);
      } else {
        assert Snake(s, started) == [LowerChar(s[0])] + Snake(s[1..], true);
      }
    }
  }

  /** Among texts of letters and digits, `to_camel` undoes `snake_case_key` exactly on those that
      do not start with a capital. */
  lemma CamelAfterSnake(s: string)
    requires forall i :: 0 <= i < |s| ==> IsCamelChar(s[i])
    ensures ToCamel(Snake(s, false)) == s <==> s == "" || !IsUpper(s[0])
  {
    ToCamelByCharacters(Snake(s, false));
    if s == "" || !IsUpper(s[0]) {
      CamelUndoesSnake(s, false);
    } else {
      assert Camel(Snake(s, false), false)[0] == LowerChar(s[0]);
    }
  }
}
