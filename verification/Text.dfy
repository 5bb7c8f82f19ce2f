/**
 Characters and strings as the Python code sees them: the ASCII classes of
 `text_parsing.py`, `str.isspace`, `str.strip`, `str.lower` on ASCII letters,
 and `str.join`.
 */
module Text {
  import opened Basics

  predicate IsDigit(c: char) { '0' <= c <= '9' }

  predicate IsUpper(c: char) { 'A' <= c <= 'Z' }

  predicate IsLower(c: char) { 'a' <= c <= 'z' }

  predicate IsLetter(c: char) { IsUpper(c) || IsLower(c) }

  /** ASCII_WORD: letters, digits and the underscore. */
  predicate IsWord(c: char) { IsLetter(c) || IsDigit(c) || c == '_' }

  predicate IsDateSeparator(c: char) { c == '-' || c == '/' }

  predicate IsSign(c: char) { c == '+' || c == '-' }

  /** The code points for which `str.isspace` holds, and which `str.strip` removes. */
  predicate IsSpace(c: char) {
    var n := c as int;
    || 0x09 <= n <= 0x0d
    || 0x1c <= n <= 0x20
    || n == 0x85 || n == 0xa0 || n == 0x1680
    || 0x2000 <= n <= 0x200a
    || n == 0x2028 || n == 0x2029 || n == 0x202f || n == 0x205f || n == 0x3000
  }

  /** The twenty-nine blank characters of `str.isspace`. */
  lemma SpaceCharacters(c: char)
    ensures IsSpace(c) <==> c as int in {
              0x09, 0x0a, 0x0b, 0x0c, 0x0d, 0x1c, 0x1d, 0x1e, 0x1f, 0x20, 0x85, 0xa0, 0x1680, 0x2000, 0x2001, 0x2002, 0x2003, 0x2004,
              0x2005, 0x2006, 0x2007, 0x2008, 0x2009, 0x200a, 0x2028, 0x2029, 0x202f, 0x205f, 0x3000}
  {
  }

  /** Words are made of ASCII letters, digits and the underscore; signs and date separators are these. */
  lemma CharacterClasses(c: char)
    ensures IsWord(c) <==> 'a' <= c <= 'z' || 'A' <= c <= 'Z' || '0' <= c <= '9' || c == '_'
    ensures IsSign(c) <==> c == '+' || c == '-'
    ensures IsDateSeparator(c) <==> c == '-' || c == '/'
  {
  }

  function LowerChar(c: char): char {
    if IsUpper(c) then (c as int + 32) as char else c
  }

  function UpperChar(c: char): char {
    if IsLower(c) then (c as int - 32) as char else c
  }

  function Lower(s: string): (r: string)
    ensures |r| == |s|
    ensures forall i :: 0 <= i < |s| ==> r[i] == LowerChar(s[i])
  {
    if s == [] then [] else [LowerChar(s[0])] + Lower(s[1..])
  }

  function StripLeft(blank: char -> bool, s: string): string {
    if s != [] && blank(s[0]) then StripLeft(blank, s[1..]) else s
  }

  function StripRight(blank: char -> bool, s: string): string {
    if s != [] && blank(s[|s| - 1]) then StripRight(blank, s[..|s| - 1]) else s
  }

  /** `str.strip()` */
  function Strip(s: string): string { StripRight(IsSpace, StripLeft(IsSpace, s)) }

  /** Neither end is white space, so stripping changes nothing. */
  predicate Trimmed(s: string) {
    s == [] || (!IsSpace(s[0]) && !IsSpace(s[|s| - 1]))
  }

  /** `separator.join(pieces)` */
  function Join(pieces: seq<string>, separator: string): string {
    if |pieces| == 0 then []
    else if |pieces| == 1 then pieces[0]
    else pieces[0] + separator + Join(pieces[1..], separator)
  }

  /** `s.split(separator)`. */
  function Split(s: string, separator: string): (pieces: seq<string>)
    requires separator != []
    ensures |pieces| > 0
  {
    if |s| < |separator| then [s]
    else if separator <= s then [""] + Split(s[|separator|..], separator)
    else Prepend(s[0], Split(s[1..], separator))
  }

  function Prepend(c: char, pieces: seq<string>): (r: seq<string>)
    requires |pieces| > 0
    ensures |r| == |pieces|
  {
    [[c] + pieces[0]] + pieces[1..]
  }

  function Filter(keep: char -> bool, s: string): string {
    if s == [] then [] else (if keep(s[0]) then [s[0]] else []) + Filter(keep, s[1..])
  }

  /** `needle in s` */
  predicate Contains(s: string, needle: string) {
    exists i :: 0 <= i <= |s| && needle <= s[i..]
  }

  lemma {:induction false} FilterConcat(keep: char -> bool, a: string, b: string)
    ensures Filter(keep, a + b) == Filter(keep, a) + Filter(keep, b)
  {
    if a == [] {
      assert a + b == b;
    } else {
      var head := if keep(a[0]) then [a[0]] else [];
      assert (a + b)[0] == a[0] && (a + b)[1..] == a[1..] + b;
      FilterConcat(keep, a[1..], b);
      assert Filter(keep, a + b) == head + (Filter(keep, a[1..]) + Filter(keep, b));
      ConcatAssociates(head, Filter(keep, a[1..]), Filter(keep, b));
    }
  }

  lemma LowerConcat(a: string, b: string)
    ensures Lower(a + b) == Lower(a) + Lower(b)
  {
  }

  lemma ContainsIn(a: string, needle: string, b: string)
    ensures Contains(a + needle + b, needle)
  {
    var s := a + needle + b;
    assert s[|a|..] == needle + b;
  }

  lemma {:induction false} StripLeftIsSuffix(blank: char -> bool, s: string) returns (k: nat)
    ensures k <= |s| && StripLeft(blank, s) == s[k..]
    ensures forall i :: 0 <= i < k ==> blank(s[i])
    ensures k < |s| ==> !blank(s[k])
  {
    k := 0;
    if s != [] && blank(s[0]) {
      var j := StripLeftIsSuffix(blank, s[1..]);
      k := j + 1;
      assert s[1..][j..] == s[k..];
      forall i | 0 <= i < k ensures blank(s[i]) {
        if i > 0 { assert s[i] == s[1..][i - 1]; }
      }
    }
  }

  lemma {:induction false} StripRightIsPrefix(blank: char -> bool, s: string) returns (k: nat)
    ensures k <= |s| && StripRight(blank, s) == s[..k]
    ensures forall i :: k <= i < |s| ==> blank(s[i])
    ensures k > 0 ==> !blank(s[k - 1])
  {
    k := |s|;
    if s != [] && blank(s[|s| - 1]) {
      k := StripRightIsPrefix(blank, s[..|s| - 1]);
      assert s[..|s| - 1][..k] == s[..k];
      forall i | k <= i < |s| ensures blank(s[i]) {
        if i < |s| - 1 { assert s[i] == s[..|s| - 1][i]; }
      }
    }
  }

  /** `s` is white space, then `Strip(s)`, then white space, and the middle is trimmed. */
  lemma StripParts(s: string) returns (left: string, right: string)
    ensures s == left + Strip(s) + right
    ensures forall c :: c in left ==> IsSpace(c)
    ensures forall c :: c in right ==> IsSpace(c)
    ensures Trimmed(Strip(s))
  {
    var i := StripLeftIsSuffix(IsSpace, s);
    var rest := s[i..];
    var j := StripRightIsPrefix(IsSpace, rest);
    left, right := s[..i], rest[j..];
    assert s == left + rest && rest == rest[..j] + rest[j..];
  }

  /** A character that is not blank is not stripped. */
  lemma InkStays(s: string, left: string, text: string, right: string, k: nat)
    requires s == left + text + right && k < |s| && !IsSpace(s[k])
    requires forall c :: c in left ==> IsSpace(c)
    requires forall c :: c in right ==> IsSpace(c)
    ensures |left| <= k < |s| - |right|
  {
    forall i | 0 <= i < |left| ensures IsSpace(s[i]) { assert left[i] in left; }
    forall i | |s| - |right| <= i < |s| ensures IsSpace(s[i]) { assert right[i - (|s| - |right|)] in right; }
  }

  lemma TrimmedIsItsStrip(s: string)
    requires Trimmed(s)
    ensures Strip(s) == s
  {}

  lemma {:induction false} JoinConcat(first: seq<string>, second: seq<string>, separator: string)
    requires first != [] && second != []
    ensures Join(first + second, separator) == Join(first, separator) + separator + Join(second, separator)
  {
    if |first| == 1 {
      assert (first + second)[1..] == second;
    } else {
      assert (first + second)[1..] == first[1..] + second;
      JoinConcat(first[1..], second, separator);
    }
  }

  lemma {:induction false} SplitOnce(s: string, separator: string)
    requires separator != [] && |Split(s, separator)| == 1
    ensures Split(s, separator) == [s]
  {
    if |s| >= |separator| {
      SplitOnce(s[1..], separator);
      assert s == [s[0]] + s[1..];
    }
  }

  /** The pieces, joined again, are the text, and none of them holds the separator. */
  lemma {:induction false} SplitIsExact(s: string, separator: string)
    requires separator != []
    ensures Join(Split(s, separator), separator) == s
  {
    if |s| >= |separator| {
      if separator <= s {
        SplitIsExact(s[|separator|..], separator);
        assert s == separator + s[|separator|..];
        assert ([""] + Split(s[|separator|..], separator))[1..] == Split(s[|separator|..], separator);
      } else {
        SplitIsExact(s[1..], separator);
        var rest := Split(s[1..], separator);
        assert Split(s, separator)[1..] == rest[1..];
      }
    }
  }

  lemma {:induction false} SplitLine(line: string, separator: string)
    requires separator != []
    requires forall i :: 0 <= i < |line| ==> line[i] != separator[0]
    ensures Split(line, separator) == [line]
  {
    if |line| >= |separator| {
      assert !(separator <= line) by { assert line[0] != separator[0]; }
      SplitLine(line[1..], separator);
      assert line == [line[0]] + line[1..];
    }
  }
}
