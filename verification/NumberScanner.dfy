/**
 The two hand-written number scanners: `_number_matches` in `answer_claims.py`
 and `_answer_number_tokens` in `answer.py`, and what they are worth.
 */
module NumberScanner {
  import opened Basics
  import opened Text

  datatype Span = Span(start: nat, end: nat)

  // ----- one number

  function DigitEnd(text: string, i: nat): (end: nat)
    requires i <= |text|
    ensures i <= end <= |text|
    ensures forall k :: i <= k < end ==> IsDigit(text[k])
    ensures end < |text| ==> !IsDigit(text[end])
    decreases |text| - i
  {
    if i < |text| && IsDigit(text[i]) then DigitEnd(text, i + 1) else i
  }

  /** End of the digits and grouping commas from `i` on. */
  function GroupEnd(text: string, i: nat): (end: nat)
    requires i <= |text|
    ensures i <= end <= |text|
    ensures forall k :: i <= k < end ==> IsDigit(text[k]) || text[k] == ','
    ensures end < |text| ==> !IsDigit(text[end]) && text[end] != ','
    decreases |text| - i
  {
    if i < |text| && (IsDigit(text[i]) || text[i] == ',') then GroupEnd(text, i + 1) else i
  }

  /** A decimal point counts only with a digit behind it. */
  function FractionEnd(text: string, g: nat): (end: nat)
    requires g <= |text|
    ensures g <= end <= |text|
  {
    if g < |text| && text[g] == '.' && DigitEnd(text, g + 1) > g + 1 then DigitEnd(text, g + 1) else g
  }

  function PercentEnd(text: string, d: nat): (end: nat)
    requires d <= |text|
    ensures d <= end <= |text|
  {
    if d < |text| && text[d] == '%' then d + 1 else d
  }

  /** Where the number with its first digit at `i` ends. */
  function NumberEnd(text: string, i: nat): (end: nat)
    requires i < |text| && IsDigit(text[i])
    ensures i < end <= |text|
  {
    PercentEnd(text, FractionEnd(text, GroupEnd(text, i)))
  }

  predicate IsAt(text: string, k: int, c: char) { 0 <= k < |text| && text[k] == c }

  predicate IsDigitAt(text: string, k: int) { 0 <= k < |text| && IsDigit(text[k]) }

  /** Digits and commas up to `whole`, a point with digits behind it up to `number` if there is one, and a percent sign. */
  predicate IsNumberTo(text: string, i: nat, whole: nat, number: nat, end: nat) {
    && i < whole <= number <= end <= |text|
    && (forall k :: i <= k < whole ==> IsDigit(text[k]) || text[k] == ',')
    && !IsDigitAt(text, whole) && !IsAt(text, whole, ',')
    && (if IsAt(text, whole, '.') && IsDigitAt(text, whole + 1)
        then whole + 1 < number && (forall k :: whole < k < number ==> IsDigit(text[k])) && !IsDigitAt(text, number)
        else number == whole)
    && end == if IsAt(text, number, '%') then number + 1 else number
  }

  lemma {:induction false} GroupEndIs(text: string, i: nat, end: nat)
    requires i <= end <= |text| && (forall k :: i <= k < end ==> IsDigit(text[k]) || text[k] == ',')
    requires !IsDigitAt(text, end) && !IsAt(text, end, ',')
    ensures GroupEnd(text, i) == end
    decreases end - i
  {
    if i < end { GroupEndIs(text, i + 1, end); }
  }

  lemma {:induction false} DigitEndTo(text: string, i: nat, end: nat)
    requires i <= end <= |text| && (forall k :: i <= k < end ==> IsDigit(text[k])) && !IsDigitAt(text, end)
    ensures DigitEnd(text, i) == end
    decreases end - i
  {
    if i < end { DigitEndTo(text, i + 1, end); }
  }

  /** A number reaches exactly so far. */
  lemma NumberExactly(text: string, i: nat, end: nat)
    requires i < |text| && IsDigit(text[i])
    ensures NumberEnd(text, i) == end <==> exists whole: nat, number: nat :: IsNumberTo(text, i, whole, number, end)
  {
    forall whole: nat, number: nat | IsNumberTo(text, i, whole, number, end) ensures NumberEnd(text, i) == end {
      GroupEndIs(text, i, whole);
      if IsAt(text, whole, '.') && IsDigitAt(text, whole + 1) { DigitEndTo(text, whole + 1, number); }
    }
    if NumberEnd(text, i) == end {
      var whole := GroupEnd(text, i);
      assert IsNumberTo(text, i, whole, FractionEnd(text, whole), end);
    }
  }

  function FirstDigit(text: string, s: nat): nat
    requires s < |text|
  {
    if IsSign(text[s]) then s + 1 else s
  }

  /** A number may start at `s`: an optional sign, a digit, and no word character before. */
  predicate StartsNumber(text: string, s: nat) {
    && s < |text|
    && FirstDigit(text, s) < |text| && IsDigit(text[FirstDigit(text, s)])
    && !(s > 0 && IsWord(text[s - 1]))
  }

  /** The numbers found from `cursor` on, leftmost first. */
  function Spans(text: string, cursor: nat): (spans: seq<Span>)
    ensures forall i :: 0 <= i < |spans| ==> cursor <= spans[i].start < spans[i].end <= |text|
    ensures forall i, j :: 0 <= i < j < |spans| ==> spans[i].end <= spans[j].start
    decreases |text| - cursor
  {
    if cursor >= |text| then []
    else if StartsNumber(text, cursor) then
      var end := NumberEnd(text, FirstDigit(text, cursor));
      [Span(cursor, end)] + Spans(text, end)
    else Spans(text, cursor + 1)
  }

  /** The same numbers as texts. */
  function TokensFrom(text: string, cursor: nat): seq<string>
    decreases |text| - cursor
  {
    if cursor >= |text| then []
    else if StartsNumber(text, cursor) then
      var end := NumberEnd(text, FirstDigit(text, cursor));
      [text[cursor..end]] + TokensFrom(text, end)
    else TokensFrom(text, cursor + 1)
  }

  function Tokens(text: string): seq<string> { TokensFrom(text, 0) }

  lemma TokenHere(text: string, cursor: nat)
    requires cursor < |text|
    ensures TokensFrom(text, cursor) ==
            if StartsNumber(text, cursor)
            then [text[cursor..NumberEnd(text, FirstDigit(text, cursor))]] + TokensFrom(text, NumberEnd(text, FirstDigit(text, cursor)))
            else TokensFrom(text, cursor + 1)
  {}

  lemma {:induction false} TokensAreSpans(text: string, cursor: nat)
    ensures |TokensFrom(text, cursor)| == |Spans(text, cursor)|
    ensures forall i :: 0 <= i < |Spans(text, cursor)| ==>
              TokensFrom(text, cursor)[i] == text[Spans(text, cursor)[i].start..Spans(text, cursor)[i].end]
    decreases |text| - cursor
  {
    if cursor < |text| {
      if StartsNumber(text, cursor) {
        var end := NumberEnd(text, FirstDigit(text, cursor));
        TokensAreSpans(text, end);
        assert Spans(text, cursor) == [Span(cursor, end)] + Spans(text, end);
      } else {
        TokensAreSpans(text, cursor + 1);
      }
    }
  }

  // ----- the scanner of answer_claims.py

  /** The end of the digits from `start` on, at most `maximum` of them; -1 for fewer than `minimum`. */
  function DigitRun(text: string, start: nat, minimum: nat, maximum: nat): (end: int)
    requires start <= |text|
    ensures end == -1 || start + minimum <= end <= |text|
  {
    var stop := if DigitEnd(text, start) - start <= maximum then DigitEnd(text, start) else start + maximum;
    if stop - start >= minimum then stop else -1
  }

  /** _ascii_digit_end */
  method AsciiDigitEnd(text: string, start: nat, minimum: nat, maximum: nat) returns (end: int)
    requires start <= |text|
    ensures end == DigitRun(text, start, minimum, maximum)
  {
    var cursor := start;
    while cursor < |text| && cursor - start < maximum && IsDigit(text[cursor])
      invariant start <= cursor <= |text| && cursor - start <= maximum
      invariant DigitEnd(text, cursor) == DigitEnd(text, start)
    {
      cursor := cursor + 1;
    }
    return if cursor - start >= minimum then cursor else -1;
  }

  method NumberMatchEnd(text: string, first: nat) returns (cursor: nat)
    requires first < |text| && IsDigit(text[first])
    ensures cursor == NumberEnd(text, first)
  {
    cursor := first;
    while cursor < |text| && (IsDigit(text[cursor]) || text[cursor] == ',')
      invariant first <= cursor <= |text|
      invariant GroupEnd(text, cursor) == GroupEnd(text, first)
    {
      cursor := cursor + 1;
    }
    if cursor < |text| && text[cursor] == '.' {
      var decimalEnd := AsciiDigitEnd(text, cursor + 1, 1, if |text| - cursor - 1 > 1 then |text| - cursor - 1 else 1);
      if decimalEnd > 0 { cursor := decimalEnd; }
    }
    if cursor < |text| && text[cursor] == '%' { cursor := cursor + 1; }
  }

  /** _number_matches */
  method NumberMatches(text: string) returns (spans: seq<Span>)
    ensures spans == Spans(text, 0)
  {
    spans := [];
    var cursor := 0;
    while cursor < |text|
      invariant 0 <= cursor <= |text|
      invariant spans + Spans(text, cursor) == Spans(text, 0)
    {
      var start := cursor;
      if IsSign(text[cursor]) { cursor := cursor + 1; }
      if cursor >= |text| || !IsDigit(text[cursor]) {
        cursor := start + 1;
        continue;
      }
      if start > 0 && IsWord(text[start - 1]) {
        cursor := start + 1;
        continue;
      }
      cursor := NumberMatchEnd(text, cursor);
      Regroup(spans, Span(start, cursor), Spans(text, cursor));
      spans := spans + [Span(start, cursor)];
    }
  }

  lemma Regroup<T>(a: seq<T>, x: T, b: seq<T>)
    ensures a + ([x] + b) == (a + [x]) + b
  {}

  // ----- the scanner of answer.py

  method AnswerTokenEnd(text: string, first: nat) returns (cursor: nat)
    requires first < |text| && IsDigit(text[first])
    ensures cursor == NumberEnd(text, first)
  {
    cursor := first;
    while cursor < |text| && (IsDigit(text[cursor]) || text[cursor] == ',')
      invariant first <= cursor <= |text|
      invariant GroupEnd(text, cursor) == GroupEnd(text, first)
    {
      cursor := cursor + 1;
    }
    if cursor < |text| && text[cursor] == '.' {
      var decimalCursor := cursor + 1;
      while decimalCursor < |text| && IsDigit(text[decimalCursor])
        invariant cursor + 1 <= decimalCursor <= |text|
        invariant DigitEnd(text, decimalCursor) == DigitEnd(text, cursor + 1)
      {
        decimalCursor := decimalCursor + 1;
      }
      if decimalCursor > cursor + 1 { cursor := decimalCursor; }
    }
    if cursor < |text| && text[cursor] == '%' { cursor := cursor + 1; }
  }

  /** _answer_number_tokens: written separately, and the same tokens on every text. */
  method AnswerNumberTokens(text: string) returns (tokens: seq<string>)
    ensures tokens == Tokens(text)
  {
    tokens := [];
    var cursor := 0;
    while cursor < |text|
      invariant 0 <= cursor <= |text|
      invariant tokens + TokensFrom(text, cursor) == TokensFrom(text, 0)
    {
      var start := cursor;
      if IsSign(text[cursor]) { cursor := cursor + 1; }
      if cursor >= |text| || !IsDigit(text[cursor]) {
        cursor := start + 1;
        continue;
      }
      if start > 0 && IsWord(text[start - 1]) {
        cursor := start + 1;
        continue;
      }
      cursor := AnswerTokenEnd(text, cursor);
      Regroup(tokens, text[start..cursor], TokensFrom(text, cursor));
      tokens := tokens + [text[start..cursor]];
    }
  }

  /** Running both scanners on one text: the spans of the first cut out the tokens of the second. */
  method BothScanners(text: string) returns (spans: seq<Span>, tokens: seq<string>)
    ensures |spans| == |tokens|
    ensures forall i :: 0 <= i < |spans| ==> spans[i].start < spans[i].end <= |text| && tokens[i] == text[spans[i].start..spans[i].end]
  {
    spans := NumberMatches(text);
    tokens := AnswerNumberTokens(text);
    TokensAreSpans(text, 0);
  }

  // ----- which digits are found

  /** The digit run holding `k` is glued to an ASCII letter or underscore. */
  predicate Glued(text: string, k: nat)
    requires k < |text| && IsDigit(text[k])
  {
    k > 0 && (IsLetter(text[k - 1]) || text[k - 1] == '_' || (IsDigit(text[k - 1]) && Glued(text, k - 1)))
  }

  ghost predicate Covered(spans: seq<Span>, k: nat) {
    exists i :: 0 <= i < |spans| && spans[i].start <= k < spans[i].end
  }

  /** Reading resumes only before a fresh run or inside a glued one. */
  predicate Resumable(text: string, c: nat) {
    0 < c < |text| && IsDigit(text[c]) && IsDigit(text[c - 1]) ==> Glued(text, c)
  }

  lemma NumberEndParts(text: string, i: nat)
    requires i < |text| && IsDigit(text[i])
    ensures var end := NumberEnd(text, i);
            && (forall k :: i <= k < end ==> IsDigit(text[k]) || text[k] in {',', '.', '%'})
            && (end < |text| && IsDigit(text[end]) ==> text[end - 1] == '%')
  {}

  lemma {:induction false} NoDigitGlued(text: string, s: nat, k: nat)
    requires StartsNumber(text, s)
    requires FirstDigit(text, s) <= k < NumberEnd(text, FirstDigit(text, s)) && IsDigit(text[k])
    ensures !Glued(text, k)
    decreases k
  {
    NumberEndParts(text, FirstDigit(text, s));
    if k > FirstDigit(text, s) && IsDigit(text[k - 1]) { NoDigitGlued(text, s, k - 1); }
  }

  lemma HeadCovers(head: Span, rest: seq<Span>, k: nat)
    requires head.start <= k < head.end
    ensures Covered([head] + rest, k)
  {
    assert ([head] + rest)[0] == head;
  }

  lemma {:induction false} DigitsFoundFrom(text: string, c: nat, k: nat)
    requires Resumable(text, c) && c <= k < |text| && IsDigit(text[k])
    ensures Covered(Spans(text, c), k) <==> !Glued(text, k)
    decreases |text| - c
  {
    if StartsNumber(text, c) {
      var first := FirstDigit(text, c);
      var end := NumberEnd(text, first);
      NumberEndParts(text, first);
      if k < end {
        NoDigitGlued(text, c, k);
        HeadCovers(Span(c, end), Spans(text, end), k);
      } else {
        DigitsFoundFrom(text, end, k);
        ConsCovers(Span(c, end), Spans(text, end), k);
      }
    } else if k == c {
      NothingBefore(text, c + 1, k);
    } else {
      DigitsFoundFrom(text, c + 1, k);
    }
  }

  lemma ConsCovers(head: Span, rest: seq<Span>, k: nat)
    requires k >= head.end
    ensures Covered([head] + rest, k) <==> Covered(rest, k)
  {
    var all := [head] + rest;
    if i :| 0 <= i < |rest| && rest[i].start <= k < rest[i].end { assert all[i + 1] == rest[i]; }
    if i :| 0 <= i < |all| && all[i].start <= k < all[i].end { assert all[i] == rest[i - 1]; }
  }

  lemma NothingBefore(text: string, c: nat, k: nat)
    requires k < c
    ensures !Covered(Spans(text, c), k)
  {}

  /** A digit is inside a found number exactly when its run is not glued to a letter or underscore,
      and then inside one number only. */
  lemma DigitsFound(text: string, k: nat)
    requires k < |text| && IsDigit(text[k])
    ensures Covered(Spans(text, 0), k) <==> !Glued(text, k)
    ensures forall i, j :: 0 <= i < j < |Spans(text, 0)| && Spans(text, 0)[i].start <= k < Spans(text, 0)[i].end
              ==> !(Spans(text, 0)[j].start <= k < Spans(text, 0)[j].end)
  {
    DigitsFoundFrom(text, 0, k);
  }

  /** A maximal run of digits. */
  predicate IsRun(text: string, a: nat, b: nat) {
    && a < b <= |text|
    && (forall k :: a <= k < b ==> IsDigit(text[k]))
    && (a > 0 ==> !IsDigit(text[a - 1]))
    && (b < |text| ==> !IsDigit(text[b]))
  }

  lemma {:induction false} GluedAlongRun(text: string, a: nat, b: nat, k: nat)
    requires IsRun(text, a, b) && a <= k < b
    ensures Glued(text, k) <==> a > 0 && (IsLetter(text[a - 1]) || text[a - 1] == '_')
    decreases k
  {
    if k > a { GluedAlongRun(text, a, b, k - 1); }
  }

  /** A span neither starts nor ends inside a run. */
  predicate KeepsRuns(text: string, s: Span)
    requires s.start < s.end <= |text|
  {
    && (s.start > 0 ==> !IsWord(text[s.start - 1]))
    && (s.end < |text| && IsDigit(text[s.end]) ==> !IsDigit(text[s.end - 1]))
  }

  lemma {:induction false} SpansKeepRuns(text: string, c: nat)
    ensures forall i :: 0 <= i < |Spans(text, c)| ==> KeepsRuns(text, Spans(text, c)[i])
    decreases |text| - c
  {
    if c < |text| {
      if StartsNumber(text, c) {
        var end := NumberEnd(text, FirstDigit(text, c));
        NumberEndParts(text, FirstDigit(text, c));
        assert KeepsRuns(text, Span(c, end));
        SpansKeepRuns(text, end);
      } else {
        SpansKeepRuns(text, c + 1);
      }
    }
  }

  /** Every maximal digit run lies whole inside one found number, unless an ASCII letter or
      underscore stands right before it; then no number touches it. */
  lemma RunsFoundWhole(text: string, a: nat, b: nat)
    requires IsRun(text, a, b)
    ensures var spans := Spans(text, 0);
            if a > 0 && (IsLetter(text[a - 1]) || text[a - 1] == '_')
            then forall k :: a <= k < b ==> !Covered(spans, k)
            else exists i :: 0 <= i < |spans| && spans[i].start <= a && b <= spans[i].end
  {
    var spans := Spans(text, 0);
    if a > 0 && (IsLetter(text[a - 1]) || text[a - 1] == '_') {
      forall k | a <= k < b ensures !Covered(spans, k) {
        DigitsFound(text, k);
        GluedAlongRun(text, a, b, k);
      }
    } else {
      DigitsFound(text, a);
      GluedAlongRun(text, a, b, a);
      var i :| 0 <= i < |spans| && spans[i].start <= a < spans[i].end;
      SpansKeepRuns(text, 0);
      EndsBehindRun(text, a, b, spans[i]);
    }
  }

  lemma EndsBehindRun(text: string, a: nat, b: nat, s: Span)
    requires IsRun(text, a, b) && s.start <= a < s.end <= |text| && KeepsRuns(text, s)
    ensures b <= s.end
  {
    assert forall k :: a <= k < b ==> IsDigit(text[k]);
  }

  // ----- the shape of what is found

  /** `[+-]?[0-9][0-9,]*(\.[0-9]+)?%?` */
  predicate IsNumeral(token: string) {
    && token != []
    && FirstDigit(token, 0) < |token| && IsDigit(token[FirstDigit(token, 0)])
    && NumberEnd(token, FirstDigit(token, 0)) == |token|
  }

  lemma {:induction false} DigitEndInside(text: string, a: nat, b: nat, i: nat)
    requires a <= a + i <= b <= |text|
    ensures DigitEnd(text[a..b], i) == if DigitEnd(text, a + i) <= b then DigitEnd(text, a + i) - a else b - a
    decreases b - a - i
  {
    if a + i < b && IsDigit(text[a + i]) { DigitEndInside(text, a, b, i + 1); }
  }

  lemma {:induction false} GroupEndInside(text: string, a: nat, b: nat, i: nat)
    requires a <= a + i <= b <= |text|
    ensures GroupEnd(text[a..b], i) == if GroupEnd(text, a + i) <= b then GroupEnd(text, a + i) - a else b - a
    decreases b - a - i
  {
    if a + i < b && (IsDigit(text[a + i]) || text[a + i] == ',') { GroupEndInside(text, a, b, i + 1); }
  }

  lemma FractionEndInside(text: string, a: nat, g: nat, b: nat)
    requires a <= g <= b <= |text| && FractionEnd(text, g) <= b
    ensures FractionEnd(text[a..b], g - a) == FractionEnd(text, g) - a || (b == g && FractionEnd(text[a..b], g - a) == g - a)
  {
    if g < |text| && text[g] == '.' && g < b { DigitEndInside(text, a, b, g + 1 - a); }
  }

  lemma NumberEndInside(text: string, a: nat, i: nat)
    requires a + i < |text| && IsDigit(text[a + i])
    ensures NumberEnd(text[a..NumberEnd(text, a + i)], i) == NumberEnd(text, a + i) - a
  {
    var b := NumberEnd(text, a + i);
    var g := GroupEnd(text, a + i);
    GroupEndInside(text, a, b, i);
    FractionEndInside(text, a, g, b);
  }

  lemma TokenIsNumeral(text: string, cursor: nat)
    requires StartsNumber(text, cursor)
    ensures IsNumeral(text[cursor..NumberEnd(text, FirstDigit(text, cursor))])
  {
    var i: nat := if IsSign(text[cursor]) then 1 else 0;
    NumberEndInside(text, cursor, i);
    var token := text[cursor..NumberEnd(text, cursor + i)];
    assert token[0] == text[cursor] && token[i] == text[cursor + i];
    assert FirstDigit(token, 0) == i;
  }

  /** Every token is a numeral. */
  lemma {:induction false} TokensAreNumerals(text: string, cursor: nat)
    ensures forall t :: t in TokensFrom(text, cursor) ==> IsNumeral(t)
    decreases |text| - cursor
  {
    if cursor < |text| {
      TokenHere(text, cursor);
      if StartsNumber(text, cursor) {
        TokenIsNumeral(text, cursor);
        TokensAreNumerals(text, NumberEnd(text, FirstDigit(text, cursor)));
      } else {
        TokensAreNumerals(text, cursor + 1);
      }
    }
  }

  /** A numeral standing alone is its own only token. */
  lemma NumeralIsOneToken(t: string)
    requires IsNumeral(t)
    ensures Tokens(t) == [t]
  {
    assert StartsNumber(t, 0) && t[0..|t|] == t;
    assert TokensFrom(t, 0) == [t[0..|t|]] + TokensFrom(t, |t|);
    assert t[0..|t|] == t;
  }

  // ----- neutral separators

  /** A character no number can contain or lean on. */
  predicate IsNeutral(c: char) { !IsWord(c) && !IsSign(c) && c != ',' && c != '.' && c != '%' && c != '/' }

  /** `text` ends with `back`, which begins at position `n`. */
  predicate EndsWith(text: string, n: nat, back: string) {
    n + |back| == |text| && forall k :: 0 <= k < |back| ==> text[n + k] == back[k]
  }

  lemma {:induction false} DigitEndShift(text: string, n: nat, back: string, i: nat)
    requires EndsWith(text, n, back) && i <= |back|
    ensures DigitEnd(text, n + i) == n + DigitEnd(back, i)
    decreases |back| - i
  {
    if i < |back| {
      assert text[n + i] == back[i];
      if IsDigit(back[i]) { DigitEndShift(text, n, back, i + 1); }
    }
  }

  lemma {:induction false} GroupEndShift(text: string, n: nat, back: string, i: nat)
    requires EndsWith(text, n, back) && i <= |back|
    ensures GroupEnd(text, n + i) == n + GroupEnd(back, i)
    decreases |back| - i
  {
    if i < |back| {
      assert text[n + i] == back[i];
      if IsDigit(back[i]) || back[i] == ',' { GroupEndShift(text, n, back, i + 1); }
    }
  }

  lemma FractionEndShift(text: string, n: nat, back: string, g: nat)
    requires EndsWith(text, n, back) && g <= |back|
    ensures FractionEnd(text, n + g) == n + FractionEnd(back, g)
  {
    if g < |back| {
      assert text[n + g] == back[g];
      DigitEndShift(text, n, back, g + 1);
    }
  }

  lemma NumberEndShift(text: string, n: nat, back: string, i: nat)
    requires EndsWith(text, n, back) && i < |back| && IsDigit(back[i])
    ensures IsDigit(text[n + i]) && NumberEnd(text, n + i) == n + NumberEnd(back, i)
  {
    assert text[n + i] == back[i];
    GroupEndShift(text, n, back, i);
    FractionEndShift(text, n, back, GroupEnd(back, i));
    var d := FractionEnd(back, GroupEnd(back, i));
    if d < |back| { assert text[n + d] == back[d]; }
  }

  lemma StartsShift(text: string, n: nat, back: string, i: nat)
    requires 0 < n && EndsWith(text, n, back) && !IsWord(text[n - 1]) && i < |back|
    ensures StartsNumber(text, n + i) <==> StartsNumber(back, i)
    ensures FirstDigit(text, n + i) == n + FirstDigit(back, i)
  {
    assert text[n + i] == back[i];
    if i + 1 < |back| { assert text[n + (i + 1)] == back[i + 1]; }
    if i > 0 { assert text[n + (i - 1)] == back[i - 1]; }
  }

  /** Where the scan goes on after position `s`. */
  function NextCursor(text: string, s: nat): (next: nat)
    requires s < |text|
    ensures s < next <= |text|
  {
    if StartsNumber(text, s) then NumberEnd(text, FirstDigit(text, s)) else s + 1
  }

  /** The number that starts at position `s`, if one does. */
  function HeadAt(text: string, s: nat): Option<string>
    requires s < |text|
  {
    if StartsNumber(text, s) then Some(text[s..NextCursor(text, s)]) else None
  }

  function Listed(token: Option<string>): seq<string> { if token.Some? then [token.value] else [] }

  lemma TokensGoOn(text: string, s: nat)
    requires s < |text|
    ensures TokensFrom(text, s) == Listed(HeadAt(text, s)) + TokensFrom(text, NextCursor(text, s))
  {
    TokenHere(text, s);
  }

  /** At position `i` of `back` the two scans do the same. */
  predicate StepsAlike(text: string, n: nat, back: string, i: nat) {
    && n + i < |text| && i < |back|
    && NextCursor(text, n + i) == n + NextCursor(back, i)
    && HeadAt(text, n + i) == HeadAt(back, i)
  }

  lemma TokensGoOnAs(text: string, s: nat, token: Option<string>, next: nat)
    requires s < |text| && HeadAt(text, s) == token && NextCursor(text, s) == next
    ensures TokensFrom(text, s) == Listed(token) + TokensFrom(text, next)
  {
    TokensGoOn(text, s);
  }

  lemma StepBefore(text: string, s: nat, stop: nat, back: string, i: nat, next: nat, after: seq<string>)
    requires s < |text| && NextCursor(text, s) == stop && i < |back| && NextCursor(back, i) == next
    requires HeadAt(text, s) == HeadAt(back, i)
    ensures TokensFrom(text, stop) == TokensFrom(back, next) + after ==> TokensFrom(text, s) == TokensFrom(back, i) + after
  {
    var token := HeadAt(back, i);
    TokensGoOnAs(text, s, token, stop);
    TokensGoOnAs(back, i, token, next);
    ConcatAssociates(Listed(token), TokensFrom(back, next), after);
  }

  ghost predicate AllAlike(text: string, n: nat, back: string) {
    n + |back| <= |text| && forall j: nat :: j < |back| ==> StepsAlike(text, n, back, j)
  }

  lemma StepOfAll(text: string, n: nat, back: string, i: nat)
    requires AllAlike(text, n, back) && i < |back|
    ensures NextCursor(text, n + i) == n + NextCursor(back, i) && HeadAt(text, n + i) == HeadAt(back, i)
  {
    assert StepsAlike(text, n, back, i);
  }

  lemma NothingLeft(back: string, after: seq<string>)
    ensures TokensFrom(back, |back|) + after == after
  {
    assert TokensFrom(back, |back|) == [];
  }

  /** Where two scans do the same from position to position, they find the same. */
  lemma {:induction false} TokensAlike(text: string, n: nat, back: string, i: nat)
    requires AllAlike(text, n, back) && i <= |back|
    ensures TokensFrom(text, n + i) == TokensFrom(back, i) + TokensFrom(text, n + |back|)
    decreases |back| - i
  {
    if i < |back| {
      var next := NextCursor(back, i);
      TokensAlike(text, n, back, next);
      StepOfAll(text, n, back, i);
      StepBefore(text, n + i, n + next, back, i, next, TokensFrom(text, n + |back|));
    } else {
      NothingLeft(back, TokensFrom(text, n + |back|));
    }
  }

  /** Behind a non-word character a text is scanned as if it stood alone. */
  lemma TokensShift(text: string, n: nat, back: string)
    requires 0 < n && EndsWith(text, n, back) && !IsWord(text[n - 1])
    ensures TokensFrom(text, n) == Tokens(back)
  {
    forall j: nat | j < |back| ensures StepsAlike(text, n, back, j) { StepShift(text, n, back, j); }
    TokensAlike(text, n, back, 0);
  }

  lemma CursorShift(text: string, n: nat, back: string, i: nat)
    requires 0 < n && EndsWith(text, n, back) && !IsWord(text[n - 1]) && i < |back|
    ensures StartsNumber(text, n + i) <==> StartsNumber(back, i)
    ensures NextCursor(text, n + i) == n + NextCursor(back, i)
  {
    StartsShift(text, n, back, i);
    if StartsNumber(back, i) { NumberEndShift(text, n, back, FirstDigit(back, i)); }
  }

  lemma StepShift(text: string, n: nat, back: string, i: nat)
    requires 0 < n && EndsWith(text, n, back) && !IsWord(text[n - 1]) && i < |back|
    ensures StepsAlike(text, n, back, i)
  {
    CursorShift(text, n, back, i);
    SliceShift(text, n, back, i, NextCursor(back, i));
  }

  lemma SliceShift(text: string, n: nat, back: string, i: nat, end: nat)
    requires EndsWith(text, n, back) && i <= end <= |back|
    ensures text[n + i..n + end] == back[i..end]
  {
    forall k | 0 <= k < end - i ensures text[n + i..n + end][k] == back[i..end][k] {
      assert back[i..end][k] == back[i + k];
    }
  }

  /** `text` begins with `front`, and a neutral character follows. */
  predicate BeginsWith(text: string, front: string) {
    && |front| < |text| && IsNeutral(text[|front|])
    && forall k :: 0 <= k < |front| ==> text[k] == front[k]
  }

  lemma {:induction false} DigitEndBefore(text: string, front: string, i: nat)
    requires BeginsWith(text, front) && i <= |front|
    ensures DigitEnd(text, i) == DigitEnd(front, i)
    decreases |front| - i
  {
    if i < |front| && IsDigit(front[i]) { DigitEndBefore(text, front, i + 1); }
  }

  lemma {:induction false} GroupEndBefore(text: string, front: string, i: nat)
    requires BeginsWith(text, front) && i <= |front|
    ensures GroupEnd(text, i) == GroupEnd(front, i)
    decreases |front| - i
  {
    if i < |front| && (IsDigit(front[i]) || front[i] == ',') { GroupEndBefore(text, front, i + 1); }
  }

  lemma FractionEndBefore(text: string, front: string, g: nat)
    requires BeginsWith(text, front) && g <= |front|
    ensures FractionEnd(text, g) == FractionEnd(front, g)
  {
    if g < |front| { DigitEndBefore(text, front, g + 1); }
  }

  /** Before a neutral character a number ends as it would at the end of the text. */
  lemma NumberEndBefore(text: string, front: string, i: nat)
    requires BeginsWith(text, front) && i < |front| && IsDigit(front[i])
    ensures NumberEnd(text, i) == NumberEnd(front, i)
  {
    GroupEndBefore(text, front, i);
    FractionEndBefore(text, front, GroupEnd(front, i));
  }

  lemma StartsBefore(text: string, front: string, i: nat)
    requires BeginsWith(text, front) && i < |front|
    ensures StartsNumber(text, i) <==> StartsNumber(front, i)
    ensures FirstDigit(text, i) == FirstDigit(front, i)
  {
    assert text[i] == front[i];
    if i + 1 < |front| { assert text[i + 1] == front[i + 1]; }
    if i > 0 { assert text[i - 1] == front[i - 1]; }
  }

  lemma SliceBefore(text: string, front: string, i: nat, end: nat)
    requires BeginsWith(text, front) && i <= end <= |front|
    ensures text[i..end] == front[i..end]
  {
  }

  lemma CursorBefore(text: string, front: string, i: nat)
    requires BeginsWith(text, front) && i < |front|
    ensures StartsNumber(text, i) <==> StartsNumber(front, i)
    ensures NextCursor(text, i) == NextCursor(front, i)
  {
    StartsBefore(text, front, i);
    if StartsNumber(front, i) { NumberEndBefore(text, front, FirstDigit(front, i)); }
  }

  /** Before a neutral character a text is scanned as if it stood alone. */
  lemma TokensBefore(text: string, front: string)
    requires BeginsWith(text, front)
    ensures Tokens(text) == Tokens(front) + TokensFrom(text, |front|)
  {
    forall j: nat | j < |front| ensures StepsAlike(text, 0, front, j) {
      CursorBefore(text, front, j);
      SliceBefore(text, front, j, NextCursor(front, j));
    }
    TokensAlike(text, 0, front, 0);
  }

  /** The scanner distributes over a neutral character. */
  lemma TokensDistribute(a: string, c: char, b: string)
    requires IsNeutral(c)
    ensures Tokens(a + [c] + b) == Tokens(a) + Tokens(b)
  {
    var text := a + [c] + b;
    assert text[|a|] == c && text[|a| + 1..] == b;
    TokensBefore(text, a);
    assert !StartsNumber(text, |a|);
    TokensShift(text, |a| + 1, b);
  }
}
