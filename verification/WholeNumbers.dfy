/**
 What the number scanner sees of a text that has been cut at points and commas:
 the unglued digit runs, one by one, each with its sign and percent sign.
 */
module WholeNumbers {
  import opened Text
  import opened NumberScanner

  /** Not glued to an ASCII letter or underscore. */
  predicate IsFree(text: string, a: nat, b: nat) {
    IsRun(text, a, b) && !(a > 0 && (IsLetter(text[a - 1]) || text[a - 1] == '_'))
  }

  /** A sign belongs to the run unless a word character stands before it. */
  function RunStart(text: string, a: nat): (s: nat)
    requires a < |text|
    ensures s <= a
  {
    if a > 0 && IsSign(text[a - 1]) && !(a > 1 && IsWord(text[a - 2])) then a - 1 else a
  }

  /** The run as a token of its own. */
  function RunToken(text: string, a: nat, b: nat): string
    requires a < b <= |text|
  {
    text[RunStart(text, a)..PercentEnd(text, b)]
  }

  predicate IsWhole(text: string) { forall c :: c in text ==> c != '.' && c != ',' }

  // ----- the spans of a whole text are its free runs

  ghost predicate RunSpan(text: string, s: Span, a: nat, b: nat) {
    IsFree(text, a, b) && s == Span(RunStart(text, a), PercentEnd(text, b))
  }

  /** No sign right before `c` waits for its digits. */
  predicate Fresh(text: string, c: nat) {
    !(0 < c <= |text| && IsSign(text[c - 1]) && StartsNumber(text, c - 1))
  }

  lemma {:induction false} GroupIsRun(text: string, i: nat)
    requires i <= |text| && forall k :: i <= k < GroupEnd(text, i) ==> text[k] != ','
    ensures GroupEnd(text, i) == DigitEnd(text, i)
    decreases |text| - i
  {
    if i < |text| && IsDigit(text[i]) { GroupIsRun(text, i + 1); }
  }

  /** A number without points and commas is a free run. */
  lemma NumberIsRun(text: string, c: nat)
    requires StartsNumber(text, c) && Fresh(text, c)
    requires IsWhole(text[c..NumberEnd(text, FirstDigit(text, c))])
    ensures var a := FirstDigit(text, c);
            RunSpan(text, Span(c, NumberEnd(text, a)), a, DigitEnd(text, a))
  {
    var a := FirstDigit(text, c);
    var end := NumberEnd(text, a);
    forall k | c <= k < end ensures text[k] != '.' && text[k] != ',' { assert text[c..end][k - c] in text[c..end]; }
    GroupIsRun(text, a);
    var b := DigitEnd(text, a);
    assert FractionEnd(text, b) == b;
    assert IsRun(text, a, b);
  }

  ghost predicate IsRunSpan(text: string, s: Span) {
    exists a: nat, b: nat :: RunSpan(text, s, a, b)
  }

  predicate IsWholeSpan(text: string, s: Span) {
    s.start < s.end <= |text| && IsWhole(text[s.start..s.end])
  }

  lemma {:induction false} WholeSpansAreRuns(text: string, c: nat)
    requires Fresh(text, c)
    ensures forall s :: s in Spans(text, c) && IsWholeSpan(text, s) ==> IsRunSpan(text, s)
    decreases |text| - c
  {
    if c < |text| {
      if StartsNumber(text, c) {
        var a := FirstDigit(text, c);
        var end := NumberEnd(text, a);
        if IsWhole(text[c..end]) {
          NumberIsRun(text, c);
          assert IsRunSpan(text, Span(c, end));
        }
        NumberEndParts(text, a);
        assert !IsSign(text[end - 1]);
        WholeSpansAreRuns(text, end);
      } else {
        WholeSpansAreRuns(text, c + 1);
      }
    }
  }

  lemma SpansAreRuns(text: string)
    requires IsWhole(text)
    ensures forall s :: s in Spans(text, 0) ==> IsRunSpan(text, s)
  {
    WholeSpansAreRuns(text, 0);
    forall s | s in Spans(text, 0) ensures IsWholeSpan(text, s) {
      assert forall c :: c in text[s.start..s.end] ==> c in text;
    }
  }

  /** Two runs with a digit in common are one. */
  lemma SameRun(text: string, a: nat, b: nat, x: nat, y: nat, k: nat)
    requires IsRun(text, a, b) && IsRun(text, x, y) && a <= k < b && x <= k < y
    ensures a == x && b == y
  {
  }

  lemma SpanOfRun(text: string, s: Span, a: nat, b: nat)
    requires IsFree(text, a, b) && IsRunSpan(text, s) && s.start <= a < s.end <= |text|
    ensures s == Span(RunStart(text, a), PercentEnd(text, b))
  {
    var x: nat, y: nat :| RunSpan(text, s, x, y);
    SameRun(text, a, b, x, y, a);
  }

  /** A free run of the text, as a token. */
  ghost predicate IsRunToken(text: string, t: string) {
    exists a: nat, b: nat :: IsFree(text, a, b) && t == RunToken(text, a, b)
  }

  lemma TokenIsRun(text: string, i: nat)
    requires IsWhole(text) && i < |Tokens(text)|
    ensures IsRunToken(text, Tokens(text)[i])
  {
    SpansAreRuns(text);
    TokensAreSpans(text, 0);
    var s := Spans(text, 0)[i];
    assert IsRunSpan(text, s);
    var a: nat, b: nat :| RunSpan(text, s, a, b);
    assert Tokens(text)[i] == RunToken(text, a, b);
  }

  lemma RunIsSpan(text: string, a: nat, b: nat) returns (i: nat)
    requires IsWhole(text) && IsFree(text, a, b)
    ensures i < |Spans(text, 0)| && Spans(text, 0)[i] == Span(RunStart(text, a), PercentEnd(text, b))
  {
    SpansAreRuns(text);
    RunsFoundWhole(text, a, b);
    var spans := Spans(text, 0);
    i :| 0 <= i < |spans| && spans[i].start <= a && b <= spans[i].end;
    SpanOfRun(text, spans[i], a, b);
  }

  lemma RunIsToken(text: string, a: nat, b: nat)
    requires IsWhole(text) && IsFree(text, a, b)
    ensures RunToken(text, a, b) in Tokens(text)
  {
    var i := RunIsSpan(text, a, b);
    TokensAreSpans(text, 0);
    assert Tokens(text)[i] == RunToken(text, a, b);
  }

  /** The tokens of a whole text are exactly its free runs. */
  lemma TokensAreRuns(text: string, t: string)
    requires IsWhole(text)
    ensures t in Tokens(text) <==> IsRunToken(text, t)
  {
    if t in Tokens(text) {
      var i :| 0 <= i < |Tokens(text)| && Tokens(text)[i] == t;
      TokenIsRun(text, i);
    }
    if IsRunToken(text, t) {
      var a: nat, b: nat :| IsFree(text, a, b) && t == RunToken(text, a, b);
      RunIsToken(text, a, b);
    }
  }

  // ----- slices

  /** A character at which a text may be cut between numbers: it belongs to none, and glues to none. */
  predicate IsCut(c: char) { !IsWord(c) && !IsSign(c) && c != '%' }

  /** `sub` is the part of the text between two cuts. */
  ghost predicate IsSlice(text: string, p: nat, sub: string) {
    && p + |sub| <= |text| && text[p..p + |sub|] == sub
    && (p > 0 ==> IsCut(text[p - 1]))
    && (p + |sub| < |text| ==> IsCut(text[p + |sub|]))
  }

  lemma SliceOfSlice(text: string, p: nat, sub: string, q: nat, part: string)
    requires IsSlice(text, p, sub) && IsSlice(sub, q, part)
    ensures IsSlice(text, p + q, part)
  {
    assert forall k :: 0 <= k < |sub| ==> text[p + k] == sub[k];
    assert text[p + q..p + q + |part|] == sub[q..q + |part|];
  }

  /** The runs of a slice are runs of the text, and the same tokens. */
  lemma RunOfSlice(text: string, p: nat, sub: string, a: nat, b: nat)
    requires IsSlice(text, p, sub) && a < b <= |sub|
    ensures IsRun(sub, a, b) <==> IsRun(text, p + a, p + b)
    ensures IsFree(sub, a, b) <==> IsFree(text, p + a, p + b)
    ensures IsRun(sub, a, b) ==> RunToken(sub, a, b) == RunToken(text, p + a, p + b)
  {
    assert forall k :: 0 <= k < |sub| ==> text[p + k] == sub[k];
    SameRunInSlice(text, p, sub, a, b);
    if IsRun(sub, a, b) { SameRunToken(text, p, sub, a, b); }
  }

  lemma SameRunInSlice(text: string, p: nat, sub: string, a: nat, b: nat)
    requires IsSlice(text, p, sub) && a < b <= |sub|
    requires forall k :: 0 <= k < |sub| ==> text[p + k] == sub[k]
    ensures IsRun(sub, a, b) <==> IsRun(text, p + a, p + b)
  {
    if IsRun(text, p + a, p + b) {
      forall k | a <= k < b ensures IsDigit(sub[k]) { assert text[p + k] == sub[k]; }
      if a > 0 { assert text[p + a - 1] == sub[a - 1]; }
      if b < |sub| { assert text[p + b] == sub[b]; }
    }
    if IsRun(sub, a, b) {
      forall k | p + a <= k < p + b ensures IsDigit(text[k]) { assert text[p + (k - p)] == sub[k - p]; }
    }
  }

  lemma EqualSlices(text: string, p: nat, sub: string, x: nat, y: nat)
    requires x <= y <= |sub| && p + |sub| <= |text| && forall k :: 0 <= k < |sub| ==> text[p + k] == sub[k]
    ensures sub[x..y] == text[p + x..p + y]
  {
    forall k | 0 <= k < y - x ensures sub[x..y][k] == text[p + x..p + y][k] { assert text[p + (x + k)] == sub[x + k]; }
  }

  lemma SameRunToken(text: string, p: nat, sub: string, a: nat, b: nat)
    requires IsSlice(text, p, sub) && IsRun(sub, a, b)
    requires forall k :: 0 <= k < |sub| ==> text[p + k] == sub[k]
    ensures p + b <= |text| && RunToken(sub, a, b) == RunToken(text, p + a, p + b)
  {
    var x, y := RunStart(sub, a), PercentEnd(sub, b);
    assert RunStart(text, p + a) == p + x;
    assert PercentEnd(text, p + b) == p + y;
    EqualSlices(text, p, sub, x, y);
  }
}
