/**
 Which part of a claim a number is bound to when the verifier reads it with its own
 scanners: `decimal_token`, the date patterns and `extract_numeric_tokens`.
 */
module ClaimBinding {
  import opened Basics
  import opened Text
  import opened NumberScanner
  import opened NumberText
  import opened WholeNumbers
  import opened ClaimNumbers
  import opened ClaimTokens
  import opened ClaimVerifier
  import opened ClaimContexts

  /** decimal_token, on plain decimal notation */
  function DecimalToken(s: string): Option<real> { ReadFloat(WithoutPercents(WithoutCommas(Strip(s)))) }

  /** DATE_PATTERN.fullmatch */
  predicate IsDateText(s: string) { Dates(s, 0) == [Span(0, |s|)] }

  /** DATETIME_PATTERN.fullmatch */
  predicate IsDateTimeText(s: string) { DateTimes(s) == [Span(0, |s|)] }

  /** The reader scans tokens, numbers and dates as the verifier does; the rest of it is free. */
  ghost predicate Scans(r: Reader, formula: Formula) {
    && ReadsNumbers(r, formula)
    && (forall s :: r.number(s) == DecimalToken(s))
    && (forall s :: r.isDate(s) == IsDateText(s))
    && (forall s :: r.isDateTime(s) == IsDateTimeText(s))
  }

  // ----- a date is no number

  /** How a date begins: four digits, a separator and a digit. */
  predicate IsDated(s: string) {
    && |s| >= 6 && (forall k :: 0 <= k < 4 ==> IsDigit(s[k])) && IsDateSeparator(s[4]) && IsDigit(s[5])
  }

  lemma DateBegins(s: string)
    requires DateEndAt(s, 0) >= 0
    ensures IsDated(s)
  {
    var year, month := DateHasParts(s, 0);
    assert year == 4 && IsDigit(s[year + 1]);
  }

  lemma {:induction false} TimesBeginAtDates(text: string, dates: seq<Span>, s: Span)
    requires forall d :: d in dates ==> d.start < d.end <= |text|
    requires s in WithTime(text, dates)
    ensures exists d :: d in dates && d.start == s.start
  {
    if TimeEnd(text, dates[0].end) >= 0 && s == Span(dates[0].start, TimeEnd(text, dates[0].end)) {
      assert dates[0] in dates;
    } else {
      TimesBeginAtDates(text, dates[1..], s);
    }
  }

  lemma TemporalIsDated(s: string)
    requires IsDateText(s) || IsDateTimeText(s)
    ensures IsDated(s)
  {
    if IsDateText(s) {
      assert Span(0, |s|) in Dates(s, 0);
    } else {
      assert Span(0, |s|) in WithTime(s, Dates(s, 0));
      TimesBeginAtDates(s, Dates(s, 0), Span(0, |s|));
    }
    DateBegins(s);
  }

  lemma PrefixIsDated(s: string, k: nat)
    requires IsDated(s) && 6 <= k <= |s|
    ensures IsDated(s[..k])
  {
  }

  lemma StripKeepsDated(s: string)
    requires IsDated(s)
    ensures IsDated(Strip(s))
  {
    assert StripLeft(IsSpace, s) == s;
    var k := StripRightIsPrefix(IsSpace, s);
    assert !IsSpace(s[5]);
    PrefixIsDated(s, k);
  }

  lemma PercentsKeepDated(s: string)
    requires IsDated(s)
    ensures IsDated(WithoutPercents(s))
  {
    var k := StripRightIsPrefix(IsPercent, s);
    assert !IsPercent(s[5]);
    PrefixIsDated(s, k);
  }

  lemma CommasKeepDated(s: string)
    requires IsDated(s)
    ensures IsDated(WithoutCommas(s))
  {
    var front, rest := s[..6], s[6..];
    assert s == front + rest;
    FilterConcat(NotComma, front, rest);
    NothingFiltered(NotComma, front);
    assert WithoutCommas(s) == front + WithoutCommas(rest);
    assert forall k :: 0 <= k < 6 ==> WithoutCommas(s)[k] == s[k];
  }

  lemma DatedIsUnread(s: string)
    requires IsDated(s)
    ensures ReadUnsigned(s) == None
  {
    DigitEndIs(s, 0, 4);
  }

  /** A date or time reads as no number. */
  lemma DateIsNoNumber(s: string)
    requires IsDateText(s) || IsDateTimeText(s)
    ensures DecimalToken(s) == None
  {
    TemporalIsDated(s);
    StripKeepsDated(s);
    CommasKeepDated(Strip(s));
    PercentsKeepDated(WithoutCommas(Strip(s)));
    var t := WithoutPercents(WithoutCommas(Strip(s)));
    StripKeepsDated(t);
    DatedIsUnread(Strip(t));
  }

  // ----- the value of a run

  /** The value of a run with its sign; the percent sign does not scale it. */
  function RunValue(text: string, a: nat, b: nat): real
    requires IsRun(text, a, b)
  {
    Signed(text[RunStart(text, a)] == '-', DigitsValue(text[a..b]) as real)
  }

  lemma UnsignedReads(digits: string)
    requires digits != "" && AllDigits(digits)
    ensures ReadUnsigned(digits) == Some(DigitsValue(digits) as real)
  {
    DigitEndIs(digits, 0, |digits|);
  }

  lemma SignedReads(sign: string, digits: string)
    requires sign == "" || sign == "+" || sign == "-"
    requires digits != "" && AllDigits(digits)
    ensures ReadFloat(sign + digits) == Some(Signed(sign == "-", DigitsValue(digits) as real))
  {
    var s := sign + digits;
    UnsignedReads(digits);
    assert s[|s| - 1] == digits[|digits| - 1];
    assert Trimmed(s);
    TrimmedIsItsStrip(s);
    if sign == "" { assert s == digits; } else { assert s[1..] == digits; }
  }

  lemma RunReads(sign: string, digits: string, percent: string)
    requires sign == "" || sign == "+" || sign == "-"
    requires digits != "" && AllDigits(digits) && (percent == "" || percent == "%")
    ensures DecimalToken(sign + digits + percent) == Some(Signed(sign == "-", DigitsValue(digits) as real))
  {
    var body := sign + digits;
    var s := body + percent;
    assert body[|body| - 1] == digits[|digits| - 1];
    assert s[|s| - 1] == if percent == "" then body[|body| - 1] else '%';
    assert Trimmed(s);
    TrimmedIsItsStrip(s);
    NothingFiltered(NotComma, s);
    StripOnePercent(body, percent == "%");
    assert s == Suffixed(body, percent == "%");
    SignedReads(sign, digits);
  }

  lemma ThreeSlices(text: string, i: nat, a: nat, b: nat, j: nat)
    requires i <= a <= b <= j <= |text|
    ensures text[i..j] == text[i..a] + text[a..b] + text[b..j]
  {
  }

  lemma RunTokenReads(text: string, a: nat, b: nat)
    requires IsRun(text, a, b)
    ensures DecimalToken(RunToken(text, a, b)) == Some(RunValue(text, a, b))
  {
    var sign, digits, percent := text[RunStart(text, a)..a], text[a..b], text[b..PercentEnd(text, b)];
    ThreeSlices(text, RunStart(text, a), a, b, PercentEnd(text, b));
    forall k | 0 <= k < |digits| ensures IsDigit(digits[k]) { assert digits[k] == text[a + k]; }
    assert sign == "" || sign == [text[a - 1]];
    assert percent == "" || percent == [text[b]];
    RunReads(sign, digits, percent);
  }

  ghost predicate RunIsClose(text: string, x: real) {
    exists a: nat, b: nat :: IsFree(text, a, b) && Close(x, RunValue(text, a, b))
  }

  lemma SameNumberIsClose(r: Reader, formula: Formula, raw: string, text: string, a: nat, b: nat)
    requires Scans(r, formula) && r.number(raw).Some? && IsRun(text, a, b)
    ensures SameNumber(r, raw, RunToken(text, a, b)) <==> Close(r.number(raw).value, RunValue(text, a, b))
  {
    RunTokenReads(text, a, b);
    assert r.number(raw) == DecimalToken(raw);
    if IsDateText(raw) || IsDateTimeText(raw) { DateIsNoNumber(raw); }
  }

  /** With the verifier's scanners, in a text without dates and formulas: a number gets a clause exactly
      when it is close to the whole value of some free digit run. `200.5` and `1,500` get none in a text
      whose digit runs are 200 and 5, or 1 and 500; `200.00` gets the clause of its 200. */
  lemma ContextIsByValue(r: Reader, formula: Formula, raw: string, text: string)
    requires Scans(r, formula) && IsPlainText(formula, text) && r.number(raw).Some?
    ensures HasContext(r, raw, text) <==> RunIsClose(text, r.number(raw).value)
  {
    RunGivesContext(r, formula, raw, text);
    if RunStates(r, raw, text) {
      var a: nat, b: nat :| IsFree(text, a, b) && SameNumber(r, raw, RunToken(text, a, b));
      SameNumberIsClose(r, formula, raw, text, a, b);
    }
    if RunIsClose(text, r.number(raw).value) {
      var a: nat, b: nat :| IsFree(text, a, b) && Close(r.number(raw).value, RunValue(text, a, b));
      SameNumberIsClose(r, formula, raw, text, a, b);
    }
  }

  // ----- what a number is bound to

  /** A direct number needs a name in the context; another one a justification. */
  ghost predicate Bound(r: Reader, raw: string, context: string, question: string, facts: seq<Fact>) {
    if r.assertsDirectValue(context) then Named(r, raw, context, question, facts)
    else Justified(r, raw, context, question, facts)
  }

  /** Segment `i` of a clause of the text states the number. */
  ghost predicate StatedAt(r: Reader, formula: Formula, raw: string, text: string, clause: string, i: nat) {
    && clause in Clauses(text, CLAUSE_ENDS) && i < |Clauses(clause, SEGMENT_ENDS)|
    && SegmentReads(r, formula, raw, Clauses(clause, SEGMENT_ENDS)[i])
  }

  ghost predicate IsStated(r: Reader, formula: Formula, raw: string, text: string) {
    exists clause, i: nat :: StatedAt(r, formula, raw, text, clause, i)
  }

  lemma StatedIsContext(r: Reader, formula: Formula, raw: string, text: string, clause: string, i: nat)
    requires ReadsNumbers(r, formula) && StatedAt(r, formula, raw, text, clause, i)
    ensures IsContext(r, raw, text, Beginning(clause, i))
  {
    StatesExactly(r, formula, raw, text, Clauses(clause, SEGMENT_ENDS)[i]);
    assert IsContextIn(r, raw, clause, Beginning(clause, i));
  }

  lemma ContextIsStated(r: Reader, formula: Formula, raw: string, text: string, context: string) returns (clause: string, i: nat)
    requires ReadsNumbers(r, formula) && IsContext(r, raw, text, context)
    ensures StatedAt(r, formula, raw, text, clause, i) && context == Beginning(clause, i)
  {
    clause :| clause in Clauses(text, CLAUSE_ENDS) && IsContextIn(r, raw, clause, context);
    var segments := Clauses(clause, SEGMENT_ENDS);
    i :| 0 <= i < |segments| && States(r, segments[i], raw) && context == Beginning(clause, i);
    StatesExactly(r, formula, raw, text, segments[i]);
  }

  lemma BoundIsJustified(r: Reader, raw: string, context: string, question: string, facts: seq<Fact>)
    requires !r.isDate(raw) && !r.isDateTime(raw)
    ensures Bound(r, raw, context, question, facts) <==> Justified(r, raw, context, question, facts)
  {
    if r.assertsDirectValue(context) { DirectValueIsNamed(r, raw, context, question, facts); }
  }

  ghost predicate BoundWhereStated(r: Reader, formula: Formula, raw: string, text: string, question: string, facts: seq<Fact>) {
    forall clause, i: nat :: StatedAt(r, formula, raw, text, clause, i) ==> Bound(r, raw, Beginning(clause, i), question, facts)
  }

  lemma NumberIsNoDate(r: Reader, formula: Formula, raw: string)
    requires Scans(r, formula) && r.number(raw).Some?
    ensures !r.isDate(raw) && !r.isDateTime(raw)
  {
    assert r.number(raw) == DecimalToken(raw);
    if IsDateText(raw) || IsDateTimeText(raw) { DateIsNoNumber(raw); }
  }

  /** A number that some segment of its claim states must be bound in each clause that states it, up to the
      segment. A number that no segment states is only bound to the whole claim, and a label of any clause
      of it will do. */
  lemma NumberIsBound(r: Reader, formula: Formula, raw: string, text: string, question: string, facts: seq<Fact>)
    requires Scans(r, formula) && r.number(raw).Some?
    ensures ValueJustified(r, raw, text, question, facts)
       <==> if IsStated(r, formula, raw, text) then BoundWhereStated(r, formula, raw, text, question, facts)
            else Bound(r, raw, text, question, facts)
  {
    NumberIsNoDate(r, formula, raw);
    BoundIsJustified(r, raw, text, question, facts);
    StatedIffContext(r, formula, raw, text);
    if IsStated(r, formula, raw, text) {
      EachStatedIsJustified(r, formula, raw, text, question, facts);
    } else {
      assert IsCheckedIn(r, raw, text, text);
    }
  }

  lemma StatedIffContext(r: Reader, formula: Formula, raw: string, text: string)
    requires ReadsNumbers(r, formula)
    ensures IsStated(r, formula, raw, text) <==> HasContext(r, raw, text)
  {
    if clause, i: nat :| StatedAt(r, formula, raw, text, clause, i) {
      StatedIsContext(r, formula, raw, text, clause, i);
    }
    if context :| IsContext(r, raw, text, context) {
      var clause, i := ContextIsStated(r, formula, raw, text, context);
    }
  }

  lemma EachStatedIsJustified(r: Reader, formula: Formula, raw: string, text: string, question: string, facts: seq<Fact>)
    requires ReadsNumbers(r, formula) && HasContext(r, raw, text) && !r.isDate(raw) && !r.isDateTime(raw)
    ensures ValueJustified(r, raw, text, question, facts) <==> BoundWhereStated(r, formula, raw, text, question, facts)
  {
    if ValueJustified(r, raw, text, question, facts) {
      forall clause, i: nat | StatedAt(r, formula, raw, text, clause, i)
        ensures Bound(r, raw, Beginning(clause, i), question, facts)
      {
        StatedIsContext(r, formula, raw, text, clause, i);
        assert IsCheckedIn(r, raw, text, Beginning(clause, i));
        BoundIsJustified(r, raw, Beginning(clause, i), question, facts);
      }
    }
    if BoundWhereStated(r, formula, raw, text, question, facts) {
      forall context | IsCheckedIn(r, raw, text, context) ensures Justified(r, raw, context, question, facts) {
        var clause, i := ContextIsStated(r, formula, raw, text, context);
        BoundIsJustified(r, raw, context, question, facts);
      }
    }
  }

  // ----- dates

  ghost predicate SomeFactIsAt(temporal: string, facts: seq<Fact>) {
    exists f :: f in facts && f.temporal == temporal
  }

  /** The question states the date, and so does each context. */
  ghost predicate QuestionDates(r: Reader, raw: string, text: string, question: string) {
    && r.isDate(raw) && r.temporal(raw) in r.dates(question)
    && forall context :: IsCheckedIn(r, raw, text, context) ==> r.temporal(raw) in r.dates(context)
  }

  lemma DateInContext(r: Reader, formula: Formula, raw: string, context: string, question: string, facts: seq<Fact>)
    requires Scans(r, formula) && (r.isDate(raw) || r.isDateTime(raw))
    ensures Justified(r, raw, context, question, facts)
       <==> || SomeFactIsAt(r.temporal(raw), facts)
            || (r.isDate(raw) && r.temporal(raw) in r.dates(question) && r.temporal(raw) in r.dates(context))
  {
    DateIsNoNumber(raw);
    assert r.number(raw) == DecimalToken(raw);
    UnreadDate(r, raw, context, question, facts);
  }

  lemma UnreadDate(r: Reader, raw: string, context: string, question: string, facts: seq<Fact>)
    requires r.number(raw).None? && (r.isDate(raw) || r.isDateTime(raw))
    ensures Justified(r, raw, context, question, facts)
       <==> || SomeFactIsAt(r.temporal(raw), facts)
            || (r.isDate(raw) && r.temporal(raw) in r.dates(question) && r.temporal(raw) in r.dates(context))
  {
    forall f | f in facts ensures FactBacks(r, f, raw, context, facts) <==> f.temporal == r.temporal(raw) {}
  }

  lemma SomethingIsChecked(r: Reader, raw: string, text: string) returns (context: string)
    ensures IsCheckedIn(r, raw, text, context)
  {
    if HasContext(r, raw, text) {
      context :| IsContext(r, raw, text, context);
    } else {
      context := text;
    }
  }

  /** A date or time needs no label: it passes exactly when some fact, whatever its label, has the same
      normalized time, or when the question states the date and every context holds it. */
  lemma DateNeedsNoLabel(r: Reader, formula: Formula, raw: string, text: string, question: string, facts: seq<Fact>)
    requires Scans(r, formula) && (r.isDate(raw) || r.isDateTime(raw))
    ensures ValueJustified(r, raw, text, question, facts)
       <==> SomeFactIsAt(r.temporal(raw), facts) || QuestionDates(r, raw, text, question)
  {
    forall context
      ensures Justified(r, raw, context, question, facts)
         <==> || SomeFactIsAt(r.temporal(raw), facts)
              || (r.isDate(raw) && r.temporal(raw) in r.dates(question) && r.temporal(raw) in r.dates(context))
    {
      DateInContext(r, formula, raw, context, question, facts);
    }
    var some := SomethingIsChecked(r, raw, text);
  }
}
