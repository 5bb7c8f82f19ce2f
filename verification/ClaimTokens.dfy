/**
 The tokens that claims are checked for: `extract_numeric_tokens` of
 `answer_claims.py` takes dates, times and the numbers that touch neither.
 */
module ClaimTokens {
  import opened Basics
  import opened Text
  import opened NumberScanner
  import opened ClaimNumbers

  // ----- dates and times

  /** Where the date that starts at `i` ends, or -1: a year of four digits, month and day of one or two,
      with no digit before or behind. */
  function DateEndAt(text: string, i: nat): (end: int)
    requires i <= |text|
    ensures end == -1 || i + 8 <= end <= |text|
  {
    if i > 0 && IsDigit(text[i - 1]) then -1
    else
      var year := DigitRun(text, i, 4, 4);
      if year < 0 || year >= |text| || !IsDateSeparator(text[year]) then -1
      else
        var month := DigitRun(text, year + 1, 1, 2);
        if month < 0 || month >= |text| || !IsDateSeparator(text[month]) then -1
        else
          var day := DigitRun(text, month + 1, 1, 2);
          if day < 0 || (day < |text| && IsDigit(text[day])) then -1 else day
  }

  /** The dates from `cursor` on. */
  function Dates(text: string, cursor: nat): (spans: seq<Span>)
    requires cursor <= |text|
    ensures forall s :: s in spans ==> cursor <= s.start < s.end <= |text| && DateEndAt(text, s.start) == s.end
    decreases |text| - cursor
  {
    if cursor == |text| then []
    else if DateEndAt(text, cursor) >= 0 then
      [Span(cursor, DateEndAt(text, cursor))] + Dates(text, DateEndAt(text, cursor))
    else Dates(text, cursor + 1)
  }

  /** The optional `:ss` and its fraction, behind the minutes. */
  function SecondsEnd(text: string, i: nat): (end: int)
    requires i <= |text|
    ensures end == -1 || i <= end <= |text|
  {
    if i < |text| && text[i] == ':' then
      var second := DigitRun(text, i + 1, 2, 2);
      if second >= 0 && second < |text| && text[second] == '.' then DigitRun(text, second + 1, 1, 6) else second
    else i
  }

  /** The optional time zone: `Z`, or a sign with hours and minutes. */
  function ZoneEnd(text: string, i: nat): (end: int)
    requires i <= |text|
    ensures end == -1 || i <= end <= |text|
  {
    if i < |text| && text[i] == 'Z' then i + 1
    else if i < |text| && IsSign(text[i]) then
      var hours := DigitRun(text, i + 1, 2, 2);
      if hours < 0 then -1
      else DigitRun(text, if hours < |text| && text[hours] == ':' then hours + 1 else hours, 2, 2)
    else i
  }

  /** Where the time behind the date that ends at `i` ends, or -1. */
  function TimeEnd(text: string, i: nat): (end: int)
    requires i <= |text|
    ensures end == -1 || i < end <= |text|
  {
    if i >= |text| || (text[i] != ' ' && text[i] != 'T') then -1
    else
      var hour := DigitRun(text, i + 1, 1, 2);
      if hour < 0 || hour >= |text| || text[hour] != ':' then -1
      else
        var minute := DigitRun(text, hour + 1, 2, 2);
        if minute < 0 then -1
        else
          var second := SecondsEnd(text, minute);
          if second < 0 then -1
          else
            var zone := ZoneEnd(text, second);
            if zone < 0 || (zone < |text| && IsDigit(text[zone])) then -1 else zone
  }

  /** The dates among `dates` that a time follows, each with its time. */
  function WithTime(text: string, dates: seq<Span>): (spans: seq<Span>)
    requires forall s :: s in dates ==> s.start < s.end <= |text|
    ensures forall s :: s in spans ==> s.start < s.end <= |text|
  {
    if dates == [] then []
    else
      var end := TimeEnd(text, dates[0].end);
      (if end >= 0 then [Span(dates[0].start, end)] else []) + WithTime(text, dates[1..])
  }

  function DateTimes(text: string): (spans: seq<Span>)
    ensures forall s :: s in spans ==> s.start < s.end <= |text|
  {
    WithTime(text, Dates(text, 0))
  }

  // ----- what is extracted

  /** span_overlaps */
  predicate Overlaps(s: Span, others: seq<Span>) {
    exists o :: o in others && s.start < o.end && o.start < s.end
  }

  function Apart(spans: seq<Span>, others: seq<Span>): (r: seq<Span>)
    ensures forall s :: s in r <==> s in spans && !Overlaps(s, others)
  {
    if spans == [] then []
    else (if Overlaps(spans[0], others) then [] else [spans[0]]) + Apart(spans[1..], others)
  }

  /** Times, and the dates that no time touches. */
  function Temporal(text: string): (spans: seq<Span>)
    ensures forall s :: s in spans ==> s.start < s.end <= |text|
  {
    DateTimes(text) + Apart(Dates(text, 0), DateTimes(text))
  }

  /** Which numbers of a text are part of a system formula explanation; of other texts, none. */
  type Formula = (string, Span) -> bool

  function Unignored(formula: Formula, text: string, spans: seq<Span>): (r: seq<Span>)
    ensures forall s :: s in r <==> s in spans && !formula(text, s)
  {
    if spans == [] then []
    else (if formula(text, spans[0]) then [] else [spans[0]]) + Unignored(formula, text, spans[1..])
  }

  /** The numbers that touch no date or time and belong to no formula. */
  function Numbers(formula: Formula, text: string): (spans: seq<Span>)
    ensures forall s :: s in spans ==> s.start < s.end <= |text|
    ensures forall s :: s in spans <==> s in Spans(text, 0) && !Overlaps(s, Temporal(text)) && !formula(text, s)
  {
    Unignored(formula, text, Apart(Spans(text, 0), Temporal(text)))
  }

  function ByStart(s: Span, sorted: seq<Span>): (r: seq<Span>)
    ensures forall x :: x in r <==> x == s || x in sorted
  {
    if sorted == [] then [s]
    else if s.start <= sorted[0].start then [s] + sorted
    else [sorted[0]] + ByStart(s, sorted[1..])
  }

  /** `sorted(values, key=lambda item: item[0])` */
  function SortByStart(spans: seq<Span>): (r: seq<Span>)
    ensures forall x :: x in r <==> x in spans
  {
    if spans == [] then [] else ByStart(spans[0], SortByStart(spans[1..]))
  }

  function Cut(text: string, spans: seq<Span>): (r: seq<string>)
    requires forall s :: s in spans ==> s.start < s.end <= |text|
    ensures |r| == |spans| && forall i :: 0 <= i < |spans| ==> r[i] == text[spans[i].start..spans[i].end]
  {
    seq(|spans|, i requires 0 <= i < |spans| => assert spans[i] in spans; text[spans[i].start..spans[i].end])
  }

  function Extracted(formula: Formula, text: string): (spans: seq<Span>)
    ensures forall s :: s in spans ==> s.start < s.end <= |text|
    ensures forall s :: s in spans <==> s in Temporal(text) || s in Numbers(formula, text)
  {
    SortByStart(Temporal(text) + Numbers(formula, text))
  }

  /** extract_numeric_tokens */
  function Extract(formula: Formula, text: string): seq<string> {
    Dedupe(Cut(text, Extracted(formula, text)))
  }

  method ExtractNumericTokens(formula: Formula, text: string) returns (tokens: seq<string>)
    ensures tokens == Extract(formula, text)
  {
    var dates := DateMatches(text);
    var times := DateTimeMatches(text, dates);
    var temporal := times + Apart(dates, times);
    var numbers := NumberMatches(text);
    var kept := KeepNumbers(formula, text, numbers, temporal);
    tokens := Dedupe(Cut(text, SortByStart(temporal + kept)));
  }

  /** The loop over the numbers. */
  method KeepNumbers(formula: Formula, text: string, numbers: seq<Span>, temporal: seq<Span>) returns (kept: seq<Span>)
    ensures kept == Unignored(formula, text, Apart(numbers, temporal))
  {
    kept := [];
    for i := 0 to |numbers|
      invariant kept == Unignored(formula, text, Apart(numbers[..i], temporal))
    {
      NextKept(formula, text, numbers, i, temporal);
      if Overlaps(numbers[i], temporal) || formula(text, numbers[i]) { continue; }
      kept := kept + [numbers[i]];
    }
    assert numbers[..|numbers|] == numbers;
  }

  lemma {:induction false} ApartConcat(a: seq<Span>, b: seq<Span>, others: seq<Span>)
    ensures Apart(a + b, others) == Apart(a, others) + Apart(b, others)
  {
    if a == [] {
      assert a + b == b;
    } else {
      assert (a + b)[0] == a[0] && (a + b)[1..] == a[1..] + b;
      ApartConcat(a[1..], b, others);
    }
  }

  lemma {:induction false} UnignoredConcat(formula: Formula, text: string, a: seq<Span>, b: seq<Span>)
    ensures Unignored(formula, text, a + b) == Unignored(formula, text, a) + Unignored(formula, text, b)
  {
    if a == [] {
      assert a + b == b;
    } else {
      assert (a + b)[0] == a[0] && (a + b)[1..] == a[1..] + b;
      UnignoredConcat(formula, text, a[1..], b);
    }
  }

  lemma NextKept(formula: Formula, text: string, numbers: seq<Span>, i: nat, temporal: seq<Span>)
    requires i < |numbers|
    ensures Unignored(formula, text, Apart(numbers[..i + 1], temporal)) == Unignored(formula, text, Apart(numbers[..i], temporal))
      + (if Overlaps(numbers[i], temporal) || formula(text, numbers[i]) then [] else [numbers[i]])
  {
    assert numbers[..i + 1] == numbers[..i] + [numbers[i]] && [numbers[i]][1..] == [];
    ApartConcat(numbers[..i], [numbers[i]], temporal);
    UnignoredConcat(formula, text, Apart(numbers[..i], temporal), Apart([numbers[i]], temporal));
  }

  /** _date_matches */
  method DateMatches(text: string) returns (spans: seq<Span>)
    ensures spans == Dates(text, 0)
  {
    spans := [];
    var cursor := 0;
    while cursor < |text|
      invariant 0 <= cursor <= |text|
      invariant Dates(text, 0) == spans + Dates(text, cursor)
    {
      var end := DateEndAt(text, cursor);
      if end < 0 {
        cursor := cursor + 1;
      } else {
        ConcatAssociates(spans, [Span(cursor, end)], Dates(text, end));
        spans := spans + [Span(cursor, end)];
        cursor := end;
      }
    }
  }

  lemma NextWithTime(text: string, dates: seq<Span>, i: nat)
    requires i < |dates| && forall s :: s in dates ==> s.start < s.end <= |text|
    ensures var end := TimeEnd(text, dates[i].end);
            WithTime(text, dates[i..]) == (if end >= 0 then [Span(dates[i].start, end)] else []) + WithTime(text, dates[i + 1..])
  {
    assert dates[i..][0] == dates[i] && dates[i..][1..] == dates[i + 1..];
  }

  /** _datetime_matches */
  method DateTimeMatches(text: string, dates: seq<Span>) returns (spans: seq<Span>)
    requires forall s :: s in dates ==> s.start < s.end <= |text|
    ensures spans == WithTime(text, dates)
  {
    spans := [];
    for i := 0 to |dates|
      invariant WithTime(text, dates) == spans + WithTime(text, dates[i..])
    {
      NextWithTime(text, dates, i);
      var end := TimeEnd(text, dates[i].end);
      var found := if end >= 0 then [Span(dates[i].start, end)] else [];
      ConcatAssociates(spans, found, WithTime(text, dates[i + 1..]));
      spans := spans + found;
    }
  }

  // ----- which digits are extracted

  ghost predicate InSpan(spans: seq<Span>, k: nat) { exists s :: s in spans && s.start <= k < s.end }

  lemma InSpanIsCovered(spans: seq<Span>, k: nat)
    ensures InSpan(spans, k) <==> Covered(spans, k)
  {
    if Covered(spans, k) {
      var i :| 0 <= i < |spans| && spans[i].start <= k < spans[i].end;
      assert spans[i] in spans;
    }
    if InSpan(spans, k) {
      var s :| s in spans && s.start <= k < s.end;
      var i :| 0 <= i < |spans| && spans[i] == s;
    }
  }

  /** Only one number lies over a character. */
  lemma OneSpanOver(text: string, k: nat, s: Span, o: Span)
    requires s in Spans(text, 0) && s.start <= k < s.end && o in Spans(text, 0) && o.start <= k < o.end
    ensures s == o
  {
    var spans := Spans(text, 0);
    var i :| 0 <= i < |spans| && spans[i] == s;
    var j :| 0 <= j < |spans| && spans[j] == o;
  }

  /** No number over the character touches a date, a time or a formula. */
  ghost predicate IsApart(formula: Formula, text: string, k: nat) {
    forall s :: s in Spans(text, 0) && s.start <= k < s.end ==> !Overlaps(s, Temporal(text)) && !formula(text, s)
  }

  /** The number over a character is kept exactly when it is apart. */
  lemma NumberOver(formula: Formula, text: string, k: nat, s: Span)
    requires s in Spans(text, 0) && s.start <= k < s.end
    ensures InSpan(Numbers(formula, text), k) <==> s in Numbers(formula, text)
    ensures IsApart(formula, text, k) <==> s in Numbers(formula, text)
  {
    forall o | o in Spans(text, 0) && o.start <= k < o.end ensures o == s { OneSpanOver(text, k, s, o); }
  }

  lemma DigitsOfNumbers(formula: Formula, text: string, k: nat)
    requires k < |text| && IsDigit(text[k])
    ensures InSpan(Numbers(formula, text), k) <==> !Glued(text, k) && IsApart(formula, text, k)
  {
    DigitsFound(text, k);
    InSpanIsCovered(Spans(text, 0), k);
    if InSpan(Spans(text, 0), k) {
      var s :| s in Spans(text, 0) && s.start <= k < s.end;
      NumberOver(formula, text, k, s);
    }
  }

  lemma InEither(all: seq<Span>, some: seq<Span>, others: seq<Span>, k: nat)
    requires forall s :: s in all <==> s in some || s in others
    ensures InSpan(all, k) <==> InSpan(some, k) || InSpan(others, k)
  {
  }

  /** A digit of a text reaches a claim exactly when it lies in a date or time, or in a number, its run not
      glued to a letter or underscore, and that number touches no date or time and no formula. */
  lemma DigitsExtracted(formula: Formula, text: string, k: nat)
    requires k < |text| && IsDigit(text[k])
    ensures InSpan(Extracted(formula, text), k)
       <==> InSpan(Temporal(text), k) || (!Glued(text, k) && IsApart(formula, text, k))
  {
    DigitsOfNumbers(formula, text, k);
    InEither(Extracted(formula, text), Temporal(text), Numbers(formula, text), k);
  }

  /** `t` is what one of the spans cuts out. */
  ghost predicate IsCutOut(text: string, spans: seq<Span>, t: string) {
    exists s :: s in spans && s.start < s.end <= |text| && t == text[s.start..s.end]
  }

  lemma CutHolds(text: string, spans: seq<Span>, t: string)
    requires forall s :: s in spans ==> s.start < s.end <= |text|
    ensures t in Cut(text, spans) <==> IsCutOut(text, spans, t)
  {
    var cut := Cut(text, spans);
    if t in cut {
      var i :| 0 <= i < |cut| && cut[i] == t;
      assert spans[i] in spans;
    }
    if IsCutOut(text, spans, t) {
      var s :| s in spans && s.start < s.end <= |text| && t == text[s.start..s.end];
      var i :| 0 <= i < |spans| && spans[i] == s;
      assert cut[i] == t;
    }
  }

  /** The extracted tokens are the texts of the extracted spans. */
  lemma ExtractHolds(formula: Formula, text: string, t: string)
    ensures t in Extract(formula, text) <==> IsCutOut(text, Extracted(formula, text), t)
  {
    CutHolds(text, Extracted(formula, text), t);
  }

  lemma TokensAreCutOut(text: string, t: string)
    ensures t in Tokens(text) <==> IsCutOut(text, Spans(text, 0), t)
  {
    TokensAreSpans(text, 0);
    var spans := Spans(text, 0);
    if t in Tokens(text) {
      var i :| 0 <= i < |Tokens(text)| && Tokens(text)[i] == t;
      assert spans[i] in spans;
    }
    if IsCutOut(text, spans, t) {
      var s :| s in spans && s.start < s.end <= |text| && t == text[s.start..s.end];
      var i :| 0 <= i < |spans| && spans[i] == s;
      assert Tokens(text)[i] == t;
    }
  }

  ghost predicate IsDateFree(text: string) { Dates(text, 0) == [] }

  lemma SameCutOut(text: string, a: seq<Span>, b: seq<Span>, t: string)
    requires forall s :: s in a <==> s in b
    ensures IsCutOut(text, a, t) <==> IsCutOut(text, b, t)
  {
  }

  /** In a text without dates and formulas, all numbers are extracted. */
  lemma DateFreeTokens(formula: Formula, text: string, t: string)
    requires IsDateFree(text) && forall s :: !formula(text, s)
    ensures t in Extract(formula, text) <==> t in Tokens(text)
  {
    NoTemporal(text);
    ExtractHolds(formula, text, t);
    TokensAreCutOut(text, t);
    SameCutOut(text, Extracted(formula, text), Spans(text, 0), t);
  }

  lemma NoTemporal(text: string)
    requires IsDateFree(text)
    ensures Temporal(text) == []
  {
    assert WithTime(text, []) == [] && Apart([], []) == [];
  }
}
