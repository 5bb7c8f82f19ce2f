/**
 The rules by which the claim verifier accepts a number, each spelled out: which
 value, which label, which part of the claim, which question, which overlap of
 spans and which form of a time.
 */
module ClaimRules {
  import opened Basics
  import opened Text
  import opened NumberScanner
  import opened ClaimNumbers
  import opened ClaimTokens
  import opened ClaimVerifier

  // ----- the value

  /** Within half a cent, or within a millionth of the second. */
  predicate IsNear(x: real, y: real) {
    (-0.005 <= x - y <= 0.005) || (x - y <= Abs(y) / 1000000.0 && y - x <= Abs(y) / 1000000.0)
  }

  ghost predicate IsPercentText(raw: string) { exists front :: raw == front + "%" }

  lemma EndsInPercent(raw: string)
    ensures IsPercentText(raw) <==> raw != "" && raw[|raw| - 1] == '%'
  {
    if raw != "" && raw[|raw| - 1] == '%' { assert raw == raw[..|raw| - 1] + "%"; }
  }

  /** A fact has the value that is written: near to it or, written in percent, near to the hundredfold of a value
      between -1 and 1. */
  lemma ValueExactly(r: Reader, raw: string, f: Fact)
    ensures HasValue(r, raw, f) <==>
              && r.number(raw).Some? && f.value.Some?
              && (|| IsNear(r.number(raw).value, f.value.value)
                  || (IsPercentText(raw) && -1.0 <= f.value.value <= 1.0 && IsNear(r.number(raw).value, f.value.value * 100.0)))
  {
    EndsInPercent(raw);
    if r.number(raw).Some? && f.value.Some? {
      ClosenessExactly(r.number(raw).value, f.value.value);
      ClosenessExactly(r.number(raw).value, f.value.value * 100.0);
    }
  }

  // ----- the label

  /** Some label of the fact is in the text, both normalised. */
  ghost predicate IsLabelled(f: Fact, text: string) {
    exists l :: l in LabelsOf(f) && exists i :: 0 <= i <= |NormalLabel(text)| && l <= NormalLabel(text)[i..]
  }

  lemma LabelsAreNotBlank(f: Fact)
    ensures forall l :: l in LabelsOf(f) ==> l != ""
  {
    forall l | l in LabelsOf(f) ensures l != "" { LabelsExactly(f, l); }
  }

  lemma LabelledExactly(f: Fact, text: string)
    ensures LabelOccurs(LabelsOf(f), text) <==> IsLabelled(f, text)
  {
    LabelsAreNotBlank(f);
  }

  /** Just one of the facts has this value. */
  ghost predicate IsOnlyOne(facts: seq<Fact>, value: Option<real>) {
    value.Some? && exists i :: HoldsOnly(facts, i, value)
  }

  ghost predicate HoldsOnly(facts: seq<Fact>, i: int, value: Option<real>) {
    0 <= i < |facts| && facts[i].value == value && forall j :: 0 <= j < |facts| && facts[j].value == value ==> j == i
  }

  lemma {:induction false} NoHolder(facts: seq<Fact>, value: Option<real>)
    ensures WithValue(facts, value) == [] <==> value.None? || forall f :: f in facts ==> f.value != value
  {
    if facts != [] {
      NoHolder(facts[1..], value);
      assert facts == [facts[0]] + facts[1..];
    }
  }

  lemma {:induction false} OneHolder(facts: seq<Fact>, value: Option<real>)
    ensures |WithValue(facts, value)| == 1 <==> IsOnlyOne(facts, value)
  {
    if facts != [] {
      var rest := facts[1..];
      OneHolder(rest, value);
      NoHolder(rest, value);
      if facts[0].value.Some? && facts[0].value == value {
        FirstHolds(facts, value);
      } else {
        FirstHoldsNot(facts, value);
      }
    }
  }

  lemma FirstHolds(facts: seq<Fact>, value: Option<real>)
    requires facts != [] && value.Some? && facts[0].value == value
    ensures IsOnlyOne(facts, value) <==> forall f :: f in facts[1..] ==> f.value != value
  {
    if IsOnlyOne(facts, value) {
      var i :| HoldsOnly(facts, i, value);
      forall f | f in facts[1..] ensures f.value != value {
        var j :| 0 <= j < |facts[1..]| && facts[1..][j] == f;
        assert facts[j + 1] == f;
      }
    }
    if forall f :: f in facts[1..] ==> f.value != value {
      forall j | 0 < j < |facts| ensures facts[j].value != value { assert facts[1..][j - 1] == facts[j]; }
      assert HoldsOnly(facts, 0, value);
    }
  }

  lemma FirstHoldsNot(facts: seq<Fact>, value: Option<real>)
    requires facts != [] && (value.None? || facts[0].value != value)
    ensures IsOnlyOne(facts, value) <==> IsOnlyOne(facts[1..], value)
  {
    var rest := facts[1..];
    assert forall j :: 0 <= j < |rest| ==> rest[j] == facts[j + 1];
    if IsOnlyOne(facts, value) {
      var i :| HoldsOnly(facts, i, value);
      assert HoldsOnly(rest, i - 1, value);
    }
    if IsOnlyOne(rest, value) {
      var i :| HoldsOnly(rest, i, value);
      forall j | 0 <= j < |facts| && facts[j].value == value ensures j == i + 1 { assert rest[j - 1] == facts[j]; }
      assert HoldsOnly(facts, i + 1, value);
    }
  }

  /** The text holds the name, which is no label of the fact. */
  predicate IsForeignName(f: Fact, name: string, text: string) {
    && name != "" && Contains(NormalLabel(text), NormalLabel(name))
    && forall l :: l in LabelsOf(f) ==> NormalLabel(l) != NormalLabel(name)
  }

  lemma CompetesExactly(f: Fact, name: string, text: string)
    ensures Competes(text, LabelsOf(f), name) <==> IsForeignName(f, name, text)
  {
    var labels := LabelsOf(f);
    if NormalLabel(name) in NormalLabels(labels) {
      var i :| 0 <= i < |labels| && NormalLabels(labels)[i] == NormalLabel(name);
      assert labels[i] in labels;
    }
    forall l | l in labels && NormalLabel(l) == NormalLabel(name) ensures NormalLabel(name) in NormalLabels(labels) {
      var i :| 0 <= i < |labels| && labels[i] == l;
      assert NormalLabels(labels)[i] == NormalLabel(name);
    }
  }

  /** A fact may vouch for its value in a text that bears one of its labels. Without a label it may in a text that
      claims no direct value, when no other fact has the value and the text holds the label and the column of no
      fact beside its own. */
  lemma NamedExactly(r: Reader, f: Fact, text: string, facts: seq<Fact>)
    ensures Names(r, f, text, facts) <==>
              || IsLabelled(f, text)
              || (&& !r.assertsDirectValue(text) && IsOnlyOne(facts, f.value)
                  && forall g :: g in facts ==> !IsForeignName(f, g.labelText, text) && !IsForeignName(f, g.column, text))
  {
    LabelledExactly(f, text);
    OneHolder(facts, f.value);
    forall g | g in facts
      ensures Competes(text, LabelsOf(f), g.labelText) <==> IsForeignName(f, g.labelText, text)
      ensures Competes(text, LabelsOf(f), g.column) <==> IsForeignName(f, g.column, text)
    {
      CompetesExactly(f, g.labelText, text);
      CompetesExactly(f, g.column, text);
    }
  }

  // ----- the question and the derived numbers

  /** The question vouches for a date that it and the text both name, and for a number that it names and that only
      gives context wherever it stands in the text. */
  lemma QuestionExactly(r: Reader, raw: string, text: string, question: string)
    ensures QuestionBacks(r, raw, text, question) <==>
              || (r.isDate(raw) && r.temporal(raw) in r.dates(question) * r.dates(text))
              || (r.isContextual(raw, text) && exists x :: x in r.contextualNumbers(question) && r.number(raw) == Some(x))
  {
    if r.number(raw).Some? && r.number(raw).value in r.contextualNumbers(question) {
      var x := r.number(raw).value;
      assert x in r.contextualNumbers(question) && r.number(raw) == Some(x);
    }
  }

  /** A derived number vouches for a number near to it below one of its labels; for a direct value a total only. */
  lemma DerivedExactly(r: Reader, d: Derived, raw: string, text: string)
    ensures DerivedBacks(r, d, raw, text) <==>
              && (exists x :: r.number(raw) == Some(x) && IsNear(x, d.number))
              && (exists l :: l in d.labels && l != "" && Contains(NormalLabel(text), l))
              && (d.kind == PeriodRollup || !r.assertsDirectValue(text))
  {
    if r.number(raw).Some? { ClosenessExactly(r.number(raw).value, d.number); }
  }

  /** Dates and times are the same when they mean the same time, numbers when they are near. */
  lemma SameNumberExactly(r: Reader, raw: string, token: string)
    ensures r.isDate(raw) || r.isDateTime(raw) ==> (SameNumber(r, raw, token) <==> r.temporal(raw) == r.temporal(token))
    ensures !r.isDate(raw) && !r.isDateTime(raw) ==>
              (SameNumber(r, raw, token) <==> exists x, y :: r.number(raw) == Some(x) && r.number(token) == Some(y) && IsNear(x, y))
  {
    if r.number(raw).Some? && r.number(token).Some? { ClosenessExactly(r.number(raw).value, r.number(token).value); }
  }

  /** A date or time is vouched for by the time of a fact, a number by its value and a label. */
  lemma FactExactly(r: Reader, f: Fact, raw: string, text: string, facts: seq<Fact>)
    ensures r.isDate(raw) || r.isDateTime(raw) ==> (FactBacks(r, f, raw, text, facts) <==> f.temporal == r.temporal(raw))
    ensures !r.isDate(raw) && !r.isDateTime(raw) ==>
              (FactBacks(r, f, raw, text, facts) <==> HasValue(r, raw, f) && Names(r, f, text, facts))
  {
  }

  /** An entity is known, or a fact has it as its value, whatever its case and the blanks around it. */
  lemma EntityExactly(raw: string, facts: seq<Fact>, entities: set<string>)
    ensures EntityJustified(raw, facts, entities) <==> Lower(Strip(raw)) in entities + set f | f in facts :: f.entity
  {
  }

  // ----- the context

  lemma {:induction false} JoinOneMore(pieces: seq<string>, last: string, separator: string)
    requires pieces != []
    ensures Join(pieces + [last], separator) == Join(pieces, separator) + separator + last
  {
    var all := pieces + [last];
    if |pieces| == 1 {
      assert all == [pieces[0], last] && all[1..] == [last];
    } else {
      JoinOneMore(pieces[1..], last, separator);
      assert all[1..] == pieces[1..] + [last];
    }
  }

  /** A number is checked in its segment and all segments of the clause before it, a comma between any two. */
  lemma ContextGrows(clause: string, i: nat)
    requires i < |Clauses(clause, SEGMENT_ENDS)|
    ensures Beginning(clause, 0) == Clauses(clause, "，,")[0]
    ensures i > 0 ==> Beginning(clause, i) == Beginning(clause, i - 1) + "，" + Clauses(clause, "，,")[i]
  {
    var segments := Clauses(clause, SEGMENT_ENDS);
    assert segments[..1] == [segments[0]];
    if i > 0 {
      assert segments[..i + 1] == segments[..i] + [segments[i]];
      JoinOneMore(segments[..i], segments[i], "，");
    }
  }

  /** A claim is cut at these nine characters, a clause at two. */
  lemma CutCharacters(c: char)
    ensures c in CLAUSE_ENDS <==> c == '；' || c == ';' || c == '。' || c == '.' || c == '!' || c == '！' || c == '?' || c == '？' || c == '\n'
    ensures c in SEGMENT_ENDS <==> c == '，' || c == ','
  {
  }

  // ----- spans and times

  ghost predicate BothHold(s: Span, o: Span, k: nat) { s.start <= k < s.end && o.start <= k < o.end }

  /** A number is left out exactly when it shares a character with a date or time. */
  lemma OverlapExactly(s: Span, others: seq<Span>)
    requires s.start < s.end && forall o :: o in others ==> o.start < o.end
    ensures Overlaps(s, others) <==> exists o, k: nat :: o in others && BothHold(s, o, k)
  {
    if Overlaps(s, others) {
      var o :| o in others && s.start < o.end && o.start < s.end;
      assert BothHold(s, o, if s.start < o.start then o.start else s.start);
    }
  }

  /** `to - from` digits, between `least` and `most`, and no further one unless that is the most. */
  predicate AreDigits(text: string, from: int, to: int, least: nat, most: nat) {
    && 0 <= from <= to <= |text| && least <= to - from <= most
    && (forall k :: from <= k < to ==> IsDigit(text[k]))
    && (to < |text| && IsDigit(text[to]) ==> to - from == most)
  }

  lemma RunExactly(text: string, start: nat, least: nat, most: nat, end: int)
    requires start <= |text| && end >= 0
    ensures DigitRun(text, start, least, most) == end <==> AreDigits(text, start, end, least, most)
  {
    var full := DigitEnd(text, start);
    assert full < |text| ==> !IsDigit(text[full]);
  }

  /** No seconds, or a colon and two digits, or those with a point and one to six digits. */
  ghost predicate AreSeconds(text: string, from: int, to: int) {
    || (!IsAt(text, from, ':') && to == from)
    || (IsAt(text, from, ':') && AreDigits(text, from + 1, from + 3, 2, 2)
        && (|| (!IsAt(text, from + 3, '.') && to == from + 3)
            || (IsAt(text, from + 3, '.') && AreDigits(text, from + 4, to, 1, 6))))
  }

  /** No zone, or a Z, or a sign with two digits and two more, a colon between them or not. */
  ghost predicate IsZone(text: string, from: int, to: int) {
    || (IsAt(text, from, 'Z') && to == from + 1)
    || ((IsAt(text, from, '+') || IsAt(text, from, '-')) && AreDigits(text, from + 1, from + 3, 2, 2)
        && var minutes := if IsAt(text, from + 3, ':') then from + 4 else from + 3; AreDigits(text, minutes, to, 2, 2))
    || (!IsAt(text, from, 'Z') && !IsAt(text, from, '+') && !IsAt(text, from, '-') && to == from)
  }

  /** A blank or a T, one or two digits, a colon, two digits, seconds and a zone. */
  ghost predicate IsTime(text: string, i: int, hour: int, second: int, to: int) {
    && (IsAt(text, i, ' ') || IsAt(text, i, 'T'))
    && AreDigits(text, i + 1, hour, 1, 2) && IsAt(text, hour, ':')
    && AreDigits(text, hour + 1, hour + 3, 2, 2)
    && AreSeconds(text, hour + 3, second) && IsZone(text, second, to)
    && !(to < |text| && IsDigit(text[to]))
  }

  lemma SecondsExactly(text: string, i: nat, end: int)
    requires i <= |text| && end >= 0
    ensures SecondsEnd(text, i) == end <==> AreSeconds(text, i, end)
  {
    if IsAt(text, i, ':') {
      RunExactly(text, i + 1, 2, 2, i + 3);
      var second := DigitRun(text, i + 1, 2, 2);
      if second >= 0 {
        assert second == i + 3;
        if IsAt(text, second, '.') { RunExactly(text, second + 1, 1, 6, end); }
      }
    }
  }

  lemma ZoneExactly(text: string, i: nat, end: int)
    requires i <= |text| && end >= 0
    ensures ZoneEnd(text, i) == end <==> IsZone(text, i, end)
  {
    if !IsAt(text, i, 'Z') && i < |text| && IsSign(text[i]) {
      RunExactly(text, i + 1, 2, 2, i + 3);
      var hours := DigitRun(text, i + 1, 2, 2);
      if hours >= 0 {
        assert hours == i + 3;
        RunExactly(text, if IsAt(text, hours, ':') then hours + 1 else hours, 2, 2, end);
      }
    }
  }

  /** What is read as a time behind a date is exactly this. */
  lemma TimeExactly(text: string, i: nat, end: nat)
    requires i <= |text|
    ensures TimeEnd(text, i) == end <==> exists hour: nat, second: nat :: IsTime(text, i, hour, second, end)
  {
    forall hour: nat, second: nat | IsTime(text, i, hour, second, end) ensures TimeEnd(text, i) == end {
      TimeIsRead(text, i, hour, second, end);
    }
    if TimeEnd(text, i) == end {
      var hour, second := ReadTime(text, i);
      assert IsTime(text, i, hour, second, end);
    }
  }

  lemma TimeIsRead(text: string, i: nat, hour: nat, second: nat, end: nat)
    requires i <= |text| && IsTime(text, i, hour, second, end)
    ensures TimeEnd(text, i) == end
  {
    HourIsFound(text, i, hour);
    SecondsExactly(text, hour + 3, second);
    SecondsEndInside(text, hour + 3, second);
    ZoneExactly(text, second, end);
    TimeOfStages(text, i, hour, second, end);
  }

  lemma HourIsFound(text: string, i: nat, hour: nat)
    requires i < |text| && AreDigits(text, i + 1, hour, 1, 2) && AreDigits(text, hour + 1, hour + 3, 2, 2)
    ensures DigitRun(text, i + 1, 1, 2) == hour && DigitRun(text, hour + 1, 2, 2) == hour + 3
  {
    RunExactly(text, i + 1, 1, 2, hour);
    RunExactly(text, hour + 1, 2, 2, hour + 3);
  }

  lemma SecondsEndInside(text: string, i: nat, second: nat)
    requires i <= |text| && AreSeconds(text, i, second)
    ensures second <= |text|
  {
  }

  lemma TimeOfStages(text: string, i: nat, hour: nat, second: nat, end: nat)
    requires IsAt(text, i, ' ') || IsAt(text, i, 'T')
    requires DigitRun(text, i + 1, 1, 2) == hour && IsAt(text, hour, ':') && DigitRun(text, hour + 1, 2, 2) == hour + 3
    requires hour + 3 <= |text| && SecondsEnd(text, hour + 3) == second && second <= |text| && ZoneEnd(text, second) == end
    requires !(end < |text| && IsDigit(text[end]))
    ensures TimeEnd(text, i) == end
  {
  }

  lemma TimeStages(text: string, i: nat) returns (hour: int, minute: int, second: int)
    requires i <= |text| && TimeEnd(text, i) >= 0
    ensures IsAt(text, i, ' ') || IsAt(text, i, 'T')
    ensures 0 <= hour < |text| && hour == DigitRun(text, i + 1, 1, 2) && IsAt(text, hour, ':')
    ensures 0 <= minute <= |text| && minute == DigitRun(text, hour + 1, 2, 2)
    ensures 0 <= second <= |text| && second == SecondsEnd(text, minute)
    ensures TimeEnd(text, i) == ZoneEnd(text, second) && !(TimeEnd(text, i) < |text| && IsDigit(text[TimeEnd(text, i)]))
  {
    hour := DigitRun(text, i + 1, 1, 2);
    minute := DigitRun(text, hour + 1, 2, 2);
    second := SecondsEnd(text, minute);
  }

  lemma ReadTime(text: string, i: nat) returns (hour: nat, second: nat)
    requires i <= |text| && TimeEnd(text, i) >= 0
    ensures IsTime(text, i, hour, second, TimeEnd(text, i))
  {
    var h, minute, s := TimeStages(text, i);
    hour, second := h, s;
    HourIsRead(text, i, hour, minute);
    SecondsExactly(text, minute, second);
    ZoneExactly(text, second, TimeEnd(text, i));
  }

  lemma HourIsRead(text: string, i: nat, hour: nat, minute: int)
    requires i < |text| && hour < |text| && hour == DigitRun(text, i + 1, 1, 2)
    requires 0 <= minute <= |text| && minute == DigitRun(text, hour + 1, 2, 2)
    ensures AreDigits(text, i + 1, hour, 1, 2) && minute == hour + 3 && AreDigits(text, hour + 1, hour + 3, 2, 2)
  {
    RunExactly(text, i + 1, 1, 2, hour);
    RunExactly(text, hour + 1, 2, 2, minute);
  }

  // ----- the tokens of a text

  /** Dates with a time count as such, and dates that share no character with one as dates. */
  lemma TemporalExactly(text: string, s: Span)
    ensures s in Temporal(text) <==> s in DateTimes(text) || (s in Dates(text, 0) && !Overlaps(s, DateTimes(text)))
  {
  }

  ghost predicate AreInOrder(spans: seq<Span>) {
    forall i, j :: 0 <= i < j < |spans| ==> spans[i].start <= spans[j].start
  }

  lemma {:induction false} PlacedKeepsAll(s: Span, sorted: seq<Span>)
    ensures multiset(ByStart(s, sorted)) == multiset(sorted) + multiset{s}
  {
    if sorted != [] {
      PlacedKeepsAll(s, sorted[1..]);
      assert sorted == [sorted[0]] + sorted[1..];
    }
  }

  lemma InFrontInOrder(first: Span, rest: seq<Span>)
    requires AreInOrder(rest) && forall x :: x in rest ==> first.start <= x.start
    ensures AreInOrder([first] + rest)
  {
    var all := [first] + rest;
    forall i, j | 0 <= i < j < |all| ensures all[i].start <= all[j].start {
      assert all[j] == rest[j - 1];
      if i > 0 { assert all[i] == rest[i - 1]; }
    }
  }

  lemma {:induction false} PlacedInOrder(s: Span, sorted: seq<Span>)
    requires AreInOrder(sorted)
    ensures AreInOrder(ByStart(s, sorted))
  {
    if sorted != [] {
      forall x | x in sorted ensures sorted[0].start <= x.start { var i :| 0 <= i < |sorted| && sorted[i] == x; }
      if s.start <= sorted[0].start {
        InFrontInOrder(s, sorted);
      } else {
        PlacedInOrder(s, sorted[1..]);
        InFrontInOrder(sorted[0], ByStart(s, sorted[1..]));
      }
    }
  }

  lemma {:induction false} SortedInOrder(spans: seq<Span>)
    ensures AreInOrder(SortByStart(spans)) && multiset(SortByStart(spans)) == multiset(spans)
  {
    if spans != [] {
      SortedInOrder(spans[1..]);
      PlacedInOrder(spans[0], SortByStart(spans[1..]));
      PlacedKeepsAll(spans[0], SortByStart(spans[1..]));
      assert spans == [spans[0]] + spans[1..];
    }
  }

  lemma CutExactly(text: string, spans: seq<Span>, t: string)
    requires forall s :: s in spans ==> s.start < s.end <= |text|
    ensures t in Cut(text, spans) <==> IsCutOut(text, spans, t)
  {
    var cut := Cut(text, spans);
    if t in cut {
      var i :| 0 <= i < |cut| && cut[i] == t;
      assert spans[i] in spans;
    }
    if IsCutOut(text, spans, t) {
      var s :| s in spans && s.start < s.end <= |text| && t == text[s.start..s.end];
      var i :| 0 <= i < |spans| && spans[i] == s;
      assert cut[i] == t;
    }
  }

  lemma TokensAreNotBlank(formula: Formula, text: string)
    ensures "" !in Cut(text, Extracted(formula, text))
  {
    CutExactly(text, Extracted(formula, text), "");
  }

  /** The tokens of a text are its dates, times and numbers in the order in which they start, each once. */
  lemma TokensExactly(formula: Formula, text: string, t: string)
    ensures AreInOrder(Extracted(formula, text))
    ensures multiset(Extracted(formula, text)) == multiset(Temporal(text)) + multiset(Numbers(formula, text))
    ensures t in Extract(formula, text) <==> IsCutOut(text, Temporal(text) + Numbers(formula, text), t)
    ensures forall i, j :: 0 <= i < j < |Extract(formula, text)| ==> Extract(formula, text)[i] != Extract(formula, text)[j]
  {
    SortedInOrder(Temporal(text) + Numbers(formula, text));
    CutExactly(text, Extracted(formula, text), t);
    TokensAreNotBlank(formula, text);
    SameCutOut(text, Extracted(formula, text), Temporal(text) + Numbers(formula, text), t);
  }

  lemma SameCutOut(text: string, a: seq<Span>, b: seq<Span>, t: string)
    requires forall s :: s in a <==> s in b
    ensures IsCutOut(text, a, t) <==> IsCutOut(text, b, t)
  {
  }
}
