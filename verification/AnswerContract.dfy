/**
 The lightweight answer contract of `answer.py`: every metric fact must be found
 in the answer and every number of the answer must be allowed; and the fact-only
 fallback text, which is written to satisfy it.
 */
module AnswerContract {
  import opened Basics
  import opened Text
  import opened NumberScanner
  import opened AnswerText
  import opened NumberText

  /** A metric fact. `valueText` is `str(value or "")`, `number` is `numeric_token_value(value)`;
      `moreNumbers` and `moreFormatted` are its comparison and change fields. */
  datatype MetricFact = MetricFact(
    displayName: string,
    metricKey: string,
    timeRange: string,
    formattedValue: string,
    valueText: string,
    number: Option<real>,
    moreNumbers: seq<real>,
    moreFormatted: seq<string>)

  // ----- the contract

  /** normalize_answer_value_text keeps neither white space nor these. */
  predicate IsKept(c: char) { !IsSpace(c) && c != ',' && c != '，' && c != '元' && c != '%' }

  function Normalize(s: string): string { Filter(IsKept, Lower(Strip(s))) }

  function Values(tokens: seq<string>): seq<real> {
    if tokens == [] then []
    else (if NumericTokenValue(tokens[0]).Some? then [NumericTokenValue(tokens[0]).value] else []) + Values(tokens[1..])
  }

  /** answer_contains_metric_fact_value */
  ghost predicate ContainsFact(answer: string, fact: MetricFact) {
    || (fact.number.Some? && exists item :: item in Values(AnswerTokens(answer)) && FloatClose(fact.number.value, item))
    || (Normalize(fact.formattedValue) != "" && Contains(Normalize(answer), Normalize(fact.formattedValue)))
    || (Normalize(fact.valueText) != "" && Contains(Normalize(answer), Normalize(fact.valueText)))
  }

  function FormattedNumbers(texts: seq<string>): seq<real> {
    if texts == [] then [] else Values(AnswerTokens(texts[0])) + FormattedNumbers(texts[1..])
  }

  /** allowed_answer_numbers; `others` are the numbers of result rows, trend sentence and question. */
  function AllowedNumbers(facts: seq<MetricFact>, others: seq<real>): seq<real> {
    if facts == [] then others
    else
      var f := facts[0];
      (if f.number.Some? then [f.number.value] else []) + f.moreNumbers
        + Values(AnswerTokens(f.formattedValue)) + FormattedNumbers(f.moreFormatted)
        + AllowedNumbers(facts[1..], others)
  }

  /** A token that unsupported_answer_numbers lets pass. */
  predicate IsSupported(raw: string, allowed: seq<real>) {
    var value := NumericTokenValue(raw);
    || value.None?
    || (exists candidate :: candidate in allowed && FloatClose(value.value, candidate))
    || (Abs(value.value) < 10.0 && !(raw != "" && raw[|raw| - 1] == '%') && '.' !in raw)
  }

  /** No number of the text is reported. */
  ghost predicate AllSupported(text: string, allowed: seq<real>) {
    forall raw :: raw in AnswerTokens(text) ==> IsSupported(raw, allowed)
  }

  /** unsupported_answer_numbers: exactly the tokens that are not let pass, each once. */
  method UnsupportedAnswerNumbers(answer: string, allowed: seq<real>) returns (unsupported: seq<string>)
    ensures forall raw :: raw in unsupported <==> raw in AnswerTokens(answer) && !IsSupported(raw, allowed)
    ensures forall i, j :: 0 <= i < j < |unsupported| ==> unsupported[i] != unsupported[j]
    ensures unsupported == [] <==> AllSupported(answer, allowed)
  {
    var scrubbed := ScrubAnswerCalendarDates(answer);
    var tokens := AnswerNumberTokens(scrubbed);
    var rejected := RejectedTokens(tokens, allowed);
    unsupported := Once(rejected);
    assert unsupported != [] ==> unsupported[0] in unsupported;
  }

  function Rejected(tokens: seq<string>, allowed: seq<real>): seq<string> {
    if tokens == [] then []
    else
      var last := tokens[|tokens| - 1];
      Rejected(tokens[..|tokens| - 1], allowed) + (if IsSupported(last, allowed) then [] else [last])
  }

  lemma {:induction false} RejectedHolds(tokens: seq<string>, allowed: seq<real>)
    ensures forall raw :: raw in Rejected(tokens, allowed) <==> raw in tokens && !IsSupported(raw, allowed)
  {
    if tokens != [] {
      RejectedHolds(tokens[..|tokens| - 1], allowed);
      assert tokens == tokens[..|tokens| - 1] + [tokens[|tokens| - 1]];
    }
  }

  method RejectedTokens(tokens: seq<string>, allowed: seq<real>) returns (rejected: seq<string>)
    ensures forall raw :: raw in rejected <==> raw in tokens && !IsSupported(raw, allowed)
  {
    rejected := [];
    for i := 0 to |tokens|
      invariant rejected == Rejected(tokens[..i], allowed)
    {
      assert tokens[..i + 1][..i] == tokens[..i];
      if !IsSupported(tokens[i], allowed) { rejected := rejected + [tokens[i]]; }
    }
    assert tokens[..|tokens|] == tokens;
    RejectedHolds(tokens, allowed);
  }

  /** lightweight_answer_contract_verification passes; it is only run when there are facts. */
  ghost predicate Passes(answer: string, facts: seq<MetricFact>, others: seq<real>) {
    && (forall f :: f in facts ==> ContainsFact(answer, f))
    && AllSupported(answer, AllowedNumbers(facts, others))
  }

  // ----- the fallback text

  const HEADER := "已验证结果："
  const DEFAULT_LABEL := "指标"

  /** The parts a fact is printed from; facts with the same parts share a line. */
  datatype Parts = Parts(title: string, timeRange: string, value: string)

  function PartsOf(f: MetricFact): Parts {
    Parts(Strip(if f.displayName != "" then f.displayName else if f.metricKey != "" then f.metricKey else DEFAULT_LABEL),
          Strip(f.timeRange),
          Strip(if f.formattedValue != "" then f.formattedValue else f.valueText))
  }

  function Subject(p: Parts): string {
    if p.timeRange != "" then p.timeRange + [' '] + p.title else p.title
  }

  function Line(p: Parts): string { "- " + Subject(p) + "：" + p.value }

  /** What is printed, in order: each combination once, none without a value. */
  function Printing(facts: seq<MetricFact>): seq<Parts> {
    if facts == [] then []
    else
      var before, p := Printing(facts[..|facts| - 1]), PartsOf(facts[|facts| - 1]);
      if p.value == "" || p in before then before else before + [p]
  }

  function Lines(parts: seq<Parts>): seq<string> {
    seq(|parts|, i requires 0 <= i < |parts| => Line(parts[i]))
  }

  function FallbackText(facts: seq<MetricFact>): string {
    var lines := Lines(Printing(facts));
    if lines == [] then "" else Join([HEADER] + lines, "\n")
  }

  /** verified_metric_facts_fallback_answer */
  method VerifiedMetricFactsFallback(facts: seq<MetricFact>) returns (text: string)
    ensures text == FallbackText(facts)
  {
    var lines := [HEADER];
    var seen: set<Parts> := {};
    for i := 0 to |facts|
      invariant lines == [HEADER] + Lines(Printing(facts[..i]))
      invariant forall p :: p in seen <==> p in Printing(facts[..i])
    {
      assert facts[..i + 1][..i] == facts[..i];
      var p := PartsOf(facts[i]);
      if p.value == "" || p in seen { continue; }
      seen := seen + {p};
      lines := lines + [Line(p)];
    }
    assert facts[..|facts|] == facts;
    return if |lines| > 1 then Join(lines, "\n") else "";
  }

  // ----- every number in the text comes from a label, a time range or a value

  /** The numbers of one line: those of its time range, its label and its value. */
  function LineTokens(p: Parts): seq<string> {
    AnswerTokens(p.timeRange) + AnswerTokens(p.title) + AnswerTokens(p.value)
  }

  function PrintedTokens(parts: seq<Parts>): seq<string> {
    if parts == [] then [] else LineTokens(parts[0]) + PrintedTokens(parts[1..])
  }

  lemma TokensOfSubject(p: Parts)
    ensures AnswerTokens(Subject(p)) == AnswerTokens(p.timeRange) + AnswerTokens(p.title)
  {
    if p.timeRange != "" {
      AnswerTokensDistribute(p.timeRange, ' ', p.title);
    } else {
      NoDigitNoToken("");
    }
  }

  lemma TokensOfLine(p: Parts)
    ensures AnswerTokens(Line(p)) == LineTokens(p)
  {
    var rest := Subject(p) + ['：'] + p.value;
    assert Line(p) == ['-'] + [' '] + rest;
    AnswerTokensDistribute(['-'], ' ', rest);
    NoDigitNoToken(['-']);
    AnswerTokensDistribute(Subject(p), '：', p.value);
    TokensOfSubject(p);
  }

  /** The text made of a first line and the lines of `parts`. */
  function LinesText(first: string, parts: seq<Parts>): string
    decreases |parts|
  {
    if parts == [] then first else first + ['\n'] + LinesText(Line(parts[0]), parts[1..])
  }

  lemma {:induction false} JoinIsText(first: string, parts: seq<Parts>)
    ensures Join([first] + Lines(parts), "\n") == LinesText(first, parts)
    decreases |parts|
  {
    if parts == [] {
      assert [first] + Lines(parts) == [first];
    } else {
      LinesCons(parts);
      JoinCons(first, Lines(parts), "\n");
      JoinIsText(Line(parts[0]), parts[1..]);
    }
  }

  lemma LinesCons(parts: seq<Parts>)
    requires parts != []
    ensures Lines(parts) == [Line(parts[0])] + Lines(parts[1..])
  {}

  lemma JoinCons(x: string, xs: seq<string>, separator: string)
    requires xs != []
    ensures Join([x] + xs, separator) == x + separator + Join(xs, separator)
  {
    assert ([x] + xs)[1..] == xs;
  }

  lemma {:induction false} TokensOfText(first: string, parts: seq<Parts>)
    ensures AnswerTokens(LinesText(first, parts)) == AnswerTokens(first) + PrintedTokens(parts)
    decreases |parts|
  {
    if parts != [] {
      AnswerTokensDistribute(first, '\n', LinesText(Line(parts[0]), parts[1..]));
      TokensOfText(Line(parts[0]), parts[1..]);
      TokensOfLine(parts[0]);
    }
  }

  /** The numbers of the fallback text are those of the printed time ranges, labels and values, in
      order; nothing forms across a separator. */
  lemma TokensOfFallback(facts: seq<MetricFact>)
    ensures AnswerTokens(FallbackText(facts)) == PrintedTokens(Printing(facts))
  {
    FallbackIsText(facts);
    NoDigitNoToken("");
    NoDigitNoToken(HEADER);
    TokensOfText(HEADER, Printing(facts));
  }

  lemma FallbackIsText(facts: seq<MetricFact>)
    ensures FallbackText(facts) == if Printing(facts) == [] then "" else LinesText(HEADER, Printing(facts))
  {
    JoinIsText(HEADER, Printing(facts));
  }

  lemma {:induction false} PrintedTokenOrigin(parts: seq<Parts>, raw: string)
    ensures raw in PrintedTokens(parts) <==> exists p :: p in parts && raw in LineTokens(p)
  {
    if parts != [] { PrintedTokenOrigin(parts[1..], raw); }
  }

  // ----- the printed values are allowed

  lemma {:induction false} TokenValuesListed(tokens: seq<string>, raw: string)
    requires raw in tokens && NumericTokenValue(raw).Some?
    ensures NumericTokenValue(raw).value in Values(tokens)
  {
    if raw != tokens[0] { TokenValuesListed(tokens[1..], raw); }
  }

  lemma {:induction false} FormattedIsAllowed(facts: seq<MetricFact>, others: seq<real>, f: MetricFact)
    requires f in facts
    ensures forall x :: x in Values(AnswerTokens(f.formattedValue)) ==> x in AllowedNumbers(facts, others)
  {
    if f != facts[0] { FormattedIsAllowed(facts[1..], others, f); }
  }

  lemma ValueIsSupported(facts: seq<MetricFact>, others: seq<real>, f: MetricFact)
    requires f in facts && f.formattedValue != ""
    ensures AllSupported(PartsOf(f).value, AllowedNumbers(facts, others))
  {
    var allowed := AllowedNumbers(facts, others);
    StripKeepsTokens(f.formattedValue);
    FormattedIsAllowed(facts, others, f);
    forall raw | raw in AnswerTokens(PartsOf(f).value) ensures IsSupported(raw, allowed) {
      if NumericTokenValue(raw).Some? {
        TokenValuesListed(AnswerTokens(f.formattedValue), raw);
        var x := NumericTokenValue(raw).value;
        assert x in allowed && FloatClose(x, x);
      }
    }
  }

  // ----- every fact is found

  lemma {:induction false} AllPrinted(facts: seq<MetricFact>)
    ensures forall f :: f in facts && PartsOf(f).value != "" ==> PartsOf(f) in Printing(facts)
    ensures forall p :: p in Printing(facts) ==> exists f :: f in facts && PartsOf(f) == p
  {
    if facts != [] {
      AllPrinted(facts[..|facts| - 1]);
      assert facts == facts[..|facts| - 1] + [facts[|facts| - 1]];
    }
  }

  lemma {:induction false} BlankFiltersAway(blank: string)
    requires forall c :: c in blank ==> IsSpace(c)
    ensures Filter(IsKept, Lower(blank)) == ""
  {
    if blank != "" {
      assert blank[0] in blank && LowerChar(blank[0]) == blank[0];
      BlankFiltersAway(blank[1..]);
      assert Lower(blank)[1..] == Lower(blank[1..]);
    }
  }

  lemma NormalizeConcat(a: string, b: string)
    ensures Filter(IsKept, Lower(a + b)) == Filter(IsKept, Lower(a)) + Filter(IsKept, Lower(b))
  {
    LowerConcat(a, b);
    FilterConcat(IsKept, Lower(a), Lower(b));
  }

  /** Stripping first makes no difference: white space is dropped anyway. */
  lemma NormalizeIgnoresStrip(s: string)
    ensures Normalize(s) == Filter(IsKept, Lower(s))
  {
    var left, right := StripParts(s);
    var m := Strip(s);
    BlankFiltersAway(left);
    BlankFiltersAway(right);
    NormalizeConcat(left, m);
    NormalizeConcat(left + m, right);
    assert s == (left + m) + right;
  }

  lemma NormalizeKeepsContained(a: string, middle: string, b: string)
    ensures Contains(Normalize(a + Strip(middle) + b), Normalize(middle))
  {
    NormalizeIgnoresStrip(a + Strip(middle) + b);
    NormalizeConcat(a, Strip(middle));
    NormalizeConcat(a + Strip(middle), b);
    ContainsIn(Filter(IsKept, Lower(a)), Normalize(middle), Filter(IsKept, Lower(b)));
  }

  lemma {:induction false} LineInText(first: string, parts: seq<Parts>, line: string) returns (a: string, b: string)
    requires line == first || exists p :: p in parts && Line(p) == line
    ensures LinesText(first, parts) == a + line + b
    decreases |parts|
  {
    if line == first {
      a, b := "", if parts == [] then "" else ['\n'] + LinesText(Line(parts[0]), parts[1..]);
    } else {
      var rest := LinesText(Line(parts[0]), parts[1..]);
      var a', b' := LineInText(Line(parts[0]), parts[1..], line);
      a, b := first + ['\n'] + a', b';
      Regrouped(first + ['\n'], a', line, b');
    }
  }

  lemma Regrouped(w: string, x: string, y: string, z: string)
    ensures w + (x + y + z) == w + x + y + z
  {}

  lemma MoveHead(w: string, x: string, y: string, z: string)
    ensures w + (x + y) + z == (w + x) + y + z
  {}

  /** Where the value of a fact stands in the fallback text. */
  lemma FactIsPrinted(facts: seq<MetricFact>, f: MetricFact) returns (a: string, b: string)
    requires f in facts && Normalize(f.formattedValue) != ""
    ensures FallbackText(facts) == a + Strip(f.formattedValue) + b
  {
    var p := PartsOf(f);
    FormattedIsPrinted(f);
    AllPrinted(facts);
    FallbackIsText(facts);
    a, b := LineInText(HEADER, Printing(facts), Line(p));
    var head := "- " + Subject(p) + "：";
    MoveHead(a, head, Strip(f.formattedValue), b);
    a := a + head;
  }

  /** A fact is found in every text that holds the fallback text. */
  lemma FactIsFoundWithin(before: string, facts: seq<MetricFact>, after: string, f: MetricFact)
    requires f in facts && Normalize(f.formattedValue) != ""
    ensures ContainsFact(before + FallbackText(facts) + after, f)
  {
    var a, b := FactIsPrinted(facts, f);
    assert before + (a + Strip(f.formattedValue) + b) + after == (before + a) + Strip(f.formattedValue) + (b + after);
    NormalizeKeepsContained(before + a, f.formattedValue, b + after);
  }

  lemma FactIsFound(facts: seq<MetricFact>, f: MetricFact)
    requires f in facts && Normalize(f.formattedValue) != ""
    ensures ContainsFact(FallbackText(facts), f)
  {
    FactIsFoundWithin("", facts, "", f);
    assert "" + FallbackText(facts) + "" == FallbackText(facts);
  }

  lemma FormattedIsPrinted(f: MetricFact)
    requires Normalize(f.formattedValue) != ""
    ensures f.formattedValue != "" && PartsOf(f).value == Strip(f.formattedValue) != ""
  {}

  // ----- acceptance

  /** Neither the printed label nor the printed time range adds a number that is not allowed. */
  ghost predicate AddsNothing(p: Parts, allowed: seq<real>) {
    AllSupported(p.title, allowed) && AllSupported(p.timeRange, allowed)
  }

  lemma SupportOfFallback(facts: seq<MetricFact>, others: seq<real>)
    requires forall f :: f in facts ==> Normalize(f.formattedValue) != ""
    ensures AllSupported(FallbackText(facts), AllowedNumbers(facts, others))
       <==> forall f :: f in facts ==> AddsNothing(PartsOf(f), AllowedNumbers(facts, others))
  {
    var allowed, parts := AllowedNumbers(facts, others), Printing(facts);
    AllPrinted(facts);
    TokensOfFallback(facts);
    forall f | f in facts ensures PartsOf(f) in parts && AllSupported(PartsOf(f).value, allowed) {
      FormattedIsPrinted(f);
      ValueIsSupported(facts, others, f);
    }
    forall raw ensures raw in PrintedTokens(parts) <==> exists p :: p in parts && raw in LineTokens(p) {
      PrintedTokenOrigin(parts, raw);
    }
    SupportOfParts(parts, allowed);
  }

  lemma SupportOfParts(parts: seq<Parts>, allowed: seq<real>)
    requires forall p :: p in parts ==> AllSupported(p.value, allowed)
    requires forall raw :: raw in PrintedTokens(parts) <==> exists p :: p in parts && raw in LineTokens(p)
    ensures (forall raw :: raw in PrintedTokens(parts) ==> IsSupported(raw, allowed))
       <==> forall p :: p in parts ==> AddsNothing(p, allowed)
  {
    if forall raw :: raw in PrintedTokens(parts) ==> IsSupported(raw, allowed) {
      forall p | p in parts ensures AddsNothing(p, allowed) {
        forall raw | raw in AnswerTokens(p.title) || raw in AnswerTokens(p.timeRange) ensures IsSupported(raw, allowed) {
          assert raw in LineTokens(p);
        }
      }
    }
    if forall p :: p in parts ==> AddsNothing(p, allowed) {
      forall raw | raw in PrintedTokens(parts) ensures IsSupported(raw, allowed) {
        var p :| p in parts && raw in LineTokens(p);
        assert AddsNothing(p, allowed) && AllSupported(p.value, allowed);
      }
    }
  }

  /** The fact-only fallback passes the contract exactly when the labels and time ranges it prints
      add no number that is not allowed; every fact is found in it, and its values never fail. */
  lemma FallbackPasses(facts: seq<MetricFact>, others: seq<real>)
    requires forall f :: f in facts ==> Normalize(f.formattedValue) != ""
    ensures Passes(FallbackText(facts), facts, others)
       <==> forall f :: f in facts ==> AddsNothing(PartsOf(f), AllowedNumbers(facts, others))
  {
    SupportOfFallback(facts, others);
    forall f | f in facts ensures ContainsFact(FallbackText(facts), f) {
      FactIsFound(facts, f);
    }
  }

  /** `text` with something in front of it and something behind it, on lines of their own; nothing stands for no line. */
  function Around(before: string, text: string, after: string): string {
    (if before == "" then "" else before + ['\n']) + text + (if after == "" then "" else ['\n'] + after)
  }

  lemma TokensBehind(before: string, text: string)
    ensures AnswerTokens((if before == "" then "" else before + ['\n']) + text) == AnswerTokens(before) + AnswerTokens(text)
  {
    NoDigitNoToken("");
    AnswerTokensDistribute(before, '\n', text);
    assert "" + text == text;
  }

  lemma TokensInFront(text: string, after: string)
    ensures AnswerTokens(text + (if after == "" then "" else ['\n'] + after)) == AnswerTokens(text) + AnswerTokens(after)
  {
    NoDigitNoToken("");
    AnswerTokensDistribute(text, '\n', after);
    assert text + "" == text && text + (['\n'] + after) == text + ['\n'] + after;
  }

  lemma TokensAround(before: string, text: string, after: string)
    ensures AnswerTokens(Around(before, text, after)) == AnswerTokens(before) + AnswerTokens(text) + AnswerTokens(after)
  {
    TokensBehind(before, text);
    TokensInFront((if before == "" then "" else before + ['\n']) + text, after);
  }

  /** Put between other lines, the fallback text passes exactly when it passes alone and the other lines add
      no number that is not allowed. */
  lemma FallbackPassesWithin(before: string, facts: seq<MetricFact>, others: seq<real>, after: string)
    requires forall f :: f in facts ==> Normalize(f.formattedValue) != ""
    ensures Passes(Around(before, FallbackText(facts), after), facts, others)
       <==> && AllSupported(before, AllowedNumbers(facts, others)) && AllSupported(after, AllowedNumbers(facts, others))
            && forall f :: f in facts ==> AddsNothing(PartsOf(f), AllowedNumbers(facts, others))
  {
    SupportOfFallback(facts, others);
    TokensAround(before, FallbackText(facts), after);
    var head, tail := if before == "" then "" else before + ['\n'], if after == "" then "" else ['\n'] + after;
    forall f | f in facts ensures ContainsFact(Around(before, FallbackText(facts), after), f) {
      FactIsFoundWithin(head, facts, tail, f);
    }
    SupportAround(before, FallbackText(facts), after, AllowedNumbers(facts, others));
  }

  lemma SupportAround(before: string, text: string, after: string, allowed: seq<real>)
    requires AnswerTokens(Around(before, text, after)) == AnswerTokens(before) + AnswerTokens(text) + AnswerTokens(after)
    ensures AllSupported(Around(before, text, after), allowed)
       <==> AllSupported(before, allowed) && AllSupported(text, allowed) && AllSupported(after, allowed)
  {
    var tokens := AnswerTokens(before) + AnswerTokens(text) + AnswerTokens(after);
    assert forall raw :: raw in tokens <==> raw in AnswerTokens(before) || raw in AnswerTokens(text) || raw in AnswerTokens(after);
  }

  /** A number printed with two decimals or more is also found again by its value: the text holds it
      as one token, and reading the token back gives a number close to the fact's. */
  lemma NumberIsFoundAgain(facts: seq<MetricFact>, f: MetricFact, x: real, places: nat)
    requires f in facts && places >= 2 && f.formattedValue == FormatNumber(x, places)
    ensures f.formattedValue in AnswerTokens(FallbackText(facts))
    ensures NumericTokenValue(f.formattedValue).Some? && FloatClose(x, NumericTokenValue(f.formattedValue).value)
  {
    var s, p := f.formattedValue, PartsOf(f);
    PrintedIsOneToken(x, places);
    PrintedValueIsClose(x, places);
    StripKeepsTokens(s);
    assert s != "" by { if s == "" { NoDigitNoToken(s); } }
    assert p.value != "" by { if p.value == "" { NoDigitNoToken(p.value); } }
    AllPrinted(facts);
    TokensOfFallback(facts);
    PrintedTokenOrigin(Printing(facts), s);
    assert s in LineTokens(p);
  }

  /** A metric named "Top 50" whose value is 100. */
  const TOP_50 := MetricFact("Top 50", "", "", "100", "100", Some(100.0), [], [])

  lemma PrintedNumbers()
    ensures FormatNumber(50.0, 2) == "50" && FormatNumber(100.0, 2) == "100"
  {
    assert NatText(5) == "5" && NatText(1) == "1";
    assert NatText(50) == "5" + [DigitChar(0)] && NatText(10) == "1" + [DigitChar(0)];
    assert NatText(100) == "10" + [DigitChar(0)];
    assert 50.0.Floor == 50 && 100.0.Floor == 100;
  }

  lemma PrintedNumberReads(x: real, s: string)
    requires FormatNumber(x, 2) == s && 0.0 <= x <= 100.0
    ensures AnswerTokens(s) == [s]
    ensures NumericTokenValue(s).Some? && Abs(NumericTokenValue(s).value - x) <= 1.0
  {
    PrintedIsOneToken(x, 2);
    PrintedValueIsClose(x, 2);
    CloseIsNear(x, NumericTokenValue(s).value);
  }

  lemma CloseIsNear(x: real, z: real)
    requires FloatClose(x, z) && 0.0 <= x <= 100.0
    ensures Abs(z - x) <= 1.0
  {
  }

  lemma TokensBehindLabel(word: string, number: string)
    requires AnswerTokens(number) == [number] && forall k :: 0 <= k < |word| ==> !IsDigit(word[k])
    ensures AnswerTokens(word + [' '] + number) == [number]
  {
    AnswerTokensDistribute(word, ' ', number);
    NoDigitNoToken(word);
  }

  /** A fact with no further numbers allows its value and its formatted value. */
  lemma AllowedByOne(f: MetricFact, x: real, y: real)
    requires f.number == Some(x) && f.moreNumbers == [] && f.moreFormatted == []
    requires AnswerTokens(f.formattedValue) == [f.formattedValue] && NumericTokenValue(f.formattedValue) == Some(y)
    ensures AllowedNumbers([f], []) == [x, y]
  {
    var s := f.formattedValue;
    assert [s][1..] == [] && [f][1..] == [];
    assert Values([s]) == [y] && Values([]) == [] && FormattedNumbers([]) == [];
    assert AllowedNumbers([], []) == [];
  }

  /** A number of size 10 or more in the label, far from all numbers of its only fact, is refused. */
  lemma LabelIsRefused(f: MetricFact, raw: string, x: real, y: real)
    requires Normalize(f.formattedValue) != "" && AllowedNumbers([f], []) == [x, y]
    requires raw in AnswerTokens(PartsOf(f).title) && !IsSupported(raw, [x, y])
    ensures !Passes(FallbackText([f]), [f], [])
  {
    assert !AddsNothing(PartsOf(f), [x, y]);
    assert f in [f];
    FallbackPasses([f], []);
  }

  lemma HundredIsShown()
    ensures Normalize("100") != ""
  {
    NormalizeIgnoresStrip("100");
    assert Lower("100")[0] == '1';
  }

  /** A fact of 100 whose name ends in a number near 50. */
  lemma RefusedFor(f: MetricFact, word: string, raw: string)
    requires f.displayName == word + [' '] + raw && Trimmed(f.displayName) && f.formattedValue == "100"
    requires f.number == Some(100.0) && f.moreNumbers == [] && f.moreFormatted == []
    requires FormatNumber(50.0, 2) == raw && FormatNumber(100.0, 2) == "100"
    requires forall k :: 0 <= k < |word| ==> !IsDigit(word[k])
    ensures !Passes(FallbackText([f]), [f], [])
  {
    PrintedNumberReads(50.0, raw);
    PrintedNumberReads(100.0, "100");
    var y := NumericTokenValue("100").value;
    AllowedByOne(f, 100.0, y);
    TokensBehindLabel(word, raw);
    TrimmedIsItsStrip(f.displayName);
    NotCloseToHundred(raw, NumericTokenValue(raw).value, 100.0, y);
    HundredIsShown();
    LabelIsRefused(f, raw, 100.0, y);
  }

  /** The 50 of the label is not allowed, so the fallback text of this one fact is refused. */
  lemma FallbackIsRefused()
    ensures !Passes(FallbackText([TOP_50]), [TOP_50], [])
  {
    PrintedNumbers();
    assert "Top 50" == "Top" + [' '] + "50";
    RefusedFor(TOP_50, "Top", "50");
  }

  lemma NotCloseToHundred(raw: string, z: real, x: real, y: real)
    requires NumericTokenValue(raw) == Some(z) && 49.0 <= z <= 51.0 && 99.0 <= x <= 101.0 && 99.0 <= y <= 101.0
    ensures !IsSupported(raw, [x, y])
  {
    assert !FloatClose(z, x) && !FloatClose(z, y);
  }

  // ----- which numbers are reported, and which are allowed

  /** Neither within half a cent nor within a millionth of the number. */
  predicate IsFarFrom(v: real, candidate: real) {
    Abs(v - candidate) > 0.005 && Abs(v - candidate) > Abs(candidate) * 0.000001
  }

  /** Reported is exactly a number far from every allowed one that is a percentage, is written with a point, or is of
      size ten or more. */
  lemma ReportedExactly(raw: string, allowed: seq<real>)
    ensures !IsSupported(raw, allowed) <==>
              && NumericTokenValue(raw).Some?
              && (forall candidate :: candidate in allowed ==> IsFarFrom(NumericTokenValue(raw).value, candidate))
              && (|| NumericTokenValue(raw).value >= 10.0 || NumericTokenValue(raw).value <= -10.0
                  || (raw != "" && raw[|raw| - 1] == '%') || '.' in raw)
  {
    if NumericTokenValue(raw).Some? {
      var v := NumericTokenValue(raw).value;
      forall candidate ensures FloatClose(v, candidate) <==> !IsFarFrom(v, candidate) {}
    }
  }

  /** Some token of the text reads as the number. */
  ghost predicate Shows(text: string, x: real) {
    exists token :: token in AnswerTokens(text) && NumericTokenValue(token) == Some(x)
  }

  /** The fact allows the number: as its value, as a comparison or change, or as formatted. */
  ghost predicate Allows(f: MetricFact, x: real) {
    f.number == Some(x) || x in f.moreNumbers || Shows(f.formattedValue, x) || SomeShows(f.moreFormatted, x)
  }

  lemma {:induction false} ValuesAreRead(tokens: seq<string>, x: real)
    ensures x in Values(tokens) <==> exists token :: token in tokens && NumericTokenValue(token) == Some(x)
  {
    if tokens != [] {
      ValuesAreRead(tokens[1..], x);
      assert tokens == [tokens[0]] + tokens[1..];
    }
  }

  /** The answer spells the text, both normalised; a text of which nothing is left is spelled nowhere. */
  predicate SpelledIn(answer: string, text: string) {
    Normalize(text) != "" && exists i :: 0 <= i <= |Normalize(answer)| && Normalize(text) <= Normalize(answer)[i..]
  }

  ghost predicate ShowsNear(answer: string, x: real) { exists y :: Shows(answer, y) && !IsFarFrom(x, y) }

  lemma NearValues(answer: string, x: real)
    ensures (exists item :: item in Values(AnswerTokens(answer)) && FloatClose(x, item)) <==> ShowsNear(answer, x)
  {
    forall y ensures y in Values(AnswerTokens(answer)) <==> Shows(answer, y) { ValuesAreRead(AnswerTokens(answer), y); }
    forall y ensures FloatClose(x, y) <==> !IsFarFrom(x, y) {}
  }

  /** An answer holds a fact when it shows a number near to its value, or spells its formatted or its plain value. */
  lemma FactFoundExactly(answer: string, f: MetricFact)
    ensures ContainsFact(answer, f) <==>
              || (f.number.Some? && ShowsNear(answer, f.number.value))
              || SpelledIn(answer, f.formattedValue) || SpelledIn(answer, f.valueText)
  {
    if f.number.Some? { NearValues(answer, f.number.value); }
  }

  /** Blanks, commas of both widths, the currency character and the percent sign do not count when values are spelled. */
  lemma KeptExactly(c: char)
    ensures IsKept(c) <==> !IsSpace(c) && c !in {',', '，', '元', '%'}
  {
  }

  ghost predicate SomeShows(texts: seq<string>, x: real) { exists text :: text in texts && Shows(text, x) }

  lemma FirstShowsOrRest(text: string, rest: seq<string>, x: real)
    ensures SomeShows([text] + rest, x) <==> Shows(text, x) || SomeShows(rest, x)
  {
    var all := [text] + rest;
    if Shows(text, x) { assert text in all; }
    if t :| t in rest && Shows(t, x) { assert t in all; }
  }

  lemma {:induction false} FormattedAreRead(texts: seq<string>, x: real)
    ensures x in FormattedNumbers(texts) <==> SomeShows(texts, x)
  {
    if texts != [] {
      assert texts == [texts[0]] + texts[1..];
      FormattedAreRead(texts[1..], x);
      ValuesAreRead(AnswerTokens(texts[0]), x);
      FirstShowsOrRest(texts[0], texts[1..], x);
    }
  }

  lemma AllowedByFirst(f: MetricFact, rest: seq<MetricFact>, others: seq<real>, x: real)
    ensures x in AllowedNumbers([f] + rest, others) <==> Allows(f, x) || x in AllowedNumbers(rest, others)
  {
    assert ([f] + rest)[1..] == rest;
    ValuesAreRead(AnswerTokens(f.formattedValue), x);
    FormattedAreRead(f.moreFormatted, x);
  }

  ghost predicate SomeAllows(facts: seq<MetricFact>, x: real) { exists f :: f in facts && Allows(f, x) }

  lemma FirstAllowsOrRest(f: MetricFact, rest: seq<MetricFact>, x: real)
    ensures SomeAllows([f] + rest, x) <==> Allows(f, x) || SomeAllows(rest, x)
  {
    var all := [f] + rest;
    if Allows(f, x) { assert f in all; }
    if g :| g in rest && Allows(g, x) { assert g in all; }
  }

  /** Allowed is exactly what some fact allows, and the numbers from elsewhere. */
  lemma {:induction false} AllowedExactly(facts: seq<MetricFact>, others: seq<real>, x: real)
    ensures x in AllowedNumbers(facts, others) <==> x in others || SomeAllows(facts, x)
  {
    if facts != [] {
      assert facts == [facts[0]] + facts[1..];
      AllowedByFirst(facts[0], facts[1..], others, x);
      FirstAllowsOrRest(facts[0], facts[1..], x);
      AllowedExactly(facts[1..], others, x);
    }
  }

  // ----- what the fallback text says

  /** What is printed of a fact: its name, its time range, and its value as formatted, or as it is. */
  function Printed(f: MetricFact): (string, string, string) {
    (Strip(if f.displayName != "" then f.displayName else if f.metricKey != "" then f.metricKey else "指标"),
     Strip(f.timeRange),
     Strip(if f.formattedValue != "" then f.formattedValue else f.valueText))
  }

  function LineOf(f: MetricFact): string {
    var (name, range, value) := Printed(f);
    "- " + (if range == "" then name else range + [' '] + name) + "：" + value
  }

  lemma OneLine(p: Parts)
    ensures Join([HEADER] + Lines([p]), "\n") == HEADER + "\n" + Line(p)
  {
    assert Lines([p]) == [Line(p)];
    assert ([HEADER] + [Line(p)])[1..] == [Line(p)];
  }

  lemma PrintedIsParts(f: MetricFact)
    ensures Printed(f) == (PartsOf(f).title, PartsOf(f).timeRange, PartsOf(f).value) && LineOf(f) == Line(PartsOf(f))
  {
  }

  /** The first fact with a value stands on a line below the heading. */
  lemma TextOfOne(f: MetricFact)
    ensures FallbackText([f]) == if Printed(f).2 == "" then "" else "已验证结果：" + "\n" + LineOf(f)
  {
    assert [f][..0] == [] && Printing([]) == [];
    PrintedIsParts(f);
    if Printed(f).2 == "" {
      assert Printing([f]) == [];
    } else {
      assert Printing([f]) == [PartsOf(f)];
      OneLine(PartsOf(f));
    }
  }

  /** The same name, time range and value are printed of some fact. */
  ghost predicate IsPrintedOf(facts: seq<MetricFact>, f: MetricFact) {
    exists g :: g in facts && Printed(g) == Printed(f)
  }

  lemma PrintedOnce(facts: seq<MetricFact>, f: MetricFact)
    requires Printed(f).2 != ""
    ensures PartsOf(f) in Printing(facts) <==> IsPrintedOf(facts, f)
  {
    AllPrinted(facts);
    PrintedIsParts(f);
    if PartsOf(f) in Printing(facts) {
      var g :| g in facts && PartsOf(g) == PartsOf(f);
      PrintedIsParts(g);
    }
    if g :| g in facts && Printed(g) == Printed(f) { PrintedIsParts(g); }
  }

  /** A further fact adds its line at the end, unless it has no value or the same has been printed. */
  lemma TextOfOneMore(facts: seq<MetricFact>, f: MetricFact)
    requires FallbackText(facts) != ""
    ensures FallbackText(facts + [f])
         == if Printed(f).2 == "" || IsPrintedOf(facts, f) then FallbackText(facts) else FallbackText(facts) + "\n" + LineOf(f)
  {
    var all, parts := facts + [f], Printing(facts);
    assert all[..|all| - 1] == facts;
    PrintedIsParts(f);
    if Printed(f).2 != "" {
      PrintedOnce(facts, f);
      if PartsOf(f) !in parts { OneMoreLine(parts, PartsOf(f)); }
    }
  }

  lemma OneMoreLine(parts: seq<Parts>, p: Parts)
    ensures Join([HEADER] + Lines(parts + [p]), "\n") == Join([HEADER] + Lines(parts), "\n") + "\n" + Line(p)
  {
    assert Lines(parts + [p]) == Lines(parts) + [Line(p)];
    assert [HEADER] + (Lines(parts) + [Line(p)]) == ([HEADER] + Lines(parts)) + [Line(p)];
    JoinConcat([HEADER] + Lines(parts), [Line(p)], "\n");
  }
}
