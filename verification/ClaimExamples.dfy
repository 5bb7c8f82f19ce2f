/**
 Three answers and what the claim verifier makes of them: swapped decimals pass,
 swapped whole numbers do not, and a number behind a date and a comma is lost.
 */
module ClaimExamples {
  import opened Basics
  import opened Text
  import opened NumberScanner
  import opened NumberText
  import opened WholeNumbers
  import opened ClaimNumbers
  import opened ClaimTokens
  import opened ClaimVerifier
  import opened ClaimContexts
  import opened ClaimBinding

  // ----- reading

  lemma ValueOfDigits(front: string, last: char)
    requires AllDigits(front) && IsDigit(last)
    ensures AllDigits(front + [last]) && DigitsValue(front + [last]) == 10 * DigitsValue(front) + (last as int - '0' as int)
  {
    assert (front + [last])[..|front|] == front;
  }

  lemma ThreeDigits(s: string)
    requires |s| == 3 && AllDigits(s) && s[1] == '0' && s[2] == '0'
    ensures DigitsValue(s) == 100 * (s[0] as int - '0' as int)
  {
    ValueOfDigits("", s[0]);
    ValueOfDigits([s[0]], '0');
    ValueOfDigits([s[0]] + ['0'], '0');
    assert "" + [s[0]] == [s[0]] && s == [s[0]] + ['0'] + ['0'];
  }

  lemma OneDigit(s: string)
    requires |s| == 1 && AllDigits(s)
    ensures DigitsValue(s) == s[0] as int - '0' as int
  {
    ValueOfDigits("", s[0]);
    assert s == "" + [s[0]];
  }

  lemma DecimalReads(whole: string, fraction: string)
    requires whole != "" && AllDigits(whole) && AllDigits(fraction)
    ensures DecimalToken(DecimalText(whole, fraction)) == Some(Decimal(whole, fraction))
  {
    var body := DecimalText(whole, fraction);
    PrintedIsPlain(false, whole, fraction);
    assert SignText(false) + body == body;
    SuffixedIsItself(body, false);
    assert WithoutPercents(body) == body;
    ReadSigned(false, whole, fraction);
  }

  lemma HalfValue(whole: string, d: nat)
    requires |whole| == 3 && AllDigits(whole) && whole[1] == '0' && whole[2] == '0' && d == whole[0] as int - '0' as int
    ensures AllDigits("5") && Decimal(whole, "5") == 100.0 * d as real + 0.5
  {
    ThreeDigits(whole);
    OneDigit("5");
    assert Pow10(1) == 10;
  }

  /** `d00.5` */
  lemma HalfReads(s: string, whole: string, d: nat)
    requires |whole| == 3 && AllDigits(whole) && whole[1] == '0' && whole[2] == '0' && d == whole[0] as int - '0' as int
    requires s == DecimalText(whole, "5")
    ensures DecimalToken(s) == Some(100.0 * d as real + 0.5)
  {
    HalfValue(whole, d);
    DecimalReads(whole, "5");
  }

  // ----- dates need a separator

  lemma NoSeparatorNoDate(text: string)
    requires forall k :: 0 <= k < |text| ==> !IsDateSeparator(text[k])
    ensures IsDateFree(text)
  {
    NoDateAnywhere(text, 0);
  }

  lemma IsPlainWithoutSeparator(formula: Formula, text: string)
    requires forall k :: 0 <= k < |text| ==> !IsDateSeparator(text[k])
    requires forall s, x :: !formula(s, x)
    ensures IsPlainText(formula, text)
  {
    NoSeparatorNoDate(text);
  }

  // ----- scanning

  lemma {:induction false} NothingStarts(text: string, c: nat, d: nat)
    requires c <= d <= |text| && forall k :: c <= k < d ==> !StartsNumber(text, k)
    ensures Spans(text, c) == Spans(text, d) && TokensFrom(text, c) == TokensFrom(text, d)
    decreases d - c
  {
    if c < d { NothingStarts(text, c + 1, d); }
  }

  lemma {:induction false} GroupEndIs(text: string, i: nat, end: nat)
    requires i <= end <= |text| && (forall k :: i <= k < end ==> IsDigit(text[k]) || text[k] == ',')
    requires end < |text| ==> !IsDigit(text[end]) && text[end] != ','
    ensures GroupEnd(text, i) == end
    decreases end - i
  {
    if i < end { GroupEndIs(text, i + 1, end); }
  }

  /** A number at `c`: digits and commas up to `g`, and perhaps a point and digits up to `end`. */
  predicate IsNumberAt(text: string, c: nat, g: nat, end: nat) {
    && c < g <= end <= |text| && IsDigit(text[c]) && (c > 0 ==> !IsWord(text[c - 1]))
    && (forall k :: c <= k < g ==> IsDigit(text[k]) || text[k] == ',')
    && (g < |text| ==> !IsDigit(text[g]) && text[g] != ',')
    && (if g == end then g < |text| ==> text[g] != '.' else text[g] == '.' && g + 1 < end)
    && (forall k :: g < k < end ==> IsDigit(text[k]))
    && (end < |text| ==> !IsDigit(text[end]) && text[end] != '%')
  }

  lemma NumberAt(text: string, c: nat, g: nat, end: nat)
    requires IsNumberAt(text, c, g, end)
    ensures Spans(text, c) == [Span(c, end)] + Spans(text, end)
    ensures TokensFrom(text, c) == [text[c..end]] + TokensFrom(text, end)
  {
    GroupEndIs(text, c, g);
    if g < end { DigitEndIs(text, g + 1, end); }
    assert FirstDigit(text, c) == c && StartsNumber(text, c);
    assert NumberEnd(text, c) == end;
  }

  // ----- labels

  predicate IsLabel(word: string) { word != "" && forall k :: 0 <= k < |word| ==> IsLower(word[k]) }

  lemma LabelIsKept(word: string)
    requires IsLabel(word)
    ensures Filter(KeptInLabel, word) == word
  {
    NothingFiltered(KeptInLabel, word);
  }

  lemma LabelIsNormal(word: string)
    requires IsLabel(word)
    ensures NormalLabel(word) == word
  {
    assert IsLower(word[0]) && IsLower(word[|word| - 1]);
    TrimmedIsItsStrip(word);
    assert Lower(word) == word;
    LabelIsKept(word);
  }

  /** A word of a text is found in the normalized text. */
  lemma WordIsFound(before: string, word: string, after: string)
    requires IsLabel(Lower(word)) && Trimmed(before + word + after)
    ensures Contains(NormalLabel(before + word + after), Lower(word))
  {
    var text := before + word + after;
    TrimmedIsItsStrip(text);
    LowerConcat(before + word, after);
    LowerConcat(before, word);
    NormalOfThree(Lower(before), Lower(word), Lower(after));
  }

  lemma FilterOfThree(keep: char -> bool, a: string, b: string, c: string)
    ensures Filter(keep, a + b + c) == Filter(keep, a) + Filter(keep, b) + Filter(keep, c)
  {
    FilterConcat(keep, a + b, c);
    FilterConcat(keep, a, b);
  }

  lemma NormalOfThree(before: string, word: string, after: string)
    requires IsLabel(word)
    ensures Contains(Filter(KeptInLabel, before + word + after), word)
  {
    FilterOfThree(KeptInLabel, before, word, after);
    LabelIsKept(word);
    ContainsIn(Filter(KeptInLabel, before), word, Filter(KeptInLabel, after));
  }

  lemma {:induction false} FilteredFrom(keep: char -> bool, s: string, c: char)
    requires c in Filter(keep, s)
    ensures c in s
  {
    if c != s[0] || !keep(s[0]) { FilteredFrom(keep, s[1..], c); }
  }

  /** A word with a character that the text does not have is not found. */
  lemma WordIsMissing(text: string, word: string)
    requires Trimmed(text) && word != "" && word[0] !in Lower(text)
    ensures !Contains(NormalLabel(text), word)
  {
    TrimmedIsItsStrip(text);
    var normal := NormalLabel(text);
    if i :| 0 <= i <= |normal| && word <= normal[i..] {
      assert normal[i] == word[0];
      FilteredFrom(KeptInLabel, Lower(text), word[0]);
    }
  }

  /** A fact of the task "t" whose label is its column. */
  function Plain(id: FactId, column: string, x: real): Fact { Fact(id, "t", 0, column, column, [], "number", Some(x), "", "", "") }

  lemma LabelsOfPlain(f: Fact)
    requires IsLabel(f.column) && f.labelText == f.column && f.aliases == []
    ensures forall l :: l in LabelsOf(f) <==> l == f.column
  {
    LabelIsNormal(f.column);
  }

  // ----- swapped decimals

  /** A number that is close to no digit run of its claim is backed by a label anywhere in the claim. */
  lemma LabelOfAnyClause(r: Reader, formula: Formula, raw: string, text: string, question: string, facts: seq<Fact>, f: Fact)
    requires Scans(r, formula) && IsPlainText(formula, text)
    requires r.number(raw).Some? && !RunIsClose(text, r.number(raw).value)
    requires f in facts && HasValue(r, raw, f) && LabelOccurs(LabelsOf(f), text)
    ensures ValueJustified(r, raw, text, question, facts)
  {
    ContextIsByValue(r, formula, raw, text);
    NumberIsNoDate(r, formula, raw);
    forall context | IsCheckedIn(r, raw, text, context) ensures Justified(r, raw, context, question, facts) {
      assert FactBacks(r, f, raw, text, facts);
    }
  }

  const SWAPPED := "GMV 200.5；refund 100.5"

  const RISEN := [Plain("1", "gmv", 100.5), Plain("2", "refund", 200.5)]

  /** A text "GMV d00.5；refund d00.5". */
  predicate IsPair(text: string) {
    && |text| == 22
    && (forall k :: k in {4, 5, 6, 8, 17, 18, 19, 21} ==> IsDigit(text[k]))
    && (forall k :: k in {0, 1, 2, 3, 7, 9, 10, 11, 12, 13, 14, 15, 16, 20} ==> !IsDigit(text[k]))
  }

  lemma RunsOfPair(text: string, a: nat, b: nat)
    requires IsPair(text) && IsRun(text, a, b)
    ensures (a, b) in {(4, 7), (8, 9), (17, 20), (21, 22)}
  {
    assert IsDigit(text[a]) && IsDigit(text[b - 1]);
    assert !IsDigit(text[7]) && !IsDigit(text[9]) && !IsDigit(text[20]);
  }

  predicate HasPairDigits(text: string) {
    && IsPair(text) && text[4] == '2' && text[17] == '1' && text[8] == '5' && text[21] == '5'
    && (forall k :: k in {5, 6, 18, 19} ==> text[k] == '0')
    && (forall k :: k in {3, 7, 16, 20} ==> !IsSign(text[k]))
  }

  lemma ValuesOfPair(text: string, a: nat, b: nat)
    requires HasPairDigits(text) && IsRun(text, a, b)
    ensures RunValue(text, a, b) in {100.0, 200.0, 5.0}
  {
    RunsOfPair(text, a, b);
    var digits := text[a..b];
    assert !IsSign(text[a - 1]) && !IsSign(text[a]) && RunStart(text, a) == a;
    if b == a + 1 {
      OneDigit(digits);
    } else {
      assert digits[0] == text[a] && digits[1] == text[a + 1] && digits[2] == text[a + 2];
      ThreeDigits(digits);
    }
  }

  lemma SwappedIsPair()
    ensures HasPairDigits(SWAPPED)
  {
  }

  lemma NoRunIsClose(x: real)
    requires x == 100.5 || x == 200.5
    ensures !RunIsClose(SWAPPED, x)
  {
    SwappedIsPair();
    if a: nat, b: nat :| IsFree(SWAPPED, a, b) && Close(x, RunValue(SWAPPED, a, b)) {
      ValuesOfPair(SWAPPED, a, b);
      FarFrom(x, RunValue(SWAPPED, a, b));
    }
  }

  lemma FarFrom(x: real, y: real)
    requires (x == 100.5 || x == 200.5) && y in {100.0, 200.0, 5.0}
    ensures !Close(x, y)
  {
  }

  lemma LabelOfPlainOccurs(f: Fact, before: string, word: string, after: string, text: string)
    requires IsLabel(f.column) && f.labelText == f.column && f.aliases == []
    requires Lower(word) == f.column && text == before + word + after && Trimmed(text)
    ensures LabelOccurs(LabelsOf(f), text)
  {
    LabelsOfPlain(f);
    WordIsFound(before, word, after);
  }

  lemma TokensOfPair(text: string)
    requires HasPairDigits(text) && text[7] == '.' && text[20] == '.' && text[9] != '%'
    requires forall k :: 0 <= k < 22 ==> !IsSign(text[k]) && text[k] != ','
    requires text[3] == ' ' && text[16] == ' '
    ensures Tokens(text) == [text[4..9], text[17..22]]
  {
    NothingStarts(text, 0, 4);
    assert forall k :: k in {4, 5, 6} ==> IsDigit(text[k]);
    NumberAt(text, 4, 7, 9);
    NothingStarts(text, 9, 17);
    NumberAt(text, 17, 20, 22);
    assert TokensFrom(text, 22) == [];
  }

  /** The claim's tokens are the two decimals. */
  lemma TokensOfSwapped()
    ensures Tokens(SWAPPED) == ["200.5", "100.5"]
  {
    SwappedIsPair();
    assert SWAPPED[4..9] == "200.5" && SWAPPED[17..22] == "100.5";
    TokensOfPair(SWAPPED);
  }

  lemma LowerGmv()
    ensures Lower("GMV") == "gmv"
  {
  }

  lemma FirstLabelOccurs()
    ensures LabelOccurs(LabelsOf(RISEN[0]), SWAPPED)
  {
    var before, word, after := "", "GMV", " 200.5；refund 100.5";
    assert SWAPPED == before + word + after;
    LowerGmv();
    LabelOfPlainOccurs(RISEN[0], before, word, after, SWAPPED);
  }

  lemma LowerRefund()
    ensures Lower("refund") == "refund"
  {
  }

  lemma SecondLabelOccurs()
    ensures LabelOccurs(LabelsOf(RISEN[1]), SWAPPED)
  {
    var before, word, after := "GMV 200.5；", "refund", " 100.5";
    assert SWAPPED == before + word + after;
    LowerRefund();
    LabelOfPlainOccurs(RISEN[1], before, word, after, SWAPPED);
  }

  lemma SwappedValue(r: Reader, formula: Formula, raw: string, question: string, f: Fact)
    requires Scans(r, formula) && IsPlainText(formula, SWAPPED)
    requires f in RISEN && f.value == DecimalToken(raw) && LabelOccurs(LabelsOf(f), SWAPPED)
    ensures ValueJustified(r, raw, SWAPPED, question, RISEN)
  {
    assert r.number(raw) == DecimalToken(raw);
    NoRunIsClose(f.value.value);
    LabelOfAnyClause(r, formula, raw, SWAPPED, question, RISEN, f);
  }

  lemma BothJustified(r: Reader, x: string, y: string, text: string, question: string, facts: seq<Fact>)
    requires ValueJustified(r, x, text, question, facts) && ValueJustified(r, y, text, question, facts)
    ensures ClaimJustified(r, Claim(text, [x, y], []), Trend(None, []), question, facts, {})
  {
  }

  /** The rows say gmv = 100.5 and refund = 200.5; the answer swaps them, its two numbers are read, and it
      passes, whatever the language policy and the question say. */
  lemma SwappedDecimalsPass(r: Reader, formula: Formula, question: string)
    requires Scans(r, formula) && forall s, x :: !formula(s, x)
    ensures forall t :: t in r.tokens(SWAPPED) <==> t in ["200.5", "100.5"]
    ensures ClaimJustified(r, Claim(SWAPPED, ["200.5", "100.5"], []), Trend(None, []), question, RISEN, {})
  {
    IsPlainWithoutSeparator(formula, SWAPPED);
    FirstSwapped(r, formula, question);
    SecondSwapped(r, formula, question);
    BothJustified(r, "200.5", "100.5", SWAPPED, question, RISEN);
    TokensOfSwapped();
    forall t ensures t in r.tokens(SWAPPED) <==> t in Tokens(SWAPPED) { DateFreeTokens(formula, SWAPPED, t); }
  }

  lemma FirstSwapped(r: Reader, formula: Formula, question: string)
    requires Scans(r, formula) && IsPlainText(formula, SWAPPED)
    ensures ValueJustified(r, "200.5", SWAPPED, question, RISEN)
  {
    assert "200.5" == DecimalText("200", "5");
    HalfReads("200.5", "200", 2);
    SecondLabelOccurs();
    SwappedValue(r, formula, "200.5", question, RISEN[1]);
  }

  lemma SecondSwapped(r: Reader, formula: Formula, question: string)
    requires Scans(r, formula) && IsPlainText(formula, SWAPPED)
    ensures ValueJustified(r, "100.5", SWAPPED, question, RISEN)
  {
    assert "100.5" == DecimalText("100", "5");
    HalfReads("100.5", "100", 1);
    FirstLabelOccurs();
    SwappedValue(r, formula, "100.5", question, RISEN[0]);
  }

  // ----- swapped whole numbers

  lemma {:induction false} NothingToSplit(s: string, separators: string)
    requires forall k :: 0 <= k < |s| ==> s[k] !in separators
    ensures SplitOn(s, separators) == [s]
  {
    if s != [] {
      var front := s[..|s| - 1];
      NothingToSplit(front, separators);
      assert s == front + [s[|s| - 1]];
    }
  }

  lemma {:induction false} FirstPiece(a: string, c: char, b: string, separators: string)
    requires c in separators && forall k :: 0 <= k < |a| ==> a[k] !in separators
    ensures var pieces := SplitOn(a + [c] + b, separators); |pieces| >= 2 && pieces[0] == a
    decreases |b|
  {
    var s := a + [c] + b;
    if b == "" {
      assert s[..|s| - 1] == a;
      NothingToSplit(a, separators);
    } else {
      assert s[..|s| - 1] == a + [c] + b[..|b| - 1];
      FirstPiece(a, c, b[..|b| - 1], separators);
    }
  }

  lemma FirstClause(a: string, c: char, b: string, separators: string)
    requires c in separators && (forall k :: 0 <= k < |a| ==> a[k] !in separators) && a != "" && Trimmed(a)
    ensures a in Clauses(a + [c] + b, separators)
  {
    FirstPiece(a, c, b, separators);
    StrippedPieces(SplitOn(a + [c] + b, separators));
    TrimmedIsItsStrip(a);
    assert SplitOn(a + [c] + b, separators)[0] in SplitOn(a + [c] + b, separators);
  }

  lemma OnlyClause(s: string, separators: string)
    requires (forall k :: 0 <= k < |s| ==> s[k] !in separators) && s != "" && Trimmed(s)
    ensures Clauses(s, separators) == [s]
  {
    NothingToSplit(s, separators);
    TrimmedIsItsStrip(s);
    assert Stripped([s]) == [s] + Stripped([s][1..]) && [s][1..] == [];
  }

  /** One fact to a column: nothing can be derived. */
  lemma NothingDerived(r: Reader, raw: string, context: string, f: Fact, g: Fact)
    requires f.column != g.column
    ensures !RowsBack(r, raw, context, [f, g])
  {
    assert [f, g][..1] == [f] && [f][..0] == [];
    forall key ensures |GroupOf([f, g], key)| < 2 {
      assert GroupOf([f], key) == if f.value.Some? && (f.taskId, f.column) == key then [f] else [];
    }
  }

  /** A fact whose label the context lacks does not back its number there, if the context has another label. */
  lemma NotNamed(r: Reader, f: Fact, context: string, other: Fact, facts: seq<Fact>)
    requires IsLabel(f.column) && f.labelText == f.column && f.aliases == []
    requires IsLabel(other.column) && other.labelText == other.column && other in facts && other.column != f.column
    requires !Contains(NormalLabel(context), f.column) && Contains(NormalLabel(context), other.column)
    ensures !Names(r, f, context, facts)
  {
    LabelsOfPlain(f);
    LabelIsNormal(f.column);
    LabelIsNormal(other.column);
    var labels := LabelsOf(f);
    forall i | 0 <= i < |labels| ensures NormalLabels(labels)[i] == f.column { assert labels[i] in labels; }
    assert Competes(context, labels, other.labelText);
  }

  lemma WholeReads(s: string, d: nat)
    requires |s| == 3 && AllDigits(s) && s[1] == '0' && s[2] == '0' && d == s[0] as int - '0' as int
    ensures DecimalToken(s) == Some(100.0 * d as real)
  {
    ThreeDigits(s);
    RunReads("", s, "");
    assert "" + s + "" == s;
  }

  /** "GMV d00" states its number. */
  lemma SegmentStatesNumber(r: Reader, formula: Formula, segment: string, raw: string)
    requires Scans(r, formula) && forall s, x :: !formula(s, x)
    requires |segment| == 7 && segment[4..] == raw && AllDigits(raw) && segment[3] == ' '
    requires forall k :: 0 <= k < 7 ==> !IsDateSeparator(segment[k]) && !IsSign(segment[k])
    requires r.number(raw).Some?
    ensures SegmentReads(r, formula, raw, segment)
  {
    NoSeparatorNoDate(segment);
    NoTemporal(segment);
    assert forall k :: 4 <= k < 7 ==> segment[k] == raw[k - 4];
    assert IsRun(segment, 4, 7) && RunStart(segment, 4) == 4;
    assert RunToken(segment, 4, 7) == raw;
    assert IsPlainRunAt(formula, segment, 4, 7);
    NumberIsNoDate(r, formula, raw);
    assert SameNumber(r, raw, raw);
  }

  const SWAPPED_WHOLE := "GMV 200；refund 100"

  const RISEN_WHOLE := [Plain("1", "gmv", 100.0), Plain("2", "refund", 200.0)]

  lemma LabelsOfClause(clause: string, word: string, after: string)
    requires clause == word + after && Trimmed(clause) && IsLabel(Lower(word))
    requires forall k :: 0 <= k < |clause| ==> LowerChar(clause[k]) != 'r'
    ensures Contains(NormalLabel(clause), Lower(word)) && !Contains(NormalLabel(clause), "refund")
  {
    assert "" + word + after == clause;
    WordIsFound("", word, after);
    WordIsMissing(clause, "refund");
  }

  /** A word of three letters, a blank and three more characters, none of them a separator. */
  predicate IsSimpleClause(clause: string) {
    && |clause| == 7 && clause[3] == ' ' && Trimmed(clause)
    && (forall k :: 0 <= k < 7 ==> !IsDateSeparator(clause[k]) && !IsSign(clause[k]))
    && (forall k :: 0 <= k < 7 ==> clause[k] !in CLAUSE_ENDS && clause[k] !in SEGMENT_ENDS)
  }

  lemma GmvIsSimple()
    ensures IsSimpleClause("GMV 200") && "GMV 200"[4..] == "200" && AllDigits("200")
    ensures SWAPPED_WHOLE == "GMV 200" + ['；'] + "refund 100"
  {
  }

  lemma ClauseIsStated(r: Reader, formula: Formula, text: string, clause: string, raw: string, rest: string)
    requires Scans(r, formula) && (forall s, x :: !formula(s, x)) && r.number(raw).Some?
    requires text == clause + ['；'] + rest && IsSimpleClause(clause) && clause[4..] == raw && AllDigits(raw)
    ensures StatedAt(r, formula, raw, text, clause, 0) && Beginning(clause, 0) == clause
  {
    assert '；' in CLAUSE_ENDS;
    FirstClause(clause, '；', rest, CLAUSE_ENDS);
    OnlyClause(clause, SEGMENT_ENDS);
    SegmentStatesNumber(r, formula, clause, raw);
  }

  lemma ClauseIsNotJustified(r: Reader, formula: Formula, raw: string, context: string, question: string, f: Fact, g: Fact)
    requires Scans(r, formula) && r.number(raw).Some? && raw != "" && raw[|raw| - 1] != '%'
    requires r.number(raw).value !in r.contextualNumbers(question)
    requires f.column != g.column && !HasValue(r, raw, f) && !Names(r, g, context, [f, g])
    ensures !Justified(r, raw, context, question, [f, g])
  {
    NumberIsNoDate(r, formula, raw);
    NothingDerived(r, raw, context, f, g);
  }

  lemma StatedIsRefused(r: Reader, formula: Formula, raw: string, text: string, clause: string, question: string, facts: seq<Fact>)
    requires Scans(r, formula) && r.number(raw).Some?
    requires StatedAt(r, formula, raw, text, clause, 0) && Beginning(clause, 0) == clause
    requires !Justified(r, raw, clause, question, facts)
    ensures !ValueJustified(r, raw, text, question, facts)
  {
    NumberIsNoDate(r, formula, raw);
    BoundIsJustified(r, raw, clause, question, facts);
    NumberIsBound(r, formula, raw, text, question, facts);
  }

  lemma RefundIsNotNamed(r: Reader, clause: string)
    requires clause == "GMV 200"
    ensures !Names(r, RISEN_WHOLE[1], clause, RISEN_WHOLE)
  {
    GmvInClause();
    ColumnsAreLabels(RISEN_WHOLE[0], RISEN_WHOLE[1]);
    NotNamed(r, RISEN_WHOLE[1], clause, RISEN_WHOLE[0], RISEN_WHOLE);
  }

  lemma ColumnsAreLabels(f: Fact, g: Fact)
    requires f.column == "gmv" && g.column == "refund"
    ensures IsLabel(f.column) && IsLabel(g.column) && f.column != g.column
  {
    assert |f.column| != |g.column|;
  }

  lemma GmvInClause()
    ensures Contains(NormalLabel("GMV 200"), "gmv") && !Contains(NormalLabel("GMV 200"), "refund")
  {
    assert Lower("GMV") == "gmv";
    LabelsOfClause("GMV 200", "GMV", " 200");
  }

  lemma GmvIsNotTwoHundred(r: Reader, raw: string)
    requires r.number(raw) == Some(200.0) && raw != "" && raw[|raw| - 1] != '%'
    ensures !HasValue(r, raw, RISEN_WHOLE[0])
  {
  }

  lemma TwoHundredIsNotJustified(r: Reader, formula: Formula, clause: string, question: string)
    requires Scans(r, formula) && clause == "GMV 200" && 200.0 !in r.contextualNumbers(question)
    ensures r.number("200").Some? && !Justified(r, "200", clause, question, RISEN_WHOLE)
  {
    var raw := "200";
    WholeReads(raw, 2);
    assert r.number(raw) == DecimalToken(raw);
    RefundIsNotNamed(r, clause);
    GmvIsNotTwoHundred(r, raw);
    ClauseIsNotJustified(r, formula, raw, clause, question, RISEN_WHOLE[0], RISEN_WHOLE[1]);
  }

  /** Swapped whole numbers are refused: each is checked in its own clause. */
  lemma SwappedWholeNumbersFail(r: Reader, formula: Formula, question: string)
    requires Scans(r, formula) && forall s, x :: !formula(s, x)
    requires 200.0 !in r.contextualNumbers(question)
    ensures !ValueJustified(r, "200", SWAPPED_WHOLE, question, RISEN_WHOLE)
  {
    var clause := "GMV 200";
    TwoHundredIsNotJustified(r, formula, clause, question);
    GmvIsSimple();
    ClauseIsStated(r, formula, SWAPPED_WHOLE, clause, "200", "refund 100");
    StatedIsRefused(r, formula, "200", SWAPPED_WHOLE, clause, question, RISEN_WHOLE);
  }

  // ----- a total needs a policy

  /** Two days of gmv, 100 and 200, under the policy. */
  function Days(policy: string): seq<Fact> {
    [Plain("1", "gmv", 100.0).(aggregationPolicy := policy), Plain("2", "gmv", 200.0).(aggregationPolicy := policy)]
  }

  lemma DaysOfOther(policy: string, key: (string, string))
    ensures GroupOf(Days(policy), key) == if key == ("t", "gmv") then Days(policy) else []
  {
    var f, g := Days(policy)[0], Days(policy)[1];
    assert Days(policy)[..1] == [f] && [f][..0] == [];
    assert GroupOf([f], key) == if key == ("t", "gmv") then [f] else [];
    assert [f] + [g] == Days(policy);
  }

  lemma TotalOfDays(policy: string)
    ensures (forall f :: f in Days(policy) ==> f.value.Some?) && Total(Days(policy)) == 300.0
  {
    var f: Measured, g: Measured := Days(policy)[0], Days(policy)[1];
    TotalAddsUp([f], [g], f);
    TotalAddsUp([], [], g);
    assert [f] + [g] == Days(policy);
  }

  lemma DaysAreLabelled(policy: string, f: Fact, context: string)
    requires f in Days(policy) && Contains(NormalLabel(context), "gmv")
    ensures LabelOccurs(LabelsOf(f), context)
  {
    assert f.column == "gmv" && f.labelText == "gmv";
    LabelsOfPlain(f);
    assert "gmv" in LabelsOf(f);
  }

  lemma DaysArePublished(policy: string)
    ensures IsPublishedRollup(Days(policy)) <==> Lower(Strip(policy)) == "period_rollup"
  {
    var g := Days(policy);
    PolicyExactly(g);
    assert g[0] in g;
    forall f | f in g ensures PolicyOf(f) == Lower(Strip(policy)) {}
  }

  lemma NamedDays(r: Reader, raw: string, context: string, policy: string)
    requires r.number(raw) == Some(300.0) && Contains(NormalLabel(context), "gmv")
    requires forall f :: f in Days(policy) ==> f.value.Some?
    ensures NamedTotal(r, raw, context, Days(policy)) <==> IsPublishedRollup(Days(policy))
  {
    TotalOfDays(policy);
    DaysAreLabelled(policy, Days(policy)[0], context);
  }

  /** Whether the policy publishes the total decides whether it is named. */
  lemma TotalIsNamedByPolicy(r: Reader, raw: string, context: string, policy: string)
    requires r.number(raw) == Some(300.0) && Contains(NormalLabel(context), "gmv")
    ensures TotalNamed(r, raw, context, Days(policy)) <==> Lower(Strip(policy)) == "period_rollup"
  {
    TotalOfDays(policy);
    NamedDays(r, raw, context, policy);
    DaysArePublished(policy);
    DaysOfOther(policy, ("t", "gmv"));
    forall key | key != ("t", "gmv") ensures !NamedTotal(r, raw, context, GroupOf(Days(policy), key)) { DaysOfOther(policy, key); }
  }

  lemma ThreeHundredIsNoDay(r: Reader, raw: string, context: string, policy: string)
    requires r.number(raw) == Some(300.0) && raw != "" && raw[|raw| - 1] != '%'
    ensures !FactNamed(r, raw, context, Days(policy))
  {
    assert forall f :: f in Days(policy) ==> !HasValue(r, raw, f);
  }

  lemma GmvThreeHundred()
    ensures IsSimpleClause("GMV 300") && "GMV 300"[4..] == "300" && AllDigits("300")
  {
  }

  lemma GmvIsFound()
    ensures Contains(NormalLabel("GMV 300"), "gmv")
  {
    var before, word, after := "", "GMV", " 300";
    LowerGmv();
    assert before + word + after == "GMV 300";
    WordIsFound(before, word, after);
  }

  lemma OnlyContext(r: Reader, formula: Formula, clause: string, raw: string, question: string, facts: seq<Fact>)
    requires Scans(r, formula) && (forall s, x :: !formula(s, x)) && r.number(raw).Some?
    requires IsSimpleClause(clause) && clause[4..] == raw && AllDigits(raw)
    ensures ValueJustified(r, raw, clause, question, facts) <==> Bound(r, raw, clause, question, facts)
  {
    OnlyClause(clause, CLAUSE_ENDS);
    OnlyClause(clause, SEGMENT_ENDS);
    SegmentStatesNumber(r, formula, clause, raw);
    assert StatedAt(r, formula, raw, clause, clause, 0) && Beginning(clause, 0) == clause;
    forall other, i: nat | StatedAt(r, formula, raw, clause, other, i) ensures other == clause && i == 0 {
      assert other in [clause];
    }
    NumberIsBound(r, formula, raw, clause, question, facts);
  }

  /** A direct claim of 300 over days of 100 and 200 passes exactly when the policy of the facts is `period_rollup`: with
      no policy, or another, the total is not published. */
  lemma TotalNeedsPolicy(r: Reader, formula: Formula, question: string, policy: string)
    requires Scans(r, formula) && forall s, x :: !formula(s, x)
    requires r.assertsDirectValue("GMV 300") && 300.0 !in r.contextualNumbers(question)
    ensures ValueJustified(r, "300", "GMV 300", question, Days(policy)) <==> Lower(Strip(policy)) == "period_rollup"
  {
    var raw, clause := "300", "GMV 300";
    WholeReads(raw, 3);
    assert r.number(raw) == DecimalToken(raw);
    GmvThreeHundred();
    GmvIsFound();
    OnlyContext(r, formula, clause, raw, question, Days(policy));
    NumberIsNoDate(r, formula, raw);
    ThreeHundredIsNoDay(r, raw, clause, policy);
    TotalIsNamedByPolicy(r, raw, clause, policy);
  }

  // ----- a number behind a date

  /** A text "2024-01-01,500". */
  predicate IsLost(text: string) {
    && |text| == 14 && text[4] == '-' && text[7] == '-' && text[10] == ','
    && (forall k :: 0 <= k < 14 && k !in {4, 7, 10} ==> IsDigit(text[k]))
  }

  lemma DateOfLost(text: string)
    requires IsLost(text)
    ensures Temporal(text) == [Span(0, 10)]
  {
    DigitEndIs(text, 0, 4);
    DigitEndIs(text, 5, 7);
    DigitEndIs(text, 8, 10);
    PartsAreDate(text, 0, 4, 7, 10);
    NoDateAnywhere(text, 10);
    assert Dates(text, 0) == [Span(0, 10)] + Dates(text, 10);
    assert WithTime(text, [Span(0, 10)]) == WithTime(text, []) by { assert [Span(0, 10)][1..] == []; }
    assert Apart([Span(0, 10)], []) == [Span(0, 10)] by { assert [Span(0, 10)][1..] == []; }
  }

  lemma LastSpanOfLost(text: string)
    requires IsLost(text)
    ensures Spans(text, 7) == [Span(8, 14)]
  {
    NothingStarts(text, 7, 8);
    NumberAt(text, 8, 14, 14);
    assert Spans(text, 14) == [];
  }

  lemma SpansOfLost(text: string)
    requires IsLost(text)
    ensures Spans(text, 0) == [Span(0, 4), Span(5, 7), Span(8, 14)]
  {
    NumberAt(text, 0, 4, 4);
    NothingStarts(text, 4, 5);
    NumberAt(text, 5, 7, 7);
    LastSpanOfLost(text);
  }

  lemma NumbersOfLost(formula: Formula, text: string)
    requires IsLost(text) && Temporal(text) == [Span(0, 10)]
    ensures Numbers(formula, text) == []
  {
    SpansOfLost(text);
    assert Span(0, 10) in Temporal(text);
    forall s | s in Spans(text, 0) ensures Overlaps(s, Temporal(text)) {}
    SomeMember(Numbers(formula, text));
  }

  lemma SomeMember(spans: seq<Span>)
    ensures spans == [] || exists s :: s in spans
  {
    if spans != [] { assert spans[0] in spans; }
  }

  lemma ExtractedOfLost(formula: Formula, text: string)
    requires IsLost(text)
    ensures Extracted(formula, text) == [Span(0, 10)]
  {
    DateOfLost(text);
    NumbersOfLost(formula, text);
    assert SortByStart([Span(0, 10)]) == [Span(0, 10)] by { assert [Span(0, 10)][1..] == []; }
    assert [Span(0, 10)] + [] == [Span(0, 10)];
  }

  /** The digits of a number behind a date and a comma are read as part of the date's day, and lost. */
  lemma NumberBehindDateIsLost(formula: Formula, text: string)
    requires IsLost(text)
    ensures Extract(formula, text) == [text[..10]]
    ensures forall k :: 11 <= k < 14 ==> !InSpan(Extracted(formula, text), k)
  {
    ExtractedOfLost(formula, text);
    var cut := Cut(text, [Span(0, 10)]);
    assert cut[..0] == [] && Dedupe([]) == [];
  }

  lemma FiveHundredIsLost(formula: Formula)
    ensures Extract(formula, "2024-01-01,500") == ["2024-01-01"]
  {
    assert IsLost("2024-01-01,500") && "2024-01-01,500"[..10] == "2024-01-01";
    NumberBehindDateIsLost(formula, "2024-01-01,500");
  }
}
