/**
 How `answer_claims.py` cuts an answer into sentences, and what is left of a
 sentence when bullets and list numbers are taken off.
 */
module AnswerSentences {
  import opened Basics
  import opened Text
  import opened NumberScanner

  // ----- lines

  /** The characters at which `str.splitlines` breaks. */
  predicate IsLineBreak(c: char) {
    var n := c as int;
    0x0a <= n <= 0x0d || 0x1c <= n <= 0x1e || n == 0x85 || n == 0x2028 || n == 0x2029
  }

  function LineEnd(text: string, i: nat): (end: nat)
    requires i <= |text|
    ensures i <= end <= |text|
    decreases |text| - i
  {
    if i < |text| && !IsLineBreak(text[i]) then LineEnd(text, i + 1) else i
  }

  /** `text[i:].splitlines()` */
  function LinesFrom(text: string, i: nat): seq<string>
    requires i <= |text|
    decreases |text| - i
  {
    if i == |text| then []
    else
      var end := LineEnd(text, i);
      var next := if end + 1 < |text| && text[end] == '\r' && text[end + 1] == '\n' then end + 2
                  else if end < |text| then end + 1 else end;
      [text[i..end]] + LinesFrom(text, next)
  }

  function Lines(text: string): seq<string> { LinesFrom(text, 0) }

  // ----- sentences

  const SENTENCE_ENDS := "。！？!?\n"

  /** The sentence that the separator at `cursor` ends, unless it is empty. */
  function Ended(text: string, start: nat, cursor: nat): (spans: seq<Span>)
    requires start <= cursor < |text|
    ensures forall s :: s in spans ==> start <= s.start < s.end <= cursor + 1
    ensures |spans| <= 1
  {
    var end := if text[cursor] == '\n' then cursor else cursor + 1;
    if start < end then [Span(start, end)] else []
  }

  /** The sentences behind `start`, of which the characters before `cursor` have been read. */
  function SentencesFrom(text: string, start: nat, cursor: nat): (spans: seq<Span>)
    requires start <= cursor <= |text|
    ensures forall i :: 0 <= i < |spans| ==> start <= spans[i].start < spans[i].end <= |text|
    ensures forall i, j :: 0 <= i < j < |spans| ==> spans[i].end <= spans[j].start
    decreases |text| - cursor
  {
    if cursor == |text| then (if start < |text| then [Span(start, |text|)] else [])
    else if text[cursor] !in SENTENCE_ENDS then SentencesFrom(text, start, cursor + 1)
    else Ended(text, start, cursor) + SentencesFrom(text, cursor + 1, cursor + 1)
  }

  /** _factual_sentence_matches */
  function Sentences(text: string): seq<Span> { SentencesFrom(text, 0, 0) }

  lemma NextSentence(spans: seq<Span>, text: string, start: nat, cursor: nat)
    requires start <= cursor < |text| && text[cursor] in SENTENCE_ENDS
    ensures spans + Ended(text, start, cursor) + SentencesFrom(text, cursor + 1, cursor + 1) == spans + SentencesFrom(text, start, cursor)
  {
    ConcatAssociates(spans, Ended(text, start, cursor), SentencesFrom(text, cursor + 1, cursor + 1));
  }

  method FactualSentenceMatches(text: string) returns (spans: seq<Span>)
    ensures spans == Sentences(text)
  {
    spans := [];
    var start, cursor := 0, 0;
    while cursor < |text|
      invariant start <= cursor <= |text|
      invariant spans + SentencesFrom(text, start, cursor) == Sentences(text)
    {
      if text[cursor] in SENTENCE_ENDS {
        NextSentence(spans, text, start, cursor);
        spans := spans + Ended(text, start, cursor);
        start := cursor + 1;
      }
      cursor := cursor + 1;
    }
    if start < |text| { spans := spans + [Span(start, |text|)]; }
  }

  ghost predicate IsInSentence(spans: seq<Span>, k: nat) { exists s :: s in spans && s.start <= k < s.end }

  lemma InEitherPart(a: seq<Span>, b: seq<Span>, k: nat)
    ensures IsInSentence(a + b, k) <==> IsInSentence(a, k) || IsInSentence(b, k)
  {
  }

  lemma {:induction false} SentencesCoverFrom(text: string, start: nat, cursor: nat, k: nat)
    requires start <= cursor <= |text| && start <= k < |text|
    requires forall i :: start <= i < cursor ==> text[i] !in SENTENCE_ENDS
    ensures IsInSentence(SentencesFrom(text, start, cursor), k) <==> text[k] != '\n'
    decreases |text| - cursor
  {
    if cursor == |text| {
      assert k < cursor;
      assert Span(start, |text|) in SentencesFrom(text, start, cursor);
    } else if text[cursor] !in SENTENCE_ENDS {
      SentencesCoverFrom(text, start, cursor + 1, k);
    } else {
      var here, rest := Ended(text, start, cursor), SentencesFrom(text, cursor + 1, cursor + 1);
      InEitherPart(here, rest, k);
      assert here != [] ==> here[0] in here;
      if k > cursor { SentencesCoverFrom(text, cursor + 1, cursor + 1, k); }
    }
  }

  /** No character is lost between the sentences but the line ends; and none lies in two of them. */
  lemma SentencesCover(text: string, k: nat)
    requires k < |text|
    ensures IsInSentence(Sentences(text), k) <==> text[k] != '\n'
  {
    SentencesCoverFrom(text, 0, 0, k);
  }

  // ----- bullets and list numbers

  const BULLETS := " -*\t\r\n"

  predicate IsBullet(c: char) { c in BULLETS }

  function BlanksEnd(text: string, i: nat): (end: nat)
    requires i <= |text|
    ensures i <= end <= |text|
    decreases |text| - i
  {
    if i < |text| && IsSpace(text[i]) then BlanksEnd(text, i + 1) else i
  }

  /** Digits, and what else `str.isnumeric` accepts. */
  function NumeralEnd(numeric: char -> bool, text: string, i: nat): (end: nat)
    requires i <= |text|
    ensures i <= end <= |text|
    decreases |text| - i
  {
    if i < |text| && (IsDigit(text[i]) || numeric(text[i])) then NumeralEnd(numeric, text, i + 1) else i
  }

  predicate IsListMark(c: char) { c == '.' || c == '、' || c == ')' }

  /** Where the text behind a list number begins; 0 without one. */
  function ListNumberEnd(numeric: char -> bool, text: string): (end: nat)
    ensures end <= |text|
  {
    var start := BlanksEnd(text, 0);
    var stop := NumeralEnd(numeric, text, start);
    if stop == start || stop >= |text| || !IsListMark(text[stop]) then 0 else BlanksEnd(text, stop + 1)
  }

  /** _strip_ordered_list_prefix */
  function WithoutListNumber(numeric: char -> bool, text: string): string { text[ListNumberEnd(numeric, text)..] }

  method StripOrderedListPrefix(numeric: char -> bool, value: string) returns (text: string)
    ensures text == WithoutListNumber(numeric, value)
  {
    var cursor := SkipBlanks(value, 0);
    var tokenStart := cursor;
    while cursor < |value| && (IsDigit(value[cursor]) || numeric(value[cursor]))
      invariant tokenStart <= cursor <= |value|
      invariant NumeralEnd(numeric, value, cursor) == NumeralEnd(numeric, value, tokenStart)
    {
      cursor := cursor + 1;
    }
    if cursor == tokenStart || cursor >= |value| || !IsListMark(value[cursor]) { return value; }
    cursor := SkipBlanks(value, cursor + 1);
    return value[cursor..];
  }

  method SkipBlanks(value: string, start: nat) returns (cursor: nat)
    requires start <= |value|
    ensures cursor == BlanksEnd(value, start)
  {
    cursor := start;
    while cursor < |value| && IsSpace(value[cursor])
      invariant start <= cursor <= |value|
      invariant BlanksEnd(value, cursor) == BlanksEnd(value, start)
    {
      cursor := cursor + 1;
    }
  }

  /** `sentence.strip(" -*\t\r\n")` */
  function WithoutBullets(sentence: string): string { StripRight(IsBullet, StripLeft(IsBullet, sentence)) }

  /** What of a sentence becomes a claim. */
  function Clean(numeric: char -> bool, sentence: string): string {
    Strip(WithoutListNumber(numeric, WithoutBullets(sentence)))
  }

  /** The list number that is taken off a sentence, with the blanks around it. */
  function ListNumber(numeric: char -> bool, sentence: string): string {
    var core := WithoutBullets(sentence);
    core[..ListNumberEnd(numeric, core)]
  }

  // ----- what cleaning takes away

  lemma {:induction false} NothingKept(keep: char -> bool, s: string)
    requires forall k :: 0 <= k < |s| ==> !keep(s[k])
    ensures Filter(keep, s) == ""
  {
    if s != "" { NothingKept(keep, s[1..]); }
  }

  /** Stripping characters that are not looked for changes nothing of what is. */
  lemma StripKeeps(blank: char -> bool, keep: char -> bool, s: string)
    requires forall c :: blank(c) ==> !keep(c)
    ensures Filter(keep, StripRight(blank, StripLeft(blank, s))) == Filter(keep, s)
  {
    var i := StripLeftIsSuffix(blank, s);
    var rest := s[i..];
    var j := StripRightIsPrefix(blank, rest);
    assert s == s[..i] + rest && rest == rest[..j] + rest[j..];
    FilterConcat(keep, s[..i], rest);
    FilterConcat(keep, rest[..j], rest[j..]);
    NothingKept(keep, s[..i]);
    NothingKept(keep, rest[j..]);
  }

  function DigitsOf(s: string): string { Filter(IsDigit, s) }

  lemma DigitsOfCore(core: string, n: nat)
    requires n <= |core|
    ensures DigitsOf(core) == DigitsOf(core[..n]) + DigitsOf(Strip(core[n..]))
  {
    StripKeeps(IsSpace, IsDigit, core[n..]);
    assert core == core[..n] + core[n..];
    FilterConcat(IsDigit, core[..n], core[n..]);
  }

  /** The digits of a sentence are those of its list number and those of what becomes a claim. */
  lemma DigitsAreKept(numeric: char -> bool, sentence: string)
    ensures DigitsOf(sentence) == DigitsOf(ListNumber(numeric, sentence)) + DigitsOf(Clean(numeric, sentence))
  {
    var core := WithoutBullets(sentence);
    StripKeeps(IsBullet, IsDigit, sentence);
    DigitsOfCore(core, ListNumberEnd(numeric, core));
  }

  /** Digits are lost exactly when the list number holds some. */
  lemma DigitsAreLostExactly(numeric: char -> bool, sentence: string)
    ensures DigitsOf(Clean(numeric, sentence)) == DigitsOf(sentence) <==> DigitsOf(ListNumber(numeric, sentence)) == ""
  {
    DigitsAreKept(numeric, sentence);
    var a, b := DigitsOf(ListNumber(numeric, sentence)), DigitsOf(Clean(numeric, sentence));
    assert |a + b| == |a| + |b|;
    assert a == "" ==> a + b == b;
  }

  lemma StripNothing(blank: char -> bool, s: string)
    requires s != "" && !blank(s[0]) && !blank(s[|s| - 1])
    ensures StripRight(blank, StripLeft(blank, s)) == s
  {
  }

  /** A decimal number at the start of a sentence is taken for a list number: of "3.5% GMV" the claim is "5% GMV". */
  lemma DecimalIsTakenForListNumber(numeric: char -> bool)
    requires !numeric('.')
    ensures Clean(numeric, "3.5% GMV") == "5% GMV"
  {
    var s := "3.5% GMV";
    StripNothing(IsBullet, s);
    assert BlanksEnd(s, 0) == 0 && NumeralEnd(numeric, s, 1) == 1 && NumeralEnd(numeric, s, 0) == 1;
    assert ListNumberEnd(numeric, s) == 2 && s[2..] == "5% GMV";
    TrimmedIsItsStrip("5% GMV");
  }

  /** A minus sign at the start of a sentence is taken for a bullet: of "-5% GMV" the claim is "5% GMV". */
  lemma MinusIsTakenForBullet(numeric: char -> bool)
    requires !numeric('%')
    ensures Clean(numeric, "-5% GMV") == "5% GMV"
  {
    var s, t := "-5% GMV", "5% GMV";
    assert s[1..] == t && StripLeft(IsBullet, s) == t;
    StripNothing(IsBullet, t);
    assert BlanksEnd(t, 0) == 0 && NumeralEnd(numeric, t, 1) == 1 && NumeralEnd(numeric, t, 0) == 1;
    assert ListNumberEnd(numeric, t) == 0 && t[0..] == t;
    TrimmedIsItsStrip(t);
  }

  // ----- entities

  predicate IsEntityChar(c: char) { IsWord(c) || c == '-' }

  function EntityEnd(text: string, i: nat): (end: nat)
    requires i <= |text|
    ensures i <= end <= |text|
    decreases |text| - i
  {
    if i < |text| && IsEntityChar(text[i]) then EntityEnd(text, i + 1) else i
  }

  /** At least four characters, with a digit behind the third. */
  predicate IsEntity(token: string) { |token| >= 4 && exists k :: 3 <= k < |token| && IsDigit(token[k]) }

  /** _entity_matches */
  function EntitiesFrom(text: string, cursor: nat): (tokens: seq<string>)
    requires cursor <= |text|
    ensures forall t :: t in tokens ==> IsEntity(t) && IsLetter(t[0])
    decreases |text| - cursor
  {
    if cursor == |text| then []
    else if !IsLetter(text[cursor]) then EntitiesFrom(text, cursor + 1)
    else
      var end := EntityEnd(text, cursor + 1);
      (if IsEntity(text[cursor..end]) then [text[cursor..end]] else []) + EntitiesFrom(text, end)
  }

  function Entities(text: string): seq<string> { EntitiesFrom(text, 0) }

  method EntityMatches(text: string) returns (tokens: seq<string>)
    ensures tokens == Entities(text)
  {
    tokens := [];
    var cursor := 0;
    while cursor < |text|
      invariant cursor <= |text|
      invariant tokens + EntitiesFrom(text, cursor) == Entities(text)
    {
      if !IsLetter(text[cursor]) {
        cursor := cursor + 1;
        continue;
      }
      var start := cursor;
      cursor := cursor + 1;
      while cursor < |text| && IsEntityChar(text[cursor])
        invariant start < cursor <= |text|
        invariant EntityEnd(text, cursor) == EntityEnd(text, start + 1)
      {
        cursor := cursor + 1;
      }
      var found := if IsEntity(text[start..cursor]) then [text[start..cursor]] else [];
      ConcatAssociates(tokens, found, EntitiesFrom(text, cursor));
      tokens := tokens + found;
    }
  }
}
