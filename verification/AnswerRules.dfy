/**
 The rules by which an answer is cut into claims, each spelled out: lines,
 sentences, list numbers, entities, headings, known names, tables and their rows.
 */
module AnswerRules {
  import opened Basics
  import opened Text
  import opened NumberScanner
  import opened NumberText
  import opened MarkdownTable
  import opened ClaimNumbers
  import opened ClaimTokens
  import opened ClaimVerifier
  import opened ClaimBinding
  import opened TrendClaims
  import opened AnswerSentences
  import opened AnswerClaims

  // ----- lines

  /** A line ends at each of these ten characters. */
  lemma LineBreaks(c: char)
    ensures IsLineBreak(c) <==> c as int in {0x0a, 0x0b, 0x0c, 0x0d, 0x1c, 0x1d, 0x1e, 0x85, 0x2028, 0x2029}
  {
  }

  predicate HasNoBreak(s: string) { forall k :: 0 <= k < |s| ==> !IsLineBreak(s[k]) }

  lemma {:induction false} LineEndBehind(text: string, n: nat, back: string, i: nat)
    requires n <= |text| && text[n..] == back && i <= |back|
    ensures LineEnd(text, n + i) == n + LineEnd(back, i)
    decreases |back| - i
  {
    if i < |back| {
      assert text[n + i] == back[i];
      if !IsLineBreak(back[i]) { LineEndBehind(text, n, back, i + 1); }
    }
  }

  /** Where the line behind the one from `i` begins. */
  function NextLine(text: string, i: nat): (next: nat)
    requires i < |text|
    ensures i < next <= |text|
  {
    var end := LineEnd(text, i);
    if end == |text| then end
    else if text[end] == '\r' && end + 1 < |text| && text[end + 1] == '\n' then end + 2
    else end + 1
  }

  lemma LineByLine(text: string, i: nat)
    requires i < |text|
    ensures LinesFrom(text, i) == [text[i..LineEnd(text, i)]] + LinesFrom(text, NextLine(text, i))
  {
  }

  lemma NextLineBehind(text: string, n: nat, back: string, i: nat)
    requires n <= |text| && text[n..] == back && i < |back|
    ensures NextLine(text, n + i) == n + NextLine(back, i)
    ensures text[n + i..LineEnd(text, n + i)] == back[i..LineEnd(back, i)]
  {
    LineEndBehind(text, n, back, i);
    assert forall k :: 0 <= k < |back| ==> text[n + k] == back[k];
  }

  lemma {:induction false} LinesBehind(text: string, n: nat, back: string, i: nat)
    requires n <= |text| && text[n..] == back && i <= |back|
    ensures LinesFrom(text, n + i) == LinesFrom(back, i)
    decreases |back| - i
  {
    if i < |back| {
      LineByLine(text, n + i);
      LineByLine(back, i);
      NextLineBehind(text, n, back, i);
      var next := NextLine(back, i);
      assert LinesFrom(text, n + i) == [back[i..LineEnd(back, i)]] + LinesFrom(text, n + next);
      LinesBehind(text, n, back, next);
    }
  }

  lemma {:induction false} LineEndIs(text: string, i: nat, end: nat)
    requires i <= end <= |text| && (forall k :: i <= k < end ==> !IsLineBreak(text[k])) && (end < |text| ==> IsLineBreak(text[end]))
    ensures LineEnd(text, i) == end
    decreases end - i
  {
    if i < end { LineEndIs(text, i + 1, end); }
  }

  /** A text without breaks is one line, and none when it is empty. */
  lemma OneLineOnly(a: string)
    requires HasNoBreak(a)
    ensures Lines(a) == if a == "" then [] else [a]
  {
    if a != "" {
      LineEndIs(a, 0, |a|);
      assert a[0..|a|] == a && LinesFrom(a, |a|) == [];
    }
  }

  lemma BreakBehind(a: string, c: char, b: string)
    requires HasNoBreak(a) && IsLineBreak(c)
    ensures var text := a + [c] + b;
            && LineEnd(text, 0) == |a| && text[..|a|] == a && text[|a|] == c && text[|a| + 1..] == b
            && (b != "" ==> text[|a| + 1] == b[0] && text[|a| + 2..] == b[1..])
  {
    var text := a + [c] + b;
    assert text[|a|] == c && forall k :: 0 <= k < |a| ==> text[k] == a[k];
    LineEndIs(text, 0, |a|);
  }

  /** The first line ends at the first break; a carriage return and a line feed behind it are one break. */
  lemma FirstLine(a: string, c: char, b: string)
    requires HasNoBreak(a) && IsLineBreak(c)
    ensures Lines(a + [c] + b) == [a] + Lines(if c == '\r' && b != "" && b[0] == '\n' then b[1..] else b)
  {
    var text := a + [c] + b;
    BreakBehind(a, c, b);
    LineByLine(text, 0);
    if c == '\r' && b != "" && b[0] == '\n' {
      LinesBehind(text, |a| + 2, b[1..], 0);
    } else {
      LinesBehind(text, |a| + 1, b, 0);
    }
  }

  // ----- sentences

  predicate EndsSentence(c: char) { c == '。' || c == '！' || c == '？' || c == '!' || c == '?' || c == '\n' }

  /** The span reaches from behind an end to the next one, which it holds unless that is a line feed. */
  predicate IsWholeSentence(text: string, s: Span) {
    && s.start < s.end <= |text|
    && (s.start > 0 ==> EndsSentence(text[s.start - 1]))
    && (forall k :: s.start <= k < s.end - 1 ==> !EndsSentence(text[k]))
    && text[s.end - 1] != '\n'
    && (s.end == |text| || EndsSentence(text[s.end - 1]) || text[s.end] == '\n')
  }

  /** No end lies between, and one lies in front. */
  predicate IsOpen(text: string, start: nat, cursor: nat)
    requires start <= cursor <= |text|
  {
    (start > 0 ==> EndsSentence(text[start - 1])) && forall k :: start <= k < cursor ==> !EndsSentence(text[k])
  }

  lemma EndedIsWhole(text: string, start: nat, cursor: nat, s: Span)
    requires start <= cursor < |text| && IsOpen(text, start, cursor) && EndsSentence(text[cursor]) && s in Ended(text, start, cursor)
    ensures IsWholeSentence(text, s)
  {
  }

  lemma RestIsWhole(text: string, start: nat, s: Span)
    requires start <= |text| && IsOpen(text, start, |text|) && s in SentencesFrom(text, start, |text|)
    ensures IsWholeSentence(text, s)
  {
  }

  lemma NextCharacter(text: string, start: nat, cursor: nat)
    requires start <= cursor < |text|
    ensures SentencesFrom(text, start, cursor)
         == if EndsSentence(text[cursor]) then Ended(text, start, cursor) + SentencesFrom(text, cursor + 1, cursor + 1)
            else SentencesFrom(text, start, cursor + 1)
  {
    EndCharacters(text[cursor]);
  }

  lemma {:induction false} SentencesAreWholeFrom(text: string, start: nat, cursor: nat, s: Span)
    requires start <= cursor <= |text| && s in SentencesFrom(text, start, cursor) && IsOpen(text, start, cursor)
    ensures IsWholeSentence(text, s)
    decreases |text| - cursor
  {
    if cursor == |text| {
      RestIsWhole(text, start, s);
    } else {
      NextCharacter(text, start, cursor);
      if !EndsSentence(text[cursor]) {
        SentencesAreWholeFrom(text, start, cursor + 1, s);
      } else if s in Ended(text, start, cursor) {
        EndedIsWhole(text, start, cursor, s);
      } else {
        SentencesAreWholeFrom(text, cursor + 1, cursor + 1, s);
      }
    }
  }

  lemma EndCharacters(c: char)
    ensures c in SENTENCE_ENDS <==> EndsSentence(c)
  {
  }

  /** Every sentence reaches from one of the six ends to the next. */
  lemma SentencesAreWhole(text: string, s: Span)
    requires s in Sentences(text)
    ensures IsWholeSentence(text, s)
  {
    SentencesAreWholeFrom(text, 0, 0, s);
  }

  // ----- list numbers and bullets

  lemma BulletCharacters(c: char)
    ensures IsBullet(c) <==> c in {' ', '-', '*', '\t', '\r', '\n'}
  {
  }

  lemma {:induction false} NumeralEndIs(numeric: char -> bool, text: string, i: nat, end: nat)
    requires i <= end < |text| && (forall k :: i <= k < end ==> IsDigit(text[k]) || numeric(text[k])) && !IsDigit(text[end]) && !numeric(text[end])
    ensures NumeralEnd(numeric, text, i) == end
    decreases end - i
  {
    if i < end { NumeralEndIs(numeric, text, i + 1, end); }
  }

  lemma {:induction false} BlanksBehind(text: string, n: nat, back: string)
    requires n <= |text| && text[n..] == back
    ensures text[BlanksEnd(text, n)..] == StripLeft(IsSpace, back)
    decreases |back|
  {
    if back != "" {
      assert text[n] == back[0];
      if IsSpace(back[0]) {
        assert text[n + 1..] == back[1..];
        BlanksBehind(text, n + 1, back[1..]);
      }
    }
  }

  /** Digits, ASCII or other, at the start are a list number exactly before a point, an enumeration comma or a closing parenthesis;
      then they, the mark and the blanks behind it are taken off. */
  lemma ListNumberExactly(numeric: char -> bool, digits: string, c: char, rest: string)
    requires digits != "" && !IsSpace(digits[0]) && !IsDigit(c) && !numeric(c)
    requires forall k :: 0 <= k < |digits| ==> IsDigit(digits[k]) || numeric(digits[k])
    ensures WithoutListNumber(numeric, digits + [c] + rest)
         == if c == '.' || c == '、' || c == ')' then StripLeft(IsSpace, rest) else digits + [c] + rest
  {
    var text := digits + [c] + rest;
    assert text[|digits|] == c && forall k :: 0 <= k < |digits| ==> text[k] == digits[k];
    assert BlanksEnd(text, 0) == 0;
    NumeralEndIs(numeric, text, 0, |digits|);
    assert text[|digits| + 1..] == rest;
    BlanksBehind(text, |digits| + 1, rest);
    assert text[0..] == text;
  }

  // ----- entities

  predicate IsNameChar(c: char) { 'A' <= c <= 'Z' || 'a' <= c <= 'z' || '0' <= c <= '9' || c == '_' || c == '-' }

  lemma {:induction false} EntityEndIs(text: string, i: nat, end: nat)
    requires i <= end <= |text| && (forall k :: i <= k < end ==> IsNameChar(text[k])) && (end < |text| ==> !IsNameChar(text[end]))
    ensures EntityEnd(text, i) == end
    decreases end - i
  {
    if i < end { EntityEndIs(text, i + 1, end); }
  }

  /** A word of these characters that starts with a letter is an entity exactly when a digit stands behind its third
      character. */
  lemma EntityExactly(word: string)
    requires word != "" && ('A' <= word[0] <= 'Z' || 'a' <= word[0] <= 'z') && forall k :: 0 <= k < |word| ==> IsNameChar(word[k])
    ensures Entities(word) == if exists k :: 3 <= k < |word| && '0' <= word[k] <= '9' then [word] else []
  {
    EntityEndIs(word, 1, |word|);
    assert word[0..|word|] == word && EntitiesFrom(word, |word|) == [];
    assert IsEntity(word) <==> exists k :: 3 <= k < |word| && '0' <= word[k] <= '9';
  }

  // ----- headings and names

  /** A line is a heading of evidence when, blanks around it apart, it starts with a listed heading and a colon, plain
      or full-width. */
  lemma HeadingExactly(policy: Policy, line: string)
    ensures IsRuleHeading(policy, line) <==>
              exists h, tail :: h in policy.ruleHeadings && (Strip(line) == h + ":" + tail || Strip(line) == h + "：" + tail)
  {
    var text := Strip(line);
    forall h | h in policy.ruleHeadings && (h + ":" <= text || h + "：" <= text)
      ensures exists tail :: text == h + ":" + tail || text == h + "：" + tail
    {
      var tail := text[|h| + 1..];
      assert text == text[..|h| + 1] + tail;
      assert text == h + ":" + tail || text == h + "：" + tail;
    }
  }

  /** A normalised name of a fact with a value: its column, its label or one of its aliases. */
  ghost predicate IsNameOf(f: Fact, l: string) {
    f.value.Some? && exists name :: IsGivenName(f, name) && NormalLabel(name) == l
  }

  ghost predicate IsGivenName(f: Fact, name: string) {
    name != "" && (name == f.column || name == f.labelText || name in f.aliases)
  }

  lemma {:induction false} NonEmptyHolds(texts: seq<string>)
    ensures forall t :: t in NonEmpty(texts) <==> t in texts && t != ""
  {
    if texts != [] {
      NonEmptyHolds(texts[1..]);
      assert texts == [texts[0]] + texts[1..];
    }
  }

  lemma GivenNames(f: Fact)
    ensures forall name :: name in NonEmpty([f.column, f.labelText] + f.aliases) <==> IsGivenName(f, name)
  {
    NonEmptyHolds([f.column, f.labelText] + f.aliases);
  }

  lemma LabelsOfNames(names: seq<string>, l: string)
    ensures l in NormalLabels(names) <==> exists name :: name in names && NormalLabel(name) == l
  {
    if l in NormalLabels(names) {
      var i :| 0 <= i < |names| && NormalLabels(names)[i] == l;
      assert names[i] in names;
    }
    if name :| name in names && NormalLabel(name) == l {
      var i :| 0 <= i < |names| && names[i] == name;
      assert NormalLabels(names)[i] == l;
    }
  }

  lemma NamesOfFact(f: Fact, l: string)
    ensures l in NormalLabels(NonEmpty([f.column, f.labelText] + f.aliases)) <==> exists name :: IsGivenName(f, name) && NormalLabel(name) == l
  {
    var names := NonEmpty([f.column, f.labelText] + f.aliases);
    GivenNames(f);
    LabelsOfNames(names, l);
    SameNames(f, names, l);
  }

  lemma SameNames(f: Fact, names: seq<string>, l: string)
    requires forall name :: name in names <==> IsGivenName(f, name)
    ensures (exists name :: name in names && NormalLabel(name) == l) <==> exists name :: IsGivenName(f, name) && NormalLabel(name) == l
  {
    if name :| name in names && NormalLabel(name) == l { assert IsGivenName(f, name); }
    if name :| IsGivenName(f, name) && NormalLabel(name) == l { assert name in names; }
  }

  ghost predicate SomeNamed(facts: seq<Fact>, l: string) { exists f :: f in facts && IsNameOf(f, l) }

  lemma FirstOrLater(f: Fact, rest: seq<Fact>, l: string)
    ensures SomeNamed([f] + rest, l) <==> IsNameOf(f, l) || SomeNamed(rest, l)
  {
    assert f in [f] + rest;
  }

  /** The known names are exactly those of the facts with a value. */
  lemma {:induction false} KnownExactly(facts: seq<Fact>, l: string)
    ensures l in KnownNames(facts) <==> SomeNamed(facts, l)
  {
    if facts != [] {
      KnownExactly(facts[1..], l);
      FirstKnown(facts, l);
      FirstOrLater(facts[0], facts[1..], l);
      assert facts == [facts[0]] + facts[1..];
    }
  }

  lemma FirstKnown(facts: seq<Fact>, l: string)
    requires facts != []
    ensures l in KnownNames(facts) <==> IsNameOf(facts[0], l) || l in KnownNames(facts[1..])
  {
    NamesOfFact(facts[0], l);
  }

  /** Of the entities of a text, those count that are no known name. */
  lemma {:induction false} BusinessExactly(known: seq<string>, tokens: seq<string>, t: string)
    ensures t in BusinessEntities(known, tokens) <==> t in tokens && Strip(t) != "" && NormalLabel(Lower(Strip(t))) !in known
  {
    if tokens != [] {
      BusinessExactly(known, tokens[1..], t);
      assert tokens == [tokens[0]] + tokens[1..];
    }
  }

  /** A sentence without numbers is claimed when it says a direction, is not negated and holds a known name. */
  lemma QualitativeExactly(policy: Policy, known: seq<string>, sentence: string)
    ensures IsQualitative(policy, known, sentence) <==>
              && DirectionWord(policy.lang, sentence).Some? && !policy.lang.negated(sentence)
              && exists l, i :: l in known && l != "" && 0 <= i <= |NormalLabel(sentence)| && l <= NormalLabel(sentence)[i..]
  {
  }

  /** A claim is made of a text that has a number, an entity or a direction of a known name. */
  lemma SaysExactly(policy: Policy, known: seq<string>, text: string)
    ensures SaysSomething(policy, known, text) <==>
              && text != ""
              && (|| (exists t :: t in Extract(policy.formula, text))
                  || (exists t :: t in Entities(text) && t != "" && Strip(t) != "" && NormalLabel(Lower(Strip(t))) !in known)
                  || IsQualitative(policy, known, text))
  {
    var numbers, entities := Extract(policy.formula, text), EntitiesOf(known, text);
    if numbers != [] { assert numbers[0] in numbers; }
    if Dedupe(entities) != [] {
      var t := Dedupe(entities)[0];
      assert t in Dedupe(entities);
      BusinessExactly(known, Entities(text), t);
    }
    forall t | t in Entities(text) && t != "" && Strip(t) != "" && NormalLabel(Lower(Strip(t))) !in known ensures Dedupe(entities) != [] {
      BusinessExactly(known, Entities(text), t);
      assert t in Dedupe(entities);
    }
  }

  /** The claim of a text lists its tokens and its entities that are no known name. */
  lemma ClaimExactly(policy: Policy, known: seq<string>, text: string, t: string)
    ensures ClaimOf(policy, known, text).text == text && ClaimOf(policy, known, text).numericValues == Extract(policy.formula, text)
    ensures t in ClaimOf(policy, known, text).entityValues <==>
              t in Entities(text) && t != "" && Strip(t) != "" && NormalLabel(Lower(Strip(t))) !in known
  {
    BusinessExactly(known, Entities(text), t);
  }

  lemma {:induction false} LinesBefore(policy: Policy, lines: seq<string>, k: nat)
    requires k <= |lines| && (forall i :: 0 <= i < k ==> !IsRuleHeading(policy, lines[i])) && (k < |lines| ==> IsRuleHeading(policy, lines[k]))
    ensures LinesBeforeRules(policy, lines) == lines[..k]
    decreases k
  {
    if k > 0 {
      LinesBefore(policy, lines[1..], k - 1);
      assert lines[..k] == [lines[0]] + lines[1..][..k - 1];
    }
  }

  /** What is checked of an answer are its lines up to the first heading of evidence, or all of them. */
  lemma BodyExactly(policy: Policy, answer: string, k: nat)
    requires var lines := Lines(answer);
             k <= |lines| && (forall i :: 0 <= i < k ==> !IsRuleHeading(policy, lines[i])) && (k < |lines| ==> IsRuleHeading(policy, lines[k]))
    ensures Body(policy, answer) == Join(Lines(answer)[..k], "\n")
  {
    LinesBefore(policy, Lines(answer), k);
  }

  // ----- tables

  predicate IsKeptInHeader(c: char) {
    !IsSpace(c) && c != '_' && c != '.' && c != '#' && c != '：' && c != ':' && c != '（' && c != '）' && c != '(' && c != ')' && c != '-'
  }

  lemma HeaderCharacters(c: char)
    ensures IsHeaderChar(c) <==> IsKeptInHeader(c)
  {
  }

  lemma {:induction false} FiltersAlike(p: char -> bool, q: char -> bool, s: string)
    requires forall c :: p(c) == q(c)
    ensures Filter(p, s) == Filter(q, s)
  {
    if s != "" { FiltersAlike(p, q, s[1..]); }
  }

  /** A cell numbers its row when its header, nine marks and blanks apart, is a position label and it reads as the
      number of the row. */
  lemma PositionExactly(policy: Policy, header: string, value: string, position: nat)
    ensures IsPosition(policy, header, value, position) <==>
              Filter(IsKeptInHeader, Lower(Strip(header))) in policy.positionLabels && DecimalToken(value) == Some(position as real)
  {
    forall c ensures IsHeaderChar(c) == IsKeptInHeader(c) { HeaderCharacters(c); }
    FiltersAlike(IsHeaderChar, IsKeptInHeader, Lower(Strip(header)));
  }

  /** A cell without a header is named by its column, counted from one. */
  lemma HeaderExactly(headers: seq<string>, k: nat)
    ensures HeaderOf(headers, k) == if k < |headers| then Strip(headers[k]) else "列" + NatText(k + 1)
  {
    var digits := NatText(k + 1);
    assert IsDigit(digits[|digits| - 1]);
    TrimmedIsItsStrip("列" + digits);
  }

  /** Each cell that is not blank adds its header and itself, the numbers in it unless it numbers the row, and its entities. */
  lemma CellAdds(policy: Policy, known: seq<string>, headers: seq<string>, cells: seq<string>, position: nat, n: nat)
    requires n < |cells|
    ensures var before, after := RowContentOf(policy, known, headers, cells, position, n), RowContentOf(policy, known, headers, cells, position, n + 1);
            var header, value := HeaderOf(headers, n), Strip(cells[n]);
            && (value == "" ==> after == before)
            && (value != "" ==>
                  && after.pairs == before.pairs + [header + "：" + value]
                  && after.numbers == before.numbers + (if IsPosition(policy, header, value, position) then [] else Extract(policy.formula, value))
                  && after.entities == before.entities + BusinessEntities(known, Entities(value)))
    ensures RowContentOf(policy, known, headers, cells, position, 0) == RowContent([], [], [])
  {
  }

  /** A row is claimed when its cells hold a number or an entity; the claim is its cells with their headers. */
  lemma RowExactly(content: RowContent)
    ensures ClaimOfRow(content).None? <==> (forall t :: t in content.numbers ==> t == "") && (forall t :: t in content.entities ==> t == "")
    ensures ClaimOfRow(content).Some? ==> ClaimOfRow(content).value == Claim(Join(content.pairs, "；"), Dedupe(content.numbers), Dedupe(content.entities))
  {
    EmptyExactly(content.numbers);
    EmptyExactly(content.entities);
  }

  lemma EmptyExactly(texts: seq<string>)
    ensures Dedupe(texts) == [] <==> forall t :: t in texts ==> t == ""
  {
    if Dedupe(texts) != [] { assert Dedupe(texts)[0] in Dedupe(texts); }
  }

  /** A table starts at a line of cells before a line of dividers; it goes on while lines have cells that are not all
      dividers. */
  lemma TableExactly(rows: seq<seq<string>>, i: nat, k: nat)
    ensures StartsTable(rows, i) <==> i + 1 < |rows| && rows[i] != [] && rows[i + 1] != [] && forall c :: c in rows[i + 1] ==> IsSeparatorCell(c)
    ensures i <= |rows| ==>
              var end := RowsEnd(rows, i);
              && (i <= k < end ==> rows[k] != [] && exists c :: c in rows[k] && !IsSeparatorCell(c))
              && (end < |rows| ==> rows[end] == [] || forall c :: c in rows[end] ==> IsSeparatorCell(c))
  {
    if i + 1 < |rows| { SeparatorsExactly(rows[i + 1]); }
    if i <= |rows| {
      EndOfRows(rows, i);
      var end := RowsEnd(rows, i);
      if end < |rows| { SeparatorsExactly(rows[end]); }
      if i <= k < end { SeparatorsExactly(rows[k]); }
    }
  }

  lemma SeparatorsExactly(cells: seq<string>)
    ensures IsSeparatorRow(cells) <==> cells != [] && forall c :: c in cells ==> IsSeparatorCell(c)
  {
  }

  lemma {:induction false} EndOfRows(rows: seq<seq<string>>, i: nat)
    requires i <= |rows|
    ensures var end := RowsEnd(rows, i); end < |rows| ==> !IsRow(rows[end])
    decreases |rows| - i
  {
    if i < |rows| && IsRow(rows[i]) { EndOfRows(rows, i + 1); }
  }

  // ----- cells

  predicate AreDashes(s: string) { |s| >= 3 && forall k :: 0 <= k < |s| ==> s[k] == '-' }

  predicate IsDivider(text: string, dashes: string) {
    AreDashes(dashes) && (text == dashes || text == ":" + dashes || text == dashes + ":" || text == ":" + dashes + ":")
  }

  lemma OpenedForms(text: string, dashes: string)
    requires AreDashes(dashes)
    ensures Opened(text) == dashes <==> text == dashes || text == ":" + dashes
    ensures Closed(text) == dashes <==> text == dashes || text == dashes + ":"
    ensures Opened(text) == dashes + ":" <==> text == dashes + ":" || text == ":" + dashes + ":"
  {
    assert dashes[0] == '-' && dashes[|dashes| - 1] == '-';
    assert (":" + dashes)[1..] == dashes && (":" + dashes + ":")[1..] == dashes + ":" && (dashes + ":")[..|dashes|] == dashes;
    if text != "" && text[0] == ':' { assert text == ":" + text[1..]; }
    if text != "" && text[|text| - 1] == ':' { assert text == text[..|text| - 1] + ":"; }
  }

  lemma DividerWith(text: string, dashes: string)
    requires AreDashes(dashes)
    ensures Closed(Opened(text)) == dashes <==> IsDivider(text, dashes)
  {
    OpenedForms(Opened(text), dashes);
    OpenedForms(text, dashes);
  }

  /** A divider is three dashes or more, with a colon before or behind them or not. */
  lemma DividerExactly(cell: string)
    ensures IsSeparatorCell(cell) <==> exists dashes :: IsDivider(Strip(cell), dashes)
  {
    var text := Strip(cell);
    var body := Closed(Opened(text));
    assert IsSeparatorCell(cell) <==> AreDashes(body);
    if AreDashes(body) { DividerWith(text, body); }
    forall dashes | IsDivider(text, dashes) ensures body == dashes { DividerWith(text, dashes); }
  }

  lemma {:induction false} BarsExactly(s: string)
    ensures CountBars(s) > 0 <==> '|' in s
  {
    if s != "" {
      BarsExactly(s[1..]);
      assert s == [s[0]] + s[1..];
    }
  }

  /** A line is a row of cells exactly when, blanks around it apart, it starts with a bar and holds another; its last
      cell need not be closed. */
  lemma CellsExactly(line: string)
    ensures Cells(line) != [] <==> Strip(line) != "" && Strip(line)[0] == '|' && '|' in Strip(line)[1..]
  {
    var text := Strip(line);
    if text != "" && text[0] == '|' { BarsExactly(text[1..]); }
  }

  lemma TwoBars(text: string)
    requires text != "" && text[0] == '|' && '|' in text[1..]
    ensures CountBars(text) >= 2 && |text| >= 2 && text[0] == '|'
  {
    BarsExactly(text[1..]);
  }

  /** A row whose last bar is missing is read as with it. */
  lemma OpenRow(text: string)
    requires Trimmed(text) && text != "" && text[0] == '|' && text[|text| - 1] != '|' && '|' in text[1..]
    ensures Cells(text) == Cells(text + "|")
  {
    var closed := text + "|";
    TwoBars(text);
    assert closed[1..] == text[1..] + "|";
    TwoBars(closed);
    TrimmedIsItsStrip(text);
    TrimmedIsItsStrip(closed);
    assert closed[1..|closed| - 1] == text[1..];
  }
}
