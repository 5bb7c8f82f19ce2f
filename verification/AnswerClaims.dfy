/**
 The claims of an answer: `extract_answer_claims` of `answer_claims.py`, which cuts
 an answer into prose and tables, and the verifier run on what it yields.
 */
module AnswerClaims {
  import opened Basics
  import opened Text
  import opened NumberScanner
  import opened NumberText
  import opened MarkdownTable
  import opened ClaimNumbers
  import opened ClaimTokens
  import opened ClaimVerifier
  import opened ClaimBinding
  import opened TrendClaims
  import opened AnswerSentences

  /** The language policy, and the characters `str.isnumeric` accepts besides digits. */
  datatype Policy = Policy(
    lang: Language,
    ruleHeadings: seq<string>,
    positionLabels: seq<string>,
    formula: Formula,
    numeric: char -> bool)

  // ----- the body of an answer

  predicate IsRuleHeading(policy: Policy, line: string) {
    exists h :: h in policy.ruleHeadings && (h + ":" <= Strip(line) || h + "：" <= Strip(line))
  }

  /** The lines before the first heading of the rule evidence. */
  function LinesBeforeRules(policy: Policy, lines: seq<string>): seq<string> {
    if lines == [] || IsRuleHeading(policy, lines[0]) then [] else [lines[0]] + LinesBeforeRules(policy, lines[1..])
  }

  /** factual_answer_body */
  function Body(policy: Policy, answer: string): string { Join(LinesBeforeRules(policy, Lines(answer)), "\n") }

  method FactualAnswerBody(policy: Policy, answer: string) returns (body: string)
    ensures body == Body(policy, answer)
  {
    var lines := Lines(answer);
    var kept: seq<string> := [];
    for i := 0 to |lines|
      invariant kept + LinesBeforeRules(policy, lines[i..]) == LinesBeforeRules(policy, lines)
    {
      assert lines[i..][0] == lines[i] && lines[i..][1..] == lines[i + 1..];
      if IsRuleHeading(policy, lines[i]) {
        assert LinesBeforeRules(policy, lines[i..]) == [] && kept + [] == kept;
        return Join(kept, "\n");
      }
      ConcatAssociates(kept, [lines[i]], LinesBeforeRules(policy, lines[i + 1..]));
      kept := kept + [lines[i]];
    }
    assert lines[|lines|..] == [] && LinesBeforeRules(policy, []) == [] && kept + [] == kept;
    return Join(kept, "\n");
  }

  // ----- entities and labels

  /** The normalized names of the facts that hold numbers. */
  function KnownNames(facts: seq<Fact>): seq<string> {
    if facts == [] then []
    else
      var f := facts[0];
      (if f.value.Some? then NormalLabels(NonEmpty([f.column, f.labelText] + f.aliases)) else []) + KnownNames(facts[1..])
  }

  function NonEmpty(texts: seq<string>): seq<string> {
    if texts == [] then [] else (if texts[0] == "" then [] else [texts[0]]) + NonEmpty(texts[1..])
  }

  /** is_business_entity_token, on the tokens of the entity scanner */
  function BusinessEntities(known: seq<string>, tokens: seq<string>): seq<string> {
    if tokens == [] then []
    else
      (if NormalLabel(Lower(Strip(tokens[0]))) in known || Strip(tokens[0]) == "" then [] else [tokens[0]])
        + BusinessEntities(known, tokens[1..])
  }

  function EntitiesOf(known: seq<string>, text: string): seq<string> { BusinessEntities(known, Entities(text)) }

  /** qualitative_trend_assertion */
  predicate IsQualitative(policy: Policy, known: seq<string>, sentence: string) {
    && !policy.lang.negated(sentence) && DirectionWord(policy.lang, sentence).Some?
    && exists l :: l in known && l != "" && Contains(NormalLabel(sentence), l)
  }

  // ----- prose

  function ClaimOf(policy: Policy, known: seq<string>, text: string): Claim {
    Claim(text, Extract(policy.formula, text), Dedupe(EntitiesOf(known, text)))
  }

  /** There is something in the text to check. */
  predicate SaysSomething(policy: Policy, known: seq<string>, text: string) {
    && text != ""
    && (|| ClaimOf(policy, known, text).numericValues != [] || ClaimOf(policy, known, text).entityValues != []
        || IsQualitative(policy, known, text))
  }

  /** The claim of a sentence, if it says something. */
  function SentenceClaim(policy: Policy, known: seq<string>, sentence: string): seq<Claim> {
    var text := Clean(policy.numeric, sentence);
    if SaysSomething(policy, known, text) then [ClaimOf(policy, known, text)] else []
  }

  /** One list behind the other. */
  function Flattened<T>(lists: seq<seq<T>>): seq<T> {
    if lists == [] then [] else Flattened(lists[..|lists| - 1]) + lists[|lists| - 1]
  }

  lemma FlattenedMore<T>(before: seq<T>, lists: seq<seq<T>>, k: nat)
    requires k < |lists|
    ensures before + Flattened(lists[..k + 1]) == before + Flattened(lists[..k]) + lists[k]
  {
    assert lists[..k + 1][..k] == lists[..k];
    ConcatAssociates(before, Flattened(lists[..k]), lists[k]);
  }

  lemma {:induction false} FlattenedHolds<T>(lists: seq<seq<T>>, x: T)
    ensures x in Flattened(lists) <==> exists k :: 0 <= k < |lists| && x in lists[k]
  {
    if lists != [] {
      var front := lists[..|lists| - 1];
      FlattenedHolds(front, x);
      if k :| 0 <= k < |front| && x in front[k] { assert x in lists[k]; }
      if k :| 0 <= k < |lists| && x in lists[k] { assert k < |front| ==> x in front[k]; }
    }
  }

  /** The claims of each sentence. */
  function BySentence(policy: Policy, known: seq<string>, text: string): (lists: seq<seq<Claim>>)
    ensures |lists| == |Sentences(text)|
  {
    var spans := Sentences(text);
    seq(|spans|, i requires 0 <= i < |spans| => SentenceClaim(policy, known, text[spans[i].start..spans[i].end]))
  }

  function ProseClaims(policy: Policy, known: seq<string>, text: string): seq<Claim> {
    Flattened(BySentence(policy, known, text))
  }

  method ReadSentence(policy: Policy, known: seq<string>, sentence: string) returns (claims: seq<Claim>)
    ensures claims == SentenceClaim(policy, known, sentence)
  {
    var text := StripOrderedListPrefix(policy.numeric, WithoutBullets(sentence));
    text := Strip(text);
    if text == "" { return []; }
    var numbers := ExtractNumericTokens(policy.formula, text);
    var tokens := EntityMatches(text);
    var entities := Dedupe(BusinessEntities(known, tokens));
    if numbers == [] && entities == [] && !IsQualitative(policy, known, text) { return []; }
    return [Claim(text, numbers, entities)];
  }

  /** append_prose_claims */
  method AppendProseClaims(policy: Policy, known: seq<string>, text: string, claims: seq<Claim>) returns (all: seq<Claim>)
    ensures all == claims + ProseClaims(policy, known, text)
  {
    var spans := FactualSentenceMatches(text);
    ghost var lists := BySentence(policy, known, text);
    all := claims;
    for i := 0 to |spans|
      invariant all == claims + Flattened(lists[..i])
    {
      FlattenedMore(claims, lists, i);
      var more := ReadSentence(policy, known, text[spans[i].start..spans[i].end]);
      all := all + more;
    }
    assert lists[..|spans|] == lists;
  }

  // ----- tables

  const IGNORED_IN_HEADERS := "_.#：:（）()-"

  predicate IsHeaderChar(c: char) { !IsSpace(c) && c !in IGNORED_IN_HEADERS }

  /** deterministic_position_cell: the cell only numbers its row. */
  predicate IsPosition(policy: Policy, header: string, value: string, position: nat) {
    && Filter(IsHeaderChar, Lower(Strip(header))) in policy.positionLabels
    && DecimalToken(value) == Some(position as real)
  }

  function HeaderOf(headers: seq<string>, k: nat): string {
    Strip(if k < |headers| then headers[k] else "列" + NatText(k + 1))
  }

  /** What cells of a row say: pairs of header and value, numbers, entities. */
  datatype RowContent = RowContent(pairs: seq<string>, numbers: seq<string>, entities: seq<string>)

  function AddCell(policy: Policy, known: seq<string>, header: string, value: string, position: nat, before: RowContent): RowContent {
    if value == "" then before
    else RowContent(
      before.pairs + [header + "：" + value],
      before.numbers + (if IsPosition(policy, header, value, position) then [] else Extract(policy.formula, value)),
      before.entities + EntitiesOf(known, value))
  }

  function RowContentOf(policy: Policy, known: seq<string>, headers: seq<string>, cells: seq<string>, position: nat, n: nat): RowContent
    requires n <= |cells|
  {
    if n == 0 then RowContent([], [], [])
    else AddCell(policy, known, HeaderOf(headers, n - 1), Strip(cells[n - 1]), position,
                 RowContentOf(policy, known, headers, cells, position, n - 1))
  }

  function ClaimOfRow(content: RowContent): Option<Claim> {
    var numbers, entities := Dedupe(content.numbers), Dedupe(content.entities);
    if numbers == [] && entities == [] then None else Some(Claim(Join(content.pairs, "；"), numbers, entities))
  }

  /** markdown_table_claim */
  function RowClaim(policy: Policy, known: seq<string>, headers: seq<string>, cells: seq<string>, position: nat): Option<Claim> {
    ClaimOfRow(RowContentOf(policy, known, headers, cells, position, |cells|))
  }

  method ReadCell(policy: Policy, known: seq<string>, header: string, value: string, position: nat, before: RowContent)
    returns (content: RowContent)
    ensures content == AddCell(policy, known, header, value, position, before)
  {
    if value == "" { return before; }
    var more: seq<string> := [];
    if !IsPosition(policy, header, value, position) { more := ExtractNumericTokens(policy.formula, value); }
    var tokens := EntityMatches(value);
    return RowContent(before.pairs + [header + "：" + value], before.numbers + more, before.entities + BusinessEntities(known, tokens));
  }

  method MarkdownTableClaim(policy: Policy, known: seq<string>, headers: seq<string>, cells: seq<string>, position: nat)
    returns (claim: Option<Claim>)
    ensures claim == RowClaim(policy, known, headers, cells, position)
  {
    var content := RowContent([], [], []);
    for k := 0 to |cells|
      invariant content == RowContentOf(policy, known, headers, cells, position, k)
    {
      content := ReadCell(policy, known, HeaderOf(headers, k), Strip(cells[k]), position, content);
    }
    return ClaimOfRow(content);
  }

  /** A row of a table: cells, and no divider. */
  predicate IsRow(cells: seq<string>) { cells != [] && !IsSeparatorRow(cells) }

  /** The cells of each line; none for a line of prose. */
  function CellsOf(lines: seq<string>): (rows: seq<seq<string>>)
    ensures |rows| == |lines|
  {
    seq(|lines|, i requires 0 <= i < |lines| => Cells(lines[i]))
  }

  /** A table starts at line `i`: a line with cells, and a divider below it. */
  predicate StartsTable(rows: seq<seq<string>>, i: nat) {
    i + 1 < |rows| && rows[i] != [] && IsSeparatorRow(rows[i + 1])
  }

  /** The line behind the rows from line `i` on. */
  function RowsEnd(rows: seq<seq<string>>, i: nat): (end: nat)
    requires i <= |rows|
    ensures i <= end <= |rows|
    ensures forall k :: i <= k < end ==> IsRow(rows[k])
    decreases |rows| - i
  {
    if i < |rows| && IsRow(rows[i]) then RowsEnd(rows, i + 1) else i
  }

  function Listed(claim: Option<Claim>): seq<Claim> { if claim.Some? then [claim.value] else [] }

  /** The claim of each row, numbered from 1. */
  function ByRow(policy: Policy, known: seq<string>, headers: seq<string>, rows: seq<seq<string>>): (lists: seq<seq<Claim>>)
    ensures |lists| == |rows|
  {
    seq(|rows|, k requires 0 <= k < |rows| => Listed(RowClaim(policy, known, headers, rows[k], k + 1)))
  }

  function RowClaims(policy: Policy, known: seq<string>, headers: seq<string>, rows: seq<seq<string>>): seq<Claim> {
    Flattened(ByRow(policy, known, headers, rows))
  }

  method ReadRow(policy: Policy, known: seq<string>, headers: seq<string>, rows: seq<seq<string>>, k: nat) returns (more: seq<Claim>)
    requires k < |rows|
    ensures more == ByRow(policy, known, headers, rows)[k]
  {
    var claim := MarkdownTableClaim(policy, known, headers, rows[k], k + 1);
    return Listed(claim);
  }

  method TableRowClaims(policy: Policy, known: seq<string>, headers: seq<string>, rows: seq<seq<string>>, claims: seq<Claim>)
    returns (all: seq<Claim>)
    ensures all == claims + RowClaims(policy, known, headers, rows)
  {
    all := claims;
    ghost var lists := ByRow(policy, known, headers, rows);
    for k := 0 to |rows|
      invariant all == claims + Flattened(lists[..k])
    {
      FlattenedMore(claims, lists, k);
      var more := ReadRow(policy, known, headers, rows, k);
      all := all + more;
    }
    assert lists[..|rows|] == lists;
  }

  // ----- the whole answer

  /** A stretch of prose lines, or the rows of a table below its header. */
  datatype Block = Prose(text: string) | Table(headers: seq<string>, rows: seq<seq<string>>)

  /** The blocks behind line `start`, the lines before `i` being prose. */
  function BlocksFrom(lines: seq<string>, rows: seq<seq<string>>, start: nat, i: nat): seq<Block>
    requires start <= i <= |lines| == |rows|
    decreases |lines| - i
  {
    if i == |lines| then [Prose(Join(lines[start..], "\n"))]
    else if StartsTable(rows, i) then
      var end := RowsEnd(rows, i + 2);
      [Prose(Join(lines[start..i], "\n")), Table(rows[i], rows[i + 2..end])] + BlocksFrom(lines, rows, end, end)
    else BlocksFrom(lines, rows, start, i + 1)
  }

  /** The loop over the lines of the body. */
  method ReadBlocks(lines: seq<string>) returns (blocks: seq<Block>)
    ensures blocks == BlocksFrom(lines, CellsOf(lines), 0, 0)
  {
    var rows := CellsOf(lines);
    blocks := [];
    var start: nat, i: nat := 0, 0;
    while i < |lines|
      invariant start <= i <= |lines|
      invariant blocks + BlocksFrom(lines, rows, start, i) == BlocksFrom(lines, rows, 0, 0)
    {
      if StartsTable(rows, i) {
        var end := RowsEnd(rows, i + 2);
        var found := [Prose(Join(lines[start..i], "\n")), Table(rows[i], rows[i + 2..end])];
        ConcatAssociates(blocks, found, BlocksFrom(lines, rows, end, end));
        blocks, start, i := blocks + found, end, end;
      } else {
        i := i + 1;
      }
    }
    blocks := blocks + [Prose(Join(lines[start..], "\n"))];
  }

  function BlockClaims(policy: Policy, known: seq<string>, block: Block): seq<Claim> {
    match block
    case Prose(text) => ProseClaims(policy, known, text)
    case Table(headers, rows) => RowClaims(policy, known, headers, rows)
  }

  function ByBlock(policy: Policy, known: seq<string>, blocks: seq<Block>): (lists: seq<seq<Claim>>)
    ensures |lists| == |blocks|
  {
    seq(|blocks|, i requires 0 <= i < |blocks| => BlockClaims(policy, known, blocks[i]))
  }

  /** The prose and the tables of the body of an answer. */
  function Blocks(policy: Policy, answer: string): seq<Block> {
    var lines := Lines(Body(policy, answer));
    BlocksFrom(lines, CellsOf(lines), 0, 0)
  }

  /** extract_answer_claims */
  function Claims(policy: Policy, facts: seq<Fact>, answer: string): seq<Claim> {
    Flattened(ByBlock(policy, KnownNames(facts), Blocks(policy, answer)))
  }

  /** extract_answer_claims: the blocks, then the claims of each. */
  method ExtractAnswerClaims(policy: Policy, facts: seq<Fact>, answer: string) returns (claims: seq<Claim>)
    ensures claims == Claims(policy, facts, answer)
  {
    var body := FactualAnswerBody(policy, answer);
    var known := KnownNames(facts);
    var blocks := ReadBlocks(Lines(body));
    ghost var lists := ByBlock(policy, known, blocks);
    claims := [];
    for i := 0 to |blocks|
      invariant claims == Flattened(lists[..i])
    {
      assert lists[..i + 1][..i] == lists[..i];
      claims := AppendBlockClaims(policy, known, blocks[i], claims);
    }
    assert lists[..|blocks|] == lists;
  }

  method AppendBlockClaims(policy: Policy, known: seq<string>, block: Block, claims: seq<Claim>) returns (all: seq<Claim>)
    ensures all == claims + BlockClaims(policy, known, block)
  {
    match block {
      case Prose(text) => all := AppendProseClaims(policy, known, text, claims);
      case Table(headers, rows) => all := TableRowClaims(policy, known, headers, rows, claims);
    }
  }

  // ----- what is claimed

  /** What is left of sentence `i`. */
  function CleanSentence(policy: Policy, text: string, i: nat): string
    requires i < |Sentences(text)|
  {
    Clean(policy.numeric, text[Sentences(text)[i].start..Sentences(text)[i].end])
  }

  /** Sentence `i` says something, and `c` is its claim. */
  ghost predicate IsClaimOfSentence(policy: Policy, known: seq<string>, text: string, i: nat, c: Claim) {
    && i < |Sentences(text)| && SaysSomething(policy, known, CleanSentence(policy, text, i))
    && c == ClaimOf(policy, known, CleanSentence(policy, text, i))
  }

  lemma SentenceAt(policy: Policy, known: seq<string>, text: string, i: nat, c: Claim)
    requires i < |Sentences(text)|
    ensures c in BySentence(policy, known, text)[i] <==> IsClaimOfSentence(policy, known, text, i, c)
  {
  }

  /** The claims of a text: one for each sentence that says something, with exactly the numbers that are
      extracted from what is left of the sentence. */
  lemma ProseIsClaimedExactly(policy: Policy, known: seq<string>, text: string, c: Claim)
    ensures c in ProseClaims(policy, known, text) <==> exists i: nat :: IsClaimOfSentence(policy, known, text, i, c)
  {
    var lists := BySentence(policy, known, text);
    FlattenedHolds(lists, c);
    if i :| 0 <= i < |lists| && c in lists[i] { SentenceAt(policy, known, text, i, c); }
    if i: nat :| IsClaimOfSentence(policy, known, text, i, c) { SentenceAt(policy, known, text, i, c); }
  }

  /** Every number that is extracted from a cleaned sentence is in the claim of that sentence. */
  lemma EveryNumberIsClaimed(policy: Policy, known: seq<string>, text: string, i: nat, t: string)
    requires i < |Sentences(text)| && t in Extract(policy.formula, CleanSentence(policy, text, i))
    ensures var c := ClaimOf(policy, known, CleanSentence(policy, text, i));
            c in ProseClaims(policy, known, text) && t in c.numericValues
  {
    var clean := CleanSentence(policy, text, i);
    NothingInNothing(policy.formula);
    assert SaysSomething(policy, known, clean);
    assert IsClaimOfSentence(policy, known, text, i, ClaimOf(policy, known, clean));
    ProseIsClaimedExactly(policy, known, text, ClaimOf(policy, known, clean));
  }

  lemma NothingInNothing(formula: Formula)
    ensures Extract(formula, "") == []
  {
    assert Dates("", 0) == [] && Spans("", 0) == [];
    assert Apart([], DateTimes("")) == [] && Temporal("") == [];
    assert Unignored(formula, "", []) == [] && Numbers(formula, "") == [];
    assert Extracted(formula, "") == [];
    assert Dedupe([]) == [];
  }

  lemma RowIsClaimed(policy: Policy, known: seq<string>, headers: seq<string>, rows: seq<seq<string>>, k: nat, c: Claim)
    requires k < |rows| && RowClaim(policy, known, headers, rows[k], k + 1) == Some(c)
    ensures c in RowClaims(policy, known, headers, rows)
  {
    assert c in ByRow(policy, known, headers, rows)[k];
    FlattenedHolds(ByRow(policy, known, headers, rows), c);
  }

  lemma NumbersGrow(policy: Policy, known: seq<string>, headers: seq<string>, cells: seq<string>, position: nat, n: nat)
    requires 0 < n <= |cells|
    ensures RowContentOf(policy, known, headers, cells, position, n - 1).numbers
         <= RowContentOf(policy, known, headers, cells, position, n).numbers
  {
  }

  lemma CellNumbers(policy: Policy, known: seq<string>, headers: seq<string>, cells: seq<string>, position: nat, k: nat, t: string)
    requires k < |cells| && Strip(cells[k]) != "" && !IsPosition(policy, HeaderOf(headers, k), Strip(cells[k]), position)
    requires t in Extract(policy.formula, Strip(cells[k]))
    ensures t in RowContentOf(policy, known, headers, cells, position, k + 1).numbers
  {
  }

  lemma {:induction false} StaysInPrefixes(lists: seq<seq<string>>, a: nat, b: nat, t: string)
    requires a <= b < |lists| && t in lists[a]
    requires forall n: nat :: n + 1 < |lists| ==> lists[n] <= lists[n + 1]
    ensures t in lists[b]
    decreases b
  {
    if a < b {
      StaysInPrefixes(lists, a, b - 1, t);
      assert b - 1 + 1 == b && lists[b - 1] <= lists[b];
    }
  }

  lemma CellIsRead(policy: Policy, known: seq<string>, headers: seq<string>, cells: seq<string>, position: nat, k: nat, t: string)
    requires k < |cells| && t in RowContentOf(policy, known, headers, cells, position, k + 1).numbers
    ensures t in RowContentOf(policy, known, headers, cells, position, |cells|).numbers
  {
    var lists := seq(|cells| + 1, n requires 0 <= n <= |cells| => RowContentOf(policy, known, headers, cells, position, n).numbers);
    forall n: nat | n + 1 < |lists| ensures lists[n] <= lists[n + 1] {
      NumbersGrow(policy, known, headers, cells, position, n + 1);
    }
    StaysInPrefixes(lists, k + 1, |cells|, t);
  }

  /** Every number of a cell that does not just number its row is in the claim of the row. */
  lemma EveryCellIsClaimed(policy: Policy, known: seq<string>, headers: seq<string>, cells: seq<string>, position: nat, k: nat, t: string)
    requires k < |cells| && Strip(cells[k]) != "" && !IsPosition(policy, HeaderOf(headers, k), Strip(cells[k]), position)
    requires t in Extract(policy.formula, Strip(cells[k]))
    ensures var claim := RowClaim(policy, known, headers, cells, position);
            claim.Some? && t in claim.value.numericValues
  {
    CellNumbers(policy, known, headers, cells, position, k, t);
    CellIsRead(policy, known, headers, cells, position, k, t);
  }

  /** The claims of a block are claims of the answer. */
  lemma BlockIsClaimed(policy: Policy, facts: seq<Fact>, answer: string, block: Block, c: Claim)
    requires block in Blocks(policy, answer) && c in BlockClaims(policy, KnownNames(facts), block)
    ensures c in Claims(policy, facts, answer)
  {
    var blocks := Blocks(policy, answer);
    var i :| 0 <= i < |blocks| && blocks[i] == block;
    assert c in ByBlock(policy, KnownNames(facts), blocks)[i];
    FlattenedHolds(ByBlock(policy, KnownNames(facts), blocks), c);
  }

  // ----- no line is passed over

  /** Lines `a` to `b` are the prose of a block. */
  ghost predicate AreProse(lines: seq<string>, blocks: seq<Block>, a: nat, b: nat) {
    a <= b <= |lines| && Prose(Join(lines[a..b], "\n")) in blocks
  }

  ghost predicate IsProseLine(lines: seq<string>, blocks: seq<Block>, k: nat) {
    exists a: nat, b: nat :: a <= k < b && AreProse(lines, blocks, a, b)
  }

  /** Lines `i` to `end` are the header, the divider and the rows of a table. */
  ghost predicate AreTable(rows: seq<seq<string>>, blocks: seq<Block>, i: nat, end: nat) {
    i + 2 <= end <= |rows| && StartsTable(rows, i) && Table(rows[i], rows[i + 2..end]) in blocks
  }

  ghost predicate IsTableLine(rows: seq<seq<string>>, blocks: seq<Block>, k: nat) {
    exists i: nat, end: nat :: i <= k < end && AreTable(rows, blocks, i, end)
  }

  ghost predicate IsRead(lines: seq<string>, rows: seq<seq<string>>, blocks: seq<Block>, k: nat) {
    IsProseLine(lines, blocks, k) || IsTableLine(rows, blocks, k)
  }

  lemma MoreBlocks(lines: seq<string>, rows: seq<seq<string>>, some: seq<Block>, rest: seq<Block>, k: nat)
    requires IsRead(lines, rows, some, k) || IsRead(lines, rows, rest, k)
    ensures IsRead(lines, rows, some + rest, k)
  {
    if IsTableLine(rows, some, k) {
      var i: nat, end: nat :| i <= k < end && AreTable(rows, some, i, end);
      assert AreTable(rows, some + rest, i, end);
    } else if IsTableLine(rows, rest, k) {
      var i: nat, end: nat :| i <= k < end && AreTable(rows, rest, i, end);
      assert AreTable(rows, some + rest, i, end);
    }
    if IsProseLine(lines, some, k) {
      var a: nat, b: nat :| a <= k < b && AreProse(lines, some, a, b);
      assert AreProse(lines, some + rest, a, b);
    } else if IsProseLine(lines, rest, k) {
      var a: nat, b: nat :| a <= k < b && AreProse(lines, rest, a, b);
      assert AreProse(lines, some + rest, a, b);
    }
  }

  lemma LinesOfTable(lines: seq<string>, rows: seq<seq<string>>, start: nat, i: nat, end: nat, k: nat)
    requires |rows| == |lines| && start <= i && i + 2 <= end <= |lines| && StartsTable(rows, i) && start <= k < end
    ensures IsRead(lines, rows, [Prose(Join(lines[start..i], "\n")), Table(rows[i], rows[i + 2..end])], k)
  {
    var blocks := [Prose(Join(lines[start..i], "\n")), Table(rows[i], rows[i + 2..end])];
    assert blocks[0] in blocks && blocks[1] in blocks;
    if k < i { assert AreProse(lines, blocks, start, i); } else { assert AreTable(rows, blocks, i, end); }
  }

  lemma {:induction false} EveryLineFrom(lines: seq<string>, rows: seq<seq<string>>, start: nat, i: nat, k: nat)
    requires start <= i <= |lines| == |rows| && start <= k < |lines|
    ensures IsRead(lines, rows, BlocksFrom(lines, rows, start, i), k)
    decreases |lines| - i
  {
    if i == |lines| {
      assert lines[start..] == lines[start..|lines|];
      assert AreProse(lines, BlocksFrom(lines, rows, start, i), start, |lines|);
    } else if StartsTable(rows, i) {
      var end := RowsEnd(rows, i + 2);
      if k < end { LinesOfTable(lines, rows, start, i, end, k); } else { EveryLineFrom(lines, rows, end, end, k); }
      MoreBlocks(lines, rows, [Prose(Join(lines[start..i], "\n")), Table(rows[i], rows[i + 2..end])], BlocksFrom(lines, rows, end, end), k);
    } else {
      EveryLineFrom(lines, rows, start, i + 1, k);
    }
  }

  /** Every line of the body is prose or belongs to a table. */
  lemma EveryLineIsRead(policy: Policy, answer: string, k: nat)
    requires k < |Lines(Body(policy, answer))|
    ensures var lines := Lines(Body(policy, answer)); IsRead(lines, CellsOf(lines), Blocks(policy, answer), k)
  {
    var lines := Lines(Body(policy, answer));
    EveryLineFrom(lines, CellsOf(lines), 0, 0, k);
  }

  // ----- the verifier on the whole answer

  /** Every claim of the answer is justified, its trend by the rows of the facts. */
  ghost predicate AnswerJustified(policy: Policy, r: Reader, answer: string, question: string, facts: seq<Fact>, entities: set<string>) {
    forall c :: c in Claims(policy, facts, answer)
      ==> ClaimJustified(r, c, TrendOf(policy.lang, facts, c.text), question, facts, entities)
  }

  method VerifyAnswer(policy: Policy, r: Reader, answer: string, question: string, facts: seq<Fact>, entities: set<string>)
    returns (v: Verification)
    ensures v.passed <==> AnswerJustified(policy, r, answer, question, facts, entities)
    ensures ClaimsOf(v.claims) == Claims(policy, facts, answer)
  {
    var claims := ExtractAnswerClaims(policy, facts, answer);
    v := Verify(r, claims, text => TrendOf(policy.lang, facts, text), question, facts, entities);
  }

  /** When an answer passes, every number extracted from a sentence of its prose is justified in that sentence,
      and so is every direction the sentence claims. */
  lemma PassingCoversProse(policy: Policy, r: Reader, answer: string, question: string, facts: seq<Fact>, entities: set<string>,
                           text: string, i: nat, t: string)
    requires AnswerJustified(policy, r, answer, question, facts, entities)
    requires Prose(text) in Blocks(policy, answer) && i < |Sentences(text)|
    requires t in Extract(policy.formula, CleanSentence(policy, text, i))
    ensures ValueJustified(r, t, CleanSentence(policy, text, i), question, facts)
    ensures TrendOf(policy.lang, facts, CleanSentence(policy, text, i)).reason.None?
  {
    var c := ClaimOf(policy, KnownNames(facts), CleanSentence(policy, text, i));
    EveryNumberIsClaimed(policy, KnownNames(facts), text, i, t);
    BlockIsClaimed(policy, facts, answer, Prose(text), c);
    ClaimIsJustified(policy, r, answer, question, facts, entities, c);
  }

  lemma ClaimIsJustified(policy: Policy, r: Reader, answer: string, question: string, facts: seq<Fact>, entities: set<string>, c: Claim)
    requires AnswerJustified(policy, r, answer, question, facts, entities) && c in Claims(policy, facts, answer)
    ensures TrendOf(policy.lang, facts, c.text).reason.None?
    ensures forall t :: t in c.numericValues ==> ValueJustified(r, t, c.text, question, facts)
  {
  }

  /** And every number of a cell that does not just number its row is justified in the row. */
  lemma PassingCoversTables(policy: Policy, r: Reader, answer: string, question: string, facts: seq<Fact>, entities: set<string>,
                            headers: seq<string>, rows: seq<seq<string>>, n: nat, k: nat, t: string)
    requires AnswerJustified(policy, r, answer, question, facts, entities)
    requires Table(headers, rows) in Blocks(policy, answer) && n < |rows| && k < |rows[n]|
    requires Strip(rows[n][k]) != "" && !IsPosition(policy, HeaderOf(headers, k), Strip(rows[n][k]), n + 1)
    requires t in Extract(policy.formula, Strip(rows[n][k]))
    ensures var claim := RowClaim(policy, KnownNames(facts), headers, rows[n], n + 1);
            claim.Some? && ValueJustified(r, t, claim.value.text, question, facts)
  {
    EveryCellIsClaimed(policy, KnownNames(facts), headers, rows[n], n + 1, k, t);
    var c := RowClaim(policy, KnownNames(facts), headers, rows[n], n + 1).value;
    RowIsClaimed(policy, KnownNames(facts), headers, rows, n, c);
    BlockIsClaimed(policy, facts, answer, Table(headers, rows), c);
    ClaimIsJustified(policy, r, answer, question, facts, entities, c);
  }
}
