/**
 The answer claim verifier of `answer_claims.py`: a number in an answer passes
 when every clause that states it is backed by a fact, by a derived number or by
 the question.
 */
module ClaimVerifier {
  import opened Basics
  import opened Text
  import opened ClaimNumbers

  const CLAUSE_ENDS := "；;。.!！?？\n"

  const SEGMENT_ENDS := "，,"

  /** What the verifier takes from the text scanners and the language policy. */
  datatype Reader = Reader(
    tokens: string -> seq<string>,             // extract_numeric_tokens
    number: string -> Option<real>,            // decimal_token
    isDate: string -> bool,                    // DATE_PATTERN matches all of it
    isDateTime: string -> bool,                // DATETIME_PATTERN matches all of it
    temporal: string -> string,                // normalize_temporal_token
    dates: string -> set<string>,              // normalized dates found in a text
    contextualNumbers: string -> set<real>,    // contextual_number_tokens
    isContextual: (string, string) -> bool,    // numeric_occurrences_are_contextual
    assertsDirectValue: string -> bool)        // claim_asserts_direct_metric_value

  datatype Claim = Claim(text: string, numericValues: seq<string>, entityValues: seq<string>)

  datatype Reason = TrendReason(text: string) | UnsupportedValue(raw: string) | UnsupportedEntity(raw: string)

  /** Result of trend_direction_support: a reason when it fails, and the facts it used. */
  datatype Trend = Trend(reason: Option<string>, factIds: seq<FactId>)

  datatype Checked = Checked(claim: Claim, factIds: seq<FactId>, supported: bool, reasons: seq<Reason>)

  datatype Verification = Verification(passed: bool, factCount: nat, claims: seq<Checked>, unsupportedClaims: seq<Checked>)

  // ----- clauses

  /** split_on_characters */
  function SplitOn(s: string, separators: string): (pieces: seq<string>)
    ensures |pieces| > 0
  {
    if s == [] then [""]
    else
      var before, c := SplitOn(s[..|s| - 1], separators), s[|s| - 1];
      if c in separators then before + [""] else before[..|before| - 1] + [before[|before| - 1] + [c]]
  }

  method SplitOnCharacters(s: string, separators: string) returns (output: seq<string>)
    ensures output == SplitOn(s, separators)
  {
    output := [];
    var current := "";
    for i := 0 to |s|
      invariant output + [current] == SplitOn(s[..i], separators)
    {
      assert s[..i + 1][..i] == s[..i];
      if s[i] in separators {
        output := output + [current];
        current := "";
      } else {
        current := current + [s[i]];
      }
    }
    assert s[..|s|] == s;
    output := output + [current];
  }

  /** `[item.strip() for item in items if item.strip()]` */
  function Stripped(pieces: seq<string>): seq<string> {
    if pieces == [] then []
    else (if Strip(pieces[0]) == "" then [] else [Strip(pieces[0])]) + Stripped(pieces[1..])
  }

  /** _split_clauses */
  function Clauses(text: string, separators: string): seq<string> { Stripped(SplitOn(text, separators)) }

  lemma {:induction false} PiecesHoldNoSeparator(s: string, separators: string)
    ensures forall piece, c :: piece in SplitOn(s, separators) && c in piece ==> c !in separators
  {
    if s != [] {
      var before := SplitOn(s[..|s| - 1], separators);
      PiecesHoldNoSeparator(s[..|s| - 1], separators);
      assert before[|before| - 1] in before;
    }
  }

  function Joined(pieces: seq<string>): string { Join(pieces, "") }

  lemma {:induction false} JoinedLast(pieces: seq<string>, piece: string)
    ensures Joined(pieces + [piece]) == Joined(pieces) + piece
  {
    if |pieces| > 0 {
      JoinConcat(pieces, [piece], "");
      assert Joined(pieces) + "" + piece == Joined(pieces) + piece;
    } else {
      assert pieces + [piece] == [piece];
    }
  }

  /** Splitting drops the separators and nothing else. */
  lemma {:induction false} PiecesKeepTheRest(s: string, separators: string)
    ensures Joined(SplitOn(s, separators)) == Filter(c => c !in separators, s)
  {
    if s != [] {
      var front, c := s[..|s| - 1], s[|s| - 1];
      var before := SplitOn(front, separators);
      var n := |before| - 1;
      PiecesKeepTheRest(front, separators);
      assert s == front + [c];
      FilterConcat(c => c !in separators, front, [c]);
      assert [c][1..] == [];
      if c in separators {
        JoinedLast(before, "");
      } else {
        assert before == before[..n] + [before[n]];
        JoinedLast(before[..n], before[n]);
        JoinedLast(before[..n], before[n] + [c]);
      }
    }
  }

  lemma {:induction false} StrippedPieces(pieces: seq<string>)
    ensures forall t :: t in Stripped(pieces) <==> t != "" && exists p :: p in pieces && Strip(p) == t
  {
    if pieces != [] {
      StrippedPieces(pieces[1..]);
      assert pieces == [pieces[0]] + pieces[1..];
    }
  }

  lemma ClauseHoldsNoSeparator(text: string, separators: string, clause: string)
    requires clause in Clauses(text, separators)
    ensures forall c :: c in clause ==> c !in separators
  {
    ClausesHoldNoSeparator(text, separators);
  }

  /** No clause or segment holds a character it was split at. */
  lemma ClausesHoldNoSeparator(text: string, separators: string)
    ensures forall clause, c :: clause in Clauses(text, separators) && c in clause ==> c !in separators
  {
    PiecesHoldNoSeparator(text, separators);
    StrippedPieces(SplitOn(text, separators));
    forall clause, c | clause in Clauses(text, separators) && c in clause ensures c !in separators {
      var p :| p in SplitOn(text, separators) && Strip(p) == clause;
      var left, right := StripParts(p);
      assert c in p;
    }
  }

  // ----- the clauses that state a number

  /** numeric_tokens_equivalent */
  predicate SameNumber(r: Reader, raw: string, token: string) {
    if r.isDateTime(raw) || r.isDate(raw) then r.temporal(raw) == r.temporal(token)
    else
      var x, y := r.number(raw), r.number(token);
      x.Some? && y.Some? && Close(x.value, y.value)
  }

  predicate States(r: Reader, segment: string, raw: string) {
    exists token :: token in r.tokens(segment) && SameNumber(r, raw, token)
  }

  /** The beginning of a clause up to and including segment `i`. */
  function Beginning(clause: string, i: nat): string
    requires i < |Clauses(clause, SEGMENT_ENDS)|
  {
    Join(Clauses(clause, SEGMENT_ENDS)[..i + 1], "，")
  }

  /** `context` is a clause of the text, cut off after a segment that states the number. */
  predicate IsContext(r: Reader, raw: string, text: string, context: string) {
    exists clause :: clause in Clauses(text, CLAUSE_ENDS) && IsContextIn(r, raw, clause, context)
  }

  predicate IsContextIn(r: Reader, raw: string, clause: string, context: string) {
    var segments := Clauses(clause, SEGMENT_ENDS);
    exists i :: 0 <= i < |segments| && States(r, segments[i], raw) && context == Beginning(clause, i)
  }

  ghost predicate HasContext(r: Reader, raw: string, text: string) {
    exists context :: IsContext(r, raw, text, context)
  }

  method CountOccurrences(r: Reader, segment: string, raw: string) returns (n: nat)
    ensures n > 0 <==> States(r, segment, raw)
  {
    n := 0;
    var tokens := r.tokens(segment);
    for i := 0 to |tokens|
      invariant n > 0 <==> exists token :: token in tokens[..i] && SameNumber(r, raw, token)
    {
      assert tokens[..i + 1] == tokens[..i] + [tokens[i]];
      if SameNumber(r, raw, tokens[i]) { n := n + 1; }
    }
    assert tokens[..|tokens|] == tokens;
  }

  /** `context` ends at one of the first `n` segments of the clause. */
  ghost predicate EndsAmong(r: Reader, raw: string, clause: string, n: nat, context: string)
    requires n <= |Clauses(clause, SEGMENT_ENDS)|
  {
    exists k :: 0 <= k < n && States(r, Clauses(clause, SEGMENT_ENDS)[k], raw) && context == Beginning(clause, k)
  }

  lemma OneMoreSegment(r: Reader, raw: string, clause: string, i: nat, context: string)
    requires i < |Clauses(clause, SEGMENT_ENDS)|
    ensures EndsAmong(r, raw, clause, i + 1, context)
       <==> || EndsAmong(r, raw, clause, i, context)
            || (States(r, Clauses(clause, SEGMENT_ENDS)[i], raw) && context == Beginning(clause, i))
  {
  }

  method ClauseContexts(r: Reader, raw: string, clause: string) returns (contexts: seq<string>)
    ensures forall context :: context in contexts <==> IsContextIn(r, raw, clause, context)
  {
    contexts := [];
    var segments := Clauses(clause, SEGMENT_ENDS);
    for i := 0 to |segments|
      invariant forall context :: context in contexts <==> EndsAmong(r, raw, clause, i, context)
    {
      forall context ensures EndsAmong(r, raw, clause, i + 1, context)
                             <==> (EndsAmong(r, raw, clause, i, context) || (States(r, segments[i], raw) && context == Beginning(clause, i))) {
        OneMoreSegment(r, raw, clause, i, context);
      }
      var n := CountOccurrences(r, segments[i], raw);
      if n == 0 { continue; }
      var again := seq(n, _ => Beginning(clause, i));
      assert again[0] == Beginning(clause, i);
      contexts := contexts + again;
    }
  }

  ghost predicate InAnyOf(r: Reader, raw: string, clauses: seq<string>, n: nat, context: string)
    requires n <= |clauses|
  {
    exists k :: 0 <= k < n && IsContextIn(r, raw, clauses[k], context)
  }

  method ClaimContextsForValue(r: Reader, raw: string, text: string) returns (contexts: seq<string>)
    ensures forall context :: context in contexts <==> IsContext(r, raw, text, context)
  {
    contexts := [];
    var clauses := Clauses(text, CLAUSE_ENDS);
    for i := 0 to |clauses|
      invariant forall context :: context in contexts <==> InAnyOf(r, raw, clauses, i, context)
    {
      var more := ClauseContexts(r, raw, clauses[i]);
      ClauseAdds(r, raw, clauses, i, contexts, more);
      contexts := contexts + more;
    }
    AllClauses(r, raw, text);
  }

  lemma ClauseAdds(r: Reader, raw: string, clauses: seq<string>, i: nat, before: seq<string>, more: seq<string>)
    requires i < |clauses|
    requires forall context :: context in before <==> InAnyOf(r, raw, clauses, i, context)
    requires forall context :: context in more <==> IsContextIn(r, raw, clauses[i], context)
    ensures forall context :: context in before + more <==> InAnyOf(r, raw, clauses, i + 1, context)
  {
    forall context ensures InAnyOf(r, raw, clauses, i + 1, context)
                           <==> (InAnyOf(r, raw, clauses, i, context) || IsContextIn(r, raw, clauses[i], context)) {
      MoreClauses(r, raw, clauses, i, context);
    }
  }

  lemma MoreClauses(r: Reader, raw: string, clauses: seq<string>, i: nat, context: string)
    requires i < |clauses|
    ensures InAnyOf(r, raw, clauses, i + 1, context)
            <==> (InAnyOf(r, raw, clauses, i, context) || IsContextIn(r, raw, clauses[i], context))
  {
  }

  lemma AllClauses(r: Reader, raw: string, text: string)
    ensures var clauses := Clauses(text, CLAUSE_ENDS);
            forall context :: InAnyOf(r, raw, clauses, |clauses|, context) <==> IsContext(r, raw, text, context)
  {
    var clauses := Clauses(text, CLAUSE_ENDS);
    forall context ensures InAnyOf(r, raw, clauses, |clauses|, context) <==> IsContext(r, raw, text, context) {
      if clause :| clause in clauses && IsContextIn(r, raw, clause, context) {
        var k :| 0 <= k < |clauses| && clauses[k] == clause;
      }
    }
  }

  /** The text a number is checked in: each clause that states it, or the whole claim when none does. */
  ghost predicate IsCheckedIn(r: Reader, raw: string, text: string, context: string) {
    IsContext(r, raw, text, context) || (context == text && !HasContext(r, raw, text))
  }

  // ----- support by a fact

  predicate LabelOccurs(labels: seq<string>, context: string) {
    exists l :: l in labels && l != "" && Contains(NormalLabel(context), l)
  }

  function WithValue(facts: seq<Fact>, value: Option<real>): seq<Fact> {
    if facts == [] then [] else (if facts[0].value.Some? && facts[0].value == value then [facts[0]] else []) + WithValue(facts[1..], value)
  }

  /** claim_has_competing_fact_label: the claim names something that is not this fact. */
  predicate HasCompetingLabel(context: string, labels: seq<string>, facts: seq<Fact>) {
    exists f :: f in facts && (Competes(context, labels, f.labelText) || Competes(context, labels, f.column))
  }

  predicate Competes(context: string, labels: seq<string>, name: string) {
    && name != "" && NormalLabel(name) !in NormalLabels(labels)
    && Contains(NormalLabel(context), NormalLabel(name))
  }

  /** fact_semantically_matches_claim */
  predicate Names(r: Reader, f: Fact, context: string, facts: seq<Fact>) {
    || LabelOccurs(LabelsOf(f), context)
    || (&& !r.assertsDirectValue(context)
        && |WithValue(facts, f.value)| == 1
        && !HasCompetingLabel(context, LabelsOf(f), facts))
  }

  /** The number is the fact's value, or its value in percent when the fact is a fraction. */
  predicate HasValue(r: Reader, raw: string, f: Fact) {
    var target := r.number(raw);
    && target.Some? && f.value.Some?
    && (|| Close(target.value, f.value.value)
        || (raw != "" && raw[|raw| - 1] == '%' && Abs(f.value.value) <= 1.0 && Close(target.value, f.value.value * 100.0)))
  }

  predicate FactBacks(r: Reader, f: Fact, raw: string, context: string, facts: seq<Fact>) {
    if r.isDateTime(raw) || r.isDate(raw) then f.temporal == r.temporal(raw)
    else HasValue(r, raw, f) && Names(r, f, context, facts)
  }

  /** One of the facts in `some` has the id and backs the number. */
  ghost predicate IdBacks(r: Reader, id: FactId, some: seq<Fact>, raw: string, context: string, facts: seq<Fact>) {
    exists f :: f in some && f.id == id && FactBacks(r, f, raw, context, facts)
  }

  method FactIdsForValue(r: Reader, raw: string, facts: seq<Fact>, context: string) returns (ids: seq<FactId>)
    ensures forall id :: id in ids <==> IdBacks(r, id, facts, raw, context, facts)
  {
    ids := [];
    for i := 0 to |facts|
      invariant forall id :: id in ids <==> IdBacks(r, id, facts[..i], raw, context, facts)
    {
      assert facts[..i + 1] == facts[..i] + [facts[i]];
      if FactBacks(r, facts[i], raw, context, facts) { ids := ids + [facts[i].id]; }
    }
    assert facts[..|facts|] == facts;
  }

  // ----- support by the question

  predicate QuestionBacks(r: Reader, raw: string, context: string, question: string) {
    || (r.isDate(raw) && r.temporal(raw) in r.dates(question) && r.temporal(raw) in r.dates(context))
    || (r.number(raw).Some? && r.number(raw).value in r.contextualNumbers(question) && r.isContextual(raw, context))
  }

  // ----- support by a derived number

  predicate DerivedBacks(r: Reader, d: Derived, raw: string, context: string) {
    && r.number(raw).Some? && Close(r.number(raw).value, d.number)
    && (r.assertsDirectValue(context) ==> d.kind == PeriodRollup)
    && LabelOccurs(d.labels, context)
  }

  /** One of the derived numbers in `some` rests on the fact and backs the number. */
  ghost predicate IdDerived(r: Reader, id: FactId, some: seq<Derived>, raw: string, context: string) {
    exists d :: d in some && id in d.factIds && DerivedBacks(r, d, raw, context)
  }

  method SupportedDerivedNumericToken(r: Reader, raw: string, context: string, allowed: seq<Derived>) returns (ids: seq<FactId>)
    ensures forall id :: id in ids <==> IdDerived(r, id, allowed, raw, context)
  {
    ids := [];
    if r.number(raw).None? { return; }
    for i := 0 to |allowed|
      invariant forall id :: id in ids <==> IdDerived(r, id, allowed[..i], raw, context)
    {
      assert allowed[..i + 1] == allowed[..i] + [allowed[i]];
      if r.assertsDirectValue(context) && allowed[i].kind != PeriodRollup { continue; }
      if Close(r.number(raw).value, allowed[i].number) && LabelOccurs(allowed[i].labels, context) {
        ids := ids + allowed[i].factIds;
      }
    }
    assert allowed[..|allowed|] == allowed;
  }

  // ----- what it means that a number is justified

  /** The rows, or the question, justify that `context` states the number `raw`. */
  ghost predicate Justified(r: Reader, raw: string, context: string, question: string, facts: seq<Fact>) {
    || (exists f :: f in facts && FactBacks(r, f, raw, context, facts))
    || QuestionBacks(r, raw, context, question)
    || RowsBack(r, raw, context, facts)
  }

  /** A number derivable from the rows backs `raw`. */
  ghost predicate RowsBack(r: Reader, raw: string, context: string, facts: seq<Fact>) {
    exists d :: Derivable(facts, d) && DerivedBacks(r, d, raw, context)
  }

  ghost predicate ValueJustified(r: Reader, raw: string, text: string, question: string, facts: seq<Fact>) {
    forall context :: IsCheckedIn(r, raw, text, context) ==> Justified(r, raw, context, question, facts)
  }

  ghost predicate EntityJustified(raw: string, facts: seq<Fact>, entities: set<string>) {
    Lower(Strip(raw)) in entities || exists f :: f in facts && f.entity == Lower(Strip(raw))
  }

  /** Every number, every entity and every trend of the claim is justified. */
  ghost predicate ClaimJustified(r: Reader, claim: Claim, trend: Trend, question: string, facts: seq<Fact>, entities: set<string>) {
    && trend.reason.None?
    && (forall raw :: raw in claim.numericValues ==> ValueJustified(r, raw, claim.text, question, facts))
    && (forall raw :: raw in claim.entityValues ==> EntityJustified(raw, facts, entities))
  }

  lemma {:induction false} GroupIsFromFacts(facts: seq<Fact>, key: (string, string))
    ensures forall f :: f in GroupOf(facts, key) <==> f in facts && f.value.Some? && (f.taskId, f.column) == key
  {
    if facts != [] {
      GroupIsFromFacts(facts[..|facts| - 1], key);
      assert facts == facts[..|facts| - 1] + [facts[|facts| - 1]];
    }
  }

  /** A derived number names at least one fact, and only facts. */
  lemma DerivedNamesFacts(facts: seq<Fact>, d: Derived)
    requires Derivable(facts, d)
    ensures d.factIds != [] && forall id :: id in d.factIds ==> exists f :: f in facts && f.id == id
  {
    var key :| FromGroup(GroupOf(facts, key), d);
    var g := GroupOf(facts, key);
    GroupIsFromFacts(facts, key);
    forall id | id in d.factIds ensures exists f :: f in facts && f.id == id {
      var k :| 0 <= k < |d.factIds| && d.factIds[k] == id;
      if FromWindow(g, d) {
        assert g[k] in g;
      } else {
        var i: nat :| i + 1 < |g| && FromNeighbours(g, d, i);
        assert g[i] in g && g[i + 1] in g;
      }
    }
  }

  lemma SameDerivationBacks(r: Reader, d: Derived, e: Derived, raw: string, context: string)
    requires SameDerivation(d, e) && DerivedBacks(r, d, raw, context)
    ensures DerivedBacks(r, e, raw, context)
  {
    var l :| l in d.labels && l != "" && Contains(NormalLabel(context), l);
    assert l in multiset(d.labels);
    assert l in multiset(e.labels);
  }

  ghost predicate ListBacks(r: Reader, raw: string, context: string, allowed: seq<Derived>) {
    exists d :: d in allowed && DerivedBacks(r, d, raw, context)
  }

  lemma ListedIsDerivable(r: Reader, raw: string, context: string, facts: seq<Fact>, allowed: seq<Derived>)
    requires OnlyDerivable(allowed, facts) && ListBacks(r, raw, context, allowed)
    ensures RowsBack(r, raw, context, facts)
  {
  }

  lemma DerivableIsListed(r: Reader, raw: string, context: string, facts: seq<Fact>, allowed: seq<Derived>)
    requires AllDerivable(allowed, facts) && RowsBack(r, raw, context, facts)
    ensures ListBacks(r, raw, context, allowed)
  {
    var d :| Derivable(facts, d) && DerivedBacks(r, d, raw, context);
    var e :| e in allowed && SameDerivation(e, d);
    SameDerivationBacks(r, d, e, raw, context);
  }

  /** The list of supported numbers backs what the rows back, and every number in it rests on facts. */
  ghost predicate Lists(r: Reader, allowed: seq<Derived>, facts: seq<Fact>) {
    && (forall raw, context :: ListBacks(r, raw, context, allowed) <==> RowsBack(r, raw, context, facts))
    && (forall d :: d in allowed ==> d.factIds != [] && NameFacts(d.factIds, facts))
  }

  lemma SupportedNumbersList(r: Reader, allowed: seq<Derived>, facts: seq<Fact>)
    requires OnlyDerivable(allowed, facts) && AllDerivable(allowed, facts)
    ensures Lists(r, allowed, facts)
  {
    forall raw, context ensures ListBacks(r, raw, context, allowed) <==> RowsBack(r, raw, context, facts) {
      if ListBacks(r, raw, context, allowed) { ListedIsDerivable(r, raw, context, facts, allowed); }
      if RowsBack(r, raw, context, facts) { DerivableIsListed(r, raw, context, facts, allowed); }
    }
    forall d | d in allowed ensures d.factIds != [] && NameFacts(d.factIds, facts) { DerivedNamesFacts(facts, d); }
  }

  // ----- support_for_claim

  ghost predicate NameFacts(ids: seq<FactId>, facts: seq<Fact>) {
    forall id :: id in ids ==> exists f :: f in facts && f.id == id
  }

  /** One clause of the loop over contexts. */
  method SupportInContext(r: Reader, raw: string, context: string, question: string, facts: seq<Fact>, allowed: seq<Derived>)
    returns (ids: seq<FactId>, supported: bool)
    requires Lists(r, allowed, facts)
    ensures supported <==> Justified(r, raw, context, question, facts)
    ensures NameFacts(ids, facts)
  {
    ids := FactIdsForValue(r, raw, facts, context);
    if ids != [] {
      assert ids[0] in ids;
      return ids, true;
    }
    NoIdNoFact(r, raw, context, facts);
    if QuestionBacks(r, raw, context, question) { return [], true; }
    ids := SupportedDerivedNumericToken(r, raw, context, allowed);
    DerivedIdsExist(r, raw, context, facts, allowed, ids);
    assert ListBacks(r, raw, context, allowed) <==> RowsBack(r, raw, context, facts);
    supported := ids != [];
  }

  lemma NoIdNoFact(r: Reader, raw: string, context: string, facts: seq<Fact>)
    requires forall id: FactId :: !IdBacks(r, id, facts, raw, context, facts)
    ensures forall f :: f in facts ==> !FactBacks(r, f, raw, context, facts)
  {
    forall f | f in facts ensures !FactBacks(r, f, raw, context, facts) {
      assert !IdBacks(r, f.id, facts, raw, context, facts);
    }
  }

  lemma DerivedIdsExist(r: Reader, raw: string, context: string, facts: seq<Fact>, allowed: seq<Derived>, ids: seq<FactId>)
    requires forall d :: d in allowed ==> d.factIds != [] && NameFacts(d.factIds, facts)
    requires forall id :: id in ids <==> IdDerived(r, id, allowed, raw, context)
    ensures ids != [] <==> ListBacks(r, raw, context, allowed)
    ensures NameFacts(ids, facts)
  {
    if d :| d in allowed && DerivedBacks(r, d, raw, context) {
      assert d.factIds[0] in d.factIds;
      assert IdDerived(r, d.factIds[0], allowed, raw, context);
    }
    if ids != [] { assert IdDerived(r, ids[0], allowed, raw, context); }
    forall id | id in ids ensures exists f :: f in facts && f.id == id {
      assert IdDerived(r, id, allowed, raw, context);
      var d :| d in allowed && id in d.factIds && DerivedBacks(r, d, raw, context);
      assert NameFacts(d.factIds, facts);
    }
  }

  lemma ContextsAreChecked(r: Reader, raw: string, text: string, found: seq<string>, contexts: seq<string>)
    requires forall context :: context in found <==> IsContext(r, raw, text, context)
    requires contexts == if found == [] then [text] else found
    ensures forall context :: context in contexts <==> IsCheckedIn(r, raw, text, context)
  {
    if found != [] { assert found[0] in found; }
  }

  method SupportForValue(r: Reader, raw: string, text: string, question: string, facts: seq<Fact>, allowed: seq<Derived>)
    returns (ids: seq<FactId>, supported: bool)
    requires Lists(r, allowed, facts)
    ensures supported <==> ValueJustified(r, raw, text, question, facts)
    ensures NameFacts(ids, facts)
  {
    var found := ClaimContextsForValue(r, raw, text);
    var contexts := if found == [] then [text] else found;
    ContextsAreChecked(r, raw, text, found, contexts);
    ids, supported := [], true;
    for i := 0 to |contexts|
      invariant NameFacts(ids, facts)
      invariant supported <==> AllJustified(r, raw, contexts[..i], question, facts)
    {
      var more, ok := SupportInContext(r, raw, contexts[i], question, facts, allowed);
      OneMoreJustified(r, raw, contexts, i, question, facts);
      BothNameFacts(ids, more, facts);
      ids := ids + more;
      supported := supported && ok;
    }
    assert contexts[..|contexts|] == contexts;
    EachContext(r, raw, text, question, facts, contexts);
  }

  ghost predicate AllJustified(r: Reader, raw: string, contexts: seq<string>, question: string, facts: seq<Fact>) {
    forall context :: context in contexts ==> Justified(r, raw, context, question, facts)
  }

  lemma OneMoreJustified(r: Reader, raw: string, contexts: seq<string>, i: nat, question: string, facts: seq<Fact>)
    requires i < |contexts|
    ensures AllJustified(r, raw, contexts[..i + 1], question, facts)
            <==> AllJustified(r, raw, contexts[..i], question, facts) && Justified(r, raw, contexts[i], question, facts)
  {
    assert contexts[..i + 1] == contexts[..i] + [contexts[i]];
  }

  lemma BothNameFacts(a: seq<FactId>, b: seq<FactId>, facts: seq<Fact>)
    requires NameFacts(a, facts) && NameFacts(b, facts)
    ensures NameFacts(a + b, facts)
  {
  }

  lemma EachContext(r: Reader, raw: string, text: string, question: string, facts: seq<Fact>, contexts: seq<string>)
    requires forall context :: context in contexts <==> IsCheckedIn(r, raw, text, context)
    ensures AllJustified(r, raw, contexts, question, facts) <==> ValueJustified(r, raw, text, question, facts)
  {
  }

  method SupportForEntity(raw: string, facts: seq<Fact>, entities: set<string>) returns (ids: seq<FactId>, supported: bool)
    ensures supported <==> EntityJustified(raw, facts, entities)
    ensures NameFacts(ids, facts)
  {
    ids := [];
    for i := 0 to |facts|
      invariant NameFacts(ids, facts)
      invariant ids != [] <==> exists f :: f in facts[..i] && f.entity == Lower(Strip(raw))
    {
      assert facts[..i + 1] == facts[..i] + [facts[i]];
      if facts[i].entity == Lower(Strip(raw)) { ids := ids + [facts[i].id]; }
    }
    assert facts[..|facts|] == facts;
    supported := ids != [] || Lower(Strip(raw)) in entities;
  }

  /** The reasons against a claim: its trend, and each number and entity that is not justified. */
  ghost predicate Against(r: Reader, claim: Claim, trend: Trend, question: string, facts: seq<Fact>, entities: set<string>, reason: Reason) {
    match reason
    case TrendReason(text) => trend.reason == Some(text)
    case UnsupportedValue(_) => BadValue(r, claim.numericValues, claim.text, question, facts, reason)
    case UnsupportedEntity(_) => BadEntity(claim.entityValues, facts, entities, reason)
  }

  ghost predicate BadValue(r: Reader, values: seq<string>, text: string, question: string, facts: seq<Fact>, reason: Reason) {
    reason.UnsupportedValue? && reason.raw in values && !ValueJustified(r, reason.raw, text, question, facts)
  }

  ghost predicate BadEntity(values: seq<string>, facts: seq<Fact>, entities: set<string>, reason: Reason) {
    reason.UnsupportedEntity? && reason.raw in values && !EntityJustified(reason.raw, facts, entities)
  }

  method UnsupportedValues(r: Reader, claim: Claim, question: string, facts: seq<Fact>, allowed: seq<Derived>)
    returns (ids: seq<FactId>, reasons: seq<Reason>)
    requires Lists(r, allowed, facts)
    ensures NameFacts(ids, facts)
    ensures forall x :: x in reasons <==> BadValue(r, claim.numericValues, claim.text, question, facts, x)
  {
    ids, reasons := [], [];
    for i := 0 to |claim.numericValues|
      invariant NameFacts(ids, facts)
      invariant forall x :: x in reasons <==> BadValue(r, claim.numericValues[..i], claim.text, question, facts, x)
    {
      var more, ok := SupportForValue(r, claim.numericValues[i], claim.text, question, facts, allowed);
      ids := ids + more;
      if !ok { reasons := reasons + [UnsupportedValue(claim.numericValues[i])]; }
    }
  }

  method UnsupportedEntities(claim: Claim, facts: seq<Fact>, entities: set<string>) returns (ids: seq<FactId>, reasons: seq<Reason>)
    ensures NameFacts(ids, facts)
    ensures forall x :: x in reasons <==> BadEntity(claim.entityValues, facts, entities, x)
  {
    ids, reasons := [], [];
    for i := 0 to |claim.entityValues|
      invariant NameFacts(ids, facts)
      invariant forall x :: x in reasons <==> BadEntity(claim.entityValues[..i], facts, entities, x)
    {
      var more, ok := SupportForEntity(claim.entityValues[i], facts, entities);
      ids := ids + more;
      if !ok { reasons := reasons + [UnsupportedEntity(claim.entityValues[i])]; }
    }
  }

  method SupportForClaim(r: Reader, claim: Claim, trend: Trend, question: string, facts: seq<Fact>, allowed: seq<Derived>, entities: set<string>)
    returns (ids: seq<FactId>, reasons: seq<Reason>)
    requires Lists(r, allowed, facts)
    ensures forall reason :: reason in reasons <==> Against(r, claim, trend, question, facts, entities, reason)
    ensures NameFacts(trend.factIds, facts) ==> NameFacts(ids, facts)
  {
    var direction := if trend.reason.Some? then [TrendReason(trend.reason.value)] else [];
    var valueIds, values := UnsupportedValues(r, claim, question, facts, allowed);
    var entityIds, others := UnsupportedEntities(claim, facts, entities);
    ids := Once(trend.factIds + valueIds + entityIds);
    reasons := Once(direction + values + others);
  }

  lemma NoReasonAgainst(r: Reader, claim: Claim, trend: Trend, question: string, facts: seq<Fact>, entities: set<string>)
    ensures (forall reason :: !Against(r, claim, trend, question, facts, entities, reason))
            <==> ClaimJustified(r, claim, trend, question, facts, entities)
  {
    if forall reason :: !Against(r, claim, trend, question, facts, entities, reason) {
      assert trend.reason.Some? ==> Against(r, claim, trend, question, facts, entities, TrendReason(trend.reason.value));
      forall raw | raw in claim.numericValues ensures ValueJustified(r, raw, claim.text, question, facts) {
        assert !Against(r, claim, trend, question, facts, entities, UnsupportedValue(raw));
      }
      forall raw | raw in claim.entityValues ensures EntityJustified(raw, facts, entities) {
        assert !Against(r, claim, trend, question, facts, entities, UnsupportedEntity(raw));
      }
    }
  }

  // ----- verify

  /** What a checked claim says about itself. */
  ghost predicate IsRight(r: Reader, c: Checked, trendOf: string -> Trend, question: string, facts: seq<Fact>, entities: set<string>) {
    && (forall reason :: reason in c.reasons <==> Against(r, c.claim, trendOf(c.claim.text), question, facts, entities, reason))
    && (c.supported <==> ClaimJustified(r, c.claim, trendOf(c.claim.text), question, facts, entities))
  }

  /** One round of the loop over claims. */
  method CheckClaim(r: Reader, claim: Claim, trendOf: string -> Trend, question: string, facts: seq<Fact>, allowed: seq<Derived>, entities: set<string>)
    returns (verified: Checked)
    requires Lists(r, allowed, facts)
    ensures verified.claim == claim && (verified.supported <==> verified.reasons == [])
    ensures IsRight(r, verified, trendOf, question, facts, entities)
  {
    var trend := trendOf(claim.text);
    var ids, reasons := SupportForClaim(r, claim, trend, question, facts, allowed, entities);
    NoReasonAgainst(r, claim, trend, question, facts, entities);
    assert reasons != [] ==> reasons[0] in reasons;
    verified := Checked(claim, ids, reasons == [], reasons);
  }

  function NotSupported(checked: seq<Checked>): seq<Checked> {
    if checked == [] then []
    else NotSupported(checked[..|checked| - 1]) + (if checked[|checked| - 1].supported then [] else [checked[|checked| - 1]])
  }

  function ClaimsOf(checked: seq<Checked>): seq<Claim> {
    seq(|checked|, i requires 0 <= i < |checked| => checked[i].claim)
  }

  lemma {:induction false} AllSupported(checked: seq<Checked>)
    ensures NotSupported(checked) == [] <==> forall c :: c in checked ==> c.supported
  {
    if checked != [] {
      AllSupported(checked[..|checked| - 1]);
      assert checked == checked[..|checked| - 1] + [checked[|checked| - 1]];
    }
  }

  /** The answer passes exactly when every claim in it is justified; every claim is reported once,
      with exactly the reasons against it, and the unsupported ones again on their own. */
  method Verify(r: Reader, claims: seq<Claim>, trendOf: string -> Trend, question: string, facts: seq<Fact>, entities: set<string>)
    returns (v: Verification)
    ensures v.passed <==> forall c :: c in claims ==> ClaimJustified(r, c, trendOf(c.text), question, facts, entities)
    ensures ClaimsOf(v.claims) == claims && v.factCount == |facts|
    ensures forall c :: c in v.claims ==> IsRight(r, c, trendOf, question, facts, entities)
    ensures v.unsupportedClaims == NotSupported(v.claims)
  {
    var allowed := SupportedNumbers(facts);
    SupportedNumbersList(r, allowed, facts);
    var checked: seq<Checked> := [];
    var unsupported: seq<Checked> := [];
    for i := 0 to |claims|
      invariant ClaimsOf(checked) == claims[..i] && unsupported == NotSupported(checked)
      invariant AllRight(r, checked, trendOf, question, facts, entities)
    {
      var verified := CheckClaim(r, claims[i], trendOf, question, facts, allowed, entities);
      OneMoreChecked(r, checked, verified, trendOf, question, facts, entities);
      checked := checked + [verified];
      if verified.reasons != [] { unsupported := unsupported + [verified]; }
    }
    v := Verification(unsupported == [], |facts|, checked, unsupported);
    PassesExactly(r, claims, checked, trendOf, question, facts, entities);
  }

  ghost predicate AllRight(r: Reader, checked: seq<Checked>, trendOf: string -> Trend, question: string, facts: seq<Fact>, entities: set<string>) {
    forall c :: c in checked ==> IsRight(r, c, trendOf, question, facts, entities)
  }

  lemma OneMoreChecked(r: Reader, checked: seq<Checked>, c: Checked, trendOf: string -> Trend, question: string, facts: seq<Fact>, entities: set<string>)
    requires AllRight(r, checked, trendOf, question, facts, entities) && IsRight(r, c, trendOf, question, facts, entities)
    ensures AllRight(r, checked + [c], trendOf, question, facts, entities)
    ensures ClaimsOf(checked + [c]) == ClaimsOf(checked) + [c.claim]
    ensures NotSupported(checked + [c]) == NotSupported(checked) + (if c.supported then [] else [c])
  {
    assert (checked + [c])[..|checked|] == checked;
  }

  lemma PassesExactly(r: Reader, claims: seq<Claim>, checked: seq<Checked>, trendOf: string -> Trend, question: string, facts: seq<Fact>, entities: set<string>)
    requires AllRight(r, checked, trendOf, question, facts, entities) && ClaimsOf(checked) == claims
    ensures NotSupported(checked) == [] <==> forall c :: c in claims ==> ClaimJustified(r, c, trendOf(c.text), question, facts, entities)
  {
    AllSupported(checked);
    forall k | 0 <= k < |claims| ensures checked[k].claim == claims[k] && checked[k] in checked {
      assert ClaimsOf(checked)[k] == claims[k];
    }
  }

  // ----- what passing means

  ghost predicate FactNamed(r: Reader, raw: string, context: string, facts: seq<Fact>) {
    exists f :: f in facts && HasValue(r, raw, f) && LabelOccurs(LabelsOf(f), context)
  }

  ghost predicate TotalNamed(r: Reader, raw: string, context: string, facts: seq<Fact>) {
    exists key :: NamedTotal(r, raw, context, GroupOf(facts, key))
  }

  /** The context names a fact or a published total with the number, or the question states it. */
  ghost predicate Named(r: Reader, raw: string, context: string, question: string, facts: seq<Fact>) {
    FactNamed(r, raw, context, facts) || QuestionBacks(r, raw, context, question) || TotalNamed(r, raw, context, facts)
  }

  /** A context that asserts a number outright justifies it exactly when it names a fact with it, or
      a column with it as published total, or when the question states it. */
  lemma DirectValueIsNamed(r: Reader, raw: string, context: string, question: string, facts: seq<Fact>)
    requires r.assertsDirectValue(context) && !r.isDate(raw) && !r.isDateTime(raw)
    ensures Justified(r, raw, context, question, facts) <==> Named(r, raw, context, question, facts)
  {
    DirectFactIsNamed(r, raw, context, facts);
    if RowsBack(r, raw, context, facts) { DirectTotalIsNamed(r, raw, context, facts); }
    if key :| NamedTotal(r, raw, context, GroupOf(facts, key)) { NamedTotalBacks(r, raw, context, facts, key); }
  }

  lemma DirectFactIsNamed(r: Reader, raw: string, context: string, facts: seq<Fact>)
    requires r.assertsDirectValue(context) && !r.isDate(raw) && !r.isDateTime(raw)
    ensures (exists f :: f in facts && FactBacks(r, f, raw, context, facts)) <==> FactNamed(r, raw, context, facts)
  {
    forall f | f in facts
      ensures FactBacks(r, f, raw, context, facts) <==> HasValue(r, raw, f) && LabelOccurs(LabelsOf(f), context)
    {
    }
  }

  lemma DirectTotalIsNamed(r: Reader, raw: string, context: string, facts: seq<Fact>)
    requires r.assertsDirectValue(context) && RowsBack(r, raw, context, facts)
    ensures TotalNamed(r, raw, context, facts)
  {
    var d :| Derivable(facts, d) && DerivedBacks(r, d, raw, context);
    var key :| FromGroup(GroupOf(facts, key), d);
    assert NamedTotal(r, raw, context, GroupOf(facts, key));
  }

  lemma NamedTotalBacks(r: Reader, raw: string, context: string, facts: seq<Fact>, key: (string, string))
    requires NamedTotal(r, raw, context, GroupOf(facts, key))
    ensures RowsBack(r, raw, context, facts)
  {
    var g := GroupOf(facts, key);
    var d := Derived(Total(g), LabelsOf(g[0]), Ids(g), PeriodRollup);
    assert FromGroup(g, d);
    assert Derivable(facts, d) && DerivedBacks(r, d, raw, context);
  }

  /** The number is the total of a group with the rollup policy, and the clause names the group. */
  predicate NamedTotal(r: Reader, raw: string, context: string, g: seq<Measured>) {
    && |g| >= 2 && IsPublishedRollup(g) && LabelOccurs(LabelsOf(g[0]), context)
    && r.number(raw).Some? && Close(r.number(raw).value, Total(g))
  }

  /** A context holds none of the characters that end a clause, so that a label beyond one is not seen.
      A number without a context is checked in the whole claim instead. */
  lemma ContextIsOneClause(r: Reader, raw: string, text: string, context: string)
    requires IsContext(r, raw, text, context)
    ensures forall c :: c in context ==> c !in CLAUSE_ENDS
  {
    var clause :| clause in Clauses(text, CLAUSE_ENDS) && IsContextIn(r, raw, clause, context);
    ClauseHoldsNoSeparator(text, CLAUSE_ENDS, clause);
    BeginsWithin(r, raw, clause, context);
    WithoutEnds(clause, context, CLAUSE_ENDS);
  }

  lemma WithoutEnds(clause: string, context: string, ends: string)
    requires forall c :: c in clause ==> c !in ends
    requires forall c :: c in context ==> c == '，' || c in clause
    requires '，' !in ends
    ensures forall c :: c in context ==> c !in ends
  {
  }

  lemma BeginsWithin(r: Reader, raw: string, clause: string, context: string)
    requires IsContextIn(r, raw, clause, context)
    ensures forall c :: c in context ==> c == '，' || c in clause
  {
    var i :| 0 <= i < |Clauses(clause, SEGMENT_ENDS)| && context == Beginning(clause, i);
    BeginningCharacters(clause, i);
  }

  lemma BeginningCharacters(clause: string, i: nat)
    requires i < |Clauses(clause, SEGMENT_ENDS)|
    ensures forall c :: c in Beginning(clause, i) ==> c in "，" || c in clause
  {
    var segments := Clauses(clause, SEGMENT_ENDS);
    JoinedCharacters(segments[..i + 1], "，");
    forall piece | piece in segments[..i + 1] ensures Within(piece, clause) { SegmentCharacters(clause, piece); }
    forall c | c in Beginning(clause, i) && c !in "，" ensures c in clause {
      var piece :| piece in segments[..i + 1] && c in piece;
      assert Within(piece, clause);
    }
  }

  lemma {:induction false} JoinedCharacters(pieces: seq<string>, separator: string)
    ensures forall c :: c in Join(pieces, separator) ==> c in separator || exists p :: p in pieces && c in p
  {
    if |pieces| > 1 {
      JoinedCharacters(pieces[1..], separator);
      assert pieces == [pieces[0]] + pieces[1..];
    } else if |pieces| == 1 {
      assert pieces[0] in pieces;
    }
  }

  ghost predicate Within(piece: string, s: string) { forall c :: c in piece ==> c in s }

  lemma SegmentCharacters(clause: string, segment: string)
    requires segment in Clauses(clause, SEGMENT_ENDS)
    ensures Within(segment, clause)
  {
    StrippedPieces(SplitOn(clause, SEGMENT_ENDS));
    var p :| p in SplitOn(clause, SEGMENT_ENDS) && Strip(p) == segment;
    var left, right := StripParts(p);
    assert Within(segment, p);
    PieceCharacters(clause, SEGMENT_ENDS);
  }

  lemma {:induction false} PieceCharacters(s: string, separators: string)
    ensures forall piece :: piece in SplitOn(s, separators) ==> Within(piece, s)
  {
    if s != [] {
      var before := SplitOn(s[..|s| - 1], separators);
      PieceCharacters(s[..|s| - 1], separators);
      assert s == s[..|s| - 1] + [s[|s| - 1]];
      forall piece | piece in before ensures Within(piece, s) {
        assert Within(piece, s[..|s| - 1]);
      }
      assert Within(before[|before| - 1] + [s[|s| - 1]], s) by {
        assert before[|before| - 1] in before;
      }
    }
  }
}
