/**
 The last step before an answer is shown: `_finalize_answer` of `answer.py`
 checks the draft, then fallback texts, and records the verdict on what it
 returns.
 */
module AnswerGate {
  import opened Basics
  import opened Text

  datatype Verdict = Verdict(
    passed: bool,
    factCount: nat,
    unsupportedClaims: seq<string>,
    rejectedClaims: seq<string>,
    fallbackUsed: bool,
    fallbackReason: string)

  /** What the run has established before the answer is finalized, and the services used on texts. */
  datatype Evidence = Evidence(
    alignmentIncomplete: bool,
    incompleteAnswer: string,
    blockingAnswer: string,
    rendererOwned: bool,
    rowCount: nat,
    deterministicAnswer: string,
    factAnswer: string,
    blocksDirectAnswer: bool,
    guard: string -> string,
    withoutDisclosures: string -> string,
    withSkeleton: (string, string) -> string,
    contractVerdict: string -> Option<Verdict>,
    claimVerdict: string -> Verdict,
    failureReason: Verdict -> string)

  const DETAIL_INTRO := "已查询到符合条件的明细，结果如下。"

  const NO_DETAIL := "当前查询范围内没有符合条件的明细。"

  const SAFE_TEXT := "已拿到查询结果，但回答完整性校验未通过；为避免展示未经校验的数值，请稍后重试。"

  /** The verdict on a text: the lightweight contract when it applies, the claim verifier otherwise. */
  function Check(e: Evidence, text: string): Verdict {
    var claims := e.withoutDisclosures(text);
    if !e.alignmentIncomplete && e.contractVerdict(claims).Some? then e.contractVerdict(claims).value
    else e.claimVerdict(claims)
  }

  function SafeText(e: Evidence): string { if e.alignmentIncomplete then e.incompleteAnswer else SAFE_TEXT }

  /** The text that is checked first. */
  function Draft(e: Evidence, answer: string, fallback: string): string {
    e.guard(if e.alignmentIncomplete then e.incompleteAnswer else if answer != "" then answer else fallback)
  }

  function Completed(e: Evidence, text: string, fallback: string): string {
    if fallback != "" && e.blocksDirectAnswer then e.withSkeleton(text, fallback) else text
  }

  function Candidates(e: Evidence, fallback: string): seq<string> {
    if e.alignmentIncomplete then [e.incompleteAnswer]
    else [fallback, Completed(e, e.deterministicAnswer, fallback), Completed(e, e.factAnswer, fallback)]
  }

  function Guarded(e: Evidence, candidate: string): string { e.guard(Strip(candidate)) }

  /** The first candidate that is a text and passes, or else the safe text. */
  function FirstPassing(e: Evidence, candidates: seq<string>): string {
    if candidates == [] then SafeText(e)
    else
      var text := Guarded(e, candidates[0]);
      if text != "" && Check(e, text).passed then text else FirstPassing(e, candidates[1..])
  }

  /** What is returned, without regard to what has been tried before. */
  function Chosen(e: Evidence, answer: string, fallback: string): string {
    if Check(e, Draft(e, answer, fallback)).passed then Draft(e, answer, fallback)
    else FirstPassing(e, Candidates(e, fallback))
  }

  /** Business claims are not shown at all, only a fixed notice or introduction. */
  predicate IsClosed(e: Evidence) {
    (e.blockingAnswer != "" && !e.alignmentIncomplete) || e.rendererOwned
  }

  function ClosedText(e: Evidence): string {
    e.guard(if e.blockingAnswer != "" && !e.alignmentIncomplete then e.blockingAnswer
            else if e.rowCount > 0 then DETAIL_INTRO else NO_DETAIL)
  }

  /** The same judgement of the same text; only the notes about a fallback may differ. */
  predicate SameJudgement(v: Verdict, w: Verdict) {
    v.passed == w.passed && v.factCount == w.factCount && v.unsupportedClaims == w.unsupportedClaims
  }

  class Gate {
    const e: Evidence
    var recorded: Option<Verdict>

    constructor (e: Evidence)
      ensures this.e == e && recorded == None
    {
      this.e := e;
      recorded := None;
    }

    method Finalize(answer: string, fallback: string) returns (text: string)
      modifies this
      ensures text == Shown(e, answer, fallback)
      ensures recorded.Some?
      ensures IsClosed(e) ==> recorded.value.passed && recorded.value.factCount == 0
      ensures !IsClosed(e) ==> SameJudgement(recorded.value, Check(e, text))
      ensures !IsClosed(e) && Check(e, Draft(e, answer, fallback)).passed ==> recorded.value == Check(e, text)
      ensures !IsClosed(e) && !Check(e, Draft(e, answer, fallback)).passed ==>
                recorded.value.fallbackUsed && recorded.value.rejectedClaims == Check(e, Draft(e, answer, fallback)).unsupportedClaims
    {
      var draft, other := answer, fallback;
      if e.alignmentIncomplete {
        draft := e.incompleteAnswer;
        other := draft;
      }
      if e.blockingAnswer != "" && !e.alignmentIncomplete {
        text := e.guard(e.blockingAnswer);
        recorded := Some(Verdict(true, 0, [], [], Strip(draft) != text, "blocking_evidence_fail_closed"));
        return;
      }
      if e.rendererOwned {
        text := e.guard(if e.rowCount > 0 then DETAIL_INTRO else NO_DETAIL);
        recorded := Some(Verdict(true, 0, [], [], true, "verified_detail_renderer_owned"));
        return;
      }
      text := e.guard(if draft != "" then draft else other);
      var verdict := Check(e, text);
      if verdict.passed {
        recorded := Some(verdict);
        return;
      }
      var reason := e.failureReason(verdict);
      var deterministic := Completed(e, e.deterministicAnswer, other);
      var facts := Completed(e, e.factAnswer, other);
      var candidates := if e.alignmentIncomplete then [e.incompleteAnswer] else [other, deterministic, facts];
      var seen := {text};
      for i := 0 to |candidates|
        invariant forall s :: s in seen ==> !Check(e, s).passed
        invariant FirstPassing(e, candidates) == FirstPassing(e, candidates[i..])
      {
        assert candidates[i..][0] == candidates[i] && candidates[i..][1..] == candidates[i + 1..];
        var candidate := Guarded(e, candidates[i]);
        if candidate == "" || candidate in seen { continue; }
        seen := seen + {candidate};
        var next := Check(e, candidate);
        if next.passed {
          recorded := Some(next.(fallbackUsed := true, fallbackReason := reason, rejectedClaims := verdict.unsupportedClaims));
          return candidate;
        }
      }
      text := SafeText(e);
      recorded := Some(Check(e, text).(
        fallbackUsed := true,
        fallbackReason := reason + ";safe_fact_fallback_failed",
        rejectedClaims := verdict.unsupportedClaims));
    }
  }

  // ----- what is never returned

  lemma {:induction false} FirstPassingPasses(e: Evidence, candidates: seq<string>)
    ensures var text := FirstPassing(e, candidates);
            || text == SafeText(e)
            || (Check(e, text).passed && exists c :: c in candidates && text == Guarded(e, c))
  {
    if candidates != [] {
      FirstPassingPasses(e, candidates[1..]);
      assert candidates == [candidates[0]] + candidates[1..];
      assert candidates[0] in candidates;
    }
  }

  /** A returned text has passed or is the safe text, and a draft that passes is returned. */
  lemma OnlyCheckedTextIsReturned(e: Evidence, answer: string, fallback: string)
    ensures var text, draft := Chosen(e, answer, fallback), Draft(e, answer, fallback);
            && (Check(e, text).passed || text == SafeText(e))
            && (Check(e, draft).passed ==> text == draft)
  {
    FirstPassingPasses(e, Candidates(e, fallback));
  }

  lemma {:induction false} SafeOnlyIfAllFail(e: Evidence, candidates: seq<string>)
    ensures (exists c :: c in candidates && Guarded(e, c) != "" && Check(e, Guarded(e, c)).passed)
            ==> Check(e, FirstPassing(e, candidates)).passed
  {
    if candidates != [] {
      SafeOnlyIfAllFail(e, candidates[1..]);
      if c :| c in candidates && Guarded(e, c) != "" && Check(e, Guarded(e, c)).passed {
        assert candidates == [candidates[0]] + candidates[1..];
        assert c == candidates[0] || c in candidates[1..];
      }
    }
  }

  /** When some text that may be shown passes, the returned text passes. */
  lemma PassingTextIsFound(e: Evidence, answer: string, fallback: string)
    ensures Check(e, Chosen(e, answer, fallback)).passed
            <==> || Check(e, Draft(e, answer, fallback)).passed
                 || (exists c :: c in Candidates(e, fallback) && Guarded(e, c) != "" && Check(e, Guarded(e, c)).passed)
                 || Check(e, SafeText(e)).passed
  {
    var candidates := Candidates(e, fallback);
    SafeOnlyIfAllFail(e, candidates);
    FirstPassingPasses(e, candidates);
    if Check(e, SafeText(e)).passed { SafePasses(e, candidates); }
    if Check(e, FirstPassing(e, candidates)).passed && FirstPassing(e, candidates) != SafeText(e) {
      PassingIsCandidate(e, candidates);
    }
  }

  lemma {:induction false} SafePasses(e: Evidence, candidates: seq<string>)
    requires Check(e, SafeText(e)).passed
    ensures Check(e, FirstPassing(e, candidates)).passed
  {
    if candidates != [] { SafePasses(e, candidates[1..]); }
  }

  lemma {:induction false} PassingIsCandidate(e: Evidence, candidates: seq<string>)
    requires FirstPassing(e, candidates) != SafeText(e)
    ensures exists c :: c in candidates && Guarded(e, c) != "" && Check(e, Guarded(e, c)).passed
  {
    if Guarded(e, candidates[0]) != "" && Check(e, Guarded(e, candidates[0])).passed {
      assert candidates[0] in candidates;
    } else {
      PassingIsCandidate(e, candidates[1..]);
      var c :| c in candidates[1..] && Guarded(e, c) != "" && Check(e, Guarded(e, c)).passed;
      assert c in candidates;
    }
  }

  /** With an incomplete snapshot alignment, no draft and no fallback has any influence on what is shown. */
  lemma DraftHasNoInfluence(e: Evidence, answer: string, fallback: string, answer': string, fallback': string)
    requires e.alignmentIncomplete
    ensures Chosen(e, answer, fallback) == Chosen(e, answer', fallback')
    ensures Chosen(e, answer, fallback) in {e.guard(e.incompleteAnswer), Guarded(e, e.incompleteAnswer), e.incompleteAnswer}
  {
    var candidates := [e.incompleteAnswer];
    assert candidates[1..] == [] && FirstPassing(e, []) == SafeText(e);
  }

  // ----- who goes first

  /** What the gate shows. */
  function Shown(e: Evidence, answer: string, fallback: string): string {
    if IsClosed(e) then ClosedText(e) else Chosen(e, answer, fallback)
  }

  /** An answer that passes is shown, whatever the fallback says. */
  lemma PassingAnswerIsShown(e: Evidence, answer: string, fallback: string)
    requires e.blockingAnswer == "" && !e.rendererOwned && !e.alignmentIncomplete
    requires answer != "" && Check(e, e.guard(answer)).passed
    ensures Shown(e, answer, fallback) == e.guard(answer)
  {
  }

  /** Without an answer the fallback goes first. */
  lemma FallbackStandsIn(e: Evidence, fallback: string)
    requires e.blockingAnswer == "" && !e.rendererOwned && !e.alignmentIncomplete
    requires Check(e, e.guard(fallback)).passed
    ensures Shown(e, "", fallback) == e.guard(fallback)
  {
  }

  /** A text that is shown when nothing before it was: it is not blank and passes. */
  predicate MayBeShown(e: Evidence, text: string) { text != "" && Check(e, text).passed }

  /** When the draft is refused: the fallback, then the deterministic answer, then the fact-only answer, the latter
      two with the skeleton when there is a fallback and a direct answer is blocked; then the fixed text. */
  lemma RefusedDraftGivesWay(e: Evidence, answer: string, fallback: string)
    requires e.blockingAnswer == "" && !e.rendererOwned && !e.alignmentIncomplete
    requires !Check(e, e.guard(if answer != "" then answer else fallback)).passed
    ensures var skeleton := fallback != "" && e.blocksDirectAnswer;
            var first := e.guard(Strip(fallback));
            var second := e.guard(Strip(if skeleton then e.withSkeleton(e.deterministicAnswer, fallback) else e.deterministicAnswer));
            var third := e.guard(Strip(if skeleton then e.withSkeleton(e.factAnswer, fallback) else e.factAnswer));
            Shown(e, answer, fallback)
            == (if MayBeShown(e, first) then first
                else if MayBeShown(e, second) then second
                else if MayBeShown(e, third) then third
                else "已拿到查询结果，但回答完整性校验未通过；为避免展示未经校验的数值，请稍后重试。")
  {
    FirstOfThree(e, fallback, Completed(e, e.deterministicAnswer, fallback), Completed(e, e.factAnswer, fallback));
  }

  lemma FirstOfThree(e: Evidence, a: string, b: string, c: string)
    ensures var x, y, z := Guarded(e, a), Guarded(e, b), Guarded(e, c);
            FirstPassing(e, [a, b, c])
            == (if MayBeShown(e, x) then x else if MayBeShown(e, y) then y else if MayBeShown(e, z) then z else SafeText(e))
  {
    assert [a, b, c][1..] == [b, c] && [b, c][1..] == [c] && [c][1..] == [];
    assert FirstPassing(e, [c]) == if MayBeShown(e, Guarded(e, c)) then Guarded(e, c) else SafeText(e);
    assert FirstPassing(e, [b, c]) == if MayBeShown(e, Guarded(e, b)) then Guarded(e, b) else FirstPassing(e, [c]);
  }

  /** A blocking answer goes before everything but an incomplete alignment, and a renderer of details before every
      draft: it is introduced by one of two fixed texts. */
  lemma ClosedGateShows(e: Evidence, answer: string, fallback: string)
    ensures e.blockingAnswer != "" && !e.alignmentIncomplete ==> Shown(e, answer, fallback) == e.guard(e.blockingAnswer)
    ensures (e.blockingAnswer == "" || e.alignmentIncomplete) && e.rendererOwned ==>
              Shown(e, answer, fallback) == e.guard(if e.rowCount > 0 then "已查询到符合条件的明细，结果如下。" else "当前查询范围内没有符合条件的明细。")
  {
  }

  /** With an incomplete alignment only the notice about it is shown. */
  lemma IncompleteAlignmentShows(e: Evidence, answer: string, fallback: string)
    requires e.alignmentIncomplete && !e.rendererOwned
    ensures var notice := e.incompleteAnswer;
            Shown(e, answer, fallback)
            == (if Check(e, e.guard(notice)).passed then e.guard(notice)
                else if MayBeShown(e, e.guard(Strip(notice))) then e.guard(Strip(notice))
                else notice)
  {
    assert [e.incompleteAnswer][1..] == [] && FirstPassing(e, []) == SafeText(e);
  }

  /** A text is judged, its disclosures apart, by the contract on metric facts where that applies, and by the
      claims verifier otherwise; an incomplete alignment leaves the contract out. */
  lemma WhoJudges(e: Evidence, text: string)
    ensures e.alignmentIncomplete ==> Check(e, text) == e.claimVerdict(e.withoutDisclosures(text))
    ensures !e.alignmentIncomplete && e.contractVerdict(e.withoutDisclosures(text)).Some? ==>
              Some(Check(e, text)) == e.contractVerdict(e.withoutDisclosures(text))
    ensures !e.alignmentIncomplete && e.contractVerdict(e.withoutDisclosures(text)).None? ==>
              Check(e, text) == e.claimVerdict(e.withoutDisclosures(text))
  {
  }
}
