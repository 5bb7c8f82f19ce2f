/**
 The final gate and the fact-only fallback together: the safe text is needed only
 when the labels or time ranges of the facts carry numbers of their own.
 */
module GateFallback {
  import opened AnswerContract
  import opened AnswerGate

  /** The evidence checks answers against `facts`. */
  ghost predicate ChecksFacts(e: Evidence, facts: seq<MetricFact>, others: seq<real>) {
    && !e.alignmentIncomplete && facts != [] && e.factAnswer == FallbackText(facts)
    && forall text :: e.contractVerdict(text).Some? && (e.contractVerdict(text).value.passed <==> Passes(text, facts, others))
  }

  /** The fact-only text as it is offered: completed by the answer skeleton if need be, and guarded. */
  function Offered(e: Evidence, fallback: string): string { Guarded(e, Completed(e, e.factAnswer, fallback)) }

  /** The offered text, its disclosures apart, is the fact-only text, with the skeleton in front of it and the
      notes of the guard behind it, where there are any. */
  ghost predicate IsOfferedAround(e: Evidence, fallback: string, skeleton: string, notes: string) {
    && Offered(e, fallback) != ""
    && e.withoutDisclosures(Offered(e, fallback)) == Around(skeleton, e.factAnswer, notes)
  }

  /** Whatever the draft says, the returned text passes the contract, unless a label or time range of a fact,
      the skeleton or a note adds a number that is not allowed; and the offered text itself passes exactly then. */
  lemma FallbackSavesTheAnswer(e: Evidence, answer: string, fallback: string, skeleton: string, notes: string, facts: seq<MetricFact>, others: seq<real>)
    requires ChecksFacts(e, facts, others) && IsOfferedAround(e, fallback, skeleton, notes)
    requires forall f :: f in facts ==> Normalize(f.formattedValue) != ""
    ensures var allowed := AllowedNumbers(facts, others);
            var clean := && AllSupported(skeleton, allowed) && AllSupported(notes, allowed)
                         && forall f :: f in facts ==> AddsNothing(PartsOf(f), allowed);
            && (Check(e, Offered(e, fallback)).passed <==> clean)
            && (clean ==> Passes(e.withoutDisclosures(Chosen(e, answer, fallback)), facts, others))
  {
    FallbackPassesWithin(skeleton, facts, others, notes);
    assert Candidates(e, fallback)[2] == Completed(e, e.factAnswer, fallback);
    assert Completed(e, e.factAnswer, fallback) in Candidates(e, fallback);
    PassingTextIsFound(e, answer, fallback);
  }
}
