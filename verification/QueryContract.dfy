/**
 The two identities of a query plan in `query_graph_contract.py`: the full
 fingerprint covers everything but traces, the structure fingerprint covers an
 allow-list at every level of the plan. What is hashed is the JSON text; the hash
 itself is not modelled.
 */
module QueryContract {
  import opened Basics
  import opened Json
  import opened Dumps
  import opened FilterGraph
  import opened FilterMeaning
  import opened FilterObligations
  import opened MetricResolutions
  import opened QueryFilters

  // ----- the allow-lists

  /** _NON_EXECUTION_PLAN_FIELDS, as spelled in the dump. */
  const NON_EXECUTION_FIELDS: seq<string> := [
    "agentTrace", "compilerTrace", "plannerToolCalls", "plannerToolResults", "plannerLoadedRefs",
    "plannerContextFiles", "plannerPromptStats"]

  /** _EXECUTABLE_INTENT_FIELDS */
  const INTENT_FIELDS: seq<string> := [
    "intentType", "category", "answerMode", "planTaskId", "taskRole", "preferredTable", "metricColumn", "metricName",
    "metricFormula", "metricSpecs", "groupByColumn", "filterColumn", "filterValue", "days", "limit", "requiredEvidence",
    "outputKeys", "dependsOnTaskIds", "sqlStrategy", "sql"]

  /** _ENTITY_REFERENCE_CONTRACT_FIELDS */
  const REFERENCE_FIELDS: seq<string> := [
    "semanticRefId", "field", "table", "rawValue", "values", "valueType", "comparisonPolicy",
    "candidateRefIds", "status", "placeholder", "timeScopeExplicit", "lookupTimePolicy"]

  /** _TIME_RANGE_CONTRACT_FIELDS */
  const TIME_RANGE_FIELDS: seq<string> := [
    "kind", "startDate", "endDate", "days", "timezone", "calendarAnchorPolicy", "dataAsOfPolicy", "explicit",
    "windowRole", "offsetDays", "comparisonType", "executionStartDate", "executionEndDate",
    "executionStartValue", "executionEndValue", "executionBoundaryPolicy"]

  const KNOWLEDGE_REF_FIELDS: seq<string> := ["refId", "refType", "table", "column", "relationshipId"]

  const ENTITY_OBLIGATION_FIELDS: seq<string> := ["obligationId", "taskId", "required", "status"]

  /** _UNDERSTANDING_CONTRACT_FIELDS: canonical names with their aliases, in order of preference. */
  const UNDERSTANDING_FIELDS: map<string, seq<string>> := map[
    "analysisGrain" := ["analysisGrain", "analysis_grain"],
    "analysisIntent" := ["analysisIntent", "analysis_intent"],
    "requiresExplanation" := ["requiresExplanation", "requires_explanation"],
    "requiredEvidenceIntents" := ["requiredEvidenceIntents", "required_evidence_intents"],
    "anchorMetric" := ["anchorMetric", "anchor_metric"],
    "rankingObjective" := ["rankingObjective", "ranking_objective"],
    "supportMetrics" := ["supportMetrics", "support_metrics"],
    "requestedMeasures" := ["requestedMeasures", "requested_measures"],
    "metricCandidateDecisions" := ["metricCandidateDecisions", "metric_candidate_decisions"],
    "metricPhrases" := ["metricPhrases", "metric_phrases"],
    "originalMetricPhrases" := ["originalMetricPhrases", "original_metric_phrases"],
    "metricObligations" := ["metricObligations", "metric_obligations"],
    "calculationIntents" := ["calculationIntents", "calculation_intents"],
    "scopeConstraints" := ["scopeConstraints", "scope_constraints"], "filters" := ["filters", "filter"],
    "timeWindowDays" := ["timeWindowDays", "time_window_days"], "timeRange" := ["timeRange", "time_range"],
    "timeWindowContract" := ["timeWindowContract", "time_window_contract"],
    "selectedMetrics" := ["selectedMetrics", "selected_metrics"],
    "selectedRefs" := ["selectedRefs", "selected_refs", "semanticSelectionRefs"],
    "diagnosticDriverContracts" := ["diagnosticDriverContracts", "diagnostic_driver_contracts"],
    "allowDegradedHypothesisExploration" := ["allowDegradedHypothesisExploration", "allow_degraded_hypothesis_exploration"],
    "suppressDefaultTrendContext" := ["suppressDefaultTrendContext", "suppress_default_trend_context"],
    "skillWorkflow" := ["skillWorkflow", "skill_workflow"],
    "planningContract" := ["planningContract", "planning_contract"],
    "queryContract" := ["queryContract", "query_contract"],
    "semanticQuery" := ["semanticQuery", "semantic_query"],
    "sourceConditionLedger" := ["sourceConditionLedger", "source_condition_ledger"]]

  /** The names that are let through, at each level of a plan. */
  datatype AllowLists = AllowLists(
    intents: seq<string>, references: seq<string>, timeRanges: seq<string>, knowledgeRefs: seq<string>,
    entityObligations: seq<string>, resolutions: map<string, seq<string>>, understanding: map<string, seq<string>>)

  const ALLOWED := AllowLists(
    INTENT_FIELDS, REFERENCE_FIELDS, TIME_RANGE_FIELDS, KNOWLEDGE_REF_FIELDS,
    ENTITY_OBLIGATION_FIELDS, RESOLUTION_FIELDS, UNDERSTANDING_FIELDS)

  // ----- the contract

  ghost function Each(f: Value -> Value, items: seq<Value>): seq<Value> {
    seq(|items|, i requires 0 <= i < |items| => f(items[i]))
  }

  ghost function Plain(v: Value, fields: seq<string>): map<string, Value> { map name | name in fields :: Get(v, name) }

  /** The listed entries of a dictionary as they are, and the parts. */
  ghost function Composed(v: Value, fields: seq<string>, parts: map<string, Value>): Value { Dict(Plain(v, fields) + parts) }

  ghost function KnowledgeRefs(names: seq<string>, v: Value): Value {
    Array(Each(ref => ProjectFields(ref, names), Dicts(ItemsOf(v))))
  }

  function IntentParts(reference: Value, range: Value, resolution: Value, query: Value, refs: Value): map<string, Value> {
    map["entityReference" := reference, "timeRange" := range, "metricResolution" := resolution,
        "semanticQuery" := query, "knowledgeRefs" := refs]
  }

  /** _project_executable_intent */
  ghost function IntentContract(lists: AllowLists, intent: Value): Value {
    Composed(intent, lists.intents, IntentParts(
      ProjectFields(Get(intent, "entityReference"), lists.references),
      ProjectFields(Get(intent, "timeRange"), lists.timeRanges),
      ResolutionContract(lists.resolutions, Get(intent, "metricResolution")),
      QueryContractOf(Get(intent, "semanticQuery")),
      KnowledgeRefs(lists.knowledgeRefs, Get(intent, "knowledgeRefs"))))
  }

  function ObligationParts(reference: Value): map<string, Value> { map["reference" := reference] }

  /** _project_entity_filter_obligation */
  ghost function EntityObligationContract(lists: AllowLists, obligation: Value): Value {
    Composed(obligation, lists.entityObligations, ObligationParts(ProjectFields(Get(obligation, "reference"), lists.references)))
  }

  function Mapped(f: Value -> Value, found: Option<Value>): Option<Value> {
    if found.None? then None else Some(f(found.value))
  }

  /** What is found under the first alias; the query and the condition ledger are projected in their turn. */
  function UnderstandingEntry(table: map<string, seq<string>>, understanding: Value, name: string): Option<Value> {
    if name !in table then None
    else
      var found := FirstAlias(understanding, table[name]);
      if name == "semanticQuery" then Mapped(QueryContractOf, found)
      else if name == "sourceConditionLedger" then Mapped(LedgerContractOf, found)
      else found
  }

  ghost function UnderstandingContract(table: map<string, seq<string>>, understanding: Value): Value {
    PartialProjection(table.Keys, name => UnderstandingEntry(table, understanding, name))
  }

  /** The contract dictionary, its keys in order. */
  function ContractOf(dependencies: Value, entityObligations: Value, evidence: Value, hints: Value,
                      required: Value, intents: Value, understanding: Value, obligations: Value): Value
  {
    Object([
      Field("dependencies", dependencies), Field("entityFilterObligations", entityObligations),
      Field("evidenceContracts", evidence), Field("finalEvidenceColumnHints", hints),
      Field("finalRequiredEvidence", required), Field("intents", intents),
      Field("questionUnderstanding", understanding), Field("semanticFilterObligations", obligations)])
  }

  /** query_graph_executable_contract */
  ghost function Contract(lists: AllowLists, dump: Value): Value {
    ContractOf(
      Or(Get(dump, "dependencies"), Array([])),
      Array(Each(v => EntityObligationContract(lists, v), ItemsOf(Get(dump, "entityFilterObligations")))),
      Or(Get(dump, "evidenceContracts"), Array([])),
      Or(Get(dump, "finalEvidenceColumnHints"), Object([])),
      Or(Get(dump, "finalRequiredEvidence"), Array([])),
      Array(Each(v => IntentContract(lists, v), ItemsOf(Get(dump, "intents")))),
      UnderstandingContract(lists.understanding, Get(dump, "questionUnderstanding")),
      Array(ObligationContract(ItemsOf(Get(dump, "semanticFilterObligations")))))
  }

  /** The dump without some of its fields. */
  function Without(fields: seq<Field>, excluded: seq<string>): seq<Field> {
    if fields == [] then []
    else (if fields[0].name in excluded then [] else [fields[0]]) + Without(fields[1..], excluded)
  }

  /** The text hashed by query_graph_fingerprint; a plan is dumped as a dictionary. */
  function FullText(dump: seq<Field>): string { Encode(Object(Without(dump, NON_EXECUTION_FIELDS))) }

  /** The text hashed by query_graph_structure_fingerprint. */
  ghost function StructureText(dump: Value): string { Encode(Contract(ALLOWED, dump)) }

  // ----- when two plans agree

  ghost predicate Pairwise(same: (Value, Value) -> bool, a: seq<Value>, b: seq<Value>) {
    |a| == |b| && forall i :: 0 <= i < |a| ==> same(a[i], b[i])
  }

  ghost predicate SameKnowledgeRefs(names: seq<string>, a: Value, b: Value) {
    Pairwise((v, w) => AgreeOn(v, w, names), Dicts(ItemsOf(a)), Dicts(ItemsOf(b)))
  }

  /** Intents agree on the listed entries and in these parts, whatever else they hold; their queries are
      compared by `query`. */
  ghost predicate IntentsAgree(lists: AllowLists, query: (Value, Value) -> bool, a: Value, b: Value) {
    && AgreeOn(a, b, lists.intents)
    && AgreeOn(Get(a, "entityReference"), Get(b, "entityReference"), lists.references)
    && AgreeOn(Get(a, "timeRange"), Get(b, "timeRange"), lists.timeRanges)
    && SameResolution(lists.resolutions, Get(a, "metricResolution"), Get(b, "metricResolution"))
    && query(Get(a, "semanticQuery"), Get(b, "semanticQuery"))
    && SameKnowledgeRefs(lists.knowledgeRefs, Get(a, "knowledgeRefs"), Get(b, "knowledgeRefs"))
  }

  /** The lists have the same length and agree intent by intent. */
  ghost predicate IntentListsAgree(lists: AllowLists, query: (Value, Value) -> bool, a: seq<Value>, b: seq<Value>) {
    Pairwise((v, w) => IntentsAgree(lists, query, v, w), a, b)
  }

  ghost predicate ObligationsAgree(lists: AllowLists, a: Value, b: Value) {
    && AgreeOn(a, b, lists.entityObligations)
    && AgreeOn(Get(a, "reference"), Get(b, "reference"), lists.references)
  }

  /** What is found under the first alias that is there compares equal, or nothing is there. */
  ghost predicate FoundAgree(same: (Value, Value) -> bool, aliases: seq<string>, a: Value, b: Value) {
    var x, y := FirstAlias(a, aliases), FirstAlias(b, aliases);
    (x.None? && y.None?) || (x.Some? && y.Some? && same(x.value, y.value))
  }

  /** Understandings agree on what is found under each name of the table, whatever else they hold; their
      queries are compared by `query`, their condition ledgers by `ledger`. */
  ghost predicate UnderstandingsAgree(table: map<string, seq<string>>, query: (Value, Value) -> bool, ledger: (Value, Value) -> bool, a: Value, b: Value) {
    forall name :: name in table ==>
      if name == "semanticQuery" then FoundAgree(query, table[name], a, b)
      else if name == "sourceConditionLedger" then FoundAgree(ledger, table[name], a, b)
      else FirstAlias(a, table[name]) == FirstAlias(b, table[name])
  }

  /** Plan dumps agree in these six entries, with the semantic filter obligations as an unordered collection. */
  ghost predicate EntriesAgree(lists: AllowLists, a: Value, b: Value) {
    && Or(Get(a, "dependencies"), Array([])) == Or(Get(b, "dependencies"), Array([]))
    && Or(Get(a, "evidenceContracts"), Array([])) == Or(Get(b, "evidenceContracts"), Array([]))
    && Or(Get(a, "finalRequiredEvidence"), Array([])) == Or(Get(b, "finalRequiredEvidence"), Array([]))
    && Or(Get(a, "finalEvidenceColumnHints"), Object([])) == Or(Get(b, "finalEvidenceColumnHints"), Object([]))
    && Pairwise((v, w) => ObligationsAgree(lists, v, w), ItemsOf(Get(a, "entityFilterObligations")), ItemsOf(Get(b, "entityFilterObligations")))
    && SameDemands(ItemsOf(Get(a, "semanticFilterObligations")), ItemsOf(Get(b, "semanticFilterObligations")))
  }

  /** ... and in their intents and their question understanding: nothing of this refers to the projections. It
      compares what each dump holds. */
  ghost predicate PlansAgree(lists: AllowLists, query: (Value, Value) -> bool, ledger: (Value, Value) -> bool, a: Value, b: Value) {
    && EntriesAgree(lists, a, b)
    && IntentListsAgree(lists, query, ItemsOf(Get(a, "intents")), ItemsOf(Get(b, "intents")))
    && UnderstandingsAgree(lists.understanding, query, ledger, Get(a, "questionUnderstanding"), Get(b, "questionUnderstanding"))
  }

  /** The plans agree in what these names name: in intents, entity references, time ranges, knowledge
      references, entity filter obligations, metric resolutions and the question understanding, in this order. */
  ghost predicate AgreeOnStructure(query: (Value, Value) -> bool, ledger: (Value, Value) -> bool, a: Value, b: Value) {
    PlansAgree(AllowLists(
      [
        "intentType", "category", "answerMode", "planTaskId", "taskRole", "preferredTable", "metricColumn", "metricName",
        "metricFormula", "metricSpecs", "groupByColumn", "filterColumn", "filterValue", "days", "limit", "requiredEvidence",
        "outputKeys", "dependsOnTaskIds", "sqlStrategy", "sql"],
      [
        "semanticRefId", "field", "table", "rawValue", "values", "valueType", "comparisonPolicy",
        "candidateRefIds", "status", "placeholder", "timeScopeExplicit", "lookupTimePolicy"],
      [
        "kind", "startDate", "endDate", "days", "timezone", "calendarAnchorPolicy", "dataAsOfPolicy", "explicit",
        "windowRole", "offsetDays", "comparisonType", "executionStartDate", "executionEndDate",
        "executionStartValue", "executionEndValue", "executionBoundaryPolicy"],
      ["refId", "refType", "table", "column", "relationshipId"],
      ["obligationId", "taskId", "required", "status"],
      map[
        "requestedMetricRef" := ["requestedMetricRef", "requested_metric_ref"],
        "metricKey" := ["metricKey", "metric_key"], "ownerTable" := ["ownerTable", "owner_table"],
        "formula" := ["formula"], "originalFormula" := ["originalFormula", "original_formula"],
        "sourceColumns" := ["sourceColumns", "source_columns"],
        "droppedSourceColumns" := ["droppedSourceColumns", "dropped_source_columns"],
        "sourceMetricRefs" := ["sourceMetricRefs", "source_metric_refs"], "unit" := ["unit"],
        "metricGrain" := ["metricGrain", "metric_grain"], "metricIntent" := ["metricIntent", "metric_intent"],
        "timeColumn" := ["timeColumn", "time_column"],
        "aggregationPolicy" := ["aggregationPolicy", "aggregation_policy"],
        "applicableTimeGrain" := ["applicableTimeGrain", "applicable_time_grain"],
        "timeSemantics" := ["timeSemantics", "time_semantics"],
        "missingValuePolicy" := ["missingValuePolicy", "missing_value_policy"],
        "zeroValueMeaning" := ["zeroValueMeaning", "zero_value_meaning"],
        "semanticRefId" := ["semanticRefId", "semantic_ref_id"],
        "semanticContract" := ["semanticContract", "semantic_contract"],
        "semanticContractHash" := ["semanticContractHash", "semantic_contract_hash"],
        "metricGovernanceMode" := ["metricGovernanceMode", "metric_governance_mode"],
        "assetRefId" := ["assetRefId", "asset_ref_id"],
        "contractProvenance" := ["contractProvenance", "contract_provenance"],
        "groupByColumn" := ["groupByColumn", "group_by_column"],
        "computeStrategy" := ["computeStrategy", "compute_strategy"],
        "derivedMetric" := ["derivedMetric", "derived_metric"],
        "componentMetricKeys" := ["componentMetricKeys", "component_metric_keys"],
        "sourceMetricTaskId" := ["sourceMetricTaskId", "source_metric_task_id"],
        "bridgeTaskId" := ["bridgeTaskId", "bridge_task_id"],
        "projectionDimensions" := ["projectionDimensions", "projection_dimensions"],
        "supportOnly" := ["supportOnly", "support_only"], "internalOnly" := ["internalOnly", "internal_only"],
        "localCompilationPolicy" := ["localCompilationPolicy", "local_compilation_policy"],
        "timeWindowRole" := ["timeWindowRole", "time_window_role"],
        "timeWindowGrain" := ["timeWindowGrain", "time_window_grain"],
        "timeWindowContract" := ["timeWindowContract", "time_window_contract"],
        "entityColumns" := ["entityColumns", "entity_columns"],
        "filterConditions" := ["filterConditions", "filter_conditions"],
        "dependencyFields" := ["dependencyFields", "dependency_fields"], "confidence" := ["confidence"],
        "resolutionSource" := ["resolutionSource", "resolution_source"],
        "fieldWarning" := ["fieldWarning", "field_warning"]],
      map[
        "analysisGrain" := ["analysisGrain", "analysis_grain"],
        "analysisIntent" := ["analysisIntent", "analysis_intent"],
        "requiresExplanation" := ["requiresExplanation", "requires_explanation"],
        "requiredEvidenceIntents" := ["requiredEvidenceIntents", "required_evidence_intents"],
        "anchorMetric" := ["anchorMetric", "anchor_metric"],
        "rankingObjective" := ["rankingObjective", "ranking_objective"],
        "supportMetrics" := ["supportMetrics", "support_metrics"],
        "requestedMeasures" := ["requestedMeasures", "requested_measures"],
        "metricCandidateDecisions" := ["metricCandidateDecisions", "metric_candidate_decisions"],
        "metricPhrases" := ["metricPhrases", "metric_phrases"],
        "originalMetricPhrases" := ["originalMetricPhrases", "original_metric_phrases"],
        "metricObligations" := ["metricObligations", "metric_obligations"],
        "calculationIntents" := ["calculationIntents", "calculation_intents"],
        "scopeConstraints" := ["scopeConstraints", "scope_constraints"], "filters" := ["filters", "filter"],
        "timeWindowDays" := ["timeWindowDays", "time_window_days"], "timeRange" := ["timeRange", "time_range"],
        "timeWindowContract" := ["timeWindowContract", "time_window_contract"],
        "selectedMetrics" := ["selectedMetrics", "selected_metrics"],
        "selectedRefs" := ["selectedRefs", "selected_refs", "semanticSelectionRefs"],
        "diagnosticDriverContracts" := ["diagnosticDriverContracts", "diagnostic_driver_contracts"],
        "allowDegradedHypothesisExploration" := ["allowDegradedHypothesisExploration", "allow_degraded_hypothesis_exploration"],
        "suppressDefaultTrendContext" := ["suppressDefaultTrendContext", "suppress_default_trend_context"],
        "skillWorkflow" := ["skillWorkflow", "skill_workflow"],
        "planningContract" := ["planningContract", "planning_contract"],
        "queryContract" := ["queryContract", "query_contract"],
        "semanticQuery" := ["semanticQuery", "semantic_query"],
        "sourceConditionLedger" := ["sourceConditionLedger", "source_condition_ledger"]]), query, ledger, a, b)
  }

  /** The plans have the same structure: filters are compared up to equivalence. */
  ghost predicate SameStructure(a: Value, b: Value) { AgreeOnStructure(SameQuery, SameLedger, a, b) }

  // ----- the contract compares exactly that

  lemma EachIsExact(f: Value -> Value, same: (Value, Value) -> bool, a: seq<Value>, b: seq<Value>)
    requires forall v, w :: f(v) == f(w) <==> same(v, w)
    ensures Each(f, a) == Each(f, b) <==> Pairwise(same, a, b)
  {
    if Each(f, a) == Each(f, b) {
      assert |a| == |Each(f, a)| == |b|;
      forall i | 0 <= i < |a| ensures same(a[i], b[i]) { assert Each(f, a)[i] == Each(f, b)[i]; }
    }
  }

  lemma PlainIsExact(v: Value, w: Value, fields: seq<string>)
    ensures Plain(v, fields) == Plain(w, fields) <==> AgreeOn(v, w, fields)
    ensures forall name :: name in Plain(v, fields) <==> name in fields
  {
    if Plain(v, fields) == Plain(w, fields) {
      forall name | name in fields ensures Get(v, name) == Get(w, name) { assert Plain(v, fields)[name] == Plain(w, fields)[name]; }
    }
  }

  lemma SumsAreExact(m: map<string, Value>, p: map<string, Value>, n: map<string, Value>, q: map<string, Value>)
    requires m.Keys == n.Keys && p.Keys == q.Keys && m.Keys !! p.Keys
    ensures m + p == n + q <==> m == n && p == q
  {
    if m + p == n + q {
      forall name | name in m ensures m[name] == n[name] { assert (m + p)[name] == (n + q)[name]; }
      forall name | name in p ensures p[name] == q[name] { assert (m + p)[name] == (n + q)[name]; }
    }
  }

  lemma ComposedIsExact(v: Value, w: Value, fields: seq<string>, p: map<string, Value>, q: map<string, Value>)
    requires p.Keys == q.Keys && forall name :: name in p ==> name !in fields
    ensures Composed(v, fields, p) == Composed(w, fields, q) <==> AgreeOn(v, w, fields) && p == q
  {
    PlainIsExact(v, w, fields);
    PlainIsExact(w, v, fields);
    SumsAreExact(Plain(v, fields), p, Plain(w, fields), q);
    DictIsInjective(Plain(v, fields) + p, Plain(w, fields) + q);
  }

  lemma KnowledgeRefsAreExact(names: seq<string>, a: Value, b: Value)
    ensures KnowledgeRefs(names, a) == KnowledgeRefs(names, b) <==> SameKnowledgeRefs(names, a, b)
  {
    forall v, w ensures ProjectFields(v, names) == ProjectFields(w, names) <==> AgreeOn(v, w, names) { ProjectFieldsIsExact(v, w, names); }
    EachIsExact(ref => ProjectFields(ref, names), (v, w) => AgreeOn(v, w, names), Dicts(ItemsOf(a)), Dicts(ItemsOf(b)));
  }

  lemma IntentPartsAreExact(a: Value, b: Value, c: Value, d: Value, e: Value, a': Value, b': Value, c': Value, d': Value, e': Value)
    ensures IntentParts(a, b, c, d, e) == IntentParts(a', b', c', d', e') <==> a == a' && b == b' && c == c' && d == d' && e == e'
    ensures IntentParts(a, b, c, d, e).Keys == {"entityReference", "timeRange", "metricResolution", "semanticQuery", "knowledgeRefs"}
  {
    var m, n := IntentParts(a, b, c, d, e), IntentParts(a', b', c', d', e');
    assert m["entityReference"] == a && m["timeRange"] == b && m["metricResolution"] == c && m["semanticQuery"] == d && m["knowledgeRefs"] == e;
    assert n["entityReference"] == a' && n["timeRange"] == b' && n["metricResolution"] == c' && n["semanticQuery"] == d' && n["knowledgeRefs"] == e';
  }

  /** No listed entry bears the name of a part that is projected apart. */
  ghost predicate PartsStandApart(lists: AllowLists) {
    && (forall name :: name in {"entityReference", "timeRange", "metricResolution", "semanticQuery", "knowledgeRefs"} ==> name !in lists.intents)
    && "reference" !in lists.entityObligations
    && "componentMetrics" !in lists.resolutions
  }

  lemma IntentIsExact(lists: AllowLists, a: Value, b: Value)
    requires PartsStandApart(lists)
    ensures IntentContract(lists, a) == IntentContract(lists, b) <==> IntentsAgree(lists, SameQuery, a, b)
  {
    ProjectFieldsIsExact(Get(a, "entityReference"), Get(b, "entityReference"), lists.references);
    ProjectFieldsIsExact(Get(a, "timeRange"), Get(b, "timeRange"), lists.timeRanges);
    ResolutionContractIsExact(lists.resolutions, Get(a, "metricResolution"), Get(b, "metricResolution"));
    QueryContractIsExact(Get(a, "semanticQuery"), Get(b, "semanticQuery"));
    KnowledgeRefsAreExact(lists.knowledgeRefs, Get(a, "knowledgeRefs"), Get(b, "knowledgeRefs"));
    IntentIsItsParts(lists, a, b);
  }

  lemma IntentIsItsParts(lists: AllowLists, a: Value, b: Value)
    requires PartsStandApart(lists)
    ensures IntentContract(lists, a) == IntentContract(lists, b) <==>
            && AgreeOn(a, b, lists.intents)
            && ProjectFields(Get(a, "entityReference"), lists.references) == ProjectFields(Get(b, "entityReference"), lists.references)
            && ProjectFields(Get(a, "timeRange"), lists.timeRanges) == ProjectFields(Get(b, "timeRange"), lists.timeRanges)
            && ResolutionContract(lists.resolutions, Get(a, "metricResolution")) == ResolutionContract(lists.resolutions, Get(b, "metricResolution"))
            && QueryContractOf(Get(a, "semanticQuery")) == QueryContractOf(Get(b, "semanticQuery"))
            && KnowledgeRefs(lists.knowledgeRefs, Get(a, "knowledgeRefs")) == KnowledgeRefs(lists.knowledgeRefs, Get(b, "knowledgeRefs"))
  {
    PartsOfIntents(
      lists, a, b,
      ProjectFields(Get(a, "entityReference"), lists.references), ProjectFields(Get(a, "timeRange"), lists.timeRanges),
      ResolutionContract(lists.resolutions, Get(a, "metricResolution")), QueryContractOf(Get(a, "semanticQuery")),
      KnowledgeRefs(lists.knowledgeRefs, Get(a, "knowledgeRefs")),
      ProjectFields(Get(b, "entityReference"), lists.references), ProjectFields(Get(b, "timeRange"), lists.timeRanges),
      ResolutionContract(lists.resolutions, Get(b, "metricResolution")), QueryContractOf(Get(b, "semanticQuery")),
      KnowledgeRefs(lists.knowledgeRefs, Get(b, "knowledgeRefs")));
  }

  lemma PartsOfIntents(lists: AllowLists, a: Value, b: Value, r: Value, t: Value, m: Value, q: Value, k: Value,
                       r': Value, t': Value, m': Value, q': Value, k': Value)
    requires PartsStandApart(lists)
    ensures Composed(a, lists.intents, IntentParts(r, t, m, q, k)) == Composed(b, lists.intents, IntentParts(r', t', m', q', k'))
       <==> AgreeOn(a, b, lists.intents) && r == r' && t == t' && m == m' && q == q' && k == k'
  {
    IntentPartsAreExact(r, t, m, q, k, r', t', m', q', k');
    IntentPartsAreExact(r', t', m', q', k', r, t, m, q, k);
    ComposedIsExact(a, b, lists.intents, IntentParts(r, t, m, q, k), IntentParts(r', t', m', q', k'));
  }

  lemma EntityObligationIsExact(lists: AllowLists, a: Value, b: Value)
    requires PartsStandApart(lists)
    ensures EntityObligationContract(lists, a) == EntityObligationContract(lists, b) <==> ObligationsAgree(lists, a, b)
  {
    ProjectFieldsIsExact(Get(a, "reference"), Get(b, "reference"), lists.references);
    var p := ObligationParts(ProjectFields(Get(a, "reference"), lists.references));
    var q := ObligationParts(ProjectFields(Get(b, "reference"), lists.references));
    assert p == q <==> p["reference"] == q["reference"];
    ComposedIsExact(a, b, lists.entityObligations, p, q);
  }

  lemma FoundIsExactBy(f: Value -> Value, same: (Value, Value) -> bool, aliases: seq<string>, a: Value, b: Value)
    requires forall v, w :: f(v) == f(w) <==> same(v, w)
    ensures Mapped(f, FirstAlias(a, aliases)) == Mapped(f, FirstAlias(b, aliases)) <==> FoundAgree(same, aliases, a, b)
  {
  }

  lemma FoundIsExact(table: map<string, seq<string>>, a: Value, b: Value, name: string)
    requires name in table
    ensures UnderstandingEntry(table, a, name) == UnderstandingEntry(table, b, name) <==>
            if name == "semanticQuery" then FoundAgree(SameQuery, table[name], a, b)
            else if name == "sourceConditionLedger" then FoundAgree(SameLedger, table[name], a, b)
            else FirstAlias(a, table[name]) == FirstAlias(b, table[name])
  {
    if name == "semanticQuery" {
      forall v, w ensures QueryContractOf(v) == QueryContractOf(w) <==> SameQuery(v, w) { QueryContractIsExact(v, w); }
      FoundIsExactBy(QueryContractOf, SameQuery, table[name], a, b);
    } else if name == "sourceConditionLedger" {
      forall v, w ensures LedgerContractOf(v) == LedgerContractOf(w) <==> SameLedger(v, w) { LedgerContractIsExact(v, w); }
      FoundIsExactBy(LedgerContractOf, SameLedger, table[name], a, b);
    }
  }

  lemma UnderstandingIsExact(table: map<string, seq<string>>, a: Value, b: Value)
    ensures UnderstandingContract(table, a) == UnderstandingContract(table, b) <==> UnderstandingsAgree(table, SameQuery, SameLedger, a, b)
  {
    PartialProjectionIsExact(table.Keys, name => UnderstandingEntry(table, a, name), name => UnderstandingEntry(table, b, name));
    forall name | name in table
      ensures UnderstandingEntry(table, a, name) == UnderstandingEntry(table, b, name) <==>
              if name == "semanticQuery" then FoundAgree(SameQuery, table[name], a, b)
              else if name == "sourceConditionLedger" then FoundAgree(SameLedger, table[name], a, b)
              else FirstAlias(a, table[name]) == FirstAlias(b, table[name])
    {
      FoundIsExact(table, a, b, name);
    }
  }

  lemma IntentsAreExact(lists: AllowLists, a: seq<Value>, b: seq<Value>)
    requires PartsStandApart(lists)
    ensures Each(v => IntentContract(lists, v), a) == Each(v => IntentContract(lists, v), b)
       <==> IntentListsAgree(lists, SameQuery, a, b)
  {
    forall v, w ensures IntentContract(lists, v) == IntentContract(lists, w) <==> IntentsAgree(lists, SameQuery, v, w) {
      IntentIsExact(lists, v, w);
    }
    EachIsExact(v => IntentContract(lists, v), (v, w) => IntentsAgree(lists, SameQuery, v, w), a, b);
  }

  lemma EntityObligationsAreExact(lists: AllowLists, a: seq<Value>, b: seq<Value>)
    requires PartsStandApart(lists)
    ensures Each(v => EntityObligationContract(lists, v), a) == Each(v => EntityObligationContract(lists, v), b)
       <==> Pairwise((v, w) => ObligationsAgree(lists, v, w), a, b)
  {
    forall v, w ensures EntityObligationContract(lists, v) == EntityObligationContract(lists, w) <==> ObligationsAgree(lists, v, w) {
      EntityObligationIsExact(lists, v, w);
    }
    EachIsExact(v => EntityObligationContract(lists, v), (v, w) => ObligationsAgree(lists, v, w), a, b);
  }

  lemma ContractOfIsInjective(a: Value, b: Value, c: Value, d: Value, e: Value, f: Value, g: Value, h: Value,
                              a': Value, b': Value, c': Value, d': Value, e': Value, f': Value, g': Value, h': Value)
    ensures ContractOf(a, b, c, d, e, f, g, h) == ContractOf(a', b', c', d', e', f', g', h')
       <==> a == a' && b == b' && c == c' && d == d' && e == e' && f == f' && g == g' && h == h'
  {
    var x, y := ContractOf(a, b, c, d, e, f, g, h).fields, ContractOf(a', b', c', d', e', f', g', h').fields;
    if x == y {
      assert x[0] == y[0] && x[1] == y[1] && x[2] == y[2] && x[3] == y[3];
      assert x[4] == y[4] && x[5] == y[5] && x[6] == y[6] && x[7] == y[7];
    }
  }

  /** Whatever the allow-lists are, the contract identifies exactly the plans that agree on them. */
  lemma ContractIsExact(lists: AllowLists, a: Value, b: Value)
    requires PartsStandApart(lists)
    ensures Contract(lists, a) == Contract(lists, b) <==> PlansAgree(lists, SameQuery, SameLedger, a, b)
  {
    IntentsAreExact(lists, ItemsOf(Get(a, "intents")), ItemsOf(Get(b, "intents")));
    EntityObligationsAreExact(lists, ItemsOf(Get(a, "entityFilterObligations")), ItemsOf(Get(b, "entityFilterObligations")));
    UnderstandingIsExact(lists.understanding, Get(a, "questionUnderstanding"), Get(b, "questionUnderstanding"));
    ObligationContractIsExact(ItemsOf(Get(a, "semanticFilterObligations")), ItemsOf(Get(b, "semanticFilterObligations")));
    ContractOfIsInjective(
      Or(Get(a, "dependencies"), Array([])),
      Array(Each(v => EntityObligationContract(lists, v), ItemsOf(Get(a, "entityFilterObligations")))),
      Or(Get(a, "evidenceContracts"), Array([])),
      Or(Get(a, "finalEvidenceColumnHints"), Object([])),
      Or(Get(a, "finalRequiredEvidence"), Array([])),
      Array(Each(v => IntentContract(lists, v), ItemsOf(Get(a, "intents")))),
      UnderstandingContract(lists.understanding, Get(a, "questionUnderstanding")),
      Array(ObligationContract(ItemsOf(Get(a, "semanticFilterObligations")))),
      Or(Get(b, "dependencies"), Array([])),
      Array(Each(v => EntityObligationContract(lists, v), ItemsOf(Get(b, "entityFilterObligations")))),
      Or(Get(b, "evidenceContracts"), Array([])),
      Or(Get(b, "finalEvidenceColumnHints"), Object([])),
      Or(Get(b, "finalRequiredEvidence"), Array([])),
      Array(Each(v => IntentContract(lists, v), ItemsOf(Get(b, "intents")))),
      UnderstandingContract(lists.understanding, Get(b, "questionUnderstanding")),
      Array(ObligationContract(ItemsOf(Get(b, "semanticFilterObligations")))));
  }

  lemma TextsAreValues(x: Value, y: Value)
    ensures Encode(x) == Encode(y) <==> x == y
  {
    EncodeIsInjective();
  }

  lemma FieldsStandApart()
    ensures PartsStandApart(ALLOWED)
  {
    ReferenceStandsApart();
    TimeRangeStandsApart();
    ResolutionStandsApart();
    QueryStandsApart();
    KnowledgeStandsApart();
    ComponentsStandApart();
    AllStandApart(ALLOWED);
  }

  lemma AllStandApart(lists: AllowLists)
    requires "entityReference" !in lists.intents && "timeRange" !in lists.intents && "metricResolution" !in lists.intents
    requires "semanticQuery" !in lists.intents && "knowledgeRefs" !in lists.intents
    requires "reference" !in lists.entityObligations && "componentMetrics" !in lists.resolutions
    ensures PartsStandApart(lists)
  {
  }

  lemma ReferenceStandsApart()
    ensures "entityReference" !in INTENT_FIELDS && "reference" !in ENTITY_OBLIGATION_FIELDS
  {
  }

  lemma TimeRangeStandsApart()
    ensures "timeRange" !in INTENT_FIELDS
  {
  }

  lemma ResolutionStandsApart()
    ensures "metricResolution" !in INTENT_FIELDS
  {
  }

  lemma QueryStandsApart()
    ensures "semanticQuery" !in INTENT_FIELDS
  {
  }

  lemma KnowledgeStandsApart()
    ensures "knowledgeRefs" !in INTENT_FIELDS
  {
  }

  lemma ComponentsStandApart()
    ensures "componentMetrics" !in RESOLUTION_FIELDS
  {
  }

  /** The structure fingerprint text of two plans is the same exactly when they have the same structure. */
  lemma StructureIsExact(a: Value, b: Value)
    ensures StructureText(a) == StructureText(b) <==> SameStructure(a, b)
  {
    TextIsExact(a, b);
  }

  lemma TextIsExact(a: Value, b: Value)
    ensures StructureText(a) == StructureText(b) <==> PlansAgree(ALLOWED, SameQuery, SameLedger, a, b)
  {
    FieldsStandApart();
    TextIsExactFor(ALLOWED, a, b);
  }

  lemma TextIsExactFor(lists: AllowLists, a: Value, b: Value)
    requires PartsStandApart(lists)
    ensures Encode(Contract(lists, a)) == Encode(Contract(lists, b)) <==> PlansAgree(lists, SameQuery, SameLedger, a, b)
  {
    TextsAreValues(Contract(lists, a), Contract(lists, b));
    ContractIsExact(lists, a, b);
  }

  // ----- one thing changed

  /** The names that the structural contract reads of a plan, besides its intents. */
  const OTHER_FIELDS: seq<string> := [
    "dependencies", "entityFilterObligations", "evidenceContracts", "finalEvidenceColumnHints",
    "finalRequiredEvidence", "questionUnderstanding", "semanticFilterObligations"]

  lemma SelfAgreement(lists: AllowLists, a: Value)
    requires PartsStandApart(lists)
    ensures Pairwise((v, w) => ObligationsAgree(lists, v, w), ItemsOf(Get(a, "entityFilterObligations")), ItemsOf(Get(a, "entityFilterObligations")))
    ensures UnderstandingsAgree(lists.understanding, SameQuery, SameLedger, Get(a, "questionUnderstanding"), Get(a, "questionUnderstanding"))
    ensures SameDemands(ItemsOf(Get(a, "semanticFilterObligations")), ItemsOf(Get(a, "semanticFilterObligations")))
  {
    ContractIsExact(lists, a, a);
  }

  /** Of two plans that differ in nothing but their intents. */
  lemma OnlyIntentsDiffer(lists: AllowLists, a: Value, b: Value)
    requires PartsStandApart(lists)
    requires Get(a, "dependencies") == Get(b, "dependencies") && Get(a, "evidenceContracts") == Get(b, "evidenceContracts")
    requires Get(a, "finalRequiredEvidence") == Get(b, "finalRequiredEvidence")
    requires Get(a, "finalEvidenceColumnHints") == Get(b, "finalEvidenceColumnHints")
    requires Get(a, "entityFilterObligations") == Get(b, "entityFilterObligations")
    requires Get(a, "questionUnderstanding") == Get(b, "questionUnderstanding")
    requires Get(a, "semanticFilterObligations") == Get(b, "semanticFilterObligations")
    ensures PlansAgree(lists, SameQuery, SameLedger, a, b)
       <==> IntentListsAgree(lists, SameQuery, ItemsOf(Get(a, "intents")), ItemsOf(Get(b, "intents")))
  {
    SelfAgreement(lists, a);
  }

  lemma OtherIntents(lists: AllowLists, a: Value, b: Value, xs: seq<Value>, ys: seq<Value>)
    requires PartsStandApart(lists) && AgreeOn(a, b, OTHER_FIELDS)
    requires Get(a, "intents") == Array(xs) && Get(b, "intents") == Array(ys)
    ensures Encode(Contract(lists, a)) == Encode(Contract(lists, b)) <==> IntentListsAgree(lists, SameQuery, xs, ys)
  {
    var f := OTHER_FIELDS;
    assert f[0] in f && f[1] in f && f[2] in f && f[3] in f && f[4] in f && f[5] in f && f[6] in f;
    OnlyIntentsDiffer(lists, a, b);
    TextIsExactFor(lists, a, b);
  }

  ghost predicate SameIntent(a: Value, b: Value) { IntentsAgree(ALLOWED, SameQuery, a, b) }

  lemma IntentsAreNoOther()
    ensures "intents" !in OTHER_FIELDS
  {
  }

  lemma OtherEntriesStay(plan: map<string, Value>, name: string, x: Value, y: Value, fields: seq<string>)
    requires name !in fields
    ensures var a, b := Dict(plan[name := x]), Dict(plan[name := y]); AgreeOn(a, b, fields) && Get(a, name) == x && Get(b, name) == y
  {
    var a, b := plan[name := x], plan[name := y];
    forall n ensures Get(Dict(a), n) == Entry(a, n) && Get(Dict(b), n) == Entry(b, n) {
      GetOfDict(a, n);
      GetOfDict(b, n);
    }
  }

  /** A plan dictionary that lists other intents has another text, unless the lists have the same length
      and agree intent by intent. */
  lemma IntentListCounts(plan: map<string, Value>, xs: seq<Value>, ys: seq<Value>)
    ensures StructureText(Dict(plan["intents" := Array(xs)])) == StructureText(Dict(plan["intents" := Array(ys)]))
       <==> |xs| == |ys| && forall i :: 0 <= i < |xs| ==> SameIntent(xs[i], ys[i])
  {
    IntentsAreNoOther();
    FieldsStandApart();
    OtherEntriesStay(plan, "intents", Array(xs), Array(ys), OTHER_FIELDS);
    OtherIntents(ALLOWED, Dict(plan["intents" := Array(xs)]), Dict(plan["intents" := Array(ys)]), xs, ys);
  }

  lemma ContractByFields(lists: AllowLists, a: Value, b: Value)
    requires PartsStandApart(lists)
    requires Get(a, "entityReference") == Get(b, "entityReference") && Get(a, "timeRange") == Get(b, "timeRange")
    requires Get(a, "metricResolution") == Get(b, "metricResolution") && Get(a, "semanticQuery") == Get(b, "semanticQuery")
    requires Get(a, "knowledgeRefs") == Get(b, "knowledgeRefs")
    ensures IntentContract(lists, a) == IntentContract(lists, b) <==> AgreeOn(a, b, lists.intents)
  {
    IntentIsItsParts(lists, a, b);
  }

  lemma ChangedAt(intent: map<string, Value>, name: string, v: Value, fields: seq<string>)
    ensures var a, b := Dict(intent), Dict(intent[name := v]);
            && (forall n :: n != name ==> Get(a, n) == Get(b, n))
            && (AgreeOn(a, b, fields) <==> Entry(intent, name) == v || name !in fields)
  {
    var other := intent[name := v];
    forall n ensures Get(Dict(intent), n) == Entry(intent, n) && Get(Dict(other), n) == Entry(other, n) {
      GetOfDict(intent, n);
      GetOfDict(other, n);
    }
  }

  lemma PartsStay(a: Value, b: Value, name: string)
    requires name !in {"entityReference", "timeRange", "metricResolution", "semanticQuery", "knowledgeRefs"}
    requires forall n :: n != name ==> Get(a, n) == Get(b, n)
    ensures Get(a, "entityReference") == Get(b, "entityReference") && Get(a, "timeRange") == Get(b, "timeRange")
    ensures Get(a, "metricResolution") == Get(b, "metricResolution") && Get(a, "semanticQuery") == Get(b, "semanticQuery")
    ensures Get(a, "knowledgeRefs") == Get(b, "knowledgeRefs")
  {
  }

  lemma OneFieldChanged(lists: AllowLists, intent: map<string, Value>, name: string, v: Value)
    requires PartsStandApart(lists)
    requires name !in {"entityReference", "timeRange", "metricResolution", "semanticQuery", "knowledgeRefs"}
    ensures IntentsAgree(lists, SameQuery, Dict(intent), Dict(intent[name := v])) <==> Entry(intent, name) == v || name !in lists.intents
  {
    ChangedAt(intent, name, v, lists.intents);
    PartsStay(Dict(intent), Dict(intent[name := v]), name);
    ByFields(lists, Dict(intent), Dict(intent[name := v]));
  }

  lemma ByFields(lists: AllowLists, a: Value, b: Value)
    requires PartsStandApart(lists)
    requires Get(a, "entityReference") == Get(b, "entityReference") && Get(a, "timeRange") == Get(b, "timeRange")
    requires Get(a, "metricResolution") == Get(b, "metricResolution") && Get(a, "semanticQuery") == Get(b, "semanticQuery")
    requires Get(a, "knowledgeRefs") == Get(b, "knowledgeRefs")
    ensures IntentsAgree(lists, SameQuery, a, b) <==> AgreeOn(a, b, lists.intents)
  {
    ContractByFields(lists, a, b);
    IntentIsExact(lists, a, b);
  }

  /** An intent dictionary with another value under one name, outside its five parts, differs from it
      exactly when the name is one of these twenty and the value is not what stood there. */
  lemma OneEntryChanged(intent: map<string, Value>, name: string, v: Value)
    requires name !in {"entityReference", "timeRange", "metricResolution", "semanticQuery", "knowledgeRefs"}
    ensures SameIntent(Dict(intent), Dict(intent[name := v])) <==>
            Entry(intent, name) == v || name !in [
              "intentType", "category", "answerMode", "planTaskId", "taskRole", "preferredTable", "metricColumn", "metricName",
              "metricFormula", "metricSpecs", "groupByColumn", "filterColumn", "filterValue", "days", "limit",
              "requiredEvidence", "outputKeys", "dependsOnTaskIds", "sqlStrategy", "sql"]
  {
    FieldsStandApart();
    OneFieldChanged(ALLOWED, intent, name, v);
  }

  // ----- rewriting a plan

  /** Queries with the same limit and result mode whose filter graph is rewritten any number of times: nodes
      renamed or listed in another order, children of and/or groups rearranged. */
  ghost predicate RewrittenQuery(v: Value, w: Value) {
    && Get(v, "limit") == Get(w, "limit") && Get(v, "resultMode") == Get(w, "resultMode")
    && Rewritten(QueryNodes(v), QueryRoot(v), QueryNodes(w), QueryRoot(w))
  }

  ghost predicate RewrittenLedger(v: Value, w: Value) {
    && Either(v, "auditorStatus", "auditor_status") == Either(w, "auditorStatus", "auditor_status")
    && Either(v, "questionHash", "question_hash") == Either(w, "questionHash", "question_hash")
    && Rewritten(LedgerNodes(v), LedgerRoot(v), LedgerNodes(w), LedgerRoot(w))
  }

  /** The plans differ at most in such rewritings of the filters of their intents, of their question
      understanding and of its condition ledger, in the order of the semantic filter obligations and in how
      their value sets are listed, and in fields off the allow-lists, at every level. */
  ghost predicate RewrittenPlan(a: Value, b: Value) { AgreeOnStructure(RewrittenQuery, RewrittenLedger, a, b) }

  lemma RewritingKeepsQuery(v: Value, w: Value)
    ensures RewrittenQuery(v, w) ==> SameQuery(v, w)
  {
    if RewrittenQuery(v, w) { RewritingsKeepFilter(QueryNodes(v), QueryRoot(v), QueryNodes(w), QueryRoot(w), true); }
  }

  lemma RewritingKeepsLedger(v: Value, w: Value)
    ensures RewrittenLedger(v, w) ==> SameLedger(v, w)
  {
    if RewrittenLedger(v, w) { RewritingsKeepFilter(LedgerNodes(v), LedgerRoot(v), LedgerNodes(w), LedgerRoot(w), false); }
  }

  lemma WiderPairs(same: (Value, Value) -> bool, same': (Value, Value) -> bool, a: seq<Value>, b: seq<Value>)
    requires forall v, w :: same(v, w) ==> same'(v, w)
    ensures Pairwise(same, a, b) ==> Pairwise(same', a, b)
  {
  }

  lemma WiderIntents(lists: AllowLists, query: (Value, Value) -> bool, query': (Value, Value) -> bool, a: seq<Value>, b: seq<Value>)
    requires forall v, w :: query(v, w) ==> query'(v, w)
    ensures IntentListsAgree(lists, query, a, b) ==> IntentListsAgree(lists, query', a, b)
  {
    forall v, w ensures IntentsAgree(lists, query, v, w) ==> IntentsAgree(lists, query', v, w) {}
    WiderPairs((v, w) => IntentsAgree(lists, query, v, w), (v, w) => IntentsAgree(lists, query', v, w), a, b);
  }

  lemma WiderUnderstandings(table: map<string, seq<string>>, query: (Value, Value) -> bool, ledger: (Value, Value) -> bool,
                            query': (Value, Value) -> bool, ledger': (Value, Value) -> bool, a: Value, b: Value)
    requires (forall v, w :: query(v, w) ==> query'(v, w)) && (forall v, w :: ledger(v, w) ==> ledger'(v, w))
    ensures UnderstandingsAgree(table, query, ledger, a, b) ==> UnderstandingsAgree(table, query', ledger', a, b)
  {
  }

  lemma PartByPart(lists: AllowLists, query: (Value, Value) -> bool, ledger: (Value, Value) -> bool,
                   query': (Value, Value) -> bool, ledger': (Value, Value) -> bool, a: Value, b: Value)
    requires PlansAgree(lists, query, ledger, a, b)
    requires IntentListsAgree(lists, query', ItemsOf(Get(a, "intents")), ItemsOf(Get(b, "intents")))
    requires UnderstandingsAgree(lists.understanding, query', ledger', Get(a, "questionUnderstanding"), Get(b, "questionUnderstanding"))
    ensures PlansAgree(lists, query', ledger', a, b)
  {
  }

  lemma WiderComparison(lists: AllowLists, query: (Value, Value) -> bool, ledger: (Value, Value) -> bool,
                        query': (Value, Value) -> bool, ledger': (Value, Value) -> bool, a: Value, b: Value)
    requires (forall v, w :: query(v, w) ==> query'(v, w)) && (forall v, w :: ledger(v, w) ==> ledger'(v, w))
    requires PlansAgree(lists, query, ledger, a, b)
    ensures PlansAgree(lists, query', ledger', a, b)
  {
    WiderIntents(lists, query, query', ItemsOf(Get(a, "intents")), ItemsOf(Get(b, "intents")));
    WiderUnderstandings(lists.understanding, query, ledger, query', ledger', Get(a, "questionUnderstanding"), Get(b, "questionUnderstanding"));
    PartByPart(lists, query, ledger, query', ledger', a, b);
  }

  /** Such a rewriting leaves the structure fingerprint text as it is. */
  lemma RewritingKeepsStructure(a: Value, b: Value)
    requires RewrittenPlan(a, b)
    ensures StructureText(a) == StructureText(b)
  {
    forall v, w ensures RewrittenQuery(v, w) ==> SameQuery(v, w) { RewritingKeepsQuery(v, w); }
    forall v, w ensures RewrittenLedger(v, w) ==> SameLedger(v, w) { RewritingKeepsLedger(v, w); }
    WiderComparison(ALLOWED, RewrittenQuery, RewrittenLedger, SameQuery, SameLedger, a, b);
    TextIsExact(a, b);
  }

  // ----- what an equal structure means

  /** For every row that treats value sets as sets, and whenever both graphs are acyclic, the two queries
      select the row alike. */
  ghost predicate SelectSameRows(v: Value, w: Value) {
    forall row: Row, rankV, rankW :: TreatsMembershipAsSet(row)
      && Ranks(IndexNodes(QueryNodes(v)), rankV) && Ranks(IndexNodes(QueryNodes(w)), rankW)
      ==> (GraphSelects(row, IndexNodes(QueryNodes(v)), rankV, QueryRoot(v), true)
           <==> GraphSelects(row, IndexNodes(QueryNodes(w)), rankW, QueryRoot(w), true))
  }

  lemma SameQueryIsSelectedAlike(v: Value, w: Value)
    requires SameQuery(v, w) && QueryRoot(v) != ""
    ensures SelectSameRows(v, w)
  {
    forall row: Row, rankV, rankW | TreatsMembershipAsSet(row)
      && Ranks(IndexNodes(QueryNodes(v)), rankV) && Ranks(IndexNodes(QueryNodes(w)), rankW)
      ensures GraphSelects(row, IndexNodes(QueryNodes(v)), rankV, QueryRoot(v), true)
         <==> GraphSelects(row, IndexNodes(QueryNodes(w)), rankW, QueryRoot(w), true)
    {
      SameQuerySelectsSameRows(row, v, rankV, w, rankW);
    }
  }

  /** Plans with the same structure fingerprint text have as many intents, the filters of every two of
      them are the same, and over acyclic graphs they select the same rows. */
  lemma SameStructureSelectsSameRows(a: Value, b: Value, i: nat)
    requires StructureText(a) == StructureText(b) && i < |ItemsOf(Get(a, "intents"))|
    ensures |ItemsOf(Get(a, "intents"))| == |ItemsOf(Get(b, "intents"))|
    ensures var v, w := Get(ItemsOf(Get(a, "intents"))[i], "semanticQuery"), Get(ItemsOf(Get(b, "intents"))[i], "semanticQuery");
            SameQuery(v, w) && (QueryRoot(v) != "" ==> SelectSameRows(v, w))
  {
    TextIsExact(a, b);
    var x, y := ItemsOf(Get(a, "intents"))[i], ItemsOf(Get(b, "intents"))[i];
    assert IntentsAgree(ALLOWED, SameQuery, x, y);
    var v, w := Get(x, "semanticQuery"), Get(y, "semanticQuery");
    if QueryRoot(v) != "" { SameQueryIsSelectedAlike(v, w); }
  }

  // ----- the two fingerprints

  lemma {:induction false} FindWithout(fields: seq<Field>, excluded: seq<string>, name: string)
    ensures Find(Without(fields, excluded), name) == if name in excluded then None else Find(fields, name)
  {
    if fields != [] {
      FindWithout(fields[1..], excluded, name);
      var rest := Without(fields[1..], excluded);
      if fields[0].name in excluded {
        assert Without(fields, excluded) == rest;
      } else {
        assert Without(fields, excluded) == [fields[0]] + rest && ([fields[0]] + rest)[1..] == rest;
      }
    }
  }

  /** What is left of a dictionary is written as the dictionary without those names. */
  lemma {:induction false} WithoutIsMinus(m: map<string, Value>, excluded: seq<string>)
    ensures Without(FieldsOf(m), excluded) == FieldsOf(m - (set name | name in excluded))
    decreases |m.Keys|
  {
    var ex := set name | name in excluded;
    if m == map[] {
      assert m - ex == map[];
    } else {
      var k := Least(m.Keys);
      FewerKeys(m, k);
      WithoutIsMinus(m - {k}, excluded);
      assert FieldsOf(m)[0] == Field(k, m[k]) && FieldsOf(m)[1..] == FieldsOf(m - {k});
      if k in excluded {
        assert (m - {k}) - ex == m - ex;
      } else {
        assert (m - {k}) - ex == (m - ex) - {k};
        LeastIsUnique((m - ex).Keys);
        assert IsLeast((m - ex).Keys, k);
      }
    }
  }

  /** The dictionaries hold the same under every other name. */
  ghost predicate AgreeOutside(a: map<string, Value>, b: map<string, Value>, names: seq<string>) {
    forall name :: name !in names ==> (name in a <==> name in b) && (name in a ==> a[name] == b[name])
  }

  /** The full fingerprint texts of two plan dictionaries are the same exactly when the plans hold the same
      under every name but these seven. */
  lemma FullIsExact(a: map<string, Value>, b: map<string, Value>)
    ensures FullText(FieldsOf(a)) == FullText(FieldsOf(b))
       <==> AgreeOutside(a, b, [
              "agentTrace", "compilerTrace", "plannerToolCalls", "plannerToolResults", "plannerLoadedRefs",
              "plannerContextFiles", "plannerPromptStats"])
  {
    LeftIsExact(a, b, NON_EXECUTION_FIELDS);
  }

  lemma LeftIsExact(a: map<string, Value>, b: map<string, Value>, excluded: seq<string>)
    ensures Encode(Object(Without(FieldsOf(a), excluded))) == Encode(Object(Without(FieldsOf(b), excluded))) <==> AgreeOutside(a, b, excluded)
  {
    var ex := set name | name in excluded;
    WithoutIsMinus(a, excluded);
    WithoutIsMinus(b, excluded);
    TextsAreValues(Dict(a - ex), Dict(b - ex));
    DictIsInjective(a - ex, b - ex);
    MinusIsExact(a, b, excluded);
  }

  lemma MinusIsExact(a: map<string, Value>, b: map<string, Value>, names: seq<string>)
    ensures var ex := set name | name in names; a - ex == b - ex <==> AgreeOutside(a, b, names)
  {
    var ex := set name | name in names;
    if a - ex == b - ex {
      forall name | name !in names ensures (name in a <==> name in b) && (name in a ==> a[name] == b[name]) {
        assert name in a - ex <==> name in b - ex;
        if name in a { assert (a - ex)[name] == (b - ex)[name]; }
      }
    }
  }

  const STRUCTURAL_FIELDS: seq<string> := ["intents"] + OTHER_FIELDS

  lemma NoFieldIsBoth(name: string)
    requires name in STRUCTURAL_FIELDS
    ensures name !in NON_EXECUTION_FIELDS
  {
    var i :| 0 <= i < |STRUCTURAL_FIELDS| && STRUCTURAL_FIELDS[i] == name;
    assert name[0] == STRUCTURAL_FIELDS[i][0];
  }

  lemma ReadByFields(lists: AllowLists, a: Value, b: Value)
    requires AgreeOn(a, b, STRUCTURAL_FIELDS)
    ensures Contract(lists, a) == Contract(lists, b)
  {
    var f := STRUCTURAL_FIELDS;
    assert f[0] in f && f[1] in f && f[2] in f && f[3] in f && f[4] in f && f[5] in f && f[6] in f && f[7] in f;
  }

  /** Plans with the same full fingerprint text have the same structure fingerprint text: no excluded
      field is read. */
  lemma FullDecidesStructure(a: seq<Field>, b: seq<Field>)
    requires FullText(a) == FullText(b)
    ensures StructureText(Object(a)) == StructureText(Object(b))
  {
    EncodeIsInjective();
    assert Object(Without(a, NON_EXECUTION_FIELDS)) == Object(Without(b, NON_EXECUTION_FIELDS));
    forall name | name in STRUCTURAL_FIELDS ensures Get(Object(a), name) == Get(Object(b), name) {
      NoFieldIsBoth(name);
      FindWithout(a, NON_EXECUTION_FIELDS, name);
      FindWithout(b, NON_EXECUTION_FIELDS, name);
    }
    ReadByFields(ALLOWED, Object(a), Object(b));
  }
}
