/**
 The metric resolution of an intent inside the structural contract: an alias
 contract over an open dictionary, and recursively its component metrics.
 */
module MetricResolutions {
  import opened Basics
  import opened Json
  import opened Dumps

  const COMPONENTS := "componentMetrics"

  /** _METRIC_RESOLUTION_CONTRACT_FIELDS: canonical names with their aliases, in order of preference. */
  const RESOLUTION_FIELDS: map<string, seq<string>> := map[
    "requestedMetricRef" := ["requestedMetricRef", "requested_metric_ref"],
    "metricKey" := ["metricKey", "metric_key"], "ownerTable" := ["ownerTable", "owner_table"],
    "formula" := ["formula"], "originalFormula" := ["originalFormula", "original_formula"],
    "sourceColumns" := ["sourceColumns", "source_columns"],
    "droppedSourceColumns" := ["droppedSourceColumns", "dropped_source_columns"],
    "sourceMetricRefs" := ["sourceMetricRefs", "source_metric_refs"], "unit" := ["unit"],
    "metricGrain" := ["metricGrain", "metric_grain"], "metricIntent" := ["metricIntent", "metric_intent"],
    "timeColumn" := ["timeColumn", "time_column"],
    "aggregationPolicy" := ["aggregationPolicy", "aggregation_policy"],
    "applicableTimeGrain" := ["applicableTimeGrain", "applicable_time_grain"],
    "timeSemantics" := ["timeSemantics", "time_semantics"],
    "missingValuePolicy" := ["missingValuePolicy", "missing_value_policy"],
    "zeroValueMeaning" := ["zeroValueMeaning", "zero_value_meaning"],
    "semanticRefId" := ["semanticRefId", "semantic_ref_id"],
    "semanticContract" := ["semanticContract", "semantic_contract"],
    "semanticContractHash" := ["semanticContractHash", "semantic_contract_hash"],
    "metricGovernanceMode" := ["metricGovernanceMode", "metric_governance_mode"],
    "assetRefId" := ["assetRefId", "asset_ref_id"],
    "contractProvenance" := ["contractProvenance", "contract_provenance"],
    "groupByColumn" := ["groupByColumn", "group_by_column"],
    "computeStrategy" := ["computeStrategy", "compute_strategy"],
    "derivedMetric" := ["derivedMetric", "derived_metric"],
    "componentMetricKeys" := ["componentMetricKeys", "component_metric_keys"],
    "sourceMetricTaskId" := ["sourceMetricTaskId", "source_metric_task_id"],
    "bridgeTaskId" := ["bridgeTaskId", "bridge_task_id"],
    "projectionDimensions" := ["projectionDimensions", "projection_dimensions"],
    "supportOnly" := ["supportOnly", "support_only"], "internalOnly" := ["internalOnly", "internal_only"],
    "localCompilationPolicy" := ["localCompilationPolicy", "local_compilation_policy"],
    "timeWindowRole" := ["timeWindowRole", "time_window_role"],
    "timeWindowGrain" := ["timeWindowGrain", "time_window_grain"],
    "timeWindowContract" := ["timeWindowContract", "time_window_contract"],
    "entityColumns" := ["entityColumns", "entity_columns"],
    "filterConditions" := ["filterConditions", "filter_conditions"],
    "dependencyFields" := ["dependencyFields", "dependency_fields"], "confidence" := ["confidence"],
    "resolutionSource" := ["resolutionSource", "resolution_source"],
    "fieldWarning" := ["fieldWarning", "field_warning"]]

  /** The list of component metrics, if there is one. */
  function ComponentList(v: Value): Value { Either(v, "componentMetrics", "component_metrics") }

  function Components(v: Value): seq<Value> { Dicts(ItemsOf(ComponentList(v))) }

  /** The component metrics are the dictionaries of a list under one of these names. */
  lemma ComponentsAreRead(m: map<string, Value>, items: seq<Value>)
    requires Gives(m, "componentMetrics", "component_metrics", Array(items))
    ensures ComponentList(Dict(m)) == Array(items) && Components(Dict(m)) == Dicts(items)
  {
    EitherName(m, "componentMetrics", "component_metrics");
  }

  lemma ComponentsAreShallower(v: Value)
    requires ComponentList(v).Array?
    ensures DepthOfItems(Components(v)) < Depth(v)
  {
    if v.Object? {
      EntriesAreNoDeeper(v.fields, "componentMetrics");
      EntriesAreNoDeeper(v.fields, "component_metrics");
      DictsAreNoDeeper(ItemsOf(ComponentList(v)));
    }
  }

  /** _project_metric_resolution */
  ghost function ResolutionContract(table: map<string, seq<string>>, v: Value): Value
    decreases Depth(v), 0, 0
  {
    var components :=
      if ComponentList(v).Array? then
        ComponentsAreShallower(v);
        Some(Array(ResolutionContracts(table, Components(v))))
      else None;
    PartialProjection(table.Keys + {COMPONENTS}, name => ResolutionEntry(v, table, components, name))
  }

  function ResolutionEntry(v: Value, table: map<string, seq<string>>, components: Option<Value>, name: string): Option<Value> {
    if name == COMPONENTS && components.Some? then components
    else if name in table then FirstAlias(v, table[name])
    else None
  }

  ghost function ResolutionContracts(table: map<string, seq<string>>, vs: seq<Value>): (r: seq<Value>)
    ensures |r| == |vs|
    decreases DepthOfItems(vs), 1, |vs|
  {
    if vs == [] then [] else [ResolutionContract(table, vs[0])] + ResolutionContracts(table, vs[1..])
  }

  /** The resolutions agree on every alias contract entry, and so do their component metrics, one by one. */
  ghost predicate SameResolution(table: map<string, seq<string>>, v: Value, w: Value)
    decreases Depth(v), 0, 0
  {
    && AgreeOnAliases(v, w, table)
    && (ComponentList(v).Array? <==> ComponentList(w).Array?)
    && (ComponentList(v).Array? ==> (ComponentsAreShallower(v); SameResolutions(table, Components(v), Components(w))))
  }

  ghost predicate SameResolutions(table: map<string, seq<string>>, vs: seq<Value>, ws: seq<Value>)
    decreases DepthOfItems(vs), 1, |vs|
  {
    && |vs| == |ws|
    && (vs != [] ==> SameResolution(table, vs[0], ws[0]) && SameResolutions(table, vs[1..], ws[1..]))
  }

  ghost predicate AgreeOnAliases(v: Value, w: Value, table: map<string, seq<string>>) {
    forall name :: name in table ==> FirstAlias(v, table[name]) == FirstAlias(w, table[name])
  }

  lemma EntriesAreExact(v: Value, w: Value, table: map<string, seq<string>>, x: Option<Value>, y: Option<Value>)
    requires COMPONENTS !in table
    ensures (forall name :: name in table.Keys + {COMPONENTS} ==> ResolutionEntry(v, table, x, name) == ResolutionEntry(w, table, y, name))
       <==> AgreeOnAliases(v, w, table) && x == y
  {
    if forall name :: name in table.Keys + {COMPONENTS} ==> ResolutionEntry(v, table, x, name) == ResolutionEntry(w, table, y, name) {
      forall name | name in table ensures FirstAlias(v, table[name]) == FirstAlias(w, table[name]) {
        assert ResolutionEntry(v, table, x, name) == ResolutionEntry(w, table, y, name);
      }
      assert ResolutionEntry(v, table, x, COMPONENTS) == ResolutionEntry(w, table, y, COMPONENTS);
    }
  }

  lemma PartsAreExact(v: Value, w: Value, table: map<string, seq<string>>, x: Option<Value>, y: Option<Value>)
    requires COMPONENTS !in table
    ensures PartialProjection(table.Keys + {COMPONENTS}, name => ResolutionEntry(v, table, x, name))
         == PartialProjection(table.Keys + {COMPONENTS}, name => ResolutionEntry(w, table, y, name))
       <==> AgreeOnAliases(v, w, table) && x == y
  {
    PartialProjectionIsExact(table.Keys + {COMPONENTS}, name => ResolutionEntry(v, table, x, name), name => ResolutionEntry(w, table, y, name));
    EntriesAreExact(v, w, table, x, y);
  }

  /** The projection of a resolution identifies exactly the resolutions that agree, at every depth. */
  lemma {:induction false} ResolutionContractIsExact(table: map<string, seq<string>>, v: Value, w: Value)
    requires COMPONENTS !in table
    ensures ResolutionContract(table, v) == ResolutionContract(table, w) <==> SameResolution(table, v, w)
    decreases Depth(v), 0, 0
  {
    var x := if ComponentList(v).Array? then Some(Array(ResolutionContracts(table, Components(v)))) else None;
    var y := if ComponentList(w).Array? then Some(Array(ResolutionContracts(table, Components(w)))) else None;
    PartsAreExact(v, w, table, x, y);
    if ComponentList(v).Array? && ComponentList(w).Array? {
      ComponentsAreShallower(v);
      ResolutionContractsAreExact(table, Components(v), Components(w));
    }
  }

  lemma {:induction false} ResolutionContractsAreExact(table: map<string, seq<string>>, vs: seq<Value>, ws: seq<Value>)
    requires COMPONENTS !in table
    ensures ResolutionContracts(table, vs) == ResolutionContracts(table, ws) <==> SameResolutions(table, vs, ws)
    decreases DepthOfItems(vs), 1, |vs|
  {
    if vs != [] && ws != [] {
      ResolutionContractIsExact(table, vs[0], ws[0]);
      ResolutionContractsAreExact(table, vs[1..], ws[1..]);
      var x, y := ResolutionContracts(table, vs), ResolutionContracts(table, ws);
      assert x == [ResolutionContract(table, vs[0])] + ResolutionContracts(table, vs[1..]);
      assert y == [ResolutionContract(table, ws[0])] + ResolutionContracts(table, ws[1..]);
      assert x[1..] == ResolutionContracts(table, vs[1..]) && y[1..] == ResolutionContracts(table, ws[1..]);
    }
  }
}
