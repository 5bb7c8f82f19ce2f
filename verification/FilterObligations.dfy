/**
 The semantic filter obligations inside the structural contract of
 `query_graph_executable_contract`: each is projected onto an allow-list and the
 list is sorted by encoding.
 */
module FilterObligations {
  import opened Text
  import opened Ordering
  import opened Json
  import opened Dumps
  import opened FilterGraph

  const OBLIGATION_FIELDS: seq<string> := [
    "boundField", "boundTable", "dataType", "memberKind", "operator", "rawValues", "required", "resolvedValues",
    "semanticRefId", "status", "taskId"]

  predicate HoldsValues(name: string) { name == "rawValues" || name == "resolvedValues" }

  /** The operator is lowered only to decide whether the values are a set. */
  predicate HasValueSets(o: Value) { IsMembership(Lower(Dumps.Text(Get(o, "operator")))) }

  function ProjectedValue(o: Value, name: string): Value {
    if HoldsValues(name) && HasValueSets(o) then Array(CanonicalValues(ItemsOf(Get(o, name)))) else Get(o, name)
  }

  /** _project_semantic_filter_obligation */
  ghost function Project(o: Value): Value { Projection(OBLIGATION_FIELDS, name => ProjectedValue(o, name)) }

  ghost function ProjectAll(os: seq<Value>): seq<Value> {
    seq(|os|, i requires 0 <= i < |os| => Project(os[i]))
  }

  /** The `semanticFilterObligations` entry of the structural contract. */
  ghost function ObligationContract(os: seq<Value>): seq<Value> { SortBy(Encode, ProjectAll(os)) }

  /** The entries under `name` are the same, or list the same set when `sets` holds. */
  ghost predicate SameEntry(o: Value, q: Value, name: string, sets: bool) {
    if name in {"rawValues", "resolvedValues"} && sets then Elements(ItemsOf(Get(o, name))) == Elements(ItemsOf(Get(q, name)))
    else Get(o, name) == Get(q, name)
  }

  /** Two obligations demand the same filter: they agree on the allow-list, where the values of `in` and
      `not_in` are sets. Prose, ids and everything else may differ. */
  ghost predicate SameDemand(o: Value, q: Value) {
    var sets := Lower(Dumps.Text(Get(o, "operator"))) in {"in", "not_in"};
    var names := [
      "boundField", "boundTable", "dataType", "memberKind", "operator", "rawValues", "required", "resolvedValues",
      "semanticRefId", "status", "taskId"];
    forall name :: name in names ==> SameEntry(o, q, name, sets)
  }

  lemma EntryIsExact(o: Value, q: Value, name: string)
    requires HasValueSets(o) == HasValueSets(q)
    ensures ProjectedValue(o, name) == ProjectedValue(q, name) <==> SameEntry(o, q, name, HasValueSets(o))
  {
    CanonicalValuesAreSets(ItemsOf(Get(o, name)), ItemsOf(Get(q, name)));
  }

  lemma EntriesAreExact(o: Value, q: Value, fields: seq<string>)
    requires "operator" in fields
    ensures (forall name :: name in fields ==> ProjectedValue(o, name) == ProjectedValue(q, name))
       <==> (forall name :: name in fields ==> SameEntry(o, q, name, HasValueSets(o)))
  {
    assert !HoldsValues("operator");
    if Get(o, "operator") == Get(q, "operator") {
      forall name ensures ProjectedValue(o, name) == ProjectedValue(q, name) <==> SameEntry(o, q, name, HasValueSets(o)) {
        EntryIsExact(o, q, name);
      }
    } else {
      assert ProjectedValue(o, "operator") != ProjectedValue(q, "operator");
      assert !SameEntry(o, q, "operator", HasValueSets(o));
    }
  }

  lemma ProjectIsExact(o: Value, q: Value)
    ensures Project(o) == Project(q) <==> SameDemand(o, q)
  {
    assert OBLIGATION_FIELDS[4] == "operator";
    EntriesAreExact(o, q, OBLIGATION_FIELDS);
    ProjectionIsExact(OBLIGATION_FIELDS, name => ProjectedValue(o, name), name => ProjectedValue(q, name));
  }

  /** The two lists hold the same demands, in any order. */
  ghost predicate SameDemands(a: seq<Value>, b: seq<Value>) {
    |a| == |b| && exists p: seq<nat> :: IsPermutation(p, |a|) && forall i :: 0 <= i < |a| ==> SameDemand(a[i], b[p[i]])
  }

  /** The structural contract sees the obligations as an unordered collection of demands, and nothing else of them. */
  lemma ObligationContractIsExact(a: seq<Value>, b: seq<Value>)
    ensures ObligationContract(a) == ObligationContract(b) <==> SameDemands(a, b)
  {
    var x, y := ProjectAll(a), ProjectAll(b);
    EncodeIsInjective();
    SortForgetsOrder(Encode, x, y);
    if multiset(x) == multiset(y) {
      var p := SameMultisetHasPermutation(x, y);
      forall i | 0 <= i < |a| ensures SameDemand(a[i], b[p[i]]) { ProjectIsExact(a[i], b[p[i]]); }
    }
    if SameDemands(a, b) {
      var p: seq<nat> :| IsPermutation(p, |a|) && forall i :: 0 <= i < |a| ==> SameDemand(a[i], b[p[i]]);
      forall i | 0 <= i < |x| ensures x[i] == y[p[i]] { ProjectIsExact(a[i], b[p[i]]); }
      PermutationKeepsMultiset(x, y, p);
    }
  }
}
