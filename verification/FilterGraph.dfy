/**
 The filter-graph canonicaliser of `graph/query_graph_contract.py`: a flat list
 of nodes with ids, child ids and a root becomes one ordered expression.
 */
module FilterGraph {
  import opened Basics
  import opened Text
  import opened Ordering
  import opened Json

  /** What is read of a filter node; an absent or empty text is "". */
  datatype FilterNode = FilterNode(
    nodeId: string,
    nodeType: string,
    semanticRefId: Value,
    operator: string,
    rawValues: seq<Value>,
    resolvedValues: seq<Value>,
    boundTable: Value,
    boundField: Value,
    memberKind: Value,
    dataType: Value,
    logicalOperator: string,
    childNodeIds: seq<string>)

  /** The fields added under `include_binding`. */
  datatype Binding = Binding(
    semanticRefId: Value,
    resolvedValues: seq<Value>,
    boundTable: Value,
    boundField: Value,
    memberKind: Value,
    dataType: Value)

  datatype Expr =
    | Predicate(operator: string, rawValues: seq<Value>, binding: Option<Binding>)
    | Group(logicalOperator: string, children: seq<Expr>)
    | Invalid(reason: string)

  /** With a root the contract is one expression, without one it is the sorted list of all of them. */
  datatype FilterExpression = Rooted(e: Expr) | Rootless(all: seq<Expr>)

  const CYCLE := "cycle"
  const UNKNOWN_CHILD := "unknown_child"
  const NODE_TYPE := "node_type"

  predicate IsMembership(operator: string) { operator == "in" || operator == "not_in" }

  /** `and` and `or` do not depend on the order of their operands. */
  predicate Commutes(logicalOperator: string) { logicalOperator == "and" || logicalOperator == "or" }

  // ----- the sort key

  /** The payload dictionary, fields in key order. */
  function ToJson(e: Expr): Value
    decreases e, 0
  {
    match e
    case Invalid(reason) => Object([Field("invalid", Str(reason))])
    case Group(op, children) =>
      Object([Field("children", Array(ToJsonAll(children))), Field("logicalOperator", Str(op)), Field("type", Str("group"))])
    case Predicate(op, raw, None) =>
      Object([Field("operator", Str(op)), Field("rawValues", Array(raw)), Field("type", Str("predicate"))])
    case Predicate(op, raw, Some(b)) =>
      Object([Field("boundField", b.boundField), Field("boundTable", b.boundTable),
              Field("dataType", b.dataType), Field("memberKind", b.memberKind),
              Field("operator", Str(op)), Field("rawValues", Array(raw)),
              Field("resolvedValues", Array(b.resolvedValues)), Field("semanticRefId", b.semanticRefId),
              Field("type", Str("predicate"))])
  }

  function ToJsonAll(es: seq<Expr>): seq<Value>
    decreases es, |es|
  {
    if es == [] then [] else [ToJson(es[0])] + ToJsonAll(es[1..])
  }

  /** _canonical_expression_sort_key */
  function Key(e: Expr): string { Encode(ToJson(e)) }

  lemma {:induction false} ToJsonIsInjective(a: Expr, b: Expr)
    requires ToJson(a) == ToJson(b)
    ensures a == b
    decreases a, 0
  {
    assert ToJson(a).fields[0] == ToJson(b).fields[0];
    if a.Group? || b.Group? {
      assert a.Group? && b.Group?;
      assert ToJson(a).fields[1] == ToJson(b).fields[1];
      ToJsonAllIsInjective(a.children, b.children);
    } else if a.Predicate? {
      assert b.Predicate?;
      assert forall i :: 0 <= i < |ToJson(a).fields| ==> ToJson(a).fields[i] == ToJson(b).fields[i];
    }
  }

  lemma {:induction false} ToJsonAllIsInjective(a: seq<Expr>, b: seq<Expr>)
    requires ToJsonAll(a) == ToJsonAll(b)
    ensures a == b
    decreases a, |a|
  {
    if a != [] && b != [] {
      assert ToJsonAll(a)[0] == ToJsonAll(b)[0];
      assert ToJsonAll(a)[1..] == ToJsonAll(a[1..]) && ToJsonAll(b)[1..] == ToJsonAll(b[1..]);
      ToJsonIsInjective(a[0], b[0]);
      ToJsonAllIsInjective(a[1..], b[1..]);
      assert a == [a[0]] + a[1..] && b == [b[0]] + b[1..];
    }
  }

  /** Two expressions with the same encoded payload are the same expression. */
  lemma KeyIsInjective()
    ensures Injective(Key)
  {
    forall a, b | Key(a) == Key(b) ensures a == b {
      EncodeIsInjective();
      ToJsonIsInjective(a, b);
    }
  }

  // ----- _canonical_unordered_values

  function CanonicalValues(vs: seq<Value>): seq<Value> { SortBy(Encode, Dedup(vs)) }

  function Elements<T>(s: seq<T>): set<T> { set x | x in s }

  ghost predicate NoDuplicates<T>(s: seq<T>) {
    forall i, j :: 0 <= i < j < |s| ==> s[i] != s[j]
  }

  lemma {:induction false} DedupKeepsElements(vs: seq<Value>)
    ensures Elements(Dedup(vs)) == Elements(vs) && NoDuplicates(Dedup(vs))
  {
    if vs != [] {
      assert vs == vs[..|vs| - 1] + [vs[|vs| - 1]];
      DedupKeepsElements(vs[..|vs| - 1]);
      assert Elements(vs) == Elements(vs[..|vs| - 1]) + {vs[|vs| - 1]};
    }
  }

  lemma {:induction false} NoDuplicatesMultiset<T>(s: seq<T>)
    requires NoDuplicates(s)
    ensures multiset(s) == multiset(Elements(s))
  {
    if s != [] {
      NoDuplicatesMultiset(s[1..]);
      assert s == [s[0]] + s[1..];
      assert Elements(s) == {s[0]} + Elements(s[1..]);
      assert s[0] !in s[1..];
    }
  }

  /** Canonical value lists are equal exactly for lists with the same elements. */
  lemma CanonicalValuesAreSets(a: seq<Value>, b: seq<Value>)
    ensures CanonicalValues(a) == CanonicalValues(b) <==> Elements(a) == Elements(b)
  {
    EncodeIsInjective();
    DedupKeepsElements(a);
    DedupKeepsElements(b);
    NoDuplicatesMultiset(Dedup(a));
    NoDuplicatesMultiset(Dedup(b));
    SortForgetsOrder(Encode, Dedup(a), Dedup(b));
    if multiset(Dedup(a)) == multiset(Dedup(b)) {
      assert forall v :: v in Elements(a) <==> v in multiset(Dedup(a));
      assert forall v :: v in Elements(b) <==> v in multiset(Dedup(b));
    }
  }

  lemma RearrangementKeepsNoDuplicates<T>(a: seq<T>, b: seq<T>)
    requires multiset(a) == multiset(b) && NoDuplicates(b)
    ensures Elements(a) == Elements(b) && NoDuplicates(a)
  {
    var p := SameMultisetHasPermutation(a, b);
    forall x ensures x in a <==> x in b {
      assert x in a <==> x in multiset(a);
      assert x in b <==> x in multiset(b);
    }
  }

  /** The canonical list has the same elements, each once, in ascending encoded order. */
  lemma CanonicalValuesListElementsOnce(vs: seq<Value>)
    ensures Elements(CanonicalValues(vs)) == Elements(vs)
    ensures NoDuplicates(CanonicalValues(vs))
    ensures SortedBy(Encode, CanonicalValues(vs))
    ensures CanonicalValues(CanonicalValues(vs)) == CanonicalValues(vs)
  {
    DedupKeepsElements(vs);
    SortPermutes(Encode, Dedup(vs));
    SortSorts(Encode, Dedup(vs));
    RearrangementKeepsNoDuplicates(CanonicalValues(vs), Dedup(vs));
    CanonicalValuesAreSets(CanonicalValues(vs), vs);
  }

  function Encodings(vs: seq<Value>): seq<string> {
    seq(|vs|, i requires 0 <= i < |vs| => Encode(vs[i]))
  }

  lemma EncodingsConcat(a: seq<Value>, b: seq<Value>)
    ensures Encodings(a + b) == Encodings(a) + Encodings(b)
  {}

  lemma {:induction false} InsertEncodings(v: Value, vs: seq<Value>)
    ensures Insert((s: string) => s, Encode(v), Encodings(vs)) == Encodings(Insert(Encode, v, vs))
  {
    if vs != [] {
      EncodingsConcat([v], vs);
      EncodingsConcat([vs[0]], vs[1..]);
      assert vs == [vs[0]] + vs[1..];
      assert Encodings(vs)[1..] == Encodings(vs[1..]);
      InsertEncodings(v, vs[1..]);
      EncodingsConcat([vs[0]], Insert(Encode, v, vs[1..]));
    }
  }

  lemma {:induction false} SortEncodings(vs: seq<Value>)
    ensures SortBy((s: string) => s, Encodings(vs)) == Encodings(SortBy(Encode, vs))
  {
    if vs != [] {
      assert Encodings(vs)[1..] == Encodings(vs[1..]);
      SortEncodings(vs[1..]);
      InsertEncodings(vs[0], SortBy(Encode, vs[1..]));
    }
  }

  /** The dictionary holds exactly the values seen so far, each under its encoding. */
  ghost predicate Holds(deduped: map<string, Value>, seen: seq<Value>) {
    && (forall v :: v in seen ==> Encode(v) in deduped && deduped[Encode(v)] == v)
    && (forall k :: k in deduped ==> deduped[k] in seen && Encode(deduped[k]) == k)
  }

  lemma HoldsDecides(deduped: map<string, Value>, seen: seq<Value>, value: Value)
    requires Holds(deduped, seen)
    ensures Encode(value) in deduped <==> value in seen
  {
    EncodeIsInjective();
  }

  /** The source's loop: a dictionary from encoding to first value, read back in key order. */
  method CanonicalUnorderedValues(values: seq<Value>) returns (canonical: seq<Value>)
    ensures canonical == CanonicalValues(values)
  {
    var deduped: map<string, Value> := map[];
    var keys: seq<string> := [];  // the insertion order of the dictionary
    ghost var seen: seq<Value> := [];
    for i := 0 to |values|
      invariant seen == Dedup(values[..i]) && keys == Encodings(seen)
      invariant Holds(deduped, seen)
    {
      assert values[..i + 1][..i] == values[..i];
      var encoded := Encode(values[i]);
      HoldsDecides(deduped, seen, values[i]);
      if encoded !in deduped {
        deduped := deduped[encoded := values[i]];
        keys := keys + [encoded];
        seen := seen + [values[i]];
      }
    }
    assert values[..|values|] == values;
    SortEncodings(seen);
    canonical := ReadBack(deduped, SortBy((s: string) => s, keys), seen);
  }

  /** `[deduped[key] for key in sorted(deduped)]` */
  method ReadBack(deduped: map<string, Value>, keys: seq<string>, ghost seen: seq<Value>) returns (values: seq<Value>)
    requires Holds(deduped, seen)
    requires keys == Encodings(SortBy(Encode, seen))
    ensures values == SortBy(Encode, seen)
  {
    SortPermutes(Encode, seen);
    ghost var sorted := SortBy(Encode, seen);
    values := [];
    for i := 0 to |keys|
      invariant values == sorted[..i]
    {
      assert sorted[i] in multiset(sorted);
      values := values + [deduped[keys[i]]];
    }
  }

  // ----- the walk

  function NodeType(n: FilterNode): string { if n.nodeType == "" then "predicate" else Lower(n.nodeType) }

  function ValuesOf(operator: string, values: seq<Value>): seq<Value> {
    if IsMembership(operator) then CanonicalValues(values) else values
  }

  function PredicateOf(n: FilterNode, includeBinding: bool): Expr {
    var op := Lower(n.operator);
    Predicate(op, ValuesOf(op, n.rawValues),
              if includeBinding
              then Some(Binding(n.semanticRefId, ValuesOf(op, n.resolvedValues), n.boundTable, n.boundField, n.memberKind, n.dataType))
              else None)
  }

  /** Child ids that are not empty, in list order. */
  function NamedChildren(ids: seq<string>): seq<string> {
    if ids == [] then []
    else (if ids[0] == "" then [] else [ids[0]]) + NamedChildren(ids[1..])
  }

  function Ordered(logicalOperator: string, children: seq<Expr>): seq<Expr> {
    if Commutes(logicalOperator) then SortBy(Key, children) else children
  }

  /** `visit(id)` when `path` is the set of groups being visited. */
  function VisitNode(byId: map<string, FilterNode>, path: set<string>, id: string, includeBinding: bool): Expr
    decreases byId.Keys - path, 0
  {
    if id in path then Invalid(CYCLE)
    else if id !in byId then Invalid(UNKNOWN_CHILD)
    else if NodeType(byId[id]) == "predicate" then PredicateOf(byId[id], includeBinding)
    else if NodeType(byId[id]) != "group" then Invalid(NODE_TYPE)
    else
      var op := Lower(byId[id].logicalOperator);
      assert byId.Keys - (path + {id}) < byId.Keys - path by { assert id in byId.Keys - path; }
      Group(op, Ordered(op, VisitAll(byId, path + {id}, NamedChildren(byId[id].childNodeIds), includeBinding)))
  }

  function VisitAll(byId: map<string, FilterNode>, path: set<string>, ids: seq<string>, includeBinding: bool): seq<Expr>
    decreases byId.Keys - path, |ids| + 1
  {
    if ids == [] then []
    else [VisitNode(byId, path, ids[0], includeBinding)] + VisitAll(byId, path, ids[1..], includeBinding)
  }

  lemma VisitAllStep(byId: map<string, FilterNode>, path: set<string>, ids: seq<string>, includeBinding: bool, before: seq<Expr>)
    requires ids != []
    ensures before + VisitAll(byId, path, ids, includeBinding)
         == (before + [VisitNode(byId, path, ids[0], includeBinding)]) + VisitAll(byId, path, ids[1..], includeBinding)
  {}

  /** `by_id`: nodes without an id are skipped, the first node of an id wins. */
  function IndexNodes(nodes: seq<FilterNode>): map<string, FilterNode> {
    if nodes == [] then map[]
    else
      var n, rest := nodes[|nodes| - 1], IndexNodes(nodes[..|nodes| - 1]);
      if n.nodeId != "" && n.nodeId !in rest then rest[n.nodeId := n] else rest
  }

  /** The ids in the order in which `by_id` received them. */
  function IndexOrder(nodes: seq<FilterNode>): seq<string> {
    if nodes == [] then []
    else
      var n, rest := nodes[|nodes| - 1], IndexOrder(nodes[..|nodes| - 1]);
      if n.nodeId != "" && n.nodeId !in rest then rest + [n.nodeId] else rest
  }

  function SortedIds(nodes: seq<FilterNode>): seq<string> { SortBy((s: string) => s, IndexOrder(nodes)) }

  /** _canonical_filter_expression */
  function CanonicalExpression(nodes: seq<FilterNode>, rootId: string, includeBinding: bool): FilterExpression {
    if rootId != "" then Rooted(VisitNode(IndexNodes(nodes), {}, rootId, includeBinding))
    else Rootless(SortBy(Key, VisitAll(IndexNodes(nodes), {}, SortedIds(nodes), includeBinding)))
  }

  lemma {:induction false} IndexOrderListsKeys(nodes: seq<FilterNode>)
    ensures Elements(IndexOrder(nodes)) == IndexNodes(nodes).Keys
    ensures NoDuplicates(IndexOrder(nodes))
    ensures forall id :: id in IndexOrder(nodes) ==> id != ""
  {
    if nodes != [] {
      IndexOrderListsKeys(nodes[..|nodes| - 1]);
      var n, rest := nodes[|nodes| - 1], IndexOrder(nodes[..|nodes| - 1]);
      assert n.nodeId in rest <==> n.nodeId in Elements(rest);
      assert Elements(rest + [n.nodeId]) == Elements(rest) + {n.nodeId};
    }
  }

  /** The closure of `_canonical_filter_expression`: its dictionary and its shared path set. */
  class Canonicaliser {
    const byId: map<string, FilterNode>
    const includeBinding: bool
    var visiting: set<string>

    constructor (byId: map<string, FilterNode>, includeBinding: bool)
      ensures this.byId == byId && this.includeBinding == includeBinding && visiting == {}
    {
      this.byId := byId;
      this.includeBinding := includeBinding;
      visiting := {};
    }

    /** Terminates on every graph, and leaves the path set as it found it. */
    method Visit(nodeId: string) returns (e: Expr)
      modifies this`visiting
      ensures visiting == old(visiting)
      ensures e == VisitNode(byId, old(visiting), nodeId, includeBinding)
      decreases byId.Keys - visiting
    {
      if nodeId in visiting {
        return Invalid(CYCLE);
      }
      if nodeId !in byId {
        return Invalid(UNKNOWN_CHILD);
      }
      var item := byId[nodeId];
      if NodeType(item) == "predicate" {
        return PredicateOf(item, includeBinding);
      }
      if NodeType(item) != "group" {
        return Invalid(NODE_TYPE);
      }
      var logical := Lower(item.logicalOperator);
      var children := item.childNodeIds;
      ghost var path := visiting + {nodeId};
      assert nodeId in byId.Keys - visiting;
      visiting := visiting + {nodeId};
      var expressions: seq<Expr> := [];
      for i := 0 to |children|
        invariant visiting == path
        invariant expressions + VisitAll(byId, path, NamedChildren(children[i..]), includeBinding)
               == VisitAll(byId, path, NamedChildren(children), includeBinding)
      {
        assert children[i..][1..] == children[i + 1..];
        if children[i] != "" {
          ghost var rest := NamedChildren(children[i + 1..]);
          assert NamedChildren(children[i..]) == [children[i]] + rest;
          assert ([children[i]] + rest)[1..] == rest;
          var expression := Visit(children[i]);
          VisitAllStep(byId, path, [children[i]] + rest, includeBinding, expressions);
          expressions := expressions + [expression];
        } else {
          assert NamedChildren(children[i..]) == NamedChildren(children[i + 1..]);
        }
      }
      assert expressions == VisitAll(byId, path, NamedChildren(children), includeBinding) by {
        assert NamedChildren(children[|children|..]) == [];
        assert expressions + [] == expressions;
        assert children[0..] == children;
      }
      visiting := visiting - {nodeId};
      if Commutes(logical) {
        expressions := SortBy(Key, expressions);
      }
      return Group(logical, expressions);
    }

    /** The root-less case: every known id in turn. */
    method VisitEach(ids: seq<string>) returns (expressions: seq<Expr>)
      modifies this`visiting
      ensures visiting == old(visiting)
      ensures expressions == VisitAll(byId, old(visiting), ids, includeBinding)
    {
      expressions := [];
      for i := 0 to |ids|
        invariant visiting == old(visiting)
        invariant expressions + VisitAll(byId, visiting, ids[i..], includeBinding)
               == VisitAll(byId, visiting, ids, includeBinding)
      {
        var e := Visit(ids[i]);
        VisitAllStep(byId, visiting, ids[i..], includeBinding, expressions);
        assert ids[i..][1..] == ids[i + 1..];
        expressions := expressions + [e];
      }
    }
  }

  method BuildIndex(nodes: seq<FilterNode>) returns (byId: map<string, FilterNode>, order: seq<string>)
    ensures byId == IndexNodes(nodes) && order == IndexOrder(nodes)
  {
    byId, order := map[], [];
    for i := 0 to |nodes|
      invariant byId == IndexNodes(nodes[..i]) && order == IndexOrder(nodes[..i])
    {
      assert nodes[..i + 1][..i] == nodes[..i];
      IndexOrderListsKeys(nodes[..i]);
      assert nodes[i].nodeId in byId <==> nodes[i].nodeId in Elements(order);
      if nodes[i].nodeId != "" && nodes[i].nodeId !in byId {
        byId := byId[nodes[i].nodeId := nodes[i]];
        order := order + [nodes[i].nodeId];
      }
    }
    assert nodes[..|nodes|] == nodes;
  }

  method CanonicalFilterExpression(nodes: seq<FilterNode>, rootId: string, includeBinding: bool)
    returns (result: FilterExpression)
    ensures result == CanonicalExpression(nodes, rootId, includeBinding)
  {
    var byId, order := BuildIndex(nodes);
    var walk := new Canonicaliser(byId, includeBinding);
    if rootId != "" {
      var e := walk.Visit(rootId);
      return Rooted(e);
    }
    var expressions := walk.VisitEach(SortBy((s: string) => s, order));
    return Rootless(SortBy(Key, expressions));
  }
}
