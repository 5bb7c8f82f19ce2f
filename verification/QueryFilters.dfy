/**
 The filter part of the structural contract: reading filter nodes out of a dumped
 query or condition ledger, and projecting the query onto its canonical filter.
 */
module QueryFilters {
  import opened Json
  import opened Dumps
  import opened FilterGraph
  import opened FilterMeaning
  import opened FilterInvariance

  // ----- reading nodes

  /** The items that Python iterates over: those of a list, the characters of a text, the keys of a dictionary. */
  function Iterated(v: Value): seq<Value> {
    match v
    case Array(items) => items
    case Str(s) => seq(|s|, i requires 0 <= i < |s| => Str([s[i]]))
    case Object(fields) => seq(|fields|, i requires 0 <= i < |fields| => Str(fields[i].name))
    case _ => []
  }

  function Texts(items: seq<Value>): seq<string> {
    seq(|items|, i requires 0 <= i < |items| => Dumps.Text(items[i]))
  }

  function NodeOf(item: Value): FilterNode {
    FilterNode(
      Dumps.Text(Either(item, "nodeId", "node_id")),
      Dumps.Text(Either(item, "nodeType", "node_type")),
      Either(item, "semanticRefId", "semantic_ref_id"),
      Dumps.Text(Get(item, "operator")),
      ItemsOf(Either(item, "rawValues", "raw_values")),
      ItemsOf(Either(item, "resolvedValues", "resolved_values")),
      Either(item, "boundTable", "bound_table"),
      Either(item, "boundField", "bound_field"),
      Either(item, "memberKind", "member_kind"),
      Either(item, "dataType", "data_type"),
      Dumps.Text(Either(item, "logicalOperator", "logical_operator")),
      Texts(Iterated(Either(item, "childNodeIds", "child_node_ids"))))
  }

  /** The nodes of a list; what is not a dictionary is skipped. */
  function NodesOf(v: Value): seq<FilterNode> {
    var items := Dicts(ItemsOf(v));
    seq(|items|, i requires 0 <= i < |items| => NodeOf(items[i]))
  }

  function QueryNodes(query: Value): seq<FilterNode> { NodesOf(Either(query, "filterNodes", "filter_nodes")) }

  function QueryRoot(query: Value): string { Dumps.Text(Either(query, "rootFilterNodeId", "root_filter_node_id")) }

  function LedgerNodes(ledger: Value): seq<FilterNode> { NodesOf(Either(ledger, "conditionNodes", "condition_nodes")) }

  function LedgerRoot(ledger: Value): string { Dumps.Text(Either(ledger, "rootConditionNodeId", "root_condition_node_id")) }

  // ----- what is read of a dictionary

  /** Python iterates over the items of a list, the characters of a text and the keys of a dictionary. */
  lemma IteratedForms(items: seq<Value>, s: string, fields: seq<Field>)
    ensures Iterated(Array(items)) == items
    ensures |Iterated(Str(s))| == |s| && forall i :: 0 <= i < |s| ==> Iterated(Str(s))[i] == Str([s[i]])
    ensures |Iterated(Object(fields))| == |fields| && forall i :: 0 <= i < |fields| ==> Iterated(Object(fields))[i] == Str(fields[i].name)
  {
  }

  /** A node written under these names, camel or snake, is read back. */
  lemma NodeIsRead(m: map<string, Value>, n: FilterNode)
    requires Gives(m, "nodeId", "node_id", Str(n.nodeId)) && Gives(m, "nodeType", "node_type", Str(n.nodeType))
    requires Gives(m, "semanticRefId", "semantic_ref_id", n.semanticRefId) && Entry(m, "operator") == Str(n.operator)
    requires Gives(m, "rawValues", "raw_values", Array(n.rawValues)) && Gives(m, "resolvedValues", "resolved_values", Array(n.resolvedValues))
    requires Gives(m, "boundTable", "bound_table", n.boundTable) && Gives(m, "boundField", "bound_field", n.boundField)
    requires Gives(m, "memberKind", "member_kind", n.memberKind) && Gives(m, "dataType", "data_type", n.dataType)
    requires Gives(m, "logicalOperator", "logical_operator", Str(n.logicalOperator))
    requires Gives(m, "childNodeIds", "child_node_ids", Array(seq(|n.childNodeIds|, i requires 0 <= i < |n.childNodeIds| => Str(n.childNodeIds[i]))))
    ensures NodeOf(Dict(m)) == n
  {
    EitherName(m, "nodeId", "node_id");
    EitherName(m, "nodeType", "node_type");
    EitherName(m, "semanticRefId", "semantic_ref_id");
    GetOfDict(m, "operator");
    EitherName(m, "rawValues", "raw_values");
    EitherName(m, "resolvedValues", "resolved_values");
    EitherName(m, "boundTable", "bound_table");
    EitherName(m, "boundField", "bound_field");
    EitherName(m, "memberKind", "member_kind");
    EitherName(m, "dataType", "data_type");
    EitherName(m, "logicalOperator", "logical_operator");
    EitherName(m, "childNodeIds", "child_node_ids");
  }

  /** The nodes of a query are the dictionaries under these names, and so are those of a condition ledger. */
  lemma GraphIsRead(m: map<string, Value>, items: seq<Value>, root: string)
    requires forall v :: v in items ==> v.Object?
    ensures Gives(m, "filterNodes", "filter_nodes", Array(items)) ==>
              |QueryNodes(Dict(m))| == |items| && forall i :: 0 <= i < |items| ==> QueryNodes(Dict(m))[i] == NodeOf(items[i])
    ensures Gives(m, "rootFilterNodeId", "root_filter_node_id", Str(root)) ==> QueryRoot(Dict(m)) == root
    ensures Gives(m, "conditionNodes", "condition_nodes", Array(items)) ==>
              |LedgerNodes(Dict(m))| == |items| && forall i :: 0 <= i < |items| ==> LedgerNodes(Dict(m))[i] == NodeOf(items[i])
    ensures Gives(m, "rootConditionNodeId", "root_condition_node_id", Str(root)) ==> LedgerRoot(Dict(m)) == root
  {
    AllAreDicts(items);
    EitherName(m, "filterNodes", "filter_nodes");
    EitherName(m, "rootFilterNodeId", "root_filter_node_id");
    EitherName(m, "conditionNodes", "condition_nodes");
    EitherName(m, "rootConditionNodeId", "root_condition_node_id");
  }

  lemma {:induction false} AllAreDicts(items: seq<Value>)
    requires forall v :: v in items ==> v.Object?
    ensures Dicts(items) == items
  {
    if items != [] { AllAreDicts(items[1..]); }
  }

  // ----- the projections

  /** The value of _canonical_filter_expression: a dictionary below a root, else a list. */
  function ExpressionJson(e: FilterExpression): Value {
    match e
    case Rooted(e) => ToJson(e)
    case Rootless(all) => Array(ToJsonAll(all))
  }

  lemma ExpressionJsonIsInjective(a: FilterExpression, b: FilterExpression)
    ensures ExpressionJson(a) == ExpressionJson(b) <==> a == b
  {
    if ExpressionJson(a) == ExpressionJson(b) {
      if a.Rooted? && b.Rooted? { ToJsonIsInjective(a.e, b.e); }
      if a.Rootless? && b.Rootless? { ToJsonAllIsInjective(a.all, b.all); }
    }
  }

  /** semantic_query_execution_contract */
  function QueryContractOf(query: Value): Value {
    Object([
      Field("filterExpression", ExpressionJson(CanonicalExpression(QueryNodes(query), QueryRoot(query), true))),
      Field("limit", Get(query, "limit")),
      Field("resultMode", Get(query, "resultMode"))])
  }

  /** _project_source_condition_ledger */
  function LedgerContractOf(ledger: Value): Value {
    Object([
      Field("auditorStatus", Either(ledger, "auditorStatus", "auditor_status")),
      Field("conditionExpression", ExpressionJson(CanonicalExpression(LedgerNodes(ledger), LedgerRoot(ledger), false))),
      Field("questionHash", Either(ledger, "questionHash", "question_hash"))])
  }

  // ----- what they keep

  /** The queries have the same result mode and limit, and their graphs spell out the same filter. */
  ghost predicate SameQuery(a: Value, b: Value) {
    && Get(a, "limit") == Get(b, "limit") && Get(a, "resultMode") == Get(b, "resultMode")
    && SameFilter(QueryNodes(a), QueryRoot(a), QueryNodes(b), QueryRoot(b), true)
  }

  ghost predicate SameLedger(a: Value, b: Value) {
    && Either(a, "auditorStatus", "auditor_status") == Either(b, "auditorStatus", "auditor_status")
    && Either(a, "questionHash", "question_hash") == Either(b, "questionHash", "question_hash")
    && SameFilter(LedgerNodes(a), LedgerRoot(a), LedgerNodes(b), LedgerRoot(b), false)
  }

  /** The projection of a query identifies exactly the queries that ask for the same. */
  lemma QueryContractIsExact(a: Value, b: Value)
    ensures QueryContractOf(a) == QueryContractOf(b) <==> SameQuery(a, b)
  {
    ContractIdentifiesFilter(QueryNodes(a), QueryRoot(a), QueryNodes(b), QueryRoot(b), true);
    ExpressionJsonIsInjective(CanonicalExpression(QueryNodes(a), QueryRoot(a), true), CanonicalExpression(QueryNodes(b), QueryRoot(b), true));
    var x, y := QueryContractOf(a).fields, QueryContractOf(b).fields;
    if x == y { assert x[0] == y[0] && x[1] == y[1] && x[2] == y[2]; }
  }

  lemma LedgerContractIsExact(a: Value, b: Value)
    ensures LedgerContractOf(a) == LedgerContractOf(b) <==> SameLedger(a, b)
  {
    ContractIdentifiesFilter(LedgerNodes(a), LedgerRoot(a), LedgerNodes(b), LedgerRoot(b), false);
    ExpressionJsonIsInjective(CanonicalExpression(LedgerNodes(a), LedgerRoot(a), false), CanonicalExpression(LedgerNodes(b), LedgerRoot(b), false));
    var x, y := LedgerContractOf(a).fields, LedgerContractOf(b).fields;
    if x == y { assert x[0] == y[0] && x[1] == y[1] && x[2] == y[2]; }
  }

  // ----- rewriting a filter

  /** Node lists and roots that are one graph up to the names of its nodes. */
  ghost predicate RenamedGraph(a: seq<FilterNode>, rootA: string, b: seq<FilterNode>, rootB: string) {
    exists f: string -> string, ids: set<string> ::
      Mentions(a, ids) && rootA in ids && InjectiveOn(f, ids) && f("") == "" && b == RenameNodes(f, a) && rootB == f(rootA)
  }

  /** ... up to the order in which nodes with distinct ids are listed ... */
  ghost predicate ReorderedGraph(a: seq<FilterNode>, rootA: string, b: seq<FilterNode>, rootB: string) {
    DistinctIds(a) && DistinctIds(b) && multiset(a) == multiset(b) && rootA == rootB
  }

  /** ... or up to the order of the children of and/or groups. */
  ghost predicate RearrangedGraph(a: seq<FilterNode>, rootA: string, b: seq<FilterNode>, rootB: string) {
    |a| == |b| && (forall i :: 0 <= i < |a| ==> SameUpToChildOrder(a[i], b[i])) && rootA == rootB
  }

  ghost predicate RewrittenGraph(a: seq<FilterNode>, rootA: string, b: seq<FilterNode>, rootB: string) {
    || RenamedGraph(a, rootA, b, rootB)
    || ReorderedGraph(a, rootA, b, rootB)
    || RearrangedGraph(a, rootA, b, rootB)
  }

  /** Each of these rewritings leaves the filter what it was. */
  lemma RewritingKeepsFilter(a: seq<FilterNode>, rootA: string, b: seq<FilterNode>, rootB: string, bind: bool)
    requires RewrittenGraph(a, rootA, b, rootB)
    ensures SameFilter(a, rootA, b, rootB, bind)
  {
    ContractIdentifiesFilter(a, rootA, b, rootB, bind);
    if RenamedGraph(a, rootA, b, rootB) {
      var f: string -> string, ids: set<string> :|
        Mentions(a, ids) && rootA in ids && InjectiveOn(f, ids) && f("") == "" && b == RenameNodes(f, a) && rootB == f(rootA);
      RenamingChangesNothing(f, ids, a, rootA, bind);
    } else if ReorderedGraph(a, rootA, b, rootB) {
      NodeOrderChangesNothing(a, b, rootA, bind);
    } else {
      ChildOrderChangesNothing(a, b, rootA, bind);
    }
  }

  /** A node list with its root. */
  datatype Graph = Graph(nodes: seq<FilterNode>, root: string)

  /** Each graph of the chain is a rewriting of the one before. */
  ghost predicate AreRewritings(chain: seq<Graph>) {
    forall i: nat :: i + 1 < |chain| ==> RewrittenGraph(chain[i].nodes, chain[i].root, chain[i + 1].nodes, chain[i + 1].root)
  }

  /** `b` is what some number of rewritings, one after the other, makes of `a`. */
  ghost predicate Rewritten(a: seq<FilterNode>, rootA: string, b: seq<FilterNode>, rootB: string) {
    exists chain :: |chain| > 0 && chain[0] == Graph(a, rootA) && chain[|chain| - 1] == Graph(b, rootB) && AreRewritings(chain)
  }

  lemma RewritingKeepsForm(a: Graph, b: Graph, bind: bool)
    requires RewrittenGraph(a.nodes, a.root, b.nodes, b.root)
    ensures CanonicalExpression(a.nodes, a.root, bind) == CanonicalExpression(b.nodes, b.root, bind)
  {
    RewritingKeepsFilter(a.nodes, a.root, b.nodes, b.root, bind);
    ContractIdentifiesFilter(a.nodes, a.root, b.nodes, b.root, bind);
  }

  lemma {:induction false} AllAreEqual(forms: seq<FilterExpression>, n: nat)
    requires n < |forms| && forall i: nat :: i + 1 < |forms| ==> forms[i] == forms[i + 1]
    ensures forms[0] == forms[n]
  {
    if n > 0 {
      AllAreEqual(forms, n - 1);
      assert n - 1 + 1 == n && forms[n - 1] == forms[n];
    }
  }

  lemma RewritingsKeepForm(chain: seq<Graph>, bind: bool)
    requires |chain| > 0 && AreRewritings(chain)
    ensures var a, b := chain[0], chain[|chain| - 1];
            CanonicalExpression(a.nodes, a.root, bind) == CanonicalExpression(b.nodes, b.root, bind)
  {
    var forms := seq(|chain|, i requires 0 <= i < |chain| => CanonicalExpression(chain[i].nodes, chain[i].root, bind));
    forall i: nat | i + 1 < |chain| ensures forms[i] == forms[i + 1] { RewritingKeepsForm(chain[i], chain[i + 1], bind); }
    AllAreEqual(forms, |chain| - 1);
  }

  /** Any number of rewritings leaves the filter what it was. */
  lemma RewritingsKeepFilter(a: seq<FilterNode>, rootA: string, b: seq<FilterNode>, rootB: string, bind: bool)
    requires Rewritten(a, rootA, b, rootB)
    ensures SameFilter(a, rootA, b, rootB, bind)
  {
    var chain :| |chain| > 0 && chain[0] == Graph(a, rootA) && chain[|chain| - 1] == Graph(b, rootB) && AreRewritings(chain);
    RewritingsKeepForm(chain, bind);
    ContractIdentifiesFilter(a, rootA, b, rootB, bind);
  }

  // ----- the rows a query selects

  /** Queries that ask for the same select the same rows below their roots. */
  lemma SameQuerySelectsSameRows(row: Row, a: Value, rankA: map<string, nat>, b: Value, rankB: map<string, nat>)
    requires TreatsMembershipAsSet(row) && SameQuery(a, b) && QueryRoot(a) != ""
    requires Ranks(IndexNodes(QueryNodes(a)), rankA) && Ranks(IndexNodes(QueryNodes(b)), rankB)
    ensures GraphSelects(row, IndexNodes(QueryNodes(a)), rankA, QueryRoot(a), true)
         == GraphSelects(row, IndexNodes(QueryNodes(b)), rankB, QueryRoot(b), true)
  {
    ContractIdentifiesFilter(QueryNodes(a), QueryRoot(a), QueryNodes(b), QueryRoot(b), true);
    SameFormSelectsSameRows(row, QueryNodes(a), rankA, QueryRoot(a), QueryNodes(b), rankB, QueryRoot(b), true);
  }
}
