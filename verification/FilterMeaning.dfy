/**
 What the canonical filter expression means: which expressions it identifies,
 and that it selects the same rows as the graph it came from.
 */
module FilterMeaning {
  import opened Basics
  import opened Text
  import opened Ordering
  import opened Json
  import opened FilterGraph

  // ----- the expression before it is put in order

  function RawPredicate(n: FilterNode, includeBinding: bool): Expr {
    Predicate(Lower(n.operator), n.rawValues,
              if includeBinding
              then Some(Binding(n.semanticRefId, n.resolvedValues, n.boundTable, n.boundField, n.memberKind, n.dataType))
              else None)
  }

  /** The graph below `id` spelled out as a tree, in list order and with values as written. */
  function Unfold(byId: map<string, FilterNode>, path: set<string>, id: string, includeBinding: bool): Expr
    decreases byId.Keys - path, 0
  {
    if id in path then Invalid(CYCLE)
    else if id !in byId then Invalid(UNKNOWN_CHILD)
    else if NodeType(byId[id]) == "predicate" then RawPredicate(byId[id], includeBinding)
    else if NodeType(byId[id]) != "group" then Invalid(NODE_TYPE)
    else
      assert byId.Keys - (path + {id}) < byId.Keys - path by { assert id in byId.Keys - path; }
      Group(Lower(byId[id].logicalOperator),
            UnfoldAll(byId, path + {id}, NamedChildren(byId[id].childNodeIds), includeBinding))
  }

  function UnfoldAll(byId: map<string, FilterNode>, path: set<string>, ids: seq<string>, includeBinding: bool): seq<Expr>
    decreases byId.Keys - path, |ids| + 1
  {
    if ids == [] then []
    else [Unfold(byId, path, ids[0], includeBinding)] + UnfoldAll(byId, path, ids[1..], includeBinding)
  }

  /** Put an expression in order: value sets listed canonically, operands of and/or sorted. */
  function Canon(e: Expr): Expr
    decreases e, 0
  {
    match e
    case Invalid(_) => e
    case Predicate(op, raw, binding) =>
      Predicate(op, ValuesOf(op, raw),
                if binding.None? then None
                else Some(binding.value.(resolvedValues := ValuesOf(op, binding.value.resolvedValues))))
    case Group(op, children) => Group(op, Ordered(op, CanonAll(children)))
  }

  function CanonAll(es: seq<Expr>): seq<Expr>
    decreases es, |es|
  {
    if es == [] then [] else [Canon(es[0])] + CanonAll(es[1..])
  }

  lemma {:induction false} CanonAllAt(es: seq<Expr>)
    ensures |CanonAll(es)| == |es|
    ensures forall i :: 0 <= i < |es| ==> CanonAll(es)[i] == Canon(es[i])
  {
    if es != [] { CanonAllAt(es[1..]); }
  }

  /** The walk is: spell the graph out, then put it in order. */
  lemma {:induction false} VisitIsCanonOfUnfold(byId: map<string, FilterNode>, path: set<string>, id: string, bind: bool)
    ensures VisitNode(byId, path, id, bind) == Canon(Unfold(byId, path, id, bind))
    decreases byId.Keys - path, 0
  {
    if id !in path && id in byId && NodeType(byId[id]) == "group" {
      assert id in byId.Keys - path;
      VisitAllIsCanonOfUnfold(byId, path + {id}, NamedChildren(byId[id].childNodeIds), bind);
    }
  }

  lemma {:induction false} VisitAllIsCanonOfUnfold(byId: map<string, FilterNode>, path: set<string>, ids: seq<string>, bind: bool)
    ensures VisitAll(byId, path, ids, bind) == CanonAll(UnfoldAll(byId, path, ids, bind))
    decreases byId.Keys - path, |ids| + 1
  {
    if ids != [] {
      VisitIsCanonOfUnfold(byId, path, ids[0], bind);
      VisitAllIsCanonOfUnfold(byId, path, ids[1..], bind);
      assert UnfoldAll(byId, path, ids, bind)[1..] == UnfoldAll(byId, path, ids[1..], bind);
    }
  }

  // ----- what a canonical form identifies

  ghost predicate SameValues(operator: string, a: seq<Value>, b: seq<Value>) {
    if operator == "in" || operator == "not_in" then Elements(a) == Elements(b) else a == b
  }

  ghost predicate SameBinding(operator: string, a: Option<Binding>, b: Option<Binding>) {
    || (a.None? && b.None?)
    || (&& a.Some? && b.Some?
        && SameValues(operator, a.value.resolvedValues, b.value.resolvedValues)
        && a.value.(resolvedValues := []) == b.value.(resolvedValues := []))
  }

  /** The same filter, up to the order of and/or operands and the listing of value sets. */
  ghost predicate Equivalent(a: Expr, b: Expr)
    decreases a
  {
    match a
    case Invalid(_) => a == b
    case Predicate(op, raw, binding) =>
      b.Predicate? && b.operator == op && SameValues(op, raw, b.rawValues) && SameBinding(op, binding, b.binding)
    case Group(op, children) =>
      && b.Group? && b.logicalOperator == op && |b.children| == |children|
      && if op == "and" || op == "or"
         then exists p: seq<nat> {:trigger IsPermutation(p, |children|)} :: IsPermutation(p, |children|)
                && forall i :: 0 <= i < |children| ==> Equivalent(children[i], b.children[p[i]])
         else forall i :: 0 <= i < |children| ==> Equivalent(children[i], b.children[i])
  }

  lemma SameValuesSameList(operator: string, a: seq<Value>, b: seq<Value>)
    ensures ValuesOf(operator, a) == ValuesOf(operator, b) <==> SameValues(operator, a, b)
  {
    CanonicalValuesAreSets(a, b);
  }

  lemma PredicateCanonIdentifies(a: Expr, b: Expr)
    requires a.Predicate? && b.Predicate?
    ensures Canon(a) == Canon(b) <==> Equivalent(a, b)
  {
    SameValuesSameList(a.operator, a.rawValues, b.rawValues);
    if a.binding.Some? && b.binding.Some? {
      var x, y := a.binding.value, b.binding.value;
      SameValuesSameList(a.operator, x.resolvedValues, y.resolvedValues);
      assert x == (x.(resolvedValues := [])).(resolvedValues := x.resolvedValues);
      assert y == (y.(resolvedValues := [])).(resolvedValues := y.resolvedValues);
    }
  }

  /** Two expressions have the same canonical form exactly when they are the same filter. */
  lemma {:induction false} CanonIdentifies(a: Expr, b: Expr)
    ensures Canon(a) == Canon(b) <==> Equivalent(a, b)
    decreases a
  {
    if a.Predicate? && b.Predicate? {
      PredicateCanonIdentifies(a, b);
    } else if a.Group? && b.Group? && a.logicalOperator == b.logicalOperator {
      var x, y := CanonAll(a.children), CanonAll(b.children);
      CanonAllAt(a.children);
      CanonAllAt(b.children);
      forall i, j | 0 <= i < |x| && 0 <= j < |y|
        ensures x[i] == y[j] <==> Equivalent(a.children[i], b.children[j])
      {
        CanonIdentifies(a.children[i], b.children[j]);
      }
      if Commutes(a.logicalOperator) {
        KeyIsInjective();
        SortForgetsOrder(Key, x, y);
        PermutedGroups(a, b, x, y);
      }
    }
  }

  lemma PermutedGroups(a: Expr, b: Expr, x: seq<Expr>, y: seq<Expr>)
    requires a.Group? && b.Group? && a.logicalOperator == b.logicalOperator && Commutes(a.logicalOperator)
    requires |x| == |a.children| && |y| == |b.children|
    requires forall i, j :: 0 <= i < |x| && 0 <= j < |y| ==> (x[i] == y[j] <==> Equivalent(a.children[i], b.children[j]))
    ensures multiset(x) == multiset(y) <==> Equivalent(a, b)
  {
    if multiset(x) == multiset(y) {
      var p := SameMultisetHasPermutation(x, y);
      PairedGroupsAreEquivalent(a, b, p);
    }
    if Equivalent(a, b) {
      var p := PairingOf(a, b);
      PermutationKeepsMultiset(x, y, p);
    }
  }

  lemma PairedGroupsAreEquivalent(a: Expr, b: Expr, p: seq<nat>)
    requires a.Group? && b.Group? && a.logicalOperator == b.logicalOperator && Commutes(a.logicalOperator)
    requires |a.children| == |b.children| && IsPermutation(p, |a.children|)
    requires forall i :: 0 <= i < |a.children| ==> Equivalent(a.children[i], b.children[p[i]])
    ensures Equivalent(a, b)
  {}

  lemma PairingOf(a: Expr, b: Expr) returns (p: seq<nat>)
    requires a.Group? && Commutes(a.logicalOperator) && Equivalent(a, b)
    ensures b.Group? && |a.children| == |b.children| && IsPermutation(p, |a.children|)
    ensures forall i :: 0 <= i < |a.children| ==> Equivalent(a.children[i], b.children[p[i]])
  {
    p :| IsPermutation(p, |a.children|)
      && forall i :: 0 <= i < |a.children| ==> Equivalent(a.children[i], b.children[p[i]]);
  }

  lemma OperandsChangePlaces(op: string, x: Expr, y: Expr)
    requires op == "and" || op == "or"
    ensures Equivalent(Group(op, [x, y]), Group(op, [y, x]))
  {
    EquivalentToItself(x);
    EquivalentToItself(y);
    PairedGroupsAreEquivalent(Group(op, [x, y]), Group(op, [y, x]), [1, 0]);
  }

  lemma OperandsKeepPlaces(op: string, x: Expr, y: Expr)
    requires op != "and" && op != "or" && !Equivalent(x, y)
    ensures !Equivalent(Group(op, [x, y]), Group(op, [y, x]))
  {
    assert [x, y][0] == x && [y, x][0] == y;
  }

  /** Two operands that are not the same filter may change places in an `and` and in an `or`, and nowhere else. */
  lemma OperandOrderCounts(op: string, x: Expr, y: Expr)
    requires !Equivalent(x, y)
    ensures Canon(Group(op, [x, y])) == Canon(Group(op, [y, x])) <==> op == "and" || op == "or"
  {
    CanonIdentifies(Group(op, [x, y]), Group(op, [y, x]));
    if op == "and" || op == "or" { OperandsChangePlaces(op, x, y); } else { OperandsKeepPlaces(op, x, y); }
  }

  lemma EquivalentToItself(e: Expr)
    ensures Equivalent(e, e)
  {
    CanonIdentifies(e, e);
  }

  /** Operands of any other operator are compared one by one. */
  lemma OtherOperatorsKeepOrder(op: string, xs: seq<Expr>, ys: seq<Expr>)
    requires op != "and" && op != "or"
    ensures Canon(Group(op, xs)) == Canon(Group(op, ys))
       <==> |xs| == |ys| && forall i :: 0 <= i < |xs| ==> Equivalent(xs[i], ys[i])
  {
    CanonIdentifies(Group(op, xs), Group(op, ys));
  }

  /** Two different values may change places behind `in` and `not_in`, and behind no other operator; and there
      a value that is listed again counts once. */
  lemma ValueOrderCounts(op: string, v: Value, w: Value, binding: Option<Binding>)
    requires v != w
    ensures Canon(Predicate(op, [v, w], binding)) == Canon(Predicate(op, [w, v], binding)) <==> op == "in" || op == "not_in"
    ensures Canon(Predicate(op, [v, v], binding)) == Canon(Predicate(op, [v], binding)) <==> op == "in" || op == "not_in"
  {
    PredicateCanonIdentifies(Predicate(op, [v, w], binding), Predicate(op, [w, v], binding));
    PredicateCanonIdentifies(Predicate(op, [v, v], binding), Predicate(op, [v], binding));
    assert Elements([v, w]) == {v, w} == Elements([w, v]) && Elements([v, v]) == {v} == Elements([v]);
    assert [v, w][0] != [w, v][0] && |[v, v]| != |[v]|;
  }

  // ----- what the walk makes of a node

  /** What becomes of an id, by its node: the words that are written, and how the type is read. */
  lemma NodeForms(byId: map<string, FilterNode>, path: set<string>, id: string, bind: bool)
    ensures id in path ==> VisitNode(byId, path, id, bind) == Invalid("cycle")
    ensures id !in path && id !in byId ==> VisitNode(byId, path, id, bind) == Invalid("unknown_child")
    ensures id !in path && id in byId ==>
              var kind := Lower(byId[id].nodeType);
              var e := VisitNode(byId, path, id, bind);
              && (kind == "" || kind == "predicate" ==> e.Predicate? && e.operator == Lower(byId[id].operator) && e.binding.Some? == bind)
              && (kind == "group" ==> e.Group? && e.logicalOperator == Lower(byId[id].logicalOperator))
              && (kind != "" && kind != "predicate" && kind != "group" ==> e == Invalid("node_type"))
  {
  }

  /** Two predicate nodes have the same form exactly when operator and values agree, and, with bindings, the
      reference, the bound column, its kind and type and the resolved values. */
  lemma PredicateFormIsExact(n: FilterNode, m: FilterNode, bind: bool)
    ensures PredicateOf(n, bind) == PredicateOf(m, bind)
       <==> && Lower(n.operator) == Lower(m.operator) && SameValues(Lower(n.operator), n.rawValues, m.rawValues)
            && (bind ==> && n.semanticRefId == m.semanticRefId && n.boundTable == m.boundTable && n.boundField == m.boundField
                         && n.memberKind == m.memberKind && n.dataType == m.dataType
                         && SameValues(Lower(n.operator), n.resolvedValues, m.resolvedValues))
  {
    SameValuesSameList(Lower(n.operator), n.rawValues, m.rawValues);
    SameValuesSameList(Lower(n.operator), n.resolvedValues, m.resolvedValues);
  }

  /** All nodes of a root-less graph, spelled out as the operands of one commuting group. */
  function Conjunction(nodes: seq<FilterNode>, bind: bool): Expr {
    Group("and", UnfoldAll(IndexNodes(nodes), {}, SortedIds(nodes), bind))
  }

  /** The graphs spell out the same filter below their roots, or, when neither has a root, the same
      collection of filters. */
  ghost predicate SameFilter(a: seq<FilterNode>, rootA: string, b: seq<FilterNode>, rootB: string, bind: bool) {
    && (rootA == "" <==> rootB == "")
    && if rootA != "" then Equivalent(Unfold(IndexNodes(a), {}, rootA, bind), Unfold(IndexNodes(b), {}, rootB, bind))
       else Equivalent(Conjunction(a, bind), Conjunction(b, bind))
  }

  /** Two contracts get one canonical form, hence one fingerprint input, exactly when their graphs
      spell out the same filter. */
  lemma ContractIdentifiesFilter(a: seq<FilterNode>, rootA: string, b: seq<FilterNode>, rootB: string, bind: bool)
    ensures CanonicalExpression(a, rootA, bind) == CanonicalExpression(b, rootB, bind) <==> SameFilter(a, rootA, b, rootB, bind)
  {
    if rootA != "" && rootB != "" {
      VisitIsCanonOfUnfold(IndexNodes(a), {}, rootA, bind);
      VisitIsCanonOfUnfold(IndexNodes(b), {}, rootB, bind);
      CanonIdentifies(Unfold(IndexNodes(a), {}, rootA, bind), Unfold(IndexNodes(b), {}, rootB, bind));
    } else if rootA == "" && rootB == "" {
      VisitAllIsCanonOfUnfold(IndexNodes(a), {}, SortedIds(a), bind);
      VisitAllIsCanonOfUnfold(IndexNodes(b), {}, SortedIds(b), bind);
      CanonIdentifies(Conjunction(a, bind), Conjunction(b, bind));
    }
  }

  /** Putting an expression in order twice changes nothing more. */
  lemma {:induction false} CanonIsIdempotent(e: Expr)
    ensures Canon(Canon(e)) == Canon(e)
  {
    CanonIsEquivalent(e);
    CanonIdentifies(Canon(e), e);
  }

  lemma {:induction false} CanonIsEquivalent(e: Expr)
    ensures Equivalent(Canon(e), e)
    decreases e
  {
    if e.Predicate? {
      CanonicalValuesListElementsOnce(e.rawValues);
      if e.binding.Some? { CanonicalValuesListElementsOnce(e.binding.value.resolvedValues); }
    } else if e.Group? {
      var op, all := e.logicalOperator, CanonAll(e.children);
      CanonAllAt(e.children);
      forall i | 0 <= i < |all| ensures Equivalent(all[i], e.children[i]) { CanonIsEquivalent(e.children[i]); }
      if Commutes(op) {
        SortPermutes(Key, all);
        var p := SameMultisetHasPermutation(SortBy(Key, all), all);
        var c := Canon(e);
        forall i | 0 <= i < |c.children| ensures Equivalent(c.children[i], e.children[p[i]]) {
          assert c.children[i] == all[p[i]];
        }
        PairedGroupsAreEquivalent(c, e, p);
      }
    }
  }

  // ----- the rows it selects

  /** How one row answers the leaves: predicates, invalid parts, and operators other than and/or. */
  datatype Row = Row(
    holds: Expr -> bool,
    onInvalid: string -> bool,
    onOther: (string, seq<bool>) -> bool)

  /** `in` and `not_in` look at their values as a set. */
  ghost predicate TreatsMembershipAsSet(row: Row) {
    forall p: Expr, q: Expr :: p.Predicate? && q.Predicate? && Equivalent(p, q) ==> row.holds(p) == row.holds(q)
  }

  ghost predicate Selects(row: Row, e: Expr)
    decreases e, 0
  {
    match e
    case Predicate(_, _, _) => row.holds(e)
    case Invalid(reason) => row.onInvalid(reason)
    case Group(op, children) =>
      if op == "and" then forall c :: c in children ==> Selects(row, c)
      else if op == "or" then exists c :: c in children && Selects(row, c)
      else row.onOther(op, SelectsAll(row, children))
  }

  ghost function SelectsAll(row: Row, es: seq<Expr>): (r: seq<bool>)
    ensures |r| == |es| && forall i :: 0 <= i < |es| ==> r[i] == Selects(row, es[i])
    decreases es, |es|
  {
    if es == [] then [] else [Selects(row, es[0])] + SelectsAll(row, es[1..])
  }

  /** Equivalent filters select the same rows. */
  lemma {:induction false} EquivalentSelectSameRows(row: Row, a: Expr, b: Expr)
    requires TreatsMembershipAsSet(row) && Equivalent(a, b)
    ensures Selects(row, a) == Selects(row, b)
    decreases a
  {
    if a.Group? {
      if Commutes(a.logicalOperator) {
        var p := PairingOf(a, b);
        forall i | 0 <= i < |a.children| ensures Selects(row, a.children[i]) == Selects(row, b.children[p[i]]) {
          EquivalentSelectSameRows(row, a.children[i], b.children[p[i]]);
        }
        PermutedTruth(row, a.children, b.children, p);
      } else {
        forall i | 0 <= i < |a.children| ensures Selects(row, a.children[i]) == Selects(row, b.children[i]) {
          EquivalentSelectSameRows(row, a.children[i], b.children[i]);
        }
        assert SelectsAll(row, a.children) == SelectsAll(row, b.children);
      }
    }
  }

  lemma PermutedTruth(row: Row, a: seq<Expr>, b: seq<Expr>, p: seq<nat>)
    requires |a| == |b| && IsPermutation(p, |a|)
    requires forall i :: 0 <= i < |a| ==> Selects(row, a[i]) == Selects(row, b[p[i]])
    ensures (forall c :: c in a ==> Selects(row, c)) == (forall c :: c in b ==> Selects(row, c))
    ensures (exists c :: c in a && Selects(row, c)) == (exists c :: c in b && Selects(row, c))
  {
    var x, y := SelectsAll(row, a), SelectsAll(row, b);
    PermutationKeepsMultiset(x, y, p);
    forall v ensures v in x <==> v in y {
      assert v in multiset(x) <==> v in multiset(y);
    }
    TruthOfAll(row, a, x);
    TruthOfAll(row, b, y);
  }

  lemma TruthOfAll(row: Row, es: seq<Expr>, truth: seq<bool>)
    requires |truth| == |es| && forall i :: 0 <= i < |es| ==> truth[i] == Selects(row, es[i])
    ensures (forall c :: c in es ==> Selects(row, c)) <==> false !in truth
    ensures (exists c :: c in es && Selects(row, c)) <==> true in truth
  {
    forall i | 0 <= i < |es| ensures es[i] in es && truth[i] in truth {}
  }

  // ----- the graph's own meaning

  /** `rank` certifies that the graph has no cycle: every group outranks its children. */
  ghost predicate Ranks(byId: map<string, FilterNode>, rank: map<string, nat>) {
    && rank.Keys == byId.Keys
    && forall id, child :: id in byId && NodeType(byId[id]) == "group" && child in byId[id].childNodeIds && child in byId
         ==> rank[child] < rank[id]
  }

  lemma {:induction false} NamedChildrenAreChildren(ids: seq<string>)
    ensures forall c :: c in NamedChildren(ids) <==> c in ids && c != ""
  {
    if ids != [] { NamedChildrenAreChildren(ids[1..]); }
  }

  ghost function RankOf(rank: map<string, nat>, id: string): nat {
    if id in rank then rank[id] + 1 else 0
  }

  /** What the graph itself asks of a row, read off node by node without walking any path. */
  ghost predicate GraphSelects(row: Row, byId: map<string, FilterNode>, rank: map<string, nat>, id: string, bind: bool)
    requires Ranks(byId, rank)
    decreases RankOf(rank, id), 0
  {
    if id !in byId then row.onInvalid(UNKNOWN_CHILD)
    else
      var n := byId[id];
      var op := Lower(n.logicalOperator);
      if NodeType(n) == "predicate" then row.holds(RawPredicate(n, bind))
      else if NodeType(n) != "group" then row.onInvalid(NODE_TYPE)
      else if op == "and" then
        forall c :: c in n.childNodeIds && c != "" ==> GraphSelects(row, byId, rank, c, bind)
      else if op == "or" then
        exists c :: c in n.childNodeIds && c != "" && GraphSelects(row, byId, rank, c, bind)
      else
        NamedChildrenAreChildren(n.childNodeIds);
        row.onOther(op, GraphSelectsAll(row, byId, rank, id, NamedChildren(n.childNodeIds), bind))
  }

  ghost function GraphSelectsAll(row: Row, byId: map<string, FilterNode>, rank: map<string, nat>, parent: string, ids: seq<string>, bind: bool): (r: seq<bool>)
    requires Ranks(byId, rank)
    requires forall c :: c in ids ==> RankOf(rank, c) < RankOf(rank, parent)
    ensures |r| == |ids| && forall i :: 0 <= i < |ids| ==> r[i] == GraphSelects(row, byId, rank, ids[i], bind)
    decreases RankOf(rank, parent), 0, |ids|
  {
    if ids == [] then []
    else [GraphSelects(row, byId, rank, ids[0], bind)] + GraphSelectsAll(row, byId, rank, parent, ids[1..], bind)
  }

  /** The groups on the path outrank everything still to be visited. */
  ghost predicate Above(rank: map<string, nat>, path: set<string>, id: string) {
    forall p :: p in path ==> RankOf(rank, id) < RankOf(rank, p)
  }

  lemma {:induction false} UnfoldSelectsSameRows(row: Row, byId: map<string, FilterNode>, rank: map<string, nat>, path: set<string>, id: string, bind: bool)
    requires Ranks(byId, rank) && Above(rank, path, id)
    ensures Selects(row, Unfold(byId, path, id, bind)) == GraphSelects(row, byId, rank, id, bind)
    decreases byId.Keys - path
  {
    if id in byId && NodeType(byId[id]) == "group" {
      assert id in byId.Keys - path;
      var path' := path + {id};
      var ids := NamedChildren(byId[id].childNodeIds);
      var es := UnfoldAll(byId, path', ids, bind);
      NamedChildrenAreChildren(byId[id].childNodeIds);
      UnfoldAllAt(byId, path', ids, bind);
      var truth := SelectsAll(row, es);
      forall i | 0 <= i < |ids| ensures truth[i] == GraphSelects(row, byId, rank, ids[i], bind) {
        assert ids[i] in ids;
        assert Above(rank, path', ids[i]);
        UnfoldSelectsSameRows(row, byId, rank, path', ids[i], bind);
      }
      GraphTruthOfAll(row, byId, rank, id, truth, bind);
      TruthOfAll(row, es, truth);
      assert Unfold(byId, path, id, bind) == Group(Lower(byId[id].logicalOperator), es);
    }
  }

  lemma GraphTruthOfAll(row: Row, byId: map<string, FilterNode>, rank: map<string, nat>, id: string, truth: seq<bool>, bind: bool)
    requires Ranks(byId, rank) && id in byId && NodeType(byId[id]) == "group"
    requires var ids := NamedChildren(byId[id].childNodeIds);
             |truth| == |ids| && forall i :: 0 <= i < |ids| ==> truth[i] == GraphSelects(row, byId, rank, ids[i], bind)
    ensures GraphSelects(row, byId, rank, id, bind) ==
            var op := Lower(byId[id].logicalOperator);
            if op == "and" then false !in truth else if op == "or" then true in truth else row.onOther(op, truth)
  {
    var n := byId[id];
    var ids := NamedChildren(n.childNodeIds);
    var op := Lower(n.logicalOperator);
    NamedChildrenAreChildren(n.childNodeIds);
    if op == "and" || op == "or" {
      forall i | 0 <= i < |ids| ensures ids[i] in ids && truth[i] in truth {}
      forall c ensures c in n.childNodeIds && c != "" <==> c in ids {}
    } else {
      assert truth == GraphSelectsAll(row, byId, rank, id, ids, bind);
    }
  }

  lemma {:induction false} UnfoldAllAt(byId: map<string, FilterNode>, path: set<string>, ids: seq<string>, bind: bool)
    ensures |UnfoldAll(byId, path, ids, bind)| == |ids|
    ensures forall i :: 0 <= i < |ids| ==> UnfoldAll(byId, path, ids, bind)[i] == Unfold(byId, path, ids[i], bind)
    decreases |ids|
  {
    if ids != [] { UnfoldAllAt(byId, path, ids[1..], bind); }
  }

  /** Canonicalising an acyclic graph keeps its meaning: every row is selected by the canonical
      expression exactly when the graph selects it. */
  lemma CanonicalFormKeepsMeaning(row: Row, nodes: seq<FilterNode>, rank: map<string, nat>, rootId: string, bind: bool)
    requires TreatsMembershipAsSet(row)
    requires rootId != "" && Ranks(IndexNodes(nodes), rank)
    ensures var canonical := CanonicalExpression(nodes, rootId, bind);
            canonical.Rooted? && Selects(row, canonical.e) == GraphSelects(row, IndexNodes(nodes), rank, rootId, bind)
  {
    var byId := IndexNodes(nodes);
    var raw := Unfold(byId, {}, rootId, bind);
    VisitIsCanonOfUnfold(byId, {}, rootId, bind);
    CanonIsEquivalent(raw);
    EquivalentSelectSameRows(row, Canon(raw), raw);
    UnfoldSelectsSameRows(row, byId, rank, {}, rootId, bind);
  }

  /** Contracts with the same canonical form select the same rows. */
  lemma SameFormSelectsSameRows(row: Row, a: seq<FilterNode>, rankA: map<string, nat>, rootA: string,
                                b: seq<FilterNode>, rankB: map<string, nat>, rootB: string, bind: bool)
    requires TreatsMembershipAsSet(row)
    requires rootA != "" && rootB != "" && Ranks(IndexNodes(a), rankA) && Ranks(IndexNodes(b), rankB)
    requires CanonicalExpression(a, rootA, bind) == CanonicalExpression(b, rootB, bind)
    ensures GraphSelects(row, IndexNodes(a), rankA, rootA, bind) == GraphSelects(row, IndexNodes(b), rankB, rootB, bind)
  {
    CanonicalFormKeepsMeaning(row, a, rankA, rootA, bind);
    CanonicalFormKeepsMeaning(row, b, rankB, rootB, bind);
  }
}
