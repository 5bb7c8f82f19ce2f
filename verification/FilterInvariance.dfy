/**
 What the canonical filter expression does not depend on: the node ids, the
 order of the node list, and the order of and/or children at any depth.
 */
module FilterInvariance {
  import opened Basics
  import opened Text
  import opened Ordering
  import opened FilterGraph
  import opened FilterMeaning
  import opened FilterCycles

  // ----- sorting makes the visiting order irrelevant

  lemma {:induction false} VisitsOfRearrangedIds(byId: map<string, FilterNode>, path: set<string>, a: seq<string>, b: seq<string>, bind: bool)
    requires multiset(a) == multiset(b)
    ensures SortBy(Key, VisitAll(byId, path, a, bind)) == SortBy(Key, VisitAll(byId, path, b, bind))
  {
    var p := SameMultisetHasPermutation(a, b);
    VisitAllAt(byId, path, a, bind);
    VisitAllAt(byId, path, b, bind);
    PermutationKeepsMultiset(VisitAll(byId, path, a, bind), VisitAll(byId, path, b, bind), p);
    KeyIsInjective();
    SortForgetsOrder(Key, VisitAll(byId, path, a, bind), VisitAll(byId, path, b, bind));
  }

  /** Without a root the ids are visited in id order; any other order gives the same list. */
  lemma RootlessVisitOrder(nodes: seq<FilterNode>, ids: seq<string>, bind: bool)
    requires multiset(ids) == multiset(IndexOrder(nodes))
    ensures CanonicalExpression(nodes, "", bind)
         == Rootless(SortBy(Key, VisitAll(IndexNodes(nodes), {}, ids, bind)))
  {
    SortPermutes((s: string) => s, IndexOrder(nodes));
    VisitsOfRearrangedIds(IndexNodes(nodes), {}, SortedIds(nodes), ids, bind);
  }

  // ----- renaming

  function MapIds(f: string -> string, ids: seq<string>): (r: seq<string>) {
    seq(|ids|, i requires 0 <= i < |ids| => f(ids[i]))
  }

  function RenameNode(f: string -> string, n: FilterNode): FilterNode {
    n.(nodeId := f(n.nodeId), childNodeIds := MapIds(f, n.childNodeIds))
  }

  function RenameNodes(f: string -> string, nodes: seq<FilterNode>): seq<FilterNode> {
    seq(|nodes|, i requires 0 <= i < |nodes| => RenameNode(f, nodes[i]))
  }

  ghost predicate InjectiveOn(f: string -> string, ids: set<string>) {
    forall x, y :: x in ids && y in ids && f(x) == f(y) ==> x == y
  }

  /** `ids` has every id the list mentions, as a node or as a child, and the empty id. */
  ghost predicate Mentions(nodes: seq<FilterNode>, ids: set<string>) {
    && "" in ids
    && forall n :: n in nodes ==> n.nodeId in ids && forall c :: c in n.childNodeIds ==> c in ids
  }

  /** `renamed` is `byId` with every id replaced by its image. */
  ghost predicate RenamedIndex(f: string -> string, ids: set<string>, byId: map<string, FilterNode>, renamed: map<string, FilterNode>) {
    forall id :: id in ids ==>
      && (f(id) in renamed <==> id in byId)
      && (id in byId ==> renamed[f(id)] == RenameNode(f, byId[id]) && forall c :: c in byId[id].childNodeIds ==> c in ids)
  }

  lemma {:induction false} IndexOfRenamed(f: string -> string, ids: set<string>, nodes: seq<FilterNode>)
    requires Mentions(nodes, ids) && InjectiveOn(f, ids) && f("") == ""
    ensures RenamedIndex(f, ids, IndexNodes(nodes), IndexNodes(RenameNodes(f, nodes)))
    ensures IndexOrder(RenameNodes(f, nodes)) == MapIds(f, IndexOrder(nodes))
    ensures forall id :: id in IndexOrder(nodes) ==> id in ids
  {
    if nodes != [] {
      var renamed, init := RenameNodes(f, nodes), nodes[..|nodes| - 1];
      var n := nodes[|nodes| - 1];
      assert renamed[..|renamed| - 1] == RenameNodes(f, init);
      assert n in nodes;
      IndexOfRenamed(f, ids, init);
      IndexOrderListsKeys(init);
      IndexOrderListsKeys(RenameNodes(f, init));
      assert n.nodeId in IndexNodes(init) <==> n.nodeId in Elements(IndexOrder(init));
      assert f(n.nodeId) in IndexNodes(RenameNodes(f, init)) <==> f(n.nodeId) in Elements(IndexOrder(RenameNodes(f, init)));
      assert f(n.nodeId) == "" <==> n.nodeId == "";
      if n.nodeId != "" && n.nodeId !in IndexOrder(init) {
        assert MapIds(f, IndexOrder(init) + [n.nodeId]) == MapIds(f, IndexOrder(init)) + [f(n.nodeId)];
      }
    }
  }

  lemma {:induction false} NamedChildrenOfRenamed(f: string -> string, ids: set<string>, children: seq<string>)
    requires "" in ids && InjectiveOn(f, ids) && f("") == ""
    requires forall c :: c in children ==> c in ids
    ensures NamedChildren(MapIds(f, children)) == MapIds(f, NamedChildren(children))
  {
    if children != [] {
      assert MapIds(f, children)[1..] == MapIds(f, children[1..]);
      NamedChildrenOfRenamed(f, ids, children[1..]);
      assert children[0] in children;
    }
  }

  ghost predicate RenamedPath(f: string -> string, ids: set<string>, path: set<string>, renamed: set<string>) {
    forall id :: id in ids ==> (f(id) in renamed <==> id in path)
  }

  lemma {:induction false} VisitOfRenamed(f: string -> string, ids: set<string>, byId: map<string, FilterNode>, byId': map<string, FilterNode>,
                                          path: set<string>, path': set<string>, id: string, bind: bool)
    requires "" in ids && id in ids && InjectiveOn(f, ids) && f("") == ""
    requires RenamedIndex(f, ids, byId, byId') && RenamedPath(f, ids, path, path')
    ensures VisitNode(byId', path', f(id), bind) == VisitNode(byId, path, id, bind)
    decreases byId.Keys - path, 0
  {
    if id !in path && id in byId && NodeType(byId[id]) == "group" {
      assert id in byId.Keys - path;
      NamedChildrenOfRenamed(f, ids, byId[id].childNodeIds);
      NamedChildrenAreChildren(byId[id].childNodeIds);
      assert RenamedPath(f, ids, path + {id}, path' + {f(id)});
      VisitsOfRenamed(f, ids, byId, byId', path + {id}, path' + {f(id)}, NamedChildren(byId[id].childNodeIds), bind);
    }
  }

  lemma {:induction false} VisitsOfRenamed(f: string -> string, ids: set<string>, byId: map<string, FilterNode>, byId': map<string, FilterNode>,
                                           path: set<string>, path': set<string>, list: seq<string>, bind: bool)
    requires "" in ids && InjectiveOn(f, ids) && f("") == ""
    requires forall c :: c in list ==> c in ids
    requires RenamedIndex(f, ids, byId, byId') && RenamedPath(f, ids, path, path')
    ensures VisitAll(byId', path', MapIds(f, list), bind) == VisitAll(byId, path, list, bind)
    decreases byId.Keys - path, |list| + 1
  {
    if list != [] {
      VisitOfRenamed(f, ids, byId, byId', path, path', list[0], bind);
      assert MapIds(f, list)[1..] == MapIds(f, list[1..]);
      VisitsOfRenamed(f, ids, byId, byId', path, path', list[1..], bind);
    }
  }

  /** Renaming every id (children and root alike) leaves the canonical form as it is. */
  lemma RenamingChangesNothing(f: string -> string, ids: set<string>, nodes: seq<FilterNode>, rootId: string, bind: bool)
    requires Mentions(nodes, ids) && rootId in ids && InjectiveOn(f, ids) && f("") == ""
    ensures CanonicalExpression(RenameNodes(f, nodes), f(rootId), bind) == CanonicalExpression(nodes, rootId, bind)
  {
    var byId, byId' := IndexNodes(nodes), IndexNodes(RenameNodes(f, nodes));
    IndexOfRenamed(f, ids, nodes);
    if rootId != "" {
      assert f(rootId) != "";
      VisitOfRenamed(f, ids, byId, byId', {}, {}, rootId, bind);
    } else {
      var order := IndexOrder(nodes);
      RootlessVisitOrder(nodes, order, bind);
      RootlessVisitOrder(RenameNodes(f, nodes), MapIds(f, order), bind);
      VisitsOfRenamed(f, ids, byId, byId', {}, {}, order, bind);
    }
  }

  // ----- the order of the node list

  ghost predicate DistinctIds(nodes: seq<FilterNode>) {
    forall i, j :: 0 <= i < j < |nodes| && nodes[i].nodeId != "" ==> nodes[i].nodeId != nodes[j].nodeId
  }

  lemma LastIdIsNew(nodes: seq<FilterNode>)
    requires nodes != [] && DistinctIds(nodes) && nodes[|nodes| - 1].nodeId != ""
    ensures forall m :: m in nodes[..|nodes| - 1] ==> m.nodeId != nodes[|nodes| - 1].nodeId
  {
    forall m | m in nodes[..|nodes| - 1] ensures m.nodeId != nodes[|nodes| - 1].nodeId {
      var k :| 0 <= k < |nodes| - 1 && nodes[k] == m;
    }
  }

  lemma {:induction false} IndexHoldsNodes(nodes: seq<FilterNode>)
    requires DistinctIds(nodes)
    ensures forall n :: n in nodes && n.nodeId != "" ==> n.nodeId in IndexNodes(nodes) && IndexNodes(nodes)[n.nodeId] == n
    ensures forall id :: id in IndexNodes(nodes) ==> id != "" && IndexNodes(nodes)[id] in nodes && IndexNodes(nodes)[id].nodeId == id
  {
    if nodes != [] {
      var init, n := nodes[..|nodes| - 1], nodes[|nodes| - 1];
      IndexHoldsNodes(init);
      if n.nodeId != "" { LastIdIsNew(nodes); }
      assert nodes == init + [n];
    }
  }

  /** Of several nodes with the same id the first is indexed, and nodes without an id are not. */
  lemma {:induction false} FirstNodeWins(nodes: seq<FilterNode>, k: nat)
    requires k < |nodes| && nodes[k].nodeId != "" && forall i :: 0 <= i < k ==> nodes[i].nodeId != nodes[k].nodeId
    ensures nodes[k].nodeId in IndexNodes(nodes) && IndexNodes(nodes)[nodes[k].nodeId] == nodes[k]
    ensures "" !in IndexNodes(nodes)
  {
    var init, n := nodes[..|nodes| - 1], nodes[|nodes| - 1];
    if k < |init| {
      FirstNodeWins(init, k);
    } else {
      NotIndexed(init, n.nodeId);
      NotIndexed(init, "");
    }
  }

  lemma {:induction false} NotIndexed(nodes: seq<FilterNode>, id: string)
    requires id == "" || forall i :: 0 <= i < |nodes| ==> nodes[i].nodeId != id
    ensures id !in IndexNodes(nodes)
  {
    if nodes != [] { NotIndexed(nodes[..|nodes| - 1], id); }
  }

  lemma SameNodesSameIndex(a: seq<FilterNode>, b: seq<FilterNode>)
    requires DistinctIds(a) && DistinctIds(b) && multiset(a) == multiset(b)
    ensures IndexNodes(a) == IndexNodes(b)
  {
    IndexHoldsNodes(a);
    IndexHoldsNodes(b);
    forall n ensures n in a <==> n in b {
      assert n in a <==> n in multiset(a);
      assert n in b <==> n in multiset(b);
    }
    forall id ensures id in IndexNodes(a) <==> id in IndexNodes(b) {
      if id in IndexNodes(a) { assert IndexNodes(a)[id] in b; }
      if id in IndexNodes(b) { assert IndexNodes(b)[id] in a; }
    }
  }

  /** Listing nodes with distinct ids in another order leaves the canonical form as it is. */
  lemma NodeOrderChangesNothing(a: seq<FilterNode>, b: seq<FilterNode>, rootId: string, bind: bool)
    requires DistinctIds(a) && DistinctIds(b) && multiset(a) == multiset(b)
    ensures CanonicalExpression(a, rootId, bind) == CanonicalExpression(b, rootId, bind)
  {
    SameNodesSameIndex(a, b);
    if rootId == "" {
      IndexOrderListsKeys(a);
      IndexOrderListsKeys(b);
      NoDuplicatesMultiset(IndexOrder(a));
      NoDuplicatesMultiset(IndexOrder(b));
      RootlessVisitOrder(a, IndexOrder(a), bind);
      RootlessVisitOrder(b, IndexOrder(a), bind);
    }
  }

  // ----- the order of children

  /** The same node, the children of an and/or group listed in any order. */
  ghost predicate SameUpToChildOrder(n: FilterNode, m: FilterNode) {
    && n.(childNodeIds := []) == m.(childNodeIds := [])
    && if Lower(n.logicalOperator) == "and" || Lower(n.logicalOperator) == "or"
       then multiset(n.childNodeIds) == multiset(m.childNodeIds)
       else n.childNodeIds == m.childNodeIds
  }

  ghost predicate SameIndexUpToChildOrder(a: map<string, FilterNode>, b: map<string, FilterNode>) {
    a.Keys == b.Keys && forall id :: id in a ==> SameUpToChildOrder(a[id], b[id])
  }

  lemma {:induction false} NamedChildrenMultiset(ids: seq<string>)
    ensures multiset(NamedChildren(ids)) == multiset(ids)["" := 0]
  {
    if ids != [] {
      NamedChildrenMultiset(ids[1..]);
      assert ids == [ids[0]] + ids[1..];
    }
  }

  lemma {:induction false} NamedConcat(a: seq<string>, b: seq<string>)
    ensures NamedChildren(a + b) == NamedChildren(a) + NamedChildren(b)
  {
    if a == [] {
      assert a + b == b;
    } else {
      var head := if a[0] == "" then [] else [a[0]];
      NamedConcat(a[1..], b);
      assert (a + b)[0] == a[0] && (a + b)[1..] == a[1..] + b;
      ConcatAssociates(head, NamedChildren(a[1..]), NamedChildren(b));
    }
  }

  /** Children are visited in the order in which they are listed; blank ids are passed over. */
  lemma ChildrenInOrder(front: seq<string>, id: string, back: seq<string>)
    ensures NamedChildren(front + [id] + back) == NamedChildren(front) + (if id == "" then [] else [id]) + NamedChildren(back)
  {
    NamedConcat(front + [id], back);
    NamedConcat(front, [id]);
  }

  lemma {:induction false} VisitUpToChildOrder(a: map<string, FilterNode>, b: map<string, FilterNode>, path: set<string>, id: string, bind: bool)
    requires SameIndexUpToChildOrder(a, b)
    ensures VisitNode(a, path, id, bind) == VisitNode(b, path, id, bind)
    decreases a.Keys - path, 0
  {
    if id in a {
      var n, m := a[id], b[id];
      assert n.(childNodeIds := []).operator == m.(childNodeIds := []).operator;
      assert PredicateOf(n.(childNodeIds := []), bind) == PredicateOf(m.(childNodeIds := []), bind);
      if id !in path && NodeType(n) == "group" {
        assert id in a.Keys - path;
        var op, x, y := Lower(n.logicalOperator), NamedChildren(n.childNodeIds), NamedChildren(m.childNodeIds);
        VisitsUpToChildOrder(a, b, path + {id}, x, bind);
        if Commutes(op) {
          NamedChildrenMultiset(n.childNodeIds);
          NamedChildrenMultiset(m.childNodeIds);
          VisitsOfRearrangedIds(b, path + {id}, x, y, bind);
        }
      }
    }
  }

  lemma {:induction false} VisitsUpToChildOrder(a: map<string, FilterNode>, b: map<string, FilterNode>, path: set<string>, ids: seq<string>, bind: bool)
    requires SameIndexUpToChildOrder(a, b)
    ensures VisitAll(a, path, ids, bind) == VisitAll(b, path, ids, bind)
    decreases a.Keys - path, |ids| + 1
  {
    if ids != [] {
      VisitUpToChildOrder(a, b, path, ids[0], bind);
      VisitsUpToChildOrder(a, b, path, ids[1..], bind);
    }
  }

  lemma {:induction false} IndexUpToChildOrder(a: seq<FilterNode>, b: seq<FilterNode>)
    requires |a| == |b| && forall i :: 0 <= i < |a| ==> SameUpToChildOrder(a[i], b[i])
    ensures SameIndexUpToChildOrder(IndexNodes(a), IndexNodes(b))
    ensures IndexOrder(a) == IndexOrder(b)
  {
    if a != [] {
      var k := |a| - 1;
      IndexUpToChildOrder(a[..k], b[..k]);
      assert SameUpToChildOrder(a[k], b[k]);
      assert a[k].nodeId == a[k].(childNodeIds := []).nodeId == b[k].nodeId;
    }
  }

  /** Permuting the children of and/or groups, in any nodes at once, leaves the canonical form as it is. */
  lemma ChildOrderChangesNothing(a: seq<FilterNode>, b: seq<FilterNode>, rootId: string, bind: bool)
    requires |a| == |b| && forall i :: 0 <= i < |a| ==> SameUpToChildOrder(a[i], b[i])
    ensures CanonicalExpression(a, rootId, bind) == CanonicalExpression(b, rootId, bind)
  {
    IndexUpToChildOrder(a, b);
    VisitUpToChildOrder(IndexNodes(a), IndexNodes(b), {}, rootId, bind);
    VisitsUpToChildOrder(IndexNodes(a), IndexNodes(b), {}, SortedIds(a), bind);
  }

  /** A root group over two predicate nodes, listed in this order or the other. */
  function TwoOperands(root: FilterNode, n: FilterNode, m: FilterNode, swapped: bool): seq<FilterNode> {
    [root.(childNodeIds := if swapped then [m.nodeId, n.nodeId] else [n.nodeId, m.nodeId]), n, m]
  }

  ghost predicate AreTwoOperands(root: FilterNode, n: FilterNode, m: FilterNode) {
    && Lower(root.nodeType) == "group" && Lower(n.nodeType) == "predicate" && Lower(m.nodeType) == "predicate"
    && root.nodeId != "" && n.nodeId != "" && m.nodeId != ""
    && root.nodeId != n.nodeId && root.nodeId != m.nodeId && n.nodeId != m.nodeId
  }

  lemma IndexOfTwo(root: FilterNode, n: FilterNode, m: FilterNode, swapped: bool)
    requires AreTwoOperands(root, n, m)
    ensures var nodes := TwoOperands(root, n, m, swapped);
            IndexNodes(nodes).Keys >= {root.nodeId, n.nodeId, m.nodeId}
            && IndexNodes(nodes)[root.nodeId] == nodes[0] && IndexNodes(nodes)[n.nodeId] == n && IndexNodes(nodes)[m.nodeId] == m
  {
    var nodes := TwoOperands(root, n, m, swapped);
    IndexHoldsNodes(nodes);
    assert nodes[0] in nodes && nodes[1] in nodes && nodes[2] in nodes;
  }

  lemma UnfoldTwo(byId: map<string, FilterNode>, path: set<string>, x: string, y: string, bind: bool)
    requires x in byId && y in byId && x !in path && y !in path && x != "" && y != ""
    requires NodeType(byId[x]) == "predicate" && NodeType(byId[y]) == "predicate"
    ensures NamedChildren([x, y]) == [x, y]
    ensures UnfoldAll(byId, path, [x, y], bind) == [RawPredicate(byId[x], bind), RawPredicate(byId[y], bind)]
  {
    var ids := [x, y];
    assert ids[1..] == [y] && [y][1..] == [];
    assert NamedChildren([y]) == [y];
    assert UnfoldAll(byId, path, [y], bind) == [RawPredicate(byId[y], bind)];
  }

  lemma FormOfTwo(root: FilterNode, n: FilterNode, m: FilterNode, swapped: bool, bind: bool)
    requires AreTwoOperands(root, n, m)
    ensures CanonicalExpression(TwoOperands(root, n, m, swapped), root.nodeId, bind)
         == Rooted(Canon(Group(Lower(root.logicalOperator),
              if swapped then [RawPredicate(m, bind), RawPredicate(n, bind)] else [RawPredicate(n, bind), RawPredicate(m, bind)])))
  {
    var byId := IndexNodes(TwoOperands(root, n, m, swapped));
    IndexOfTwo(root, n, m, swapped);
    var x, y := if swapped then m.nodeId else n.nodeId, if swapped then n.nodeId else m.nodeId;
    UnfoldTwo(byId, {} + {root.nodeId}, x, y, bind);
    VisitIsCanonOfUnfold(byId, {}, root.nodeId, bind);
    assert byId[root.nodeId].childNodeIds == [x, y];
  }

  /** Listing the two operands of a root group the other way round leaves the contract as it is exactly when the
      group is an `and` or an `or`, in whatever case, or both operands are the same filter. */
  lemma SwappedOperands(root: FilterNode, n: FilterNode, m: FilterNode, bind: bool)
    requires AreTwoOperands(root, n, m)
    ensures CanonicalExpression(TwoOperands(root, n, m, false), root.nodeId, bind)
         == CanonicalExpression(TwoOperands(root, n, m, true), root.nodeId, bind)
       <==> || Lower(root.logicalOperator) == "and" || Lower(root.logicalOperator) == "or"
            || Equivalent(RawPredicate(n, bind), RawPredicate(m, bind))
  {
    FormOfTwo(root, n, m, false, bind);
    FormOfTwo(root, n, m, true, bind);
    var op, x, y := Lower(root.logicalOperator), RawPredicate(n, bind), RawPredicate(m, bind);
    if Equivalent(x, y) {
      CanonIdentifies(x, y);
      SameOperands(op, x, y);
    } else {
      OperandOrderCounts(op, x, y);
    }
  }

  lemma SameOperands(op: string, x: Expr, y: Expr)
    requires Canon(x) == Canon(y)
    ensures Canon(Group(op, [x, y])) == Canon(Group(op, [y, x]))
  {
    CanonAllAt([x, y]);
    CanonAllAt([y, x]);
    assert CanonAll([x, y]) == CanonAll([y, x]);
  }
}
