/**
 When the walk of `_canonical_filter_expression` reports a cycle: exactly when
 one is there to be met, and never for a shared child.
 */
module FilterCycles {
  import opened Text
  import opened Ordering
  import opened FilterGraph
  import opened FilterMeaning

  /** The expression reports a cycle somewhere. */
  ghost predicate Marked(e: Expr)
    decreases e
  {
    match e
    case Invalid(reason) => reason == CYCLE
    case Predicate(_, _, _) => false
    case Group(_, children) => exists c :: c in children && Marked(c)
  }

  /** `next` is a child that the walk visits from the group `id`. */
  ghost predicate Edge(byId: map<string, FilterNode>, id: string, next: string) {
    id in byId && NodeType(byId[id]) == "group" && next in byId[id].childNodeIds && next != ""
  }

  /** A chain of groups, each a child of the one before; the last node may be anything. */
  ghost predicate IsWalk(byId: map<string, FilterNode>, w: seq<string>) {
    w != [] && forall i :: 0 <= i < |w| - 1 ==> Edge(byId, w[i], w[i + 1])
  }

  /** The walk ends on a node it has passed before, or on one of `path`. */
  ghost predicate Closes(w: seq<string>, path: set<string>)
    requires w != []
  {
    w[|w| - 1] in path || w[|w| - 1] in w[..|w| - 1]
  }

  /** A walk from `id` that runs into itself or into `path`. */
  ghost predicate Lasso(byId: map<string, FilterNode>, w: seq<string>, id: string, path: set<string>) {
    IsWalk(byId, w) && w[0] == id && Closes(w, path)
  }

  lemma {:induction false} VisitAllAt(byId: map<string, FilterNode>, path: set<string>, ids: seq<string>, bind: bool)
    ensures |VisitAll(byId, path, ids, bind)| == |ids|
    ensures forall i :: 0 <= i < |ids| ==> VisitAll(byId, path, ids, bind)[i] == VisitNode(byId, path, ids[i], bind)
    decreases |ids|
  {
    if ids != [] { VisitAllAt(byId, path, ids[1..], bind); }
  }

  lemma OrderedKeepsMembers(op: string, es: seq<Expr>, e: Expr)
    ensures e in Ordered(op, es) <==> e in es
  {
    SortPermutes(Key, es);
    assert e in Ordered(op, es) <==> e in multiset(Ordered(op, es));
    assert e in es <==> e in multiset(es);
  }

  /** An operand of the visited group `id`: the visit of one of its children. */
  ghost predicate Operand(byId: map<string, FilterNode>, path: set<string>, id: string, bind: bool, e: Expr) {
    exists c :: Edge(byId, id, c) && e == VisitNode(byId, path + {id}, c, bind)
  }

  lemma VisitedChildren(byId: map<string, FilterNode>, path: set<string>, id: string, bind: bool, e: Expr)
    requires id in byId && NodeType(byId[id]) == "group"
    ensures e in VisitAll(byId, path + {id}, NamedChildren(byId[id].childNodeIds), bind) <==> Operand(byId, path, id, bind, e)
  {
    var ids := NamedChildren(byId[id].childNodeIds);
    var all := VisitAll(byId, path + {id}, ids, bind);
    NamedChildrenAreChildren(byId[id].childNodeIds);
    VisitAllAt(byId, path + {id}, ids, bind);
    if e in all {
      var i :| 0 <= i < |all| && all[i] == e;
      assert ids[i] in ids;
      assert Edge(byId, id, ids[i]);
    }
    if c :| Edge(byId, id, c) && e == VisitNode(byId, path + {id}, c, bind) {
      var i :| 0 <= i < |ids| && ids[i] == c;
      assert all[i] in all;
    }
  }

  /** The operands of a visited group are the visits of its children, in some order. */
  lemma GroupOperands(byId: map<string, FilterNode>, path: set<string>, id: string, bind: bool)
    requires id !in path && id in byId && NodeType(byId[id]) == "group"
    ensures VisitNode(byId, path, id, bind).Group?
    ensures forall e :: e in VisitNode(byId, path, id, bind).children <==> Operand(byId, path, id, bind, e)
  {
    forall e ensures e in VisitNode(byId, path, id, bind).children <==> Operand(byId, path, id, bind, e) {
      OrderedKeepsMembers(Lower(byId[id].logicalOperator),
                          VisitAll(byId, path + {id}, NamedChildren(byId[id].childNodeIds), bind), e);
      VisitedChildren(byId, path, id, bind, e);
    }
  }

  lemma ExtendLasso(byId: map<string, FilterNode>, v: seq<string>, id: string, path: set<string>)
    requires IsWalk(byId, v) && Closes(v, path + {id}) && Edge(byId, id, v[0])
    ensures Lasso(byId, [id] + v, id, path)
  {
    var w := [id] + v;
    assert w[..|w| - 1] == [id] + v[..|v| - 1];
    forall i | 0 <= i < |w| - 1 ensures Edge(byId, w[i], w[i + 1]) {
      if i > 0 { assert Edge(byId, v[i - 1], v[i - 1 + 1]); }
    }
  }

  lemma {:induction false} MarkHasLasso(byId: map<string, FilterNode>, path: set<string>, id: string, bind: bool) returns (w: seq<string>)
    requires Marked(VisitNode(byId, path, id, bind))
    ensures Lasso(byId, w, id, path)
    decreases byId.Keys - path
  {
    if id in path {
      w := [id];
    } else {
      assert id in byId && NodeType(byId[id]) == "group";
      assert id in byId.Keys - path;
      GroupOperands(byId, path, id, bind);
      var e :| e in VisitNode(byId, path, id, bind).children && Marked(e);
      assert Operand(byId, path, id, bind, e);
      var c :| Edge(byId, id, c) && e == VisitNode(byId, path + {id}, c, bind);
      var v := MarkHasLasso(byId, path + {id}, c, bind);
      w := [id] + v;
      ExtendLasso(byId, v, id, path);
    }
  }

  lemma {:induction false} LassoIsMarked(byId: map<string, FilterNode>, path: set<string>, id: string, w: seq<string>, bind: bool)
    requires Lasso(byId, w, id, path)
    ensures Marked(VisitNode(byId, path, id, bind))
    decreases |w|
  {
    if id !in path {
      assert |w| > 1;
      assert Edge(byId, w[0], w[0 + 1]);
      var v := w[1..];
      forall i | 0 <= i < |v| - 1 ensures Edge(byId, v[i], v[i + 1]) {
        assert Edge(byId, w[i + 1], w[i + 1 + 1]);
      }
      assert w[..|w| - 1] == [id] + v[..|v| - 1];
      LassoIsMarked(byId, path + {id}, v[0], v, bind);
      GroupOperands(byId, path, id, bind);
      assert Operand(byId, path, id, bind, VisitNode(byId, path + {id}, v[0], bind));
    }
  }

  /** The cycle marker appears exactly when a walk from the start node through groups runs into itself. */
  lemma CycleMarkerIsExact(byId: map<string, FilterNode>, id: string, bind: bool)
    ensures Marked(VisitNode(byId, {}, id, bind)) <==> exists w :: Lasso(byId, w, id, {})
  {
    if Marked(VisitNode(byId, {}, id, bind)) {
      var w := MarkHasLasso(byId, {}, id, bind);
    }
    if w :| Lasso(byId, w, id, {}) {
      LassoIsMarked(byId, {}, id, w, bind);
    }
  }

  /** An unflagged node expands the same way under every shorter path: a shared child is
      expanded in full each time it is met. */
  lemma {:induction false} UnmarkedForgetsPath(byId: map<string, FilterNode>, short: set<string>, path: set<string>, id: string, bind: bool)
    requires short <= path && !Marked(VisitNode(byId, path, id, bind))
    ensures VisitNode(byId, short, id, bind) == VisitNode(byId, path, id, bind)
    decreases byId.Keys - path
  {
    if id in byId && NodeType(byId[id]) == "group" {
      assert id in byId.Keys - path;
      var ids := NamedChildren(byId[id].childNodeIds);
      GroupOperands(byId, path, id, bind);
      NamedChildrenAreChildren(byId[id].childNodeIds);
      VisitAllAt(byId, path + {id}, ids, bind);
      VisitAllAt(byId, short + {id}, ids, bind);
      forall i | 0 <= i < |ids|
        ensures VisitNode(byId, short + {id}, ids[i], bind) == VisitNode(byId, path + {id}, ids[i], bind)
      {
        assert ids[i] in ids;
        assert Edge(byId, id, ids[i]);
        assert Operand(byId, path, id, bind, VisitNode(byId, path + {id}, ids[i], bind));
        UnmarkedForgetsPath(byId, short + {id}, path + {id}, ids[i], bind);
      }
      assert VisitAll(byId, short + {id}, ids, bind) == VisitAll(byId, path + {id}, ids, bind);
    }
  }

  lemma {:induction false} RankedIsUnmarked(byId: map<string, FilterNode>, rank: map<string, nat>, path: set<string>, id: string, bind: bool)
    requires Ranks(byId, rank) && Above(rank, path, id)
    ensures !Marked(VisitNode(byId, path, id, bind))
    decreases byId.Keys - path
  {
    if id in byId && NodeType(byId[id]) == "group" {
      assert id in byId.Keys - path;
      GroupOperands(byId, path, id, bind);
      forall e | e in VisitNode(byId, path, id, bind).children ensures !Marked(e) {
        var c :| Edge(byId, id, c) && e == VisitNode(byId, path + {id}, c, bind);
        RankedIsUnmarked(byId, rank, path + {id}, c, bind);
      }
    }
  }

  function Height(e: Expr): nat
    decreases e, 0
  {
    match e
    case Group(_, children) => 1 + HeightAll(children)
    case _ => 0
  }

  function HeightAll(es: seq<Expr>): (h: nat)
    ensures forall e :: e in es ==> Height(e) <= h
    decreases es, |es|
  {
    if es == [] then 0
    else
      var first, rest := Height(es[0]), HeightAll(es[1..]);
      assert forall e :: e in es ==> e == es[0] || e in es[1..];
      if first > rest then first else rest
  }

  /** The graph can be ranked, that is, has no cycle, exactly when no node is ever flagged. */
  lemma AcyclicIffUnmarked(byId: map<string, FilterNode>, bind: bool)
    requires "" !in byId
    ensures (exists rank :: Ranks(byId, rank)) <==> forall id :: id in byId ==> !Marked(VisitNode(byId, {}, id, bind))
  {
    if rank :| Ranks(byId, rank) {
      forall id | id in byId ensures !Marked(VisitNode(byId, {}, id, bind)) {
        RankedIsUnmarked(byId, rank, {}, id, bind);
      }
    }
    if forall id :: id in byId ==> !Marked(VisitNode(byId, {}, id, bind)) {
      var rank := map id | id in byId :: Height(VisitNode(byId, {}, id, bind));
      forall id, child | id in byId && NodeType(byId[id]) == "group" && child in byId[id].childNodeIds && child in byId
        ensures rank[child] < rank[id]
      {
        var e := VisitNode(byId, {}, id, bind);
        var c := VisitNode(byId, {} + {id}, child, bind);
        GroupOperands(byId, {}, id, bind);
        assert Edge(byId, id, child);
        assert Operand(byId, {}, id, bind, c);
        UnmarkedForgetsPath(byId, {}, {} + {id}, child, bind);
      }
      assert Ranks(byId, rank);
    }
  }
}
