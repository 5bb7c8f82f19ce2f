/**
 The runtime state reducers of `graph/state.py`: a keyed, capped list merge and
 the partial state update that applies it to the shared runtime lists.
 */
module StateReducers {
  import opened Basics
  import opened Json
  import opened Dumps
  import opened KeyNames

  /** A list item, as its dictionary. */
  type Item = map<string, Value>

  // ----- identity of an item

  function FirstTruthy(item: Item, keys: seq<string>): string {
    if keys == [] then ""
    else if keys[0] in item && Truthy(item[keys[0]]) then TextOf(item[keys[0]])
    else FirstTruthy(item, keys[1..])
  }

  /** state_item_id */
  function ItemId(item: Item, idKey: string): string {
    FirstTruthy(item, [idKey, Snake(idKey, false), "id", "taskId", "task_id", "toolCallId", "tool_call_id"])
  }

  // ----- merge_state_list

  function Anonymous(items: seq<Item>, idKey: string): seq<Item> {
    if items == [] then []
    else (if ItemId(items[0], idKey) == "" then [items[0]] else []) + Anonymous(items[1..], idKey)
  }

  /** Assignment to an insertion-ordered dictionary: a known id keeps its place. */
  function Upsert(deduped: seq<Item>, item: Item, idKey: string): seq<Item> {
    if deduped == [] then [item]
    else if ItemId(deduped[0], idKey) == ItemId(item, idKey) then [item] + deduped[1..]
    else [deduped[0]] + Upsert(deduped[1..], item, idKey)
  }

  /** Assign every item that has an id, in order. */
  function UpsertAll(deduped: seq<Item>, items: seq<Item>, idKey: string): seq<Item>
    decreases |items|
  {
    if items == [] then deduped
    else UpsertAll(if ItemId(items[0], idKey) == "" then deduped else Upsert(deduped, items[0], idKey), items[1..], idKey)
  }

  function Keyed(items: seq<Item>, idKey: string): seq<Item> { UpsertAll([], items, idKey) }

  /** The merged list before it is cut. */
  function Uncapped(items: seq<Item>, idKey: string): seq<Item> { Anonymous(items, idKey) + Keyed(items, idKey) }

  /** `merged[-limit:] if limit > 0 else merged` */
  function Cap<T>(s: seq<T>, limit: int): seq<T> {
    if 0 < limit < |s| then s[|s| - limit..] else s
  }

  function Merge(existing: seq<Item>, incoming: seq<Item>, idKey: string, limit: int): seq<Item> {
    Cap(Uncapped(existing + incoming, idKey), limit)
  }

  method MergeStateList(existing: seq<Item>, incoming: seq<Item>, idKey: string, limit: int) returns (merged: seq<Item>)
    ensures merged == Merge(existing, incoming, idKey, limit)
  {
    var items := existing + incoming;
    var deduped: map<string, Item> := map[];
    var order: seq<string> := [];  // the insertion order of the dictionary
    var anonymous: seq<Item> := [];
    for i := 0 to |items|
      invariant OrderedDict(deduped, order, idKey)
      invariant IsSorted(items, i, anonymous, Listed(deduped, order), idKey)
    {
      var itemId := ItemId(items[i], idKey);
      NextEntry(items, i, anonymous, deduped, order, idKey);
      if itemId != "" {
        order := if itemId in deduped then order else order + [itemId];
        deduped := deduped[itemId := items[i]];
      } else {
        anonymous := anonymous + [items[i]];
      }
    }
    AllItems(items, anonymous, Listed(deduped, order), idKey);
    merged := anonymous + Listed(deduped, order);
    if 0 < limit < |merged| { merged := merged[|merged| - limit..]; }
  }

  /** The first `i` items are sorted into those without an id and the dictionary. */
  ghost predicate IsSorted(items: seq<Item>, i: nat, anonymous: seq<Item>, listed: seq<Item>, idKey: string) {
    && i <= |items|
    && anonymous + Anonymous(items[i..], idKey) == Anonymous(items, idKey)
    && UpsertAll(listed, items[i..], idKey) == Keyed(items, idKey)
  }

  lemma AllItems(items: seq<Item>, anonymous: seq<Item>, listed: seq<Item>, idKey: string)
    requires IsSorted(items, |items|, anonymous, listed, idKey)
    ensures anonymous == Anonymous(items, idKey) && listed == Keyed(items, idKey)
  {
    assert items[|items|..] == [];
  }

  lemma NextItem(items: seq<Item>, i: nat, anonymous: seq<Item>, listed: seq<Item>, idKey: string)
    requires i < |items| && IsSorted(items, i, anonymous, listed, idKey)
    ensures ItemId(items[i], idKey) == "" ==> IsSorted(items, i + 1, anonymous + [items[i]], listed, idKey)
    ensures ItemId(items[i], idKey) != "" ==> IsSorted(items, i + 1, anonymous, Upsert(listed, items[i], idKey), idKey)
  {
    assert items[i..][0] == items[i] && items[i..][1..] == items[i + 1..];
    ConcatAssociates(anonymous, [items[i]], Anonymous(items[i + 1..], idKey));
  }

  /** One round of the loop. */
  lemma NextEntry(items: seq<Item>, i: nat, anonymous: seq<Item>, deduped: map<string, Item>, order: seq<string>, idKey: string)
    requires i < |items| && OrderedDict(deduped, order, idKey) && IsSorted(items, i, anonymous, Listed(deduped, order), idKey)
    ensures ItemId(items[i], idKey) == "" ==> IsSorted(items, i + 1, anonymous + [items[i]], Listed(deduped, order), idKey)
    ensures var id := ItemId(items[i], idKey);
            var order' := if id in deduped then order else order + [id];
            id != "" ==> && OrderedDict(deduped[id := items[i]], order', idKey)
                         && IsSorted(items, i + 1, anonymous, Listed(deduped[id := items[i]], order'), idKey)
  {
    NextItem(items, i, anonymous, Listed(deduped, order), idKey);
    AssignIsUpsert(deduped, order, items[i], idKey);
  }

  /** `order` lists the keys once, and each key is the id of its item. */
  ghost predicate OrderedDict(deduped: map<string, Item>, order: seq<string>, idKey: string) {
    && (forall i :: 0 <= i < |order| ==> order[i] in deduped && ItemId(deduped[order[i]], idKey) == order[i])
    && (forall k :: k in deduped ==> k in order)
    && (forall i, j :: 0 <= i < j < |order| ==> order[i] != order[j])
  }

  /** `deduped.values()` */
  function Listed(deduped: map<string, Item>, order: seq<string>): seq<Item>
    requires forall i :: 0 <= i < |order| ==> order[i] in deduped
  {
    seq(|order|, i requires 0 <= i < |order| => deduped[order[i]])
  }

  lemma AssignIsUpsert(deduped: map<string, Item>, order: seq<string>, item: Item, idKey: string)
    requires OrderedDict(deduped, order, idKey)
    ensures var id := ItemId(item, idKey);
            var order' := if id in deduped then order else order + [id];
            && OrderedDict(deduped[id := item], order', idKey)
            && Listed(deduped[id := item], order') == Upsert(Listed(deduped, order), item, idKey)
  {
    var id := ItemId(item, idKey);
    if id in deduped {
      AssignKnown(deduped, order, item, idKey);
    } else {
      AssignNew(deduped, order, item, idKey);
    }
  }

  lemma AssignKnown(deduped: map<string, Item>, order: seq<string>, item: Item, idKey: string)
    requires OrderedDict(deduped, order, idKey) && ItemId(item, idKey) in deduped
    ensures var updated := deduped[ItemId(item, idKey) := item];
            OrderedDict(updated, order, idKey) && Listed(updated, order) == Upsert(Listed(deduped, order), item, idKey)
  {
    var k :| 0 <= k < |order| && order[k] == ItemId(item, idKey);
    UpsertAt(Listed(deduped, order), item, idKey, k);
    assert Listed(deduped[order[k] := item], order) == Listed(deduped, order)[k := item];
  }

  lemma AssignNew(deduped: map<string, Item>, order: seq<string>, item: Item, idKey: string)
    requires OrderedDict(deduped, order, idKey) && ItemId(item, idKey) !in deduped
    ensures var id := ItemId(item, idKey);
            && OrderedDict(deduped[id := item], order + [id], idKey)
            && Listed(deduped[id := item], order + [id]) == Upsert(Listed(deduped, order), item, idKey)
  {
    UpsertNew(Listed(deduped, order), item, idKey);
  }

  lemma {:induction false} UpsertAt(listed: seq<Item>, item: Item, idKey: string, k: nat)
    requires k < |listed| && ItemId(listed[k], idKey) == ItemId(item, idKey)
    requires forall i :: 0 <= i < k ==> ItemId(listed[i], idKey) != ItemId(item, idKey)
    ensures Upsert(listed, item, idKey) == listed[k := item]
  {
    if k > 0 { UpsertAt(listed[1..], item, idKey, k - 1); }
  }

  lemma {:induction false} UpsertNew(listed: seq<Item>, item: Item, idKey: string)
    requires forall i :: 0 <= i < |listed| ==> ItemId(listed[i], idKey) != ItemId(item, idKey)
    ensures Upsert(listed, item, idKey) == listed + [item]
  {
    if listed != [] { UpsertNew(listed[1..], item, idKey); }
  }

  // ----- what a merged list holds

  /** Every id occurs once, and only items with an id are there. */
  ghost predicate UniqueIds(s: seq<Item>, idKey: string) {
    && (forall i :: 0 <= i < |s| ==> ItemId(s[i], idKey) != "")
    && (forall i, j :: 0 <= i < j < |s| ==> ItemId(s[i], idKey) != ItemId(s[j], idKey))
  }

  /** The last item written under an id. */
  ghost predicate LastWritten(items: seq<Item>, item: Item, idKey: string) {
    exists k :: 0 <= k < |items| && items[k] == item
      && forall j :: k < j < |items| ==> ItemId(items[j], idKey) != ItemId(item, idKey)
  }

  lemma {:induction false} UpsertShape(s: seq<Item>, item: Item, idKey: string)
    requires UniqueIds(s, idKey) && ItemId(item, idKey) != ""
    ensures UniqueIds(Upsert(s, item, idKey), idKey)
    ensures |s| <= |Upsert(s, item, idKey)| <= |s| + 1
    ensures forall x :: x in Upsert(s, item, idKey) <==> x == item || (x in s && ItemId(x, idKey) != ItemId(item, idKey))
  {
    if k: nat :| k < |s| && ItemId(s[k], idKey) == ItemId(item, idKey) {
      UpsertAt(s, item, idKey, k);
      forall x | x in s && ItemId(x, idKey) != ItemId(item, idKey) ensures x in s[k := item] {
        var i :| 0 <= i < |s| && s[i] == x;
        assert s[k := item][i] == x;
      }
      assert s[k := item][k] == item;
    } else {
      UpsertNew(s, item, idKey);
    }
  }

  lemma {:induction false} UpsertAllShape(s: seq<Item>, items: seq<Item>, idKey: string)
    requires UniqueIds(s, idKey)
    ensures UniqueIds(UpsertAll(s, items, idKey), idKey)
    ensures |s| <= |UpsertAll(s, items, idKey)|
    decreases |items|
  {
    if items != [] {
      if ItemId(items[0], idKey) != "" {
        UpsertShape(s, items[0], idKey);
        UpsertAllShape(Upsert(s, items[0], idKey), items[1..], idKey);
      } else {
        UpsertAllShape(s, items[1..], idKey);
      }
    }
  }

  lemma {:induction false} UpsertAllConcat(s: seq<Item>, a: seq<Item>, b: seq<Item>, idKey: string)
    ensures UpsertAll(s, a + b, idKey) == UpsertAll(UpsertAll(s, a, idKey), b, idKey)
    decreases |a|
  {
    if a == [] {
      assert a + b == b;
    } else {
      assert (a + b)[1..] == a[1..] + b;
      UpsertAllConcat(if ItemId(a[0], idKey) == "" then s else Upsert(s, a[0], idKey), a[1..], b, idKey);
    }
  }

  lemma {:induction false} AnonymousConcat(a: seq<Item>, b: seq<Item>, idKey: string)
    ensures Anonymous(a + b, idKey) == Anonymous(a, idKey) + Anonymous(b, idKey)
  {
    if a == [] {
      assert a + b == b;
    } else {
      assert (a + b)[1..] == a[1..] + b;
      AnonymousConcat(a[1..], b, idKey);
    }
  }

  lemma {:induction false} AnonymousHaveNoId(items: seq<Item>, idKey: string)
    ensures forall x :: x in Anonymous(items, idKey) ==> ItemId(x, idKey) == "" && x in items
  {
    if items != [] { AnonymousHaveNoId(items[1..], idKey); }
  }

  /** Appending one item to the input. */
  lemma KeyedSnoc(items: seq<Item>, item: Item, idKey: string)
    ensures Keyed(items + [item], idKey)
         == if ItemId(item, idKey) == "" then Keyed(items, idKey) else Upsert(Keyed(items, idKey), item, idKey)
  {
    UpsertAllConcat([], items, [item], idKey);
    assert [item][1..] == [];
  }

  /** The keyed part holds, for every id written, exactly the item last written under it. */
  lemma {:induction false} KeyedHoldsLastWritten(items: seq<Item>, idKey: string)
    ensures UniqueIds(Keyed(items, idKey), idKey)
    ensures forall x :: x in Keyed(items, idKey) <==> ItemId(x, idKey) != "" && LastWritten(items, x, idKey)
    decreases |items|
  {
    if items != [] {
      var init, last := items[..|items| - 1], items[|items| - 1];
      assert items == init + [last];
      KeyedHoldsLastWritten(init, idKey);
      KeyedSnoc(init, last, idKey);
      if ItemId(last, idKey) != "" { UpsertShape(Keyed(init, idKey), last, idKey); }
      forall x | ItemId(x, idKey) != ""
        ensures LastWritten(items, x, idKey)
           <==> x == last || (LastWritten(init, x, idKey) && ItemId(x, idKey) != ItemId(last, idKey))
      {
        LastWrittenSnoc(init, last, x, idKey);
      }
    }
  }

  function IdsOf(items: seq<Item>, idKey: string): seq<string> {
    seq(|items|, i requires 0 <= i < |items| => ItemId(items[i], idKey))
  }

  /** The ids that are written, in order. */
  function WrittenIds(items: seq<Item>, idKey: string): seq<string> {
    if items == [] then []
    else WrittenIds(items[..|items| - 1], idKey)
         + (if ItemId(items[|items| - 1], idKey) == "" then [] else [ItemId(items[|items| - 1], idKey)])
  }

  lemma UpsertIds(s: seq<Item>, item: Item, idKey: string)
    ensures var ids, id := IdsOf(s, idKey), ItemId(item, idKey);
            IdsOf(Upsert(s, item, idKey), idKey) == if id in ids then ids else ids + [id]
  {
    if ItemId(item, idKey) in IdsOf(s, idKey) { UpsertKnownId(s, item, idKey); } else { UpsertNewId(s, item, idKey); }
  }

  lemma UpsertKnownId(s: seq<Item>, item: Item, idKey: string)
    requires ItemId(item, idKey) in IdsOf(s, idKey)
    ensures IdsOf(Upsert(s, item, idKey), idKey) == IdsOf(s, idKey)
  {
    var k := FirstId(s, item, idKey);
    UpsertAt(s, item, idKey, k);
    SameIds(s, s[k := item], idKey);
  }

  lemma UpsertNewId(s: seq<Item>, item: Item, idKey: string)
    requires ItemId(item, idKey) !in IdsOf(s, idKey)
    ensures IdsOf(Upsert(s, item, idKey), idKey) == IdsOf(s, idKey) + [ItemId(item, idKey)]
  {
    var ids := IdsOf(s, idKey);
    forall i | 0 <= i < |s| ensures ItemId(s[i], idKey) != ItemId(item, idKey) { assert ids[i] == ItemId(s[i], idKey); }
    UpsertNew(s, item, idKey);
    assert IdsOf(s + [item], idKey) == ids + [ItemId(item, idKey)];
  }

  lemma SameIds(s: seq<Item>, t: seq<Item>, idKey: string)
    requires |s| == |t| && forall i :: 0 <= i < |s| ==> ItemId(s[i], idKey) == ItemId(t[i], idKey)
    ensures IdsOf(s, idKey) == IdsOf(t, idKey)
  {
  }

  lemma {:induction false} FirstId(s: seq<Item>, item: Item, idKey: string) returns (k: nat)
    requires ItemId(item, idKey) in IdsOf(s, idKey)
    ensures k < |s| && ItemId(s[k], idKey) == ItemId(item, idKey)
    ensures forall i :: 0 <= i < k ==> ItemId(s[i], idKey) != ItemId(item, idKey)
  {
    if ItemId(s[0], idKey) == ItemId(item, idKey) {
      k := 0;
    } else {
      var i :| 0 <= i < |s| && IdsOf(s, idKey)[i] == ItemId(item, idKey);
      assert IdsOf(s[1..], idKey)[i - 1] == ItemId(item, idKey);
      var j := FirstId(s[1..], item, idKey);
      k := j + 1;
    }
  }

  /** The keyed part is in the order in which its ids were first written. */
  lemma {:induction false} KeyedKeepsFirstOrder(items: seq<Item>, idKey: string)
    ensures IdsOf(Keyed(items, idKey), idKey) == Dedup(WrittenIds(items, idKey))
    decreases |items|
  {
    if items != [] {
      var init, last := items[..|items| - 1], items[|items| - 1];
      assert items == init + [last];
      KeyedKeepsFirstOrder(init, idKey);
      KeyedSnoc(init, last, idKey);
      if ItemId(last, idKey) != "" {
        UpsertIds(Keyed(init, idKey), last, idKey);
        var ids := WrittenIds(init, idKey);
        assert WrittenIds(items, idKey) == ids + [ItemId(last, idKey)];
        assert (ids + [ItemId(last, idKey)])[..|ids|] == ids;
      } else {
        assert WrittenIds(items, idKey) == WrittenIds(init, idKey);
      }
    }
  }

  lemma LastWrittenSnoc(init: seq<Item>, last: Item, x: Item, idKey: string)
    ensures LastWritten(init + [last], x, idKey)
       <==> x == last || (LastWritten(init, x, idKey) && ItemId(x, idKey) != ItemId(last, idKey))
  {
    var items := init + [last];
    if x == last {
      assert items[|init|] == x;
    }
    if LastWritten(items, x, idKey) && x != last {
      var k :| 0 <= k < |items| && items[k] == x && forall j :: k < j < |items| ==> ItemId(items[j], idKey) != ItemId(x, idKey);
      assert items[|init|] == last;
      assert init[k] == x;
      forall j | k < j < |init| ensures ItemId(init[j], idKey) != ItemId(x, idKey) { assert items[j] == init[j]; }
    }
    if LastWritten(init, x, idKey) && ItemId(x, idKey) != ItemId(last, idKey) {
      var k :| 0 <= k < |init| && init[k] == x && forall j :: k < j < |init| ==> ItemId(init[j], idKey) != ItemId(x, idKey);
      assert items[k] == x;
    }
  }

  lemma KeyedIsUnique(items: seq<Item>, idKey: string)
    ensures UniqueIds(Keyed(items, idKey), idKey)
  {
    UpsertAllShape([], items, idKey);
  }

  /** A merge has at most `limit` items and is a suffix of the uncut merge. */
  lemma MergeIsSuffix(existing: seq<Item>, incoming: seq<Item>, idKey: string, limit: int)
    ensures limit > 0 ==> |Merge(existing, incoming, idKey, limit)| <= limit
    ensures var all, merged := Uncapped(existing + incoming, idKey), Merge(existing, incoming, idKey, limit);
            |merged| <= |all| && merged == all[|all| - |merged|..]
  {}

  /** In a merged list an item with an id sits in the keyed part. */
  lemma IdsSitInKeyed(items: seq<Item>, j: nat, idKey: string)
    requires j < |Uncapped(items, idKey)|
    ensures var a, k := Anonymous(items, idKey), Keyed(items, idKey);
            if j < |a| then ItemId(Uncapped(items, idKey)[j], idKey) == ""
            else Uncapped(items, idKey)[j] == k[j - |a|] && ItemId(k[j - |a|], idKey) != ""
  {
    var a := Anonymous(items, idKey);
    AnonymousHaveNoId(items, idKey);
    KeyedIsUnique(items, idKey);
    if j < |a| { assert a[j] in a; }
  }

  /** In a merge every id occurs once, with the item last written under it. */
  lemma MergeHoldsLastWritten(existing: seq<Item>, incoming: seq<Item>, idKey: string, limit: int, i: nat)
    requires i < |Merge(existing, incoming, idKey, limit)|
    requires ItemId(Merge(existing, incoming, idKey, limit)[i], idKey) != ""
    ensures var merged := Merge(existing, incoming, idKey, limit);
            && LastWritten(existing + incoming, merged[i], idKey)
            && forall j :: 0 <= j < |merged| && j != i ==> ItemId(merged[j], idKey) != ItemId(merged[i], idKey)
  {
    var items := existing + incoming;
    var all, merged := Uncapped(items, idKey), Merge(existing, incoming, idKey, limit);
    var cut := |all| - |merged|;
    IdsSitInKeyed(items, cut + i, idKey);
    KeyedIsUnique(items, idKey);
    forall j | 0 <= j < |merged| && j != i ensures ItemId(merged[j], idKey) != ItemId(merged[i], idKey) {
      IdsSitInKeyed(items, cut + j, idKey);
    }
    var k := Keyed(items, idKey);
    assert merged[i] == all[cut + i] && merged[i] in k;
    KeyedHoldsLastWritten(items, idKey);
  }

  // ----- incremental and batch merging

  /** A list already in merged form: anonymous items first, then distinct ids. */
  lemma {:induction false} MergedFormIsKept(a: seq<Item>, k: seq<Item>, idKey: string)
    requires forall x :: x in a ==> ItemId(x, idKey) == ""
    requires UniqueIds(k, idKey)
    ensures Anonymous(a + k, idKey) == a && Keyed(a + k, idKey) == k
  {
    AnonymousConcat(a, k, idKey);
    AllAnonymous(a, idKey);
    NoneAnonymous(k, idKey);
    UpsertAllConcat([], a, k, idKey);
    UpsertAnonymous([], a, idKey);
    KeyedOfUnique(k, idKey);
  }

  lemma {:induction false} AllAnonymous(a: seq<Item>, idKey: string)
    requires forall x :: x in a ==> ItemId(x, idKey) == ""
    ensures Anonymous(a, idKey) == a
  {
    if a != [] {
      assert a[0] in a;
      AllAnonymous(a[1..], idKey);
      assert a == [a[0]] + a[1..];
    }
  }

  lemma {:induction false} NoneAnonymous(k: seq<Item>, idKey: string)
    requires forall i :: 0 <= i < |k| ==> ItemId(k[i], idKey) != ""
    ensures Anonymous(k, idKey) == []
  {
    if k != [] { NoneAnonymous(k[1..], idKey); }
  }

  lemma {:induction false} UpsertAnonymous(s: seq<Item>, a: seq<Item>, idKey: string)
    requires forall x :: x in a ==> ItemId(x, idKey) == ""
    ensures UpsertAll(s, a, idKey) == s
    decreases |a|
  {
    if a != [] {
      assert a[0] in a;
      UpsertAnonymous(s, a[1..], idKey);
    }
  }

  lemma {:induction false} KeyedOfUnique(k: seq<Item>, idKey: string)
    requires UniqueIds(k, idKey)
    ensures Keyed(k, idKey) == k
    decreases |k|
  {
    if k != [] {
      var init, last := k[..|k| - 1], k[|k| - 1];
      assert k == init + [last];
      KeyedOfUnique(init, idKey);
      KeyedSnoc(init, last, idKey);
      UpsertNew(init, last, idKey);
    }
  }

  /** Merging nothing into a merged list is the identity. */
  lemma MergingNothing(existing: seq<Item>, incoming: seq<Item>, idKey: string, limit: int)
    ensures var merged := Merge(existing, incoming, idKey, limit);
            Merge(merged, [], idKey, limit) == merged
  {
    var items := existing + incoming;
    var merged := Merge(existing, incoming, idKey, limit);
    SuffixKeepsForm(Anonymous(items, idKey), Keyed(items, idKey), |Uncapped(items, idKey)| - |merged|, idKey) by {
      AnonymousHaveNoId(items, idKey);
      KeyedIsUnique(items, idKey);
    }
    assert merged + [] == merged;
  }

  lemma SuffixKeepsForm(a: seq<Item>, k: seq<Item>, cut: nat, idKey: string)
    requires cut <= |a + k|
    requires forall x :: x in a ==> ItemId(x, idKey) == ""
    requires UniqueIds(k, idKey)
    ensures Uncapped((a + k)[cut..], idKey) == (a + k)[cut..]
  {
    var a' := if cut <= |a| then a[cut..] else [];
    var k' := if cut <= |a| then k else k[cut - |a|..];
    assert (a + k)[cut..] == a' + k';
    MergedFormIsKept(a', k', idKey);
  }

  lemma CapForgetsFront<T>(front: seq<T>, short: seq<T>, rest: seq<T>, limit: int)
    requires |short| <= |front| && short == front[|front| - |short|..]
    requires short == front || 0 < limit <= |short| + |rest|
    ensures Cap(short + rest, limit) == Cap(front + rest, limit)
  {}

  /** The ids seen so far fit under the cap. */
  predicate IdsFit(items: seq<Item>, idKey: string, limit: int) { limit <= 0 || |Keyed(items, idKey)| <= limit }

  /** What a merge keeps when the ids fit: some of the anonymous items, and every id. */
  lemma MergeKeepsIds(a: seq<Item>, b: seq<Item>, idKey: string, limit: int) returns (short: seq<Item>)
    requires IdsFit(a + b, idKey, limit)
    ensures var front, k := Anonymous(a + b, idKey), Keyed(a + b, idKey);
            && |short| <= |front| && short == front[|front| - |short|..]
            && (short == front || |short| + |k| == limit)
            && Merge(a, b, idKey, limit) == short + k
            && Anonymous(short + k, idKey) == short && Keyed(short + k, idKey) == k
  {
    var front, k := Anonymous(a + b, idKey), Keyed(a + b, idKey);
    var merged := Merge(a, b, idKey, limit);
    short := front[|front| + |k| - |merged|..];
    assert merged == short + k;
    KeyedIsUnique(a + b, idKey);
    AnonymousHaveNoId(a + b, idKey);
    MergedFormIsKept(short, k, idKey);
  }

  lemma UncappedConcat(items: seq<Item>, c: seq<Item>, idKey: string)
    ensures Uncapped(items + c, idKey)
         == Anonymous(items, idKey) + (Anonymous(c, idKey) + UpsertAll(Keyed(items, idKey), c, idKey))
  {
    AnonymousConcat(items, c, idKey);
    UpsertAllConcat([], items, c, idKey);
    ConcatAssociates(Anonymous(items, idKey), Anonymous(c, idKey), UpsertAll(Keyed(items, idKey), c, idKey));
  }

  /** A merge, by the items without an id and the dictionary so far. */
  lemma MergeOnto(items: seq<Item>, c: seq<Item>, idKey: string, limit: int)
    ensures Cap(Uncapped(items + c, idKey), limit)
         == Cap(Anonymous(items, idKey) + (Anonymous(c, idKey) + UpsertAll(Keyed(items, idKey), c, idKey)), limit)
  {
    UncappedConcat(items, c, idKey);
  }

  lemma IncrementalWhenIdsFit(a: seq<Item>, b: seq<Item>, c: seq<Item>, idKey: string, limit: int)
    requires IdsFit(a + b, idKey, limit)
    ensures Merge(Merge(a, b, idKey, limit), c, idKey, limit) == Merge(a, b + c, idKey, limit)
  {
    var front, k := Anonymous(a + b, idKey), Keyed(a + b, idKey);
    var short := MergeKeepsIds(a, b, idKey, limit);
    var rest := Anonymous(c, idKey) + UpsertAll(k, c, idKey);
    MergeOnto(short + k, c, idKey, limit);
    MergeOnto(a + b, c, idKey, limit);
    ConcatAssociates(a, b, c);
    KeyedIsUnique(a + b, idKey);
    UpsertAllShape(k, c, idKey);
    CapForgetsFront(front, short, rest, limit);
  }

  /** Too many ids, in increments: a dropped item that is written again comes back at the end. */
  lemma DroppedItemReturns(kept: seq<Item>, dropped: Item, idKey: string, limit: int)
    requires UniqueIds([dropped] + kept, idKey) && 0 < limit == |kept|
    ensures var merged := Merge(kept, [dropped], idKey, limit);
            |merged| == limit && merged[limit - 1] == dropped
  {
    var whole := [dropped] + kept;
    assert whole[0] == dropped && forall i :: 0 <= i < |kept| ==> whole[i + 1] == kept[i];
    MergedFormIsKept([], kept, idKey);
    assert [] + kept == kept;
    AnonymousConcat(kept, [dropped], idKey);
    NoneAnonymous([dropped], idKey);
    KeyedSnoc(kept, dropped, idKey);
    UpsertNew(kept, dropped, idKey);
    assert Uncapped(kept + [dropped], idKey) == kept + [dropped];
  }

  /** Too many ids, in one batch: writing a known item again changes nothing. */
  lemma KnownItemStays(items: seq<Item>, j: nat, idKey: string)
    requires j < |Keyed(items, idKey)|
    ensures Uncapped(items + [Keyed(items, idKey)[j]], idKey) == Uncapped(items, idKey)
  {
    var k := Keyed(items, idKey);
    KeyedIsUnique(items, idKey);
    UncappedConcat(items, [k[j]], idKey);
    NoneAnonymous([k[j]], idKey);
    UpsertKnown(k, j, idKey);
    assert [] + k == k;
  }

  lemma UpsertKnown(k: seq<Item>, j: nat, idKey: string)
    requires j < |k| && UniqueIds(k, idKey)
    ensures UpsertAll(k, [k[j]], idKey) == k
  {
    UpsertAt(k, k[j], idKey, j);
    assert k[j := k[j]] == k && [k[j]][1..] == [];
  }

  lemma CutKeyed(a: seq<Item>, b: seq<Item>, idKey: string, limit: int)
    requires !IdsFit(a + b, idKey, limit)
    ensures var k := Keyed(a + b, idKey);
            Cap(Uncapped(a + b, idKey), limit) == k[|k| - limit..] && 0 < limit < |k|
  {}

  /** Too many ids: writing the newest dropped item once more tells the two ways of merging apart. */
  lemma IncrementalDiffers(a: seq<Item>, b: seq<Item>, idKey: string, limit: int) returns (c: seq<Item>)
    requires !IdsFit(a + b, idKey, limit)
    ensures Merge(Merge(a, b, idKey, limit), c, idKey, limit) != Merge(a, b + c, idKey, limit)
  {
    var k := Keyed(a + b, idKey);
    var cut := |k| - limit;
    CutKeyed(a, b, idKey, limit);
    KeyedIsUnique(a + b, idKey);
    c := [k[cut - 1]];
    assert [k[cut - 1]] + k[cut..] == k[cut - 1..];
    DroppedItemReturns(k[cut..], k[cut - 1], idKey, limit);
    KnownItemStays(a + b, cut - 1, idKey);
    assert (a + b) + c == a + (b + c);
    assert Merge(a, b + c, idKey, limit)[limit - 1] == k[|k| - 1];
  }

  function Named(id: string): Item { map["id" := Str(id)] }

  /** With a cap of 1: a and then b are written, then a again. In increments a is what is left, in one
      batch it is b. */
  lemma IncrementalDiffersConcretely()
    ensures var a, b := Named("a"), Named("b");
            Merge(Merge([a], [b], "id", 1), [a], "id", 1) == [a] && Merge([a], [b] + [a], "id", 1) == [b]
  {
    var a, b := Named("a"), Named("b");
    assert ItemId(a, "id") == "a" && ItemId(b, "id") == "b";
    assert "a" != "b";
    TwoItems(a, b, "id");
    TwoItems(b, a, "id");
    KnownItemStays([a, b], 0, "id");
    assert [a] + [b] == [a, b] && [b] + [a] == [b, a] && [a] + ([b] + [a]) == [a, b] + [a];
  }

  lemma TwoItems(x: Item, y: Item, idKey: string)
    requires ItemId(x, idKey) != "" && ItemId(y, idKey) != "" && ItemId(x, idKey) != ItemId(y, idKey)
    ensures Keyed([x, y], idKey) == [x, y] && Uncapped([x, y], idKey) == [x, y]
    ensures Merge([x], [y], idKey, 1) == [y]
  {
    assert [x, y][1..] == [y] && [y][1..] == [];
    assert Anonymous([], idKey) == [] && Anonymous([y], idKey) == [];
    assert Anonymous([x, y], idKey) == Anonymous([y], idKey);
    UpsertNew([x], y, idKey);
    assert UpsertAll([x], [y], idKey) == UpsertAll(Upsert([x], y, idKey), [], idKey);
    assert [x] + [y] == [x, y];
  }

  /** Merging in increments equals merging in one batch, whatever comes later, exactly when the
      distinct ids seen so far fit under the cap. */
  lemma IncrementalIffIdsFit(a: seq<Item>, b: seq<Item>, idKey: string, limit: int)
    ensures IdsFit(a + b, idKey, limit)
       <==> forall c :: Merge(Merge(a, b, idKey, limit), c, idKey, limit) == Merge(a, b + c, idKey, limit)
  {
    if IdsFit(a + b, idKey, limit) {
      forall c ensures Merge(Merge(a, b, idKey, limit), c, idKey, limit) == Merge(a, b + c, idKey, limit) {
        IncrementalWhenIdsFit(a, b, c, idKey, limit);
      }
    } else {
      var c := IncrementalDiffers(a, b, idKey, limit);
    }
  }

  // ----- merge_agent_state_update

  datatype StateValue = Items(items: seq<Item>) | Dict(fields: map<string, Value>) | Plain(value: Value)

  type State = map<string, StateValue>

  /** An update: `__replace__`, `__delete__`, and the remaining payload. */
  datatype Update = Update(replace: map<string, StateValue>, delete: seq<string>, payload: map<string, StateValue>)

  /** STATE_LIST_MERGE_KEYS with STATE_LIST_LIMITS. */
  datatype Reducer = Reducer(idKey: string, limit: int)

  const REDUCERS: map<string, Reducer> := map[
    "context_packages" := Reducer("packageId", 12),
    "context_manifests" := Reducer("manifestId", 24),
    "runtime_checkpoints" := Reducer("path", 8),
    "middleware_events" := Reducer("eventId", 200),
    "tool_call_ledger" := Reducer("toolCallId", 200),
    "tool_call_recovery_events" := Reducer("eventId", 50),
    "tool_call_requests" := Reducer("id", 100),
    "tool_call_results" := Reducer("id", 100),
    "tool_failures" := Reducer("fingerprint", 100),
    "circuit_breakers" := Reducer("circuitKey", 100),
    "run_steps" := Reducer("stepId", 200),
    "trace_spans" := Reducer("spanId", 400),
    "skill_lifecycle_records" := Reducer("recordId", 120),
    "freshness_reports" := Reducer("reportId", 50)]

  /** These fourteen lists are merged by these id keys under these caps, and no other. */
  lemma ReducersExactly(key: string, idKey: string, limit: int)
    ensures key in REDUCERS && REDUCERS[key] == Reducer(idKey, limit) <==> (key, idKey, limit) in {
              ("context_packages", "packageId", 12), ("context_manifests", "manifestId", 24), ("runtime_checkpoints", "path", 8),
              ("middleware_events", "eventId", 200), ("tool_call_ledger", "toolCallId", 200), ("tool_call_recovery_events", "eventId", 50),
              ("tool_call_requests", "id", 100), ("tool_call_results", "id", 100), ("tool_failures", "fingerprint", 100),
              ("circuit_breakers", "circuitKey", 100), ("run_steps", "stepId", 200), ("trace_spans", "spanId", 400),
              ("skill_lifecycle_records", "recordId", 120), ("freshness_reports", "reportId", 50)}
  {
  }

  /** `state.get(key) or []` for a list key. */
  function ItemsAt(state: State, key: string): seq<Item> {
    if key in state && state[key].Items? then state[key].items else []
  }

  function WithoutAll(state: State, keys: seq<string>): State {
    if keys == [] then state else WithoutAll(state - {keys[0]}, keys[1..])
  }

  /** The value that the payload loop stores under one key; it reads the state before the update. */
  function Reduced(reducers: map<string, Reducer>, existing: State, key: string, value: StateValue): StateValue {
    if key in reducers then
      Items(Merge(ItemsAt(existing, key), if value.Items? then value.items else [], reducers[key].idKey, reducers[key].limit))
    else if value.Dict? && key in existing && existing[key].Dict? then
      Dict(existing[key].fields + value.fields)
    else value
  }

  function Updated(reducers: map<string, Reducer>, existing: State, update: Update): State {
    WithoutAll(existing + update.replace, update.delete)
      + (map key | key in update.payload :: Reduced(reducers, existing, key, update.payload[key]))
  }

  method ReduceUpdate(reducers: map<string, Reducer>, existing: State, update: Update) returns (merged: State)
    ensures merged == Updated(reducers, existing, update)
  {
    merged := existing + update.replace;
    for i := 0 to |update.delete|
      invariant WithoutAll(merged, update.delete[i..]) == WithoutAll(existing + update.replace, update.delete)
    {
      assert update.delete[i..][1..] == update.delete[i + 1..];
      merged := merged - {update.delete[i]};
    }
    assert update.delete[|update.delete|..] == [];
    merged := WritePayload(reducers, existing, merged, update.payload);
  }

  /** The payload loop: each key is reduced against the state before the update. */
  method WritePayload(reducers: map<string, Reducer>, existing: State, base: State, payload: map<string, StateValue>)
    returns (merged: State)
    ensures merged == base + (map key | key in payload :: Reduced(reducers, existing, key, payload[key]))
  {
    merged := base;
    var todo := payload.Keys;
    ghost var seen: set<string> := {};
    NothingStored(reducers, existing, payload, base);
    while todo != {}
      invariant todo == payload.Keys - seen
      invariant merged == base + StoredUnder(reducers, existing, payload, seen)
    {
      var key :| key in todo;
      StoredMore(reducers, existing, payload, seen, key, base);
      todo, seen := todo - {key}, seen + {key};
      var reduced := ReduceOne(reducers, existing, key, payload[key]);
      merged := merged[key := reduced];
    }
    AllStored(reducers, existing, payload, seen);
  }

  lemma NothingStored(reducers: map<string, Reducer>, existing: State, payload: map<string, StateValue>, base: State)
    ensures base + StoredUnder(reducers, existing, payload, {}) == base
  {
  }

  lemma AllStored(reducers: map<string, Reducer>, existing: State, payload: map<string, StateValue>, seen: set<string>)
    requires payload.Keys - seen == {}
    ensures StoredUnder(reducers, existing, payload, seen) == (map key | key in payload :: Reduced(reducers, existing, key, payload[key]))
  {
    assert forall key :: key in payload ==> key !in payload.Keys - seen;
  }

  /** What the payload loop has stored under the keys it has seen. */
  function StoredUnder(reducers: map<string, Reducer>, existing: State, payload: map<string, StateValue>, seen: set<string>): State {
    map key | key in payload && key in seen :: Reduced(reducers, existing, key, payload[key])
  }

  lemma StoredMore(reducers: map<string, Reducer>, existing: State, payload: map<string, StateValue>, seen: set<string>, key: string, base: State)
    requires key in payload
    ensures (base + StoredUnder(reducers, existing, payload, seen))[key := Reduced(reducers, existing, key, payload[key])]
         == base + StoredUnder(reducers, existing, payload, seen + {key})
  {
  }

  method ReduceOne(reducers: map<string, Reducer>, existing: State, key: string, value: StateValue) returns (reduced: StateValue)
    ensures reduced == Reduced(reducers, existing, key, value)
  {
    if key in reducers {
      var items := MergeStateList(ItemsAt(existing, key), if value.Items? then value.items else [],
                                  reducers[key].idKey, reducers[key].limit);
      reduced := Items(items);
    } else if value.Dict? && key in existing && existing[key].Dict? {
      reduced := Dict(existing[key].fields + value.fields);
    } else {
      reduced := value;
    }
  }

  /** merge_agent_state_update, with the published table of reducers. */
  method MergeAgentStateUpdate(existing: State, update: Update) returns (merged: State)
    ensures merged == Updated(REDUCERS, existing, update)
  {
    merged := ReduceUpdate(REDUCERS, existing, update);
  }

  function Run(reducers: map<string, Reducer>, state: State, updates: seq<Update>): State
    decreases |updates|
  {
    if updates == [] then state else Run(reducers, Updated(reducers, state, updates[0]), updates[1..])
  }

  lemma {:induction false} WithoutAllKeepsRest(state: State, keys: seq<string>, key: string)
    ensures key in WithoutAll(state, keys) <==> key in state && key !in keys
    ensures key in state && key !in keys ==> WithoutAll(state, keys)[key] == state[key]
    decreases |keys|
  {
    if keys != [] { WithoutAllKeepsRest(state - {keys[0]}, keys[1..], key); }
  }

  /** What one update leaves under a reducer key: the merge if the payload writes it, else nothing
      if it is deleted, else the replacement or the old list. */
  lemma ListAfterUpdate(reducers: map<string, Reducer>, state: State, update: Update, key: string)
    requires key in reducers
    ensures var reducer := reducers[key];
            ItemsAt(Updated(reducers, state, update), key) ==
              if key in update.payload then Merge(ItemsAt(state, key), ItemsAt(update.payload, key), reducer.idKey, reducer.limit)
              else if key in update.delete then []
              else if key in update.replace then ItemsAt(update.replace, key)
              else ItemsAt(state, key)
  {
    WithoutAllKeepsRest(state + update.replace, update.delete, key);
  }

  /** The update does not leave a replacement of the list that is over the cap: it does not replace
      the list, or deletes or writes it in the same update, or replaces it by a short one. */
  predicate RespectsCap(reducers: map<string, Reducer>, u: Update, key: string)
    requires key in reducers
  {
    key in u.replace ==> key in u.payload || key in u.delete || |ItemsAt(u.replace, key)| <= reducers[key].limit
  }

  /** A reducer list stays within its cap over every run of updates that do not replace it by a longer
      one, whatever they do to other lists. */
  lemma {:induction false} RunsStayCapped(reducers: map<string, Reducer>, state: State, updates: seq<Update>, key: string)
    requires key in reducers && reducers[key].limit > 0 && |ItemsAt(state, key)| <= reducers[key].limit
    requires forall u :: u in updates ==> RespectsCap(reducers, u, key)
    ensures |ItemsAt(Run(reducers, state, updates), key)| <= reducers[key].limit
    decreases |updates|
  {
    if updates != [] {
      var u := updates[0];
      assert u in updates;
      ListAfterUpdate(reducers, state, u, key);
      MergeIsSuffix(ItemsAt(state, key), ItemsAt(u.payload, key), reducers[key].idKey, reducers[key].limit);
      RunsStayCapped(reducers, Updated(reducers, state, u), updates[1..], key);
    }
  }

  /** One update leaves the list over its cap exactly when it leaves an over-long replacement there,
      or does not touch a list that was over it before. */
  lemma CapIsBrokenExactly(reducers: map<string, Reducer>, state: State, u: Update, key: string)
    requires key in reducers && reducers[key].limit > 0
    ensures |ItemsAt(Updated(reducers, state, u), key)| > reducers[key].limit
       <==> || !RespectsCap(reducers, u, key)
            || (key !in u.replace && key !in u.payload && key !in u.delete && |ItemsAt(state, key)| > reducers[key].limit)
  {
    ListAfterUpdate(reducers, state, u, key);
    MergeIsSuffix(ItemsAt(state, key), ItemsAt(u.payload, key), reducers[key].idKey, reducers[key].limit);
  }

  lemma CheckpointsAreCapped()
    ensures "runtime_checkpoints" in REDUCERS && REDUCERS["runtime_checkpoints"].limit == 8
  {
  }

  /** An update that replaces `runtime_checkpoints` by nine items leaves nine, where the cap is eight. */
  lemma ReplacementBreaksTheCap(state: State)
    ensures var nine := seq(9, _ => Named("a"));
            var u := Update(map["runtime_checkpoints" := Items(nine)], [], map[]);
            |ItemsAt(Updated(REDUCERS, state, u), "runtime_checkpoints")| > REDUCERS["runtime_checkpoints"].limit
  {
    CheckpointsAreCapped();
    var u := Update(map["runtime_checkpoints" := Items(seq(9, _ => Named("a")))], [], map[]);
    CapIsBrokenExactly(REDUCERS, state, u, "runtime_checkpoints");
  }

  /** Everything a run writes under a key, in order. */
  function Written(updates: seq<Update>, key: string): seq<Item>
    decreases |updates|
  {
    if updates == [] then [] else ItemsAt(updates[0].payload, key) + Written(updates[1..], key)
  }

  lemma FitsBefore(a: seq<Item>, b: seq<Item>, idKey: string, limit: int)
    requires IdsFit(a + b, idKey, limit)
    ensures IdsFit(a, idKey, limit)
  {
    UpsertAllConcat([], a, b, idKey);
    KeyedIsUnique(a, idKey);
    UpsertAllShape(Keyed(a, idKey), b, idKey);
  }

  lemma UpdateExtendsMerge(reducers: map<string, Reducer>, state: State, start: seq<Item>, done: seq<Item>, u: Update, key: string)
    requires key in reducers && key !in u.replace && key !in u.delete
    requires ItemsAt(state, key) == Merge(start, done, reducers[key].idKey, reducers[key].limit)
    requires IdsFit(start + done, reducers[key].idKey, reducers[key].limit)
    ensures ItemsAt(Updated(reducers, state, u), key)
         == Merge(start, done + ItemsAt(u.payload, key), reducers[key].idKey, reducers[key].limit)
  {
    var more := ItemsAt(u.payload, key);
    ListAfterUpdate(reducers, state, u, key);
    IncrementalWhenIdsFit(start, done, more, reducers[key].idKey, reducers[key].limit);
    if key !in u.payload { assert done + more == done; }
  }

  lemma {:induction false} RunFromMerged(reducers: map<string, Reducer>, state: State, start: seq<Item>, done: seq<Item>, updates: seq<Update>, key: string)
    requires key in reducers
    requires forall u :: u in updates ==> key !in u.replace && key !in u.delete
    requires ItemsAt(state, key) == Merge(start, done, reducers[key].idKey, reducers[key].limit)
    requires IdsFit(start + (done + Written(updates, key)), reducers[key].idKey, reducers[key].limit)
    ensures ItemsAt(Run(reducers, state, updates), key)
         == Merge(start, done + Written(updates, key), reducers[key].idKey, reducers[key].limit)
    decreases |updates|
  {
    var written := Written(updates, key);
    if updates == [] {
      assert done + written == done;
    } else {
      var u, more, rest := updates[0], ItemsAt(updates[0].payload, key), Written(updates[1..], key);
      assert u in updates;
      Regroup(start, done, more, rest);
      FitsBefore(start + done, more + rest, reducers[key].idKey, reducers[key].limit);
      UpdateExtendsMerge(reducers, state, start, done, u, key);
      RunFromMerged(reducers, Updated(reducers, state, u), start, done + more, updates[1..], key);
    }
  }

  lemma Regroup<T>(a: seq<T>, b: seq<T>, c: seq<T>, d: seq<T>)
    ensures b + (c + d) == (b + c) + d
    ensures a + (b + (c + d)) == (a + b) + (c + d)
  {}

  /** A whole run of updates leaves what one merge of everything it wrote would leave, as long as
      the distinct ids fit under the cap. */
  lemma RunIsOneMerge(reducers: map<string, Reducer>, state: State, start: seq<Item>, updates: seq<Update>, key: string)
    requires key in reducers
    requires forall u :: u in updates ==> key !in u.replace && key !in u.delete
    requires ItemsAt(state, key) == Merge(start, [], reducers[key].idKey, reducers[key].limit)
    requires IdsFit(start + Written(updates, key), reducers[key].idKey, reducers[key].limit)
    ensures ItemsAt(Run(reducers, state, updates), key)
         == Merge(start, Written(updates, key), reducers[key].idKey, reducers[key].limit)
  {
    assert [] + Written(updates, key) == Written(updates, key);
    RunFromMerged(reducers, state, start, [], updates, key);
  }

  // ----- keys without a reducer, and what identifies an item

  /** What one update leaves under a key that has no reducer: new dictionary fields win over old ones, any other value
      replaces the old one; without a new value the key is deleted, replaced or left alone. */
  lemma OtherKeyAfterUpdate(reducers: map<string, Reducer>, state: State, u: Update, key: string)
    requires key !in reducers
    ensures var after := Updated(reducers, state, u);
            && (key in u.payload ==>
                  && key in after
                  && (if u.payload[key].Dict? && key in state && state[key].Dict?
                      then after[key].Dict? && OverlaidBy(state[key].fields, u.payload[key].fields, after[key].fields)
                      else after[key] == u.payload[key]))
            && (key !in u.payload && key in u.delete ==> key !in after)
            && (key !in u.payload && key !in u.delete && key in u.replace ==> key in after && after[key] == u.replace[key])
            && (key !in u.payload && key !in u.delete && key !in u.replace ==>
                  (key in after <==> key in state) && (key in state ==> after[key] == state[key]))
  {
    WithoutAllKeepsRest(state + u.replace, u.delete, key);
  }

  /** Each new entry, and each old entry that no new one replaces. */
  ghost predicate OverlaidBy(old_: map<string, Value>, new_: map<string, Value>, all: map<string, Value>) {
    && (forall k :: k in all <==> k in old_ || k in new_)
    && (forall k :: k in new_ ==> all[k] == new_[k])
    && (forall k :: k in old_ && k !in new_ ==> all[k] == old_[k])
  }

  /** What a text or number under the key gives, and "" for nothing that counts. */
  function IdUnder(item: Item, key: string): string { if key in item && Truthy(item[key]) then TextOf(item[key]) else "" }

  predicate HasUnder(item: Item, key: string) { key in item && Truthy(item[key]) }

  /** An item is known by its own id key, or else by the snake spelling of it, by `id`, `taskId`, `task_id`, `toolCallId`
      or `tool_call_id`, in this order. */
  lemma IdPreference(item: Item, idKey: string)
    ensures ItemId(item, idKey)
         == (if HasUnder(item, idKey) then IdUnder(item, idKey)
             else if HasUnder(item, Snake(idKey, false)) then IdUnder(item, Snake(idKey, false))
             else if HasUnder(item, "id") then IdUnder(item, "id")
             else if HasUnder(item, "taskId") then IdUnder(item, "taskId")
             else if HasUnder(item, "task_id") then IdUnder(item, "task_id")
             else if HasUnder(item, "toolCallId") then IdUnder(item, "toolCallId")
             else if HasUnder(item, "tool_call_id") then IdUnder(item, "tool_call_id")
             else "")
  {
    FirstOfSeven(item, idKey, Snake(idKey, false), "id", "taskId", "task_id", "toolCallId", "tool_call_id");
  }

  lemma FirstOfSeven(item: Item, a: string, b: string, c: string, d: string, e: string, f: string, g: string)
    ensures FirstTruthy(item, [a, b, c, d, e, f, g])
         == (if HasUnder(item, a) then IdUnder(item, a)
             else if HasUnder(item, b) then IdUnder(item, b)
             else FirstOfFive(item, c, d, e, f, g))
  {
    FiveCandidates(item, c, d, e, f, g);
    NextCandidate(item, b, [c, d, e, f, g]);
    NextCandidate(item, a, [b, c, d, e, f, g]);
    assert [a] + [b, c, d, e, f, g] == [a, b, c, d, e, f, g] && [b] + [c, d, e, f, g] == [b, c, d, e, f, g];
  }

  function FirstOfFive(item: Item, c: string, d: string, e: string, f: string, g: string): string {
    if HasUnder(item, c) then IdUnder(item, c)
    else if HasUnder(item, d) then IdUnder(item, d)
    else if HasUnder(item, e) then IdUnder(item, e)
    else if HasUnder(item, f) then IdUnder(item, f)
    else if HasUnder(item, g) then IdUnder(item, g)
    else ""
  }

  lemma FiveCandidates(item: Item, c: string, d: string, e: string, f: string, g: string)
    ensures FirstTruthy(item, [c, d, e, f, g]) == FirstOfFive(item, c, d, e, f, g)
  {
    NextCandidate(item, g, []);
    NextCandidate(item, f, [g]);
    NextCandidate(item, e, [f, g]);
    NextCandidate(item, d, [e, f, g]);
    NextCandidate(item, c, [d, e, f, g]);
    assert [c] + [d, e, f, g] == [c, d, e, f, g] && [d] + [e, f, g] == [d, e, f, g] && [e] + [f, g] == [e, f, g] && [f] + [g] == [f, g] && [g] + [] == [g];
  }

  lemma NextCandidate(item: Item, key: string, rest: seq<string>)
    ensures FirstTruthy(item, [key] + rest) == if HasUnder(item, key) then IdUnder(item, key) else FirstTruthy(item, rest)
  {
  }
}
