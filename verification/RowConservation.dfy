/**
 What the row merge keeps and adds: no value is lost, values only move to alias
 columns, and every added value comes from a row that may fill the target.
 */
module RowConservation {
  import opened Text
  import opened RowMerge
  import opened RowKeys

  // ----- names that follow a value

  function AliasIn(base: Prefix): string -> string { name => Alias(base, name) }

  /** `there` is `name` after `n` moves aside. */
  ghost predicate Renamed(aside: string -> string, name: string, there: string, n: nat)
    decreases n
  {
    if n == 0 then name == there else aside(name) != "" && Renamed(aside, aside(name), there, n - 1)
  }

  lemma {:induction false} RenamedTwice(aside: string -> string, name: string, middle: string, n: nat, there: string, m: nat)
    requires Renamed(aside, name, middle, n) && Renamed(aside, middle, there, m)
    ensures Renamed(aside, name, there, n + m)
    decreases n
  {
    if n > 0 {
      RenamedTwice(aside, aside(name), middle, n - 1, there, m);
      assert n - 1 + m == n + m - 1;
    }
  }

  /** `d` is `c` under its name or an alias of it, and with its value unless it was empty. */
  ghost predicate Follows(base: Prefix, c: Column, d: Column) {
    (exists n: nat :: Renamed(AliasIn(base), c.name, d.name, n)) && (IsEmpty(c.cell) || d.cell == c.cell)
  }

  ghost predicate Carried(base: Prefix, c: Column, after: Columns) {
    exists d :: d in after && Follows(base, c, d)
  }

  /** Every column of `before` is still there. */
  ghost predicate AllCarried(base: Prefix, before: Columns, after: Columns)
    decreases |before|
  {
    before == [] || (Carried(base, before[0], after) && AllCarried(base, before[1..], after))
  }

  lemma {:induction false} CarriedColumn(base: Prefix, before: Columns, after: Columns, c: Column)
    requires AllCarried(base, before, after) && c in before
    ensures Carried(base, c, after)
    decreases |before|
  {
    if c != before[0] { CarriedColumn(base, before[1..], after, c); }
  }

  lemma {:induction false} EachCarried(base: Prefix, before: Columns, after: Columns)
    requires forall c :: c in before ==> Carried(base, c, after)
    ensures AllCarried(base, before, after)
    decreases |before|
  {
    if before != [] { EachCarried(base, before[1..], after); }
  }

  lemma Stays(base: Prefix, c: Column, d: Column)
    requires c.name == d.name && (IsEmpty(c.cell) || d.cell == c.cell)
    ensures Follows(base, c, d)
  {
    assert Renamed(AliasIn(base), c.name, d.name, 0);
  }

  lemma MovesAside(base: Prefix, c: Column, d: Column)
    requires d == Column(Alias(base, c.name), c.cell) && d.name != ""
    ensures Follows(base, c, d)
  {
    assert Renamed(AliasIn(base), d.name, d.name, 0);
    assert Renamed(AliasIn(base), c.name, d.name, 1);
  }

  lemma FollowsTwice(base: Prefix, c: Column, d: Column, e: Column)
    requires Follows(base, c, d) && Follows(base, d, e)
    ensures Follows(base, c, e)
  {
    var n: nat :| Renamed(AliasIn(base), c.name, d.name, n);
    var m: nat :| Renamed(AliasIn(base), d.name, e.name, m);
    RenamedTwice(AliasIn(base), c.name, d.name, n, e.name, m);
  }

  lemma CarriedTwice(base: Prefix, before: Columns, middle: Columns, after: Columns)
    requires AllCarried(base, before, middle) && AllCarried(base, middle, after)
    ensures AllCarried(base, before, after)
  {
    forall c | c in before ensures Carried(base, c, after) {
      CarriedColumn(base, before, middle, c);
      var d :| d in middle && Follows(base, c, d);
      CarriedColumn(base, middle, after, d);
      var e :| e in after && Follows(base, d, e);
      FollowsTwice(base, c, d, e);
    }
    EachCarried(base, before, after);
  }

  // ----- values

  /** The non-empty values of a row, each as often as it occurs. */
  ghost function Values(row: Columns): multiset<Cell> {
    if row == [] then multiset{}
    else (if IsEmpty(row[0].cell) then multiset{} else multiset{row[0].cell}) + Values(row[1..])
  }

  ghost function One(c: Column): multiset<Cell> { if IsEmpty(c.cell) then multiset{} else multiset{c.cell} }

  lemma {:induction false} ValuesConcat(a: Columns, b: Columns)
    ensures Values(a + b) == Values(a) + Values(b)
  {
    if a == [] {
      assert a + b == b;
    } else {
      assert (a + b)[0] == a[0] && (a + b)[1..] == a[1..] + b;
      ValuesConcat(a[1..], b);
    }
  }

  lemma ValuesSplit(row: Columns, i: nat)
    requires i < |row|
    ensures Values(row) == Values(row[..i]) + One(row[i]) + Values(row[i + 1..])
  {
    assert row == row[..i] + row[i..];
    ValuesConcat(row[..i], row[i..]);
    assert row[i..][0] == row[i] && row[i..][1..] == row[i + 1..];
  }

  lemma {:induction false} ValueIsThere(row: Columns, v: Cell)
    ensures v in Values(row) <==> exists c :: c in row && c.cell == v && !IsEmpty(v)
  {
    if row != [] {
      ValueIsThere(row[1..], v);
      assert row == [row[0]] + row[1..];
      if v == row[0].cell { assert row[0] in row; }
    }
  }

  // ----- dictionary operations

  lemma AbsentName(row: Columns, name: string)
    ensures !Has(row, name) <==> forall c :: c in row ==> c.name != name
  {
    HasName(row, name);
  }

  lemma PutValues(row: Columns, name: string, cell: Cell)
    requires !Has(row, name) || IsEmpty(Get(row, name))
    ensures Values(Put(row, name, cell)) == Values(row) + One(Column(name, cell))
  {
    var after, i := Put(row, name, cell), IndexOf(row, name);
    if i < |row| {
      ValuesSplit(row, i);
      ValuesSplit(after, i);
      assert after[..i] == row[..i] && after[i + 1..] == row[i + 1..];
    } else {
      ValuesConcat(row, [Column(name, cell)]);
    }
  }

  lemma PutCarries(row: Columns, name: string, cell: Cell, base: Prefix)
    requires !Has(row, name) || IsEmpty(Get(row, name))
    ensures AllCarried(base, row, Put(row, name, cell))
  {
    var after := Put(row, name, cell);
    forall c | c in row ensures Carried(base, c, after) {
      var k :| 0 <= k < |row| && row[k] == c;
      assert after[k] in after;
      Stays(base, c, after[k]);
    }
    EachCarried(base, row, after);
  }

  lemma PutFills(row: Columns, name: string, cell: Cell, base: Prefix)
    requires Unique(row) && (!Has(row, name) || IsEmpty(Get(row, name)))
    ensures var after := Put(row, name, cell);
            Unique(after) && Values(after) == Values(row) + One(Column(name, cell)) && AllCarried(base, row, after)
  {
    PutValues(row, name, cell);
    PutCarries(row, name, cell, base);
  }

  /** The row after its column `i` has been moved aside. */
  ghost function Moved(row: Columns, i: nat, base: Prefix): Columns
    requires i < |row|
  {
    row[..i] + row[i + 1..] + [Column(Alias(base, row[i].name), row[i].cell)]
  }

  lemma MoveIsMoved(row: Columns, name: string, base: Prefix)
    requires Has(row, name) && !Has(row, Alias(base, name))
    ensures Put(Pop(row, name), Alias(base, name), Get(row, name)) == Moved(row, IndexOf(row, name), base)
  {
    AbsentName(row, Alias(base, name));
    AbsentName(Pop(row, name), Alias(base, name));
  }

  lemma MovedValues(row: Columns, i: nat, base: Prefix)
    requires i < |row|
    ensures Values(Moved(row, i, base)) == Values(row)
  {
    var last := Column(Alias(base, row[i].name), row[i].cell);
    ValuesSplit(row, i);
    ValuesConcat(row[..i], row[i + 1..]);
    ValuesConcat(row[..i] + row[i + 1..], [last]);
    assert Values([last]) == One(row[i]);
  }

  lemma MovedCarried(row: Columns, i: nat, base: Prefix)
    requires i < |row| && Alias(base, row[i].name) != ""
    ensures AllCarried(base, row, Moved(row, i, base))
  {
    var after := Moved(row, i, base);
    forall c | c in row ensures Carried(base, c, after) {
      var k :| 0 <= k < |row| && row[k] == c;
      if k == i {
        MovesAside(base, c, after[|row| - 1]);
        assert after[|row| - 1] in after;
      } else {
        assert c == (if k < i then after[k] else after[k - 1]);
        Stays(base, c, c);
      }
    }
    EachCarried(base, row, after);
  }

  lemma MovedUnique(row: Columns, i: nat, base: Prefix)
    requires i < |row| && Unique(row) && !Has(row, Alias(base, row[i].name))
    ensures Unique(Moved(row, i, base))
  {
    AbsentName(row, Alias(base, row[i].name));
  }

  lemma MoveKeeps(row: Columns, name: string, base: Prefix)
    requires Unique(row) && Has(row, name) && Alias(base, name) != "" && !Has(row, Alias(base, name))
    ensures var after := Put(Pop(row, name), Alias(base, name), Get(row, name));
            Unique(after) && Values(after) == Values(row) && AllCarried(base, row, after)
  {
    var i := IndexOf(row, name);
    MoveIsMoved(row, name, base);
    MovedValues(row, i, base);
    MovedCarried(row, i, base);
    MovedUnique(row, i, base);
  }

  // ----- one column, one row

  /** `after` is `before` with nothing lost and some of `extra` added. */
  ghost predicate Grown(base: Prefix, before: Columns, after: Columns, extra: multiset<Cell>) {
    && Unique(after) && AllCarried(base, before, after)
    && Values(before) <= Values(after) <= Values(before) + extra
  }

  lemma GrownNot(base: Prefix, row: Columns)
    requires Unique(row)
    ensures Grown(base, row, row, multiset{})
  {
    forall c | c in row ensures Carried(base, c, row) { Stays(base, c, c); }
    EachCarried(base, row, row);
  }

  lemma GrownTwice(base: Prefix, before: Columns, middle: Columns, after: Columns, x: multiset<Cell>, y: multiset<Cell>)
    requires Grown(base, before, middle, x) && Grown(base, middle, after, y)
    ensures Grown(base, before, after, x + y)
  {
    CarriedTwice(base, before, middle, after);
  }

  lemma ColumnGrows(target: Columns, c: Column, base: Prefix, prefix: Prefix)
    requires Unique(target)
    ensures Grown(base, target, MergeColumn(target, c, base, prefix), One(c))
  {
    GrownNot(base, target);
    if !Has(target, c.name) || IsEmpty(Get(target, c.name)) {
      PutFills(target, c.name, c.cell, base);
    } else if Get(target, c.name) != c.cell {
      var aside, alias := Alias(base, c.name), Alias(prefix, c.name);
      var moved := target;
      if aside != "" && !Has(target, aside) {
        MoveKeeps(target, c.name, base);
        moved := Put(Pop(target, c.name), aside, Get(target, c.name));
      }
      assert Grown(base, target, moved, multiset{});
      if alias != "" && !Has(moved, alias) {
        PutFills(moved, alias, c.cell, base);
        GrownTwice(base, target, moved, Put(moved, alias, c.cell), multiset{}, One(Column(alias, c.cell)));
      }
    }
  }

  lemma {:induction false} RowGrows(target: Columns, found: Columns, base: Prefix, prefix: Prefix)
    requires Unique(target)
    ensures Grown(base, target, MergeRow(target, found, base, prefix), Values(found))
  {
    if found == [] {
      GrownNot(base, target);
    } else {
      var n := |found| - 1;
      var before := MergeRow(target, found[..n], base, prefix);
      RowGrows(target, found[..n], base, prefix);
      ColumnGrows(before, found[n], base, prefix);
      GrownTwice(base, target, before, MergeColumn(before, found[n], base, prefix), Values(found[..n]), One(found[n]));
      ValuesSplit(found, n);
    }
  }

  // ----- entity columns follow their values

  lemma AliasIsTrimmed(base: Prefix, name: string)
    requires Alias(base, name) != ""
    ensures Strip(Alias(base, name)) == Alias(base, name)
  {
    var left, right := StripParts(name);
    var text, alias := Strip(name), Alias(base, name);
    assert alias[0] == base[0] && alias[|alias| - 1] == text[|text| - 1];
    assert base[0] in base;
    TrimmedIsItsStrip(alias);
  }

  lemma AliasIsEntity(base: Prefix, name: string)
    requires EntityLike(name) && Alias(base, name) != ""
    ensures EntityLike(Alias(base, name))
  {
    AliasIsTrimmed(base, name);
    LowerConcat(base + "__", Strip(name));
    var head := Lower(base + "__");
    assert head[|head| - 1] == '_';
    SuffixStays(head, Lower(Strip(name)));
  }

  lemma SuffixStays(head: string, text: string)
    requires head != [] && head[|head| - 1] == '_'
    ensures forall s :: EndsWith(text, s) ==> EndsWith(head + text, s)
    ensures text == "id" ==> EndsWith(head + text, "_id")
  {
  }

  lemma SuffixGrows(head: string, s: string, suffix: string)
    requires EndsWith(s, suffix)
    ensures EndsWith(head + s, suffix)
  {
  }

  lemma AliasIsUnder(base: Prefix, name: string, key: string)
    requires Under(name, key) && Trimmed(key) && key != "" && Alias(base, name) != ""
    ensures Under(Alias(base, name), key)
  {
    var tail := "__" + key;
    if name == key {
      TrimmedIsItsStrip(key);
      assert Alias(base, name) == base + tail;
      SuffixGrows(base, tail, tail);
    } else {
      var x := name[..|name| - |tail|];
      assert name == x + tail;
      TailSurvivesStrip(x, key);
      SuffixGrows(base + "__", Strip(name), tail);
    }
  }

  lemma TailSurvivesStrip(x: string, key: string)
    requires Trimmed(key) && key != ""
    ensures EndsWith(Strip(x + ("__" + key)), "__" + key)
  {
    var tail := "__" + key;
    var name := x + tail;
    var left, right := StripParts(name);
    assert name[|x|] == '_' && name[|name| - 1] == key[|key| - 1];
    InkStays(name, left, Strip(name), right, |name| - 1);
    InkStays(name, left, Strip(name), right, |x|);
    assert right == [] && name == left + Strip(name);
    assert Strip(name) == name[|left|..] == x[|left|..] + tail;
  }

  /** What an alias keeps of a name, any number of moves keeps. */
  lemma {:induction false} RenamedKeeps(holds: string -> bool, aside: string -> string, name: string, there: string, n: nat)
    requires Renamed(aside, name, there, n) && holds(name)
    requires forall x :: holds(x) && aside(x) != "" ==> holds(aside(x))
    ensures holds(there)
    decreases n
  {
    if n > 0 { RenamedKeeps(holds, aside, aside(name), there, n - 1); }
  }

  lemma EntityStays(base: Prefix, before: Columns, after: Columns)
    requires AllCarried(base, before, after) && HasEntity(before)
    ensures HasEntity(after)
  {
    var c :| c in before && EntityLike(c.name);
    CarriedColumn(base, before, after, c);
    var d :| d in after && Follows(base, c, d);
    var n: nat :| Renamed(AliasIn(base), c.name, d.name, n);
    forall x | EntityLike(x) && Alias(base, x) != "" ensures EntityLike(Alias(base, x)) { AliasIsEntity(base, x); }
    RenamedKeeps(EntityLike, AliasIn(base), c.name, d.name, n);
  }

  lemma SharedValueStays(shown: real -> string, base: Prefix, before: Columns, after: Columns, other: Columns, key: string)
    requires AllCarried(base, before, after) && Shares(shown, before, other, key) && Trimmed(key) && key != ""
    ensures Shares(shown, after, other, key)
  {
    var v :| v in ValuesUnder(shown, before, key) * ValuesUnder(shown, other, key);
    var c :| c in before && Under(c.name, key) && Normalized(shown, c.cell) == v;
    CarriedColumn(base, before, after, c);
    assert !IsEmpty(c.cell);
    var d :| d in after && Follows(base, c, d);
    var n: nat :| Renamed(AliasIn(base), c.name, d.name, n);
    forall x | Under(x, key) && Alias(base, x) != "" ensures Under(Alias(base, x), key) { AliasIsUnder(base, x, key); }
    RenamedKeeps(x => Under(x, key), AliasIn(base), c.name, d.name, n);
    assert v in ValuesUnder(shown, after, key);
    assert v in ValuesUnder(shown, after, key) * ValuesUnder(shown, other, key);
  }

  // ----- whole runs

  /** The row as it is when the `n`-th task is visited. */
  ghost function Stage(shown: real -> string, row: Columns, items: seq<Item>, base: Prefix, n: nat): Columns
    requires n <= |items|
  {
    MergeAll(shown, row, items[..n], base)
  }

  /** The values of the row that matches at the `n`-th visit, if one does. */
  ghost function MatchedValues(shown: real -> string, row: Columns, items: seq<Item>, base: Prefix, n: nat): multiset<Cell>
    requires n < |items|
  {
    var before := Stage(shown, row, items, base, n);
    var j := FirstMatching(shown, before, items[n].rows);
    if j < |items[n].rows| then Values(items[n].rows[j]) else multiset{}
  }

  /** All values offered by the matching rows of the first `n` visits. */
  ghost function Offered(shown: real -> string, row: Columns, items: seq<Item>, base: Prefix, n: nat): multiset<Cell>
    requires n <= |items|
  {
    if n == 0 then multiset{}
    else Offered(shown, row, items, base, n - 1) + MatchedValues(shown, row, items, base, n - 1)
  }

  lemma VisitGrows(shown: real -> string, row: Columns, items: seq<Item>, base: Prefix, n: nat)
    requires n < |items| && Unique(Stage(shown, row, items, base, n))
    ensures Grown(base, Stage(shown, row, items, base, n), Stage(shown, row, items, base, n + 1), MatchedValues(shown, row, items, base, n))
  {
    var before := Stage(shown, row, items, base, n);
    var j := FirstMatching(shown, before, items[n].rows);
    assert items[..n + 1][..n] == items[..n];
    GrownNot(base, before);
    if j < |items[n].rows| { RowGrows(before, items[n].rows[j], base, items[n].prefix); }
  }

  lemma FirstStage(shown: real -> string, row: Columns, items: seq<Item>, base: Prefix)
    ensures Stage(shown, row, items, base, 0) == row
  {
    assert items[..0] == [];
  }

  ghost function Summed(extras: seq<multiset<Cell>>, n: nat): multiset<Cell>
    requires n <= |extras|
  {
    if n == 0 then multiset{} else Summed(extras, n - 1) + extras[n - 1]
  }

  lemma {:induction false} ChainGrows(base: Prefix, stages: seq<Columns>, extras: seq<multiset<Cell>>, n: nat)
    requires |stages| == |extras| + 1 && n <= |extras| && Unique(stages[0])
    requires forall k: nat :: k < |extras| && Unique(stages[k]) ==> Grown(base, stages[k], stages[k + 1], extras[k])
    ensures Grown(base, stages[0], stages[n], Summed(extras, n))
  {
    if n == 0 {
      GrownNot(base, stages[0]);
    } else {
      ChainGrows(base, stages, extras, n - 1);
      GrownTwice(base, stages[0], stages[n - 1], stages[n], Summed(extras, n - 1), extras[n - 1]);
    }
  }

  lemma {:induction false} OfferedIsSummed(shown: real -> string, row: Columns, items: seq<Item>, base: Prefix, extras: seq<multiset<Cell>>, n: nat)
    requires |extras| == |items| && n <= |items|
    requires forall k: nat :: k < |items| ==> extras[k] == MatchedValues(shown, row, items, base, k)
    ensures Summed(extras, n) == Offered(shown, row, items, base, n)
  {
    if n > 0 { OfferedIsSummed(shown, row, items, base, extras, n - 1); }
  }

  /** Up to any visit the row only grows, by values that matching rows offer. */
  lemma StageGrows(shown: real -> string, row: Columns, items: seq<Item>, base: Prefix, n: nat)
    requires Unique(row) && n <= |items|
    ensures Grown(base, row, Stage(shown, row, items, base, n), Offered(shown, row, items, base, n))
  {
    var stages := seq(|items| + 1, k requires 0 <= k <= |items| => Stage(shown, row, items, base, k));
    var extras := seq(|items|, k requires 0 <= k < |items| => MatchedValues(shown, row, items, base, k));
    FirstStage(shown, row, items, base);
    forall k: nat | k < |items| && Unique(stages[k]) ensures Grown(base, stages[k], stages[k + 1], extras[k]) {
      VisitGrows(shown, row, items, base, k);
    }
    ChainGrows(base, stages, extras, n);
    OfferedIsSummed(shown, row, items, base, extras, n);
  }

  lemma VisitCarries(shown: real -> string, row: Columns, items: seq<Item>, base: Prefix, n: nat)
    requires Unique(row) && n < |items|
    ensures AllCarried(base, Stage(shown, row, items, base, n), Stage(shown, row, items, base, n + 1))
  {
    StageGrows(shown, row, items, base, n);
    VisitGrows(shown, row, items, base, n);
  }

  lemma {:induction false} ChainCarries(base: Prefix, stages: seq<Columns>, m: nat, n: nat)
    requires m < n < |stages|
    requires forall k: nat :: k + 1 < |stages| ==> AllCarried(base, stages[k], stages[k + 1])
    ensures AllCarried(base, stages[m], stages[n])
    decreases n
  {
    assert n - 1 + 1 == n && AllCarried(base, stages[n - 1], stages[n]);
    if m < n - 1 {
      ChainCarries(base, stages, m, n - 1);
      CarriedTwice(base, stages[m], stages[n - 1], stages[n]);
    }
  }

  /** What is there at one visit is there at every later one. */
  lemma StagesCarry(shown: real -> string, row: Columns, items: seq<Item>, base: Prefix, m: nat, n: nat)
    requires Unique(row) && m < n <= |items|
    ensures AllCarried(base, Stage(shown, row, items, base, m), Stage(shown, row, items, base, n))
  {
    var stages := seq(|items| + 1, k requires 0 <= k <= |items| => Stage(shown, row, items, base, k));
    forall k: nat | k + 1 < |stages| ensures AllCarried(base, stages[k], stages[k + 1]) {
      VisitCarries(shown, row, items, base, k);
    }
    ChainCarries(base, stages, m, n);
  }

  // ----- where an added value comes from

  /** Row `j` of `rows` may fill `before`: an entity key of `before` leads to a value that both have, and
      that the merged row still has; or it is the only row, and neither `before` nor the base row has an
      entity column. */
  ghost predicate Vouches(shown: real -> string, row: Columns, before: Columns, merged: Columns, rows: seq<Columns>, j: nat)
    requires j < |rows|
  {
    || (exists key :: key in EntityKeys(before) && EntityLike(key) && Shares(shown, before, rows[j], key) && Shares(shown, merged, rows[j], key))
    || (!HasEntity(before) && !HasEntity(row) && |rows| == 1)
  }

  /** The value is one of row `j` of the `n`-th task visited, which matched the row as it was then. */
  ghost predicate Gives(shown: real -> string, row: Columns, items: seq<Item>, base: Prefix, v: Cell, n: nat, j: nat)
    requires n < |items| && j < |items[n].rows|
  {
    var before := Stage(shown, row, items, base, n);
    && v in Values(items[n].rows[j])
    && j == FirstMatching(shown, before, items[n].rows)
    && MayFill(shown, before, items[n].rows, j)
    && Vouches(shown, row, before, MergeAll(shown, row, items, base), items[n].rows, j)
  }

  lemma {:induction false} OfferedByMatch(shown: real -> string, row: Columns, items: seq<Item>, base: Prefix, n: nat, v: Cell) returns (m: nat)
    requires n <= |items| && v in Offered(shown, row, items, base, n)
    ensures m < n && v in MatchedValues(shown, row, items, base, m)
  {
    m := n - 1;
    if v !in MatchedValues(shown, row, items, base, m) { m := OfferedByMatch(shown, row, items, base, m, v); }
  }

  lemma MatchVouches(shown: real -> string, row: Columns, items: seq<Item>, base: Prefix, n: nat)
    requires Unique(row) && n < |items|
    ensures var before := Stage(shown, row, items, base, n);
            var j := FirstMatching(shown, before, items[n].rows);
            j < |items[n].rows| ==> Vouches(shown, row, before, MergeAll(shown, row, items, base), items[n].rows, j)
  {
    var before, merged := Stage(shown, row, items, base, n), MergeAll(shown, row, items, base);
    var j := FirstMatching(shown, before, items[n].rows);
    assert items[..|items|] == items;
    StagesCarry(shown, row, items, base, n, |items|);
    StageGrows(shown, row, items, base, n);
    MatchIsExact(shown, before, items[n].rows);
    EntityKeysAreEntities(before);
    if j < |items[n].rows| {
      if key :| key in EntityKeys(before) && Shares(shown, before, items[n].rows[j], key) {
        SharedValueStays(shown, base, before, merged, items[n].rows[j], key);
      } else if HasEntity(row) {
        EntityStays(base, row, before);
      }
    }
  }

  /** Nothing is lost: every value of the base row is there, as often as before, under its own name or
      an alias of it. Nothing comes from nowhere: all other values, as often as they occur, are offered
      by rows that matched the row as it was just before it was filled from them. */
  ghost predicate Conserves(shown: real -> string, row: Columns, items: seq<Item>, base: Prefix, merged: Columns) {
    && Unique(merged) && AllCarried(base, row, merged)
    && Values(row) <= Values(merged) <= Values(row) + Offered(shown, row, items, base, |items|)
    && forall v :: v in Values(merged) - Values(row)
         ==> exists n, j :: 0 <= n < |items| && 0 <= j < |items[n].rows| && Gives(shown, row, items, base, v, n, j)
  }

  /** Both passes of the merge conserve every row. */
  lemma MergeConserves(shown: real -> string, row: Columns, items: seq<Item>, base: Prefix)
    requires Unique(row)
    ensures Conserves(shown, row, items + items, base, Merged(shown, row, items, base))
  {
    VisitsConserve(shown, row, items + items, base);
  }

  lemma VisitsConserve(shown: real -> string, row: Columns, items: seq<Item>, base: Prefix)
    requires Unique(row)
    ensures Conserves(shown, row, items, base, MergeAll(shown, row, items, base))
  {
    var merged := MergeAll(shown, row, items, base);
    assert items[..|items|] == items;
    StageGrows(shown, row, items, base, |items|);
    forall v | v in Values(merged) - Values(row)
      ensures exists n, j :: 0 <= n < |items| && 0 <= j < |items[n].rows| && Gives(shown, row, items, base, v, n, j)
    {
      assert v in Offered(shown, row, items, base, |items|);
      var n := OfferedByMatch(shown, row, items, base, |items|, v);
      var j := FirstMatching(shown, Stage(shown, row, items, base, n), items[n].rows);
      MatchVouches(shown, row, items, base, n);
      MatchIsExact(shown, Stage(shown, row, items, base, n), items[n].rows);
      assert Gives(shown, row, items, base, v, n, j);
    }
  }
}
