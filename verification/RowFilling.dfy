/**
 What a match adds to a row: which value ends under which name when the rows of
 several tasks are merged. Rows are read as dictionaries here.
 */
module RowFilling {
  import opened Text
  import opened RowMerge
  import opened RowKeys
  import opened RowConservation

  // ----- a row as a dictionary

  function AsMap(row: Columns): map<string, Cell> {
    if row == [] then map[] else AsMap(row[..|row| - 1])[row[|row| - 1].name := row[|row| - 1].cell]
  }

  lemma {:induction false} KeysAreNames(row: Columns, name: string)
    ensures name in AsMap(row) <==> exists c :: c in row && c.name == name
  {
    if row != [] {
      KeysAreNames(row[..|row| - 1], name);
      assert row == row[..|row| - 1] + [row[|row| - 1]];
    }
  }

  lemma LastIsNew(row: Columns)
    requires row != [] && Unique(row)
    ensures row[|row| - 1].name !in AsMap(row[..|row| - 1])
  {
    var front, last := row[..|row| - 1], row[|row| - 1];
    KeysAreNames(front, last.name);
    forall c | c in front ensures c.name != last.name {
      var i :| 0 <= i < |front| && front[i] == c;
    }
  }

  lemma {:induction false} CellAt(row: Columns, k: nat)
    requires k < |row| && Unique(row)
    ensures row[k].name in AsMap(row) && AsMap(row)[row[k].name] == row[k].cell
  {
    if k < |row| - 1 { CellAt(row[..|row| - 1], k); }
  }

  lemma LookUp(row: Columns, name: string)
    requires Unique(row)
    ensures Has(row, name) <==> name in AsMap(row)
    ensures Has(row, name) ==> Get(row, name) == AsMap(row)[name]
  {
    KeysAreNames(row, name);
    HasName(row, name);
    if Has(row, name) { CellAt(row, IndexOf(row, name)); }
  }

  lemma {:induction false} MapOfUpdate(row: Columns, k: nat, cell: Cell)
    requires k < |row| && Unique(row)
    ensures AsMap(row[k := Column(row[k].name, cell)]) == AsMap(row)[row[k].name := cell]
  {
    var n := |row| - 1;
    var after := row[k := Column(row[k].name, cell)];
    if k < n {
      MapOfUpdate(row[..n], k, cell);
      assert after[..n] == row[..n][k := Column(row[k].name, cell)];
      assert row[k].name != row[n].name;
    } else {
      assert after[..n] == row[..n];
    }
  }

  lemma MapOfMore(row: Columns, c: Column)
    ensures AsMap(row + [c]) == AsMap(row)[c.name := c.cell]
  {
    assert (row + [c])[..|row|] == row;
  }

  lemma UpdateAndRemove(m: map<string, Cell>, name: string, cell: Cell, removed: string)
    requires name != removed
    ensures (m - {removed})[name := cell] == m[name := cell] - {removed}
  {
  }

  lemma {:induction false} MapWithout(row: Columns, k: nat)
    requires k < |row| && Unique(row)
    ensures AsMap(row[..k] + row[k + 1..]) == AsMap(row) - {row[k].name}
  {
    var n := |row| - 1;
    var front, last := row[..n], row[n];
    assert row == front + [last];
    MapOfMore(front, last);
    if k < n {
      MapWithout(front, k);
      var rest := front[..k] + front[k + 1..];
      assert row[..k] + row[k + 1..] == rest + [last];
      MapOfMore(rest, last);
      UpdateAndRemove(AsMap(front), last.name, last.cell, row[k].name);
    } else {
      LastIsNew(row);
      assert row[..k] + row[k + 1..] == front;
    }
  }

  lemma MapOfPut(row: Columns, name: string, cell: Cell)
    requires Unique(row)
    ensures Unique(Put(row, name, cell)) && AsMap(Put(row, name, cell)) == AsMap(row)[name := cell]
  {
    if Has(row, name) {
      MapOfUpdate(row, IndexOf(row, name), cell);
    } else {
      HasName(row, name);
      assert Put(row, name, cell)[..|row|] == row;
      forall i | 0 <= i < |row| ensures row[i].name != name { assert row[i] in row; }
    }
  }

  lemma MapOfPop(row: Columns, name: string)
    requires Unique(row) && Has(row, name)
    ensures Unique(Pop(row, name)) && AsMap(Pop(row, name)) == AsMap(row) - {name}
  {
    var k, after := IndexOf(row, name), Pop(row, name);
    forall i | 0 <= i < |after| ensures after[i] == row[if i < k then i else i + 1] {}
    MapWithout(row, k);
  }

  // ----- one column

  /** The name under which a task keeps a column aside: its table, two underscores and the stripped name. */
  function Aside(prefix: string, name: string): string { prefix + "__" + Strip(name) }

  predicate MayStandAside(m: map<string, Cell>, prefix: string, name: string) {
    prefix != "" && Strip(name) != "" && Aside(prefix, name) !in m
  }

  predicate Conflicts(m: map<string, Cell>, c: Column) {
    c.name in m && m[c.name] != Null && m[c.name] != Word("") && m[c.name] != c.cell
  }

  /** The row after the conflicting value has stepped aside, where it may. */
  function SteppedAside(m: map<string, Cell>, base: string, name: string): map<string, Cell>
    requires name in m
  {
    if MayStandAside(m, base, name) then (m - {name})[Aside(base, name) := m[name]] else m
  }

  /** Without a conflict the cell stands under its own name. On a conflict the old value steps aside under the table of
      the base task, and the cell stands under the table of its own task, each where that name is free. */
  lemma ColumnIsMerged(target: Columns, c: Column, base: Prefix, prefix: Prefix)
    requires Unique(target)
    ensures Unique(MergeColumn(target, c, base, prefix))
    ensures var m, n := AsMap(target), AsMap(MergeColumn(target, c, base, prefix));
            && (!Conflicts(m, c) ==> n == m[c.name := c.cell])
            && (Conflicts(m, c) ==>
                  var moved := SteppedAside(m, base, c.name);
                  n == if MayStandAside(moved, prefix, c.name) then moved[Aside(prefix, c.name) := c.cell] else moved)
  {
    LookUp(target, c.name);
    if !Conflicts(AsMap(target), c) {
      MapOfPut(target, c.name, c.cell);
      assert c.name in AsMap(target) && AsMap(target)[c.name] == c.cell ==> AsMap(target)[c.name := c.cell] == AsMap(target);
    } else {
      ConflictIsMerged(target, c, base, prefix);
    }
  }

  lemma MovedIsMapped(target: Columns, name: string, base: Prefix)
    requires Unique(target) && Has(target, name) && name in AsMap(target) && MayStandAside(AsMap(target), base, name)
    ensures var moved := Put(Pop(target, name), Aside(base, name), Get(target, name));
            Unique(moved) && AsMap(moved) == (AsMap(target) - {name})[Aside(base, name) := AsMap(target)[name]]
  {
    LookUp(target, name);
    MapOfPop(target, name);
    MapOfPut(Pop(target, name), Aside(base, name), Get(target, name));
  }

  /** The alias of the merge is this name, and it may be used where no column has it. */
  lemma AliasIsAside(row: Columns, prefix: Prefix, name: string)
    requires Unique(row)
    ensures MayStandAside(AsMap(row), prefix, name) <==> Alias(prefix, name) != "" && !Has(row, Alias(prefix, name))
    ensures Alias(prefix, name) != "" ==> Alias(prefix, name) == Aside(prefix, name)
  {
    LookUp(row, Aside(prefix, name));
  }

  lemma ConflictIsMerged(target: Columns, c: Column, base: Prefix, prefix: Prefix)
    requires Unique(target) && Conflicts(AsMap(target), c)
    ensures Unique(MergeColumn(target, c, base, prefix))
    ensures var m, n := AsMap(target), AsMap(MergeColumn(target, c, base, prefix));
            var moved := SteppedAside(m, base, c.name);
            n == if MayStandAside(moved, prefix, c.name) then moved[Aside(prefix, c.name) := c.cell] else moved
  {
    LookUp(target, c.name);
    AliasIsAside(target, base, c.name);
    var moved := target;
    if MayStandAside(AsMap(target), base, c.name) {
      MovedIsMapped(target, c.name, base);
      moved := Put(Pop(target, c.name), Aside(base, c.name), Get(target, c.name));
    }
    AliasIsAside(moved, prefix, c.name);
    MapOfPut(moved, Aside(prefix, c.name), c.cell);
  }

  // ----- one row

  /** The target when column `k` of the matched row has its turn. */
  function Turn(target: Columns, found: Columns, base: Prefix, prefix: Prefix, k: nat): Columns
    requires k <= |found|
  {
    MergeRow(target, found[..k], base, prefix)
  }

  lemma NextTurn(target: Columns, found: Columns, base: Prefix, prefix: Prefix, k: nat)
    requires k < |found|
    ensures Turn(target, found, base, prefix, k + 1) == MergeColumn(Turn(target, found, base, prefix, k), found[k], base, prefix)
    ensures Turn(target, found, base, prefix, 0) == target
  {
    assert found[..k + 1][..k] == found[..k] && found[..0] == [];
  }

  lemma {:induction false} TurnsAreUnique(target: Columns, found: Columns, base: Prefix, prefix: Prefix, k: nat)
    requires Unique(target) && k <= |found|
    ensures Unique(Turn(target, found, base, prefix, k))
  {
    if k > 0 {
      TurnsAreUnique(target, found, base, prefix, k - 1);
      NextTurn(target, found, base, prefix, k - 1);
      ColumnIsMerged(Turn(target, found, base, prefix, k - 1), found[k - 1], base, prefix);
    } else {
      assert found[..0] == [];
    }
  }

  /** What stands under a name stays there while columns of other names are merged. */
  lemma {:induction false} NameStays(target: Columns, found: Columns, base: Prefix, prefix: Prefix, name: string, k: nat, n: nat)
    requires Unique(target) && k <= n <= |found| && name in AsMap(Turn(target, found, base, prefix, k))
    requires forall i :: k <= i < n ==> found[i].name != name
    ensures name in AsMap(Turn(target, found, base, prefix, n))
    ensures AsMap(Turn(target, found, base, prefix, n))[name] == AsMap(Turn(target, found, base, prefix, k))[name]
    decreases n
  {
    if k < n {
      NameStays(target, found, base, prefix, name, k, n - 1);
      TurnsAreUnique(target, found, base, prefix, n - 1);
      NextTurn(target, found, base, prefix, n - 1);
      ColumnIsMerged(Turn(target, found, base, prefix, n - 1), found[n - 1], base, prefix);
    }
  }

  /** A column that meets no conflict at its turn stands under its own name in the end. */
  lemma OwnNameHolds(target: Columns, found: Columns, base: Prefix, prefix: Prefix, k: nat)
    requires Unique(target) && Unique(found) && k < |found|
    requires !Conflicts(AsMap(Turn(target, found, base, prefix, k)), found[k])
    ensures var after := AsMap(MergeRow(target, found, base, prefix));
            found[k].name in after && after[found[k].name] == found[k].cell
  {
    TurnsAreUnique(target, found, base, prefix, k);
    NextTurn(target, found, base, prefix, k);
    ColumnIsMerged(Turn(target, found, base, prefix, k), found[k], base, prefix);
    NameStays(target, found, base, prefix, found[k].name, k + 1, |found|);
    assert found[..|found|] == found;
  }

  /** No column before column `k` steps aside, or stands aside, under the name of column `k`. */
  predicate IsNoAlias(found: Columns, base: string, prefix: string, k: nat)
    requires k < |found|
  {
    forall i :: 0 <= i < k ==> Aside(base, found[i].name) != found[k].name && Aside(prefix, found[i].name) != found[k].name
  }

  /** The dictionaries hold the same under the name. */
  predicate SameUnder(m: map<string, Cell>, t: map<string, Cell>, name: string) {
    (name in t <==> name in m) && (name in m ==> t[name] == m[name])
  }

  lemma OtherNameStays(target: Columns, c: Column, base: Prefix, prefix: Prefix, name: string)
    requires Unique(target) && name != c.name && name != Aside(base, c.name) && name != Aside(prefix, c.name)
    ensures SameUnder(AsMap(target), AsMap(MergeColumn(target, c, base, prefix)), name)
  {
    ColumnIsMerged(target, c, base, prefix);
  }

  /** Until its turn, nothing changes under the name of such a column. */
  lemma {:induction false} NothingBeforeItsTurn(target: Columns, found: Columns, base: Prefix, prefix: Prefix, k: nat, n: nat)
    requires Unique(target) && Unique(found) && n <= k < |found| && IsNoAlias(found, base, prefix, k)
    ensures SameUnder(AsMap(target), AsMap(Turn(target, found, base, prefix, n)), found[k].name)
  {
    if n > 0 {
      NothingBeforeItsTurn(target, found, base, prefix, k, n - 1);
      TurnsAreUnique(target, found, base, prefix, n - 1);
      NextTurn(target, found, base, prefix, n - 1);
      OtherNameStays(Turn(target, found, base, prefix, n - 1), found[n - 1], base, prefix, found[k].name);
    } else {
      assert found[..0] == [];
    }
  }

  /** A column that the target lacks, or has empty, or has with the same value, stands under its own name after the
      merge, unless the alias of a column before it has taken that name. */
  lemma MissingColumnIsFilled(target: Columns, found: Columns, base: Prefix, prefix: Prefix, k: nat)
    requires Unique(target) && Unique(found) && k < |found| && IsNoAlias(found, base, prefix, k)
    requires !Conflicts(AsMap(target), found[k])
    ensures var after := AsMap(MergeRow(target, found, base, prefix));
            found[k].name in after && after[found[k].name] == found[k].cell
  {
    NothingBeforeItsTurn(target, found, base, prefix, k, k);
    OwnNameHolds(target, found, base, prefix, k);
  }

  /** The column conflicts and cannot stand aside: its table has no name, its own name is blank, or its alias is taken,
      be it by the value that has just stepped aside. */
  predicate IsShutOut(m: map<string, Cell>, c: Column, base: string, prefix: string) {
    Conflicts(m, c) && !MayStandAside(SteppedAside(m, base, c.name), prefix, c.name)
  }

  /** Every value of the matched row arrives, unless its column is shut out at its turn. */
  lemma ValueArrives(target: Columns, found: Columns, base: Prefix, prefix: Prefix, k: nat)
    requires Unique(target) && Unique(found) && k < |found| && !IsEmpty(found[k].cell)
    requires !IsShutOut(AsMap(Turn(target, found, base, prefix, k)), found[k], base, prefix)
    ensures found[k].cell in Values(MergeRow(target, found, base, prefix))
  {
    var t, c := Turn(target, found, base, prefix, k), found[k];
    var u := MergeColumn(t, c, base, prefix);
    TurnsAreUnique(target, found, base, prefix, k);
    ColumnIsMerged(t, c, base, prefix);
    var name := if Conflicts(AsMap(t), c) then Aside(prefix, c.name) else c.name;
    assert name in AsMap(u) && AsMap(u)[name] == c.cell;
    KeysAreNames(u, name);
    LookUp(u, name);
    assert u[IndexOf(u, name)] in u;
    ValueIsThere(u, c.cell);
    NextTurn(target, found, base, prefix, k);
    LaterTurnsKeep(target, found, base, prefix, k + 1, |found|);
    assert found[..|found|] == found;
  }

  lemma {:induction false} LaterTurnsKeep(target: Columns, found: Columns, base: Prefix, prefix: Prefix, k: nat, n: nat)
    requires Unique(target) && k <= n <= |found|
    ensures Values(Turn(target, found, base, prefix, k)) <= Values(Turn(target, found, base, prefix, n))
    decreases n
  {
    if k < n {
      LaterTurnsKeep(target, found, base, prefix, k, n - 1);
      TurnsAreUnique(target, found, base, prefix, n - 1);
      NextTurn(target, found, base, prefix, n - 1);
      ColumnGrows(Turn(target, found, base, prefix, n - 1), found[n - 1], base, prefix);
    }
  }

  // ----- the whole merge

  /** The row of the `n`-th task visited that matches; |rows| for none. */
  function Match(shown: real -> string, row: Columns, items: seq<Item>, base: Prefix, n: nat): nat
    requires n < |items|
  {
    FirstMatching(shown, MergeAll(shown, row, items[..n], base), items[n].rows)
  }

  lemma NextStageKeeps(shown: real -> string, row: Columns, items: seq<Item>, base: Prefix, n: nat)
    requires Unique(row) && n < |items|
    ensures Values(Stage(shown, row, items, base, n)) <= Values(Stage(shown, row, items, base, n + 1))
  {
    StageGrows(shown, row, items, base, n);
    VisitGrows(shown, row, items, base, n);
  }

  lemma {:induction false} BagsGrow(bags: seq<multiset<Cell>>, m: nat, n: nat)
    requires m <= n < |bags| && forall i: nat :: i + 1 < |bags| ==> bags[i] <= bags[i + 1]
    ensures bags[m] <= bags[n]
    decreases n
  {
    if m < n {
      BagsGrow(bags, m, n - 1);
      assert n - 1 + 1 == n && bags[n - 1] <= bags[n];
    }
  }

  lemma LaterStagesKeep(shown: real -> string, row: Columns, items: seq<Item>, base: Prefix, m: nat, n: nat)
    requires Unique(row) && m <= n <= |items|
    ensures Values(Stage(shown, row, items, base, m)) <= Values(Stage(shown, row, items, base, n))
  {
    var bags := seq(|items| + 1, i requires 0 <= i <= |items| => Values(Stage(shown, row, items, base, i)));
    forall i: nat | i + 1 < |bags| ensures bags[i] <= bags[i + 1] { NextStageKeeps(shown, row, items, base, i); }
    BagsGrow(bags, m, n);
  }

  lemma MatchIsMerged(shown: real -> string, row: Columns, items: seq<Item>, base: Prefix, n: nat)
    requires n < |items| && Match(shown, row, items, base, n) < |items[n].rows|
    ensures Stage(shown, row, items, base, n + 1)
         == MergeRow(Stage(shown, row, items, base, n), items[n].rows[Match(shown, row, items, base, n)], base, items[n].prefix)
  {
    assert items[..n + 1][..n] == items[..n];
  }

  /** Every value of every row that matches, in either pass, is in the merged row, unless its column is shut out. */
  lemma MergeFills(shown: real -> string, row: Columns, items: seq<Item>, base: Prefix, n: nat, k: nat)
    requires Unique(row) && n < |items + items|
    requires var visit, j := (items + items)[n], Match(shown, row, items + items, base, n);
             && j < |visit.rows| && k < |visit.rows[j]| && Unique(visit.rows[j]) && !IsEmpty(visit.rows[j][k].cell)
             && !IsShutOut(AsMap(Turn(Stage(shown, row, items + items, base, n), visit.rows[j], base, visit.prefix, k)), visit.rows[j][k], base, visit.prefix)
    ensures (items + items)[n].rows[Match(shown, row, items + items, base, n)][k].cell in Values(Merged(shown, row, items, base))
  {
    var visits := items + items;
    var found := visits[n].rows[Match(shown, row, visits, base, n)];
    StageGrows(shown, row, visits, base, n);
    ValueArrives(Stage(shown, row, visits, base, n), found, base, visits[n].prefix, k);
    MatchIsMerged(shown, row, visits, base, n);
    LaterStagesKeep(shown, row, visits, base, n + 1, |visits|);
    assert visits[..|visits|] == visits;
  }

  /** A column that the row lacks when a task is visited stands in it under its own name after the visit, if the row of
      that task matches and no alias takes the name. */
  lemma MergeFillsName(shown: real -> string, row: Columns, items: seq<Item>, base: Prefix, n: nat, k: nat)
    requires Unique(row) && n < |items|
    requires var j := Match(shown, row, items, base, n);
             && j < |items[n].rows| && k < |items[n].rows[j]| && Unique(items[n].rows[j])
             && IsNoAlias(items[n].rows[j], base, items[n].prefix, k)
             && !Conflicts(AsMap(Stage(shown, row, items, base, n)), items[n].rows[j][k])
    ensures var c, after := items[n].rows[Match(shown, row, items, base, n)][k], AsMap(Stage(shown, row, items, base, n + 1));
            c.name in after && after[c.name] == c.cell
  {
    var found := items[n].rows[Match(shown, row, items, base, n)];
    StageGrows(shown, row, items, base, n);
    MissingColumnIsFilled(Stage(shown, row, items, base, n), found, base, items[n].prefix, k);
    MatchIsMerged(shown, row, items, base, n);
  }

  // ----- two rows

  /** An alias may take the name of a later column, which then does not stand under it: the base row has x, the other
      row x and t__x, and x of the other row stands aside as t__x until the column of that name pushes it further. */
  lemma AliasTakesTheName()
    ensures MergeRow([Column("x", Word("1"))], [Column("x", Word("2")), Column("t__x", Word("3"))], "b", "t")
            == [Column("b__x", Word("1")), Column("b__t__x", Word("2")), Column("t__t__x", Word("3"))]
  {
    FirstNames();
    SecondNames();
    TwoClashes("x", "t__x", "b__x", "b__t__x", "t__t__x", Word("1"), Word("2"), Word("3"), "b", "t");
  }

  lemma FirstNames()
    ensures Alias("b", "x") == "b__x" && Alias("t", "x") == "t__x" && "b__x" != "x" && "t__x" != "x"
  {
    TrimmedIsItsStrip("x");
  }

  lemma SecondNames()
    ensures Alias("b", "t__x") == "b__t__x" && Alias("t", "t__x") == "t__t__x"
    ensures "b__x" != "t__x" && "b__x" != "b__t__x" && "b__x" != "t__t__x" && "b__t__x" != "t__x" && "t__t__x" != "t__x" && "b__t__x" != "t__t__x"
  {
    TrimmedIsItsStrip("t__x");
    assert |"b__x"| == 4 && |"t__x"| == 4 && |"b__t__x"| == 7 && |"t__t__x"| == 7;
    assert "b__x"[0] != "t__x"[0] && "b__t__x"[0] != "t__t__x"[0];
  }

  /** The alias of the first conflict is the name of the second column. */
  lemma TwoClashes(x: string, tx: string, bx: string, btx: string, ttx: string, u: Cell, v: Cell, w: Cell, base: Prefix, prefix: Prefix)
    requires Alias(base, x) == bx && Alias(prefix, x) == tx && Alias(base, tx) == btx && Alias(prefix, tx) == ttx
    requires bx != "" && tx != "" && btx != "" && ttx != "" && bx != x && tx != x
    requires bx != tx && bx != btx && bx != ttx && btx != tx && ttx != tx && btx != ttx
    requires !IsEmpty(u) && !IsEmpty(v) && u != v && v != w
    ensures MergeRow([Column(x, u)], [Column(x, v), Column(tx, w)], base, prefix) == [Column(bx, u), Column(btx, v), Column(ttx, w)]
  {
    MergeTwo([Column(x, u)], Column(x, v), Column(tx, w), base, prefix);
    assert [] + [Column(x, u)] == [Column(x, u)] && [] + [Column(bx, u)] == [Column(bx, u)];
    ClashAtTheEnd([], x, u, v, base, prefix, bx, tx);
    ClashAtTheEnd([Column(bx, u)], tx, v, w, base, prefix, btx, ttx);
  }

  lemma MergeTwo(target: Columns, c: Column, d: Column, base: Prefix, prefix: Prefix)
    ensures MergeRow(target, [c, d], base, prefix) == MergeColumn(MergeColumn(target, c, base, prefix), d, base, prefix)
  {
    var both, one := [c, d], [c];
    assert both[..|both| - 1] == one && one[..|one| - 1] == [];
    assert MergeRow(target, one, base, prefix) == MergeColumn(MergeRow(target, [], base, prefix), c, base, prefix);
  }

  lemma AtTheEnd(front: Columns, c: Column)
    requires forall d :: d in front ==> d.name != c.name
    ensures IndexOf(front + [c], c.name) == |front|
  {
    var row := front + [c];
    assert row[|front|] == c && c in row;
    HasName(row, c.name);
    forall k | 0 <= k < |front| ensures row[k].name != c.name { assert row[k] == front[k]; }
  }

  lemma NotThere(row: Columns, name: string)
    requires forall d :: d in row ==> d.name != name
    ensures !Has(row, name)
  {
    HasName(row, name);
  }

  /** The last column steps aside and the cell behind it. */
  lemma ClashAtTheEnd(front: Columns, name: string, v: Cell, w: Cell, base: Prefix, prefix: Prefix, aside: string, alias: string)
    requires Alias(base, name) == aside && Alias(prefix, name) == alias && aside != "" && alias != "" && !IsEmpty(v) && v != w
    requires aside != name && alias != name && aside != alias
    requires forall d :: d in front ==> d.name != name && d.name != aside && d.name != alias
    ensures MergeColumn(front + [Column(name, v)], Column(name, w), base, prefix) == front + [Column(aside, v)] + [Column(alias, w)]
  {
    var target := front + [Column(name, v)];
    AtTheEnd(front, Column(name, v));
    assert target[|front|] == Column(name, v);
    NotThere(target, aside);
    assert Pop(target, name) == front;
    NotThere(front, aside);
    NotThere(front + [Column(aside, v)], alias);
  }

  lemma {:induction false} NoPairNoPiece(s: string)
    requires forall i :: 0 <= i < |s| - 1 ==> !(s[i] == '_' && s[i + 1] == '_')
    ensures LastPiece(s) == s
  {
    if |s| >= 2 {
      NoPairNoPiece(s[..|s| - 1]);
      assert s == s[..|s| - 1] + [s[|s| - 1]];
    }
  }

  const SHOP := [Column("shop_id", Word("S1")), Column("gmv", Number(5.0))]

  const REFUNDS := [Column("shop_id", Word("S1")), Column("refund", Number(2.0))]

  const BOTH := [Column("shop_id", Word("S1")), Column("gmv", Number(5.0)), Column("refund", Number(2.0))]

  lemma ShopIdIsPiece()
    ensures LastPiece("shop_id") == "shop_id"
  {
    NoPairNoPiece("shop_id");
  }

  lemma ShopIdIsPlain()
    ensures Strip("shop_id") == "shop_id" && Lower("shop_id") == "shop_id"
  {
    TrimmedIsItsStrip("shop_id");
  }

  lemma ShopIdIsEntity()
    ensures LastPiece("shop_id") == "shop_id" && EntityLike("shop_id") && Strip("shop_id") == "shop_id"
  {
    ShopIdIsPiece();
    ShopIdIsPlain();
    EndsInId("shop_id", "shop");
  }

  lemma EndsInId(name: string, stem: string)
    requires name == stem + "_id" && Strip(name) == name && Lower(name) == name
    ensures EntityLike(name)
  {
    assert name[|name| - 3..] == "_id";
  }

  lemma ShopIsKey(row: Columns)
    requires row != [] && row[0] == SHOP[0]
    ensures "shop_id" in EntityKeys(row)
  {
    ShopIdIsEntity();
    EntitiesAreKeys(row, row[0]);
  }

  lemma ShopIsShared(shown: real -> string, row: Columns)
    requires row != [] && row[0] == SHOP[0]
    ensures FirstMatching(shown, row, [REFUNDS]) == 0
  {
    ShopIsKey(row);
    TrimmedIsItsStrip("S1");
    assert Normalized(shown, Word("S1")) == "S1";
    assert row[0] in row && REFUNDS[0] in REFUNDS;
    assert "S1" in ValuesUnder(shown, row, "shop_id") && "S1" in ValuesUnder(shown, REFUNDS, "shop_id");
    assert "S1" in ValuesUnder(shown, row, "shop_id") * ValuesUnder(shown, REFUNDS, "shop_id");
    MatchIsExact(shown, row, [REFUNDS]);
    assert MayFill(shown, row, [REFUNDS], 0);
  }

  lemma RefundsAreMerged(base: Prefix, prefix: Prefix)
    ensures MergeRow(SHOP, REFUNDS, base, prefix) == BOTH && MergeRow(BOTH, REFUNDS, base, prefix) == BOTH
  {
    assert REFUNDS[..1] == [REFUNDS[0]] && [REFUNDS[0]][..0] == [];
    assert IndexOf(SHOP, "shop_id") == 0 && IndexOf(BOTH, "shop_id") == 0;
    assert "refund" != "gmv" && "refund" != "shop_id";
    assert IndexOf(SHOP, "refund") == 2 && IndexOf(BOTH, "refund") == 2;
    assert MergeRow(SHOP, [REFUNDS[0]], base, prefix) == SHOP && MergeRow(BOTH, [REFUNDS[0]], base, prefix) == BOTH;
  }

  /** The refund of the same shop is added to its gmv. */
  lemma ShopGetsItsRefund(shown: real -> string, base: Prefix, prefix: Prefix)
    ensures Merged(shown, SHOP, [Item(prefix, [REFUNDS])], base) == BOTH
  {
    var item := Item(prefix, [REFUNDS]);
    assert [item] + [item] == [item, item] && [item, item][..1] == [item] && [item][..0] == [];
    ShopIsShared(shown, SHOP);
    ShopIsShared(shown, BOTH);
    RefundsAreMerged(base, prefix);
    assert MergeAll(shown, SHOP, [item], base) == BOTH;
  }
}
