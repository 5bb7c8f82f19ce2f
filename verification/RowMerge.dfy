/**
 Merging result rows of several tasks: `merge_visible_task_rows` of `answer.py`.
 A row is a dictionary in insertion order; the merge copies the first rows of
 the base task and fills them, in two passes, from the first matching row of
 every other task.
 */
module RowMerge {
  import opened Text

  /** A cell value; `Number` stands for a value that Python does not print as itself. */
  datatype Cell = Null | Word(text: string) | Number(value: real)

  datatype Column = Column(name: string, cell: Cell)

  type Columns = seq<Column>

  /** The table name of a task after safe_ascii_component. */
  type Prefix = s: string | forall c :: c in s ==> IsWord(c)

  /** The rows of another task. */
  datatype Item = Item(prefix: Prefix, rows: seq<Columns>)

  const VISIBLE_ROWS := 20

  predicate IsEmpty(cell: Cell) { cell == Null || cell == Word("") }

  /** normalized_cell; `shown` is `str` on numbers. */
  function Normalized(shown: real -> string, cell: Cell): string {
    match cell
    case Null => ""
    case Word(text) => Strip(text)
    case Number(value) => if value == 0.0 then "" else Strip(shown(value))
  }

  // ----- a dictionary in insertion order

  function IndexOf(row: Columns, name: string): (i: nat)
    ensures i <= |row|
    ensures i < |row| ==> row[i].name == name
    ensures forall j :: 0 <= j < i ==> row[j].name != name
  {
    if row == [] then 0 else if row[0].name == name then 0 else 1 + IndexOf(row[1..], name)
  }

  predicate Has(row: Columns, name: string) { IndexOf(row, name) < |row| }

  function Get(row: Columns, name: string): Cell
    requires Has(row, name)
  {
    row[IndexOf(row, name)].cell
  }

  function Put(row: Columns, name: string, cell: Cell): Columns {
    if Has(row, name) then row[IndexOf(row, name) := Column(name, cell)] else row + [Column(name, cell)]
  }

  function Pop(row: Columns, name: string): Columns
    requires Has(row, name)
  {
    row[..IndexOf(row, name)] + row[IndexOf(row, name) + 1..]
  }

  predicate Unique(row: Columns) {
    forall i, j :: 0 <= i < j < |row| ==> row[i].name != row[j].name
  }

  lemma HasName(row: Columns, name: string)
    ensures Has(row, name) <==> exists c :: c in row && c.name == name
  {
    if Has(row, name) { assert row[IndexOf(row, name)] in row; }
  }

  // ----- names

  predicate EndsWith(s: string, suffix: string) {
    |suffix| <= |s| && s[|s| - |suffix|..] == suffix
  }

  /** `s.rsplit("__", 1)[-1]` */
  function LastPiece(s: string): string {
    if |s| < 2 then s
    else if s[|s| - 2..] == "__" then ""
    else LastPiece(s[..|s| - 1]) + [s[|s| - 1]]
  }

  predicate EntityLike(name: string) {
    var text := Lower(Strip(name));
    text == "id" || EndsWith(text, "_id") || EndsWith(text, "_no") || EndsWith(text, "_name")
  }

  /** merge_conflict_column_name; empty when there is no alias. */
  function Alias(prefix: Prefix, name: string): string {
    var text := Strip(name);
    if prefix != "" && text != "" then prefix + "__" + text else ""
  }

  /** The column holds values of the entity `key`. */
  predicate Under(name: string, key: string) { name == key || EndsWith(name, "__" + key) }

  // ----- matching

  predicate HasEntity(row: Columns) { exists c :: c in row && EntityLike(c.name) }

  function EntityKeys(row: Columns): (keys: seq<string>)
    ensures forall key :: key in keys ==> Trimmed(key) && key != ""
  {
    if row == [] then []
    else
      var before, piece := EntityKeys(row[..|row| - 1]), LastPiece(row[|row| - 1].name);
      EntityIsNotBlank(piece);
      if !EntityLike(piece) || Strip(piece) in before then before else before + [Strip(piece)]
  }

  lemma EntityIsNotBlank(name: string)
    ensures Trimmed(Strip(name))
    ensures EntityLike(name) ==> Strip(name) != ""
  {
    var left, right := StripParts(name);
  }

  /** The values of the entity `key` in a row. */
  function ValuesUnder(shown: real -> string, row: Columns, key: string): set<string> {
    set c | c in row && Under(c.name, key) && Normalized(shown, c.cell) != "" :: Normalized(shown, c.cell)
  }

  predicate Shares(shown: real -> string, row: Columns, other: Columns, key: string) {
    ValuesUnder(shown, row, key) * ValuesUnder(shown, other, key) != {}
  }

  /** First row sharing a value of `key`; |rows| when there is none. */
  function FirstSharing(shown: real -> string, row: Columns, rows: seq<Columns>, key: string): (i: nat)
    ensures i <= |rows|
    ensures i < |rows| ==> Shares(shown, row, rows[i], key)
    ensures forall j :: 0 <= j < i ==> !Shares(shown, row, rows[j], key)
  {
    if rows == [] then 0
    else if Shares(shown, row, rows[0], key) then 0
    else 1 + FirstSharing(shown, row, rows[1..], key)
  }

  function FirstByKeys(shown: real -> string, row: Columns, rows: seq<Columns>, keys: seq<string>): (i: nat)
    ensures i <= |rows|
    ensures i < |rows| ==> exists key :: key in keys && Shares(shown, row, rows[i], key)
    ensures i == |rows| ==> forall key, r :: key in keys && r in rows ==> !Shares(shown, row, r, key)
  {
    if keys == [] then |rows|
    else
      var i := FirstSharing(shown, row, rows, keys[0]);
      if i < |rows| then i else FirstByKeys(shown, row, rows, keys[1..])
  }

  /** first_matching_row: an index, or |rows| for no match. */
  function FirstMatching(shown: real -> string, row: Columns, rows: seq<Columns>): (i: nat)
    ensures i <= |rows|
  {
    var i := FirstByKeys(shown, row, rows, EntityKeys(row));
    if i == |rows| && !HasEntity(row) && |rows| == 1 then 0 else i
  }

  /** A row may be filled from `rows[i]` when they share an entity value, or when it is the only
      row and the filled row has no entity column. */
  ghost predicate MayFill(shown: real -> string, row: Columns, rows: seq<Columns>, i: nat)
    requires i < |rows|
  {
    || (exists key :: key in EntityKeys(row) && Shares(shown, row, rows[i], key))
    || (!HasEntity(row) && |rows| == 1)
  }

  /** A match is found exactly when some row may fill, and it is one that may. */
  lemma MatchIsExact(shown: real -> string, row: Columns, rows: seq<Columns>)
    ensures var i := FirstMatching(shown, row, rows);
            && (i < |rows| ==> MayFill(shown, row, rows, i))
            && (i == |rows| ==> forall j :: 0 <= j < |rows| ==> !MayFill(shown, row, rows, j))
  {
    var i := FirstMatching(shown, row, rows);
    if i == |rows| {
      forall j | 0 <= j < |rows| ensures !MayFill(shown, row, rows, j) {
        assert rows[j] in rows;
      }
    }
  }

  // ----- merging

  /** One column of the matching row is put into the target. */
  function MergeColumn(target: Columns, c: Column, base: Prefix, prefix: Prefix): Columns {
    if !Has(target, c.name) || IsEmpty(Get(target, c.name)) then Put(target, c.name, c.cell)
    else if Get(target, c.name) == c.cell then target
    else
      var aside, alias := Alias(base, c.name), Alias(prefix, c.name);
      var moved := if aside != "" && !Has(target, aside)
                   then Put(Pop(target, c.name), aside, Get(target, c.name)) else target;
      if alias != "" && !Has(moved, alias) then Put(moved, alias, c.cell) else moved
  }

  function MergeRow(target: Columns, found: Columns, base: Prefix, prefix: Prefix): Columns {
    if found == [] then target
    else MergeColumn(MergeRow(target, found[..|found| - 1], base, prefix), found[|found| - 1], base, prefix)
  }

  function MergeItem(shown: real -> string, target: Columns, item: Item, base: Prefix): Columns {
    var i := FirstMatching(shown, target, item.rows);
    if i == |item.rows| then target else MergeRow(target, item.rows[i], base, item.prefix)
  }

  /** The row after the other tasks have been visited in order. */
  function MergeAll(shown: real -> string, target: Columns, items: seq<Item>, base: Prefix): Columns {
    if items == [] then target
    else MergeItem(shown, MergeAll(shown, target, items[..|items| - 1], base), items[|items| - 1], base)
  }

  lemma {:induction false} VisitsCompose(shown: real -> string, target: Columns, a: seq<Item>, b: seq<Item>, base: Prefix)
    ensures MergeAll(shown, target, a + b, base) == MergeAll(shown, MergeAll(shown, target, a, base), b, base)
  {
    if b == [] {
      assert a + b == a;
    } else {
      assert (a + b)[..|a + b| - 1] == a + b[..|b| - 1];
      VisitsCompose(shown, target, a, b[..|b| - 1], base);
    }
  }

  // ----- the rows as objects

  class Row {
    var columns: Columns

    constructor (columns: Columns)
      ensures this.columns == columns
    {
      this.columns := columns;
    }

    method Absorb(c: Column, base: Prefix, prefix: Prefix) returns (changed: bool)
      modifies this
      ensures columns == MergeColumn(old(columns), c, base, prefix)
      ensures !changed ==> columns == old(columns)
    {
      changed := false;
      if !Has(columns, c.name) || IsEmpty(Get(columns, c.name)) {
        columns := Put(columns, c.name, c.cell);
        return true;
      }
      if Get(columns, c.name) != c.cell {
        var aside, alias := Alias(base, c.name), Alias(prefix, c.name);
        if aside != "" && !Has(columns, aside) {
          var popped := Get(columns, c.name);
          columns := Pop(columns, c.name);
          columns := Put(columns, aside, popped);
          changed := true;
        }
        if alias != "" && !Has(columns, alias) {
          columns := Put(columns, alias, c.cell);
          changed := true;
        }
      }
    }

    method AbsorbRow(found: Columns, base: Prefix, prefix: Prefix) returns (changed: bool)
      modifies this
      ensures columns == MergeRow(old(columns), found, base, prefix)
      ensures !changed ==> columns == old(columns)
    {
      changed := false;
      for i := 0 to |found|
        invariant columns == MergeRow(old(columns), found[..i], base, prefix)
        invariant !changed ==> columns == old(columns)
      {
        assert found[..i + 1][..i] == found[..i];
        var more := Absorb(found[i], base, prefix);
        changed := changed || more;
      }
      assert found[..|found|] == found;
    }
  }

  method RowEntityValues(shown: real -> string, row: Columns, key: string) returns (values: seq<string>)
    ensures forall v :: v in values <==> v in ValuesUnder(shown, row, key)
    ensures forall i, j :: 0 <= i < j < |values| ==> values[i] != values[j]
  {
    values := [];
    for i := 0 to |row|
      invariant forall v :: v in values <==> v in ValuesUnder(shown, row[..i], key)
      invariant forall i, j :: 0 <= i < j < |values| ==> values[i] != values[j]
    {
      var text := Normalized(shown, row[i].cell);
      assert row[..i + 1] == row[..i] + [row[i]];
      if Under(row[i].name, key) && text != "" && text !in values { values := values + [text]; }
    }
    assert row[..|row|] == row;
  }

  method EntityKeyList(row: Columns) returns (keys: seq<string>)
    ensures keys == EntityKeys(row)
  {
    keys := [];
    for i := 0 to |row|
      invariant keys == EntityKeys(row[..i])
    {
      assert row[..i + 1][..i] == row[..i];
      var piece := LastPiece(row[i].name);
      if EntityLike(piece) && Strip(piece) !in keys { keys := keys + [Strip(piece)]; }
    }
    assert row[..|row|] == row;
  }

  /** The inner loop of first_matching_row. */
  method FirstSharingRow(shown: real -> string, row: Columns, rows: seq<Columns>, key: string, baseValues: seq<string>)
    returns (i: nat)
    requires forall v :: v in baseValues <==> v in ValuesUnder(shown, row, key)
    ensures i == FirstSharing(shown, row, rows, key)
  {
    i := 0;
    while i < |rows|
      invariant i <= |rows|
      invariant FirstSharing(shown, row, rows, key) == i + FirstSharing(shown, row, rows[i..], key)
    {
      var rowValues := RowEntityValues(shown, rows[i], key);
      CommonIsShared(shown, row, rows[i], key, baseValues, rowValues);
      assert rows[i..][0] == rows[i] && rows[i..][1..] == rows[i + 1..];
      if rowValues != [] && Common(baseValues, rowValues) { return; }
      i := i + 1;
    }
  }

  method FirstMatchingRow(shown: real -> string, row: Columns, rows: seq<Columns>) returns (i: nat)
    ensures i == FirstMatching(shown, row, rows)
  {
    var keys := EntityKeyList(row);
    for k := 0 to |keys|
      invariant FirstByKeys(shown, row, rows, keys) == FirstByKeys(shown, row, rows, keys[k..])
    {
      assert keys[k..][0] == keys[k] && keys[k..][1..] == keys[k + 1..];
      var baseValues := RowEntityValues(shown, row, keys[k]);
      if baseValues == [] {
        NothingToShare(shown, row, rows, keys[k]);
        continue;
      }
      i := FirstSharingRow(shown, row, rows, keys[k], baseValues);
      if i < |rows| { return; }
    }
    if !HasEntity(row) && |rows| == 1 { return 0; }
    return |rows|;
  }

  lemma NothingToShare(shown: real -> string, row: Columns, rows: seq<Columns>, key: string)
    requires forall v :: v !in ValuesUnder(shown, row, key)
    ensures FirstSharing(shown, row, rows, key) == |rows|
  {
    assert ValuesUnder(shown, row, key) == {};
  }

  /** `set(a) & set(b)` is not empty. */
  predicate Common(a: seq<string>, b: seq<string>) { exists v :: v in a && v in b }

  lemma CommonIsShared(shown: real -> string, row: Columns, other: Columns, key: string, a: seq<string>, b: seq<string>)
    requires forall v :: v in a <==> v in ValuesUnder(shown, row, key)
    requires forall v :: v in b <==> v in ValuesUnder(shown, other, key)
    ensures Common(a, b) <==> Shares(shown, row, other, key)
  {
    var both := ValuesUnder(shown, row, key) * ValuesUnder(shown, other, key);
    if v :| v in a && v in b { assert v in both; }
    if forall v :: v !in both { assert both == {}; }
  }

  // ----- the merge

  /** The rows of a task, as objects. */
  datatype Task = Task(prefix: Prefix, rows: seq<Row>)

  function Contents(rows: seq<Row>): (r: seq<Columns>)
    reads rows
    ensures |r| == |rows| && forall i :: 0 <= i < |rows| ==> r[i] == rows[i].columns
  {
    seq(|rows|, i requires 0 <= i < |rows| reads rows => rows[i].columns)
  }

  ghost predicate Distinct(rows: seq<Row>) {
    forall i, j :: 0 <= i < j < |rows| ==> rows[i] != rows[j]
  }

  method MergeInto(shown: real -> string, target: Row, item: Item, base: Prefix) returns (changed: bool)
    modifies target
    ensures target.columns == MergeItem(shown, old(target.columns), item, base)
    ensures !changed ==> target.columns == old(target.columns)
  {
    changed := false;
    var m := FirstMatchingRow(shown, target.columns, item.rows);
    if m < |item.rows| && item.rows[m] != [] {
      changed := target.AbsorbRow(item.rows[m], base, item.prefix);
    }
  }

  method MergeItemInto(shown: real -> string, merged: seq<Row>, item: Item, base: Prefix) returns (changed: bool)
    requires Distinct(merged)
    modifies merged
    ensures forall i :: 0 <= i < |merged| ==> merged[i].columns == MergeItem(shown, old(merged[i].columns), item, base)
    ensures !changed ==> forall i :: 0 <= i < |merged| ==> merged[i].columns == old(merged[i].columns)
  {
    changed := false;
    ghost var before := Contents(merged);
    ghost var after := seq(|merged|, k requires 0 <= k < |merged| => MergeItem(shown, before[k], item, base));
    for i := 0 to |merged|
      invariant forall k :: 0 <= k < |merged| ==> merged[k].columns == if k < i then after[k] else before[k]
      invariant !changed ==> forall k :: 0 <= k < |merged| ==> merged[k].columns == before[k]
    {
      assert forall k :: 0 <= k < |merged| && k != i ==> merged[k] != merged[i];
      var more := MergeInto(shown, merged[i], item, base);
      changed := changed || more;
    }
  }

  /** One pass over the other tasks. */
  method MergePass(shown: real -> string, merged: seq<Row>, items: seq<Item>, base: Prefix) returns (changed: bool)
    requires Distinct(merged)
    modifies merged
    ensures forall i :: 0 <= i < |merged| ==> merged[i].columns == MergeAll(shown, old(merged[i].columns), items, base)
    ensures !changed ==> forall i :: 0 <= i < |merged| ==> merged[i].columns == old(merged[i].columns)
  {
    changed := false;
    for j := 0 to |items|
      invariant forall i :: 0 <= i < |merged| ==> merged[i].columns == MergeAll(shown, old(merged[i].columns), items[..j], base)
      invariant !changed ==> forall i :: 0 <= i < |merged| ==> merged[i].columns == old(merged[i].columns)
    {
      assert items[..j + 1][..j] == items[..j];
      var more := MergeItemInto(shown, merged, items[j], base);
      changed := changed || more;
    }
    assert items[..|items|] == items;
  }

  /** What becomes of a row of the base task: two full passes. Stopping early is not seen. */
  function Merged(shown: real -> string, row: Columns, items: seq<Item>, base: Prefix): Columns {
    MergeAll(shown, row, items + items, base)
  }

  /** The first VISIBLE_ROWS rows of the base task, in their order, each merged on its own; the
      result holds new rows only and nothing that existed before is modified. */
  method MergeVisibleTaskRows(shown: real -> string, base: Task, items: seq<Item>) returns (merged: seq<Row>)
    ensures |merged| == if |base.rows| < 20 then |base.rows| else 20
    ensures forall i :: 0 <= i < |merged| ==> merged[i].columns == Merged(shown, base.rows[i].columns, items, base.prefix)
    ensures Distinct(merged) && forall i :: 0 <= i < |merged| ==> fresh(merged[i])
  {
    merged := CopyRows(if |base.rows| < VISIBLE_ROWS then base.rows else base.rows[..VISIBLE_ROWS]);
    var changed := MergePass(shown, merged, items, base.prefix);
    ghost var first := Contents(merged);
    if changed {
      changed := MergePass(shown, merged, items, base.prefix);
    }
    forall i | 0 <= i < |merged| ensures merged[i].columns == Merged(shown, base.rows[i].columns, items, base.prefix) {
      VisitsCompose(shown, base.rows[i].columns, items, items, base.prefix);
      assert first[i] == MergeAll(shown, base.rows[i].columns, items, base.prefix);
    }
  }

  /** `[dict(row) for row in rows]` */
  method CopyRows(rows: seq<Row>) returns (copies: seq<Row>)
    ensures |copies| == |rows| && Distinct(copies)
    ensures forall i :: 0 <= i < |rows| ==> fresh(copies[i]) && copies[i].columns == rows[i].columns
  {
    copies := [];
    for i := 0 to |rows|
      invariant |copies| == i && Distinct(copies)
      invariant forall k :: 0 <= k < i ==> fresh(copies[k]) && copies[k].columns == rows[k].columns
    {
      var copy := new Row(rows[i].columns);
      copies := copies + [copy];
    }
  }
}
