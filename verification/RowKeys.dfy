/** The entity keys that rows are matched on in the row merge. */
module RowKeys {
  import opened Text
  import opened RowMerge

  /** `piece` is what follows the last double underscore of `name`, or all of it when there is none. */
  ghost predicate IsLastPiece(name: string, piece: string) {
    && !Contains(piece, "__") && EndsWith(name, piece)
    && if Contains(name, "__") then EndsWith(name, "__" + piece) else piece == name
  }

  lemma {:induction false} LastPieceIsLast(name: string)
    ensures IsLastPiece(name, LastPiece(name))
  {
    if |name| < 2 {
      ShortHasNoPair(name);
    } else if name[|name| - 2..] == "__" {
      ShortHasNoPair("");
      assert "__" <= name[|name| - 2..];
      assert "__" + "" == "__";
    } else {
      var n := |name| - 1;
      LastPieceIsLast(name[..n]);
      assert name == name[..n] + [name[n]];
      PieceGrows(name[..n], LastPiece(name[..n]), name[n]);
    }
  }

  lemma ShortHasNoPair(s: string)
    requires |s| < 2
    ensures !Contains(s, "__")
  {
  }

  /** A character that makes no pair of underscores belongs to the last piece. */
  lemma PieceGrows(front: string, piece: string, c: char)
    requires front != "" && !(front[|front| - 1] == '_' && c == '_') && IsLastPiece(front, piece)
    ensures IsLastPiece(front + [c], piece + [c])
  {
    PairAtEnd(front, c);
    PairAtEnd(piece, c);
    if piece != "" { assert piece[|piece| - 1] == front[|front| - 1]; }
    if Contains(front, "__") {
      assert "__" + (piece + [c]) == ("__" + piece) + [c];
      SuffixGrows(front, "__" + piece, c);
    }
    SuffixGrows(front, piece, c);
  }

  /** One more character makes a pair of underscores only at the end. */
  lemma PairAtEnd(s: string, c: char)
    ensures Contains(s + [c], "__") <==> Contains(s, "__") || (s != "" && s[|s| - 1] == '_' && c == '_')
  {
    var t := s + [c];
    if i :| 0 <= i <= |t| && "__" <= t[i..] {
      assert t[i] == '_' && t[i + 1] == '_';
      if i + 1 < |s| { assert "__" <= s[i..]; }
    }
    if i :| 0 <= i <= |s| && "__" <= s[i..] { assert "__" <= t[i..]; }
    if s != "" && s[|s| - 1] == '_' && c == '_' { assert "__" <= t[|s| - 1..]; }
  }

  lemma SuffixGrows(s: string, suffix: string, c: char)
    requires EndsWith(s, suffix)
    ensures EndsWith(s + [c], suffix + [c])
  {
  }

  /** Rows are matched on entity keys only: each is the last piece of a column name, stripped, and is
      itself the name of an identifier, a number or a name. */
  lemma {:induction false} EntityKeysAreEntities(row: Columns)
    ensures forall key :: key in EntityKeys(row) ==> EntityLike(key) && exists c :: c in row && key == Strip(LastPiece(c.name))
  {
    if row != [] {
      var front, last := row[..|row| - 1], row[|row| - 1];
      assert row == front + [last];
      EntityKeysAreEntities(front);
      var piece := LastPiece(last.name);
      var left, right := StripParts(piece);
      TrimmedIsItsStrip(Strip(piece));
      assert EntityLike(Strip(piece)) <==> EntityLike(piece);
    }
  }

  /** A further column adds its entity as the last key, exactly when it names one that is not there yet. */
  lemma KeysGrow(row: Columns, c: Column)
    ensures var key := Strip(LastPiece(c.name));
            EntityKeys(row + [c]) == if EntityLike(LastPiece(c.name)) && key !in EntityKeys(row) then EntityKeys(row) + [key] else EntityKeys(row)
    ensures EntityKeys([]) == []
  {
    assert (row + [c])[..|row|] == row;
  }

  /** Every entity that a column names is a key. */
  lemma {:induction false} EntitiesAreKeys(row: Columns, c: Column)
    requires c in row && EntityLike(LastPiece(c.name))
    ensures Strip(LastPiece(c.name)) in EntityKeys(row)
  {
    var front, last := row[..|row| - 1], row[|row| - 1];
    assert row == front + [last];
    if c in front { EntitiesAreKeys(front, c); }
  }

  /** A name means an entity when it is `id`, or ends in `_id`, `_no` or `_name`, whatever its case and blanks. */
  lemma EntityNamesExactly(name: string)
    ensures EntityLike(name) <==>
              var text := Lower(Strip(name));
              text == "id" || exists stem :: text == stem + "_id" || text == stem + "_no" || text == stem + "_name"
  {
    var text := Lower(Strip(name));
    if EndsWith(text, "_id") { assert text == text[..|text| - 3] + "_id"; }
    if EndsWith(text, "_no") { assert text == text[..|text| - 3] + "_no"; }
    if EndsWith(text, "_name") { assert text == text[..|text| - 5] + "_name"; }
  }

  /** Cells are compared as stripped texts; null, a blank text and zero count for nothing. */
  lemma NormalizedExactly(shown: real -> string, text: string, value: real)
    ensures Normalized(shown, Null) == "" && Normalized(shown, Number(0.0)) == ""
    ensures Normalized(shown, Word(text)) == Strip(text)
    ensures value != 0.0 ==> Normalized(shown, Number(value)) == Strip(shown(value))
  {
  }

  /** What a row holds under a key: the texts, not blank, of the columns that bear it, with a table in front or not. */
  lemma ValuesExactly(shown: real -> string, row: Columns, key: string, v: string)
    ensures v in ValuesUnder(shown, row, key) <==>
              v != "" && exists c :: c in row && (c.name == key || exists front :: c.name == front + "__" + key) && Normalized(shown, c.cell) == v
  {
    forall c | c in row ensures Under(c.name, key) <==> c.name == key || exists front :: c.name == front + "__" + key {
      UnderExactly(c.name, key);
    }
  }

  lemma UnderExactly(name: string, key: string)
    ensures Under(name, key) <==> name == key || exists front :: name == front + "__" + key
  {
    var suffix := "__" + key;
    if EndsWith(name, suffix) {
      var front := name[..|name| - |suffix|];
      assert name == front + suffix == front + "__" + key;
    }
    if front :| name == front + "__" + key {
      assert name == front + suffix;
      assert name[|name| - |suffix|..] == suffix;
    }
  }

  ghost predicate NoneShares(shown: real -> string, row: Columns, rows: seq<Columns>, key: string) {
    forall r :: r in rows ==> !Shares(shown, row, r, key)
  }

  lemma NoMatchNoneShares(shown: real -> string, row: Columns, rows: seq<Columns>, key: string)
    requires FirstSharing(shown, row, rows, key) == |rows|
    ensures NoneShares(shown, row, rows, key)
  {
    forall r | r in rows ensures !Shares(shown, row, r, key) { var j :| 0 <= j < |rows| && rows[j] == r; }
  }

  /** Under none of the keys does any row share a value. */
  ghost predicate AllNoneShare(shown: real -> string, row: Columns, rows: seq<Columns>, keys: seq<string>) {
    keys == [] || (NoneShares(shown, row, rows, keys[0]) && AllNoneShare(shown, row, rows, keys[1..]))
  }

  lemma OneMoreKey(shown: real -> string, row: Columns, rows: seq<Columns>, keys: seq<string>, m: nat)
    requires m < |keys| - 1 && NoneShares(shown, row, rows, keys[0]) && AllNoneShare(shown, row, rows, keys[1..][..m])
    ensures AllNoneShare(shown, row, rows, keys[..m + 1])
  {
    assert keys[..m + 1][0] == keys[0] && keys[..m + 1][1..] == keys[1..][..m];
  }

  lemma NextKeys(shown: real -> string, row: Columns, rows: seq<Columns>, keys: seq<string>)
    requires FirstByKeys(shown, row, rows, keys) < |rows|
    ensures keys != []
    ensures FirstSharing(shown, row, rows, keys[0]) < |rows| ==> FirstByKeys(shown, row, rows, keys) == FirstSharing(shown, row, rows, keys[0])
    ensures FirstSharing(shown, row, rows, keys[0]) == |rows| ==> FirstByKeys(shown, row, rows, keys) == FirstByKeys(shown, row, rows, keys[1..])
  {
  }

  /** The keys are tried in order, and under the first key that any row shares the first such row is taken. */
  lemma {:induction false} FirstKeyFirstRow(shown: real -> string, row: Columns, rows: seq<Columns>, keys: seq<string>) returns (k: nat)
    requires FirstByKeys(shown, row, rows, keys) < |rows|
    ensures k < |keys| && AllNoneShare(shown, row, rows, keys[..k])
    ensures FirstByKeys(shown, row, rows, keys) == FirstSharing(shown, row, rows, keys[k])
    decreases |keys|
  {
    NextKeys(shown, row, rows, keys);
    k := 0;
    if FirstSharing(shown, row, rows, keys[0]) == |rows| {
      NoMatchNoneShares(shown, row, rows, keys[0]);
      var m := FirstKeyFirstRow(shown, row, rows, keys[1..]);
      OneMoreKey(shown, row, rows, keys, m);
      k := m + 1;
    }
  }

  /** The first row that shares a value of the key. */
  lemma FirstSharingIsFirst(shown: real -> string, row: Columns, rows: seq<Columns>, key: string)
    ensures var i := FirstSharing(shown, row, rows, key);
            && (forall j :: 0 <= j < i ==> !Shares(shown, row, rows[j], key))
            && (i < |rows| ==> exists v :: v in ValuesUnder(shown, row, key) && v in ValuesUnder(shown, rows[i], key))
            && (i == |rows| ==> NoneShares(shown, row, rows, key))
  {
    var i := FirstSharing(shown, row, rows, key);
    if i == |rows| {
      NoMatchNoneShares(shown, row, rows, key);
    } else {
      var both := ValuesUnder(shown, row, key) * ValuesUnder(shown, rows[i], key);
      var v :| v in both;
    }
  }
}
