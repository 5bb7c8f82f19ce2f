/**
 Markdown table rows: written by `markdown_table` of `answer.py`, read by
 `markdown_table_cells` of `answer_claims.py`. The row syntax is that of
 section 4.10 of the GitHub Flavored Markdown specification.
 */
module MarkdownTable {
  import opened Text

  const BAR := "|"

  // ----- writing

  /** `"| %s |" % " | ".join(cells)` */
  function Row(cells: seq<string>): string { "| " + Join(cells, " | ") + " |" }

  function Repeat(s: string, n: nat): seq<string> { seq(n, _ => s) }

  /** The divider line: one `---` per column. */
  function Divider(columns: nat): string { Row(Repeat("---", columns)) }

  // ----- reading

  /** The pieces of `value` from the front; `escaped`: a backslash is pending. */
  function SplitPipes(value: string, escaped: bool): (pieces: seq<string>)
    ensures |pieces| > 0
  {
    if value == "" then [""]
    else if value[0] == '|' && !escaped then [""] + SplitPipes(value[1..], false)
    else Prepend(value[0], SplitPipes(value[1..], value[0] == '\\' && !escaped))
  }

  /** _split_unescaped_pipes */
  method SplitUnescapedPipes(value: string) returns (output: seq<string>)
    ensures output == SplitPipes(value, false)
  {
    output := [];
    var current := "";
    var escaped := false;
    OntoNothing(SplitPipes(value, false));
    for i := 0 to |value|
      invariant output + Onto(current, SplitPipes(value[i..], escaped)) == SplitPipes(value, false)
    {
      PipeStep(output, current, value[i..], escaped);
      assert value[i..][1..] == value[i + 1..];
      if value[i] == '|' && !escaped {
        output := output + [current];
        current := "";
        continue;
      }
      current := current + [value[i]];
      if value[i] == '\\' {
        escaped := !escaped;
      } else {
        escaped := false;
      }
    }
    assert current + "" == current && Onto(current, [""]) == [current];
    output := output + [current];
  }

  /** The pieces when `text` has already been read into the first one. */
  function Onto(text: string, pieces: seq<string>): seq<string>
    requires |pieces| > 0
  {
    [text + pieces[0]] + pieces[1..]
  }

  lemma OntoNothing(pieces: seq<string>)
    requires |pieces| > 0
    ensures Onto("", pieces) == pieces
  {
    assert "" + pieces[0] == pieces[0];
  }

  lemma PipeStep(output: seq<string>, current: string, value: string, escaped: bool)
    requires value != ""
    ensures output + Onto(current, SplitPipes(value, escaped)) ==
            if value[0] == '|' && !escaped then (output + [current]) + Onto("", SplitPipes(value[1..], false))
            else output + Onto(current + [value[0]], SplitPipes(value[1..], value[0] == '\\' && !escaped))
  {
    var c := value[0];
    if c == '|' && !escaped {
      var rest := SplitPipes(value[1..], false);
      assert SplitPipes(value, escaped) == [""] + rest;
      assert current + "" == current;
      assert Onto(current, [""] + rest) == [current] + rest;
      OntoNothing(rest);
    } else {
      var rest := SplitPipes(value[1..], c == '\\' && !escaped);
      assert SplitPipes(value, escaped) == Prepend(c, rest);
      assert current + ([c] + rest[0]) == (current + [c]) + rest[0];
    }
  }

  function CountBars(s: string): nat {
    if s == "" then 0 else (if s[0] == '|' then 1 else 0) + CountBars(s[1..])
  }

  /** `cell.replace("\\|", "|")` */
  function Unescape(s: string): string {
    if |s| < 2 then s
    else if s[0] == '\\' && s[1] == '|' then ['|'] + Unescape(s[2..])
    else [s[0]] + Unescape(s[1..])
  }

  function ReadCells(pieces: seq<string>): seq<string> {
    if pieces == [] then [] else [Strip(Unescape(pieces[0]))] + ReadCells(pieces[1..])
  }

  /** markdown_table_cells; `[]` when the line is not a table row. */
  function Cells(line: string): seq<string> {
    var text := Strip(line);
    if |text| < 2 || text[0] != '|' || CountBars(text) < 2 then []
    else if text[|text| - 1] == '|' then ReadCells(SplitPipes(text[1..|text| - 1], false))
    else ReadCells(SplitPipes(text[1..], false))
  }

  function Opened(text: string): string { if text != "" && text[0] == ':' then text[1..] else text }

  function Closed(text: string): string { if text != "" && text[|text| - 1] == ':' then text[..|text| - 1] else text }

  /** _markdown_separator_cell */
  predicate IsSeparatorCell(cell: string) {
    var body := Closed(Opened(Strip(cell)));
    |body| >= 3 && forall k :: 0 <= k < |body| ==> body[k] == '-'
  }

  /** markdown_separator_row */
  predicate IsSeparatorRow(cells: seq<string>) {
    cells != [] && forall k :: 0 <= k < |cells| ==> IsSeparatorCell(cells[k])
  }

  // ----- splitting loses nothing

  /** Joined with bars, the pieces are the text again, whatever it is. */
  lemma {:induction false} PipesRejoin(value: string, escaped: bool)
    ensures Join(SplitPipes(value, escaped), BAR) == value
  {
    if value != "" {
      if value[0] == '|' && !escaped {
        var rest := SplitPipes(value[1..], false);
        PipesRejoin(value[1..], false);
        assert ([""] + rest)[1..] == rest;
        assert value == "" + BAR + value[1..];
      } else {
        var rest := SplitPipes(value[1..], value[0] == '\\' && !escaped);
        PipesRejoin(value[1..], value[0] == '\\' && !escaped);
        assert Prepend(value[0], rest)[1..] == rest[1..];
        assert value == [value[0]] + value[1..];
      }
    }
  }

  // ----- the bars between cells always split

  /** Whether a backslash is pending behind `text`. */
  function EscapedAfter(text: string, escaped: bool): bool {
    if text == "" then escaped else EscapedAfter(text[1..], text[0] == '\\' && !escaped)
  }

  /** A blank drops any pending backslash. */
  lemma {:induction false} BlankEnds(text: string, escaped: bool)
    ensures !EscapedAfter(text + [' '], escaped)
  {
    if text == "" {
      assert (text + [' '])[1..] == "";
    } else {
      assert (text + [' '])[1..] == text[1..] + [' '];
      BlankEnds(text[1..], text[0] == '\\' && !escaped);
    }
  }

  lemma {:induction false} SplitsAtBar(text: string, rest: string, escaped: bool)
    requires !EscapedAfter(text, escaped)
    ensures SplitPipes(text + ([BAR[0]] + rest), escaped) == SplitPipes(text, escaped) + SplitPipes(rest, false)
  {
    var s := text + (['|'] + rest);
    if text == "" {
      assert s == ['|'] + rest && s[1..] == rest;
    } else {
      assert s[0] == text[0] && s[1..] == text[1..] + (['|'] + rest);
      var next := text[0] == '\\' && !escaped;
      SplitsAtBar(text[1..], rest, next);
      if !(text[0] == '|' && !escaped) {
        PrependConcat(text[0], SplitPipes(text[1..], next), SplitPipes(rest, false));
      }
    }
  }

  lemma PrependConcat(c: char, a: seq<string>, b: seq<string>)
    requires |a| > 0
    ensures Prepend(c, a + b) == Prepend(c, a) + b
  {}

  /** A cell with the blanks written around it. */
  function Pad(cell: string): string { [' '] + cell + [' '] }

  function PadAll(cells: seq<string>): seq<string> {
    if cells == [] then [] else [Pad(cells[0])] + PadAll(cells[1..])
  }

  /** What stands between the outer bars of a row. */
  function Inner(cells: seq<string>): string { " " + Join(cells, " | ") + " " }

  /** The pieces of all cells, each split by itself. */
  function Pieces(cells: seq<string>): seq<string> {
    if cells == [] then [] else SplitPipes(Pad(cells[0]), false) + Pieces(cells[1..])
  }

  lemma InnerUnfold(cells: seq<string>)
    requires cells != []
    ensures Inner(cells) == if |cells| == 1 then Pad(cells[0]) else Pad(cells[0]) + (['|'] + Inner(cells[1..]))
  {
    if |cells| > 1 {
      var rest := Join(cells[1..], " | ");
      assert Join(cells, " | ") == cells[0] + " | " + rest;
      assert " | " == [' '] + ['|'] + [' '];
    }
  }

  /** A row splits cell by cell. */
  lemma {:induction false} InnerSplits(cells: seq<string>)
    requires cells != []
    ensures SplitPipes(Inner(cells), false) == Pieces(cells)
  {
    InnerUnfold(cells);
    if |cells| == 1 {
      assert Pieces(cells) == SplitPipes(Pad(cells[0]), false) + [];
    } else {
      BlankEnds([' '] + cells[0], false);
      SplitsAtBar(Pad(cells[0]), Inner(cells[1..]), false);
      InnerSplits(cells[1..]);
    }
  }

  lemma RowShape(cells: seq<string>)
    ensures Strip(Row(cells)) == Row(cells)
    ensures |Row(cells)| >= 2 && Row(cells)[0] == '|' && Row(cells)[|Row(cells)| - 1] == '|'
    ensures Row(cells)[1..|Row(cells)| - 1] == Inner(cells)
    ensures CountBars(Row(cells)) >= 2
  {
    var s := Row(cells);
    assert s[0] == '|' && s[|s| - 1] == '|';
    TrimmedIsItsStrip(s);
    CountLastBar(s[1..]);
  }

  lemma {:induction false} CountLastBar(s: string)
    requires s != "" && s[|s| - 1] == '|'
    ensures CountBars(s) >= 1
  {
    if s[0] != '|' { CountLastBar(s[1..]); }
  }

  /** Reading a written row is reading the pieces of its cells. */
  lemma CellsOfRow(cells: seq<string>)
    requires cells != []
    ensures Cells(Row(cells)) == ReadCells(Pieces(cells))
  {
    RowShape(cells);
    InnerSplits(cells);
  }

  // ----- a cell without bars is read as it was

  predicate HasBar(s: string) { CountBars(s) > 0 }

  lemma {:induction false} NoBarNoSplit(s: string, escaped: bool)
    requires !HasBar(s)
    ensures SplitPipes(s, escaped) == [s] && Unescape(s) == s
    decreases |s|
  {
    if s != "" {
      NoBarNoSplit(s[1..], s[0] == '\\' && !escaped);
      assert s == [s[0]] + s[1..];
    }
  }

  lemma {:induction false} CountConcat(a: string, b: string)
    ensures CountBars(a + b) == CountBars(a) + CountBars(b)
  {
    if a == "" {
      assert a + b == b;
    } else {
      var ab := a + b;
      assert ab[0] == a[0] && ab[1..] == a[1..] + b;
      CountConcat(a[1..], b);
    }
  }

  lemma PadCounts(cell: string)
    ensures CountBars(Pad(cell)) == CountBars(cell)
  {
    var blank := [' '];
    assert blank[1..] == "";
    CountConcat(blank, cell);
    CountConcat(blank + cell, blank);
  }

  lemma StripPad(cell: string)
    requires Trimmed(cell)
    ensures Strip(Pad(cell)) == cell
  {
    var s := Pad(cell);
    var tail := cell + [' '];
    assert s[1..] == tail;
    if cell == "" {
      assert tail[1..] == "" && StripLeft(IsSpace, tail) == "";
      assert StripLeft(IsSpace, s) == StripLeft(IsSpace, tail);
    } else {
      assert tail[0] == cell[0] && tail[..|cell|] == cell;
      assert StripLeft(IsSpace, s) == tail;
      assert StripRight(IsSpace, tail) == StripRight(IsSpace, cell) == cell;
    }
  }

  lemma {:induction false} ReadPadded(cells: seq<string>)
    requires forall c :: c in cells ==> !HasBar(c) && Trimmed(c)
    ensures ReadCells(Pieces(cells)) == cells
  {
    if cells != [] {
      var c := cells[0];
      assert c in cells;
      PadCounts(c);
      NoBarNoSplit(Pad(c), false);
      StripPad(c);
      ReadPadded(cells[1..]);
      var all := [Pad(c)] + Pieces(cells[1..]);
      assert all[1..] == Pieces(cells[1..]);
      assert cells == [c] + cells[1..];
    }
  }

  // ----- a cell with a bar is not

  /** Every bar follows a backslash that is not itself escaped. */
  predicate Marked(s: string, escaped: bool) {
    s == "" || ((s[0] == '|' ==> escaped) && Marked(s[1..], s[0] == '\\' && !escaped))
  }

  /** A text that is not split has only escaped bars. */
  lemma {:induction false} UnsplitIsMarked(s: string, escaped: bool)
    requires |SplitPipes(s, escaped)| == 1
    ensures SplitPipes(s, escaped) == [s] && Marked(s, escaped)
  {
    PipesRejoin(s, escaped);
    if s != "" {
      UnsplitIsMarked(s[1..], s[0] == '\\' && !escaped);
    }
  }

  /** Unescaping then drops one backslash for each bar; only a bar in front whose backslash came
      earlier costs nothing. */
  lemma {:induction false} UnescapeDrops(s: string, escaped: bool)
    requires Marked(s, escaped)
    ensures |Unescape(s)| + CountBars(s) == |s| + (if escaped && s != "" && s[0] == '|' then 1 else 0)
    decreases |s|
  {
    if |s| >= 2 {
      if s[0] == '\\' && s[1] == '|' {
        assert s[1..][0] == '|' && s[1..][1..] == s[2..];
        UnescapeDrops(s[2..], false);
      } else {
        UnescapeDrops(s[1..], s[0] == '\\' && !escaped);
      }
    } else if |s| == 1 {
      assert s[1..] == "";
    }
  }

  /** Unescaping keeps a blank at either end. */
  lemma {:induction false} UnescapeKeepsEnds(s: string)
    requires |s| >= 2 && s[|s| - 1] == ' '
    ensures |Unescape(s)| >= 1 && Unescape(s)[|Unescape(s)| - 1] == ' '
    ensures s[0] == ' ' ==> |Unescape(s)| >= 2 && Unescape(s)[0] == ' '
    decreases |s|
  {
    if s[0] == '\\' && s[1] == '|' {
      assert s[|s| - 1] == s[2..][|s| - 3];
      if |s| > 3 { UnescapeKeepsEnds(s[2..]); }
    } else if |s| > 2 {
      assert s[|s| - 1] == s[1..][|s| - 2];
      UnescapeKeepsEnds(s[1..]);
    }
  }

  lemma StripDropsEnds(s: string)
    requires |s| >= 2 && s[0] == ' ' && s[|s| - 1] == ' '
    ensures |Strip(s)| <= |s| - 2
  {
    var left, right := StripParts(s);
    var m := Strip(s);
    if m != "" {
      assert s[|left|] == m[0] && s[|left| + |m| - 1] == m[|m| - 1];
    }
  }

  /** A padded cell that stays whole and has a bar is read shorter than it was. */
  lemma BarShortens(cell: string)
    requires |SplitPipes(Pad(cell), false)| == 1 && HasBar(cell)
    ensures SplitPipes(Pad(cell), false) == [Pad(cell)]
    ensures |Strip(Unescape(Pad(cell)))| < |cell|
  {
    UnsplitIsMarked(Pad(cell), false);
    UnescapeDrops(Pad(cell), false);
    PadCounts(cell);
    UnescapeKeepsEnds(Pad(cell));
    StripDropsEnds(Unescape(Pad(cell)));
  }

  lemma {:induction false} ReadCount(pieces: seq<string>)
    ensures |ReadCells(pieces)| == |pieces|
  {
    if pieces != [] { ReadCount(pieces[1..]); }
  }

  lemma {:induction false} PiecesCount(cells: seq<string>)
    ensures |Pieces(cells)| >= |cells|
  {
    if cells != [] { PiecesCount(cells[1..]); }
  }

  lemma {:induction false} ReadBackHasNoBars(cells: seq<string>)
    requires ReadCells(Pieces(cells)) == cells
    ensures forall c :: c in cells ==> !HasBar(c)
  {
    if cells != [] {
      var c := cells[0];
      var first, rest := SplitPipes(Pad(c), false), Pieces(cells[1..]);
      ReadCount(first + rest);
      PiecesCount(cells[1..]);
      assert |first| == 1;
      assert (first + rest)[0] == first[0] && (first + rest)[1..] == rest;
      assert ReadCells(first + rest) == [Strip(Unescape(first[0]))] + ReadCells(rest);
      if HasBar(c) { BarShortens(c); }
      ReadBackHasNoBars(cells[1..]);
    }
  }

  // ----- the round trip

  /** A written row is read back as its (trimmed) cells exactly when none of them holds a bar. */
  lemma RowRoundTrip(cells: seq<string>)
    requires cells != [] && forall c :: c in cells ==> Trimmed(c)
    ensures Cells(Row(cells)) == cells <==> forall c :: c in cells ==> !HasBar(c)
  {
    CellsOfRow(cells);
    if forall c :: c in cells ==> !HasBar(c) { ReadPadded(cells); }
    if Cells(Row(cells)) == cells { ReadBackHasNoBars(cells); }
  }

  lemma SplitAtOneBar(left: string, right: string)
    requires !HasBar(left) && !HasBar(right) && !EscapedAfter(left, false)
    ensures SplitPipes(left + (['|'] + right), false) == [left, right]
  {
    SplitsAtBar(left, right, false);
    NoBarNoSplit(left, false);
    NoBarNoSplit(right, false);
  }

  lemma StripOneBlank(c: char)
    requires !IsSpace(c)
    ensures Strip([' ', c]) == [c] && Strip([c, ' ']) == [c]
  {
    assert [' ', c][1..] == [c] && [c, ' '][..1] == [c];
    assert StripLeft(IsSpace, [c]) == [c] && StripRight(IsSpace, [c]) == [c];
    assert StripLeft(IsSpace, [' ', c]) == [c] && StripLeft(IsSpace, [c, ' ']) == [c, ' '];
    assert StripRight(IsSpace, [c, ' ']) == [c];
  }

  /** The one cell `a|b` is written without an escape and read back as two. */
  lemma BarSplitsTheCell()
    ensures Cells(Row(["a|b"])) == ["a", "b"]
  {
    var left, right := " a", "b ";
    assert Pad("a|b") == left + (['|'] + right);
    SplitAtOneBar(left, right);
    StripOneBlank('a');
    StripOneBlank('b');
    NoBarNoSplit(left, false);
    NoBarNoSplit(right, false);
    CellsOfRow(["a|b"]);
    OneCell("a|b", [left, right]);
    TwoCells(left, right);
  }

  lemma OneCell(cell: string, pieces: seq<string>)
    requires SplitPipes(Pad(cell), false) == pieces
    ensures Pieces([cell]) == pieces
  {
    assert [cell][1..] == [];
    assert Pieces([]) == [];
  }

  lemma TwoCells(left: string, right: string)
    ensures ReadCells([left, right]) == [Strip(Unescape(left)), Strip(Unescape(right))]
  {
    assert [left, right][1..] == [right] && [right][1..] == [];
    assert ReadCells([right]) == [Strip(Unescape(right))] + ReadCells([]);
    assert ReadCells([left, right]) == [Strip(Unescape(left))] + ReadCells([right]);
  }

  /** The divider of a written table is recognized, and has a cell per column. */
  lemma DividerIsSeparator(columns: nat)
    requires columns > 0
    ensures IsSeparatorRow(Cells(Divider(columns))) && |Cells(Divider(columns))| == columns
  {
    var cells := Repeat("---", columns);
    assert CountBars("---") == 0 by {
      assert "---"[1..] == "--" && "--"[1..] == "-" && "-"[1..] == "";
    }
    RowRoundTrip(cells);
    TrimmedIsItsStrip("---");
    assert IsSeparatorCell("---");
  }

  /** A written row with any character but dashes and colons in a cell is not taken for a divider. */
  lemma DataRowIsNoSeparator(cells: seq<string>, k: nat, c: char)
    requires cells != [] && forall cell :: cell in cells ==> Trimmed(cell) && !HasBar(cell)
    requires k < |cells| && c in cells[k] && c != '-' && c != ':'
    ensures !IsSeparatorRow(Cells(Row(cells)))
  {
    RowRoundTrip(cells);
    assert cells[k] in cells;
    if IsSeparatorCell(cells[k]) { OnlyDashesAndColons(cells[k]); }
  }

  lemma OnlyDashesAndColons(cell: string)
    requires Trimmed(cell) && IsSeparatorCell(cell)
    ensures forall c :: c in cell ==> c == '-' || c == ':'
  {
    TrimmedIsItsStrip(cell);
  }
}
