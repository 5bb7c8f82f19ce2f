/**
 When a number of a claim gets a clause to be checked in. Clauses are cut at points
 and commas, so that `200.5` is stated in no segment: the verifier then falls back
 to the whole claim. Here is the exact condition.
 */
module ClaimContexts {
  import opened Text
  import opened NumberScanner
  import opened WholeNumbers
  import opened ClaimTokens
  import opened ClaimVerifier

  // ----- where the pieces of a split lie

  ghost function PieceStarts(s: string, separators: string): seq<nat> {
    if s == [] then [0]
    else
      var before := PieceStarts(s[..|s| - 1], separators);
      if s[|s| - 1] in separators then before + [|s|] else before
  }

  /** Piece `k` lies at its start, between separators or the ends. */
  ghost predicate PieceAt(s: string, separators: string, start: nat, piece: string) {
    && start + |piece| <= |s| && s[start..start + |piece|] == piece
    && (start > 0 ==> s[start - 1] in separators)
    && (start + |piece| < |s| ==> s[start + |piece|] in separators)
  }

  ghost predicate PiecesLie(s: string, separators: string, pieces: seq<string>, starts: seq<nat>) {
    && |pieces| == |starts| > 0
    && (forall k :: 0 <= k < |pieces| ==> PieceAt(s, separators, starts[k], pieces[k]))
    && starts[|pieces| - 1] + |pieces[|pieces| - 1]| == |s|
  }

  lemma PieceAtFront(front: string, c: char, separators: string, start: nat, piece: string)
    requires PieceAt(front, separators, start, piece) && (start + |piece| == |front| ==> c in separators)
    ensures PieceAt(front + [c], separators, start, piece)
  {
    assert (front + [c])[start..start + |piece|] == front[start..start + |piece|];
  }

  lemma LieAfterSeparator(front: string, c: char, separators: string, pieces: seq<string>, starts: seq<nat>)
    requires PiecesLie(front, separators, pieces, starts) && c in separators
    ensures PiecesLie(front + [c], separators, pieces + [""], starts + [|front| + 1])
  {
    forall k | 0 <= k < |pieces| ensures PieceAt(front + [c], separators, starts[k], pieces[k]) {
      PieceAtFront(front, c, separators, starts[k], pieces[k]);
    }
    assert PieceAt(front + [c], separators, |front| + 1, "");
  }

  lemma LieAfterCharacter(front: string, c: char, separators: string, pieces: seq<string>, starts: seq<nat>)
    requires PiecesLie(front, separators, pieces, starts) && c !in separators
    requires forall k :: 0 <= k < |pieces| - 1 ==> starts[k] + |pieces[k]| < |front|
    ensures PiecesLie(front + [c], separators, pieces[..|pieces| - 1] + [pieces[|pieces| - 1] + [c]], starts)
  {
    var n := |pieces| - 1;
    forall k | 0 <= k < n ensures PieceAt(front + [c], separators, starts[k], pieces[k]) {
      PieceAtFront(front, c, separators, starts[k], pieces[k]);
    }
    assert PieceAt(front, separators, starts[n], pieces[n]);
    assert (front + [c])[starts[n]..] == pieces[n] + [c];
    assert PieceAt(front + [c], separators, starts[n], pieces[n] + [c]);
  }

  lemma {:induction false} PiecesAreSlices(s: string, separators: string)
    ensures PiecesLie(s, separators, SplitOn(s, separators), PieceStarts(s, separators))
  {
    if s != [] {
      var front, c := s[..|s| - 1], s[|s| - 1];
      assert s == front + [c];
      PiecesAreSlices(front, separators);
      InnerPiecesStop(front, separators);
      if c in separators {
        LieAfterSeparator(front, c, separators, SplitOn(front, separators), PieceStarts(front, separators));
      } else {
        LieAfterCharacter(front, c, separators, SplitOn(front, separators), PieceStarts(front, separators));
      }
    }
  }

  /** Only the last piece reaches the end. */
  lemma {:induction false} InnerPiecesStop(s: string, separators: string)
    ensures var pieces, starts := SplitOn(s, separators), PieceStarts(s, separators);
            |pieces| == |starts| && forall k :: 0 <= k < |pieces| - 1 ==> starts[k] + |pieces[k]| < |s|
    ensures var pieces, starts := SplitOn(s, separators), PieceStarts(s, separators);
            starts[|pieces| - 1] + |pieces[|pieces| - 1]| == |s|
  {
    if s != [] { InnerPiecesStop(s[..|s| - 1], separators); }
  }

  /** Every character that is no separator lies in a piece. */
  lemma {:induction false} PieceWith(s: string, separators: string, i: nat) returns (k: nat)
    requires i < |s| && s[i] !in separators
    ensures var pieces, starts := SplitOn(s, separators), PieceStarts(s, separators);
            k < |pieces| == |starts| && starts[k] <= i < starts[k] + |pieces[k]|
  {
    var front, n := s[..|s| - 1], |s| - 1;
    PiecesAreSlices(front, separators);
    if i == n {
      k := |SplitOn(s, separators)| - 1;
    } else {
      k := PieceWith(front, separators, i);
    }
  }

  // ----- clauses and segments are slices

  predicate AreCuts(separators: string) { forall c :: c in separators ==> IsCut(c) }

  lemma SeparatorsAreCuts()
    ensures AreCuts(CLAUSE_ENDS) && AreCuts(SEGMENT_ENDS)
  {
  }

  lemma StripIsSlice(s: string) returns (p: nat)
    ensures IsSlice(s, p, Strip(s))
    ensures forall i :: 0 <= i < |s| && !IsSpace(s[i]) ==> p <= i < p + |Strip(s)|
  {
    var left, right := StripParts(s);
    p := |left|;
    assert s[p..p + |Strip(s)|] == Strip(s);
    if p > 0 { assert left[p - 1] in left; }
    if right != [] { assert right[0] in right; }
    forall i | 0 <= i < |s| && !IsSpace(s[i]) ensures p <= i < p + |Strip(s)| {
      InkStays(s, left, Strip(s), right, i);
    }
  }

  lemma PieceIsSlice(text: string, separators: string, k: nat) returns (start: nat)
    requires AreCuts(separators) && k < |SplitOn(text, separators)|
    ensures k < |PieceStarts(text, separators)| && start == PieceStarts(text, separators)[k]
    ensures IsSlice(text, start, SplitOn(text, separators)[k])
  {
    PiecesAreSlices(text, separators);
    start := PieceStarts(text, separators)[k];
    assert PieceAt(text, separators, start, SplitOn(text, separators)[k]);
  }

  lemma StrippedPieceIsSlice(text: string, separators: string, k: nat) returns (p: nat)
    requires AreCuts(separators) && k < |SplitOn(text, separators)|
    ensures IsSlice(text, p, Strip(SplitOn(text, separators)[k]))
  {
    var piece := SplitOn(text, separators)[k];
    var start := PieceIsSlice(text, separators, k);
    var q := StripIsSlice(piece);
    SliceOfSlice(text, start, piece, q, Strip(piece));
    p := start + q;
  }

  /** A clause is the part of the text between two cuts. */
  lemma ClauseIsSlice(text: string, separators: string, clause: string) returns (p: nat)
    requires AreCuts(separators) && clause in Clauses(text, separators)
    ensures IsSlice(text, p, clause)
  {
    var pieces := SplitOn(text, separators);
    StrippedPieces(pieces);
    var piece :| piece in pieces && Strip(piece) == clause;
    var k :| 0 <= k < |pieces| && pieces[k] == piece;
    p := StrippedPieceIsSlice(text, separators, k);
  }

  /** The piece that holds a run. */
  lemma RunInPiece(text: string, separators: string, a: nat, b: nat) returns (piece: string, start: nat)
    requires AreCuts(separators) && IsRun(text, a, b)
    ensures piece in SplitOn(text, separators) && IsSlice(text, start, piece)
    ensures start <= a && b <= start + |piece|
  {
    assert IsDigit(text[a]);
    assert text[a] !in separators;
    var k := PieceWith(text, separators, a);
    piece := SplitOn(text, separators)[k];
    start := PieceIsSlice(text, separators, k);
    RunStaysInSlice(text, start, piece, a, b);
  }

  lemma RunInStrip(piece: string, a: nat, b: nat) returns (q: nat)
    requires IsRun(piece, a, b)
    ensures IsSlice(piece, q, Strip(piece)) && q <= a && b <= q + |Strip(piece)| && Strip(piece) != ""
  {
    q := StripIsSlice(piece);
    assert IsDigit(piece[a]) && !IsSpace(piece[a]);
    RunStaysInSlice(piece, q, Strip(piece), a, b);
  }

  lemma RunWithin(text: string, p: nat, sub: string, a: nat, b: nat)
    requires IsSlice(text, p, sub) && IsRun(text, a, b) && p <= a && b <= p + |sub|
    ensures IsRun(sub, a - p, b - p)
  {
    RunOfSlice(text, p, sub, a - p, b - p);
  }

  lemma RunInPieceStrip(text: string, start: nat, piece: string, a: nat, b: nat) returns (q: nat)
    requires IsSlice(text, start, piece) && start <= a && b <= start + |piece| && IsRun(text, a, b)
    ensures IsSlice(piece, q, Strip(piece)) && Strip(piece) != ""
    ensures start + q <= a && b <= start + q + |Strip(piece)|
  {
    RunWithin(text, start, piece, a, b);
    q := RunInStrip(piece, a - start, b - start);
  }

  lemma RunOfPiece(text: string, start: nat, piece: string, a: nat, b: nat) returns (p: nat)
    requires IsSlice(text, start, piece) && start <= a && b <= start + |piece| && IsRun(text, a, b)
    ensures IsSlice(text, p, Strip(piece)) && p <= a && b <= p + |Strip(piece)| && Strip(piece) != ""
  {
    var q := RunInPieceStrip(text, start, piece, a, b);
    SliceOfSlice(text, start, piece, q, Strip(piece));
    p := start + q;
  }

  /** Every digit run lies whole in a clause. */
  lemma RunInClause(text: string, separators: string, a: nat, b: nat) returns (clause: string, p: nat)
    requires AreCuts(separators) && IsRun(text, a, b)
    ensures clause in Clauses(text, separators) && IsSlice(text, p, clause) && p <= a && b <= p + |clause|
  {
    var piece, start := RunInPiece(text, separators, a, b);
    p := RunOfPiece(text, start, piece, a, b);
    clause := Strip(piece);
    StrippedPieces(SplitOn(text, separators));
  }

  lemma RunStaysInSlice(text: string, p: nat, sub: string, a: nat, b: nat)
    requires IsSlice(text, p, sub) && IsRun(text, a, b) && p <= a < p + |sub|
    ensures b <= p + |sub|
  {
    var e := p + |sub|;
    if e < |text| { assert !IsDigit(text[e]); }
  }

  /** A segment of the text: a part of a clause of it. */
  ghost predicate IsSegment(text: string, segment: string) {
    exists clause :: clause in Clauses(text, CLAUSE_ENDS) && segment in Clauses(clause, SEGMENT_ENDS)
  }

  lemma SegmentIsSlice(text: string, segment: string) returns (p: nat)
    requires IsSegment(text, segment)
    ensures IsSlice(text, p, segment) && IsWhole(segment)
  {
    var clause :| clause in Clauses(text, CLAUSE_ENDS) && segment in Clauses(clause, SEGMENT_ENDS);
    SeparatorsAreCuts();
    var q := ClauseIsSlice(text, CLAUSE_ENDS, clause);
    var r := ClauseIsSlice(clause, SEGMENT_ENDS, segment);
    SliceOfSlice(text, q, clause, r, segment);
    p := q + r;
    SegmentIsWhole(text, clause, segment);
  }

  lemma SegmentIsWhole(text: string, clause: string, segment: string)
    requires clause in Clauses(text, CLAUSE_ENDS) && segment in Clauses(clause, SEGMENT_ENDS)
    ensures IsWhole(segment)
  {
    ClauseHoldsNoSeparator(text, CLAUSE_ENDS, clause);
    ClauseHoldsNoSeparator(clause, SEGMENT_ENDS, segment);
    SegmentCharacters(clause, segment);
    assert '.' in CLAUSE_ENDS && ',' in SEGMENT_ENDS;
    forall c | c in segment ensures c != '.' && c != ',' { assert c in clause; }
  }

  lemma RunInClauseSegment(text: string, q: nat, clause: string, a: nat, b: nat) returns (segment: string, p: nat)
    requires IsSlice(text, q, clause) && IsRun(text, a, b) && q <= a && b <= q + |clause|
    ensures segment in Clauses(clause, SEGMENT_ENDS)
    ensures IsSlice(text, p, segment) && p <= a && b <= p + |segment|
  {
    SeparatorsAreCuts();
    RunWithin(text, q, clause, a, b);
    var r: nat;
    segment, r := RunInClause(clause, SEGMENT_ENDS, a - q, b - q);
    SliceOfSlice(text, q, clause, r, segment);
    p := q + r;
  }

  lemma RunInSegment(text: string, a: nat, b: nat) returns (segment: string, p: nat)
    requires IsRun(text, a, b)
    ensures IsSegment(text, segment) && IsSlice(text, p, segment) && p <= a && b <= p + |segment|
  {
    SeparatorsAreCuts();
    var clause, q := RunInClause(text, CLAUSE_ENDS, a, b);
    segment, p := RunInClauseSegment(text, q, clause, a, b);
  }

  // ----- dates of a slice

  lemma CharOfSlice(text: string, p: nat, sub: string, k: nat)
    requires IsSlice(text, p, sub) && k <= |sub|
    ensures k < |sub| ==> text[p + k] == sub[k]
    ensures p + k < |text| && IsDigit(text[p + k]) ==> k < |sub| && IsDigit(sub[k])
  {
    if k < |sub| { assert text[p..p + |sub|][k] == sub[k]; }
  }

  lemma {:induction false} DigitEndIs(text: string, i: nat, end: nat)
    requires i <= end <= |text| && (forall k :: i <= k < end ==> IsDigit(text[k]))
    ensures DigitEnd(text, i) >= end
    ensures end < |text| && !IsDigit(text[end]) ==> DigitEnd(text, i) == end
    ensures end == |text| ==> DigitEnd(text, i) == end
    decreases end - i
  {
    if i < end { DigitEndIs(text, i + 1, end); }
  }

  lemma {:induction false} DigitEndOfSlice(text: string, p: nat, sub: string, i: nat)
    requires IsSlice(text, p, sub) && i <= |sub|
    ensures DigitEnd(text, p + i) == p + DigitEnd(sub, i)
    decreases |sub| - i
  {
    CharOfSlice(text, p, sub, i);
    if i < |sub| && IsDigit(sub[i]) { DigitEndOfSlice(text, p, sub, i + 1); }
  }

  lemma DigitRunOfSlice(text: string, p: nat, sub: string, i: nat, minimum: nat, maximum: nat)
    requires IsSlice(text, p, sub) && i <= |sub| && DigitRun(sub, i, minimum, maximum) >= 0
    ensures DigitRun(text, p + i, minimum, maximum) == p + DigitRun(sub, i, minimum, maximum)
  {
    DigitEndOfSlice(text, p, sub, i);
  }

  predicate IsSeparatorAt(text: string, k: nat) { k < |text| && IsDateSeparator(text[k]) }

  lemma SeparatorOfSlice(text: string, p: nat, sub: string, k: nat)
    requires IsSlice(text, p, sub) && IsSeparatorAt(sub, k)
    ensures IsSeparatorAt(text, p + k)
  {
    CharOfSlice(text, p, sub, k);
  }

  lemma NoDigitOfSlice(text: string, p: nat, sub: string, k: int)
    requires IsSlice(text, p, sub) && -1 <= k <= |sub| && !IsDigitAt(sub, k)
    ensures !IsDigitAt(text, p + k)
  {
    if k >= 0 { CharOfSlice(text, p, sub, k); }
  }

  /** The date at `i`, with the ends of its year, month and day. */
  predicate IsDateAt(text: string, i: nat, year: nat, month: nat, day: nat) {
    && i <= |text| && !IsDigitAt(text, i - 1)
    && DigitRun(text, i, 4, 4) == year && IsSeparatorAt(text, year)
    && DigitRun(text, year + 1, 1, 2) == month && IsSeparatorAt(text, month)
    && DigitRun(text, month + 1, 1, 2) == day && !IsDigitAt(text, day)
  }

  lemma DateHasParts(text: string, i: nat) returns (year: nat, month: nat)
    requires i <= |text| && DateEndAt(text, i) >= 0
    ensures IsDateAt(text, i, year, month, DateEndAt(text, i))
  {
    year := DigitRun(text, i, 4, 4);
    month := DigitRun(text, year + 1, 1, 2);
  }

  lemma PartsAreDate(text: string, i: nat, year: nat, month: nat, day: nat)
    requires IsDateAt(text, i, year, month, day)
    ensures DateEndAt(text, i) == day
  {
  }

  lemma NumberOfSlice(text: string, p: nat, sub: string, i: nat, minimum: nat, maximum: nat, end: nat)
    requires IsSlice(text, p, sub) && i <= |sub| && DigitRun(sub, i, minimum, maximum) == end
    ensures p + i <= |text| && DigitRun(text, p + i, minimum, maximum) == p + end
  {
    DigitRunOfSlice(text, p, sub, i, minimum, maximum);
  }

  lemma MonthOfSlice(text: string, p: nat, sub: string, year: nat, month: nat)
    requires IsSlice(text, p, sub) && IsSeparatorAt(sub, year) && DigitRun(sub, year + 1, 1, 2) == month && IsSeparatorAt(sub, month)
    ensures IsSeparatorAt(text, p + year) && DigitRun(text, p + year + 1, 1, 2) == p + month && IsSeparatorAt(text, p + month)
  {
    SeparatorOfSlice(text, p, sub, year);
    SeparatorOfSlice(text, p, sub, month);
    NumberOfSlice(text, p, sub, year + 1, 1, 2, month);
  }

  lemma DayOfSlice(text: string, p: nat, sub: string, month: nat, day: nat)
    requires IsSlice(text, p, sub) && IsSeparatorAt(sub, month) && DigitRun(sub, month + 1, 1, 2) == day && !IsDigitAt(sub, day)
    ensures p + month + 1 <= |text| && DigitRun(text, p + month + 1, 1, 2) == p + day && !IsDigitAt(text, p + day)
  {
    NumberOfSlice(text, p, sub, month + 1, 1, 2, day);
    NoDigitOfSlice(text, p, sub, day);
  }

  lemma PartsOfSlice(text: string, p: nat, sub: string, i: nat, year: nat, month: nat, day: nat)
    requires IsSlice(text, p, sub) && IsDateAt(sub, i, year, month, day)
    ensures IsDateAt(text, p + i, p + year, p + month, p + day)
  {
    NumberOfSlice(text, p, sub, i, 4, 4, year);
    NoDigitOfSlice(text, p, sub, i - 1);
    MonthOfSlice(text, p, sub, year, month);
    DayOfSlice(text, p, sub, month, day);
  }

  ghost predicate HasDateAt(text: string, i: nat) {
    exists year: nat, month: nat, day: nat :: IsDateAt(text, i, year, month, day)
  }

  lemma DateIsItsParts(text: string, i: nat)
    requires i <= |text|
    ensures DateEndAt(text, i) >= 0 <==> HasDateAt(text, i)
  {
    if DateEndAt(text, i) >= 0 { var year, month := DateHasParts(text, i); }
    if year: nat, month: nat, day: nat :| IsDateAt(text, i, year, month, day) { PartsAreDate(text, i, year, month, day); }
  }

  /** A date in a slice is a date of the text. */
  lemma DateOfSlice(text: string, p: nat, sub: string, i: nat)
    requires IsSlice(text, p, sub) && HasDateAt(sub, i)
    ensures HasDateAt(text, p + i)
  {
    var year: nat, month: nat, day: nat :| IsDateAt(sub, i, year, month, day);
    PartsOfSlice(text, p, sub, i, year, month, day);
  }

  /** No date is found exactly when none starts anywhere. */
  lemma {:induction false} NoDateAnywhere(text: string, cursor: nat)
    requires cursor <= |text|
    ensures Dates(text, cursor) == [] <==> forall i :: cursor <= i < |text| ==> DateEndAt(text, i) < 0
    decreases |text| - cursor
  {
    if cursor < |text| && DateEndAt(text, cursor) < 0 { NoDateAnywhere(text, cursor + 1); }
  }

  lemma DateFreeHasNoDate(text: string)
    ensures IsDateFree(text) <==> forall i: nat :: i < |text| ==> !HasDateAt(text, i)
  {
    NoDateAnywhere(text, 0);
    forall i: nat | i < |text| ensures DateEndAt(text, i) >= 0 <==> HasDateAt(text, i) { DateIsItsParts(text, i); }
  }

  lemma SliceIsDateFree(text: string, p: nat, sub: string)
    requires IsSlice(text, p, sub) && IsDateFree(text)
    ensures IsDateFree(sub)
  {
    DateFreeHasNoDate(text);
    DateFreeHasNoDate(sub);
    forall i: nat | i < |sub| ensures !HasDateAt(sub, i) {
      if HasDateAt(sub, i) { DateOfSlice(text, p, sub, i); }
    }
  }

  // ----- the exact condition

  /** The reader extracts what the scanner extracts. */
  ghost predicate ReadsNumbers(r: Reader, formula: Formula) {
    forall s :: r.tokens(s) == Extract(formula, s)
  }

  /** `t` is a free digit run of the segment that touches no date or time and no formula of it. */
  ghost predicate IsPlainRun(formula: Formula, segment: string, t: string) {
    exists a: nat, b: nat :: IsPlainRunAt(formula, segment, a, b) && t == RunToken(segment, a, b)
  }

  ghost predicate IsPlainRunAt(formula: Formula, segment: string, a: nat, b: nat) {
    && IsFree(segment, a, b)
    && var span := Span(RunStart(segment, a), PercentEnd(segment, b));
       !Overlaps(span, Temporal(segment)) && !formula(segment, span)
  }

  lemma PlainRunIsRead(formula: Formula, segment: string, t: string)
    requires IsWhole(segment) && IsPlainRun(formula, segment, t)
    ensures t in Extract(formula, segment)
  {
    var a: nat, b: nat :| IsPlainRunAt(formula, segment, a, b) && t == RunToken(segment, a, b);
    var i := RunIsSpan(segment, a, b);
    assert Spans(segment, 0)[i] in Numbers(formula, segment);
    ExtractHolds(formula, segment, t);
  }

  lemma NumberIsPlainRun(formula: Formula, segment: string, s: Span)
    requires IsWhole(segment) && s in Numbers(formula, segment)
    ensures s.start < s.end <= |segment| && IsPlainRun(formula, segment, segment[s.start..s.end])
  {
    SpansAreRuns(segment);
    assert IsRunSpan(segment, s);
    var a: nat, b: nat :| RunSpan(segment, s, a, b);
    assert IsPlainRunAt(formula, segment, a, b);
  }

  /** What is read in a text without points and commas: its dates and times, and its plain runs. */
  lemma SegmentTokens(formula: Formula, segment: string, t: string)
    requires IsWhole(segment)
    ensures t in Extract(formula, segment)
       <==> IsCutOut(segment, Temporal(segment), t) || IsPlainRun(formula, segment, t)
  {
    ExtractHolds(formula, segment, t);
    if t in Extract(formula, segment) {
      var s :| s in Extracted(formula, segment) && s.start < s.end <= |segment| && t == segment[s.start..s.end];
      if s in Numbers(formula, segment) { NumberIsPlainRun(formula, segment, s); }
    }
    if IsPlainRun(formula, segment, t) { PlainRunIsRead(formula, segment, t); }
  }

  /** A plain run, or a date or time, of the segment reads as the same number. */
  ghost predicate SegmentReads(r: Reader, formula: Formula, raw: string, segment: string) {
    exists t :: SameNumber(r, raw, t)
             && (IsPlainRun(formula, segment, t) || IsCutOut(segment, Temporal(segment), t))
  }

  lemma StatesExactly(r: Reader, formula: Formula, raw: string, text: string, segment: string)
    requires ReadsNumbers(r, formula) && IsSegment(text, segment)
    ensures States(r, segment, raw) <==> SegmentReads(r, formula, raw, segment)
  {
    SegmentsAreWhole(text, segment);
    if States(r, segment, raw) {
      var t :| t in r.tokens(segment) && SameNumber(r, raw, t);
      SegmentTokens(formula, segment, t);
    }
    if SegmentReads(r, formula, raw, segment) {
      var t :| SameNumber(r, raw, t) && (IsPlainRun(formula, segment, t) || IsCutOut(segment, Temporal(segment), t));
      SegmentTokens(formula, segment, t);
    }
  }

  lemma SegmentsAreWhole(text: string, segment: string)
    requires IsSegment(text, segment)
    ensures IsWhole(segment)
  {
    var clause :| clause in Clauses(text, CLAUSE_ENDS) && segment in Clauses(clause, SEGMENT_ENDS);
    SegmentIsWhole(text, clause, segment);
  }

  lemma SegmentGivesContext(r: Reader, raw: string, text: string, segment: string) returns (context: string)
    requires IsSegment(text, segment) && States(r, segment, raw)
    ensures IsContext(r, raw, text, context)
  {
    var clause :| clause in Clauses(text, CLAUSE_ENDS) && segment in Clauses(clause, SEGMENT_ENDS);
    var i :| 0 <= i < |Clauses(clause, SEGMENT_ENDS)| && Clauses(clause, SEGMENT_ENDS)[i] == segment;
    context := Beginning(clause, i);
    assert IsContextIn(r, raw, clause, context);
  }

  lemma ContextGivesSegment(r: Reader, raw: string, text: string, context: string) returns (segment: string)
    requires IsContext(r, raw, text, context)
    ensures IsSegment(text, segment) && States(r, segment, raw)
  {
    var clause :| clause in Clauses(text, CLAUSE_ENDS) && IsContextIn(r, raw, clause, context);
    var segments := Clauses(clause, SEGMENT_ENDS);
    var i :| 0 <= i < |segments| && States(r, segments[i], raw) && context == Beginning(clause, i);
    segment := segments[i];
  }

  /** A number gets a clause to be checked in exactly when some digit run of a segment, not glued to a
      letter or underscore and read with its sign and percent sign, is the same number within the
      tolerance, and touches no date or time of the segment (or a date or time is the same one).
      Points and commas end a run: when no run is, the verifier falls back to the whole claim. */
  lemma ContextExistsExactly(r: Reader, formula: Formula, raw: string, text: string)
    requires ReadsNumbers(r, formula)
    ensures HasContext(r, raw, text)
       <==> exists segment :: IsSegment(text, segment) && SegmentReads(r, formula, raw, segment)
  {
    if context :| IsContext(r, raw, text, context) {
      var segment := ContextGivesSegment(r, raw, text, context);
      StatesExactly(r, formula, raw, text, segment);
    }
    if segment :| IsSegment(text, segment) && SegmentReads(r, formula, raw, segment) {
      StatesExactly(r, formula, raw, text, segment);
      var context := SegmentGivesContext(r, raw, text, segment);
    }
  }

  // ----- the same, read off the text

  /** No date, and no part of the text is a formula. */
  ghost predicate IsPlainText(formula: Formula, text: string) {
    IsDateFree(text) && forall p: nat, s, x :: IsSlice(text, p, s) ==> !formula(s, x)
  }

  /** Some free digit run of the text, with its sign and percent sign, reads as the same number. */
  ghost predicate RunStates(r: Reader, raw: string, text: string) {
    exists a: nat, b: nat :: IsFree(text, a, b) && SameNumber(r, raw, RunToken(text, a, b))
  }

  lemma FreeRunOfSlice(text: string, p: nat, sub: string, x: nat, y: nat)
    requires IsSlice(text, p, sub) && y <= |sub| && IsFree(text, p + x, p + y)
    ensures IsFree(sub, x, y) && RunToken(sub, x, y) == RunToken(text, p + x, p + y)
  {
    RunOfSlice(text, p, sub, x, y);
  }

  lemma PlainRunOfSegment(formula: Formula, text: string, p: nat, segment: string, x: nat, y: nat)
    requires IsPlainText(formula, text) && IsSlice(text, p, segment) && IsFree(segment, x, y)
    ensures IsPlainRunAt(formula, segment, x, y)
  {
    SliceIsDateFree(text, p, segment);
    NoTemporal(segment);
  }

  /** Every run of a text is a run of one of its segments. */
  lemma RunOfSegment(text: string, a: nat, b: nat) returns (segment: string, p: nat, x: nat, y: nat)
    requires IsFree(text, a, b)
    ensures IsSegment(text, segment) && IsSlice(text, p, segment)
    ensures IsFree(segment, x, y) && RunToken(segment, x, y) == RunToken(text, a, b)
  {
    segment, p := RunInSegment(text, a, b);
    x, y := a - p, b - p;
    assert p + x == a && p + y == b;
    FreeRunOfSlice(text, p, segment, x, y);
  }

  lemma RunGivesSegment(r: Reader, formula: Formula, raw: string, text: string, a: nat, b: nat) returns (segment: string)
    requires IsPlainText(formula, text) && IsFree(text, a, b) && SameNumber(r, raw, RunToken(text, a, b))
    ensures IsSegment(text, segment) && SegmentReads(r, formula, raw, segment)
  {
    var p: nat, x: nat, y: nat;
    segment, p, x, y := RunOfSegment(text, a, b);
    PlainRunOfSegment(formula, text, p, segment, x, y);
    assert IsPlainRun(formula, segment, RunToken(segment, x, y));
  }

  lemma SegmentGivesRun(r: Reader, formula: Formula, raw: string, text: string, segment: string)
    requires IsPlainText(formula, text) && IsSegment(text, segment) && SegmentReads(r, formula, raw, segment)
    ensures RunStates(r, raw, text)
  {
    var p := SegmentIsSlice(text, segment);
    SliceIsDateFree(text, p, segment);
    NoTemporal(segment);
    var t :| SameNumber(r, raw, t) && (IsPlainRun(formula, segment, t) || IsCutOut(segment, Temporal(segment), t));
    var a: nat, b: nat :| IsPlainRunAt(formula, segment, a, b) && t == RunToken(segment, a, b);
    RunOfSlice(text, p, segment, a, b);
  }

  /** In a text without dates and formulas, a number gets a clause exactly when some free digit run of
      the text is the same number. */
  lemma RunGivesContext(r: Reader, formula: Formula, raw: string, text: string)
    requires ReadsNumbers(r, formula) && IsPlainText(formula, text)
    ensures HasContext(r, raw, text) <==> RunStates(r, raw, text)
  {
    ContextExistsExactly(r, formula, raw, text);
    if RunStates(r, raw, text) {
      var a: nat, b: nat :| IsFree(text, a, b) && SameNumber(r, raw, RunToken(text, a, b));
      var segment := RunGivesSegment(r, formula, raw, text, a, b);
    }
    if segment :| IsSegment(text, segment) && SegmentReads(r, formula, raw, segment) {
      SegmentGivesRun(r, formula, raw, text, segment);
    }
  }

  lemma WholeTokenIsRun(text: string, raw: string) returns (a: nat, b: nat)
    requires raw in Tokens(text) && IsWhole(raw)
    ensures IsFree(text, a, b) && RunToken(text, a, b) == raw
  {
    TokensAreCutOut(text, raw);
    var s :| s in Spans(text, 0) && s.start < s.end <= |text| && raw == text[s.start..s.end];
    WholeSpansAreRuns(text, 0);
    assert IsWholeSpan(text, s);
    a, b :| RunSpan(text, s, a, b);
  }

  /** A number of the text that has neither point nor comma always gets a clause. */
  lemma WholeNumberHasContext(r: Reader, formula: Formula, raw: string, text: string)
    requires ReadsNumbers(r, formula) && IsPlainText(formula, text)
    requires raw in r.tokens(text) && IsWhole(raw) && SameNumber(r, raw, raw)
    ensures HasContext(r, raw, text)
  {
    assert IsSlice(text, 0, text);
    DateFreeTokens(formula, text, raw);
    var a, b := WholeTokenIsRun(text, raw);
    RunGivesContext(r, formula, raw, text);
  }
}
