/**
 The rules of the direction check, each spelled out: which word, which series,
 which day of a reading, which two readings a clause compares, and the reason
 that is given.
 */
module TrendRules {
  import opened Basics
  import opened Text
  import opened Ordering
  import opened ClaimNumbers
  import opened ClaimTokens
  import opened ClaimVerifier
  import opened TrendClaims

  // ----- the word

  predicate SaysAny(text: string, words: seq<string>) {
    exists w :: w in words && w != "" && exists i :: 0 <= i <= |text| && w <= text[i..]
  }

  /** A clause that says flat claims no rise and no fall, and one that says up claims no fall. */
  lemma DirectionExactly(lang: Language, text: string)
    ensures DirectionWord(lang, text) == Some(Flat) <==> SaysAny(text, lang.flat)
    ensures DirectionWord(lang, text) == Some(Up) <==> !SaysAny(text, lang.flat) && SaysAny(text, lang.up)
    ensures DirectionWord(lang, text) == Some(Down) <==> !SaysAny(text, lang.flat) && !SaysAny(text, lang.up) && SaysAny(text, lang.down)
  {
    SaysExactly(text, lang.flat);
    SaysExactly(text, lang.up);
    SaysExactly(text, lang.down);
  }

  lemma SaysExactly(text: string, words: seq<string>)
    ensures ContainsAny(text, words) <==> SaysAny(text, words)
  {
  }

  // ----- the series

  /** A clause means the series that it names by a label; when it names none, and there is only one, that one. */
  lemma MeantExactly(all: seq<Series>, clause: string, s: Series)
    ensures s in Meant(all, clause) <==>
              && s in all
              && (|| LabelOccurs(s.labels, clause)
                  || (|all| == 1 && forall t :: t in all ==> !LabelOccurs(t.labels, clause)))
  {
    NamedAreIn(all, clause);
    if NamedIn(all, clause) != [] { assert NamedIn(all, clause)[0] in all; }
  }

  lemma {:induction false} SplitAtColon(a: string, c: string, b: string, d: string)
    requires ':' !in a && ':' !in b && a + ":" + c == b + ":" + d
    ensures a == b && c == d
  {
    var x, y := a + ":" + c, b + ":" + d;
    assert x[0] == if a == "" then ':' else a[0];
    assert y[0] == if b == "" then ':' else b[0];
    if a != "" && b != "" {
      assert x[1..] == a[1..] + ":" + c && y[1..] == b[1..] + ":" + d;
      SplitAtColon(a[1..], c, b[1..], d);
    } else if a == "" && b == "" {
      assert x[1..] == c && y[1..] == d;
    }
  }

  /** Readings of one column of one task make a series; of two columns or tasks they do not, as long as no task id
      holds a colon. */
  lemma SeriesTellApart(f: Fact, g: Fact)
    ensures f.taskId == g.taskId && f.column == g.column ==> SeriesName(f) == SeriesName(g)
    ensures ':' !in f.taskId && ':' !in g.taskId && SeriesName(f) == SeriesName(g) ==> f.taskId == g.taskId && f.column == g.column
  {
    if ':' !in f.taskId && ':' !in g.taskId && SeriesName(f) == SeriesName(g) {
      SplitAtColon(f.taskId, f.column, g.taskId, g.column);
    }
  }

  /** With a colon in a task id they may: both of these are readings of the series `a:b:c`. */
  lemma ColonJoinsSeries(f: Fact, g: Fact)
    requires f.taskId == "a" && f.column == "b:c" && g.taskId == "a:b" && g.column == "c"
    ensures SeriesName(f) == SeriesName(g)
  {
    assert "a" + ":" + "b:c" == "a:b:c" == "a:b" + ":" + "c";
  }

  lemma {:induction false} LabelsOfAllHold(points: seq<Point>)
    ensures forall l :: l in LabelsOfAll(points) <==> exists p :: p in points && l in LabelsOf(p.fact)
  {
    if points != [] {
      LabelsOfAllHold(points[1..]);
      assert points == [points[0]] + points[1..];
    }
  }

  /** A series bears the labels of all its readings. */
  lemma SeriesLabelsExactly(points: seq<Point>, l: string)
    ensures l in SeriesOf(points).labels <==> l != "" && exists p :: p in SeriesOf(points).points && l in LabelsOf(p.fact)
  {
    LabelsOfAllHold(InTime(points));
  }

  // ----- the day of a reading

  /** The first fact of the same row that is a date. */
  ghost predicate IsFirstDate(facts: seq<Fact>, f: Fact, k: int) {
    && 0 <= k < |facts| && IsDateOf(f, facts[k])
    && forall j :: 0 <= j < k ==> !IsDateOf(f, facts[j])
  }

  predicate IsDateOf(f: Fact, d: Fact) { d.taskId == f.taskId && d.rowIndex == f.rowIndex && d.valueType == "date" }

  lemma {:induction false} FirstDateOfRow(facts: seq<Fact>, f: Fact)
    ensures var date := DateFact(RowOf(facts, RowKey(f)));
            && (date.Some? ==> exists k :: IsFirstDate(facts, f, k) && facts[k] == date.value)
            && (date.None? ==> forall d :: d in facts ==> !IsDateOf(f, d))
  {
    if facts != [] {
      var front, last := facts[..|facts| - 1], facts[|facts| - 1];
      assert facts == front + [last];
      FirstDateOfRow(front, f);
      var before := RowOf(front, RowKey(f));
      DateFactOfMore(before, last);
      if DateFact(before).Some? {
        var k :| IsFirstDate(front, f, k) && front[k] == DateFact(before).value;
        assert IsFirstDate(facts, f, k) && facts[k] == front[k];
      } else if IsDateOf(f, last) {
        assert IsFirstDate(facts, f, |front|);
      }
    }
  }

  lemma {:induction false} DateFactOfMore(row: seq<Fact>, last: Fact)
    ensures DateFact(row + [last]) == if DateFact(row).Some? then DateFact(row) else if last.valueType == "date" then Some(last) else None
  {
    if row != [] {
      assert (row + [last])[1..] == row[1..] + [last];
      DateFactOfMore(row[1..], last);
    } else {
      assert (row + [last])[1..] == [];
    }
  }

  lemma {:induction false} PointsKnowTheirRow(facts: seq<Fact>, keys: seq<Row>, p: Point)
    requires p in PointsOfRows(facts, keys)
    ensures p == PointOf(p.fact, DateFact(RowOf(facts, RowKey(p.fact))))
  {
    var front, key := keys[..|keys| - 1], keys[|keys| - 1];
    if p in PointsOfRows(facts, front) {
      PointsKnowTheirRow(facts, front, p);
    } else {
      var row := RowOf(facts, key);
      ReadingsHold(row, DateFact(row));
      RowHolds(facts, key);
      assert Reads(RowPoints(row), p.fact);
    }
  }

  /** A reading has the day of the first date in its row, that is, of the same task and row number, and no day when
      there is none. */
  lemma DayExactly(facts: seq<Fact>, p: Point)
    requires p in Points(facts)
    ensures (exists k :: IsFirstDate(facts, p.fact, k) && p.date == facts[k].temporal && p.dateIds == [facts[k].id])
         || ((forall d :: d in facts ==> !IsDateOf(p.fact, d)) && p.date == "" && p.dateIds == [])
  {
    PointsKnowTheirRow(facts, Dedup(RowKeys(facts)), p);
    FirstDateOfRow(facts, p.fact);
  }

  /** A series stands in the order of days and, on one day, of rows. */
  lemma OrderExactly(facts: seq<Fact>, s: Series, i: nat, j: nat)
    requires s in AllSeries(facts) && i < j < |s.points|
    ensures StringLe(s.points[i].date, s.points[j].date)
    ensures s.points[i].date == s.points[j].date ==> s.points[i].fact.rowIndex <= s.points[j].fact.rowIndex
  {
    var name := SeriesIsExact(facts, s);
    assert NotAfter(s.points[i], s.points[j]);
    StringLeTotal(s.points[i].date, s.points[i].date);
  }

  // ----- the readings that are compared

  /** The days of a clause are those of its dates, in order. */
  lemma DaysExactly(lang: Language, clause: string)
    ensures |ClaimDates(lang, clause)| == |Dates(clause, 0)|
    ensures forall i :: 0 <= i < |Dates(clause, 0)| ==>
              ClaimDates(lang, clause)[i] == lang.temporal(clause[Dates(clause, 0)[i].start..Dates(clause, 0)[i].end])
  {
  }

  /** The first reading on the day that has one before it. */
  predicate IsFollower(points: seq<Point>, day: string, k: int) {
    0 < k < |points| && points[k].date == day && forall j :: 0 < j < k ==> points[j].date != day
  }

  predicate IsLast(points: seq<Point>, day: string, k: int) {
    0 <= k < |points| && points[k].date == day && forall j :: k < j < |points| ==> points[j].date != day
  }

  lemma {:induction false} FollowerExactly(points: seq<Point>, day: string, i: nat, k: int)
    requires forall j :: 0 < j < i ==> j >= |points| || points[j].date != day
    ensures FollowerOn(points, day, i) == Some(k) <==> k >= i && IsFollower(points, day, k)
    decreases |points| - i
  {
    if i < |points| && !(points[i].date == day && i > 0) { FollowerExactly(points, day, i + 1, k); }
  }

  lemma {:induction false} LastExactly(points: seq<Point>, day: string, k: int)
    ensures LastOn(points, day) == Some(k) <==> IsLast(points, day, k)
  {
    if points != [] && points[|points| - 1].date != day { LastExactly(points[..|points| - 1], day, k); }
  }

  /** The last day is compared with the reading before it. */
  predicate ByPreviousDay(points: seq<Point>, days: seq<string>, previous: bool, k: int) {
    previous && days != [] && IsFollower(points, days[|days| - 1], k)
  }

  /** The last readings of the first and of the last day are compared. */
  predicate ByTwoDays(points: seq<Point>, days: seq<string>, m: int, n: int) {
    |days| >= 2 && IsLast(points, days[0], m) && IsLast(points, days[|days| - 1], n)
  }

  lemma FollowerFound(points: seq<Point>, day: string, k: int)
    ensures IsFollower(points, day, k) ==> FollowerOn(points, day, 0) == Some(k)
    ensures FollowerOn(points, day, 0).Some? ==> IsFollower(points, day, FollowerOn(points, day, 0).value)
  {
    if IsFollower(points, day, k) { FollowerExactly(points, day, 0, k); }
    if FollowerOn(points, day, 0).Some? { FollowerExactly(points, day, 0, FollowerOn(points, day, 0).value); }
  }

  lemma LastFound(points: seq<Point>, day: string, k: int)
    ensures IsLast(points, day, k) ==> LastOn(points, day) == Some(k)
    ensures LastOn(points, day).Some? ==> IsLast(points, day, LastOn(points, day).value)
  {
    if IsLast(points, day, k) { LastExactly(points, day, k); }
    if LastOn(points, day).Some? { LastExactly(points, day, LastOn(points, day).value); }
  }

  lemma SomeFollower(points: seq<Point>, days: seq<string>, previous: bool)
    ensures previous && days != [] && FollowerOn(points, days[|days| - 1], 0).Some? ==> exists k :: ByPreviousDay(points, days, previous, k)
  {
    if previous && days != [] && FollowerOn(points, days[|days| - 1], 0).Some? {
      var k := FollowerOn(points, days[|days| - 1], 0).value;
      FollowerFound(points, days[|days| - 1], k);
      assert ByPreviousDay(points, days, previous, k);
    }
  }

  lemma SomeTwoDays(points: seq<Point>, days: seq<string>)
    ensures |days| >= 2 && LastOn(points, days[0]).Some? && LastOn(points, days[|days| - 1]).Some? ==> exists m, n :: ByTwoDays(points, days, m, n)
  {
    if |days| >= 2 && LastOn(points, days[0]).Some? && LastOn(points, days[|days| - 1]).Some? {
      var m, n := LastOn(points, days[0]).value, LastOn(points, days[|days| - 1]).value;
      LastFound(points, days[0], m);
      LastFound(points, days[|days| - 1], n);
      assert ByTwoDays(points, days, m, n);
    }
  }

  lemma ComparedByTwoDays(points: seq<Point>, days: seq<string>, previous: bool, m: int, n: int)
    requires points != [] && (forall k :: !ByPreviousDay(points, days, previous, k)) && ByTwoDays(points, days, m, n)
    ensures ComparedOn(points, days, previous) == (m, n)
  {
    SomeFollower(points, days, previous);
    LastFound(points, days[0], m);
    LastFound(points, days[|days| - 1], n);
  }

  lemma ComparedOverall(points: seq<Point>, days: seq<string>, previous: bool)
    requires points != [] && (forall k :: !ByPreviousDay(points, days, previous, k)) && (forall m, n :: !ByTwoDays(points, days, m, n))
    ensures ComparedOn(points, days, previous) == (0, |points| - 1)
  {
    SomeFollower(points, days, previous);
    SomeTwoDays(points, days);
  }

  /** Words for the day before come first, then two days; else the first reading is compared with the last. */
  lemma ComparedExactly(points: seq<Point>, days: seq<string>, previous: bool, m: int, n: int)
    requires points != []
    ensures ByPreviousDay(points, days, previous, n) ==> ComparedOn(points, days, previous) == (n - 1, n)
    ensures (forall k :: !ByPreviousDay(points, days, previous, k)) && ByTwoDays(points, days, m, n) ==>
              ComparedOn(points, days, previous) == (m, n)
    ensures (forall k :: !ByPreviousDay(points, days, previous, k)) && (forall i, j :: !ByTwoDays(points, days, i, j)) ==>
              ComparedOn(points, days, previous) == (0, |points| - 1)
  {
    if ByPreviousDay(points, days, previous, n) {
      FollowerFound(points, days[|days| - 1], n);
    } else if forall k :: !ByPreviousDay(points, days, previous, k) {
      if ByTwoDays(points, days, m, n) {
        ComparedByTwoDays(points, days, previous, m, n);
      } else if forall i, j :: !ByTwoDays(points, days, i, j) {
        ComparedOverall(points, days, previous);
      }
    }
  }

  /** A clause compares what its days and its words for the previous day, blanks apart, ask for. */
  lemma ClauseCompares(lang: Language, s: Series, clause: string)
    requires s.points != []
    ensures Compared(lang, s, clause) == ComparedOn(s.points, ClaimDates(lang, clause), SaysAny(Filter(c => !IsSpace(c), clause), lang.previousDay))
  {
    SaysExactly(Compact(clause), lang.previousDay);
  }

  /** The way a series goes is that from the first to the second of the compared readings. */
  lemma ExpectedExactly(lang: Language, s: Series, clause: string)
    requires s.points != []
    ensures var pair := Compared(lang, s, clause);
            && (Expected(lang, s, clause) == Up <==> ValueAt(s, pair.0) < ValueAt(s, pair.1))
            && (Expected(lang, s, clause) == Down <==> ValueAt(s, pair.0) > ValueAt(s, pair.1))
            && (Expected(lang, s, clause) == Flat <==> ValueAt(s, pair.0) == ValueAt(s, pair.1))
  {
  }

  // ----- the reason

  function ReasonOf(d: Direction): string {
    match d
    case Up => "unsupported_trend_direction:up"
    case Down => "unsupported_trend_direction:down"
    case Flat => "unsupported_trend_direction:flat"
  }

  lemma ReasonTexts(d: Direction)
    ensures WrongDirection(d) == ReasonOf(d) && NO_SERIES == "unsupported_trend_direction:no_matching_series"
  {
  }

  lemma {:induction false} SeriesReason(lang: Language, clause: string, claimed: Direction, meant: seq<Series>, ids: seq<FactId>)
    ensures var t := CheckSeries(lang, clause, claimed, meant, ids); t.reason.Some? ==> t.reason.value == ReasonOf(claimed)
    decreases |meant|
  {
    ReasonTexts(claimed);
    if meant != [] { SeriesReason(lang, clause, claimed, meant[1..], ids + IdsOf(meant[0])); }
  }

  /** The reason names the direction that the first clause not to hold claims, or says that it means no series. */
  lemma {:induction false} FirstClauseNamed(lang: Language, all: seq<Series>, clauses: seq<string>, ids: seq<FactId>, k: nat)
    requires k < |clauses| && !ClauseHolds(lang, all, clauses[k])
    requires forall clause :: clause in clauses[..k] ==> ClauseHolds(lang, all, clause)
    ensures DirectionWord(lang, clauses[k]).Some?
    ensures CheckClauses(lang, all, clauses, ids).reason
         == Some(if Meant(all, clauses[k]) == [] then "unsupported_trend_direction:no_matching_series"
                 else ReasonOf(DirectionWord(lang, clauses[k]).value))
    decreases k
  {
    ClauseAgrees(lang, all, clauses[0], ids);
    if k == 0 {
      var claimed := DirectionWord(lang, clauses[0]).value;
      ReasonTexts(claimed);
      SeriesReason(lang, clauses[0], claimed, Meant(all, clauses[0]), ids);
    } else {
      assert clauses[..k][0] == clauses[0] && clauses[1..][..k - 1] == clauses[..k][1..];
      FirstClauseNamed(lang, all, clauses[1..], CheckClause(lang, all, clauses[0], ids).factIds, k - 1);
    }
  }

  /** ... of a text that is not negated and has a direction word. */
  lemma ReasonExactly(lang: Language, facts: seq<Fact>, text: string, k: nat)
    requires !lang.negated(text) && SaysAny(text, lang.flat + lang.up + lang.down)
    requires var all, clauses := AllSeries(facts), Clauses(text, CLAUSE_ENDS);
             && k < |clauses| && !ClauseHolds(lang, all, clauses[k])
             && forall clause :: clause in clauses[..k] ==> ClauseHolds(lang, all, clause)
    ensures var all, clause := AllSeries(facts), Clauses(text, CLAUSE_ENDS)[k];
            && DirectionWord(lang, clause).Some?
            && TrendOf(lang, facts, text).reason
               == Some(if Meant(all, clause) == [] then "unsupported_trend_direction:no_matching_series"
                       else ReasonOf(DirectionWord(lang, clause).value))
  {
    SaysExactly(text, lang.flat + lang.up + lang.down);
    FirstClauseNamed(lang, AllSeries(facts), Clauses(text, CLAUSE_ENDS), [], k);
  }

  // ----- the facts that are reported

  /** The first and the last reading of a series, and the facts of their days. */
  lemma EndIdsExactly(s: Series, id: FactId)
    requires s.points != []
    ensures id in IdsOf(s) <==>
              var first, last := s.points[0], s.points[|s.points| - 1];
              id == first.fact.id || id == last.fact.id || id in first.dateIds || id in last.dateIds
  {
    var first, last := s.points[0], s.points[|s.points| - 1];
    DedupHolds([first.fact.id, last.fact.id] + first.dateIds + last.dateIds);
  }

  ghost predicate SomeReports(meant: seq<Series>, id: FactId) { exists s :: s in meant && id in IdsOf(s) }

  /** Some clause that claims a direction means a series with the id. */
  ghost predicate SomeClauseReports(lang: Language, all: seq<Series>, clauses: seq<string>, id: FactId) {
    exists clause :: clause in clauses && ClauseReports(lang, all, clause, id)
  }

  ghost predicate ClauseReports(lang: Language, all: seq<Series>, clause: string, id: FactId) {
    DirectionWord(lang, clause).Some? && SomeReports(Meant(all, clause), id)
  }

  lemma FirstReportsOrRest(s: Series, rest: seq<Series>, id: FactId)
    ensures SomeReports([s] + rest, id) <==> id in IdsOf(s) || SomeReports(rest, id)
  {
    var both := [s] + rest;
    if id in IdsOf(s) { assert s in both; }
    if t :| t in rest && id in IdsOf(t) { assert t in both; }
  }

  lemma {:induction false} SeriesReport(lang: Language, clause: string, claimed: Direction, meant: seq<Series>, ids: seq<FactId>, id: FactId)
    requires CheckSeries(lang, clause, claimed, meant, ids).reason.None?
    ensures id in CheckSeries(lang, clause, claimed, meant, ids).factIds <==> id in ids || SomeReports(meant, id)
    decreases |meant|
  {
    if meant != [] {
      NextSeries(lang, clause, claimed, meant, ids);
      SeriesReport(lang, clause, claimed, meant[1..], ids + IdsOf(meant[0]), id);
      ReportsInTurn(meant, ids, id);
    }
  }

  lemma NextSeries(lang: Language, clause: string, claimed: Direction, meant: seq<Series>, ids: seq<FactId>)
    requires meant != [] && CheckSeries(lang, clause, claimed, meant, ids).reason.None?
    ensures CheckSeries(lang, clause, claimed, meant, ids) == CheckSeries(lang, clause, claimed, meant[1..], ids + IdsOf(meant[0]))
  {
  }

  lemma ReportsInTurn(meant: seq<Series>, ids: seq<FactId>, id: FactId)
    requires meant != []
    ensures id in ids + IdsOf(meant[0]) || SomeReports(meant[1..], id) <==> id in ids || SomeReports(meant, id)
  {
    FirstReportsOrRest(meant[0], meant[1..], id);
    assert meant == [meant[0]] + meant[1..];
  }

  lemma ClauseReportsIds(lang: Language, all: seq<Series>, clause: string, ids: seq<FactId>, id: FactId)
    requires CheckClause(lang, all, clause, ids).reason.None?
    ensures id in CheckClause(lang, all, clause, ids).factIds <==> id in ids || ClauseReports(lang, all, clause, id)
  {
    var claimed := DirectionWord(lang, clause);
    if claimed.Some? { SeriesReport(lang, clause, claimed.value, Meant(all, clause), ids, id); }
  }

  lemma FirstClauseOrRest(lang: Language, all: seq<Series>, clause: string, rest: seq<string>, id: FactId)
    ensures SomeClauseReports(lang, all, [clause] + rest, id) <==> ClauseReports(lang, all, clause, id) || SomeClauseReports(lang, all, rest, id)
  {
    var both := [clause] + rest;
    if ClauseReports(lang, all, clause, id) { assert clause in both; }
    if c :| c in rest && ClauseReports(lang, all, c, id) { assert c in both; }
  }

  lemma {:induction false} ClausesReport(lang: Language, all: seq<Series>, clauses: seq<string>, ids: seq<FactId>, id: FactId)
    requires CheckClauses(lang, all, clauses, ids).reason.None?
    ensures id in CheckClauses(lang, all, clauses, ids).factIds <==> id in ids || SomeClauseReports(lang, all, clauses, id)
    decreases |clauses|
  {
    DedupHolds(ids);
    if clauses != [] {
      ClauseReportsIds(lang, all, clauses[0], ids, id);
      ClausesReport(lang, all, clauses[1..], CheckClause(lang, all, clauses[0], ids).factIds, id);
      FirstClauseOrRest(lang, all, clauses[0], clauses[1..], id);
      assert clauses == [clauses[0]] + clauses[1..];
    }
  }

  /** A text that passes reports exactly the ends of the series that its clauses with a direction mean. */
  lemma ReportedExactly(lang: Language, facts: seq<Fact>, text: string, id: FactId)
    requires !lang.negated(text) && SaysAny(text, lang.flat + lang.up + lang.down) && TrendOf(lang, facts, text).reason.None?
    ensures id in TrendOf(lang, facts, text).factIds <==> SomeClauseReports(lang, AllSeries(facts), Clauses(text, CLAUSE_ENDS), id)
  {
    SaysExactly(text, lang.flat + lang.up + lang.down);
    ClausesReport(lang, AllSeries(facts), Clauses(text, CLAUSE_ENDS), [], id);
  }
}
