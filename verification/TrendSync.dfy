/**
 Trend synchrony: `aligned_trend_sync_analysis` of `answer.py` counts, day by
 calendar day, how often several series can be compared and move together.
 Dates are day ordinals.
 */
module TrendSync {
  import opened Basics

  /** A point whose date or value may not be readable. */
  datatype Point = Point(day: Option<int>, value: Option<real>)

  datatype Group = Group(seriesComplete: bool, points: seq<Point>)

  datatype Target = Up | Down | Any

  datatype Analysis = Analysis(
    incompleteSeries: bool,
    expectedIntervals: nat,
    comparableIntervals: nat,
    matchingIntervals: nat,
    alignmentCoverage: real,
    consistencyRate: real)

  type Series = map<int, real>

  // ----- the series

  /** Readable points by day; the last point of a day wins. */
  function SeriesOf(points: seq<Point>): Series {
    if points == [] then map[]
    else
      var before, p := SeriesOf(points[..|points| - 1]), points[|points| - 1];
      if p.day.None? || p.value.None? then before else before[p.day.value := p.value.value]
  }

  function AllSeries(groups: seq<Group>): seq<Series> {
    seq(|groups|, i requires 0 <= i < |groups| => SeriesOf(groups[i].points))
  }

  function DaysOf(all: seq<Series>): set<int> {
    if all == [] then {} else all[0].Keys + DaysOf(all[1..])
  }

  // ----- one interval

  /** Every series has the day and the day before. */
  predicate IsComparable(all: seq<Series>, day: int) {
    forall s :: s in all ==> day - 1 in s && day in s
  }

  /** 1, -1 or 0: the movement of a series onto `day`. */
  function Direction(s: Series, day: int): int
    requires day - 1 in s && day in s
  {
    if s[day] > s[day - 1] then 1 else if s[day] < s[day - 1] then -1 else 0
  }

  predicate IsMatching(all: seq<Series>, day: int, target: Target)
    requires IsComparable(all, day)
  {
    match target
    case Up => forall s :: s in all ==> Direction(s, day) > 0
    case Down => forall s :: s in all ==> Direction(s, day) < 0
    case Any => all != [] && forall s, t :: s in all && t in all ==> Direction(s, day) == Direction(t, day)
  }

  // ----- the counters

  /** Comparable days in (`after`, `until`]. */
  function Comparable(all: seq<Series>, after: int, until: int): nat
    decreases until - after
  {
    if after >= until then 0 else Comparable(all, after, until - 1) + (if IsComparable(all, until) then 1 else 0)
  }

  function Matching(all: seq<Series>, after: int, until: int, target: Target): nat
    decreases until - after
  {
    if after >= until then 0
    else Matching(all, after, until - 1, target) + (if IsComparable(all, until) && IsMatching(all, until, target) then 1 else 0)
  }

  function Ratio(part: nat, whole: nat): real {
    if whole == 0 then 0.0 else part as real / whole as real
  }

  /** The analysis between the first and the last day of any series. */
  function Counted(all: seq<Series>, incomplete: bool, first: int, last: int, target: Target): Analysis
    requires first <= last
  {
    var comparable, matching := Comparable(all, first, last), Matching(all, first, last, target);
    Analysis(incomplete, last - first, comparable, matching, Ratio(comparable, last - first), Ratio(matching, comparable))
  }

  const NOTHING_TO_COMPARE := Analysis(false, 0, 0, 0, 0.0, 0.0)

  /** `a` is the analysis of `all`, whose days span from the earliest to the latest. */
  ghost predicate Analyses(a: Analysis, all: seq<Series>, incomplete: bool, target: Target) {
    if |all| < 2 || |DaysOf(all)| < 2 then a == NOTHING_TO_COMPARE.(incompleteSeries := incomplete)
    else exists first, last :: Span(all, first, last) && first <= last && a == Counted(all, incomplete, first, last, target)
  }

  /** The earliest and the latest day. */
  ghost predicate Span(all: seq<Series>, first: int, last: int) {
    first in DaysOf(all) && last in DaysOf(all) && forall d :: d in DaysOf(all) ==> first <= d <= last
  }

  method AlignedTrendSyncAnalysis(groups: seq<Group>, target: Target) returns (a: Analysis)
    ensures Analyses(a, AllSeries(groups), exists g :: g in groups && !g.seriesComplete, target)
  {
    var all: seq<Series> := [];
    var incomplete := false;
    for i := 0 to |groups|
      invariant all == AllSeries(groups[..i])
      invariant incomplete <==> exists g :: g in groups[..i] && !g.seriesComplete
    {
      if !groups[i].seriesComplete { incomplete := true; }
      var values := ReadPoints(groups[i].points);
      assert groups[..i + 1] == groups[..i] + [groups[i]];
      assert AllSeries(groups[..i + 1]) == AllSeries(groups[..i]) + [SeriesOf(groups[i].points)];
      all := all + [values];
    }
    assert groups[..|groups|] == groups;
    var days := DaysOf(all);
    if |all| < 2 || |days| < 2 {
      return NOTHING_TO_COMPARE.(incompleteSeries := incomplete);
    }
    assert days != {};
    var first, last := Ends(days);
    var comparable, matching := 0, 0;
    for day := first + 1 to last + 1
      invariant comparable == Comparable(all, first, day - 1)
      invariant matching == Matching(all, first, day - 1, target)
    {
      if !IsComparable(all, day) { continue; }
      comparable := comparable + 1;
      if IsMatching(all, day, target) { matching := matching + 1; }
    }
    a := Analysis(incomplete, last - first, comparable, matching, Ratio(comparable, last - first), Ratio(matching, comparable));
    assert Span(all, first, last) && a == Counted(all, incomplete, first, last, target);
  }

  method ReadPoints(points: seq<Point>) returns (values: Series)
    ensures values == SeriesOf(points)
  {
    values := map[];
    for i := 0 to |points|
      invariant values == SeriesOf(points[..i])
    {
      assert points[..i + 1][..i] == points[..i];
      if points[i].day.None? || points[i].value.None? { continue; }
      values := values[points[i].day.value := points[i].value.value];
    }
    assert points[..|points|] == points;
  }

  lemma HasDay(days: set<int>)
    ensures days == {} || exists d :: d in days
  {
    if forall d :: d !in days { assert days == {}; }
  }

  /** First and last of the sorted days. */
  method Ends(days: set<int>) returns (first: int, last: int)
    requires days != {}
    ensures first in days && last in days && first <= last
    ensures forall d :: d in days ==> first <= d <= last
  {
    HasDay(days);
    var d :| d in days;
    first, last := d, d;
    var rest := days - {d};
    while rest != {}
      invariant rest <= days && first in days && last in days && first <= last
      invariant forall e :: e in days ==> e in rest || first <= e <= last
    {
      HasDay(rest);
      var e :| e in rest;
      rest := rest - {e};
      if e < first { first := e; }
      if e > last { last := e; }
    }
  }

  // ----- what is counted

  /** A point that says where the series is on `day`. */
  predicate IsReading(p: Point, day: int) { p.day == Some(day) && p.value.Some? }

  /** Point `k` is the last one that reads `day`. */
  ghost predicate IsLastReading(points: seq<Point>, k: nat, day: int) {
    k < |points| && IsReading(points[k], day) && forall j :: k < j < |points| ==> !IsReading(points[j], day)
  }

  /** A series has a day exactly when some point reads it, and holds the value of the last such point. */
  lemma {:induction false} SeriesHoldsLastReading(points: seq<Point>, day: int)
    ensures day in SeriesOf(points) <==> exists p :: p in points && IsReading(p, day)
    ensures day in SeriesOf(points)
      ==> exists k: nat :: IsLastReading(points, k, day) && points[k].value.value == SeriesOf(points)[day]
  {
    if points != [] {
      var n := |points| - 1;
      SeriesHoldsLastReading(points[..n], day);
      assert points == points[..n] + [points[n]];
      if IsReading(points[n], day) {
        assert IsLastReading(points, n, day);
      } else if day in SeriesOf(points) {
        var k: nat :| IsLastReading(points[..n], k, day) && points[..n][k].value.value == SeriesOf(points[..n])[day];
        forall j | k < j < |points| ensures !IsReading(points[j], day) {
          if j < n { assert points[j] == points[..n][j]; }
        }
        assert IsLastReading(points, k, day);
      }
    }
  }

  /** All series have both days and go up, or down, or any one way together. */
  predicate MovesTogether(all: seq<Series>, day: int, target: Target) {
    && (forall s :: s in all ==> day - 1 in s && day in s)
    && match target
       case Up => Rise(all, day)
       case Down => Fall(all, day)
       case Any => all != [] && (Rise(all, day) || Fall(all, day) || Stay(all, day))
  }

  predicate Rise(all: seq<Series>, day: int) { forall s :: s in all && day - 1 in s && day in s ==> s[day - 1] < s[day] }

  predicate Fall(all: seq<Series>, day: int) { forall s :: s in all && day - 1 in s && day in s ==> s[day - 1] > s[day] }

  predicate Stay(all: seq<Series>, day: int) { forall s :: s in all && day - 1 in s && day in s ==> s[day - 1] == s[day] }

  lemma MatchIsMovingTogether(all: seq<Series>, day: int, target: Target)
    ensures IsComparable(all, day) && IsMatching(all, day, target) <==> MovesTogether(all, day, target)
  {
    if target == Any && all != [] && IsComparable(all, day) {
      assert all[0] in all;
      if IsMatching(all, day, Any) {
        forall s | s in all ensures Direction(s, day) == Direction(all[0], day) {}
      }
    }
  }

  /** The days behind `after`, up to `until`, on which all series move together. */
  function MatchingDays(all: seq<Series>, after: int, until: int, target: Target): set<int> {
    set day | after < day <= until && MovesTogether(all, day, target)
  }

  lemma OneMoreDay(all: seq<Series>, after: int, until: int, target: Target)
    requires after < until
    ensures MatchingDays(all, after, until, target)
         == MatchingDays(all, after, until - 1, target) + (if MovesTogether(all, until, target) then {until} else {})
  {
  }

  /** The matching counter is the number of days on which all series move together. */
  lemma {:induction false} MatchingCountsDays(all: seq<Series>, after: int, until: int, target: Target)
    ensures Matching(all, after, until, target) == |MatchingDays(all, after, until, target)|
    decreases until - after
  {
    if after < until {
      MatchingCountsDays(all, after, until - 1, target);
      MatchIsMovingTogether(all, until, target);
      OneMoreDay(all, after, until, target);
    } else {
      assert MatchingDays(all, after, until, target) == {};
    }
  }

  // ----- bounds

  lemma {:induction false} CountersAreOrdered(all: seq<Series>, after: int, until: int, target: Target)
    ensures Matching(all, after, until, target) <= Comparable(all, after, until)
    ensures after <= until ==> Comparable(all, after, until) <= until - after
    decreases until - after
  {
    if after < until { CountersAreOrdered(all, after, until - 1, target); }
  }

  /** 0 <= matching <= comparable <= expected, and both rates are between 0 and 1. */
  lemma AnalysisIsOrdered(a: Analysis, all: seq<Series>, incomplete: bool, target: Target)
    requires Analyses(a, all, incomplete, target)
    ensures a.matchingIntervals <= a.comparableIntervals <= a.expectedIntervals
    ensures 0.0 <= a.alignmentCoverage <= 1.0 && 0.0 <= a.consistencyRate <= 1.0
  {
    if |all| >= 2 && |DaysOf(all)| >= 2 {
      var first, last :| Span(all, first, last) && first <= last && a == Counted(all, incomplete, first, last, target);
      CountersAreOrdered(all, first, last, target);
      RatioIsFraction(a.comparableIntervals, a.expectedIntervals);
      RatioIsFraction(a.matchingIntervals, a.comparableIntervals);
    }
  }

  lemma RatioIsFraction(part: nat, whole: nat)
    requires part <= whole
    ensures 0.0 <= Ratio(part, whole) <= 1.0
  {
    if whole > 0 {
      ShareGrows(0.0, part as real, whole as real);
      ShareGrows(part as real, whole as real, whole as real);
    }
  }

  lemma ShareGrows(x: real, y: real, z: real)
    requires 0.0 < z && x <= y
    ensures x / z <= y / z
  {
  }

  lemma {:induction false} FullExactly(all: seq<Series>, after: int, until: int)
    requires after <= until
    ensures Comparable(all, after, until) == until - after <==> (forall day :: after < day <= until ==> IsComparable(all, day))
    decreases until - after
  {
    if after < until {
      FullExactly(all, after, until - 1);
      CountersAreOrdered(all, after, until - 1, Any);
    }
  }

  /** Every expected interval is comparable exactly when every series has every calendar day from
      the first to the last. */
  lemma ComparableIsExpectedExactly(all: seq<Series>, incomplete: bool, first: int, last: int, target: Target)
    requires first < last
    ensures var a := Counted(all, incomplete, first, last, target);
            a.comparableIntervals == a.expectedIntervals
            <==> (forall s, day :: s in all && first <= day <= last ==> day in s)
  {
    FullExactly(all, first, last);
    if forall day :: first < day <= last ==> IsComparable(all, day) {
      forall s, day | s in all && first <= day <= last ensures day in s {
        assert IsComparable(all, if day > first then day else first + 1);
      }
    }
    if forall s, day :: s in all && first <= day <= last ==> day in s {
      forall day | first < day <= last ensures IsComparable(all, day) {
        assert first <= day - 1 <= last;
      }
    }
  }

  /** A day cannot match upwards and downwards, and either way all series move alike. */
  lemma {:induction false} UpAndDownAreAny(all: seq<Series>, after: int, until: int)
    requires all != []
    ensures Matching(all, after, until, Up) + Matching(all, after, until, Down) <= Matching(all, after, until, Any)
    decreases until - after
  {
    if after < until {
      UpAndDownAreAny(all, after, until - 1);
      if IsComparable(all, until) {
        assert all[0] in all;
        assert !(IsMatching(all, until, Up) && IsMatching(all, until, Down));
      }
    }
  }

  /** What the answer says about an analysis. */
  datatype Judgement = NotLoaded | TooFewCommonDays | InStep | OutOfStep

  function Judge(a: Analysis): Judgement {
    if a.incompleteSeries then NotLoaded
    else if a.comparableIntervals < 2 || a.expectedIntervals <= 0 || a.alignmentCoverage < 0.5 then TooFewCommonDays
    else if a.consistencyRate >= 0.8 then InStep
    else OutOfStep
  }

  /** Series in step upwards, or downwards, are in step; no series are in step upwards and downwards. */
  lemma InStepOneWay(all: seq<Series>, incomplete: bool, first: int, last: int)
    requires all != [] && first <= last
    ensures var up, down, any := Judge(Counted(all, incomplete, first, last, Up)),
                                 Judge(Counted(all, incomplete, first, last, Down)),
                                 Judge(Counted(all, incomplete, first, last, Any));
            && (up == InStep || down == InStep ==> any == InStep)
            && !(up == InStep && down == InStep)
  {
    var c := Comparable(all, first, last);
    var u, d, n := Matching(all, first, last, Up), Matching(all, first, last, Down), Matching(all, first, last, Any);
    UpAndDownAreAny(all, first, last);
    CountersAreOrdered(all, first, last, Any);
    if c > 0 {
      SharesAddUp(u, d, c);
      RatioGrows(u, n, c);
      RatioGrows(d, n, c);
    }
  }

  lemma RatioGrows(part: nat, more: nat, whole: nat)
    requires part <= more && whole > 0
    ensures Ratio(part, whole) <= Ratio(more, whole)
  {
    ShareGrows(part as real, more as real, whole as real);
  }

  lemma SharesAddUp(u: nat, d: nat, c: nat)
    requires u + d <= c && c > 0
    ensures Ratio(u, c) + Ratio(d, c) <= 1.0
  {
    SharesAdd(u as real, d as real, c as real);
    ShareGrows(u as real + d as real, c as real, c as real);
  }

  lemma SharesAdd(x: real, y: real, z: real)
    requires z != 0.0
    ensures x / z + y / z == (x + y) / z
  {
  }

  // ----- what the counters depend on

  function Flip(target: Target): Target {
    match target
    case Up => Down
    case Down => Up
    case Any => Any
  }

  function Turned(turn: int, target: Target): Target { if turn == 1 then target else Flip(target) }

  ghost predicate SameMembers(a: seq<Series>, b: seq<Series>) {
    (a == [] <==> b == []) && forall s :: s in a <==> s in b
  }

  lemma MembersDecideTheDay(a: seq<Series>, b: seq<Series>, day: int, target: Target)
    requires SameMembers(a, b) && IsComparable(a, day)
    ensures IsComparable(b, day) && (IsMatching(a, day, target) ==> IsMatching(b, day, target))
  {
    assert forall s :: s in b ==> s in a;
  }

  lemma {:induction false} MembersDecideTheCounters(a: seq<Series>, b: seq<Series>, after: int, until: int, target: Target)
    requires SameMembers(a, b)
    ensures Comparable(a, after, until) == Comparable(b, after, until)
    ensures Matching(a, after, until, target) == Matching(b, after, until, target)
    decreases until - after
  {
    if after < until {
      MembersDecideTheCounters(a, b, after, until - 1, target);
      if IsComparable(a, until) { MembersDecideTheDay(a, b, until, target); }
      if IsComparable(b, until) { MembersDecideTheDay(b, a, until, target); }
    }
  }

  /** Both series have the same days, and move alike (`turn` is 1) or oppositely (`turn` is -1). */
  ghost predicate SameSeriesMoves(s: Series, t: Series, turn: int) {
    && s.Keys == t.Keys
    && forall day :: day in s && day - 1 in s ==> Direction(t, day) == turn * Direction(s, day)
  }

  ghost predicate SameMoves(a: seq<Series>, b: seq<Series>, turn: int) {
    |a| == |b| && forall i :: 0 <= i < |a| ==> SameSeriesMoves(a[i], b[i], turn)
  }

  lemma MovesAreMutual(a: seq<Series>, b: seq<Series>, turn: int)
    requires SameMoves(a, b, turn) && turn in {1, -1}
    ensures SameMoves(b, a, turn)
  {
    forall i | 0 <= i < |a| ensures SameSeriesMoves(b[i], a[i], turn) {
      assert SameSeriesMoves(a[i], b[i], turn);
    }
  }

  lemma ComparableCarries(a: seq<Series>, b: seq<Series>, turn: int, day: int)
    requires SameMoves(a, b, turn) && IsComparable(a, day)
    ensures IsComparable(b, day)
  {
    forall t | t in b ensures day - 1 in t && day in t {
      var i :| 0 <= i < |b| && b[i] == t;
      assert SameSeriesMoves(a[i], b[i], turn);
      assert a[i] in a;
      assert day - 1 in a[i] && day in a[i];
    }
  }

  /** Every series moves in direction `d`. */
  ghost predicate AllMove(all: seq<Series>, day: int, d: int)
    requires IsComparable(all, day)
  {
    forall s :: s in all ==> Direction(s, day) == d
  }

  lemma MatchingByMoves(all: seq<Series>, day: int, target: Target)
    requires IsComparable(all, day)
    ensures IsMatching(all, day, target) <==> match target
      case Up => AllMove(all, day, 1)
      case Down => AllMove(all, day, -1)
      case Any => all != [] && (AllMove(all, day, 1) || AllMove(all, day, 0) || AllMove(all, day, -1))
  {
    if all != [] && IsMatching(all, day, Any) {
      assert all[0] in all;
      var d := Direction(all[0], day);
      assert AllMove(all, day, d);
    }
  }

  lemma MovementCarries(a: seq<Series>, b: seq<Series>, turn: int, day: int, d: int)
    requires SameMoves(a, b, turn) && IsComparable(a, day) && IsComparable(b, day) && AllMove(a, day, d)
    ensures AllMove(b, day, turn * d)
  {
    forall t | t in b ensures Direction(t, day) == turn * d {
      var i :| 0 <= i < |b| && b[i] == t;
      assert a[i] in a && SameSeriesMoves(a[i], b[i], turn);
    }
  }

  lemma SameMovements(a: seq<Series>, b: seq<Series>, turn: int, day: int, d: int)
    requires SameMoves(a, b, turn) && IsComparable(a, day) && IsComparable(b, day) && turn in {1, -1}
    ensures AllMove(a, day, d) <==> AllMove(b, day, turn * d)
  {
    if AllMove(a, day, d) { MovementCarries(a, b, turn, day, d); }
    if AllMove(b, day, turn * d) {
      MovesAreMutual(a, b, turn);
      MovementCarries(b, a, turn, day, turn * d);
      assert turn * (turn * d) == d;
    }
  }

  lemma SameDay(a: seq<Series>, b: seq<Series>, turn: int, day: int, target: Target)
    requires SameMoves(a, b, turn) && turn in {1, -1}
    ensures IsComparable(a, day) <==> IsComparable(b, day)
    ensures IsComparable(a, day) ==> (IsMatching(a, day, target) <==> IsMatching(b, day, Turned(turn, target)))
  {
    MovesAreMutual(a, b, turn);
    if IsComparable(b, day) { ComparableCarries(b, a, turn, day); }
    if IsComparable(a, day) {
      ComparableCarries(a, b, turn, day);
      SameMovements(a, b, turn, day, 1);
      SameMovements(a, b, turn, day, 0);
      SameMovements(a, b, turn, day, -1);
      MatchingByMoves(a, day, target);
      MatchingByMoves(b, day, Turned(turn, target));
    }
  }

  lemma {:induction false} SameCounters(a: seq<Series>, b: seq<Series>, turn: int, after: int, until: int, target: Target)
    requires SameMoves(a, b, turn) && turn in {1, -1}
    ensures Comparable(a, after, until) == Comparable(b, after, until)
    ensures Matching(a, after, until, target) == Matching(b, after, until, Turned(turn, target))
    decreases until - after
  {
    if after < until {
      SameDay(a, b, turn, until, target);
      SameCounters(a, b, turn, after, until - 1, target);
    }
  }

  function Mapped(f: real -> real, s: Series): Series { map day | day in s :: f(s[day]) }

  /** Each series passed through its own function. */
  function AllMapped(fs: seq<real -> real>, all: seq<Series>): seq<Series>
    requires |fs| == |all|
  {
    seq(|all|, i requires 0 <= i < |all| => Mapped(fs[i], all[i]))
  }

  ghost predicate Increasing(f: real -> real) { forall x, y :: x < y ==> f(x) < f(y) }

  ghost predicate Decreasing(f: real -> real) { forall x, y :: x < y ==> f(x) > f(y) }

  lemma MappedMoves(f: real -> real, s: Series, turn: int)
    requires if turn == 1 then Increasing(f) else turn == -1 && Decreasing(f)
    ensures SameSeriesMoves(s, Mapped(f, s), turn)
  {
    var t := Mapped(f, s);
    forall day | day in s && day - 1 in s ensures Direction(t, day) == turn * Direction(s, day) {
      assert t[day] == f(s[day]) && t[day - 1] == f(s[day - 1]);
    }
  }

  lemma MappedSeriesMove(fs: seq<real -> real>, all: seq<Series>, turn: int)
    requires |fs| == |all|
    requires forall i :: 0 <= i < |fs| ==> if turn == 1 then Increasing(fs[i]) else turn == -1 && Decreasing(fs[i])
    ensures SameMoves(all, AllMapped(fs, all), turn)
  {
    forall i | 0 <= i < |all| ensures SameSeriesMoves(all[i], AllMapped(fs, all)[i], turn) { MappedMoves(fs[i], all[i], turn); }
  }

  // ----- the whole analysis

  lemma {:induction false} DayOfSome(all: seq<Series>, day: int)
    ensures day in DaysOf(all) <==> exists s :: s in all && day in s
  {
    if all != [] {
      DayOfSome(all[1..], day);
      assert all == [all[0]] + all[1..];
      if day in all[0] { assert all[0] in all; }
    }
  }

  lemma {:induction false} SameMovesSameDays(a: seq<Series>, b: seq<Series>, turn: int)
    requires SameMoves(a, b, turn)
    ensures DaysOf(a) == DaysOf(b)
  {
    if a != [] {
      assert SameSeriesMoves(a[0], b[0], turn);
      assert SameMoves(a[1..], b[1..], turn) by {
        forall i | 0 <= i < |a| - 1 ensures SameSeriesMoves(a[1..][i], b[1..][i], turn) {
          assert SameSeriesMoves(a[i + 1], b[i + 1], turn);
        }
      }
      SameMovesSameDays(a[1..], b[1..], turn);
    }
  }

  lemma SameAnalysis(x: Analysis, a: seq<Series>, y: Analysis, b: seq<Series>, incomplete: bool, target: Target, other: Target)
    requires Analyses(x, a, incomplete, target) && Analyses(y, b, incomplete, other)
    requires |a| == |b| && DaysOf(a) == DaysOf(b)
    requires forall after, until :: Comparable(a, after, until) == Comparable(b, after, until)
    requires forall after, until :: Matching(a, after, until, target) == Matching(b, after, until, other)
    ensures x == y
  {
    if |a| >= 2 && |DaysOf(a)| >= 2 {
      var f, l :| Span(a, f, l) && f <= l && x == Counted(a, incomplete, f, l, target);
      var g, m :| Span(b, g, m) && g <= m && y == Counted(b, incomplete, g, m, other);
      assert f == g && l == m;
    }
  }

  /** Reordering the groups changes nothing in the analysis. */
  lemma GroupOrderChangesNothing(x: Analysis, a: seq<Series>, y: Analysis, b: seq<Series>, incomplete: bool, target: Target)
    requires Analyses(x, a, incomplete, target) && Analyses(y, b, incomplete, target)
    requires multiset(a) == multiset(b)
    ensures x == y
  {
    assert |multiset(a)| == |multiset(b)|;
    forall s ensures s in a <==> s in b { assert s in multiset(a) <==> s in multiset(b); }
    assert SameMembers(a, b);
    forall day ensures day in DaysOf(a) <==> day in DaysOf(b) { DayOfSome(a, day); DayOfSome(b, day); }
    forall after, until ensures Comparable(a, after, until) == Comparable(b, after, until)
                             && Matching(a, after, until, target) == Matching(b, after, until, target) {
      MembersDecideTheCounters(a, b, after, until, target);
    }
    SameAnalysis(x, a, y, b, incomplete, target, target);
  }

  lemma TurnKeepsAnalysis(x: Analysis, a: seq<Series>, y: Analysis, b: seq<Series>, turn: int, incomplete: bool, target: Target)
    requires Analyses(x, a, incomplete, target) && Analyses(y, b, incomplete, Turned(turn, target))
    requires SameMoves(a, b, turn) && turn in {1, -1}
    ensures x == y
  {
    SameMovesSameDays(a, b, turn);
    forall after, until ensures Comparable(a, after, until) == Comparable(b, after, until)
                             && Matching(a, after, until, target) == Matching(b, after, until, Turned(turn, target)) {
      SameCounters(a, b, turn, after, until, target);
    }
    SameAnalysis(x, a, y, b, incomplete, target, Turned(turn, target));
  }

  /** Strictly increasing changes of scale, a different one for each series, change nothing. */
  lemma ScalesChangeNothing(fs: seq<real -> real>, x: Analysis, all: seq<Series>, y: Analysis, incomplete: bool, target: Target)
    requires |fs| == |all| && forall i :: 0 <= i < |fs| ==> Increasing(fs[i])
    requires Analyses(x, all, incomplete, target) && Analyses(y, AllMapped(fs, all), incomplete, target)
    ensures x == y
  {
    MappedSeriesMove(fs, all, 1);
    TurnKeepsAnalysis(x, all, y, AllMapped(fs, all), 1, incomplete, target);
  }

  /** Turning every series upside down, by negation for one, swaps the upward and the downward
      analysis and keeps that for any direction. */
  lemma TurningSwapsUpAndDown(fs: seq<real -> real>, x: Analysis, all: seq<Series>, y: Analysis, incomplete: bool, target: Target)
    requires |fs| == |all| && forall i :: 0 <= i < |fs| ==> Decreasing(fs[i])
    requires Analyses(x, all, incomplete, target) && Analyses(y, AllMapped(fs, all), incomplete, Flip(target))
    ensures x == y
  {
    MappedSeriesMove(fs, all, -1);
    TurnKeepsAnalysis(x, all, y, AllMapped(fs, all), -1, incomplete, target);
  }

  // ----- the judgement, in numbers of days

  /** `rate` is the share of `part` in `whole`. */
  predicate IsShare(rate: real, part: nat, whole: nat) {
    rate * whole as real == part as real && (whole == 0 ==> rate == 0.0)
  }

  lemma RatioIsShare(part: nat, whole: nat)
    requires part <= whole
    ensures IsShare(Ratio(part, whole), part, whole)
  {
    if whole > 0 { QuotientTimes(part as real, whole as real); }
  }

  lemma QuotientTimes(x: real, y: real)
    requires y != 0.0
    ensures x / y * y == x
  {
  }

  /** Both rates are what they are called: coverage is the share of comparable days in the expected ones, consistency
      that of matching days in the comparable ones. */
  lemma RatesAreShares(a: Analysis, all: seq<Series>, incomplete: bool, target: Target)
    requires Analyses(a, all, incomplete, target)
    ensures IsShare(a.alignmentCoverage, a.comparableIntervals, a.expectedIntervals)
    ensures IsShare(a.consistencyRate, a.matchingIntervals, a.comparableIntervals)
    ensures a.matchingIntervals <= a.comparableIntervals <= a.expectedIntervals && a.incompleteSeries == incomplete
  {
    if |all| < 2 || |DaysOf(all)| < 2 {
      RatioIsShare(0, 0);
    } else {
      var first, last :| Span(all, first, last) && first <= last && a == Counted(all, incomplete, first, last, target);
      CountersAreOrdered(all, first, last, target);
      RatioIsShare(Comparable(all, first, last), last - first);
      RatioIsShare(Matching(all, first, last, target), Comparable(all, first, last));
    }
  }

  /** Nothing is said while a series is incomplete; too little is common unless two days and half of all days can be
      compared; in step are series that match on four of five comparable days. */
  lemma JudgementInDays(a: Analysis, all: seq<Series>, incomplete: bool, target: Target)
    requires Analyses(a, all, incomplete, target)
    ensures Judge(a) == NotLoaded <==> incomplete
    ensures Judge(a) == TooFewCommonDays <==> !incomplete && (a.comparableIntervals < 2 || 2 * a.comparableIntervals < a.expectedIntervals)
    ensures Judge(a) == InStep <==>
              && !incomplete && a.comparableIntervals >= 2 && 2 * a.comparableIntervals >= a.expectedIntervals
              && 5 * a.matchingIntervals >= 4 * a.comparableIntervals
  {
    RatesAreShares(a, all, incomplete, target);
    if a.comparableIntervals > 0 {
      AtLeastHalf(a.alignmentCoverage, a.comparableIntervals, a.expectedIntervals);
      AtLeastFourFifths(a.consistencyRate, a.matchingIntervals, a.comparableIntervals);
    }
  }

  lemma AtLeastHalf(rate: real, part: nat, whole: nat)
    requires IsShare(rate, part, whole) && whole > 0
    ensures rate >= 0.5 <==> 2 * part >= whole
  {
    Compare(rate, 0.5, whole as real);
  }

  lemma AtLeastFourFifths(rate: real, part: nat, whole: nat)
    requires IsShare(rate, part, whole) && whole > 0
    ensures rate >= 0.8 <==> 5 * part >= 4 * whole
  {
    Compare(rate, 0.8, whole as real);
  }

  lemma Compare(x: real, y: real, z: real)
    requires z > 0.0
    ensures x >= y <==> x * z >= y * z
  {
    if x >= y { assert (x - y) * z >= 0.0; } else { assert (y - x) * z > 0.0; }
  }

  /** Every series has the day and the day before. */
  predicate HaveDayAndEve(all: seq<Series>, day: int) { forall s :: s in all ==> s.Keys >= {day - 1, day} }

  /** The comparable counter is the number of days on which every series has the day and the day before. */
  lemma {:induction false} ComparableCountsDays(all: seq<Series>, after: int, until: int)
    ensures Comparable(all, after, until) == |ComparableDays(all, after, until)|
    decreases until - after
  {
    if after < until {
      ComparableCountsDays(all, after, until - 1);
      assert IsComparable(all, until) <==> HaveDayAndEve(all, until);
      assert ComparableDays(all, after, until)
          == ComparableDays(all, after, until - 1) + (if IsComparable(all, until) then {until} else {});
    } else {
      assert ComparableDays(all, after, until) == {};
    }
  }

  function ComparableDays(all: seq<Series>, after: int, until: int): set<int> {
    set day | after < day <= until && HaveDayAndEve(all, day)
  }
}
