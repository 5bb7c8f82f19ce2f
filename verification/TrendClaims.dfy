/**
 The trend check of `answer_claims.py`: a clause that says a metric rises, falls or
 stays level must agree with the rows of every series it names.
 */
module TrendClaims {
  import opened Basics
  import opened Text
  import opened Ordering
  import opened ClaimNumbers
  import opened ClaimTokens
  import opened ClaimVerifier
  import opened ClaimContexts

  datatype Direction = Up | Down | Flat

  /** The markers of the language policy; `negated` is _is_negated_assertion, `temporal` normalize_temporal_token. */
  datatype Language = Language(
    flat: seq<string>,
    up: seq<string>,
    down: seq<string>,
    previousDay: seq<string>,
    negated: string -> bool,
    temporal: string -> string)

  /** contains_any_literal */
  predicate ContainsAny(text: string, literals: seq<string>) {
    exists l :: l in literals && l != "" && Contains(text, l)
  }

  /** direction_word: level goes before rising, rising before falling. */
  function DirectionWord(lang: Language, text: string): Option<Direction> {
    if ContainsAny(text, lang.flat) then Some(Flat)
    else if ContainsAny(text, lang.up) then Some(Up)
    else if ContainsAny(text, lang.down) then Some(Down)
    else None
  }

  function DirectionOf(change: real): Direction {
    if change > 0.0 then Up else if change < 0.0 then Down else Flat
  }

  function NameOf(d: Direction): string {
    match d
    case Up => "up"
    case Down => "down"
    case Flat => "flat"
  }

  // ----- the points of the series

  /** A reading of a series. `date` is the normalized date of its row, `dateIds` the fact that states it. */
  datatype Point = Point(fact: Measured, date: string, dateIds: seq<FactId>)

  type Row = (string, nat)

  function RowKey(f: Fact): Row { (f.taskId, f.rowIndex) }

  /** The two parts are joined by a colon, as the source keys its dictionary. */
  function SeriesName(f: Fact): string { f.taskId + ":" + f.column }

  predicate IsReading(f: Fact) { f.value.Some? && f.valueType == "number" }

  function RowKeys(facts: seq<Fact>): (keys: seq<Row>)
    ensures |keys| == |facts| && forall i :: 0 <= i < |facts| ==> keys[i] == RowKey(facts[i])
  {
    seq(|facts|, i requires 0 <= i < |facts| => RowKey(facts[i]))
  }

  /** The facts of one row, in order. */
  function RowOf(facts: seq<Fact>, key: Row): seq<Fact> {
    if facts == [] then []
    else
      var before, f := RowOf(facts[..|facts| - 1], key), facts[|facts| - 1];
      if RowKey(f) == key then before + [f] else before
  }

  /** The first fact of a row that is a date. */
  function DateFact(row: seq<Fact>): Option<Fact> {
    if row == [] then None else if row[0].valueType == "date" then Some(row[0]) else DateFact(row[1..])
  }

  function PointOf(f: Measured, date: Option<Fact>): Point {
    if date.Some? then Point(f, date.value.temporal, [date.value.id]) else Point(f, "", [])
  }

  /** The readings of the facts, all of them in one row. */
  function Readings(facts: seq<Fact>, date: Option<Fact>): seq<Point> {
    if facts == [] then []
    else
      var before, f := Readings(facts[..|facts| - 1], date), facts[|facts| - 1];
      if IsReading(f) then before + [PointOf(f, date)] else before
  }

  function RowPoints(row: seq<Fact>): seq<Point> { Readings(row, DateFact(row)) }

  function PointsOfRows(facts: seq<Fact>, keys: seq<Row>): seq<Point> {
    if keys == [] then []
    else PointsOfRows(facts, keys[..|keys| - 1]) + RowPoints(RowOf(facts, keys[|keys| - 1]))
  }

  /** All readings, row by row in the order in which the rows first occur. */
  function Points(facts: seq<Fact>): seq<Point> { PointsOfRows(facts, Dedup(RowKeys(facts))) }

  function PointsNamed(points: seq<Point>, name: string): seq<Point> {
    if points == [] then []
    else
      var before, p := PointsNamed(points[..|points| - 1], name), points[|points| - 1];
      if SeriesName(p.fact) == name then before + [p] else before
  }

  function Names(points: seq<Point>): seq<string> {
    Dedup(seq(|points|, i requires 0 <= i < |points| => SeriesName(points[i].fact)))
  }

  // ----- in order of time

  /** `(date, row_index)` order */
  predicate NotAfter(p: Point, q: Point) {
    if p.date == q.date then p.fact.rowIndex <= q.fact.rowIndex else StringLe(p.date, q.date)
  }

  function Placed(p: Point, sorted: seq<Point>): (r: seq<Point>)
    ensures |r| == |sorted| + 1
  {
    if sorted == [] then [p]
    else if NotAfter(p, sorted[0]) then [p] + sorted
    else [sorted[0]] + Placed(p, sorted[1..])
  }

  function InTime(points: seq<Point>): (r: seq<Point>)
    ensures |r| == |points|
  {
    if points == [] then [] else Placed(points[0], InTime(points[1..]))
  }

  ghost predicate AreInTime(points: seq<Point>) {
    forall i, j :: 0 <= i < j < |points| ==> NotAfter(points[i], points[j])
  }

  lemma NotAfterIsTotal(p: Point, q: Point)
    ensures NotAfter(p, q) || NotAfter(q, p)
  {
    StringLeTotal(p.date, q.date);
  }

  lemma NotAfterIsTransitive(p: Point, q: Point, r: Point)
    requires NotAfter(p, q) && NotAfter(q, r)
    ensures NotAfter(p, r)
  {
    if p.date != q.date && q.date != r.date {
      StringLeTransitive(p.date, q.date, r.date);
      if p.date == r.date { StringLeAntisymmetric(p.date, q.date); }
    }
  }

  lemma {:induction false} PlacedKeepsAll(p: Point, sorted: seq<Point>)
    ensures multiset(Placed(p, sorted)) == multiset(sorted) + multiset{p}
  {
    if sorted != [] {
      var first, rest := sorted[0], sorted[1..];
      PlacedKeepsAll(p, rest);
      assert sorted == [first] + rest;
      assert Placed(p, sorted) == if NotAfter(p, first) then [p] + sorted else [first] + Placed(p, rest);
    }
  }

  lemma FirstInTime(first: Point, rest: seq<Point>)
    requires AreInTime(rest) && forall q :: q in rest ==> NotAfter(first, q)
    ensures AreInTime([first] + rest)
  {
    var all := [first] + rest;
    forall i, j | 0 <= i < j < |all| ensures NotAfter(all[i], all[j]) {
      assert all[j] == rest[j - 1];
      if i > 0 { assert all[i] == rest[i - 1]; }
    }
  }

  lemma {:induction false} PlacedInTime(p: Point, sorted: seq<Point>)
    requires AreInTime(sorted)
    ensures AreInTime(Placed(p, sorted))
  {
    if sorted != [] {
      var first, rest := sorted[0], sorted[1..];
      NotAfterIsTotal(p, first);
      if NotAfter(p, first) {
        forall q | q in sorted ensures NotAfter(p, q) {
          var j :| 0 <= j < |sorted| && sorted[j] == q;
          if j > 0 { NotAfterIsTransitive(p, first, q); }
        }
        FirstInTime(p, sorted);
      } else {
        PlacedInTime(p, rest);
        PlacedKeepsAll(p, rest);
        forall q | q in Placed(p, rest) ensures NotAfter(first, q) {
          assert q in multiset(Placed(p, rest));
          if q != p { var j :| 0 <= j < |rest| && rest[j] == q; }
        }
        FirstInTime(first, Placed(p, rest));
      }
    }
  }

  /** The readings of a series are arranged by date and row, none lost and none added. */
  lemma {:induction false} InTimeSorts(points: seq<Point>)
    ensures AreInTime(InTime(points)) && multiset(InTime(points)) == multiset(points)
  {
    if points != [] {
      InTimeSorts(points[1..]);
      PlacedInTime(points[0], InTime(points[1..]));
      PlacedKeepsAll(points[0], InTime(points[1..]));
      assert points == [points[0]] + points[1..];
    }
  }

  // ----- the series

  /** A series of two readings or more, in order of time. */
  datatype Series = Series(labels: seq<string>, points: seq<Point>)

  function LabelsOfAll(points: seq<Point>): seq<string> {
    if points == [] then [] else LabelsOf(points[0].fact) + LabelsOfAll(points[1..])
  }

  function SeriesOf(points: seq<Point>): Series { Series(Dedupe(LabelsOfAll(InTime(points))), InTime(points)) }

  /** trend_fact_groups */
  function SeriesAmong(points: seq<Point>, names: seq<string>): seq<Series> {
    if names == [] then []
    else
      var own := PointsNamed(points, names[|names| - 1]);
      SeriesAmong(points, names[..|names| - 1]) + (if |own| < 2 then [] else [SeriesOf(own)])
  }

  function AllSeries(facts: seq<Fact>): seq<Series> { SeriesAmong(Points(facts), Names(Points(facts))) }

  function ValueAt(s: Series, i: nat): real
    requires i < |s.points|
  {
    s.points[i].fact.value.value
  }

  function IdsOf(s: Series): seq<FactId> {
    if s.points == [] then []
    else
      var first, last := s.points[0], s.points[|s.points| - 1];
      Dedup([first.fact.id, last.fact.id] + first.dateIds + last.dateIds)
  }

  // ----- what a clause has to say

  function ClaimDates(lang: Language, clause: string): seq<string> {
    var dates := Cut(clause, Dates(clause, 0));
    seq(|dates|, i requires 0 <= i < |dates| => lang.temporal(dates[i]))
  }

  function Compact(s: string): string { Filter(c => !IsSpace(c), s) }

  /** The first reading of the day that another one precedes. */
  function FollowerOn(points: seq<Point>, day: string, i: nat): (at: Option<nat>)
    ensures at.Some? ==> i <= at.value < |points| && at.value > 0 && points[at.value].date == day
    decreases |points| - i
  {
    if i >= |points| then None
    else if points[i].date == day && i > 0 then Some(i)
    else FollowerOn(points, day, i + 1)
  }

  /** The last reading of the day: `{date: point for point in points}.get(day)` */
  function LastOn(points: seq<Point>, day: string): (at: Option<nat>)
    ensures at.Some? ==> at.value < |points| && points[at.value].date == day
    ensures at.None? ==> forall i :: 0 <= i < |points| ==> points[i].date != day
  {
    if points == [] then None
    else if points[|points| - 1].date == day then Some(|points| - 1)
    else LastOn(points[..|points| - 1], day)
  }

  /** The readings that are compared for the days of a clause: with words for the previous day, the first on the last
      day that has one before it and that one; else those of two days; else the first and the last. */
  function ComparedOn(points: seq<Point>, days: seq<string>, previous: bool): (pair: (nat, nat))
    requires points != []
    ensures pair.0 < |points| && pair.1 < |points|
  {
    var follower := if days == [] then None else FollowerOn(points, days[|days| - 1], 0);
    if previous && follower.Some? then (follower.value - 1, follower.value)
    else if |days| >= 2 && LastOn(points, days[0]).Some? && LastOn(points, days[|days| - 1]).Some? then
      (LastOn(points, days[0]).value, LastOn(points, days[|days| - 1]).value)
    else (0, |points| - 1)
  }

  function Compared(lang: Language, s: Series, clause: string): (pair: (nat, nat))
    requires s.points != []
    ensures pair.0 < |s.points| && pair.1 < |s.points|
  {
    ComparedOn(s.points, ClaimDates(lang, clause), ContainsAny(Compact(clause), lang.previousDay))
  }

  /** expected_trend_direction_for_clause */
  function Expected(lang: Language, s: Series, clause: string): Direction {
    if s.points == [] then Flat
    else
      var pair := Compared(lang, s, clause);
      DirectionOf(ValueAt(s, pair.1) - ValueAt(s, pair.0))
  }

  // ----- the check

  function NamedIn(all: seq<Series>, clause: string): seq<Series> {
    if all == [] then []
    else NamedIn(all[..|all| - 1], clause) + (if LabelOccurs(all[|all| - 1].labels, clause) then [all[|all| - 1]] else [])
  }

  /** The series a clause speaks of: those it names, or else the only one there is. */
  function Meant(all: seq<Series>, clause: string): seq<Series> {
    if NamedIn(all, clause) != [] then NamedIn(all, clause) else if |all| == 1 then all else []
  }

  const NO_SERIES := "unsupported_trend_direction:no_matching_series"

  function WrongDirection(d: Direction): string { "unsupported_trend_direction:" + NameOf(d) }

  /** The series are compared one by one; the first that disagrees ends the check. */
  function CheckSeries(lang: Language, clause: string, claimed: Direction, meant: seq<Series>, ids: seq<FactId>): Trend
    decreases |meant|
  {
    if meant == [] then Trend(None, ids)
    else if claimed != Expected(lang, meant[0], clause) then Trend(Some(WrongDirection(claimed)), IdsOf(meant[0]))
    else CheckSeries(lang, clause, claimed, meant[1..], ids + IdsOf(meant[0]))
  }

  function CheckClause(lang: Language, all: seq<Series>, clause: string, ids: seq<FactId>): Trend {
    var claimed := DirectionWord(lang, clause);
    if claimed.None? then Trend(None, ids)
    else if Meant(all, clause) == [] then Trend(Some(NO_SERIES), [])
    else CheckSeries(lang, clause, claimed.value, Meant(all, clause), ids)
  }

  function CheckClauses(lang: Language, all: seq<Series>, clauses: seq<string>, ids: seq<FactId>): Trend
    decreases |clauses|
  {
    if clauses == [] then Trend(None, Dedup(ids))
    else
      var t := CheckClause(lang, all, clauses[0], ids);
      if t.reason.Some? then t else CheckClauses(lang, all, clauses[1..], t.factIds)
  }

  /** trend_direction_support */
  function TrendOf(lang: Language, facts: seq<Fact>, text: string): Trend {
    if lang.negated(text) || !ContainsAny(text, lang.flat + lang.up + lang.down) then Trend(None, [])
    else CheckClauses(lang, AllSeries(facts), Clauses(text, CLAUSE_ENDS), [])
  }

  // ----- the loops

  method GroupRows(facts: seq<Fact>) returns (keys: seq<Row>, rows: map<Row, seq<Fact>>)
    ensures keys == Dedup(RowKeys(facts))
    ensures forall key :: key in keys ==> key in rows && rows[key] == RowOf(facts, key)
  {
    keys, rows := [], map[];
    for i := 0 to |facts|
      invariant keys == Dedup(RowKeys(facts[..i]))
      invariant rows.Keys == set key | key in keys
      invariant forall key :: key in rows ==> rows[key] == RowOf(facts[..i], key)
      invariant forall key :: key !in rows ==> RowOf(facts[..i], key) == []
    {
      var key := RowKey(facts[i]);
      assert facts[..i + 1][..i] == facts[..i];
      assert RowKeys(facts[..i + 1])[..i] == RowKeys(facts[..i]);
      if key in rows {
        rows := rows[key := rows[key] + [facts[i]]];
      } else {
        keys := keys + [key];
        rows := rows[key := [facts[i]]];
      }
    }
    assert facts[..|facts|] == facts;
  }

  method ReadRow(row: seq<Fact>) returns (points: seq<Point>)
    ensures points == RowPoints(row)
  {
    var date := DateFact(row);
    points := [];
    for i := 0 to |row|
      invariant points == Readings(row[..i], date)
    {
      assert row[..i + 1][..i] == row[..i];
      if row[i].value.None? || row[i].valueType != "number" { continue; }
      points := points + [PointOf(row[i], date)];
    }
    assert row[..|row|] == row;
  }

  method ReadRows(facts: seq<Fact>) returns (points: seq<Point>)
    ensures points == Points(facts)
  {
    var keys, rows := GroupRows(facts);
    points := [];
    for i := 0 to |keys|
      invariant points == PointsOfRows(facts, keys[..i])
    {
      assert keys[..i + 1][..i] == keys[..i];
      var more := ReadRow(rows[keys[i]]);
      points := points + more;
    }
    assert keys[..|keys|] == keys;
  }

  /** trend_fact_groups: the readings of the rows, then the series of two readings or more. */
  method TrendFactGroups(facts: seq<Fact>) returns (all: seq<Series>)
    ensures all == AllSeries(facts)
  {
    var points := ReadRows(facts);
    var names := Names(points);
    all := [];
    for i := 0 to |names|
      invariant all == SeriesAmong(points, names[..i])
    {
      assert names[..i + 1][..i] == names[..i];
      var own := PointsNamed(points, names[i]);
      if |own| < 2 { continue; }
      all := all + [SeriesOf(own)];
    }
    assert names[..|names|] == names;
  }

  /** trend_direction_support */
  method TrendDirectionSupport(lang: Language, facts: seq<Fact>, text: string) returns (t: Trend)
    ensures t == TrendOf(lang, facts, text)
  {
    if lang.negated(text) || !ContainsAny(text, lang.flat + lang.up + lang.down) { return Trend(None, []); }
    var all := TrendFactGroups(facts);
    var clauses, ids := Clauses(text, CLAUSE_ENDS), [];
    for i := 0 to |clauses|
      invariant CheckClauses(lang, all, clauses, []) == CheckClauses(lang, all, clauses[i..], ids)
    {
      assert clauses[i..][0] == clauses[i] && clauses[i..][1..] == clauses[i + 1..];
      t := CheckOne(lang, all, clauses[i], ids);
      if t.reason.Some? { return; }
      ids := t.factIds;
    }
    ids := Once(ids);
    return Trend(None, ids);
  }

  /** The loop over the series of a clause. */
  method CheckOne(lang: Language, all: seq<Series>, clause: string, ids: seq<FactId>) returns (t: Trend)
    ensures t == CheckClause(lang, all, clause, ids)
  {
    var claimed := DirectionWord(lang, clause);
    if claimed.None? { return Trend(None, ids); }
    var meant := Meant(all, clause);
    if meant == [] { return Trend(Some(NO_SERIES), []); }
    var found := ids;
    for i := 0 to |meant|
      invariant CheckSeries(lang, clause, claimed.value, meant, ids) == CheckSeries(lang, clause, claimed.value, meant[i..], found)
    {
      assert meant[i..][0] == meant[i] && meant[i..][1..] == meant[i + 1..];
      if claimed.value != Expected(lang, meant[i], clause) {
        return Trend(Some(WrongDirection(claimed.value)), IdsOf(meant[i]));
      }
      found := found + IdsOf(meant[i]);
    }
    return Trend(None, found);
  }

  // ----- when the check passes

  /** Whatever direction the clause claims, it means some series, and all of them go that way. */
  ghost predicate ClauseHolds(lang: Language, all: seq<Series>, clause: string) {
    var claimed := DirectionWord(lang, clause);
    claimed.Some? ==>
      && Meant(all, clause) != []
      && forall s :: s in Meant(all, clause) ==> Expected(lang, s, clause) == claimed.value
  }

  lemma {:induction false} SeriesAgree(lang: Language, clause: string, claimed: Direction, meant: seq<Series>, ids: seq<FactId>)
    ensures CheckSeries(lang, clause, claimed, meant, ids).reason.None?
       <==> forall s :: s in meant ==> Expected(lang, s, clause) == claimed
    decreases |meant|
  {
    if meant != [] {
      assert meant == [meant[0]] + meant[1..];
      assert meant[0] in meant;
      SeriesAgree(lang, clause, claimed, meant[1..], ids + IdsOf(meant[0]));
    }
  }

  lemma ClauseAgrees(lang: Language, all: seq<Series>, clause: string, ids: seq<FactId>)
    ensures CheckClause(lang, all, clause, ids).reason.None? <==> ClauseHolds(lang, all, clause)
  {
    var claimed := DirectionWord(lang, clause);
    if claimed.Some? { SeriesAgree(lang, clause, claimed.value, Meant(all, clause), ids); }
  }

  lemma {:induction false} ClausesAgree(lang: Language, all: seq<Series>, clauses: seq<string>, ids: seq<FactId>)
    ensures CheckClauses(lang, all, clauses, ids).reason.None? <==> forall clause :: clause in clauses ==> ClauseHolds(lang, all, clause)
    decreases |clauses|
  {
    if clauses != [] {
      assert clauses == [clauses[0]] + clauses[1..];
      assert clauses[0] in clauses;
      ClauseAgrees(lang, all, clauses[0], ids);
      ClausesAgree(lang, all, clauses[1..], CheckClause(lang, all, clauses[0], ids).factIds);
    }
  }

  lemma ContainsInPart(text: string, p: nat, part: string, l: string)
    requires p + |part| <= |text| && text[p..p + |part|] == part && Contains(part, l)
    ensures Contains(text, l)
  {
    var i :| 0 <= i <= |part| && l <= part[i..];
    assert text[p + i..] == part[i..] + text[p + |part|..];
  }

  /** A clause claims no direction that the text has no marker for. */
  lemma NoMarkerNoDirection(lang: Language, text: string, clause: string)
    requires clause in Clauses(text, CLAUSE_ENDS) && DirectionWord(lang, clause).Some?
    ensures ContainsAny(text, lang.flat + lang.up + lang.down)
  {
    var all := lang.flat + lang.up + lang.down;
    SeparatorsAreCuts();
    var p := ClauseIsSlice(text, CLAUSE_ENDS, clause);
    var l :| l in all && l != "" && Contains(clause, l);
    ContainsInPart(text, p, clause, l);
  }

  /** The check passes exactly when the text is negated or every clause that claims a direction means some
      series, and all it means go that way. */
  lemma TrendIsSupportedExactly(lang: Language, facts: seq<Fact>, text: string)
    ensures TrendOf(lang, facts, text).reason.None?
       <==> || lang.negated(text)
            || forall clause :: clause in Clauses(text, CLAUSE_ENDS) ==> ClauseHolds(lang, AllSeries(facts), clause)
  {
    var all, clauses := AllSeries(facts), Clauses(text, CLAUSE_ENDS);
    ClausesAgree(lang, all, clauses, []);
    if !ContainsAny(text, lang.flat + lang.up + lang.down) {
      forall clause | clause in clauses ensures ClauseHolds(lang, all, clause) {
        if DirectionWord(lang, clause).Some? { NoMarkerNoDirection(lang, text, clause); }
      }
    }
  }

  // ----- what a series holds

  lemma {:induction false} RowHolds(facts: seq<Fact>, key: Row)
    ensures forall f :: f in RowOf(facts, key) <==> f in facts && RowKey(f) == key
  {
    if facts != [] {
      RowHolds(facts[..|facts| - 1], key);
      assert facts == facts[..|facts| - 1] + [facts[|facts| - 1]];
    }
  }

  lemma {:induction false} DedupHolds<T>(items: seq<T>)
    ensures forall x :: x in Dedup(items) <==> x in items
  {
    if items != [] {
      DedupHolds(items[..|items| - 1]);
      assert items == items[..|items| - 1] + [items[|items| - 1]];
    }
  }

  /** Some point of the list reads the fact. */
  ghost predicate Reads(points: seq<Point>, f: Fact) { exists p :: p in points && p.fact == f }

  lemma {:induction false} ReadingsHold(facts: seq<Fact>, date: Option<Fact>)
    ensures forall f :: Reads(Readings(facts, date), f) <==> f in facts && IsReading(f)
    ensures forall p :: p in Readings(facts, date) ==> p == PointOf(p.fact, date)
  {
    if facts != [] {
      var front, last := facts[..|facts| - 1], facts[|facts| - 1];
      ReadingsHold(front, date);
      assert facts == front + [last];
      if IsReading(last) {
        var before := Readings(front, date);
        assert PointOf(last, date) in before + [PointOf(last, date)];
        assert forall p :: p in before ==> p in before + [PointOf(last, date)];
      }
    }
  }

  lemma {:induction false} RowsHold(facts: seq<Fact>, keys: seq<Row>)
    ensures forall f :: Reads(PointsOfRows(facts, keys), f) <==> f in facts && IsReading(f) && RowKey(f) in keys
  {
    if keys != [] {
      var front, key := keys[..|keys| - 1], keys[|keys| - 1];
      RowsHold(facts, front);
      RowHolds(facts, key);
      ReadingsHold(RowOf(facts, key), DateFact(RowOf(facts, key)));
      assert keys == front + [key];
      ReadsEither(PointsOfRows(facts, front), RowPoints(RowOf(facts, key)));
    }
  }

  lemma ReadsEither(a: seq<Point>, b: seq<Point>)
    ensures forall f :: Reads(a + b, f) <==> Reads(a, f) || Reads(b, f)
  {
  }

  lemma PointsHold(facts: seq<Fact>)
    ensures forall f :: Reads(Points(facts), f) <==> f in facts && IsReading(f)
  {
    RowsHold(facts, Dedup(RowKeys(facts)));
    DedupHolds(RowKeys(facts));
    forall f | f in facts ensures RowKey(f) in Dedup(RowKeys(facts)) {
      var i :| 0 <= i < |facts| && facts[i] == f;
      assert RowKeys(facts)[i] == RowKey(f);
    }
  }

  lemma {:induction false} NamedHold(points: seq<Point>, name: string)
    ensures forall p :: p in PointsNamed(points, name) <==> p in points && SeriesName(p.fact) == name
  {
    if points != [] {
      NamedHold(points[..|points| - 1], name);
      assert points == points[..|points| - 1] + [points[|points| - 1]];
    }
  }

  lemma {:induction false} SeriesHaveNames(points: seq<Point>, names: seq<string>, s: Series)
    requires s in SeriesAmong(points, names)
    ensures exists name :: name in names && s == SeriesOf(PointsNamed(points, name)) && |PointsNamed(points, name)| >= 2
  {
    var front, name := names[..|names| - 1], names[|names| - 1];
    assert names == front + [name];
    if s in SeriesAmong(points, front) {
      SeriesHaveNames(points, front, s);
    } else {
      assert s == SeriesOf(PointsNamed(points, name));
    }
  }

  /** A series reads exactly the number facts of one task and column, and holds them in order of time. */
  lemma SeriesIsExact(facts: seq<Fact>, s: Series) returns (name: string)
    requires s in AllSeries(facts)
    ensures forall f :: Reads(s.points, f) <==> f in facts && IsReading(f) && SeriesName(f) == name
    ensures |s.points| >= 2 && AreInTime(s.points)
  {
    var points := Points(facts);
    SeriesHaveNames(points, Names(points), s);
    name :| name in Names(points) && s == SeriesOf(PointsNamed(points, name)) && |PointsNamed(points, name)| >= 2;
    PointsHold(facts);
    NamedHold(points, name);
    var own := PointsNamed(points, name);
    InTimeSorts(own);
    forall p ensures p in s.points <==> p in own { assert p in multiset(s.points) <==> p in multiset(own); }
    forall f ensures Reads(s.points, f) <==> f in facts && IsReading(f) && SeriesName(f) == name {
      assert Reads(s.points, f) <==> Reads(own, f);
    }
  }

  // ----- an accepted direction is true

  predicate GoesThatWay(d: Direction, x: real, y: real) {
    match d
    case Up => x < y
    case Down => x > y
    case Flat => x == y
  }

  lemma {:induction false} NamedAreIn(all: seq<Series>, clause: string)
    ensures forall s :: s in NamedIn(all, clause) <==> s in all && LabelOccurs(s.labels, clause)
  {
    if all != [] {
      NamedAreIn(all[..|all| - 1], clause);
      assert all == all[..|all| - 1] + [all[|all| - 1]];
    }
  }

  /** In a text that is not negated and passes, every series that a clause names goes the way the clause says,
      from the first to the second of the readings that the clause compares. */
  lemma SupportedDirectionIsTrue(lang: Language, facts: seq<Fact>, text: string, clause: string, s: Series)
    requires TrendOf(lang, facts, text).reason.None? && !lang.negated(text)
    requires clause in Clauses(text, CLAUSE_ENDS) && DirectionWord(lang, clause).Some?
    requires s in AllSeries(facts) && LabelOccurs(s.labels, clause)
    ensures s.points != []
    ensures var pair := Compared(lang, s, clause);
            GoesThatWay(DirectionWord(lang, clause).value, ValueAt(s, pair.0), ValueAt(s, pair.1))
  {
    TrendIsSupportedExactly(lang, facts, text);
    assert ClauseHolds(lang, AllSeries(facts), clause);
    NamedAreIn(AllSeries(facts), clause);
    assert s in Meant(AllSeries(facts), clause);
    var name := SeriesIsExact(facts, s);
  }

  /** No day and no pair of days is compared: the clause speaks of the whole series. */
  predicate SpeaksOfAll(lang: Language, clause: string) {
    |ClaimDates(lang, clause)| < 2 && (ClaimDates(lang, clause) == [] || !ContainsAny(Compact(clause), lang.previousDay))
  }

  lemma AllIsCompared(lang: Language, s: Series, clause: string)
    requires SpeaksOfAll(lang, clause) && s.points != []
    ensures Compared(lang, s, clause) == (0, |s.points| - 1)
  {
  }

  /** No reading is earlier than the first of a series, and none is later than the last. */
  lemma EndsOfSeries(facts: seq<Fact>, s: Series) returns (first: Point, last: Point)
    requires s in AllSeries(facts)
    ensures s.points != [] && first == s.points[0] && last == s.points[|s.points| - 1]
    ensures first in s.points && last in s.points
    ensures forall p :: p in s.points && p != first ==> NotAfter(first, p)
    ensures forall p :: p in s.points && p != last ==> NotAfter(p, last)
  {
    var name := SeriesIsExact(facts, s);
    first, last := s.points[0], s.points[|s.points| - 1];
    forall p | p in s.points ensures (p != first ==> NotAfter(first, p)) && (p != last ==> NotAfter(p, last)) {
      var i :| 0 <= i < |s.points| && s.points[i] == p;
    }
  }

  /** The last value of a series that is said to rise, without days, is above its first: no number fact of
      the series is earlier than the one and none is later than the other. */
  lemma OverallDirectionIsTrue(lang: Language, facts: seq<Fact>, text: string, clause: string, s: Series) returns (first: Point, last: Point)
    requires TrendOf(lang, facts, text).reason.None? && !lang.negated(text)
    requires clause in Clauses(text, CLAUSE_ENDS) && DirectionWord(lang, clause).Some? && SpeaksOfAll(lang, clause)
    requires s in AllSeries(facts) && LabelOccurs(s.labels, clause)
    ensures first in s.points && last in s.points
    ensures forall p :: p in s.points && p != first ==> NotAfter(first, p)
    ensures forall p :: p in s.points && p != last ==> NotAfter(p, last)
    ensures GoesThatWay(DirectionWord(lang, clause).value, first.fact.value.value, last.fact.value.value)
  {
    SupportedDirectionIsTrue(lang, facts, text, clause, s);
    AllIsCompared(lang, s, clause);
    first, last := EndsOfSeries(facts, s);
  }

  // ----- the facts that are reported

  ghost predicate FromFacts(p: Point, facts: seq<Fact>) { p.fact in facts && NameFacts(p.dateIds, facts) }

  lemma {:induction false} DateFactIsThere(row: seq<Fact>)
    ensures DateFact(row).Some? ==> DateFact(row).value in row
  {
    if row != [] && row[0].valueType != "date" { DateFactIsThere(row[1..]); }
  }

  lemma {:induction false} PointsAreFromFacts(facts: seq<Fact>, keys: seq<Row>)
    ensures forall p :: p in PointsOfRows(facts, keys) ==> FromFacts(p, facts)
  {
    if keys != [] {
      var row := RowOf(facts, keys[|keys| - 1]);
      PointsAreFromFacts(facts, keys[..|keys| - 1]);
      RowHolds(facts, keys[|keys| - 1]);
      DateFactIsThere(row);
      ReadingsHold(row, DateFact(row));
      forall p | p in RowPoints(row) ensures FromFacts(p, facts) { assert Reads(RowPoints(row), p.fact); }
    }
  }

  lemma SeriesPointsAreFromFacts(facts: seq<Fact>, s: Series, p: Point)
    requires s in AllSeries(facts) && p in s.points
    ensures FromFacts(p, facts)
  {
    var points := Points(facts);
    PointsAreFromFacts(facts, Dedup(RowKeys(facts)));
    SeriesHaveNames(points, Names(points), s);
    var name :| name in Names(points) && s == SeriesOf(PointsNamed(points, name)) && |PointsNamed(points, name)| >= 2;
    NamedHold(points, name);
    var own := PointsNamed(points, name);
    InTimeSorts(own);
    assert p in multiset(s.points);
    assert p in multiset(own);
  }

  lemma SeriesIsFromFacts(facts: seq<Fact>, s: Series)
    requires s in AllSeries(facts)
    ensures NameFacts(IdsOf(s), facts)
  {
    if s.points != [] {
      var first, last := s.points[0], s.points[|s.points| - 1];
      SeriesPointsAreFromFacts(facts, s, first);
      SeriesPointsAreFromFacts(facts, s, last);
      DedupHolds([first.fact.id, last.fact.id] + first.dateIds + last.dateIds);
    }
  }

  lemma {:induction false} ComparedAreFacts(lang: Language, facts: seq<Fact>, clause: string, claimed: Direction, meant: seq<Series>, ids: seq<FactId>)
    requires NameFacts(ids, facts) && forall s :: s in meant ==> s in AllSeries(facts)
    ensures NameFacts(CheckSeries(lang, clause, claimed, meant, ids).factIds, facts)
    decreases |meant|
  {
    if meant != [] {
      SeriesIsFromFacts(facts, meant[0]);
      ComparedAreFacts(lang, facts, clause, claimed, meant[1..], ids + IdsOf(meant[0]));
    }
  }

  lemma {:induction false} CheckedAreFacts(lang: Language, facts: seq<Fact>, clauses: seq<string>, ids: seq<FactId>)
    requires NameFacts(ids, facts)
    ensures NameFacts(CheckClauses(lang, AllSeries(facts), clauses, ids).factIds, facts)
    decreases |clauses|
  {
    if clauses == [] {
      DedupHolds(ids);
    } else {
      var all, clause := AllSeries(facts), clauses[0];
      var claimed := DirectionWord(lang, clause);
      NamedAreIn(all, clause);
      if claimed.Some? { ComparedAreFacts(lang, facts, clause, claimed.value, Meant(all, clause), ids); }
      CheckedAreFacts(lang, facts, clauses[1..], if CheckClause(lang, all, clause, ids).reason.None? then CheckClause(lang, all, clause, ids).factIds else []);
    }
  }

  /** Whether it passes or fails, the check reports ids of facts only. */
  lemma TrendNamesFacts(lang: Language, facts: seq<Fact>, text: string)
    ensures NameFacts(TrendOf(lang, facts, text).factIds, facts)
  {
    CheckedAreFacts(lang, facts, Clauses(text, CLAUSE_ENDS), []);
  }
}
