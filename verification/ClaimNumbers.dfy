/**
 The numbers an answer may state without a row holding them: `supported_numbers`
 of `answer_claims.py` derives window and day-to-day differences, change rates
 and period totals from the facts of one column of one task. Decimals are reals.
 */
module ClaimNumbers {
  import opened Basics
  import opened Text

  type FactId = s: string | s != "" witness "f"

  /** A verified fact. `value` is its decimal_value, `temporal` its normalized temporal token and
      `entity` its normalized entity. */
  datatype Fact = Fact(
    id: FactId,
    taskId: string,
    rowIndex: nat,
    column: string,
    labelText: string,
    aliases: seq<string>,
    valueType: string,
    value: Option<real>,
    temporal: string,
    entity: string,
    aggregationPolicy: string)

  type Measured = f: Fact | f.value.Some? witness Fact("f", "", 0, "", "", [], "number", Some(0.0), "", "", "")

  // ----- labels

  const REMOVED_FROM_LABELS := "_`：:（）()-"

  predicate KeptInLabel(c: char) { !IsSpace(c) && c !in REMOVED_FROM_LABELS }

  /** normalize_label_text */
  function NormalLabel(s: string): string { Filter(KeptInLabel, Lower(Strip(s))) }

  function NormalLabels(labels: seq<string>): seq<string> {
    seq(|labels|, i requires 0 <= i < |labels| => NormalLabel(labels[i]))
  }

  /** dedupe_texts */
  function Dedupe(texts: seq<string>): (r: seq<string>)
    ensures forall s :: s in r <==> s in texts && s != ""
    ensures forall i, j :: 0 <= i < j < |r| ==> r[i] != r[j]
  {
    if texts == [] then []
    else
      var before, last := Dedupe(texts[..|texts| - 1]), texts[|texts| - 1];
      assert texts == texts[..|texts| - 1] + [last];
      if last == "" || last in before then before else before + [last]
  }

  /** fact_label_candidates */
  function LabelsOf(f: Fact): seq<string> {
    Dedupe([NormalLabel(f.labelText)] + NormalLabels(f.aliases) + [NormalLabel(f.column)])
  }

  // ----- arithmetic

  /** decimal_close */
  predicate Close(left: real, right: real) {
    var relative := Abs(right) * 0.000001;
    Abs(left - right) <= if relative > 0.005 then relative else 0.005
  }

  function Total(g: seq<Measured>): real {
    if g == [] then 0.0 else Total(g[..|g| - 1]) + g[|g| - 1].value.value
  }

  /** Change from `x` to `y` in percent of the size of `x`. */
  function Percent(x: real, y: real): real
    requires x != 0.0
  {
    (y - x) / Abs(x) * 100.0
  }

  // ----- derived numbers

  datatype Kind = WindowDelta | WindowChangeRate | PeriodRollup | AdjacentDelta | AdjacentChangeRate

  datatype Derived = Derived(number: real, labels: seq<string>, factIds: seq<FactId>, kind: Kind)

  /** The facts of a task and column that hold numbers, in order. */
  function GroupOf(facts: seq<Fact>, key: (string, string)): seq<Measured> {
    if facts == [] then []
    else
      var before, f := GroupOf(facts[..|facts| - 1], key), facts[|facts| - 1];
      if f.value.Some? && (f.taskId, f.column) == key then before + [f] else before
  }

  function Ids(g: seq<Fact>): seq<FactId> {
    seq(|g|, i requires 0 <= i < |g| => g[i].id)
  }

  predicate IsPublishedRollup(g: seq<Fact>) {
    && (forall f :: f in g ==> Lower(Strip(f.aggregationPolicy)) in {"", "period_rollup"})
    && (exists f :: f in g && Lower(Strip(f.aggregationPolicy)) == "period_rollup")
  }

  /** `x` is a change from `a` to `b` or its size. */
  predicate IsChange(x: real, a: real, b: real) { x == b - a || x == Abs(b - a) }

  predicate IsRate(x: real, a: real, b: real) { a != 0.0 && (x == Percent(a, b) || x == Abs(Percent(a, b))) }

  /** `d` is derived from neighbours `i` and `i + 1`. */
  predicate FromNeighbours(g: seq<Measured>, d: Derived, i: nat)
    requires i + 1 < |g|
  {
    var a, b := g[i].value.value, g[i + 1].value.value;
    && d.factIds == [g[i].id, g[i + 1].id]
    && match d.kind
       case AdjacentDelta => IsChange(d.number, a, b)
       case AdjacentChangeRate => IsRate(d.number, a, b)
       case _ => false
  }

  predicate FromWindow(g: seq<Measured>, d: Derived)
    requires |g| >= 2
  {
    var a, b := g[0].value.value, g[|g| - 1].value.value;
    && d.factIds == Ids(g)
    && match d.kind
       case WindowDelta => IsChange(d.number, a, b)
       case WindowChangeRate => IsRate(d.number, a, b)
       case PeriodRollup => IsPublishedRollup(g) && d.number == Total(g)
       case _ => false
  }

  ghost predicate FromGroup(g: seq<Measured>, d: Derived) {
    && |g| >= 2 && d.labels == LabelsOf(g[0])
    && (FromWindow(g, d) || exists i: nat :: i + 1 < |g| && FromNeighbours(g, d, i))
  }

  /** `d` is a number that the rows of one column of one task justify. */
  ghost predicate Derivable(facts: seq<Fact>, d: Derived) {
    exists key :: FromGroup(GroupOf(facts, key), d)
  }

  /** What dedupe_derived_numbers compares. */
  predicate SameDerivation(d: Derived, e: Derived) {
    d.kind == e.kind && d.number == e.number && multiset(d.labels) == multiset(e.labels)
  }

  /** Every number in the list can be derived. */
  ghost predicate OnlyDerivable(derived: seq<Derived>, facts: seq<Fact>) {
    forall d :: d in derived ==> Derivable(facts, d)
  }

  /** Each derivable number is in the list, as far as dedupe_derived_numbers can tell numbers apart. */
  ghost predicate AllDerivable(derived: seq<Derived>, facts: seq<Fact>) {
    forall d :: Derivable(facts, d) ==> exists e :: e in derived && SameDerivation(e, d)
  }

  ghost predicate NoneTwice(derived: seq<Derived>) {
    forall i, j :: 0 <= i < j < |derived| ==> !SameDerivation(derived[i], derived[j])
  }

  method SupportedNumbers(facts: seq<Fact>) returns (derived: seq<Derived>)
    ensures OnlyDerivable(derived, facts) && AllDerivable(derived, facts) && NoneTwice(derived)
  {
    var keys, grouped := GroupFacts(facts);
    derived := [];
    for i := 0 to |keys|
      invariant forall d :: d in derived <==> exists k :: 0 <= k < i && FromGroup(GroupOf(facts, keys[k]), d)
    {
      if |grouped[keys[i]]| < 2 { continue; }
      var more := GroupNumbers(grouped[keys[i]]);
      derived := derived + more;
    }
    forall d ensures d in derived <==> Derivable(facts, d) {
      if key :| FromGroup(GroupOf(facts, key), d) { assert key in keys; }
    }
    derived := DedupeDerivedNumbers(derived);
  }

  /** A dictionary of the facts that hold numbers, by task and column, with its keys in order. */
  method GroupFacts(facts: seq<Fact>) returns (keys: seq<(string, string)>, grouped: map<(string, string), seq<Measured>>)
    ensures forall key :: key in grouped <==> key in keys
    ensures forall key :: key in keys ==> grouped[key] == GroupOf(facts, key)
    ensures forall key :: key !in keys ==> GroupOf(facts, key) == []
  {
    keys, grouped := [], map[];
    for i := 0 to |facts|
      invariant forall key :: key in grouped <==> key in keys
      invariant forall key :: key in keys ==> grouped[key] == GroupOf(facts[..i], key)
      invariant forall key :: key !in keys ==> GroupOf(facts[..i], key) == []
    {
      var f := facts[i];
      assert facts[..i + 1][..i] == facts[..i];
      if f.value.None? { continue; }
      var key := (f.taskId, f.column);
      if key !in grouped {
        keys := keys + [key];
        grouped := grouped[key := []];
      }
      grouped := grouped[key := grouped[key] + [f]];
    }
    assert facts[..|facts|] == facts;
  }

  predicate IsDelta(d: Derived, a: real, b: real, delta: Kind, rate: Kind) {
    (d.kind == delta && IsChange(d.number, a, b)) || (d.kind == rate && IsRate(d.number, a, b))
  }

  /** Difference and change rate from `a` to `b`, each with its size. */
  method Changes(a: real, b: real, labels: seq<string>, ids: seq<FactId>, delta: Kind, rate: Kind)
    returns (derived: seq<Derived>)
    ensures forall d :: d in derived <==> (d.labels == labels && d.factIds == ids && IsDelta(d, a, b, delta, rate))
  {
    derived := [Derived(b - a, labels, ids, delta), Derived(Abs(b - a), labels, ids, delta)];
    if a != 0.0 {
      var percent := Percent(a, b);
      derived := derived + [Derived(percent, labels, ids, rate), Derived(Abs(percent), labels, ids, rate)];
    }
  }

  method WindowNumbers(g: seq<Measured>) returns (derived: seq<Derived>)
    requires |g| >= 2
    ensures forall d :: d in derived <==> d.labels == LabelsOf(g[0]) && FromWindow(g, d)
  {
    var labels, ids := LabelsOf(g[0]), Ids(g);
    derived := Changes(g[0].value.value, g[|g| - 1].value.value, labels, ids, WindowDelta, WindowChangeRate);
    if IsPublishedRollup(g) {
      derived := derived + [Derived(Total(g), labels, ids, PeriodRollup)];
    }
  }

  method NeighbourNumbers(g: seq<Measured>, i: nat) returns (derived: seq<Derived>)
    requires i + 1 < |g|
    ensures forall d :: d in derived <==> d.labels == LabelsOf(g[0]) && FromNeighbours(g, d, i)
  {
    derived := Changes(g[i].value.value, g[i + 1].value.value, LabelsOf(g[0]), [g[i].id, g[i + 1].id],
                       AdjacentDelta, AdjacentChangeRate);
  }

  /** `d` is derived from the window or from one of the first `n` pairs of neighbours. */
  ghost predicate SoFar(g: seq<Measured>, d: Derived, n: nat)
    requires |g| >= 2 && n < |g|
  {
    d.labels == LabelsOf(g[0]) && (FromWindow(g, d) || exists k: nat :: k < n && FromNeighbours(g, d, k))
  }

  method GroupNumbers(g: seq<Measured>) returns (derived: seq<Derived>)
    requires |g| >= 2
    ensures forall d :: d in derived <==> FromGroup(g, d)
  {
    derived := WindowNumbers(g);
    for i := 0 to |g| - 1
      invariant forall d :: d in derived <==> SoFar(g, d, i)
    {
      var more := NeighbourNumbers(g, i);
      derived := derived + more;
    }
  }

  method DedupeDerivedNumbers(values: seq<Derived>) returns (result: seq<Derived>)
    ensures forall d :: d in result ==> d in values
    ensures forall d :: d in values ==> exists e :: e in result && SameDerivation(e, d)
    ensures forall i, j :: 0 <= i < j < |result| ==> !SameDerivation(result[i], result[j])
  {
    result := [];
    for i := 0 to |values|
      invariant forall d :: d in result ==> d in values
      invariant forall k :: 0 <= k < i ==> exists e :: e in result && SameDerivation(e, values[k])
      invariant forall i, j :: 0 <= i < j < |result| ==> !SameDerivation(result[i], result[j])
    {
      ghost var before := result;
      if !(exists e :: e in result && SameDerivation(e, values[i])) {
        result := result + [values[i]];
        assert values[i] in result && SameDerivation(values[i], values[i]);
      }
      forall k | 0 <= k < i ensures exists e :: e in result && SameDerivation(e, values[k]) {
        var e :| e in before && SameDerivation(e, values[k]);
        assert e in result;
      }
    }
  }

  // ----- laws of the derived numbers

  lemma WindowNumberIsDerivable(facts: seq<Fact>, key: (string, string), d: Derived)
    requires |GroupOf(facts, key)| >= 2 && FromWindow(GroupOf(facts, key), d) && d.labels == LabelsOf(GroupOf(facts, key)[0])
    ensures Derivable(facts, d)
  {
    assert FromGroup(GroupOf(facts, key), d);
  }

  lemma NeighbourNumberIsDerivable(facts: seq<Fact>, key: (string, string), d: Derived, i: nat)
    requires i + 1 < |GroupOf(facts, key)| && FromNeighbours(GroupOf(facts, key), d, i)
    requires d.labels == LabelsOf(GroupOf(facts, key)[0])
    ensures Derivable(facts, d)
  {
    assert FromGroup(GroupOf(facts, key), d);
  }

  lemma ListedLike(facts: seq<Fact>, derived: seq<Derived>, d: Derived) returns (e: Derived)
    requires AllDerivable(derived, facts) && Derivable(facts, d)
    ensures e in derived && SameDerivation(e, d)
  {
    e :| e in derived && SameDerivation(e, d);
  }

  function Sum(ds: seq<Derived>): real {
    if ds == [] then 0.0 else Sum(ds[..|ds| - 1]) + ds[|ds| - 1].number
  }

  /** `d` is a listed difference from `x` to `y`. */
  predicate ListedDifference(derived: seq<Derived>, d: Derived, kind: Kind, x: Measured, y: Measured) {
    d in derived && d.kind == kind && x.value.value + d.number == y.value.value
  }

  /** The supported numbers hold, for every group, a window difference that leads from its first value
      to its last, and day-to-day differences that lead from each value to the next and add up to it. */
  lemma DifferencesAddUp(facts: seq<Fact>, derived: seq<Derived>, key: (string, string)) returns (window: Derived, steps: seq<Derived>)
    requires AllDerivable(derived, facts) && |GroupOf(facts, key)| >= 2
    ensures var g := GroupOf(facts, key);
            && ListedDifference(derived, window, WindowDelta, g[0], g[|g| - 1])
            && |steps| == |g| - 1
            && (forall i :: 0 <= i < |steps| ==> ListedDifference(derived, steps[i], AdjacentDelta, g[i], g[i + 1]))
    ensures Sum(steps) == window.number
  {
    var g := GroupOf(facts, key);
    var whole := Derived(g[|g| - 1].value.value - g[0].value.value, LabelsOf(g[0]), Ids(g), WindowDelta);
    WindowNumberIsDerivable(facts, key, whole);
    window := ListedLike(facts, derived, whole);
    steps := NeighbourSteps(facts, derived, key, |g| - 1);
  }

  lemma {:induction false} NeighbourSteps(facts: seq<Fact>, derived: seq<Derived>, key: (string, string), n: nat) returns (steps: seq<Derived>)
    requires AllDerivable(derived, facts) && n < |GroupOf(facts, key)|
    ensures var g := GroupOf(facts, key);
            && |steps| == n && Sum(steps) == g[n].value.value - g[0].value.value
            && (forall i :: 0 <= i < n ==> ListedDifference(derived, steps[i], AdjacentDelta, g[i], g[i + 1]))
  {
    steps := [];
    if n > 0 {
      var g := GroupOf(facts, key);
      var before := NeighbourSteps(facts, derived, key, n - 1);
      var step := Derived(g[n].value.value - g[n - 1].value.value, LabelsOf(g[0]), [g[n - 1].id, g[n].id], AdjacentDelta);
      NeighbourNumberIsDerivable(facts, key, step, n - 1);
      var listed := ListedLike(facts, derived, step);
      steps := before + [listed];
      assert steps[..n - 1] == before;
    }
  }

  /** Unless the first value is zero, a supported rate in percent leads from the first value to the last. */
  lemma RateLeadsToLast(facts: seq<Fact>, derived: seq<Derived>, key: (string, string)) returns (d: Derived)
    requires AllDerivable(derived, facts)
    requires |GroupOf(facts, key)| >= 2 && GroupOf(facts, key)[0].value.value != 0.0
    ensures d in derived && d.kind == WindowChangeRate
    ensures var g := GroupOf(facts, key);
            g[0].value.value + Abs(g[0].value.value) * d.number / 100.0 == g[|g| - 1].value.value
  {
    var g := GroupOf(facts, key);
    var rate := Derived(Percent(g[0].value.value, g[|g| - 1].value.value), LabelsOf(g[0]), Ids(g), WindowChangeRate);
    WindowNumberIsDerivable(facts, key, rate);
    d := ListedLike(facts, derived, rate);
    PercentLeadsThere(g[0].value.value, g[|g| - 1].value.value);
  }

  lemma PercentLeadsThere(x: real, y: real)
    requires x != 0.0
    ensures x + Abs(x) * Percent(x, y) / 100.0 == y
  {
    QuotientCancels(Abs(x), y - x);
  }

  lemma QuotientCancels(a: real, b: real)
    requires a != 0.0
    ensures a * (b / a * 100.0) / 100.0 == b
  {
    assert b / a * a == b;
  }

  // ----- which numbers of which kind

  /** The total adds up: of nothing it is nothing, of one fact its value, of two lists the sum of both. */
  lemma {:induction false} TotalAddsUp(a: seq<Measured>, b: seq<Measured>, f: Measured)
    ensures Total([]) == 0.0 && Total([f]) == f.value.value
    ensures Total(a + b) == Total(a) + Total(b)
  {
    assert [f][..0] == [];
    if b == [] {
      assert a + b == a;
    } else {
      assert (a + b)[..|a + b| - 1] == a + b[..|b| - 1];
      TotalAddsUp(a, b[..|b| - 1], f);
    }
  }

  ghost predicate HasKind(g: seq<Measured>, kind: Kind, x: real) {
    exists d :: FromGroup(g, d) && d.kind == kind && d.number == x
  }

  function First(g: seq<Measured>): real requires g != [] { g[0].value.value }

  function Last(g: seq<Measured>): real requires g != [] { g[|g| - 1].value.value }

  /** A policy counts as its text without blanks around it and in lower case. */
  function PolicyOf(f: Fact): string { Lower(Strip(f.aggregationPolicy)) }

  lemma PolicyExactly(g: seq<Fact>)
    ensures IsPublishedRollup(g) <==>
              && (exists f :: f in g && PolicyOf(f) == "period_rollup")
              && (forall f :: f in g ==> PolicyOf(f) == "period_rollup" || PolicyOf(f) == "")
  {
  }

  lemma TotalIsRollup(g: seq<Measured>, x: real)
    ensures HasKind(g, PeriodRollup, x) <==> |g| >= 2 && x == Total(g) && IsPublishedRollup(g)
  {
    if |g| >= 2 && x == Total(g) && IsPublishedRollup(g) {
      assert FromGroup(g, Derived(x, LabelsOf(g[0]), Ids(g), PeriodRollup));
    }
  }

  /** A group holds exactly the facts with a value of its task and column, in the order of the facts. */
  lemma {:induction false} GroupExactly(facts: seq<Fact>, more: seq<Fact>, task: string, column: string, f: Fact)
    ensures f in GroupOf(facts, (task, column)) <==> f in facts && f.value.Some? && f.taskId == task && f.column == column
    ensures GroupOf(facts + more, (task, column)) == GroupOf(facts, (task, column)) + GroupOf(more, (task, column))
    decreases |facts| + |more|
  {
    if more != [] {
      var front, last := more[..|more| - 1], more[|more| - 1];
      GroupExactly(facts, front, task, column, f);
      assert (facts + more)[..|facts + more| - 1] == facts + front;
    } else {
      assert facts + more == facts;
      if facts != [] {
        GroupExactly(facts[..|facts| - 1], [], task, column, f);
        assert facts == facts[..|facts| - 1] + [facts[|facts| - 1]];
      }
    }
  }

  /** A total is derivable exactly of two facts or more, of which some publish it and none says otherwise. */
  lemma TotalIsDerivableExactly(g: seq<Measured>, x: real)
    ensures HasKind(g, PeriodRollup, x) <==>
              && |g| >= 2 && x == Total(g)
              && (exists f :: f in g && PolicyOf(f) == "period_rollup")
              && (forall f :: f in g ==> PolicyOf(f) == "period_rollup" || PolicyOf(f) == "")
  {
    TotalIsRollup(g, x);
    PolicyExactly(g);
  }

  /** A difference over the window is derivable exactly from the first to the last value, with its sign or without. */
  lemma WindowDeltaExactly(g: seq<Measured>, x: real)
    ensures HasKind(g, WindowDelta, x) <==> |g| >= 2 && (x == Last(g) - First(g) || x == Abs(Last(g) - First(g)))
  {
    if |g| >= 2 {
      var d := Derived(x, LabelsOf(g[0]), Ids(g), WindowDelta);
      assert FromGroup(g, d) <==> IsChange(x, First(g), Last(g));
    }
  }

  /** `x` is what `y - b` is in percent of the size of `b`, with its sign or without. */
  predicate IsPercentChange(x: real, b: real, y: real) {
    b != 0.0 && (x * Abs(b) == (y - b) * 100.0 || x * Abs(b) == Abs(y - b) * 100.0)
  }

  lemma RateIsPercentChange(x: real, b: real, y: real)
    ensures IsRate(x, b, y) <==> IsPercentChange(x, b, y)
  {
    if b != 0.0 {
      QuotientIs(x, y - b, Abs(b));
      QuotientIs(x, Abs(y - b), Abs(b));
      AbsOfQuotient(y - b, Abs(b));
    }
  }

  lemma QuotientIs(x: real, p: real, q: real)
    requires q > 0.0
    ensures x == p / q * 100.0 <==> x * q == p * 100.0
  {
    assert p / q * q == p;
    if x * q == p * 100.0 { assert x == x * q / q; }
  }

  lemma AbsOfQuotient(p: real, q: real)
    requires q > 0.0
    ensures Abs(p / q * 100.0) == Abs(p) / q * 100.0
  {
    if p < 0.0 { assert (-p) / q == -(p / q); } else { assert p / q >= 0.0; }
    if p < 0.0 { assert p / q < 0.0; }
  }

  lemma WindowRateExactly(g: seq<Measured>, x: real)
    ensures HasKind(g, WindowChangeRate, x) <==> |g| >= 2 && IsPercentChange(x, First(g), Last(g))
  {
    if |g| >= 2 {
      var d := Derived(x, LabelsOf(g[0]), Ids(g), WindowChangeRate);
      RateIsPercentChange(x, First(g), Last(g));
      assert FromGroup(g, d) <==> IsRate(x, First(g), Last(g));
    }
  }

  /** Differences and rates between neighbours, exactly from each value to the next. */
  lemma NeighboursExactly(g: seq<Measured>, x: real)
    ensures HasKind(g, AdjacentDelta, x) <==>
              exists i: nat :: i + 1 < |g| && IsChange(x, g[i].value.value, g[i + 1].value.value)
    ensures HasKind(g, AdjacentChangeRate, x) <==>
              exists i: nat :: i + 1 < |g| && IsRate(x, g[i].value.value, g[i + 1].value.value)
  {
    if i: nat :| i + 1 < |g| && IsChange(x, g[i].value.value, g[i + 1].value.value) {
      assert FromNeighbours(g, Derived(x, LabelsOf(g[0]), [g[i].id, g[i + 1].id], AdjacentDelta), i);
    }
    if i: nat :| i + 1 < |g| && IsRate(x, g[i].value.value, g[i + 1].value.value) {
      assert FromNeighbours(g, Derived(x, LabelsOf(g[0]), [g[i].id, g[i + 1].id], AdjacentChangeRate), i);
    }
  }

  /** Numbers are close within half a cent, or within a millionth of the second. */
  lemma ClosenessExactly(x: real, y: real)
    ensures Close(x, y) <==> (-0.005 <= x - y <= 0.005) || (x - y <= Abs(y) / 1000000.0 && y - x <= Abs(y) / 1000000.0)
  {
  }

  /** The labels of a fact are its label, its aliases and its column, normalised, blank ones apart. */
  lemma LabelsExactly(f: Fact, l: string)
    ensures l in LabelsOf(f) <==>
              l != "" && (l == NormalLabel(f.labelText) || l == NormalLabel(f.column) || exists a :: a in f.aliases && l == NormalLabel(a))
  {
    var normal := NormalLabels(f.aliases);
    if a :| a in f.aliases && l == NormalLabel(a) {
      var i :| 0 <= i < |f.aliases| && f.aliases[i] == a;
      assert normal[i] == l;
    }
    if l in normal {
      var i :| 0 <= i < |normal| && normal[i] == l;
      assert f.aliases[i] in f.aliases;
    }
  }

  /** A normalised label keeps no blanks and none of the characters that only decorate, and no capitals. */
  lemma {:induction false} NormalLabelIsPlain(s: string, c: char)
    ensures c in NormalLabel(s) <==> c in Lower(Strip(s)) && !IsSpace(c) && c !in "_`：:（）()-"
  {
    FilterHolds(KeptInLabel, Lower(Strip(s)), c);
  }

  lemma {:induction false} FilterHolds(keep: char -> bool, s: string, c: char)
    ensures c in Filter(keep, s) <==> c in s && keep(c)
  {
    if s != "" {
      FilterHolds(keep, s[1..], c);
      assert s == [s[0]] + s[1..];
    }
  }
}
