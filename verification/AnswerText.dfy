/**
 How `answer.py` reads the numbers of an answer: calendar dates are blanked out
 first (`_scrub_answer_calendar_dates`), then the number scanner runs.
 */
module AnswerText {
  import opened Basics
  import opened Text
  import opened NumberScanner

  /** End of at most two digits from `i` on. */
  function TwoDigitEnd(text: string, i: nat): (end: nat)
    requires i <= |text|
    ensures i <= end <= |text| && end <= i + 2
  {
    if i < |text| && IsDigit(text[i]) then
      if i + 1 < |text| && IsDigit(text[i + 1]) then i + 2 else i + 1
    else i
  }

  predicate YearAt(text: string, i: nat) {
    && i + 4 < |text|
    && IsDigit(text[i]) && IsDigit(text[i + 1]) && IsDigit(text[i + 2]) && IsDigit(text[i + 3])
    && IsDateSeparator(text[i + 4])
  }

  /** Where the date starting at `i` ends, or `i` when none starts there. */
  function DateEnd(text: string, i: nat): (end: nat)
    requires i <= |text|
    ensures end == i || i + 8 <= end <= |text|
  {
    if !YearAt(text, i) then i
    else
      var month := TwoDigitEnd(text, i + 5);
      if month == i + 5 || month >= |text| || !IsDateSeparator(text[month]) then i
      else
        var day := TwoDigitEnd(text, month + 1);
        if day == month + 1 then i else day
  }

  /** One digit, or two, and one only where no second follows. */
  predicate AreOneOrTwo(text: string, from: nat, to: nat) {
    && from < to <= |text| && to <= from + 2 && (forall k :: from <= k < to ==> IsDigit(text[k]))
    && (to == from + 1 && to < |text| ==> !IsDigit(text[to]))
  }

  predicate SeparatesDate(text: string, k: nat) { k < |text| && (text[k] == '-' || text[k] == '/') }

  /** Four digits, one or two and one or two, with a dash or a slash between them. */
  predicate IsDate(text: string, i: nat, month: nat, end: nat) {
    && i + 4 < |text| && (forall k :: i <= k < i + 4 ==> IsDigit(text[k])) && SeparatesDate(text, i + 4)
    && AreOneOrTwo(text, i + 5, month) && SeparatesDate(text, month) && AreOneOrTwo(text, month + 1, end)
  }

  lemma TwoDigitsExactly(text: string, i: nat, end: nat)
    requires i <= |text| && i < end
    ensures TwoDigitEnd(text, i) == end <==> AreOneOrTwo(text, i, end)
  {
  }

  /** What is blanked as a date is exactly this. */
  lemma DateExactly(text: string, i: nat, end: nat)
    requires i <= |text| && i < end
    ensures DateEnd(text, i) == end <==> exists month: nat :: IsDate(text, i, month, end)
  {
    forall month: nat | IsDate(text, i, month, end) ensures DateEnd(text, i) == end {
      TwoDigitsExactly(text, i + 5, month);
      TwoDigitsExactly(text, month + 1, end);
    }
    if DateEnd(text, i) == end {
      var month := TwoDigitEnd(text, i + 5);
      TwoDigitsExactly(text, i + 5, month);
      TwoDigitsExactly(text, month + 1, end);
      assert IsDate(text, i, month, end);
    }
  }

  /** The end of the date starting at each position. */
  function DateEnds(text: string): (ends: seq<nat>)
    ensures |ends| == |text|
  {
    seq(|text|, i requires 0 <= i < |text| => DateEnd(text, i))
  }

  /** `ends[i]` is `i`, or at least eight characters further on. */
  ghost predicate AreEnds(ends: seq<nat>) {
    forall i :: 0 <= i < |ends| ==> ends[i] == i || i + 8 <= ends[i] <= |ends|
  }

  /** Reading position `i` while the date in hand ends at `until`: the end of the date that covers `i`. */
  function Until(ends: seq<nat>, i: nat, until: nat): nat
    requires i < |ends|
  {
    if i < until then until else ends[i]
  }

  /** The text from `i` on, every date replaced by blanks; `ends` tells where dates end. */
  function ScrubFrom(ends: seq<nat>, text: string, i: nat, until: nat): (scrubbed: string)
    requires i <= |text| == |ends|
    ensures |scrubbed| == |text| - i
    decreases |text| - i
  {
    if i == |text| then ""
    else [if i < Until(ends, i, until) then ' ' else text[i]] + ScrubFrom(ends, text, i + 1, Until(ends, i, until))
  }

  lemma DateEndsAreEnds(text: string)
    ensures AreEnds(DateEnds(text))
  {}

  function Scrub(text: string): (scrubbed: string)
    ensures |scrubbed| == |text|
  {
    ScrubFrom(DateEnds(text), text, 0, 0)
  }

  /** Too short a rest holds no date. */
  lemma {:induction false} ShortRest(ends: seq<nat>, text: string, i: nat, until: nat)
    requires until <= i <= |text| == |ends| && AreEnds(ends) && |text| < i + 8
    ensures ScrubFrom(ends, text, i, until) == text[i..]
    decreases |text| - i
  {
    if i < |text| { ShortRest(ends, text, i + 1, i); }
  }

  /** Inside a date only blanks are written; behind it reading starts afresh. */
  lemma {:induction false} InsideDate(ends: seq<nat>, text: string, i: nat, until: nat)
    requires i <= until <= |text| == |ends|
    ensures forall k :: 0 <= k < until - i ==> ScrubFrom(ends, text, i, until)[k] == ' '
    ensures ScrubFrom(ends, text, i, until)[until - i..] == ScrubFrom(ends, text, until, until)
    decreases until - i
  {
    if i < until {
      InsideDate(ends, text, i + 1, until);
      var here, rest := ScrubFrom(ends, text, i, until), ScrubFrom(ends, text, i + 1, until);
      assert here == [' '] + rest;
      assert here[until - i..] == rest[until - (i + 1)..];
    }
  }

  // ----- what is blanked

  /** Position `i` lies in a date. */
  ghost predicate InDate(ends: seq<nat>, i: nat) {
    exists s: nat :: s < |ends| && s <= i < ends[s]
  }

  lemma {:induction false} OnlyDatesFrom(ends: seq<nat>, text: string, i: nat, until: nat)
    requires i <= |text| == |ends|
    requires forall k :: i <= k < until ==> InDate(ends, k)
    ensures forall j :: 0 <= j < |text| - i ==> ScrubFrom(ends, text, i, until)[j] == text[i + j] || InDate(ends, i + j)
    decreases |text| - i
  {
    if i < |text| {
      var next := Until(ends, i, until);
      forall k | i <= k < next ensures InDate(ends, k) {
        if i >= until { assert i <= k < ends[i]; }
      }
      OnlyDatesFrom(ends, text, i + 1, next);
      var here, rest := ScrubFrom(ends, text, i, until), ScrubFrom(ends, text, i + 1, next);
      forall j | 0 <= j < |text| - i ensures here[j] == text[i + j] || InDate(ends, i + j) {
        if j > 0 { assert here[j] == rest[j - 1]; }
      }
    }
  }

  /** A date starts at `s`, and no earlier one reaches into it. */
  ghost predicate StartsDate(ends: seq<nat>, s: nat) {
    s < |ends| && s < ends[s] && forall r :: 0 <= r < s ==> ends[r] <= s
  }

  lemma {:induction false} DateFrom(ends: seq<nat>, text: string, i: nat, until: nat, s: nat)
    requires |text| == |ends| && AreEnds(ends) && StartsDate(ends, s) && i <= s && until <= s
    ensures forall j :: s - i <= j < ends[s] - i ==> ScrubFrom(ends, text, i, until)[j] == ' '
    decreases s - i
  {
    var here, rest := ScrubFrom(ends, text, i, until), ScrubFrom(ends, text, i + 1, Until(ends, i, until));
    if i < s {
      DateFrom(ends, text, i + 1, Until(ends, i, until), s);
    } else {
      InsideDate(ends, text, i + 1, ends[s]);
    }
    forall j | s - i <= j < ends[s] - i ensures here[j] == ' ' {
      if j > 0 { assert here[j] == rest[j - 1]; }
    }
  }

  /** Outside dates nothing is changed. */
  lemma OnlyDatesAreBlanked(text: string)
    ensures forall i :: 0 <= i < |text| ==> Scrub(text)[i] == text[i] || InDate(DateEnds(text), i)
  {
    OnlyDatesFrom(DateEnds(text), text, 0, 0);
  }

  /** A date that no earlier date reaches into is blanked. */
  lemma DateIsBlanked(text: string, s: nat)
    requires StartsDate(DateEnds(text), s) && DateEnd(text, s) <= |text|
    ensures forall k :: s <= k < DateEnd(text, s) ==> Scrub(text)[k] == ' '
  {
    var ends := DateEnds(text);
    DateEndsAreEnds(text);
    assert ends[s] == DateEnd(text, s);
    DateFrom(ends, text, 0, 0, s);
  }

  // ----- the scrubber

  /** The end of the date at `cursor`, or -1. */
  method FindDate(text: string, cursor: nat) returns (end: int)
    requires cursor + 7 < |text|
    ensures end == if DateEnd(text, cursor) > cursor then DateEnd(text, cursor) else -1
  {
    if !(IsDigit(text[cursor]) && IsDigit(text[cursor + 1]) && IsDigit(text[cursor + 2]) && IsDigit(text[cursor + 3])
         && IsDateSeparator(text[cursor + 4])) {
      return -1;
    }
    var monthEnd := AtMostTwoDigits(text, cursor + 5);
    if monthEnd == cursor + 5 || monthEnd >= |text| || !IsDateSeparator(text[monthEnd]) { return -1; }
    var dayEnd := AtMostTwoDigits(text, monthEnd + 1);
    if dayEnd == monthEnd + 1 { return -1; }
    return dayEnd;
  }

  method AtMostTwoDigits(text: string, start: nat) returns (end: nat)
    requires start <= |text|
    ensures end == TwoDigitEnd(text, start)
  {
    end := start;
    while end < |text| && end - start < 2 && IsDigit(text[end])
      invariant start <= end <= |text| && end - start <= 2
      invariant forall k :: start <= k < end ==> IsDigit(text[k])
    {
      end := end + 1;
    }
  }

  /** One step of the loop: what is written at the positions read, and where reading goes on. */
  lemma ScrubAdvances(ends: seq<nat>, text: string, goal: string, i: nat)
    requires i < |text| == |goal| == |ends| && AreEnds(ends) && goal[i..] == ScrubFrom(ends, text, i, i)
    ensures var next := if ends[i] > i then ends[i] else i + 1;
            && goal[next..] == ScrubFrom(ends, text, next, next)
            && forall k :: i <= k < next ==> goal[k] == if ends[i] > i then ' ' else text[k]
  {
    var next := if ends[i] > i then ends[i] else i + 1;
    var tail, here := goal[i..], ScrubFrom(ends, text, i + 1, ends[i]);
    assert tail == [if i < ends[i] then ' ' else text[i]] + here;
    Unused(ends, text, i + 1, i, i + 1);
    if ends[i] > i {
      InsideDate(ends, text, i + 1, next);
      assert tail[next - i..] == here[next - (i + 1)..];
    }
    assert goal[next..] == tail[next - i..];
    forall k | i <= k < next ensures goal[k] == if ends[i] > i then ' ' else text[k] {
      assert goal[k] == tail[k - i];
      if k > i { assert tail[k - i] == here[k - (i + 1)]; }
    }
  }

  /** A date that ended before `i` does not matter any more. */
  lemma Unused(ends: seq<nat>, text: string, i: nat, until: nat, other: nat)
    requires until <= i <= |text| == |ends| && other <= i
    ensures ScrubFrom(ends, text, i, until) == ScrubFrom(ends, text, i, other)
  {}

  lemma NothingBehind(text: string, goal: string, cursor: nat)
    requires IsAhead(goal, text, cursor) && |text| < cursor + 8
    ensures forall k :: cursor <= k < |text| ==> goal[k] == text[k]
  {
    DateEndsAreEnds(text);
    ShortRest(DateEnds(text), text, cursor, cursor);
    forall k | cursor <= k < |text| ensures goal[k] == text[k] { assert goal[k] == goal[cursor..][k - cursor]; }
  }

  /** One round of the loop, for the date or character at the cursor, and where it goes on. */
  lemma NextDate(text: string, goal: string, cursor: nat) returns (next: nat)
    requires cursor < |text| && IsAhead(goal, text, cursor)
    ensures next == if DateEnd(text, cursor) > cursor then DateEnd(text, cursor) else cursor + 1
    ensures IsAhead(goal, text, next)
    ensures forall k :: cursor <= k < next ==> goal[k] == if DateEnd(text, cursor) > cursor then ' ' else text[k]
  {
    DateEndsAreEnds(text);
    assert DateEnds(text)[cursor] == DateEnd(text, cursor);
    ScrubAdvances(DateEnds(text), text, goal, cursor);
    next := if DateEnd(text, cursor) > cursor then DateEnd(text, cursor) else cursor + 1;
  }

  /** Scrubbed before the cursor, untouched behind it. */
  predicate IsHalfway(output: string, goal: string, text: string, cursor: nat) {
    && |output| == |goal| == |text| && cursor <= |text|
    && (forall k :: 0 <= k < cursor ==> output[k] == goal[k])
    && (forall k :: cursor <= k < |text| ==> output[k] == text[k])
  }

  lemma HalfwayOn(output: string, goal: string, text: string, cursor: nat, next: nat, written: string)
    requires IsHalfway(output, goal, text, cursor) && cursor <= next <= |text| == |written|
    requires forall k :: cursor <= k < next ==> written[k] == goal[k]
    requires forall k :: 0 <= k < |text| && !(cursor <= k < next) ==> written[k] == output[k]
    ensures IsHalfway(written, goal, text, next)
  {
  }

  /** What is still to be written from the cursor on. */
  ghost predicate IsAhead(goal: string, text: string, cursor: nat) {
    |goal| == |text| && cursor <= |text| && goal[cursor..] == ScrubFrom(DateEnds(text), text, cursor, cursor)
  }

  /** One round of the loop. */
  method ScrubNext(text: string, output: array<char>, cursor: nat, ghost goal: string) returns (next: nat)
    requires output.Length == |text| && cursor + 7 < |text|
    requires IsAhead(goal, text, cursor) && IsHalfway(output[..], goal, text, cursor)
    modifies output
    ensures cursor < next && IsAhead(goal, text, next) && IsHalfway(output[..], goal, text, next)
  {
    ghost var before := output[..];
    ghost var after := NextDate(text, goal, cursor);
    var end := FindDate(text, cursor);
    if end < 0 {
      next := cursor + 1;
    } else {
      Blank(output, cursor, end);
      next := end;
    }
    HalfwayOn(before, goal, text, cursor, after, output[..]);
  }

  /** _scrub_answer_calendar_dates: dates are overwritten in a copy of the text. */
  method ScrubAnswerCalendarDates(text: string) returns (scrubbed: string)
    ensures scrubbed == Scrub(text)
  {
    var output := new char[|text|](i requires 0 <= i < |text| => text[i]);
    ghost var goal := Scrub(text);
    var cursor := 0;
    while cursor + 7 < |text|
      invariant IsAhead(goal, text, cursor) && IsHalfway(output[..], goal, text, cursor)
    {
      cursor := ScrubNext(text, output, cursor, goal);
    }
    NothingBehind(text, goal, cursor);
    HalfwayOn(output[..], goal, text, cursor, |text|, output[..]);
    return output[..];
  }

  /** `output[start:end] = [" "] * (end - start)` */
  method Blank(output: array<char>, start: nat, end: nat)
    requires start <= end <= output.Length
    modifies output
    ensures forall k :: start <= k < end ==> output[k] == ' '
    ensures forall k :: 0 <= k < output.Length && !(start <= k < end) ==> output[k] == old(output[k])
  {
    for i := start to end
      invariant forall k :: start <= k < i ==> output[k] == ' '
      invariant forall k :: 0 <= k < output.Length && !(start <= k < i) ==> output[k] == old(output[k])
    {
      output[i] := ' ';
    }
  }

  // ----- scrubbing does not cross a neutral character

  lemma YearShift(text: string, n: nat, back: string, i: nat)
    requires EndsWith(text, n, back) && i <= |back|
    ensures YearAt(text, n + i) <==> YearAt(back, i)
  {
    if i + 4 < |back| {
      assert text[n + i] == back[i] && text[n + (i + 1)] == back[i + 1] && text[n + (i + 2)] == back[i + 2];
      assert text[n + (i + 3)] == back[i + 3] && text[n + (i + 4)] == back[i + 4];
    }
  }

  lemma TwoDigitShift(text: string, n: nat, back: string, i: nat)
    requires EndsWith(text, n, back) && i <= |back|
    ensures TwoDigitEnd(text, n + i) == n + TwoDigitEnd(back, i)
  {
    if i < |back| { assert text[n + i] == back[i]; }
    if i + 1 < |back| { assert text[n + (i + 1)] == back[i + 1]; }
  }

  lemma DateEndShift(text: string, n: nat, back: string, i: nat)
    requires EndsWith(text, n, back) && i <= |back|
    ensures DateEnd(text, n + i) == n + DateEnd(back, i)
  {
    YearShift(text, n, back, i);
    if YearAt(back, i) {
      TwoDigitShift(text, n, back, i + 5);
      var month := TwoDigitEnd(back, i + 5);
      if month < |back| {
        assert text[n + month] == back[month];
        TwoDigitShift(text, n, back, month + 1);
      }
    }
  }

  /** `text` begins with `front`, and a character that no date contains follows. */
  predicate StopsAfter(text: string, front: string) {
    && |front| < |text|
    && !IsDigit(text[|front|]) && !IsDateSeparator(text[|front|])
    && forall k :: 0 <= k < |front| ==> text[k] == front[k]
  }

  lemma DateEndBefore(text: string, front: string, i: nat)
    requires StopsAfter(text, front) && i <= |front|
    ensures DateEnd(text, i) == DateEnd(front, i)
  {
    if i + 4 < |front| {
      assert text[i] == front[i] && text[i + 1] == front[i + 1] && text[i + 2] == front[i + 2];
      assert text[i + 3] == front[i + 3] && text[i + 4] == front[i + 4];
      assert YearAt(text, i) <==> YearAt(front, i);
      if YearAt(front, i) {
        TwoDigitBefore(text, front, i + 5);
        var month := TwoDigitEnd(front, i + 5);
        if month < |front| {
          assert text[month] == front[month];
          TwoDigitBefore(text, front, month + 1);
        }
      }
    } else {
      NoYearAtStop(text, front, i);
    }
  }

  lemma NoYearAtStop(text: string, front: string, i: nat)
    requires StopsAfter(text, front) && i <= |front| <= i + 4
    ensures !YearAt(text, i) && !YearAt(front, i)
  {
    var stop := |front| - i;
    assert text[i + stop] == text[|front|];
  }

  lemma TwoDigitBefore(text: string, front: string, i: nat)
    requires StopsAfter(text, front) && i <= |front|
    ensures TwoDigitEnd(text, i) == TwoDigitEnd(front, i)
  {
    if i < |front| { assert text[i] == front[i]; }
    if i + 1 < |front| { assert text[i + 1] == front[i + 1]; }
  }

  /** `back` behind `n` characters: its dates end `n` further on. */
  ghost predicate EndsShifted(ends: seq<nat>, n: nat, back: seq<nat>) {
    n + |back| == |ends| && forall k :: 0 <= k < |back| ==> ends[n + k] == n + back[k]
  }

  lemma {:induction false} ScrubShift(ends: seq<nat>, text: string, n: nat, back: seq<nat>, rest: string, i: nat, until: nat)
    requires |ends| == |text| && |back| == |rest|
    requires EndsWith(text, n, rest) && EndsShifted(ends, n, back) && i <= |rest|
    ensures ScrubFrom(ends, text, n + i, n + until) == ScrubFrom(back, rest, i, until)
    decreases |rest| - i
  {
    if i < |rest| {
      assert text[n + i] == rest[i] && ends[n + i] == n + back[i];
      ScrubShift(ends, text, n, back, rest, i + 1, Until(back, i, until));
    }
  }

  lemma {:induction false} ScrubBefore(ends: seq<nat>, text: string, front: seq<nat>, start: string, i: nat, until: nat)
    requires |ends| == |text| && |front| == |start| < |text| && AreEnds(front)
    requires forall k :: 0 <= k < |start| ==> text[k] == start[k]
    requires forall k :: 0 <= k < |front| ==> ends[k] == front[k]
    requires i <= |start| && until <= |start|
    ensures ScrubFrom(ends, text, i, until) == ScrubFrom(front, start, i, until) + ScrubFrom(ends, text, |start|, |start|)
    decreases |start| - i
  {
    if i < |start| {
      assert text[i] == start[i] && ends[i] == front[i];
      var u := Until(front, i, until);
      ScrubBefore(ends, text, front, start, i + 1, u);
      ConcatAssociates([if i < u then ' ' else text[i]], ScrubFrom(front, start, i + 1, u), ScrubFrom(ends, text, |start|, |start|));
    } else {
      Unused(ends, text, i, until, i);
    }
  }

  lemma DateEndsBefore(text: string, front: string)
    requires StopsAfter(text, front)
    ensures forall k :: 0 <= k < |front| ==> DateEnds(text)[k] == DateEnds(front)[k]
    ensures DateEnds(text)[|front|] == |front|
  {
    forall k | 0 <= k < |front| ensures DateEnds(text)[k] == DateEnds(front)[k] {
      DateEndBefore(text, front, k);
    }
    NoYearAtStop(text, front, |front|);
  }

  lemma DateEndsShift(text: string, n: nat, back: string)
    requires EndsWith(text, n, back)
    ensures EndsShifted(DateEnds(text), n, DateEnds(back))
  {
    forall k | 0 <= k < |back| ensures DateEnds(text)[n + k] == n + DateEnds(back)[k] {
      DateEndShift(text, n, back, k);
    }
  }

  lemma NeutralSplits(a: string, c: char, b: string)
    requires IsNeutral(c)
    ensures StopsAfter(a + [c] + b, a) && (a + [c] + b)[|a|] == c && EndsWith(a + [c] + b, |a| + 1, b)
  {}

  lemma ScrubFront(text: string, a: string)
    requires StopsAfter(text, a)
    ensures Scrub(text) == Scrub(a) + ScrubFrom(DateEnds(text), text, |a|, |a|)
  {
    DateEndsAreEnds(a);
    DateEndsBefore(text, a);
    ScrubBefore(DateEnds(text), text, DateEnds(a), a, 0, 0);
  }

  lemma ScrubBack(text: string, n: nat, b: string)
    requires n < |text| && DateEnds(text)[n] == n && EndsWith(text, n + 1, b)
    ensures ScrubFrom(DateEnds(text), text, n, n) == [text[n]] + Scrub(b)
  {
    var ends := DateEnds(text);
    DateEndsShift(text, n + 1, b);
    ScrubShift(ends, text, n + 1, DateEnds(b), b, 0, 0);
    Unused(ends, text, n + 1, n, n + 1);
  }

  /** No date reaches across a neutral separator: scrubbing distributes over it. */
  lemma ScrubDistributes(a: string, c: char, b: string)
    requires IsNeutral(c)
    ensures Scrub(a + [c] + b) == Scrub(a) + [c] + Scrub(b)
  {
    var text := a + [c] + b;
    NeutralSplits(a, c, b);
    DateEndsBefore(text, a);
    ScrubFront(text, a);
    ScrubBack(text, |a|, b);
    ConcatAssociates(Scrub(a), [c], Scrub(b));
  }

  // ----- the numbers of an answer

  /** The raw tokens of answer_numeric_token_pairs. */
  function AnswerTokens(text: string): seq<string> { Tokens(Scrub(text)) }

  /** Reading the numbers of an answer distributes over a neutral character: no date, sign, comma,
      point or percent reaches across it. */
  lemma AnswerTokensDistribute(a: string, c: char, b: string)
    requires IsNeutral(c)
    ensures AnswerTokens(a + [c] + b) == AnswerTokens(a) + AnswerTokens(b)
  {
    ScrubDistributes(a, c, b);
    TokensDistribute(Scrub(a), c, Scrub(b));
  }

  lemma {:induction false} NoDateFrom(ends: seq<nat>, text: string, i: nat, until: nat)
    requires until <= i <= |text| == |ends| && forall k :: 0 <= k < |ends| ==> ends[k] == k
    ensures ScrubFrom(ends, text, i, until) == text[i..]
    decreases |text| - i
  {
    if i < |text| { NoDateFrom(ends, text, i + 1, i); }
  }

  lemma NoDigitNoDate(text: string)
    requires forall k :: 0 <= k < |text| ==> !IsDigit(text[k])
    ensures Scrub(text) == text
  {
    DateEndsAreEnds(text);
    NoDateFrom(DateEnds(text), text, 0, 0);
  }

  lemma {:induction false} NoDigitNoNumber(text: string, i: nat)
    requires i <= |text| && forall k :: 0 <= k < |text| ==> !IsDigit(text[k])
    ensures TokensFrom(text, i) == []
    decreases |text| - i
  {
    if i < |text| { NoDigitNoNumber(text, i + 1); }
  }

  lemma NoDigitNoToken(text: string)
    requires forall k :: 0 <= k < |text| ==> !IsDigit(text[k])
    ensures AnswerTokens(text) == []
  {
    NoDigitNoDate(text);
    NoDigitNoNumber(text, 0);
  }

  lemma {:induction false} BlankInFront(blank: string, text: string)
    requires forall c :: c in blank ==> IsNeutral(c)
    ensures AnswerTokens(blank + text) == AnswerTokens(text)
  {
    if blank == "" {
      assert blank + text == text;
    } else {
      assert blank[0] in blank;
      BlankInFront(blank[1..], text);
      AnswerTokensDistribute("", blank[0], blank[1..] + text);
      assert "" + [blank[0]] + (blank[1..] + text) == blank + text;
      NoDigitNoToken("");
    }
  }

  lemma {:induction false} BlankBehind(text: string, blank: string)
    requires forall c :: c in blank ==> IsNeutral(c)
    ensures AnswerTokens(text + blank) == AnswerTokens(text)
    decreases |blank|
  {
    if blank == "" {
      assert text + blank == text;
    } else {
      assert blank[0] in blank;
      AnswerTokensDistribute(text, blank[0], blank[1..]);
      assert text + [blank[0]] + blank[1..] == text + blank;
      BlankBehind("", blank[1..]);
      assert "" + blank[1..] == blank[1..];
      NoDigitNoToken("");
    }
  }

  /** Stripping white space keeps the numbers. */
  lemma StripKeepsTokens(text: string)
    ensures AnswerTokens(Strip(text)) == AnswerTokens(text)
  {
    var left, right := StripParts(text);
    BlankInFront(left, Strip(text) + right);
    BlankBehind(Strip(text), right);
    assert left + (Strip(text) + right) == text;
  }
}
