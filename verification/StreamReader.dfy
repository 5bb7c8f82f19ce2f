/**
 The read, buffer, split, dispatch loop of `streamChatRun` in
 `frontend/src/api/client.js`, and the frames written by
 `AgentRunStreamService.stream` in `services/runs.py`.
 */
module StreamReader {
  import opened Basics
  import opened Text

  datatype Kind = Done | Error(message: string) | Other

  datatype Event = Event(kind: Kind, data: string)

  /** What the caller has observed: events handed to `onEvent`, the completion, the thrown error. */
  datatype Progress = Progress(delivered: seq<Event>, completed: Option<Event>, thrown: Option<string>)

  const START := Progress([], None, None)
  const DATA := "data:"

  /** What `String.prototype.trim` removes. */
  predicate IsJsSpace(c: char) {
    var n := c as int;
    || 0x09 <= n <= 0x0d || n == 0x20 || n == 0xa0 || n == 0x1680 || 0x2000 <= n <= 0x200a
    || n == 0x2028 || n == 0x2029 || n == 0x202f || n == 0x205f || n == 0x3000 || n == 0xfeff
  }

  /** The blank characters of `String.prototype.trim`. */
  lemma JsSpaceCharacters(c: char)
    ensures IsJsSpace(c) <==> c as int in {
              0x09, 0x0a, 0x0b, 0x0c, 0x0d, 0x20, 0xa0, 0x1680, 0x2000, 0x2001, 0x2002, 0x2003, 0x2004, 0x2005, 0x2006, 0x2007, 0x2008,
              0x2009, 0x200a, 0x2028, 0x2029, 0x202f, 0x205f, 0x3000, 0xfeff}
  {
  }

  function Trim(s: string): string { StripRight(IsJsSpace, StripLeft(IsJsSpace, s)) }

  const BLANK_LINE := "\n\n"

  /** The frames that a blank line has closed, and the text still open after them. */
  function ClosedFrames(text: string): seq<string> {
    var pieces := Split(text, BLANK_LINE);
    pieces[..|pieces| - 1]
  }

  function OpenText(text: string): string {
    var pieces := Split(text, BLANK_LINE);
    pieces[|pieces| - 1]
  }

  /** `lines.find(line => line.startsWith("data:"))` */
  function FirstDataLine(lines: seq<string>): (line: Option<string>)
    ensures line.Some? ==> DATA <= line.value
  {
    if lines == [] then None
    else if DATA <= lines[0] then Some(lines[0])
    else FirstDataLine(lines[1..])
  }

  /** One pass of the inner loop; `parse` is JSON.parse, None when it throws. */
  function Dispatch(parse: string -> Option<Event>, now: Progress, frame: string): Progress {
    if now.thrown.Some? then now
    else
      var line := FirstDataLine(Split(frame, "\n"));
      if line.None? then now else Deliver(parse, now, Trim(line.value[5..]))
  }

  function Deliver(parse: string -> Option<Event>, now: Progress, payload: string): Progress {
    if now.thrown.Some? then now
    else if parse(payload).None? then now.(thrown := Some("SyntaxError"))
    else
      var event := parse(payload).value;
      var next := now.(delivered := now.delivered + [event]);
      if event.kind.Done? then next.(completed := Some(event))
      else if event.kind.Error? then
        next.(thrown := Some(if event.kind.message == "" then "STREAM_FAILED" else event.kind.message))
      else next
  }

  function DispatchAll(parse: string -> Option<Event>, now: Progress, frames: seq<string>): Progress
    decreases |frames|
  {
    if frames == [] then now else DispatchAll(parse, Dispatch(parse, now, frames[0]), frames[1..])
  }

  /** Reading a whole text at once: split it on blank lines and dispatch every closed frame. */
  function ReadWhole(parse: string -> Option<Event>, text: string): Progress {
    DispatchAll(parse, START, ClosedFrames(text))
  }

  // ----- splitting

  lemma PrependKeepsRest(c: char, pieces: seq<string>, more: seq<string>)
    requires |pieces| > 1
    ensures Prepend(c, pieces[..|pieces| - 1] + more) == Prepend(c, pieces)[..|pieces| - 1] + more
    ensures Prepend(c, pieces)[|pieces| - 1] == pieces[|pieces| - 1]
  {}

  /** Splitting `a + b` keeps the closed pieces of `a` and goes on from its last one. */
  ghost predicate Continues(a: string, b: string, separator: string)
    requires separator != []
  {
    var first := Split(a, separator);
    Split(a + b, separator) == first[..|first| - 1] + Split(first[|first| - 1] + b, separator)
  }

  lemma ContinuesAfterSeparator(a: string, b: string, separator: string)
    requires separator != [] && |a| >= |separator| && separator <= a
    requires Continues(a[|separator|..], b, separator)
    ensures Continues(a, b, separator)
  {
    assert (a + b)[|separator|..] == a[|separator|..] + b;
    var tail := Split(a[|separator|..], separator);
    assert Split(a, separator) == [""] + tail;
    assert ([""] + tail)[..|tail|] == [""] + tail[..|tail| - 1];
  }

  lemma ContinuesAfterChar(a: string, b: string, separator: string)
    requires separator != [] && |a| >= |separator| && !(separator <= a)
    requires Continues(a[1..], b, separator)
    ensures Continues(a, b, separator)
  {
    var tail := Split(a[1..], separator);
    assert (a + b)[1..] == a[1..] + b;
    assert !(separator <= a + b) by { assert (a + b)[..|separator|] == a[..|separator|]; }
    if |tail| == 1 {
      SplitOnce(a[1..], separator);
      assert Split(a, separator) == [a] by { assert [a[0]] + a[1..] == a; }
    } else {
      PrependKeepsRest(a[0], tail, Split(tail[|tail| - 1] + b, separator));
    }
  }

  lemma {:induction false} SplitContinues(a: string, b: string, separator: string)
    requires separator != []
    ensures Continues(a, b, separator)
    decreases |a|
  {
    if |a| < |separator| {
      assert Split(a, separator) == [a];
    } else if separator <= a {
      SplitContinues(a[|separator|..], b, separator);
      ContinuesAfterSeparator(a, b, separator);
    } else {
      SplitContinues(a[1..], b, separator);
      ContinuesAfterChar(a, b, separator);
    }
  }

  /** The separator starts nowhere in `s`. */
  predicate Free(s: string, separator: string) {
    !(separator <= s) && (s != [] ==> Free(s[1..], separator))
  }

  lemma {:induction false} ShortIsFree(s: string, separator: string)
    requires |s| < |separator|
    ensures Free(s, separator)
  {
    if s != [] { ShortIsFree(s[1..], separator); }
  }

  lemma GrowFree(c: char, rest: string, whole: string, separator: string)
    requires Free(rest, separator)
    requires [c] + rest <= whole && !(separator <= whole)
    ensures Free([c] + rest, separator)
  {
    var head := [c] + rest;
    assert head[1..] == rest;
    assert head == whole[..|head|];
  }

  lemma {:induction false} PiecesAreFree(s: string, separator: string)
    requires separator != []
    ensures forall piece :: piece in Split(s, separator) ==> Free(piece, separator)
  {
    if |s| < |separator| {
      ShortIsFree(s, separator);
    } else if separator <= s {
      PiecesAreFree(s[|separator|..], separator);
    } else {
      PiecesAreFree(s[1..], separator);
      HeadPieceIsPrefix(s[1..], separator);
      assert s == [s[0]] + s[1..];
      GrowFree(s[0], Split(s[1..], separator)[0], s, separator);
    }
  }

  lemma {:induction false} HeadPieceIsPrefix(s: string, separator: string)
    requires separator != []
    ensures Split(s, separator)[0] <= s
  {
    if |s| >= |separator| && !(separator <= s) { HeadPieceIsPrefix(s[1..], separator); }
  }

  lemma {:induction false} DispatchConcat(parse: string -> Option<Event>, now: Progress, a: seq<string>, b: seq<string>)
    ensures DispatchAll(parse, now, a + b) == DispatchAll(parse, DispatchAll(parse, now, a), b)
    decreases |a|
  {
    if a == [] {
      assert a + b == b;
    } else {
      assert (a + b)[1..] == a[1..] + b;
      DispatchConcat(parse, Dispatch(parse, now, a[0]), a[1..], b);
    }
  }

  // ----- the reader

  function Concat(chunks: seq<string>): string {
    if chunks == [] then "" else Concat(chunks[..|chunks| - 1]) + chunks[|chunks| - 1]
  }

  /** Reading one more chunk: old closed frames stay, the open text grows. */
  lemma ReadChunk(text: string, chunk: string)
    ensures ClosedFrames(text + chunk) == ClosedFrames(text) + ClosedFrames(OpenText(text) + chunk)
    ensures OpenText(text + chunk) == OpenText(OpenText(text) + chunk)
  {
    SplitContinues(text, chunk, BLANK_LINE);
  }

  /** The inner loop: stops at the first frame that throws. */
  method DispatchFrames(parse: string -> Option<Event>, start: Progress, frames: seq<string>) returns (seen: Progress)
    requires start.thrown.None?
    ensures seen == DispatchAll(parse, start, frames)
  {
    seen := start;
    var i := 0;
    while i < |frames|
      invariant 0 <= i <= |frames|
      invariant seen.thrown.None?
      invariant DispatchAll(parse, start, frames) == DispatchAll(parse, seen, frames[i..])
    {
      assert frames[i..][1..] == frames[i + 1..];
      seen := Dispatch(parse, seen, frames[i]);
      i := i + 1;
      if seen.thrown.Some? {
        ThrownStops(parse, seen, frames[i..]);
        return;
      }
    }
  }

  /** However the network cuts the text, the caller observes what one whole read gives.
      `chunks` are the decoder's outputs, the flush at the end of the stream last. */
  method StreamChatRun(parse: string -> Option<Event>, chunks: seq<string>) returns (seen: Progress)
    ensures seen == ReadWhole(parse, Concat(chunks))
  {
    var buffer := "";
    seen := START;
    var next := 0;
    while next < |chunks|
      invariant 0 <= next <= |chunks|
      invariant seen.thrown.None?
      invariant seen == ReadWhole(parse, Concat(chunks[..next]))
      invariant buffer == OpenText(Concat(chunks[..next]))
    {
      ghost var before := Concat(chunks[..next]);
      assert chunks[..next + 1][..next] == chunks[..next];
      assert Concat(chunks[..next + 1]) == before + chunks[next];
      ReadChunk(before, chunks[next]);
      ghost var open := buffer + chunks[next];
      buffer := buffer + chunks[next];
      var frames := Split(buffer, BLANK_LINE);
      buffer := frames[|frames| - 1];
      frames := frames[..|frames| - 1];
      assert frames == ClosedFrames(open);
      DispatchConcat(parse, START, ClosedFrames(before), frames);
      seen := DispatchFrames(parse, seen, frames);
      if seen.thrown.Some? {
        RestAfterThrow(parse, chunks, next + 1, seen);
        return;
      }
      next := next + 1;
    }
    assert chunks[..|chunks|] == chunks;
  }

  lemma {:induction false} ThrownStops(parse: string -> Option<Event>, now: Progress, frames: seq<string>)
    requires now.thrown.Some?
    ensures DispatchAll(parse, now, frames) == now
  {
    if frames != [] { ThrownStops(parse, now, frames[1..]); }
  }

  /** Nothing that arrives after an error changes what was observed. */
  lemma {:induction false} RestAfterThrow(parse: string -> Option<Event>, chunks: seq<string>, k: nat, seen: Progress)
    requires k <= |chunks| && seen.thrown.Some?
    requires seen == ReadWhole(parse, Concat(chunks[..k]))
    ensures seen == ReadWhole(parse, Concat(chunks))
    decreases |chunks| - k
  {
    if k == |chunks| {
      assert chunks[..k] == chunks;
    } else {
      var before := Concat(chunks[..k]);
      assert chunks[..k + 1][..k] == chunks[..k];
      ReadChunk(before, chunks[k]);
      var more := ClosedFrames(OpenText(before) + chunks[k]);
      DispatchConcat(parse, START, ClosedFrames(before), more);
      ThrownStops(parse, seen, more);
      RestAfterThrow(parse, chunks, k + 1, seen);
    }
  }

  /** After any prefix of the stream the buffer holds no blank line, and the dispatched frames
      joined with the buffer are the text read so far. */
  lemma BufferIsTheOpenText(text: string)
    ensures Join(ClosedFrames(text) + [OpenText(text)], BLANK_LINE) == text
    ensures Free(OpenText(text), BLANK_LINE)
  {
    var pieces := Split(text, BLANK_LINE);
    assert pieces == ClosedFrames(text) + [OpenText(text)];
    SplitIsExact(text, BLANK_LINE);
    PiecesAreFree(text, BLANK_LINE);
  }

  // ----- the server's side

  /** One frame as the server writes it. */
  function WriteFrame(payload: string): string { "data: " + payload + BLANK_LINE }

  function WriteAll(payloads: seq<string>): string {
    if payloads == [] then "" else WriteFrame(payloads[0]) + WriteAll(payloads[1..])
  }

  function DeliverAll(parse: string -> Option<Event>, now: Progress, payloads: seq<string>): Progress
    decreases |payloads|
  {
    if payloads == [] then now else DeliverAll(parse, Deliver(parse, now, payloads[0]), payloads[1..])
  }

  /** An encoded JSON value: its control characters are escaped, and it has no blank at either end. */
  predicate IsPayload(p: string) {
    && p != [] && !IsJsSpace(p[0]) && !IsJsSpace(p[|p| - 1])
    && forall i :: 0 <= i < |p| ==> p[i] != '\n'
  }

  lemma {:induction false} SplitAfterLine(line: string, rest: string)
    requires forall i :: 0 <= i < |line| ==> line[i] != '\n'
    ensures Split(line + BLANK_LINE + rest, BLANK_LINE) == [line] + Split(rest, BLANK_LINE)
  {
    var s := line + BLANK_LINE + rest;
    if line == [] {
      assert s == BLANK_LINE + rest && s[2..] == rest;
    } else {
      assert s[0] == line[0] && s[1..] == line[1..] + BLANK_LINE + rest;
      SplitAfterLine(line[1..], rest);
      assert line == [line[0]] + line[1..];
      assert !(BLANK_LINE <= s) by { assert s[0] != '\n'; }
    }
  }

  lemma DispatchFrame(parse: string -> Option<Event>, now: Progress, payload: string)
    requires IsPayload(payload)
    ensures Dispatch(parse, now, "data: " + payload) == Deliver(parse, now, payload)
  {
    var line := "data: " + payload;
    forall i | 0 <= i < |line| ensures line[i] != '\n' {
      if i >= 6 { assert line[i] == payload[i - 6]; }
    }
    SplitLine(line, "\n");
    assert line[..5] == DATA;
    var body := line[5..];
    assert body == " " + payload;
    assert body[1..] == payload;
    assert StripLeft(IsJsSpace, body) == StripLeft(IsJsSpace, payload) == payload;
    assert Trim(body) == payload;
  }

  lemma {:induction false} DispatchWritten(parse: string -> Option<Event>, now: Progress, payloads: seq<string>)
    requires forall p :: p in payloads ==> IsPayload(p)
    ensures DispatchAll(parse, now, ClosedFrames(WriteAll(payloads))) == DeliverAll(parse, now, payloads)
    decreases |payloads|
  {
    if payloads != [] {
      var first, rest := payloads[0], WriteAll(payloads[1..]);
      var line := "data: " + first;
      assert first in payloads;
      forall i | 0 <= i < |line| ensures line[i] != '\n' {
        if i >= 6 { assert line[i] == first[i - 6]; }
      }
      SplitAfterLine(line, rest);
      assert WriteAll(payloads) == line + BLANK_LINE + rest;
      assert ClosedFrames(WriteAll(payloads)) == [line] + ClosedFrames(rest);
      assert ([line] + ClosedFrames(rest))[1..] == ClosedFrames(rest);
      DispatchFrame(parse, now, first);
      DispatchWritten(parse, Deliver(parse, now, first), payloads[1..]);
    }
  }

  /** Whatever the server writes, and however it is cut, the caller receives exactly the events
      written, in order, up to and including the first error. */
  lemma EventsArriveIntact(parse: string -> Option<Event>, payloads: seq<string>, chunks: seq<string>)
    requires forall p :: p in payloads ==> IsPayload(p)
    requires Concat(chunks) == WriteAll(payloads)
    ensures ReadWhole(parse, Concat(chunks)) == DeliverAll(parse, START, payloads)
  {
    DispatchWritten(parse, START, payloads);
  }

  // ----- what the caller sees

  /** The payload is an event that lets reading go on. */
  predicate Goes(parse: string -> Option<Event>, payload: string) {
    parse(payload).Some? && !parse(payload).value.kind.Error?
  }

  function EventsOf(parse: string -> Option<Event>, payloads: seq<string>): seq<Event>
    requires forall p :: p in payloads ==> Goes(parse, p)
  {
    seq(|payloads|, i requires 0 <= i < |payloads| => assert Goes(parse, payloads[i]) by { assert payloads[i] in payloads; } parse(payloads[i]).value)
  }

  /** `c` is the last event that says done, or what was completed before when none does. */
  ghost predicate IsLastDone(es: seq<Event>, before: Option<Event>, c: Option<Event>) {
    || (exists i :: 0 <= i < |es| && es[i].kind.Done? && c == Some(es[i]) && forall j :: i < j < |es| ==> !es[j].kind.Done?)
    || ((forall i :: 0 <= i < |es| ==> !es[i].kind.Done?) && c == before)
  }

  /** Events without an error arrive one by one and in order, and the last one that says done is the completion. */
  lemma {:induction false} EventsGoThrough(parse: string -> Option<Event>, now: Progress, payloads: seq<string>)
    requires now.thrown.None? && forall p :: p in payloads ==> Goes(parse, p)
    ensures var seen, es := DeliverAll(parse, now, payloads), EventsOf(parse, payloads);
            seen.thrown == None && seen.delivered == now.delivered + es && IsLastDone(es, now.completed, seen.completed)
    decreases |payloads|
  {
    if payloads != [] {
      assert payloads[0] in payloads;
      var next := Deliver(parse, now, payloads[0]);
      EventsGoThrough(parse, next, payloads[1..]);
      var first, es := parse(payloads[0]).value, EventsOf(parse, payloads[1..]);
      assert EventsOf(parse, payloads) == [first] + es;
      DoneInFront(first, es, now.completed, DeliverAll(parse, next, payloads[1..]).completed);
      ConcatAssociates(now.delivered, [first], es);
    }
  }

  lemma DoneInFront(first: Event, es: seq<Event>, before: Option<Event>, c: Option<Event>)
    requires IsLastDone(es, if first.kind.Done? then Some(first) else before, c)
    ensures IsLastDone([first] + es, before, c)
  {
    var all := [first] + es;
    if i :| 0 <= i < |es| && es[i].kind.Done? && c == Some(es[i]) && forall j :: i < j < |es| ==> !es[j].kind.Done? {
      assert all[i + 1] == es[i];
      forall j | i + 1 < j < |all| ensures !all[j].kind.Done? { assert all[j] == es[j - 1]; }
    } else {
      forall j | 0 < j < |all| ensures !all[j].kind.Done? { assert all[j] == es[j - 1]; }
      assert all[0] == first;
    }
  }

  /** The first payload that does not go ends it: an error is delivered and thrown with its message, a text that does
      not parse is thrown and not delivered, and nothing behind it is seen. */
  lemma {:induction false} FirstStopEnds(parse: string -> Option<Event>, now: Progress, payloads: seq<string>, k: nat)
    requires now.thrown.None? && k < |payloads| && !Goes(parse, payloads[k])
    requires forall p :: p in payloads[..k] ==> Goes(parse, p)
    ensures var before, seen := DeliverAll(parse, now, payloads[..k]), DeliverAll(parse, now, payloads);
            && (parse(payloads[k]).None? ==> seen == before.(thrown := Some("SyntaxError")))
            && (parse(payloads[k]).Some? ==>
                  var event := parse(payloads[k]).value;
                  seen == before.(delivered := before.delivered + [event],
                                  thrown := Some(if event.kind.message == "" then "STREAM_FAILED" else event.kind.message)))
    decreases k
  {
    if k == 0 {
      NothingAfterThrow(parse, Deliver(parse, now, payloads[0]), payloads[1..]);
    } else {
      assert payloads[..k][0] == payloads[0] && payloads[..k][1..] == payloads[1..][..k - 1];
      assert payloads[0] in payloads[..k];
      FirstStopEnds(parse, Deliver(parse, now, payloads[0]), payloads[1..], k - 1);
    }
  }

  lemma {:induction false} NothingAfterThrow(parse: string -> Option<Event>, now: Progress, payloads: seq<string>)
    requires now.thrown.Some?
    ensures DeliverAll(parse, now, payloads) == now
    decreases |payloads|
  {
    if payloads != [] { NothingAfterThrow(parse, now, payloads[1..]); }
  }

  /** When no frame is an error, the caller receives exactly the events written, and the last one that says done. */
  lemma CallerSeesAll(parse: string -> Option<Event>, payloads: seq<string>, chunks: seq<string>)
    requires forall p :: p in payloads ==> IsPayload(p) && Goes(parse, p)
    requires Concat(chunks) == WriteAll(payloads)
    ensures var seen, es := ReadWhole(parse, Concat(chunks)), EventsOf(parse, payloads);
            seen.thrown == None && seen.delivered == es && IsLastDone(es, None, seen.completed)
  {
    EventsArriveIntact(parse, payloads, chunks);
    EventsGoThrough(parse, START, payloads);
  }

  lemma FrontIsSeen(parse: string -> Option<Event>, front: seq<string>)
    requires forall p :: p in front ==> Goes(parse, p)
    ensures DeliverAll(parse, START, front).delivered == EventsOf(parse, front)
  {
    EventsGoThrough(parse, START, front);
    assert [] + EventsOf(parse, front) == EventsOf(parse, front);
  }

  lemma ErrorDoesNotGo(parse: string -> Option<Event>, payload: string)
    requires parse(payload).Some? && parse(payload).value.kind.Error?
    ensures !Goes(parse, payload)
  {
  }

  lemma FirstErrorIsSeen(parse: string -> Option<Event>, payloads: seq<string>, k: nat)
    requires k < |payloads| && parse(payloads[k]).Some? && parse(payloads[k]).value.kind.Error?
    requires forall p :: p in payloads[..k] ==> Goes(parse, p)
    ensures var seen, error := DeliverAll(parse, START, payloads), parse(payloads[k]).value;
            && seen.delivered == EventsOf(parse, payloads[..k]) + [error]
            && seen.thrown == Some(if error.kind.message == "" then "STREAM_FAILED" else error.kind.message)
  {
    FrontIsSeen(parse, payloads[..k]);
    ErrorDoesNotGo(parse, payloads[k]);
    FirstStopEnds(parse, START, payloads, k);
  }

  /** When frame `k` is the first error, the caller receives the events up to and including it, and its message. */
  lemma CallerSeesFirstError(parse: string -> Option<Event>, payloads: seq<string>, chunks: seq<string>, k: nat)
    requires (forall p :: p in payloads ==> IsPayload(p)) && Concat(chunks) == WriteAll(payloads)
    requires k < |payloads| && parse(payloads[k]).Some? && parse(payloads[k]).value.kind.Error?
    requires forall p :: p in payloads[..k] ==> Goes(parse, p)
    ensures var seen, error := ReadWhole(parse, Concat(chunks)), parse(payloads[k]).value;
            && seen.delivered == EventsOf(parse, payloads[..k]) + [error]
            && seen.thrown == Some(if error.kind.message == "" then "STREAM_FAILED" else error.kind.message)
  {
    EventsArriveIntact(parse, payloads, chunks);
    FirstErrorIsSeen(parse, payloads, k);
  }
}
