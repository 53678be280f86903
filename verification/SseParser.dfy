/**
 The incremental parser of server-sent events (sections 9.2.5 and 9.2.6 of the WHATWG HTML Standard): a buffer that
 is appended to and cut at blank lines, whatever way the network chops the stream.

 `JSON.parse` is the parameter `parse`: it returns the strings of the payload's `changed` array, or `None` where the
 source throws or finds no array. Array members that are not strings are never resource keys and are left out.
 */
module SseParser {
  import opened Prelude

  // -------------------------------------------------------------------- framing

  /** The length of a line end at a position; 0 if there is none. */
  function LineEnd(s: string, i: nat): (n: nat)
    ensures n <= 2 && (n > 0 ==> i + n <= |s|)
  {
    if i < |s| && s[i] == '\n' then 1
    else if i + 1 < |s| && s[i] == '\r' && s[i+1] == '\n' then 2
    else 0
  }

  /** The length of a frame delimiter, two line ends, at a position; 0 if there is none. */
  function Delimiter(s: string, i: nat): (n: nat)
    ensures n <= 4 && (n > 0 ==> n >= 2 && i + n <= |s|)
  {
    var a := LineEnd(s, i);
    if a == 0 then 0
    else
      var b := LineEnd(s, i + a);
      if b == 0 then 0 else a + b
  }

  /** The leftmost delimiter at or after a position; the length of `s` if there is none. */
  function Leftmost(s: string, from: nat): (i: nat)
    requires from <= |s|
    ensures from <= i <= |s| && (i < |s| ==> Delimiter(s, i) > 0)
    decreases |s| - from
  {
    if from == |s| || Delimiter(s, from) > 0 then from else Leftmost(s, from + 1)
  }

  /** The first complete frame and the text after its delimiter. */
  function Cut(s: string): (r: Option<(string, string)>)
    ensures r.Some? ==> |r.value.1| < |s|
  {
    var i := Leftmost(s, 0);
    if i == |s| then None else Some((s[..i], s[i + Delimiter(s, i)..]))
  }

  /** All complete frames of a buffer, and what is left. */
  function Drain(s: string): (seq<string>, string)
    decreases |s|
  {
    match Cut(s)
    case None => ([], s)
    case Some((frame, rest)) => ([frame] + Drain(rest).0, Drain(rest).1)
  }

  /** A delimiter keeps its length when more text arrives. */
  lemma DelimiterStable(s: string, t: string, i: nat)
    requires Delimiter(s, i) > 0
    ensures Delimiter(s + t, i) == Delimiter(s, i)
  {
  }

  /** No delimiter that more text completes starts before one that is already complete. */
  lemma NoEarlierDelimiter(s: string, t: string, i: nat, j: nat)
    requires j < i && Delimiter(s, i) > 0 && Delimiter(s, j) == 0
    ensures Delimiter(s + t, j) == 0
  {
    var u := s + t;
    assert forall k | 0 <= k < |s| :: u[k] == s[k];
  }

  lemma {:induction false} NoneBefore(s: string, from: nat, j: nat)
    requires from <= j < |s| && j < Leftmost(s, from)
    ensures Delimiter(s, j) == 0
    decreases |s| - from
  {
    if from < j { NoneBefore(s, from + 1, j); }
  }

  lemma {:induction false} LeftmostIs(s: string, from: nat, i: nat)
    requires from <= i <= |s| && (i < |s| ==> Delimiter(s, i) > 0)
    requires forall j | from <= j < i :: Delimiter(s, j) == 0
    ensures Leftmost(s, from) == i
    decreases |s| - from
  {
    if from < i {
      assert Delimiter(s, from) == 0;
      LeftmostIs(s, from + 1, i);
    }
  }

  lemma LeftmostStable(s: string, t: string)
    requires Leftmost(s, 0) < |s|
    ensures Leftmost(s + t, 0) == Leftmost(s, 0)
  {
    var i := Leftmost(s, 0);
    DelimiterStable(s, t, i);
    forall j | 0 <= j < i ensures Delimiter(s + t, j) == 0 {
      NoneBefore(s, 0, j);
      NoEarlierDelimiter(s, t, i, j);
    }
    LeftmostIs(s + t, 0, i);
  }

  /** A frame that is complete stays the first frame when more text arrives. */
  lemma CutStable(s: string, t: string)
    requires Cut(s).Some?
    ensures Cut(s + t) == Some((Cut(s).value.0, Cut(s).value.1 + t))
  {
    LeftmostStable(s, t);
    var i := Leftmost(s, 0);
    DelimiterStable(s, t, i);
    var n := i + Delimiter(s, i);
    assert (s + t)[..i] == s[..i];
    assert (s + t)[n..] == s[n..] + t;
  }

  /** Draining early loses nothing: the frames of the whole are those of the first part, then those of what was left
      of it with the second part appended. */
  lemma {:induction false} DrainAppend(s: string, t: string)
    ensures Drain(s + t) == (Drain(s).0 + Drain(Drain(s).1 + t).0, Drain(Drain(s).1 + t).1)
    decreases |s|
  {
    match Cut(s)
    case None => assert [] + Drain(s + t).0 == Drain(s + t).0;
    case Some((frame, rest)) =>
      CutStable(s, t);
      DrainAppend(rest, t);
      Cons(frame, Drain(rest).0, Drain(Drain(rest).1 + t).0);
  }

  lemma Cons(x: string, a: seq<string>, b: seq<string>)
    ensures [x] + (a + b) == ([x] + a) + b
  {
  }

  // --------------------------------------------------------------------- a frame

  /** `split(/\r?\n/)`. */
  function Lines(s: string, from: nat, at: nat): seq<string>
    requires from <= at <= |s|
    decreases |s| - at
  {
    if at == |s| then [s[from..]]
    else
      var n := LineEnd(s, at);
      if n == 0 then Lines(s, from, at + 1) else [s[from..at]] + Lines(s, at + n, at + n)
  }

  function IndexOf(s: string, c: char, from: nat): (i: nat)
    requires from <= |s|
    ensures from <= i <= |s| && (i < |s| ==> s[i] == c) && forall j | from <= j < i :: s[j] != c
    decreases |s| - from
  {
    if from == |s| || s[from] == c then from else IndexOf(s, c, from + 1)
  }

  datatype Field = Field(name: string, value: string)

  function FieldOf(line: string): Field {
    var colon := IndexOf(line, ':', 0);
    if colon == |line| then Field(line, "")
    else
      var value := line[colon + 1..];
      Field(line[..colon], if value != "" && value[0] == ' ' then value[1..] else value)
  }

  predicate Ignored(line: string) {
    line == "" || line[0] == ':'
  }

  datatype Event = Event(name: string, data: seq<string>)

  function Read(e: Event, line: string): Event {
    if Ignored(line) then e
    else
      var f := FieldOf(line);
      if f.name == "event" then e.(name := f.value)
      else if f.name == "data" then e.(data := e.data + [f.value])
      else e
  }

  function ReadAll(e: Event, lines: seq<string>): Event {
    if lines == [] then e else Read(ReadAll(e, lines[..|lines|-1]), lines[|lines|-1])
  }

  function Join(parts: seq<string>): string {
    if parts == [] then ""
    else if |parts| == 1 then parts[0]
    else Join(parts[..|parts|-1]) + "\n" + parts[|parts|-1]
  }

  const RESOURCE_KEYS: seq<string> :=
    ["auctions", "banking", "bidders", "bonds", "central-bank", "operations", "registry"]

  /** The known keys, each at its first occurrence. */
  function KnownOnce(keys: seq<string>): seq<string> {
    if keys == [] then []
    else
      var init, last := KnownOnce(keys[..|keys|-1]), keys[|keys|-1];
      if last in RESOURCE_KEYS && last !in init then init + [last] else init
  }

  type JsonParse = string -> Option<seq<string>>

  /** The call that a frame leads to, if any. */
  function Notice(frame: string, parse: JsonParse): seq<seq<string>> {
    var e := ReadAll(Event("message", []), Lines(frame, 0, 0));
    if e.name != "changed" || e.data == [] then []
    else
      match parse(Join(e.data))
      case None => []
      case Some(keys) => if KnownOnce(keys) == [] then [] else [KnownOnce(keys)]
  }

  /** What a frame leads to, as a function of the frame alone. */
  type Reader = string -> seq<seq<string>>

  function Reading(parse: JsonParse): Reader {
    (frame: string) => Notice(frame, parse)
  }

  function Notices(frames: seq<string>, read: Reader): seq<seq<string>> {
    if frames == [] then [] else Notices(frames[..|frames|-1], read) + read(frames[|frames|-1])
  }

  lemma {:induction false} NoticesAppend(a: seq<string>, b: seq<string>, read: Reader)
    ensures Notices(a + b, read) == Notices(a, read) + Notices(b, read)
  {
    if b == [] {
      assert a + b == a;
    } else {
      assert (a + b)[..|a + b|-1] == a + b[..|b|-1];
      NoticesAppend(a, b[..|b|-1], read);
    }
  }

  // ------------------------------------------------------------------- the parser

  /** The closure that `createSseParser` returns; `calls` records the calls of `onChanged`. */
  class Parser {
    const parse: JsonParse
    var buffer: string
    var calls: seq<seq<string>>

    constructor (parse: JsonParse)
      ensures buffer == "" && calls == [] && this.parse == parse
    {
      this.parse := parse;
      buffer, calls := "", [];
    }

    method ParseFrame(frame: string)
      modifies this`calls
      ensures calls == old(calls) + Reading(parse)(frame)
    {
      var eventName, dataLines := "message", [];
      var lines := Lines(frame, 0, 0);
      for i := 0 to |lines|
        invariant Event(eventName, dataLines) == ReadAll(Event("message", []), lines[..i])
        invariant calls == old(calls)
      {
        assert lines[..i+1][..i] == lines[..i];
        var line := lines[i];
        if Ignored(line) { continue; }
        var f := FieldOf(line);
        if f.name == "event" { eventName := f.value; }
        if f.name == "data" { dataLines := dataLines + [f.value]; }
      }
      assert lines[..|lines|] == lines;
      if eventName != "changed" || |dataLines| == 0 { return; }
      var payload := parse(Join(dataLines));
      if payload == None { return; }
      var changed := KnownOnce(payload.value);
      if |changed| > 0 { calls := calls + [changed]; }
    }

    method Push(chunk: string)
      modifies this
      ensures buffer == Drain(old(buffer) + chunk).1
      ensures calls == old(calls) + Notices(Drain(old(buffer) + chunk).0, Reading(parse))
    {
      buffer := buffer + chunk;
      ghost var text := buffer;
      while true
        invariant Owed(text, old(calls), buffer, calls, Reading(parse))
        decreases |buffer|
      {
        var next := Cut(buffer);
        if next == None { break; }
        OwedStep(text, old(calls), buffer, calls, Reading(parse));
        buffer := next.value.1;
        ParseFrame(next.value.0);
      }
      OwedEnds(text, old(calls), buffer, calls, Reading(parse));
    }
  }

  /** The calls made so far and those the buffer still holds are the calls before and those that `text` holds. */
  ghost predicate Owed(text: string, before: seq<seq<string>>, buffer: string, calls: seq<seq<string>>,
                       read: Reader)
  {
    && before + Notices(Drain(text).0, read) == calls + Notices(Drain(buffer).0, read)
    && Drain(text).1 == Drain(buffer).1
  }

  lemma OwedStep(text: string, before: seq<seq<string>>, buffer: string, calls: seq<seq<string>>, read: Reader)
    requires Owed(text, before, buffer, calls, read) && Cut(buffer).Some?
    ensures Owed(text, before, Cut(buffer).value.1, calls + read(Cut(buffer).value.0), read)
  {
    FirstNotice(Cut(buffer).value.0, Drain(Cut(buffer).value.1).0, calls, read);
  }

  lemma FirstNotice(frame: string, later: seq<string>, calls: seq<seq<string>>, read: Reader)
    ensures calls + Notices([frame] + later, read) == (calls + read(frame)) + Notices(later, read)
  {
    NoticesAppend([frame], later, read);
    OneNotice(frame, read);
  }

  lemma OneNotice(frame: string, read: Reader)
    ensures Notices([frame], read) == read(frame)
  {
    assert [frame][..0] == [];
    assert Notices([], read) == [];
  }

  lemma OwedEnds(text: string, before: seq<seq<string>>, buffer: string, calls: seq<seq<string>>, read: Reader)
    requires Owed(text, before, buffer, calls, read) && Cut(buffer) == None
    ensures calls == before + Notices(Drain(text).0, read) && buffer == Drain(text).1
  {
    assert Drain(buffer) == ([], buffer);
    assert calls + Notices([], read) == calls;
  }

  // ------------------------------------------------------------ chunk independence

  function Concat(chunks: seq<string>): string {
    if chunks == [] then "" else Concat(chunks[..|chunks|-1]) + chunks[|chunks|-1]
  }

  datatype State = State(buffer: string, calls: seq<seq<string>>)

  /** The effect of one push, as `Parser.Push` states it. */
  function Pushed(s: State, chunk: string, read: Reader): State {
    var d := Drain(s.buffer + chunk);
    State(d.1, s.calls + Notices(d.0, read))
  }

  function PushAll(s: State, chunks: seq<string>, read: Reader): State {
    if chunks == [] then s else Pushed(PushAll(s, chunks[..|chunks|-1], read), chunks[|chunks|-1], read)
  }

  /** However a stream is cut into chunks, the calls and the leftover buffer are those of one push of the whole. */
  lemma {:induction false} ChunkIndependence(chunks: seq<string>, read: Reader)
    ensures PushAll(State("", []), chunks, read) ==
            State(Drain(Concat(chunks)).1, Notices(Drain(Concat(chunks)).0, read))
  {
    if chunks == [] {
      assert Drain("") == ([], "");
    } else {
      var init, last := chunks[..|chunks|-1], chunks[|chunks|-1];
      ChunkIndependence(init, read);
      DrainAppend(Concat(init), last);
      NoticesAppend(Drain(Concat(init)).0, Drain(Drain(Concat(init)).1 + last).0, read);
    }
  }

  lemma SameStreamSameCalls(a: seq<string>, b: seq<string>, read: Reader)
    requires Concat(a) == Concat(b)
    ensures PushAll(State("", []), a, read) == PushAll(State("", []), b, read)
  {
    ChunkIndependence(a, read);
    ChunkIndependence(b, read);
  }

  /** Pushing chunk after chunk into a fresh parser. */
  method Feed(chunks: seq<string>, parse: JsonParse) returns (p: Parser)
    ensures fresh(p) && p.parse == parse
    ensures p.calls == Notices(Drain(Concat(chunks)).0, Reading(parse)) && p.buffer == Drain(Concat(chunks)).1
  {
    p := new Parser(parse);
    for i := 0 to |chunks|
      invariant fresh(p) && p.parse == parse
      invariant State(p.buffer, p.calls) == PushAll(State("", []), chunks[..i], Reading(parse))
    {
      assert chunks[..i+1][..i] == chunks[..i];
      p.Push(chunks[i]);
    }
    assert chunks[..|chunks|] == chunks;
    ChunkIndependence(chunks, Reading(parse));
  }
}
