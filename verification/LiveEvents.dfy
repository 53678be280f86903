/**
 The server side of the live events: resource keys are published as frames to every subscriber, a heartbeat runs
 exactly while there are subscribers, and a subscriber that throws is dropped.
 */
module LiveEvents {
  import opened LivePayload
  import opened SseParser

  // --------------------------------------------------------------------- frames

  const BLANK := "\n\n"
  const CONNECTED := ": connected"
  const HEARTBEAT := ": heartbeat"

  function ChangedBody(keys: seq<string>): string {
    "event: changed\ndata: " + Stringify(keys)
  }

  /** What the server may send to a connected client. */
  datatype Message = Changed(requested: set<string>) | Beat

  /** The frame for a message, without its blank line; publishing nothing known sends nothing. */
  function Bodies(m: Message): seq<string> {
    match m
    case Beat => [HEARTBEAT]
    case Changed(requested) => if Canonical(requested) == [] then [] else [ChangedBody(Canonical(requested))]
  }

  function Wire(bodies: seq<string>): string {
    if bodies == [] then "" else Wire(bodies[..|bodies|-1]) + (bodies[|bodies|-1] + BLANK)
  }

  function AllBodies(ms: seq<Message>): seq<string> {
    if ms == [] then [] else AllBodies(ms[..|ms|-1]) + Bodies(ms[|ms|-1])
  }

  // ---------------------------------------------------------------- broadcaster

  /** The broadcaster and what it has written to each connection. */
  datatype Hub = Hub(subscribers: set<nat>, running: bool, written: map<nat, string>) {
    /** The heartbeat runs exactly while somebody listens. */
    ghost predicate Valid() {
      (running <==> subscribers != {}) && subscribers <= written.Keys
    }
  }

  function Appended(written: map<nat, string>, ids: set<nat>, text: string): map<nat, string> {
    map id | id in written :: if id in ids then written[id] + text else written[id]
  }

  /** The loop of a broadcast has dealt with all but the pending subscribers. */
  ghost predicate Swept(h: Hub, text: string, throwing: set<nat>, pending: set<nat>, subscribers: set<nat>,
                        written: map<nat, string>)
  {
    && pending <= h.subscribers && subscribers == h.subscribers - (throwing - pending)
    && written == Appended(h.written, h.subscribers - pending - throwing, text)
  }

  lemma SweepStarts(h: Hub, text: string, throwing: set<nat>)
    ensures Swept(h, text, throwing, h.subscribers, h.subscribers, h.written)
  {
  }

  lemma SweepStep(h: Hub, text: string, throwing: set<nat>, pending: set<nat>, subscribers: set<nat>,
                  written: map<nat, string>, id: nat)
    requires h.Valid() && Swept(h, text, throwing, pending, subscribers, written) && id in pending
    ensures id in written
    ensures Swept(h, text, throwing, pending - {id},
                  if id in throwing then subscribers - {id} else subscribers,
                  if id in throwing then written else written[id := written[id] + text])
  {
    var served := h.subscribers - pending - throwing;
    assert h.subscribers - (pending - {id}) - throwing == if id in throwing then served else served + {id};
    AppendOne(h.written, served, id, text);
  }

  lemma SweepEnds(h: Hub, text: string, throwing: set<nat>, subscribers: set<nat>, written: map<nat, string>)
    requires Swept(h, text, throwing, {}, subscribers, written)
    ensures subscribers == h.subscribers - throwing && written == Appended(h.written, h.subscribers - throwing, text)
  {
    assert h.subscribers - {} - throwing == h.subscribers - throwing;
  }

  lemma AppendOne(written: map<nat, string>, ids: set<nat>, id: nat, text: string)
    requires id in written && id !in ids
    ensures id in Appended(written, ids, text) && Appended(written, ids, text)[id] == written[id]
    ensures Appended(written, ids + {id}, text) == Appended(written, ids, text)[id := written[id] + text]
  {
  }

  datatype Action =
    | Connect(id: nat)
    | Close(id: nat)
    | Send(m: Message, throwing: set<nat>)

  function Broadcast(h: Hub, text: string, throwing: set<nat>): Hub {
    var left := h.subscribers - throwing;
    Hub(left, h.running && left != {}, Appended(h.written, left, text))
  }

  function After(h: Hub, a: Action): Hub {
    match a
    case Connect(id) => Hub(h.subscribers + {id}, true, h.written[id := CONNECTED + BLANK])
    case Close(id) =>
      var left := h.subscribers - {id};
      h.(subscribers := left, running := h.running && left != {})
    case Send(m, throwing) =>
      if Bodies(m) == [] || (m.Beat? && !h.running) then h else Broadcast(h, Wire(Bodies(m)), throwing)
  }

  /** Every action keeps the heartbeat in step with the subscribers. */
  lemma ActionKeepsValid(h: Hub, a: Action)
    requires h.Valid()
    ensures After(h, a).Valid()
  {
    if a.Send? { assert Appended(h.written, h.subscribers - a.throwing, Wire(Bodies(a.m))).Keys == h.written.Keys; }
  }

  /** `LiveEventBroadcaster`. Subscribers are connections; the ones that throw on a frame are given with the call. */
  class Broadcaster {
    var subscribers: set<nat>
    var heartbeatRunning: bool
    var written: map<nat, string>

    ghost function State(): Hub
      reads this
    {
      Hub(subscribers, heartbeatRunning, written)
    }

    constructor ()
      ensures State() == Hub({}, false, map[]) && State().Valid()
    {
      subscribers, heartbeatRunning, written := {}, false, map[];
    }

    /** The route: greet, then subscribe. */
    method Subscribe(id: nat)
      requires State().Valid()
      modifies this
      ensures State() == After(old(State()), Connect(id)) && State().Valid()
    {
      written := written[id := CONNECTED + BLANK];
      subscribers := subscribers + {id};
      if !heartbeatRunning { heartbeatRunning := true; }
    }

    method Unsubscribe(id: nat)
      requires State().Valid()
      modifies this
      ensures State() == After(old(State()), Close(id)) && State().Valid()
    {
      subscribers := subscribers - {id};
      StopHeartbeatWhenIdle();
    }

    method StopHeartbeatWhenIdle()
      modifies this`heartbeatRunning
      ensures heartbeatRunning == (old(heartbeatRunning) && subscribers != {})
    {
      if |subscribers| > 0 || !heartbeatRunning { return; }
      heartbeatRunning := false;
    }

    /** One subscriber is called; if it throws, it is deleted. */
    method Deliver(id: nat, frame: string, throws: bool)
      requires id in written
      modifies this`subscribers, this`written
      ensures subscribers == if throws then old(subscribers) - {id} else old(subscribers)
      ensures written == if throws then old(written) else old(written)[id := old(written)[id] + frame]
    {
      if throws { subscribers := subscribers - {id}; } else { written := written[id := written[id] + frame]; }
    }

    /** The loop deletes from the set it runs over. */
    method BroadcastFrame(frame: string, throwing: set<nat>)
      requires State().Valid()
      modifies this
      ensures State() == Broadcast(old(State()), frame, throwing)
    {
      ghost var start := State();
      var pending := subscribers;
      SweepStarts(start, frame, throwing);
      while pending != {}
        invariant Swept(start, frame, throwing, pending, subscribers, written)
        invariant heartbeatRunning == start.running
        decreases pending
      {
        var id :| id in pending;
        SweepStep(start, frame, throwing, pending, subscribers, written, id);
        Deliver(id, frame, id in throwing);
        pending := pending - {id};
      }
      SweepEnds(start, frame, throwing, subscribers, written);
      StopHeartbeatWhenIdle();
    }

    method PublishChanged(resources: set<string>, throwing: set<nat>)
      requires State().Valid()
      modifies this
      ensures State() == After(old(State()), Send(Changed(resources), throwing)) && State().Valid()
    {
      var changed := Canonical(resources);
      if changed == [] { return; }
      ActionKeepsValid(State(), Send(Changed(resources), throwing));
      OneFrame(ChangedBody(changed));
      BroadcastFrame(ChangedBody(changed) + BLANK, throwing);
    }

    /** The timer fires only while it runs. */
    method HeartbeatTick(throwing: set<nat>)
      requires State().Valid()
      modifies this
      ensures State() == After(old(State()), Send(Beat, throwing)) && State().Valid()
    {
      if !heartbeatRunning { return; }
      ActionKeepsValid(State(), Send(Beat, throwing));
      OneFrame(HEARTBEAT);
      BroadcastFrame(HEARTBEAT + BLANK, throwing);
    }
  }

  lemma OneFrame(body: string)
    ensures Wire([body]) == body + BLANK
  {
    assert [body][..0] == [];
    assert Wire([]) == "";
  }

  // ------------------------------------------------------------------ reception

  function AfterAll(h: Hub, actions: seq<Action>): Hub {
    if actions == [] then h else After(AfterAll(h, actions[..|actions|-1]), actions[|actions|-1])
  }

  function Sent(actions: seq<Action>): seq<Message> {
    if actions == [] then []
    else Sent(actions[..|actions|-1]) + match actions[|actions|-1] case Send(m, _) => [m] case _ => []
  }

  /** The connection stays open and does not throw. */
  predicate Stays(id: nat, a: Action) {
    match a
    case Connect(other) => other != id
    case Close(other) => other != id
    case Send(_, throwing) => id !in throwing
  }

  lemma {:induction false} WireAppend(a: seq<string>, b: seq<string>)
    ensures Wire(a + b) == Wire(a) + Wire(b)
  {
    if b == [] {
      assert a + b == a;
    } else {
      assert (a + b)[..|a + b|-1] == a + b[..|b|-1];
      WireAppend(a, b[..|b|-1]);
    }
  }

  /** One action adds its frame, if it has one, to an open connection. */
  lemma ActionReaches(h: Hub, a: Action, id: nat)
    requires h.Valid() && id in h.subscribers && Stays(id, a)
    ensures After(h, a).Valid() && id in After(h, a).subscribers
    ensures After(h, a).written[id] == h.written[id] + (if a.Send? then Wire(Bodies(a.m)) else "")
  {
    ActionKeepsValid(h, a);
    assert Wire([]) == "";
  }

  /** An open connection receives the greeting and then, in order, the frame of every message sent since. */
  lemma {:induction false} Reception(h: Hub, id: nat, actions: seq<Action>)
    requires h.Valid()
    requires forall i | 0 <= i < |actions| :: Stays(id, actions[i])
    ensures var end := AfterAll(After(h, Connect(id)), actions);
            && end.Valid() && id in end.subscribers
            && end.written[id] == Wire([CONNECTED] + AllBodies(Sent(actions)))
  {
    if actions == [] {
      ActionKeepsValid(h, Connect(id));
      OneFrame(CONNECTED);
      assert [CONNECTED] + [] == [CONNECTED];
    } else {
      var init, last := actions[..|actions|-1], actions[|actions|-1];
      Reception(h, id, init);
      ActionReaches(AfterAll(After(h, Connect(id)), init), last, id);
      if last.Send? {
        SentStep(Sent(init), last.m);
      } else {
        assert Sent(actions) == Sent(init);
      }
    }
  }

  lemma SentStep(ms: seq<Message>, m: Message)
    ensures Wire([CONNECTED] + AllBodies(ms + [m])) == Wire([CONNECTED] + AllBodies(ms)) + Wire(Bodies(m))
  {
    assert (ms + [m])[..|ms|] == ms;
    var all, one := AllBodies(ms), Bodies(m);
    assert AllBodies(ms + [m]) == all + one;
    assert [CONNECTED] + (all + one) == ([CONNECTED] + all) + one;
    WireAppend([CONNECTED] + all, one);
  }

  // ------------------------------------------------------------------ end to end

  /** A frame's text: no carriage return and no blank line. */
  ghost predicate Clean(body: string) {
    && (forall i | 0 <= i < |body| :: body[i] != '\r')
    && (forall i | 0 <= i < |body| :: body[i] == '\n' ==> i + 1 < |body| && body[i+1] != '\n')
  }

  ghost predicate AllClean(bodies: seq<string>) {
    forall i | 0 <= i < |bodies| :: Clean(bodies[i])
  }

  /** A text is made of complete frames only. */
  ghost predicate DrainsTo(text: string, bodies: seq<string>) {
    Drain(text) == (bodies, "")
  }

  /** A clean text closed by a blank line is one frame. */
  lemma OneClean(body: string)
    requires Clean(body)
    ensures DrainsTo(body + BLANK, [body])
  {
    var s := body + BLANK;
    assert s[|body|] == '\n' && s[|body|+1] == '\n';
    forall j | 0 <= j < |body| ensures Delimiter(s, j) == 0 {
      assert s[j] == body[j];
      if body[j] == '\n' { assert s[j+1] == body[j+1]; }
    }
    LeftmostIs(s, 0, |body|);
    assert s[..|body|] == body && s[|body|+2..] == "";
    assert Drain("") == ([], "");
    assert [body] + [] == [body];
  }

  lemma DrainsBoth(s: string, a: seq<string>, t: string, b: seq<string>)
    requires DrainsTo(s, a) && DrainsTo(t, b)
    ensures DrainsTo(s + t, a + b)
  {
    DrainAppend(s, t);
    assert "" + t == t;
  }

  /** The client finds exactly the frames that were written. */
  lemma {:induction false} WireDrains(bodies: seq<string>)
    requires AllClean(bodies)
    ensures DrainsTo(Wire(bodies), bodies)
  {
    if bodies == [] {
      assert Drain("") == ([], "");
    } else {
      var init, last := bodies[..|bodies|-1], bodies[|bodies|-1];
      WireDrains(init);
      OneClean(last);
      DrainsBoth(Wire(init), init, last + BLANK, [last]);
      assert init + [last] == bodies;
    }
  }

  // reading one frame back

  lemma {:induction false} LinesUpTo(s: string, from: nat, at: nat, k: nat)
    requires from <= at <= k <= |s| && forall i | at <= i < k :: LineEnd(s, i) == 0
    ensures Lines(s, from, at) == Lines(s, from, k)
    decreases k - at
  {
    if at < k {
      assert LineEnd(s, at) == 0;
      LinesUpTo(s, from, at + 1, k);
    }
  }

  lemma OneLine(a: string)
    requires Plain(a)
    ensures Lines(a, 0, 0) == [a]
  {
    LinesUpTo(a, 0, 0, |a|);
  }

  lemma TwoLines(a: string, b: string)
    requires Plain(a) && Plain(b)
    ensures Lines(a + "\n" + b, 0, 0) == [a, b]
  {
    var s := a + "\n" + b;
    forall i | 0 <= i < |a| ensures LineEnd(s, i) == 0 { assert s[i] == a[i]; }
    forall i | |a| < i < |s| ensures LineEnd(s, i) == 0 { assert s[i] == b[i - |a| - 1]; }
    LinesUpTo(s, 0, 0, |a|);
    assert s[|a|] == '\n';
    assert Lines(s, 0, |a|) == [s[0..|a|]] + Lines(s, |a| + 1, |a| + 1);
    LinesUpTo(s, |a| + 1, |a| + 1, |s|);
    assert s[0..|a|] == a && s[|a|+1..] == b;
  }

  lemma FieldLine(name: string, value: string)
    requires forall i | 0 <= i < |name| :: name[i] != ':'
    ensures FieldOf(name + ": " + value) == Field(name, value)
  {
    var line := name + ": " + value;
    assert line[|name|] == ':' && line[|name|+1] == ' ';
    var colon := IndexOf(line, ':', 0);
    assert forall i | 0 <= i < |name| :: line[i] == name[i];
    assert colon == |name|;
    assert line[..colon] == name && line[colon+1..][1..] == value;
  }

  /** Comment frames, the greeting and the heartbeat, lead to nothing. */
  lemma CommentReads(s: string, parse: JsonParse)
    requires Plain(s) && s != "" && s[0] == ':'
    ensures Skips(Reading(parse), s)
  {
    OneLine(s);
    assert [s][..0] == [];
    assert ReadAll(Event("message", []), []) == Event("message", []);
    assert ReadAll(Event("message", []), [s]) == Event("message", []);
  }

  lemma EventLine(e: Event)
    ensures Read(e, "event: changed") == e.(name := "changed")
  {
    assert "event: changed" == "event" + ": " + "changed";
    FieldLine("event", "changed");
  }

  lemma DataLine(e: Event, json: string)
    ensures Read(e, "data: " + json) == e.(data := e.data + [json])
  {
    assert "data: " + json == "data" + ": " + json;
    FieldLine("data", json);
  }

  lemma ReadTwo(e: Event, a: string, b: string)
    ensures ReadAll(e, [a, b]) == Read(Read(e, a), b)
  {
    assert [a, b][..1] == [a] && [a][..0] == [];
    assert ReadAll(e, []) == e;
    assert ReadAll(e, [a]) == Read(e, a);
  }

  lemma ChangedEvent(json: string)
    requires Plain(json)
    ensures ReadAll(Event("message", []), Lines("event: changed\ndata: " + json, 0, 0)) == Event("changed", [json])
  {
    var e := Event("message", []);
    assert "event: changed\ndata: " + json == "event: changed" + "\n" + ("data: " + json);
    TwoLines("event: changed", "data: " + json);
    ReadTwo(e, "event: changed", "data: " + json);
    EventLine(e);
    DataLine(e.(name := "changed"), json);
  }

  /** The client keeps canonical keys as they are. */
  lemma {:induction false} RequestedKnown(keys: seq<string>, requested: set<string>)
    requires forall i, j | 0 <= i < j < |keys| :: keys[i] != keys[j]
    requires forall i | 0 <= i < |keys| :: keys[i] in RESOURCE_KEYS
    ensures KnownOnce(Requested(keys, requested)) == Requested(keys, requested)
    ensures forall k | k in Requested(keys, requested) :: k in keys
  {
    if keys != [] {
      var init, last := keys[..|keys|-1], keys[|keys|-1];
      RequestedKnown(init, requested);
      var before := Requested(init, requested);
      assert last !in before;
      if last in requested {
        assert (before + [last])[..|before|] == before;
      } else {
        assert before + [] == before;
      }
    }
  }

  lemma CanonicalKnown(requested: set<string>)
    ensures KnownOnce(Canonical(requested)) == Canonical(requested)
  {
    forall i, j | 0 <= i < j < |RESOURCE_KEYS| ensures RESOURCE_KEYS[i] != RESOURCE_KEYS[j] { KeysDistinct(i, j); }
    RequestedKnown(RESOURCE_KEYS, requested);
  }

  /** The call that a message should lead to: one for a publish of something known. */
  function Calls(m: Message): seq<seq<string>> {
    match m
    case Beat => []
    case Changed(requested) => if Canonical(requested) == [] then [] else [Canonical(requested)]
  }

  function Expected(ms: seq<Message>): seq<seq<string>> {
    if ms == [] then [] else Expected(ms[..|ms|-1]) + Calls(ms[|ms|-1])
  }

  lemma ChangedReads(requested: set<string>, parse: JsonParse)
    requires Agrees(parse)
    ensures TakesKeys(Reading(parse), requested)
  {
    var keys := Canonical(requested);
    CanonicalPlain(requested);
    CanonicalKnown(requested);
    ChangedEvent(Stringify(keys));
    PayloadParsed(requested, parse);
    assert Join([Stringify(keys)]) == Stringify(keys);
  }

  ghost predicate TakesKeys(read: Reader, requested: set<string>) {
    Canonical(requested) != [] ==> read(ChangedBody(Canonical(requested))) == [Canonical(requested)]
  }

  ghost predicate Skips(read: Reader, frame: string) {
    read(frame) == []
  }

  /** A client that takes comments for nothing and change frames for their keys. */
  ghost predicate Understands(read: Reader) {
    Skips(read, CONNECTED) && Skips(read, HEARTBEAT) && TakesAllKeys(read)
  }

  ghost predicate TakesAllKeys(read: Reader) {
    forall requested: set<string> :: TakesKeys(read, requested)
  }

  lemma ParserTakesKeys(parse: JsonParse, read: Reader)
    requires Agrees(parse) && read == Reading(parse)
    ensures TakesAllKeys(read)
  {
    forall requested: set<string> ensures TakesKeys(read, requested) {
      ChangedReads(requested, parse);
    }
  }

  lemma GreetingSkipped(parse: JsonParse, read: Reader)
    requires read == Reading(parse)
    ensures Skips(read, CONNECTED)
  {
    CommentReads(CONNECTED, parse);
  }

  lemma HeartbeatSkipped(parse: JsonParse, read: Reader)
    requires read == Reading(parse)
    ensures Skips(read, HEARTBEAT)
  {
    CommentReads(HEARTBEAT, parse);
  }

  lemma ParserUnderstands(parse: JsonParse)
    requires Agrees(parse)
    ensures Understands(Reading(parse))
  {
    GreetingSkipped(parse, Reading(parse));
    HeartbeatSkipped(parse, Reading(parse));
    ParserTakesKeys(parse, Reading(parse));
  }

  lemma ChangedClean(json: string)
    requires Plain(json) && json != ""
    ensures Clean("event: changed\ndata: " + json)
  {
    var head := "event: changed\ndata: ";
    assert |head| == 21 && head[14] == '\n' && head[15] == 'd';
    assert forall i | 0 <= i < 21 && i != 14 :: head[i] != '\n' && head[i] != '\r';
    var body := head + json;
    forall i | 0 <= i < |body| ensures body[i] != '\r' && (body[i] == '\n' ==> i == 14) {
      assert body[i] == if i < 21 then head[i] else json[i-21];
    }
  }

  lemma MessageClean(m: Message)
    ensures AllClean(Bodies(m))
  {
    if m.Changed? {
      CanonicalPlain(m.requested);
      ChangedClean(Stringify(Canonical(m.requested)));
    }
  }

  lemma MessageReads(m: Message, read: Reader)
    requires Understands(read)
    ensures Notices(Bodies(m), read) == Calls(m)
  {
    assert Notices([], read) == [];
    if m.Changed? { assert TakesKeys(read, m.requested); }
    if Bodies(m) != [] { OneNotice(Bodies(m)[0], read); }
  }

  lemma {:induction false} MessagesRead(ms: seq<Message>, read: Reader)
    requires Understands(read)
    ensures Notices(AllBodies(ms), read) == Expected(ms)
    ensures AllClean(AllBodies(ms))
  {
    if ms == [] {
      assert Notices([], read) == [];
    } else {
      var init, m := ms[..|ms|-1], ms[|ms|-1];
      MessagesRead(init, read);
      MessageReads(m, read);
      MessageClean(m);
      NoticesAppend(AllBodies(init), Bodies(m), read);
    }
  }

  /** A fresh parser that is fed these chunks makes these calls and keeps nothing. */
  ghost predicate Yields(chunks: seq<string>, read: Reader, calls: seq<seq<string>>) {
    PushAll(State("", []), chunks, read) == State("", calls)
  }

  lemma WholeFramesYield(bodies: seq<string>, chunks: seq<string>, read: Reader)
    requires AllClean(bodies) && Concat(chunks) == Wire(bodies)
    ensures Yields(chunks, read, Notices(bodies, read))
  {
    WireDrains(bodies);
    ChunkIndependence(chunks, read);
  }

  lemma GreetingMeansNothing(greeting: string, bodies: seq<string>, read: Reader)
    requires Clean(greeting) && Skips(read, greeting) && AllClean(bodies)
    ensures AllClean([greeting] + bodies) && Notices([greeting] + bodies, read) == Notices(bodies, read)
  {
    OneNotice(greeting, read);
    NoticesAppend([greeting], bodies, read);
    assert [] + Notices(bodies, read) == Notices(bodies, read);
  }

  lemma GreetedYield(greeting: string, bodies: seq<string>, calls: seq<seq<string>>, chunks: seq<string>, read: Reader)
    requires Clean(greeting) && Skips(read, greeting) && AllClean(bodies) && Notices(bodies, read) == calls
    requires Concat(chunks) == Wire([greeting] + bodies)
    ensures Yields(chunks, read, calls)
  {
    GreetingMeansNothing(greeting, bodies, read);
    WholeFramesYield([greeting] + bodies, chunks, read);
  }

  lemma GreetingClean()
    ensures Clean(CONNECTED)
  {
  }

  lemma Received(ms: seq<Message>, chunks: seq<string>, read: Reader)
    requires Understands(read) && Concat(chunks) == Wire([CONNECTED] + AllBodies(ms))
    ensures Yields(chunks, read, Expected(ms))
  {
    MessagesRead(ms, read);
    GreetingClean();
    GreetedYield(CONNECTED, AllBodies(ms), Expected(ms), chunks, read);
  }

  /** What a fresh parser has called once it was fed `text`, in whatever chunks. */
  function CallsOf(text: string, read: Reader): seq<seq<string>> {
    Notices(Drain(text).0, read)
  }

  /** More input never takes back a call. */
  lemma MoreInputMoreCalls(text: string, all: string, read: Reader)
    requires text <= all
    ensures CallsOf(text, read) <= CallsOf(all, read)
  {
    var more := all[|text|..];
    assert all == text + more;
    DrainAppend(text, more);
    NoticesAppend(Drain(text).0, Drain(Drain(text).1 + more).0, read);
  }

  lemma CallsOfMessages(ms: seq<Message>, read: Reader)
    requires Understands(read)
    ensures CallsOf(Wire([CONNECTED] + AllBodies(ms)), read) == Expected(ms)
    ensures Drain(Wire([CONNECTED] + AllBodies(ms))).1 == ""
  {
    var text := Wire([CONNECTED] + AllBodies(ms));
    assert Concat([text]) == text by { assert [text][..0] == []; assert "" + text == text; }
    Received(ms, [text], read);
    ChunkIndependence([text], read);
  }

  /** The first messages of `ms`, greeting included, as they go over the wire. */
  function Stream(ms: seq<Message>): string {
    Wire([CONNECTED] + AllBodies(ms))
  }

  /** The calls `calls` are those that the received part `text` of the stream of `ms` asks for: a prefix of all the
      calls that `ms` leads to, at least those of the messages whose frames have arrived whole. */
  ghost predicate CallsSoFar(text: string, ms: seq<Message>, calls: seq<seq<string>>) {
    && calls <= Expected(ms)
    && forall k | 0 <= k <= |ms| :: Stream(ms[..k]) <= text ==> Expected(ms[..k]) <= calls
  }

  lemma PartReceived(ms: seq<Message>, text: string, read: Reader)
    requires Understands(read) && text <= Stream(ms)
    ensures CallsSoFar(text, ms, CallsOf(text, read))
  {
    CallsOfMessages(ms, read);
    MoreInputMoreCalls(text, Stream(ms), read);
    forall k | 0 <= k <= |ms| && Stream(ms[..k]) <= text ensures Expected(ms[..k]) <= CallsOf(text, read) {
      CallsOfMessages(ms[..k], read);
      MoreInputMoreCalls(Stream(ms[..k]), text, read);
    }
  }

  /** From hub to callback: a client that connects and stays is called, in order, with exactly the known keys of each
      publish in canonical order, whatever else the hub does meanwhile and however the network chops the stream. A
      client that has received only a part has made the calls of the frames it has whole, and no others; one that has
      received everything has made all of them and keeps nothing in its buffer. */
  lemma EndToEnd(h: Hub, id: nat, actions: seq<Action>, chunks: seq<string>, parse: JsonParse)
    requires h.Valid() && Agrees(parse)
    requires forall i | 0 <= i < |actions| :: Stays(id, actions[i])
    ensures var end := AfterAll(After(h, Connect(id)), actions);
            var client := PushAll(State("", []), chunks, Reading(parse));
            var ms := Sent(actions);
            && id in end.written
            && (Concat(chunks) <= end.written[id] ==> CallsSoFar(Concat(chunks), ms, client.calls))
            && (Concat(chunks) == end.written[id] ==> client == State("", Expected(ms)))
  {
    Reception(h, id, actions);
    ParserUnderstands(parse);
    ChunkIndependence(chunks, Reading(parse));
    var ms := Sent(actions);
    if Concat(chunks) <= Stream(ms) {
      PartReceived(ms, Concat(chunks), Reading(parse));
      CallsOfMessages(ms, Reading(parse));
    }
  }
}
