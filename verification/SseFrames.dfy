/**
 Frames, lines and fields of an event stream as a sender writes them, and what the parser makes of each.
 */
module SseFrames {
  import opened Prelude
  import opened SseParser

  // -------------------------------------------------------------------- blank lines

  const BLANK_LINES := {"\n\n", "\n\r\n", "\r\n\n", "\r\n\r\n"}

  predicate At(s: string, i: nat, word: string) {
    i + |word| <= |s| && s[i..i+|word|] == word
  }

  /** No blank line begins before `end`. */
  ghost predicate Unbroken(s: string, end: nat) {
    forall i, blank | 0 <= i < end && blank in BLANK_LINES :: !At(s, i, blank)
  }

  lemma DelimiterIs(s: string, i: nat)
    requires i <= |s|
    ensures forall blank | blank in BLANK_LINES && At(s, i, blank) :: Delimiter(s, i) == |blank|
  {
    forall blank | blank in BLANK_LINES && At(s, i, blank) ensures Delimiter(s, i) == |blank| {
      var here := s[i..i+|blank|];
      assert forall k | 0 <= k < |here| :: here[k] == s[i+k];
    }
  }

  lemma DelimiterFound(s: string, i: nat) returns (blank: string)
    requires Delimiter(s, i) > 0
    ensures blank in BLANK_LINES && At(s, i, blank)
  {
    blank := s[i..i+Delimiter(s, i)];
    assert forall k | 0 <= k < |blank| :: s[i+k] == blank[k];
    var a := LineEnd(s, i);
    if a == 1 && LineEnd(s, i + a) == 1 { assert blank == "\n\n"; }
    else if a == 1 { assert blank == "\n\r\n"; }
    else if LineEnd(s, i + a) == 1 { assert blank == "\r\n\n"; }
    else { assert blank == "\r\n\r\n"; }
  }

  /** The first frame is what stands before the first blank line, and nothing else is cut. */
  lemma CutExactly(s: string, frame: string, blank: string, rest: string)
    requires blank in BLANK_LINES && s == frame + (blank + rest) && Unbroken(s, |frame|)
    ensures Cut(s) == Some((frame, rest))
  {
    assert At(s, |frame|, blank);
    DelimiterIs(s, |frame|);
    forall j | 0 <= j < |frame| ensures Delimiter(s, j) == 0 {
      if Delimiter(s, j) > 0 { var b := DelimiterFound(s, j); }
    }
    LeftmostIs(s, 0, |frame|);
    assert s[..|frame|] == frame && s[|frame| + |blank|..] == rest;
  }

  lemma NothingCut(s: string)
    ensures Cut(s) == None <==> Unbroken(s, |s|)
  {
    if Cut(s) == None {
      forall i, blank | 0 <= i < |s| && blank in BLANK_LINES ensures !At(s, i, blank) {
        NoneBefore(s, 0, i);
        DelimiterIs(s, i);
      }
    } else {
      var b := DelimiterFound(s, Leftmost(s, 0));
    }
  }

  // -------------------------------------------------------------------------- lines

  const LINE_ENDS := {"\n", "\r\n"}

  /** Lines with the line ends between them. */
  function Joined(lines: seq<string>, ends: seq<string>): string
    requires |lines| == |ends| + 1
  {
    if ends == [] then lines[0] else lines[0] + (ends[0] + Joined(lines[1..], ends[1..]))
  }

  predicate Unended(line: string) {
    forall i | 0 <= i < |line| :: line[i] != '\n'
  }

  /** No line contains a line feed, and a carriage return before a line feed belongs to the line end. */
  ghost predicate Separated(lines: seq<string>, ends: seq<string>) {
    && |lines| == |ends| + 1
    && (forall i | 0 <= i < |lines| :: Unended(lines[i]))
    && (forall i | 0 <= i < |ends| ::
          ends[i] in LINE_ENDS && (ends[i] == "\n" && lines[i] != "" ==> lines[i][|lines[i]|-1] != '\r'))
  }

  lemma {:induction false} SkipTo(s: string, from: nat, at: nat, end: nat)
    requires from <= at <= end <= |s| && forall i | at <= i < end :: LineEnd(s, i) == 0
    ensures Lines(s, from, at) == Lines(s, from, end)
    decreases end - at
  {
    if at < end {
      assert LineEnd(s, at) == 0;
      SkipTo(s, from, at + 1, end);
    }
  }

  /** What stands before a position does not matter for the lines after it. */
  lemma {:induction false} LinesOfRest(s: string, p: nat, t: string, from: nat, at: nat)
    requires p <= |s| && t == s[p..] && from <= at <= |t|
    ensures Lines(s, p + from, p + at) == Lines(t, from, at)
    decreases |t| - at
  {
    SliceOfRest(s, p, t, from, at);
    if at < |t| {
      LineEndOfRest(s, p, t, at);
      var n := LineEnd(t, at);
      if n == 0 { LinesOfRest(s, p, t, from, at + 1); } else { LinesOfRest(s, p, t, at + n, at + n); }
    }
  }

  lemma SliceOfRest(s: string, p: nat, t: string, from: nat, at: nat)
    requires p <= |s| && t == s[p..] && from <= at <= |t|
    ensures s[p+from..p+at] == t[from..at] && s[p+from..] == t[from..]
  {
  }

  lemma LineEndOfRest(s: string, p: nat, t: string, at: nat)
    requires p <= |s| && t == s[p..] && at < |t|
    ensures LineEnd(s, p + at) == LineEnd(t, at)
  {
    assert t[at] == s[p+at] && (at + 1 < |t| ==> t[at+1] == s[p+at+1]);
  }

  /** The first line end is the one between line and rest. */
  lemma EndsOfFirst(line: string, end: string, rest: string)
    requires Unended(line) && end in LINE_ENDS
    requires end == "\n" && line != "" ==> line[|line|-1] != '\r'
    ensures var s := line + (end + rest);
            LineEnd(s, |line|) == |end| && forall i | 0 <= i < |line| :: LineEnd(s, i) == 0
  {
    var s := line + (end + rest);
    assert s[|line|] == end[0] && (|end| == 2 ==> s[|line|+1] == end[1]);
    forall i | 0 <= i < |line| ensures LineEnd(s, i) == 0 {
      assert s[i] == line[i];
      if i + 1 < |line| { assert s[i+1] == line[i+1]; }
    }
  }

  lemma FirstLine(line: string, end: string, rest: string)
    requires Unended(line) && end in LINE_ENDS
    requires end == "\n" && line != "" ==> line[|line|-1] != '\r'
    ensures Lines(line + (end + rest), 0, 0) == [line] + Lines(rest, 0, 0)
  {
    var s, n := line + (end + rest), |line| + |end|;
    EndsOfFirst(line, end, rest);
    SkipTo(s, 0, 0, |line|);
    assert s[0..|line|] == line && s[n..] == rest;
    LinesOfRest(s, n, rest, 0, 0);
  }

  lemma LastLine(line: string)
    requires Unended(line)
    ensures Lines(line, 0, 0) == [line]
  {
    SkipTo(line, 0, 0, |line|);
    assert line[0..] == line;
  }

  /** A frame is split into the lines that it was put together from, whichever line ends were used. */
  lemma {:induction false} LinesExactly(lines: seq<string>, ends: seq<string>)
    requires Separated(lines, ends)
    ensures Lines(Joined(lines, ends), 0, 0) == lines
    decreases |ends|
  {
    if ends == [] {
      LastLine(lines[0]);
    } else {
      FirstLine(lines[0], ends[0], Joined(lines[1..], ends[1..]));
      LinesExactly(lines[1..], ends[1..]);
    }
  }

  // ------------------------------------------------------------------------- fields

  /** A line as a sender means it; `spaced` if a space stands after the colon. */
  datatype SentLine =
    | Nothing
    | Comment(text: string)
    | Bare(name: string)
    | Named(name: string, value: string, spaced: bool)
  {
    function Text(): string {
      match this
      case Nothing => ""
      case Comment(text) => ":" + text
      case Bare(name) => name
      case Named(name, value, spaced) => name + (if spaced then ": " else ":") + value
    }

    /** Field names are not empty and have no colon; a value that begins with a space needs a space before it. */
    ghost predicate Proper() {
      match this
      case Bare(name) => name != "" && ':' !in name
      case Named(name, value, spaced) =>
        name != "" && ':' !in name && (spaced || value == "" || value[0] != ' ')
      case _ => true
    }

    /** The value that the line gives to a field, if it does. */
    function Gives(field: string): Option<string> {
      match this
      case Bare(name) => if name == field then Some("") else None
      case Named(name, value, _) => if name == field then Some(value) else None
      case _ => None
    }
  }

  function Texts(lines: seq<SentLine>): seq<string> {
    seq(|lines|, i requires 0 <= i < |lines| => lines[i].Text())
  }

  /** All values that the lines give to a field, in order. */
  function Given(lines: seq<SentLine>, field: string): seq<string> {
    if lines == [] then []
    else Given(lines[..|lines|-1], field) + Listed(lines[|lines|-1].Gives(field))
  }

  function Listed(value: Option<string>): seq<string> {
    if value.Some? then [value.value] else []
  }

  /** The event of a frame: the last name given, or `message`, and all the data. */
  function EventOf(lines: seq<SentLine>): Event {
    var names := Given(lines, "event");
    Event(if names == [] then "message" else names[|names|-1], Given(lines, "data"))
  }

  lemma FieldRead(l: SentLine)
    requires l.Proper() && (l.Bare? || l.Named?)
    ensures !Ignored(l.Text()) && FieldOf(l.Text()) == Field(l.name, if l.Bare? then "" else l.value)
  {
    var text := l.Text();
    var colon := IndexOf(text, ':', 0);
    assert forall i | 0 <= i < |l.name| :: text[i] == l.name[i] && l.name[i] in l.name;
    assert text[0] == l.name[0];
    assert l.Named? ==> text[|l.name|] == ':';
    assert l.Bare? ==> text == l.name;
    assert colon == |l.name|;
    assert text[..colon] == l.name;
    if l.Named? {
      if l.spaced { assert text[colon+1..] == " " + l.value; } else { assert text[colon+1..] == l.value; }
      assert (" " + l.value)[1..] == l.value;
    }
  }

  lemma LineRead(e: Event, l: SentLine)
    requires l.Proper()
    ensures Read(e, l.Text()) ==
            Event(if l.Gives("event").Some? then l.Gives("event").value else e.name, e.data + Listed(l.Gives("data")))
  {
    if l.Bare? || l.Named? { FieldRead(l); }
    assert e.data + [] == e.data;
  }

  lemma {:induction false} LinesRead(lines: seq<SentLine>)
    requires forall i | 0 <= i < |lines| :: lines[i].Proper()
    ensures ReadAll(Event("message", []), Texts(lines)) == EventOf(lines)
  {
    if lines != [] {
      LinesRead(lines[..|lines|-1]);
      assert Texts(lines)[..|lines|-1] == Texts(lines[..|lines|-1]);
      LineRead(EventOf(lines[..|lines|-1]), lines[|lines|-1]);
    }
  }

  // -------------------------------------------------------------------------- frames

  /** Data lines are joined by line feeds. */
  function Payload(data: seq<string>): string
    requires data != []
  {
    Joined(data, seq(|data| - 1, i => "\n"))
  }

  lemma PayloadStep(data: seq<string>)
    requires |data| > 1
    ensures Payload(data) == data[0] + ("\n" + Payload(data[1..]))
  {
    assert seq(|data| - 1, i => "\n")[1..] == seq(|data| - 2, i => "\n");
  }

  lemma {:induction false} JoinedLast(data: seq<string>, last: string)
    requires data != []
    ensures Payload(data + [last]) == Payload(data) + "\n" + last
    decreases |data|
  {
    var all := data + [last];
    PayloadStep(all);
    if |data| == 1 {
      assert all[1..] == [last];
    } else {
      assert all[1..] == data[1..] + [last];
      JoinedLast(data[1..], last);
      PayloadStep(data);
      var rest := Payload(data[1..]);
      assert data[0] + ("\n" + (rest + "\n" + last)) == data[0] + ("\n" + rest) + "\n" + last;
    }
  }

  lemma {:induction false} JoinIsPayload(data: seq<string>)
    requires data != []
    ensures Join(data) == Payload(data)
  {
    if |data| > 1 {
      JoinIsPayload(data[..|data|-1]);
      JoinedLast(data[..|data|-1], data[|data|-1]);
      assert data[..|data|-1] + [data[|data|-1]] == data;
    }
  }

  /** A frame leads to a call exactly if its last event name is `changed`, it has data, and the data lines joined by
      line feeds hold a list with a known key; the call is for its known keys. Comments, other fields, the line ends
      used and a space after a colon make no difference. */
  lemma FrameExactly(lines: seq<SentLine>, ends: seq<string>, parse: JsonParse)
    requires (forall i | 0 <= i < |lines| :: lines[i].Proper()) && Separated(Texts(lines), ends)
    ensures var e := EventOf(lines);
            Notice(Joined(Texts(lines), ends), parse) ==
            if e.name != "changed" || e.data == [] || parse(Payload(e.data)).None? then []
            else if KnownOnce(parse(Payload(e.data)).value) == [] then []
            else [KnownOnce(parse(Payload(e.data)).value)]
  {
    LinesExactly(Texts(lines), ends);
    LinesRead(lines);
    if EventOf(lines).data != [] { JoinIsPayload(EventOf(lines).data); }
  }

  lemma JoinedFirst(line: string, end: string, lines: seq<string>, ends: seq<string>)
    requires Separated(lines, ends) && Unended(line) && end in LINE_ENDS
    requires end == "\n" && line != "" ==> line[|line|-1] != '\r'
    ensures Separated([line] + lines, [end] + ends)
    ensures Joined([line] + lines, [end] + ends) == line + (end + Joined(lines, ends))
  {
    assert ([line] + lines)[1..] == lines && ([end] + ends)[1..] == ends;
  }

  lemma {:induction false} EveryTextIsJoined(s: string) returns (lines: seq<string>, ends: seq<string>)
    ensures Separated(lines, ends) && Joined(lines, ends) == s
    decreases |s|
  {
    var i := IndexOf(s, '\n', 0);
    if i == |s| {
      lines, ends := [s], [];
    } else {
      var end := if i > 0 && s[i-1] == '\r' then "\r\n" else "\n";
      var line := s[..i + 1 - |end|];
      var more, between := EveryTextIsJoined(s[i+1..]);
      lines, ends := [line] + more, [end] + between;
      JoinedFirst(line, end, more, between);
      assert s == line + (end + s[i+1..]);
    }
  }

  lemma LineIsSent(text: string) returns (l: SentLine)
    ensures l.Proper() && l.Text() == text
  {
    var colon := IndexOf(text, ':', 0);
    if text == "" {
      l := Nothing;
    } else if colon == 0 {
      l := Comment(text[1..]);
    } else if colon == |text| {
      l := Bare(text);
    } else {
      var spaced := colon + 1 < |text| && text[colon+1] == ' ';
      l := Named(text[..colon], text[if spaced then colon + 2 else colon + 1..], spaced);
    }
  }

  lemma {:induction false} LinesAreSent(texts: seq<string>) returns (lines: seq<SentLine>)
    ensures Texts(lines) == texts && forall i | 0 <= i < |lines| :: lines[i].Proper()
  {
    if texts == [] {
      lines := [];
    } else {
      var init := LinesAreSent(texts[..|texts|-1]);
      var last := LineIsSent(texts[|texts|-1]);
      lines := init + [last];
      assert texts == Texts(init) + [last.Text()];
    }
  }

  /** Every text is such a frame, so `FrameExactly` speaks of all of them. */
  lemma EveryFrameIsSent(frame: string) returns (lines: seq<SentLine>, ends: seq<string>)
    ensures (forall i | 0 <= i < |lines| :: lines[i].Proper()) && Separated(Texts(lines), ends)
    ensures Joined(Texts(lines), ends) == frame
  {
    var texts;
    texts, ends := EveryTextIsJoined(frame);
    lines := LinesAreSent(texts);
  }

  // ------------------------------------------------------------------------ known keys

  /** `k` occurs first at `i`. */
  ghost predicate FirstAt(keys: seq<string>, k: string, i: nat) {
    i < |keys| && keys[i] == k && k !in keys[..i]
  }

  /** `called` are the known keys among `keys`, each once, in the order in which they occur first. */
  ghost predicate FirstKnown(called: seq<string>, keys: seq<string>) {
    && (forall k :: k in called <==> k in keys && k in RESOURCE_KEYS)
    && forall i, j, a, b | 0 <= i < j < |called| && FirstAt(keys, called[i], a) && FirstAt(keys, called[j], b) :: a < b
  }

  lemma {:induction false} KnownOnceExactly(keys: seq<string>)
    ensures FirstKnown(KnownOnce(keys), keys)
    ensures forall i, j | 0 <= i < j < |KnownOnce(keys)| :: KnownOnce(keys)[i] != KnownOnce(keys)[j]
  {
    if keys != [] {
      var init, last := keys[..|keys|-1], keys[|keys|-1];
      KnownOnceExactly(init);
      assert keys == init + [last];
      var called := KnownOnce(keys);
      forall i, j, a, b | 0 <= i < j < |called| && FirstAt(keys, called[i], a) && FirstAt(keys, called[j], b)
        ensures a < b
      {
        assert called[i] in KnownOnce(init);
        assert called[i] in init;
        FirstWithin(init, last, called[i], a);
        if called[j] in KnownOnce(init) { FirstWithin(init, last, called[j], b); }
      }
    }
  }

  lemma FirstWithin(init: seq<string>, last: string, k: string, i: nat)
    requires k in init && FirstAt(init + [last], k, i)
    ensures FirstAt(init, k, i)
  {
    var keys := init + [last];
    if i == |init| { assert keys[..i] == init; } else { assert keys[..i] == init[..i]; }
  }
}
