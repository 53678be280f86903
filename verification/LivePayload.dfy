/**
 The payload of a change notification: what the server writes, and what a reader of JSON text finds in it.
 */
module LivePayload {
  import opened Prelude
  import opened SseParser
  import C = CanonicalJson
  import R = JsonReader

  // ------------------------------------------------------------------ what is sent

  /** The requested keys among `keys`, in the order of `keys`. */
  function Requested(keys: seq<string>, requested: set<string>): seq<string> {
    if keys == [] then []
    else Requested(keys[..|keys|-1], requested) + if keys[|keys|-1] in requested then [keys[|keys|-1]] else []
  }

  /** The keys of a publish, known and in canonical order. */
  function Canonical(requested: set<string>): seq<string> {
    Requested(RESOURCE_KEYS, requested)
  }

  function Quoted(keys: seq<string>): string {
    if keys == [] then ""
    else if |keys| == 1 then "\"" + keys[0] + "\""
    else "\"" + keys[0] + "\"," + Quoted(keys[1..])
  }

  /** `JSON.stringify({ changed })`; the keys need no escapes. */
  function Stringify(keys: seq<string>): string {
    "{\"changed\":[" + Quoted(keys) + "]}"
  }

  // --------------------------------------------------------------- what is received

  /** The value of a property; of properties of one name the last counts. */
  function MemberOf(fields: seq<C.Field>, key: string): Option<C.Json> {
    if fields == [] then None
    else if fields[|fields|-1].key == key then Some(fields[|fields|-1].value)
    else MemberOf(fields[..|fields|-1], key)
  }

  function Strings(items: seq<C.Json>): seq<string> {
    if items == [] then []
    else Strings(items[..|items|-1]) + if items[|items|-1].Str? then [items[|items|-1].s] else []
  }

  /** The strings of the array `changed` of a payload, if it has one. */
  function ChangedOf(w: C.Json): Option<seq<string>> {
    if !w.Obj? then None
    else match MemberOf(w.fields, "changed")
      case Some(Arr(items)) => Some(Strings(items))
      case _ => None
  }

  /** `parse` finds the array `changed` of every text that the reader understands. */
  ghost predicate Agrees(parse: JsonParse) {
    forall text | R.ReadText(text).Some? :: parse(text) == ChangedOf(R.ReadText(text).value)
  }

  // ------------------------------------------------------------------ resource keys

  predicate KeyChar(c: char) {
    'a' <= c <= 'z' || c == '-'
  }

  /** Letters and hyphens only: nothing to escape. */
  ghost predicate Simple(key: string) {
    forall i | 0 <= i < |key| :: KeyChar(key[i])
  }

  ghost predicate AllSimple(keys: seq<string>) {
    forall i | 0 <= i < |keys| :: Simple(keys[i])
  }

  lemma KeysAreSimple(i: nat)
    requires i < |RESOURCE_KEYS|
    ensures Simple(RESOURCE_KEYS[i])
  {
  }

  lemma KeysDistinct(i: nat, j: nat)
    requires i < j < |RESOURCE_KEYS|
    ensures RESOURCE_KEYS[i] != RESOURCE_KEYS[j]
  {
    assert RESOURCE_KEYS[0][0] == 'a' && RESOURCE_KEYS[4][0] == 'c' && RESOURCE_KEYS[5][0] == 'o';
    assert RESOURCE_KEYS[1][1] == 'a' && RESOURCE_KEYS[2][1] == 'i' && RESOURCE_KEYS[3][1] == 'o';
    assert RESOURCE_KEYS[1][0] == RESOURCE_KEYS[2][0] == RESOURCE_KEYS[3][0] == 'b' && RESOURCE_KEYS[6][0] == 'r';
  }

  lemma {:induction false} RequestedSimple(keys: seq<string>, requested: set<string>)
    requires AllSimple(keys)
    ensures AllSimple(Requested(keys, requested))
  {
    if keys != [] { RequestedSimple(keys[..|keys|-1], requested); }
  }

  lemma CanonicalSimple(requested: set<string>)
    ensures AllSimple(Canonical(requested))
  {
    forall i | 0 <= i < |RESOURCE_KEYS| ensures Simple(RESOURCE_KEYS[i]) { KeysAreSimple(i); }
    RequestedSimple(RESOURCE_KEYS, requested);
  }

  /** `a` stands before `b` in `keys`. */
  ghost predicate StandsBefore(keys: seq<string>, a: string, b: string) {
    exists i, j | 0 <= i < j < |keys| :: keys[i] == a && keys[j] == b
  }

  /** `chosen` are the members of `requested` among `keys`, in the order of `keys`. */
  ghost predicate Chosen(chosen: seq<string>, keys: seq<string>, requested: set<string>) {
    && (forall k :: k in chosen <==> k in keys && k in requested)
    && forall i, j | 0 <= i < j < |chosen| :: StandsBefore(keys, chosen[i], chosen[j])
  }

  lemma {:induction false} RequestedExactly(keys: seq<string>, requested: set<string>)
    ensures Chosen(Requested(keys, requested), keys, requested)
  {
    if keys != [] {
      var init, last := keys[..|keys|-1], keys[|keys|-1];
      RequestedExactly(init, requested);
      var before, chosen := Requested(init, requested), Requested(keys, requested);
      forall i, j | 0 <= i < j < |chosen| ensures StandsBefore(keys, chosen[i], chosen[j]) {
        if j < |before| {
          assert StandsBefore(init, before[i], before[j]);
          var k, l :| 0 <= k < l < |init| && init[k] == before[i] && init[l] == before[j];
          assert keys[k] == chosen[i] && keys[l] == chosen[j];
        } else {
          assert chosen[i] in before;
          var k :| 0 <= k < |init| && init[k] == chosen[i];
          assert keys[k] == chosen[i] && keys[|keys|-1] == chosen[j];
        }
      }
      assert keys == init + [last];
    }
  }

  /** A publish announces the known keys among the requested ones, each once, in the order of the contract. */
  lemma CanonicalExactly(requested: set<string>)
    ensures Chosen(Canonical(requested), RESOURCE_KEYS, requested)
    ensures forall i, j | 0 <= i < j < |Canonical(requested)| :: Canonical(requested)[i] != Canonical(requested)[j]
  {
    RequestedExactly(RESOURCE_KEYS, requested);
    var chosen := Canonical(requested);
    forall i, j | 0 <= i < j < |chosen| ensures chosen[i] != chosen[j] {
      assert StandsBefore(RESOURCE_KEYS, chosen[i], chosen[j]);
      var k, l :| 0 <= k < l < |RESOURCE_KEYS| && RESOURCE_KEYS[k] == chosen[i] && RESOURCE_KEYS[l] == chosen[j];
      KeysDistinct(k, l);
    }
  }

  // ---------------------------------------------------------------- reading it back

  predicate Plain(s: string) {
    forall i | 0 <= i < |s| :: s[i] != '\r' && s[i] != '\n'
  }

  lemma {:induction false} QuotedPlain(keys: seq<string>)
    requires AllSimple(keys)
    ensures Plain(Quoted(keys))
  {
    if keys != [] {
      assert Simple(keys[0]);
      QuotedPlain(keys[1..]);
    }
  }

  lemma CanonicalPlain(requested: set<string>)
    ensures Plain(Stringify(Canonical(requested)))
  {
    CanonicalSimple(requested);
    QuotedPlain(Canonical(requested));
  }

  lemma {:induction false} SimpleUnescaped(key: string)
    requires Simple(key)
    ensures C.EscapeAll(key) == key
  {
    if key != "" {
      assert KeyChar(key[0]);
      SimpleUnescaped(key[1..]);
      assert key == [key[0]] + key[1..];
    }
  }

  function Texts(keys: seq<string>): seq<string> {
    seq(|keys|, i requires 0 <= i < |keys| => C.Quote(keys[i]))
  }

  function Values(keys: seq<string>): seq<C.Json> {
    seq(|keys|, i requires 0 <= i < |keys| => C.Str(keys[i]))
  }

  lemma {:induction false} QuotedJoins(keys: seq<string>)
    requires AllSimple(keys)
    ensures Quoted(keys) == C.Join(Texts(keys))
  {
    if keys != [] {
      assert Simple(keys[0]);
      SimpleUnescaped(keys[0]);
      QuotedJoins(keys[1..]);
      assert Texts(keys)[0] == "\"" + keys[0] + "\"" && Texts(keys)[1..] == Texts(keys[1..]);
    }
  }

  lemma ValuesRead(keys: seq<string>)
    ensures R.AllRead(Texts(keys), Values(keys))
  {
    forall i | 0 <= i < |keys| ensures R.ReadsTo(Texts(keys)[i], Values(keys)[i]) {
      R.StringReads(keys[i]);
    }
  }

  lemma Bracketed(q: string, x: string)
    ensures "[" + q + "]" + x == "[" + (q + ("]" + x))
  {
  }

  lemma ArrayRead(keys: seq<string>)
    requires AllSimple(keys)
    ensures R.ReadsTo("[" + Quoted(keys) + "]", C.Arr(Values(keys)))
  {
    ValuesRead(keys);
    QuotedJoins(keys);
    forall x | C.Stop(x) ensures R.ReadValue("[" + Quoted(keys) + "]" + x) == Some((C.Arr(Values(keys)), x)) {
      R.BracketsRead(Texts(keys), Values(keys), x);
      Bracketed(Quoted(keys), x);
    }
  }

  /** The payload that the server means: an object with the one property `changed`, the list of the keys. */
  function Payload(keys: seq<string>): C.Json {
    C.Obj([C.Field("changed", C.Arr(Values(keys)))])
  }

  function Member(item: R.Item): string {
    C.Quote(item.key) + ":" + item.text + "}"
  }

  lemma OneMemberReads(item: R.Item)
    requires R.ReadsTo(item.text, item.w)
    ensures R.ReadValue("{" + Member(item)) == Some((C.Obj([C.Field(item.key, item.w)]), ""))
  {
    R.LastMember(item, "");
    assert "}" + "" == "}";
    R.BracedRead(Member(item), [C.Field(item.key, item.w)], "");
  }

  lemma Assembled(q: string)
    ensures "{\"changed\":[" + q + "]}" == "{" + ("\"changed\"" + ":" + ("[" + q + "]") + "}")
  {
    assert "{\"changed\":[" == "{" + ("\"changed\"" + ":" + "[") && "]}" == "]" + "}";
  }

  lemma ChangedQuoted()
    ensures C.Quote("changed") == "\"changed\""
  {
    assert "\"changed\"" == "\"" + "changed" + "\"";
    SimpleUnescaped("changed");
  }

  lemma PayloadReads(keys: seq<string>)
    requires AllSimple(keys)
    ensures R.ReadText(Stringify(keys)) == Some(Payload(keys))
  {
    var item := R.Item("changed", "[" + Quoted(keys) + "]", C.Arr(Values(keys)));
    ArrayRead(keys);
    OneMemberReads(item);
    ChangedQuoted();
    Assembled(Quoted(keys));
  }

  lemma {:induction false} StringsOfValues(keys: seq<string>)
    ensures Strings(Values(keys)) == keys
  {
    if keys != [] {
      StringsOfValues(keys[..|keys|-1]);
      assert Values(keys)[..|keys|-1] == Values(keys[..|keys|-1]);
    }
  }

  /** The data line of every publish is JSON text, and what a reader of JSON text finds under `changed` is the list of
      the keys. */
  lemma PayloadExactly(requested: set<string>)
    ensures var text := Stringify(Canonical(requested));
            R.ReadText(text).Some? && ChangedOf(R.ReadText(text).value) == Some(Canonical(requested))
  {
    CanonicalSimple(requested);
    PayloadReads(Canonical(requested));
    StringsOfValues(Canonical(requested));
  }

  lemma PayloadParsed(requested: set<string>, parse: JsonParse)
    requires Agrees(parse)
    ensures parse(Stringify(Canonical(requested))) == Some(Canonical(requested))
  {
    PayloadExactly(requested);
  }
}
