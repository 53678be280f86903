/**
 A reader of JSON text (RFC 8259, sections 3 to 7, without optional white space), on its own, and what it finds in a
 canonical text.
 */
module JsonReader {
  import opened Prelude
  import opened StableSort
  import opened CanonicalJson

  // ---------------------------------------------------------------------- the reader

  predicate First(s: string, c: char) {
    s != "" && s[0] == c
  }

  predicate Starts(s: string, word: string) {
    |word| <= |s| && s[..|word|] == word
  }

  function HexValue(c: char): Option<nat> {
    if '0' <= c <= '9' then Some(c as int - '0' as int)
    else if 'a' <= c <= 'f' then Some(c as int - 'a' as int + 10)
    else if 'A' <= c <= 'F' then Some(c as int - 'A' as int + 10)
    else None
  }

  function HexNumber(s: string): Option<nat> {
    if s == "" then Some(0)
    else
      var high :- HexNumber(s[..|s|-1]);
      var low :- HexValue(s[|s|-1]);
      Some(16 * high + low)
  }

  /** The character that a two-character escape stands for. */
  function Unescaped(c: char): Option<char> {
    match c
    case '"' => Some('"')
    case '\\' => Some('\\')
    case '/' => Some('/')
    case 'b' => Some(8 as char)
    case 'f' => Some(12 as char)
    case 'n' => Some(10 as char)
    case 'r' => Some(13 as char)
    case 't' => Some(9 as char)
    case _ => None
  }

  /** The first character of a string's text and what follows it. */
  function ReadChar(s: string): (r: Option<(char, string)>)
    ensures r.Some? ==> |r.value.1| < |s|
  {
    if s == "" || s[0] == '"' || s[0] as int < 32 then None
    else if s[0] != '\\' then Some((s[0], s[1..]))
    else if |s| >= 6 && s[1] == 'u' then
      var code :- HexNumber(s[2..6]);
      if code < 0xD800 || 0xE000 <= code < 0x10000 then Some((code as char, s[6..])) else None
    else if |s| >= 2 then
      var c :- Unescaped(s[1]);
      Some((c, s[2..]))
    else None
  }

  /** The rest of a string and what follows its closing quote. */
  function ReadChars(s: string): (r: Option<(string, string)>)
    ensures r.Some? ==> |r.value.1| < |s|
    decreases |s|
  {
    if s != "" && s[0] == '"' then Some(("", s[1..]))
    else
      var c :- ReadChar(s);
      var more :- ReadChars(c.1);
      Some(([c.0] + more.0, more.1))
  }

  /** A value without parts. */
  function ReadPlain(s: string): (r: Option<(Json, string)>)
    ensures r.Some? ==> |r.value.1| < |s|
  {
    if Starts(s, "null") then Some((Null, s[4..]))
    else if Starts(s, "true") then Some((Bool(true), s[4..]))
    else if Starts(s, "false") then Some((Bool(false), s[5..]))
    else
      var n :- NumberEnd(s);
      Some((Num(s[..n]), s[n..]))
  }

  /** The value that a text begins with and what follows it. */
  function ReadValue(s: string): (r: Option<(Json, string)>)
    ensures r.Some? ==> |r.value.1| < |s|
    decreases |s|, 0
  {
    if First(s, '"') then
      var r :- ReadChars(s[1..]);
      Some((Str(r.0), r.1))
    else if First(s, '[') then
      if First(s[1..], ']') then Some((Arr([]), s[2..]))
      else
        var r :- ReadItems(s[1..]);
        Some((Arr(r.0), r.1))
    else if First(s, '{') then
      if First(s[1..], '}') then Some((Obj([]), s[2..]))
      else
        var r :- ReadMembers(s[1..]);
        Some((Obj(r.0), r.1))
    else ReadPlain(s)
  }

  /** The items up to the closing bracket. */
  function ReadItems(s: string): (r: Option<(seq<Json>, string)>)
    ensures r.Some? ==> |r.value.1| < |s|
    decreases |s|, 1
  {
    var v :- ReadValue(s);
    if First(v.1, ']') then Some(([v.0], v.1[1..]))
    else if First(v.1, ',') then
      var more :- ReadItems(v.1[1..]);
      Some(([v.0] + more.0, more.1))
    else None
  }

  /** The members up to the closing brace. */
  function ReadMembers(s: string): (r: Option<(seq<Field>, string)>)
    ensures r.Some? ==> |r.value.1| < |s|
    decreases |s|, 1
  {
    if !First(s, '"') then None
    else
      var key :- ReadChars(s[1..]);
      if !First(key.1, ':') then None
      else
        var v :- ReadValue(key.1[1..]);
        var member := Field(key.0, v.0);
        if First(v.1, '}') then Some(([member], v.1[1..]))
        else if First(v.1, ',') then
          var more :- ReadMembers(v.1[1..]);
          Some(([member] + more.0, more.1))
        else None
  }

  /** A whole text. */
  function ReadText(s: string): Option<Json> {
    var r :- ReadValue(s);
    if r.1 == "" then Some(r.0) else None
  }

  // -------------------------------------------------------- what a canonical text says

  /** `a` stands before `b`: it ends where `b` goes on, or has the smaller character where they first differ. */
  ghost predicate Before(a: string, b: string) {
    exists k: nat :: DivergesAt(a, b, k)
  }

  ghost predicate DivergesAt(a: string, b: string, k: nat) {
    k <= |a| && k < |b| && a[..k] == b[..k] && (k == |a| || a[k] < b[k])
  }

  ghost predicate Ascending(fields: seq<Field>) {
    forall i, j | 0 <= i < j < |fields| :: Before(fields[i].key, fields[j].key)
  }

  /** `w` is `v` with `undefined` as `null` and, at every depth, the properties of objects in ascending order. */
  ghost predicate Says(w: Json, v: Json)
    decreases v
  {
    match v
    case Undefined => w == Null
    case Arr(items) =>
      w.Arr? && |w.items| == |items| && forall i | 0 <= i < |items| :: Says(w.items[i], items[i])
    case Obj(fields) =>
      && w.Obj? && |w.fields| == |fields| && Ascending(w.fields)
      && forall i | 0 <= i < |fields| ::
           exists j | 0 <= j < |w.fields| ::
             w.fields[j].key == fields[i].key && Says(w.fields[j].value, fields[i].value)
    case _ => w == v
  }

  lemma DivergesStep(c: char, a: string, b: string, k: nat)
    ensures DivergesAt([c] + a, [c] + b, k + 1) <==> DivergesAt(a, b, k)
  {
    var u, v := [c] + a, [c] + b;
    if k <= |a| && k < |b| {
      assert u[..k+1] == [c] + a[..k] && v[..k+1] == [c] + b[..k];
      assert u[..k+1][1..] == a[..k] && v[..k+1][1..] == b[..k];
    }
  }

  lemma BeforeStep(c: char, a: string, b: string)
    ensures Before([c] + a, [c] + b) <==> Before(a, b)
  {
    if k: nat :| DivergesAt(a, b, k) { DivergesStep(c, a, b, k); }
    if k: nat :| DivergesAt([c] + a, [c] + b, k) {
      assert k > 0;
      DivergesStep(c, a, b, k - 1);
    }
  }

  lemma BeforeAtOnce(a: string, b: string)
    requires a == "" || b == "" || a[0] != b[0]
    ensures Before(a, b) <==> b != "" && (a == "" || a[0] < b[0])
  {
    forall k: nat | 0 < k <= |a| && k <= |b| ensures a[..k] != b[..k] {
      assert a[..k][0] == a[0] && b[..k][0] == b[0];
    }
    assert b != "" ==> a[..0] == b[..0] && (DivergesAt(a, b, 0) <==> a == "" || a[0] < b[0]);
  }

  lemma {:induction false} CompareKeysExactly(a: string, b: string)
    ensures CompareKeys(a, b) < 0 <==> Before(a, b)
  {
    if a == "" || b == "" || a[0] != b[0] {
      BeforeAtOnce(a, b);
    } else {
      assert a == [a[0]] + a[1..] && b == [b[0]] + b[1..];
      CompareKeysExactly(a[1..], b[1..]);
      BeforeStep(a[0], a[1..], b[1..]);
    }
  }

  // ----------------------------------------------------------------- reading strings

  lemma HexDigits(n: nat)
    requires n < 16
    ensures HexValue(HexDigit(n)) == Some(n)
  {
  }

  lemma HexStep(s: string, d: nat)
    requires d < 16 && HexNumber(s).Some?
    ensures HexNumber(s + [HexDigit(d)]) == Some(16 * HexNumber(s).value + d)
  {
    HexDigits(d);
    assert (s + [HexDigit(d)])[..|s|] == s;
  }

  lemma ControlRead(c: char)
    requires c as int < 32
    ensures HexNumber(['0', '0', HexDigit(c as int / 16), HexDigit(c as int % 16)]) == Some(c as int)
  {
    HexStep("", 0);
    HexStep("0", 0);
    HexStep("00", c as int / 16);
    HexStep("00" + [HexDigit(c as int / 16)], c as int % 16);
    assert "" + ['0'] == "0" && "0" + ['0'] == "00";
    assert "00" + [HexDigit(c as int / 16)] + [HexDigit(c as int % 16)] ==
           ['0', '0', HexDigit(c as int / 16), HexDigit(c as int % 16)];
  }

  /** One escaped character is read back. */
  lemma CharRead(c: char, y: string)
    ensures ReadChar(Escape(c) + y) == Some((c, y))
  {
    var e := Escape(c);
    assert (e + y)[|e|..] == y;
    if |e| == 6 {
      ControlRead(c);
      assert (e + y)[2..6] == ['0', '0', HexDigit(c as int / 16), HexDigit(c as int % 16)];
    }
  }

  lemma {:induction false} CharsRead(s: string, x: string)
    ensures ReadChars(Closing(s, x)) == Some((s, x))
  {
    ClosingStep(s, x);
    if s != "" {
      CharRead(s[0], Closing(s[1..], x));
      CharsRead(s[1..], x);
      assert s == [s[0]] + s[1..];
    }
  }

  // ------------------------------------------------------------------ reading values

  /** Before punctuation, `text` is read as `w`. */
  ghost predicate ReadsTo(text: string, w: Json) {
    forall x | Stop(x) :: ReadValue(text + x) == Some((w, x))
  }

  lemma QuotedRead(rest: string, v: string, x: string)
    requires ReadChars(rest) == Some((v, x))
    ensures ReadValue("\"" + rest) == Some((Str(v), x))
  {
    assert ("\"" + rest)[1..] == rest;
  }

  lemma StringReads(s: string)
    ensures ReadsTo(Quote(s), Str(s))
  {
    forall x | Stop(x) ensures ReadValue(Quote(s) + x) == Some((Str(s), x)) {
      assert Quote(s) + x == "\"" + Closing(s, x);
      CharsRead(s, x);
      QuotedRead(Closing(s, x), s, x);
    }
  }

  lemma {:induction false} DigitsEndHere(s: string, x: string, from: nat)
    requires from <= |s| && Stop(x)
    ensures DigitsEnd(s + x, from) == DigitsEnd(s, from)
    decreases |s| - from
  {
    if from < |s| && Digit(s[from]) {
      DigitsEndHere(s, x, from + 1);
    }
  }

  lemma FractionEndHere(s: string, x: string, from: nat)
    requires from <= |s| && Stop(x)
    ensures FractionEnd(s + x, from) == FractionEnd(s, from)
  {
    if from < |s| { DigitsEndHere(s, x, from + 1); }
  }

  lemma ExponentEndHere(s: string, x: string, from: nat)
    requires from <= |s| && Stop(x)
    ensures ExponentEnd(s + x, from) == ExponentEnd(s, from)
  {
    if from < |s| { DigitsEndHere(s, x, from + 1); }
    if from + 1 < |s| { DigitsEndHere(s, x, from + 2); }
  }

  /** A number ends before punctuation. */
  lemma NumberEndHere(s: string, x: string)
    requires NumberText(s) && Stop(x)
    ensures NumberEnd(s + x) == Some(|s|)
  {
    var start := if s[0] == '-' then 1 else 0;
    var whole := DigitsEnd(s, start);
    DigitsEndHere(s, x, start);
    FractionEndHere(s, x, whole);
    ExponentEndHere(s, x, FractionEnd(s, whole).value);
  }

  lemma PlainReadsAt(s: string)
    requires s != "" && s[0] !in {'"', '[', '{'}
    ensures ReadValue(s) == ReadPlain(s)
  {
  }

  lemma PlainReads(text: string, w: Json)
    requires forall x | Stop(x) :: ReadPlain(text + x) == Some((w, x))
    requires text != "" && text[0] !in {'"', '[', '{'}
    ensures ReadsTo(text, w)
  {
    forall x | Stop(x) ensures ReadValue(text + x) == Some((w, x)) {
      assert (text + x)[0] == text[0];
      PlainReadsAt(text + x);
    }
  }

  lemma PlainNumber(s: string, n: nat)
    requires NumberEnd(s) == Some(n)
    ensures ReadPlain(s) == Some((Num(s[..n]), s[n..]))
  {
  }

  lemma NumberReads(text: string)
    requires NumberText(text)
    ensures ReadsTo(text, Num(text))
  {
    forall x | Stop(x) ensures ReadPlain(text + x) == Some((Num(text), x)) {
      NumberEndHere(text, x);
      PlainNumber(text + x, |text|);
      assert (text + x)[..|text|] == text && (text + x)[|text|..] == x;
    }
    PlainReads(text, Num(text));
  }

  lemma WordReads(word: string, w: Json)
    requires (word, w) in {("null", Null), ("true", Bool(true)), ("false", Bool(false))}
    ensures ReadsTo(word, w)
  {
    forall x | Stop(x) ensures ReadPlain(word + x) == Some((w, x)) {
      assert (word + x)[0] == word[0] && (word + x)[..|word|] == word && (word + x)[|word|..] == x;
    }
    PlainReads(word, w);
  }

  ghost predicate AllRead(texts: seq<string>, ws: seq<Json>) {
    |texts| == |ws| && forall i | 0 <= i < |texts| :: ReadsTo(texts[i], ws[i])
  }

  /** The items of a list, up to its bracket. */
  lemma {:induction false} ItemsRead(texts: seq<string>, ws: seq<Json>, x: string)
    requires AllRead(texts, ws) && texts != []
    ensures ItemsAs(Listed(texts, "]" + x), ws, x)
    decreases |texts|
  {
    var close := "]" + x;
    var tail := Tail(texts[1..], close);
    ListedStep(texts, close);
    TailStops(texts[1..], close);
    assert ReadsTo(texts[0], ws[0]);
    assert ReadValue(texts[0] + tail) == Some((ws[0], tail));
    assert close[1..] == x;
    if |texts| == 1 {
      assert ws == [ws[0]];
    } else {
      ItemsRead(texts[1..], ws[1..], x);
      assert tail[1..] == Listed(texts[1..], close);
      assert ws == [ws[0]] + ws[1..];
    }
  }

  lemma ArrayReads(items: seq<Json>, ws: seq<Json>)
    requires AllRead(Texts(items), ws)
    ensures ReadsTo(Canonicalize(Arr(items)), Arr(ws))
  {
    forall x | Stop(x) ensures ReadValue(Canonicalize(Arr(items)) + x) == Some((Arr(ws), x)) {
      ArrayReadsAt(items, ws, x);
    }
  }

  ghost predicate ItemsAs(s: string, ws: seq<Json>, x: string) {
    ReadItems(s) == Some((ws, x))
  }

  lemma BracketsRead(texts: seq<string>, ws: seq<Json>, x: string)
    requires AllRead(texts, ws)
    ensures ReadValue("[" + Listed(texts, "]" + x)) == Some((Arr(ws), x))
  {
    var s := "[" + Listed(texts, "]" + x);
    assert s[1..] == Listed(texts, "]" + x);
    ListedStep(texts, "]" + x);
    if texts == [] {
      assert s == "[]" + x && s[2..] == x;
    } else {
      ItemsRead(texts, ws, x);
      FirstIsNot(texts, ws, "]" + x, ']');
    }
  }

  lemma ArrayReadsAt(items: seq<Json>, ws: seq<Json>, x: string)
    requires AllRead(Texts(items), ws)
    ensures ReadValue(Canonicalize(Arr(items)) + x) == Some((Arr(ws), x))
  {
    var s := Canonicalize(Arr(items)) + x;
    ListText(Arr(items), x);
    BracketsRead(Texts(items), ws, x);
    assert s == "[" + s[1..];
  }

  /** A text that is read as a value does not begin with punctuation. */
  lemma FirstIsNot(texts: seq<string>, ws: seq<Json>, close: string, c: char)
    requires AllRead(texts, ws) && texts != [] && c in {']', '}'}
    ensures Listed(texts, close) != "" && Listed(texts, close)[0] != c
  {
    ListedStep(texts, close);
    assert ReadsTo(texts[0], ws[0]);
    assert Stop("") && ReadValue(texts[0] + "") == Some((ws[0], ""));
    assert texts[0] + "" == texts[0];
  }

  // ------------------------------------------------------------------ reading objects

  /** A property on its way through the sort: its key, its text and what that is read as. */
  datatype Item = Item(key: string, text: string, w: Json)

  const BY_ITEM: Comparator<Item> := (a: Item, b: Item) => CompareKeys(a.key, b.key)
  const ENTRY: Item -> Entry := (i: Item) => Entry(i.key, i.text)

  ghost predicate ItemsOf(items: seq<Item>, fields: seq<Field>) {
    && |items| == |fields|
    && forall i | 0 <= i < |fields| ::
         items[i].key == fields[i].key && items[i].text == Canonicalize(fields[i].value)
         && ReadsTo(items[i].text, items[i].w)
  }

  lemma SortedEntries(fields: seq<Field>, items: seq<Item>)
    requires ItemsOf(items, fields)
    ensures Properties(fields) == Map(PROPERTY, Map(ENTRY, Sort(items, BY_ITEM)))
  {
    SortMap(ENTRY, BY_ITEM, BY_KEY, items);
    assert Map(ENTRY, items) == Entries(fields);
  }

  function Members(items: seq<Item>): seq<Field> {
    seq(|items|, i requires 0 <= i < |items| => Field(items[i].key, items[i].w))
  }

  ghost predicate AllItemsRead(items: seq<Item>) {
    forall i | 0 <= i < |items| :: ReadsTo(items[i].text, items[i].w)
  }

  function PropertyTexts(items: seq<Item>): seq<string> {
    seq(|items|, i requires 0 <= i < |items| => Quote(items[i].key) + ":" + items[i].text)
  }

  /** One member: its key, its colon, its value. */
  lemma MemberRead(item: Item, tail: string)
    requires ReadsTo(item.text, item.w) && Stop(tail)
    ensures var s := Quote(item.key) + ":" + item.text + tail;
            && First(s, '"')
            && ReadChars(s[1..]) == Some((item.key, ":" + (item.text + tail)))
            && ReadValue((":" + (item.text + tail))[1..]) == Some((item.w, tail))
  {
    var s := Quote(item.key) + ":" + item.text + tail;
    assert s == Quote(item.key) + (":" + (item.text + tail));
    assert s[1..] == Closing(item.key, ":" + (item.text + tail));
    CharsRead(item.key, ":" + (item.text + tail));
    assert (":" + (item.text + tail))[1..] == item.text + tail;
  }

  ghost predicate MembersAs(s: string, fields: seq<Field>, x: string) {
    ReadMembers(s) == Some((fields, x))
  }

  lemma LastMember(item: Item, x: string)
    requires ReadsTo(item.text, item.w)
    ensures MembersAs(Quote(item.key) + ":" + item.text + ("}" + x), [Field(item.key, item.w)], x)
  {
    MemberRead(item, "}" + x);
    assert ("}" + x)[1..] == x;
  }

  lemma NextMember(item: Item, rest: string, more: seq<Field>, x: string)
    requires ReadsTo(item.text, item.w) && MembersAs(rest, more, x)
    ensures MembersAs(Quote(item.key) + ":" + item.text + ("," + rest), [Field(item.key, item.w)] + more, x)
  {
    MemberRead(item, "," + rest);
    assert ("," + rest)[1..] == rest;
  }

  lemma ItemsStep(items: seq<Item>)
    requires items != []
    ensures PropertyTexts(items)[1..] == PropertyTexts(items[1..])
    ensures Members(items) == [Field(items[0].key, items[0].w)] + Members(items[1..])
  {
  }

  lemma {:induction false} MembersRead(items: seq<Item>, x: string)
    requires AllItemsRead(items) && items != []
    ensures MembersAs(Listed(PropertyTexts(items), "}" + x), Members(items), x)
    decreases |items|
  {
    var texts, close := PropertyTexts(items), "}" + x;
    ListedStep(texts, close);
    if |items| == 1 {
      LastMember(items[0], x);
      assert texts[1..] == [] && Members(items) == [Field(items[0].key, items[0].w)];
    } else {
      MembersRead(items[1..], x);
      ItemsStep(items);
      NextMember(items[0], Listed(texts[1..], close), Members(items[1..]), x);
    }
  }

  lemma BracedRead(rest: string, fields: seq<Field>, x: string)
    requires First(rest, '"') && MembersAs(rest, fields, x)
    ensures ReadValue("{" + rest) == Some((Obj(fields), x))
  {
    assert ("{" + rest)[1..] == rest;
  }

  lemma BracesRead(texts: seq<string>, items: seq<Item>, x: string)
    requires AllItemsRead(items) && texts == PropertyTexts(items)
    ensures ReadValue("{" + Listed(texts, "}" + x)) == Some((Obj(Members(items)), x))
  {
    ListedStep(texts, "}" + x);
    if items == [] {
      var s := "{" + Listed(texts, "}" + x);
      assert s == "{}" + x && s[2..] == x && s[1..][0] == '}';
      assert Members(items) == [];
    } else {
      MembersRead(items, x);
      BracedRead(Listed(texts, "}" + x), Members(items), x);
    }
  }

  lemma ObjectReadsAt(fields: seq<Field>, items: seq<Item>, x: string)
    requires ItemsOf(items, fields) && AllItemsRead(Sort(items, BY_ITEM))
    ensures ReadValue(Canonicalize(Obj(fields)) + x) == Some((Obj(Members(Sort(items, BY_ITEM))), x))
  {
    var s, sorted := Canonicalize(Obj(fields)) + x, Sort(items, BY_ITEM);
    ListText(Obj(fields), x);
    SortedEntries(fields, items);
    assert Properties(fields) == PropertyTexts(sorted);
    BracesRead(Properties(fields), sorted, x);
    assert s == "{" + s[1..];
  }

  lemma ItemMembers(items: seq<Item>)
    ensures |Sort(items, BY_ITEM)| == |items|
    ensures forall i :: i in Sort(items, BY_ITEM) <==> i in items
  {
    SortPermutes(items, BY_ITEM);
    assert |multiset(Sort(items, BY_ITEM))| == |Sort(items, BY_ITEM)| && |multiset(items)| == |items|;
    forall i ensures i in Sort(items, BY_ITEM) <==> i in items {
      assert i in multiset(Sort(items, BY_ITEM)) <==> i in multiset(items);
    }
  }

  lemma ByItemOrders()
    ensures Ordering(BY_ITEM)
  {
    forall x: Item, y: Item ensures BY_ITEM(x, y) > 0 <==> BY_ITEM(y, x) < 0 {
      CompareAntisymmetric(x.key, y.key);
    }
    forall x: Item, y: Item, z: Item | BY_ITEM(x, y) <= 0 && BY_ITEM(y, z) <= 0 ensures BY_ITEM(x, z) <= 0 {
      CompareTransitive(x.key, y.key, z.key);
    }
  }

  ghost predicate KeysDiffer(items: seq<Item>) {
    forall i, j | 0 <= i < j < |items| :: items[i].key != items[j].key
  }

  lemma SortedKeysDiffer(items: seq<Item>, i: nat, j: nat)
    requires KeysDiffer(items) && i < j < |Sort(items, BY_ITEM)|
    ensures Sort(items, BY_ITEM)[i].key != Sort(items, BY_ITEM)[j].key
  {
    var sorted := Sort(items, BY_ITEM);
    ItemMembers(items);
    SortPermutes(items, BY_ITEM);
    PermutedDistinct(items, sorted, i, j);
    assert sorted[i] in items && sorted[j] in items;
    var k :| 0 <= k < |items| && items[k] == sorted[i];
    var l :| 0 <= l < |items| && items[l] == sorted[j];
    assert k != l;
  }

  /** Sorted members of distinct keys ascend. */
  lemma SortedAscend(items: seq<Item>)
    requires KeysDiffer(items)
    ensures Ascending(Members(Sort(items, BY_ITEM)))
  {
    var sorted := Sort(items, BY_ITEM);
    ByItemOrders();
    SortSorted(items, BY_ITEM);
    forall i, j | 0 <= i < j < |sorted| ensures Before(sorted[i].key, sorted[j].key) {
      SortedAt(sorted, BY_ITEM, i, j);
      SortedKeysDiffer(items, i, j);
      CompareAntisymmetric(sorted[i].key, sorted[j].key);
      CompareKeysExactly(sorted[i].key, sorted[j].key);
    }
  }

  // --------------------------------------------------------------------- the theorem

  /** `w` is what the text of `v` is read as, and says `v`. */
  ghost predicate Found(v: Json, w: Json) {
    Says(w, v) && ReadsTo(Canonicalize(v), w)
  }

  lemma {:induction false} ReadsBack(v: Json) returns (w: Json)
    requires Wellformed(v)
    ensures Found(v, w)
    decreases v, 1
  {
    match v
    case Undefined => w := Null; WordReads("null", w);
    case Null => w := Null; WordReads("null", w);
    case Bool(b) => w := v; WordReads(if b then "true" else "false", w);
    case Num(text) => w := v; NumberReads(text);
    case Str(s) => w := v; StringReads(s);
    case Arr(items) =>
      var ws := AllFound(items, v);
      w := Arr(ws);
      ArrayReads(items, ws);
    case Obj(fields) =>
      var values := seq(|fields|, i requires 0 <= i < |fields| => fields[i].value);
      var ws := AllFound(values, v);
      w := ObjectFound(fields, ws);
  }

  lemma {:induction false} AllFound(vs: seq<Json>, parent: Json) returns (ws: seq<Json>)
    requires forall i | 0 <= i < |vs| :: Wellformed(vs[i]) && vs[i] < parent
    ensures |ws| == |vs| && forall i | 0 <= i < |vs| :: Found(vs[i], ws[i])
    decreases parent, 0, |vs|
  {
    if vs == [] {
      ws := [];
    } else {
      var init := AllFound(vs[..|vs|-1], parent);
      var last := ReadsBack(vs[|vs|-1]);
      ws := init + [last];
    }
  }

  /** Every property is found again. */
  ghost predicate AllSaid(members: seq<Field>, fields: seq<Field>) {
    forall i | 0 <= i < |fields| ::
      exists j | 0 <= j < |members| :: members[j].key == fields[i].key && Says(members[j].value, fields[i].value)
  }

  lemma MembersSay(items: seq<Item>, fields: seq<Field>)
    requires |items| == |fields|
    requires forall i | 0 <= i < |fields| :: items[i].key == fields[i].key && Says(items[i].w, fields[i].value)
    ensures |Members(Sort(items, BY_ITEM))| == |fields| && AllSaid(Members(Sort(items, BY_ITEM)), fields)
  {
    var sorted := Sort(items, BY_ITEM);
    ItemMembers(items);
    forall i | 0 <= i < |fields|
      ensures exists j | 0 <= j < |Members(sorted)| ::
                Members(sorted)[j].key == fields[i].key && Says(Members(sorted)[j].value, fields[i].value)
    {
      assert items[i] in sorted;
      var j :| 0 <= j < |sorted| && sorted[j] == items[i];
      assert Members(sorted)[j] == Field(items[i].key, items[i].w);
    }
  }

  lemma ObjectReads(fields: seq<Field>, items: seq<Item>)
    requires ItemsOf(items, fields)
    ensures ReadsTo(Canonicalize(Obj(fields)), Obj(Members(Sort(items, BY_ITEM))))
  {
    ItemMembers(items);
    forall i | 0 <= i < |Sort(items, BY_ITEM)|
      ensures ReadsTo(Sort(items, BY_ITEM)[i].text, Sort(items, BY_ITEM)[i].w)
    {
      assert Sort(items, BY_ITEM)[i] in items;
    }
    forall x | Stop(x)
      ensures ReadValue(Canonicalize(Obj(fields)) + x) == Some((Obj(Members(Sort(items, BY_ITEM))), x))
    {
      ObjectReadsAt(fields, items, x);
    }
  }

  lemma ObjectSays(fields: seq<Field>, items: seq<Item>)
    requires Wellformed(Obj(fields)) && |items| == |fields|
    requires forall i | 0 <= i < |fields| :: items[i].key == fields[i].key && Says(items[i].w, fields[i].value)
    ensures Says(Obj(Members(Sort(items, BY_ITEM))), Obj(fields))
  {
    SortedAscend(items);
    MembersSay(items, fields);
  }

  function ItemsFor(fields: seq<Field>, ws: seq<Json>): seq<Item>
    requires |fields| == |ws|
  {
    seq(|fields|, i requires 0 <= i < |fields| => Item(fields[i].key, Canonicalize(fields[i].value), ws[i]))
  }

  lemma ObjectFound(fields: seq<Field>, ws: seq<Json>) returns (w: Json)
    requires Wellformed(Obj(fields)) && |ws| == |fields|
    requires forall i | 0 <= i < |fields| :: Found(fields[i].value, ws[i])
    ensures Found(Obj(fields), w)
  {
    var items := ItemsFor(fields, ws);
    w := Obj(Members(Sort(items, BY_ITEM)));
    assert forall i | 0 <= i < |fields| :: Found(fields[i].value, items[i].w);
    ObjectReads(fields, items);
    ObjectSays(fields, items);
  }

  /** The canonical text is JSON text: read by itself it gives the value it was written for, `undefined` as `null` and
      the properties of every object in ascending order of their keys. */
  lemma CanonicalReads(v: Json)
    requires Wellformed(v)
    ensures ReadText(Canonicalize(v)).Some? && Says(ReadText(Canonicalize(v)).value, v)
  {
    var w := ReadsBack(v);
    assert Stop("") && Canonicalize(v) + "" == Canonicalize(v);
    assert ReadValue(Canonicalize(v) + "") == Some((w, ""));
  }

  /** A stamped DTO is its properties other than `md5`, each once, and the hash of a text that says just these. */
  lemma StampedExactly(md5: string -> string, fields: seq<Field>) returns (rest: seq<Field>, text: string)
    requires Wellformed(Obj(fields))
    ensures WithMd5(md5, fields) == rest + [Field("md5", Str(md5(text)))]
    ensures NoKeyTwice(rest) && forall f :: f in rest <==> f in fields && f.key != "md5"
    ensures ReadText(text).Some? && Says(ReadText(text).value, Obj(rest))
  {
    rest, text := Rest(fields), HashInput(fields);
    RestOfRest(fields);
    RestWellformed(fields);
    CanonicalReads(Obj(rest));
  }
}
