/**
 The canonical JSON text of a DTO, from which its md5 is taken: object keys are sorted at every depth and `undefined`
 is written as `null`. A number is its text as `JSON.stringify` writes it.
 */
module CanonicalJson {
  import opened Prelude
  import opened StableSort

  datatype Json =
    | Undefined
    | Null
    | Bool(b: bool)
    | Num(text: string)
    | Str(s: string)
    | Arr(items: seq<Json>)
    | Obj(fields: seq<Field>)

  /** A property, in the order in which properties were set. */
  datatype Field = Field(key: string, value: Json)

  predicate Digit(c: char) {
    '0' <= c <= '9'
  }

  function DigitsEnd(s: string, from: nat): (n: nat)
    requires from <= |s|
    ensures from <= n <= |s| && forall i | from <= i < n :: Digit(s[i])
    ensures n < |s| ==> !Digit(s[n])
    decreases |s| - from
  {
    if from < |s| && Digit(s[from]) then DigitsEnd(s, from + 1) else from
  }

  /** Where the fraction that may begin at `from` ends, if it is none or has digits. */
  function FractionEnd(s: string, from: nat): (n: Option<nat>)
    requires from <= |s|
    ensures n.Some? ==> from <= n.value <= |s| && forall i | from <= i < n.value :: NumberChar(s[i])
  {
    if from == |s| || s[from] != '.' then Some(from)
    else if DigitsEnd(s, from + 1) == from + 1 then None
    else Some(DigitsEnd(s, from + 1))
  }

  /** Where the exponent that may begin at `from` ends, if it is none or has digits. */
  function ExponentEnd(s: string, from: nat): (n: Option<nat>)
    requires from <= |s|
    ensures n.Some? ==> from <= n.value <= |s| && forall i | from <= i < n.value :: NumberChar(s[i])
  {
    if from == |s| || s[from] !in {'e', 'E'} then Some(from)
    else
      var digits := if from + 1 < |s| && s[from+1] in {'+', '-'} then from + 2 else from + 1;
      if DigitsEnd(s, digits) == digits then None else Some(DigitsEnd(s, digits))
  }

  /** Where the number at the start of a text ends: an optional minus, digits without a needless zero, fraction and
      exponent (RFC 8259, section 6). */
  function NumberEnd(s: string): (n: Option<nat>)
    ensures n.Some? ==> 0 < n.value <= |s| && forall i | 0 <= i < n.value :: NumberChar(s[i])
    ensures n.Some? ==> Digit(s[0]) || s[0] == '-'
  {
    var start := if s != "" && s[0] == '-' then 1 else 0;
    var whole := DigitsEnd(s, start);
    if whole == start || (s[start] == '0' && whole > start + 1) then None
    else
      var fraction :- FractionEnd(s, whole);
      ExponentEnd(s, fraction)
  }

  predicate NumberChar(c: char) {
    Digit(c) || c in {'-', '+', '.', 'e', 'E'}
  }

  /** A number and nothing else. */
  predicate NumberText(s: string) {
    NumberEnd(s) == Some(|s|)
  }

  /** What JavaScript guarantees: no object has a key twice. */
  ghost predicate Wellformed(v: Json) {
    match v
    case Num(text) => NumberText(text)
    case Arr(items) => forall i | 0 <= i < |items| :: Wellformed(items[i])
    case Obj(fields) =>
      && (forall i | 0 <= i < |fields| :: Wellformed(fields[i].value))
      && (forall i, j | 0 <= i < j < |fields| :: fields[i].key != fields[j].key)
    case _ => true
  }

  // ------------------------------------------------------------- strings and keys

  function HexDigit(n: nat): char
    requires n < 16
  {
    if n < 10 then ('0' as int + n) as char else ('a' as int + (n - 10)) as char
  }

  /** How `JSON.stringify` writes one character of a string. */
  function Escape(c: char): string {
    if c == '"' then "\\\""
    else if c == '\\' then "\\\\"
    else if c as int == 8 then "\\b"
    else if c as int == 12 then "\\f"
    else if c == '\n' then "\\n"
    else if c == '\r' then "\\r"
    else if c == '\t' then "\\t"
    else if c as int < 32 then ['\\', 'u', '0', '0', HexDigit(c as int / 16), HexDigit(c as int % 16)]
    else [c]
  }

  function EscapeAll(s: string): string {
    if s == "" then "" else Escape(s[0]) + EscapeAll(s[1..])
  }

  function Quote(s: string): string {
    "\"" + EscapeAll(s) + "\""
  }

  /** `sort()` without a comparator: character by character. */
  function CompareKeys(a: string, b: string): int {
    if a == "" then (if b == "" then 0 else -1)
    else if b == "" then 1
    else if a[0] < b[0] then -1
    else if a[0] > b[0] then 1
    else CompareKeys(a[1..], b[1..])
  }

  // ---------------------------------------------------------------- canonicalize

  datatype Entry = Entry(key: string, text: string)

  const BY_KEY: Comparator<Entry> := (a: Entry, b: Entry) => CompareKeys(a.key, b.key)

  function Join(texts: seq<string>): string {
    if texts == [] then "" else if |texts| == 1 then texts[0] else texts[0] + "," + Join(texts[1..])
  }

  const PROPERTY: Entry -> string := (e: Entry) => Quote(e.key) + ":" + e.text

  function Canonicalize(v: Json): string {
    match v
    case Undefined => "null"
    case Null => "null"
    case Bool(b) => if b then "true" else "false"
    case Num(text) => text
    case Str(s) => Quote(s)
    case Arr(items) => "[" + Join(seq(|items|, i requires 0 <= i < |items| => Canonicalize(items[i]))) + "]"
    case Obj(fields) =>
      var entries :=
        seq(|fields|, i requires 0 <= i < |fields| => Entry(fields[i].key, Canonicalize(fields[i].value)));
      "{" + Join(Map(PROPERTY, Sort(entries, BY_KEY))) + "}"
  }

  /** Equal up to key order at every depth, `undefined` read as `null`. */
  ghost predicate Same(a: Json, b: Json)
    decreases a
  {
    match a
    case Undefined => b.Undefined? || b.Null?
    case Null => b.Undefined? || b.Null?
    case Arr(xs) => b.Arr? && |xs| == |b.items| && forall i | 0 <= i < |xs| :: Same(xs[i], b.items[i])
    case Obj(fs) =>
      && b.Obj? && |fs| == |b.fields|
      && forall i | 0 <= i < |fs| ::
           exists j | 0 <= j < |b.fields| :: fs[i].key == b.fields[j].key && Same(fs[i].value, b.fields[j].value)
    case _ => a == b
  }

  // ------------------------------------------------------------------- key order

  lemma {:induction false} CompareAntisymmetric(a: string, b: string)
    ensures CompareKeys(a, b) > 0 <==> CompareKeys(b, a) < 0
    ensures CompareKeys(a, b) == 0 <==> a == b
  {
    if a != "" && b != "" && a[0] == b[0] {
      CompareAntisymmetric(a[1..], b[1..]);
      assert a == [a[0]] + a[1..] && b == [b[0]] + b[1..];
    }
  }

  lemma {:induction false} CompareTransitive(a: string, b: string, c: string)
    requires CompareKeys(a, b) <= 0 && CompareKeys(b, c) <= 0
    ensures CompareKeys(a, c) <= 0
  {
    if a != "" && b != "" && c != "" && a[0] == b[0] == c[0] {
      CompareTransitive(a[1..], b[1..], c[1..]);
    }
  }

  lemma ByKeyOrders()
    ensures Ordering(BY_KEY)
  {
    forall x: Entry, y: Entry ensures BY_KEY(x, y) > 0 <==> BY_KEY(y, x) < 0 {
      CompareAntisymmetric(x.key, y.key);
    }
    forall x: Entry, y: Entry, z: Entry | BY_KEY(x, y) <= 0 && BY_KEY(y, z) <= 0 ensures BY_KEY(x, z) <= 0 {
      CompareTransitive(x.key, y.key, z.key);
    }
  }

  ghost predicate DistinctKeys(es: seq<Entry>) {
    forall i, j | 0 <= i < j < |es| :: es[i].key != es[j].key
  }

  ghost predicate SameMembers(xs: seq<Entry>, ys: seq<Entry>) {
    forall e :: e in xs <==> e in ys
  }

  lemma LastIsGreatest(xs: seq<Entry>, e: Entry, i: nat)
    requires Sorted(xs, BY_KEY) && i < |xs| && xs[i] == e
    ensures CompareKeys(e.key, xs[|xs|-1].key) <= 0
  {
    if i < |xs| - 1 {
      SortedAt(xs, BY_KEY, i, |xs| - 1);
      assert BY_KEY(e, xs[|xs|-1]) <= 0;
    } else {
      CompareAntisymmetric(e.key, e.key);
    }
  }

  lemma LastsEqual(xs: seq<Entry>, ys: seq<Entry>)
    requires Sorted(xs, BY_KEY) && Sorted(ys, BY_KEY) && DistinctKeys(xs) && SameMembers(xs, ys) && xs != [] && ys != []
    ensures xs[|xs|-1] == ys[|ys|-1]
  {
    var x, y := xs[|xs|-1], ys[|ys|-1];
    assert x in xs && y in ys;
    var i :| 0 <= i < |xs| && xs[i] == y;
    var j :| 0 <= j < |ys| && ys[j] == x;
    LastIsGreatest(ys, x, j);
    LastIsGreatest(xs, y, i);
    CompareAntisymmetric(x.key, y.key);
    CompareAntisymmetric(y.key, x.key);
    assert xs[i].key == x.key;
  }

  lemma InitMembers(xs: seq<Entry>, e: Entry)
    requires DistinctKeys(xs) && xs != []
    ensures e in xs[..|xs|-1] <==> e in xs && e != xs[|xs|-1]
  {
  }

  /** Sorted lists of distinct keys with the same members are equal. */
  lemma {:induction false} SortedUnique(xs: seq<Entry>, ys: seq<Entry>)
    requires Sorted(xs, BY_KEY) && Sorted(ys, BY_KEY) && DistinctKeys(xs) && DistinctKeys(ys) && SameMembers(xs, ys)
    ensures xs == ys
  {
    assert ys == [] || ys[0] in ys;
    assert xs == [] || xs[0] in xs;
    if xs != [] {
      LastsEqual(xs, ys);
      var xi, yi := xs[..|xs|-1], ys[..|ys|-1];
      forall e ensures e in xi <==> e in yi {
        InitMembers(xs, e);
        InitMembers(ys, e);
      }
      SortedUnique(xi, yi);
      assert xs == xi + [xs[|xs|-1]] && ys == yi + [xs[|xs|-1]];
    }
  }

  lemma SortMembers(xs: seq<Entry>)
    ensures SameMembers(Sort(xs, BY_KEY), xs) && |Sort(xs, BY_KEY)| == |xs|
  {
    SortPermutes(xs, BY_KEY);
    forall e ensures e in Sort(xs, BY_KEY) <==> e in xs {
      assert e in multiset(Sort(xs, BY_KEY)) <==> e in multiset(xs);
    }
  }

  // ------------------------------------------- the text does not depend on key order

  function Entries(fields: seq<Field>): seq<Entry> {
    seq(|fields|, i requires 0 <= i < |fields| => Entry(fields[i].key, Canonicalize(fields[i].value)))
  }

  /** An injection into a list of the same length without repetitions hits every member. */
  lemma {:induction false} SubsetOfSameLength(xs: seq<Entry>, ys: seq<Entry>)
    requires |xs| == |ys| && DistinctKeys(xs) && forall i | 0 <= i < |xs| :: xs[i] in ys
    ensures SameMembers(xs, ys)
  {
    if xs == [] {
    } else {
      var n := |xs| - 1;
      var j :| 0 <= j < |ys| && ys[j] == xs[n];
      var rest := ys[..j] + ys[j+1..];
      forall i | 0 <= i < n ensures xs[..n][i] in rest {
        var k :| 0 <= k < |ys| && ys[k] == xs[i];
        assert k != j;
        assert rest[if k < j then k else k - 1] == xs[i];
      }
      SubsetOfSameLength(xs[..n], rest);
      forall e ensures e in xs <==> e in ys {
        assert e in xs <==> e in xs[..n] || e == xs[n];
        assert ys == ys[..j] + [ys[j]] + ys[j+1..];
      }
    }
  }

  lemma SortSameMembers(xs: seq<Entry>, ys: seq<Entry>)
    requires DistinctKeys(xs) && DistinctKeys(ys) && SameMembers(xs, ys)
    ensures Sort(xs, BY_KEY) == Sort(ys, BY_KEY)
  {
    ByKeyOrders();
    SortSorted(xs, BY_KEY);
    SortSorted(ys, BY_KEY);
    SortMembers(xs);
    SortMembers(ys);
    SortDistinct(xs);
    SortDistinct(ys);
    forall e ensures e in Sort(xs, BY_KEY) <==> e in Sort(ys, BY_KEY) {
      assert e in xs <==> e in ys;
    }
    SortedUnique(Sort(xs, BY_KEY), Sort(ys, BY_KEY));
  }

  /** Entries of one list with the same key are the same entry. */
  lemma KeyDetermines(xs: seq<Entry>, a: Entry, b: Entry)
    requires DistinctKeys(xs) && a in xs && b in xs && a.key == b.key
    ensures a == b
  {
    var i :| 0 <= i < |xs| && xs[i] == a;
    var j :| 0 <= j < |xs| && xs[j] == b;
    assert i == j;
  }

  lemma SortDistinct(xs: seq<Entry>)
    requires DistinctKeys(xs)
    ensures DistinctKeys(Sort(xs, BY_KEY))
  {
    var ys := Sort(xs, BY_KEY);
    SortPermutes(xs, BY_KEY);
    SortMembers(xs);
    forall i, j | 0 <= i < j < |ys| ensures ys[i].key != ys[j].key {
      assert ys[i] in xs && ys[j] in xs;
      if ys[i].key == ys[j].key {
        KeyDetermines(xs, ys[i], ys[j]);
        PermutedDistinct(xs, ys, i, j);
      }
    }
  }

  /** Two objects with the same properties, in whatever order, have the same text. */
  lemma SamePropertiesSameText(fs: seq<Field>, gs: seq<Field>)
    requires Wellformed(Obj(fs)) && Wellformed(Obj(gs)) && |fs| == |gs|
    requires forall i | 0 <= i < |fs| :: Entries(fs)[i] in Entries(gs)
    ensures Canonicalize(Obj(fs)) == Canonicalize(Obj(gs))
  {
    SubsetOfSameLength(Entries(fs), Entries(gs));
    SortSameMembers(Entries(fs), Entries(gs));
  }

  /** Values that are equal up to key order have the same text. */
  lemma {:induction false} SameText(a: Json, b: Json)
    requires Wellformed(a) && Wellformed(b) && Same(a, b)
    ensures Canonicalize(a) == Canonicalize(b)
    decreases a
  {
    match a
    case Arr(xs) =>
      forall i | 0 <= i < |xs| ensures Canonicalize(xs[i]) == Canonicalize(b.items[i]) {
        SameText(xs[i], b.items[i]);
      }
      assert seq(|xs|, i requires 0 <= i < |xs| => Canonicalize(xs[i])) ==
             seq(|xs|, i requires 0 <= i < |xs| => Canonicalize(b.items[i]));
    case Obj(fs) =>
      forall i | 0 <= i < |fs| ensures Entries(fs)[i] in Entries(b.fields) {
        var j :| 0 <= j < |b.fields| && fs[i].key == b.fields[j].key && Same(fs[i].value, b.fields[j].value);
        SameText(fs[i].value, b.fields[j].value);
        assert Entries(b.fields)[j] == Entries(fs)[i];
      }
      SamePropertiesSameText(fs, b.fields);
    case _ =>
  }

  // -------------------------------------------------------- the text is unambiguous

  /** What may follow a value: nothing, or the punctuation of the enclosing array or object. */
  predicate Stop(s: string) {
    s == "" || s[0] == ',' || s[0] == ']' || s[0] == '}'
  }

  lemma EscapeFirst(c: char)
    ensures |Escape(c)| > 0 && Escape(c)[0] != '"'
  {
  }

  /** No escape is the beginning of another. */
  lemma EscapeUnique(c: char, x: string, d: char, y: string)
    requires Escape(c) + x == Escape(d) + y
    ensures c == d && x == y
  {
    var u, v := Escape(c) + x, Escape(d) + y;
    assert u[0] == Escape(c)[0] && v[0] == Escape(d)[0];
    if |Escape(c)| > 1 && |Escape(d)| > 1 {
      assert u[1] == Escape(c)[1] && v[1] == Escape(d)[1];
      if |Escape(c)| == 6 && |Escape(d)| == 6 {
        assert u[4] == Escape(c)[4] && v[4] == Escape(d)[4] && u[5] == Escape(c)[5] && v[5] == Escape(d)[5];
      }
    }
    assert c == d;
    assert u[|Escape(c)|..] == x && v[|Escape(d)|..] == y;
  }

  /** The rest of a quoted string, its closing quote, and what follows. */
  function Closing(s: string, x: string): string {
    EscapeAll(s) + "\"" + x
  }

  lemma ClosingStep(s: string, x: string)
    ensures s == "" ==> Closing(s, x) == "\"" + x && Closing(s, x)[0] == '"' && Closing(s, x)[1..] == x
    ensures s != "" ==> Closing(s, x) == Escape(s[0]) + Closing(s[1..], x) && Closing(s, x)[0] != '"'
  {
    if s != "" {
      EscapeFirst(s[0]);
      assert Escape(s[0]) + EscapeAll(s[1..]) + "\"" + x == Escape(s[0]) + (EscapeAll(s[1..]) + "\"" + x);
    }
  }

  lemma {:induction false} ClosingUnique(s: string, x: string, t: string, y: string)
    requires Closing(s, x) == Closing(t, y)
    ensures s == t && x == y
  {
    ClosingStep(s, x);
    ClosingStep(t, y);
    if s != "" && t != "" {
      EscapeUnique(s[0], Closing(s[1..], x), t[0], Closing(t[1..], y));
      ClosingUnique(s[1..], x, t[1..], y);
      assert s == [s[0]] + s[1..] && t == [t[0]] + t[1..];
    }
  }

  /** A quoted string ends at its own closing quote. */
  lemma QuoteUnique(s: string, x: string, t: string, y: string)
    requires Quote(s) + x == Quote(t) + y
    ensures s == t && x == y
  {
    assert (Quote(s) + x)[1..] == Closing(s, x) && (Quote(t) + y)[1..] == Closing(t, y);
    ClosingUnique(s, x, t, y);
  }

  lemma NumberUnique(m: string, x: string, n: string, y: string)
    requires NumberText(m) && NumberText(n) && Stop(x) && Stop(y) && m + x == n + y
    ensures m == n && x == y
  {
    var u, v := m + x, n + y;
    assert forall i | 0 <= i < |m| :: u[i] == m[i] && NumberChar(u[i]);
    assert forall i | 0 <= i < |n| :: v[i] == n[i] && NumberChar(v[i]);
    assert |m| < |u| ==> u[|m|] == x[0] && !NumberChar(u[|m|]);
    assert |n| < |v| ==> v[|n|] == y[0] && !NumberChar(v[|n|]);
    assert |m| == |n|;
    assert u[..|m|] == m && v[..|n|] == n && u[|m|..] == x && v[|n|..] == y;
  }

  /** The first character tells what kind of value a text is. */
  function Opening(v: Json): char {
    match v
    case Undefined => 'n'
    case Null => 'n'
    case Bool(b) => if b then 't' else 'f'
    case Num(_) => '0'
    case Str(_) => '"'
    case Arr(_) => '['
    case Obj(_) => '{'
  }

  predicate Opens(s: string, c: char) {
    s != "" && if c == '0' then '0' <= s[0] <= '9' || s[0] == '-' else s[0] == c
  }

  lemma TextOpens(v: Json, x: string)
    requires Wellformed(v)
    ensures Opens(Canonicalize(v) + x, Opening(v))
  {
  }

  /** Before a stop, neither text is a beginning of the other. */
  ghost predicate Splits(p: string, q: string) {
    forall u, v | Stop(u) && Stop(v) && p + u == q + v :: p == q && u == v
  }

  /** A joined list and what closes it, one text at a time. */
  function Listed(texts: seq<string>, close: string): string {
    Join(texts) + close
  }

  function Tail(texts: seq<string>, close: string): string {
    if texts == [] then close else "," + Listed(texts, close)
  }

  lemma ListedStep(texts: seq<string>, close: string)
    ensures texts == [] ==> Listed(texts, close) == close
    ensures texts != [] ==> Listed(texts, close) == texts[0] + Tail(texts[1..], close)
  {
    if |texts| > 1 {
      assert texts[0] + "," + Join(texts[1..]) + close == texts[0] + ("," + (Join(texts[1..]) + close));
    }
  }

  ghost predicate AllSplit(ps: seq<string>, qs: seq<string>) {
    forall p, q | p in ps && q in qs :: Splits(p, q)
  }

  /** No text is empty or begins with the closing bracket. */
  ghost predicate Openers(ps: seq<string>, close: char) {
    forall p | p in ps :: p != "" && p[0] != close
  }

  lemma ClosedFirst(ps: seq<string>, close: string)
    requires close != "" && Openers(ps, close[0])
    ensures Listed(ps, close) != "" && (Listed(ps, close)[0] == close[0] <==> ps == [])
  {
    ListedStep(ps, close);
    if ps != [] { assert ps[0] in ps; }
  }

  lemma TailMembers(ps: seq<string>, qs: seq<string>, close: char)
    requires ps != [] && qs != [] && AllSplit(ps, qs) && Openers(ps, close) && Openers(qs, close)
    ensures AllSplit(ps[1..], qs[1..]) && Openers(ps[1..], close) && Openers(qs[1..], close)
    ensures Splits(ps[0], qs[0])
  {
    assert ps[0] in ps && qs[0] in qs;
    forall p | p in ps[1..] ensures p in ps {}
    forall q | q in qs[1..] ensures q in qs {}
  }

  lemma TailStops(texts: seq<string>, close: string)
    requires Stop(close)
    ensures Stop(Tail(texts, close))
  {
  }

  lemma FirstUnique(ps: seq<string>, qs: seq<string>, c: string, d: string)
    requires ps != [] && qs != [] && Splits(ps[0], qs[0]) && Stop(c) && Stop(d) && Listed(ps, c) == Listed(qs, d)
    ensures ps[0] == qs[0] && Tail(ps[1..], c) == Tail(qs[1..], d)
  {
    ListedStep(ps, c);
    ListedStep(qs, d);
    TailStops(ps[1..], c);
    TailStops(qs[1..], d);
  }

  /** Lists of texts that split, closed by the same bracket, can be told apart. */
  lemma {:induction false} ListedUnique(ps: seq<string>, qs: seq<string>, c: string, d: string)
    requires AllSplit(ps, qs)
    requires Stop(c) && Stop(d) && c != "" && d != "" && c[0] == d[0] != ',' && Openers(ps, c[0]) && Openers(qs, c[0])
    requires Listed(ps, c) == Listed(qs, d)
    ensures ps == qs && c == d
  {
    ClosedFirst(ps, c);
    ClosedFirst(qs, d);
    if ps == [] {
      ListedStep(ps, c);
      ListedStep(qs, d);
    } else {
      var a, b := ps[1..], qs[1..];
      TailMembers(ps, qs, c[0]);
      FirstUnique(ps, qs, c, d);
      TailUnique(a, b, c, d);
      if a != [] { ListedUnique(a, b, c, d); }
      assert ps == [ps[0]] + a && qs == [qs[0]] + b;
    }
  }

  lemma TailUnique(a: seq<string>, b: seq<string>, c: string, d: string)
    requires c != "" && d != "" && c[0] != ',' && d[0] != ',' && Tail(a, c) == Tail(b, d)
    ensures a == [] <==> b == []
    ensures a == [] ==> c == d
    ensures a != [] ==> Listed(a, c) == Listed(b, d)
  {
    if a != [] { assert Tail(a, c)[0] == ',' && Tail(a, c)[1..] == Listed(a, c); }
    if b != [] { assert Tail(b, d)[0] == ',' && Tail(b, d)[1..] == Listed(b, d); }
  }

  function Texts(items: seq<Json>): seq<string> {
    seq(|items|, i requires 0 <= i < |items| => Canonicalize(items[i]))
  }

  function Properties(fields: seq<Field>): seq<string> {
    Map(PROPERTY, Sort(Entries(fields), BY_KEY))
  }

  lemma ListText(v: Json, u: string)
    ensures v.Arr? ==> (Canonicalize(v) + u)[1..] == Listed(Texts(v.items), "]" + u)
    ensures v.Obj? ==> (Canonicalize(v) + u)[1..] == Listed(Properties(v.fields), "}" + u)
  {
    if v.Arr? { assert Canonicalize(v) + u == "[" + (Join(Texts(v.items)) + ("]" + u)); }
    if v.Obj? { assert Canonicalize(v) + u == "{" + (Join(Properties(v.fields)) + ("}" + u)); }
  }

  /** The properties of an object are texts of its fields. */
  lemma PropertyOf(fields: seq<Field>, p: string) returns (i: nat)
    requires p in Properties(fields)
    ensures i < |fields| && p == Quote(fields[i].key) + ":" + Canonicalize(fields[i].value)
  {
    var es := Sort(Entries(fields), BY_KEY);
    var k :| 0 <= k < |es| && PROPERTY(es[k]) == p;
    SortMembers(Entries(fields));
    assert es[k] in es && es[k] in Entries(fields);
    i :| 0 <= i < |fields| && Entries(fields)[i] == es[k];
  }

  lemma Regroup(a: string, b: string, c: string)
    ensures a + b + c == a + (b + c)
  {
  }

  lemma PropertyUnique(k: string, x: string, l: string, y: string)
    requires Quote(k) + ":" + x == Quote(l) + ":" + y
    ensures k == l && x == y
  {
    Regroup(Quote(k), ":", x);
    Regroup(Quote(l), ":", y);
    QuoteUnique(k, ":" + x, l, ":" + y);
    assert (":" + x)[1..] == x && (":" + y)[1..] == y;
  }

  lemma PropertySplits(k: string, p: string, l: string, q: string)
    requires Splits(p, q)
    ensures Splits(Quote(k) + ":" + p, Quote(l) + ":" + q)
  {
    var m, n := Quote(k) + ":", Quote(l) + ":";
    forall u, v | Stop(u) && Stop(v) && (m + p) + u == (n + q) + v ensures m + p == n + q && u == v {
      assert (m + p) + u == m + (p + u) && (n + q) + v == n + (q + v);
      PropertyUnique(k, p + u, l, q + v);
    }
  }

  // ------------------------------------------------------------------ the theorem

  lemma TextsOpen(items: seq<Json>)
    requires forall i | 0 <= i < |items| :: Wellformed(items[i])
    ensures Openers(Texts(items), ']')
  {
    forall p | p in Texts(items) ensures p != "" && p[0] != ']' {
      var i :| 0 <= i < |items| && Texts(items)[i] == p;
      TextOpens(items[i], "");
      assert p + "" == p;
    }
  }

  lemma PropertiesOpen(fields: seq<Field>)
    ensures Openers(Properties(fields), '}')
  {
    forall p | p in Properties(fields) ensures p != "" && p[0] != '}' {
      var i := PropertyOf(fields, p);
    }
  }

  /** Texts of different kinds differ in their first character. */
  lemma KindsSplit(v: Json, w: Json)
    requires Wellformed(v) && Wellformed(w) && Opening(v) != Opening(w)
    ensures Splits(Canonicalize(v), Canonicalize(w))
  {
    forall s, t ensures Canonicalize(v) + s != Canonicalize(w) + t {
      TextOpens(v, s);
      TextOpens(w, t);
    }
  }

  lemma ArraysSplit(v: Json, w: Json)
    requires v.Arr? && w.Arr? && Wellformed(v) && Wellformed(w) && AllSplit(Texts(v.items), Texts(w.items))
    ensures Splits(Canonicalize(v), Canonicalize(w))
  {
    TextsOpen(v.items);
    TextsOpen(w.items);
    forall s, t | Stop(s) && Stop(t) && Canonicalize(v) + s == Canonicalize(w) + t
      ensures Canonicalize(v) == Canonicalize(w) && s == t
    {
      ListText(v, s);
      ListText(w, t);
      ListedUnique(Texts(v.items), Texts(w.items), "]" + s, "]" + t);
      assert ("]" + s)[1..] == s && ("]" + t)[1..] == t;
    }
  }

  lemma ObjectsSplit(v: Json, w: Json)
    requires v.Obj? && w.Obj? && AllSplit(Properties(v.fields), Properties(w.fields))
    ensures Splits(Canonicalize(v), Canonicalize(w))
  {
    PropertiesOpen(v.fields);
    PropertiesOpen(w.fields);
    forall s, t | Stop(s) && Stop(t) && Canonicalize(v) + s == Canonicalize(w) + t
      ensures Canonicalize(v) == Canonicalize(w) && s == t
    {
      ListText(v, s);
      ListText(w, t);
      ListedUnique(Properties(v.fields), Properties(w.fields), "}" + s, "}" + t);
      assert ("}" + s)[1..] == s && ("}" + t)[1..] == t;
    }
  }

  lemma StringsSplit(a: string, b: string)
    ensures Splits(Quote(a), Quote(b))
  {
    forall s, t | Stop(s) && Stop(t) && Quote(a) + s == Quote(b) + t ensures a == b && s == t {
      QuoteUnique(a, s, b, t);
    }
  }

  lemma NumbersSplit(m: string, n: string)
    requires NumberText(m) && NumberText(n)
    ensures Splits(m, n)
  {
    forall s, t | Stop(s) && Stop(t) && m + s == n + t ensures m == n && s == t {
      NumberUnique(m, s, n, t);
    }
  }

  /** Texts of values are never beginnings of each other, as long as punctuation follows. */
  lemma {:induction false} ValuesSplit(v: Json, w: Json)
    requires Wellformed(v) && Wellformed(w)
    ensures Splits(Canonicalize(v), Canonicalize(w))
    decreases v
  {
    if Opening(v) != Opening(w) {
      KindsSplit(v, w);
    } else {
      match v
      case Num(m) => NumbersSplit(m, w.text);
      case Str(a) => StringsSplit(a, w.s);
      case Arr(xs) =>
        forall p, q | p in Texts(xs) && q in Texts(w.items) ensures Splits(p, q) {
          var i :| 0 <= i < |xs| && Texts(xs)[i] == p;
          var j :| 0 <= j < |w.items| && Texts(w.items)[j] == q;
          ValuesSplit(xs[i], w.items[j]);
        }
        ArraysSplit(v, w);
      case Obj(fs) =>
        forall p, q | p in Properties(fs) && q in Properties(w.fields) ensures Splits(p, q) {
          var i := PropertyOf(fs, p);
          var j := PropertyOf(w.fields, q);
          ValuesSplit(fs[i].value, w.fields[j].value);
          PropertySplits(fs[i].key, Canonicalize(fs[i].value), w.fields[j].key, Canonicalize(w.fields[j].value));
        }
        ObjectsSplit(v, w);
      case _ => ConstantsSplit(Canonicalize(v));
    }
  }

  lemma ConstantsSplit(p: string)
    ensures Splits(p, p)
  {
    forall u, v | p + u == p + v ensures u == v {
      assert (p + u)[|p|..] == u && (p + v)[|p|..] == v;
    }
  }

  lemma ArrayTexts(xs: seq<Json>, ys: seq<Json>)
    requires forall i | 0 <= i < |xs| :: Wellformed(xs[i])
    requires forall i | 0 <= i < |ys| :: Wellformed(ys[i])
    requires Canonicalize(Arr(xs)) == Canonicalize(Arr(ys))
    ensures Texts(xs) == Texts(ys)
  {
    forall p, q | p in Texts(xs) && q in Texts(ys) ensures Splits(p, q) {
      var i :| 0 <= i < |xs| && Texts(xs)[i] == p;
      var j :| 0 <= j < |ys| && Texts(ys)[j] == q;
      ValuesSplit(xs[i], ys[j]);
    }
    TextsOpen(xs);
    TextsOpen(ys);
    ListText(Arr(xs), "");
    ListText(Arr(ys), "");
    assert "]" + "" == "]";
    ListedUnique(Texts(xs), Texts(ys), "]", "]");
  }

  lemma ObjectTexts(fs: seq<Field>, gs: seq<Field>)
    requires Wellformed(Obj(fs)) && Wellformed(Obj(gs)) && Canonicalize(Obj(fs)) == Canonicalize(Obj(gs))
    ensures Properties(fs) == Properties(gs)
  {
    forall p, q | p in Properties(fs) && q in Properties(gs) ensures Splits(p, q) {
      var i := PropertyOf(fs, p);
      var j := PropertyOf(gs, q);
      ValuesSplit(fs[i].value, gs[j].value);
      PropertySplits(fs[i].key, Canonicalize(fs[i].value), gs[j].key, Canonicalize(gs[j].value));
    }
    PropertiesOpen(fs);
    PropertiesOpen(gs);
    ListText(Obj(fs), "");
    ListText(Obj(gs), "");
    assert "}" + "" == "}";
    ListedUnique(Properties(fs), Properties(gs), "}", "}");
  }

  lemma SamePropertiesSameEntries(es: seq<Entry>, ds: seq<Entry>)
    requires Map(PROPERTY, es) == Map(PROPERTY, ds)
    ensures es == ds
  {
    assert |es| == |Map(PROPERTY, es)| == |Map(PROPERTY, ds)| == |ds|;
    forall i | 0 <= i < |es| ensures es[i] == ds[i] {
      assert Map(PROPERTY, es)[i] == PROPERTY(es[i]) && Map(PROPERTY, ds)[i] == PROPERTY(ds[i]);
      PropertyUnique(es[i].key, es[i].text, ds[i].key, ds[i].text);
    }
  }

  /** The entries of one object are those of the other. */
  lemma EntryFound(fs: seq<Field>, gs: seq<Field>, i: nat) returns (j: nat)
    requires Properties(fs) == Properties(gs) && i < |fs|
    ensures |fs| == |gs| && j < |gs| && Entries(gs)[j] == Entries(fs)[i]
  {
    SamePropertiesSameEntries(Sort(Entries(fs), BY_KEY), Sort(Entries(gs), BY_KEY));
    SortMembers(Entries(fs));
    SortMembers(Entries(gs));
    assert Entries(fs)[i] in Entries(fs);
    j :| 0 <= j < |gs| && Entries(gs)[j] == Entries(fs)[i];
  }

  lemma KindsDiffer(v: Json, w: Json)
    requires Wellformed(v) && Wellformed(w) && Opening(v) != Opening(w)
    ensures Canonicalize(v) != Canonicalize(w)
  {
    TextOpens(v, "");
    TextOpens(w, "");
    assert Canonicalize(v) + "" == Canonicalize(v) && Canonicalize(w) + "" == Canonicalize(w);
  }

  /** Equal texts come from values that are equal up to key order. */
  lemma {:induction false} SameFromText(v: Json, w: Json)
    requires Wellformed(v) && Wellformed(w) && Canonicalize(v) == Canonicalize(w)
    ensures Same(v, w)
    decreases v
  {
    if Opening(v) != Opening(w) { KindsDiffer(v, w); }
    match v
    case Str(a) => QuoteUnique(a, "", w.s, "");
    case Arr(xs) =>
      ArrayTexts(xs, w.items);
      assert |xs| == |Texts(xs)| == |w.items|;
      forall i | 0 <= i < |xs| ensures Same(xs[i], w.items[i]) {
        assert Texts(xs)[i] == Texts(w.items)[i];
        SameFromText(xs[i], w.items[i]);
      }
    case Obj(fs) =>
      ObjectTexts(fs, w.fields);
      SamePropertiesSameEntries(Sort(Entries(fs), BY_KEY), Sort(Entries(w.fields), BY_KEY));
      SortMembers(Entries(fs));
      SortMembers(Entries(w.fields));
      forall i | 0 <= i < |fs|
        ensures exists j | 0 <= j < |w.fields| :: fs[i].key == w.fields[j].key && Same(fs[i].value, w.fields[j].value)
      {
        var j := EntryFound(fs, w.fields, i);
        SameFromText(fs[i].value, w.fields[j].value);
      }
    case _ =>
  }

  /** Two DTO trees have the same canonical text exactly when they are equal up to key order at every depth. */
  lemma CanonicalExactly(v: Json, w: Json)
    requires Wellformed(v) && Wellformed(w)
    ensures Canonicalize(v) == Canonicalize(w) <==> Same(v, w)
  {
    if Same(v, w) { SameText(v, w); } else if Canonicalize(v) == Canonicalize(w) { SameFromText(v, w); }
  }

  // ------------------------------------------------------------------------- md5

  /** Everything but the `md5` property. */
  function Rest(fields: seq<Field>): seq<Field> {
    if fields == [] then []
    else Rest(fields[..|fields|-1]) + if fields[|fields|-1].key == "md5" then [] else [fields[|fields|-1]]
  }

  function HashInput(fields: seq<Field>): string {
    Canonicalize(Obj(Rest(fields)))
  }

  function WithMd5(md5: string -> string, fields: seq<Field>): seq<Field> {
    Rest(fields) + [Field("md5", Str(md5(HashInput(fields))))]
  }

  lemma {:induction false} RestOfRest(fields: seq<Field>)
    ensures Rest(Rest(fields)) == Rest(fields)
    ensures forall f :: f in Rest(fields) <==> f in fields && f.key != "md5"
  {
    if fields != [] {
      var init, last := fields[..|fields|-1], fields[|fields|-1];
      RestOfRest(init);
      assert fields == init + [last];
      assert Rest(init) + [] == Rest(init);
      if last.key != "md5" { assert (Rest(init) + [last])[..|Rest(init)|] == Rest(init); }
    }
  }

  /** Stamping again hashes the same text and changes nothing. */
  lemma Restamp(md5: string -> string, fields: seq<Field>)
    ensures HashInput(WithMd5(md5, fields)) == HashInput(fields)
    ensures WithMd5(md5, WithMd5(md5, fields)) == WithMd5(md5, fields)
  {
    var stamp := Field("md5", Str(md5(HashInput(fields))));
    assert (Rest(fields) + [stamp])[..|Rest(fields)|] == Rest(fields);
    RestOfRest(fields);
    assert Rest(Rest(fields)) + [] == Rest(fields);
  }

  ghost predicate NoKeyTwice(fields: seq<Field>) {
    forall i, j | 0 <= i < j < |fields| :: fields[i].key != fields[j].key
  }

  lemma {:induction false} RestNoKeyTwice(fields: seq<Field>)
    requires NoKeyTwice(fields)
    ensures NoKeyTwice(Rest(fields))
  {
    if fields != [] {
      var init, last := fields[..|fields|-1], fields[|fields|-1];
      RestNoKeyTwice(init);
      RestOfRest(init);
      forall i | 0 <= i < |Rest(init)| ensures Rest(init)[i].key != last.key {
        assert Rest(init)[i] in init;
      }
    }
  }

  lemma RestWellformed(fields: seq<Field>)
    requires Wellformed(Obj(fields))
    ensures Wellformed(Obj(Rest(fields)))
  {
    assert NoKeyTwice(fields);
    RestNoKeyTwice(fields);
    RestOfRest(fields);
    forall i | 0 <= i < |Rest(fields)| ensures Wellformed(Rest(fields)[i].value) {
      assert Rest(fields)[i] in fields;
    }
  }

  /** The stamp is taken from the content alone: two DTOs are hashed over one text exactly when they are equal up to
      key order, their own stamps aside. */
  lemma StampExactly(fields: seq<Field>, others: seq<Field>)
    requires Wellformed(Obj(fields)) && Wellformed(Obj(others))
    ensures HashInput(fields) == HashInput(others) <==> Same(Obj(Rest(fields)), Obj(Rest(others)))
  {
    RestWellformed(fields);
    RestWellformed(others);
    CanonicalExactly(Obj(Rest(fields)), Obj(Rest(others)));
  }
}
