/**
 The RLP decoder that checks genesis extra data, against the encoding of Appendix B of the Ethereum Yellow Paper.
 */
module Rlp {
  import opened Prelude
  import opened Bytes

  datatype Item = Str(content: bytes) | List(items: seq<Item>)

  datatype RlpError =
    | IndexOutOfRange   // `data[offset]` past the end
    | InconsistentList  // the items overrun the list's announced length

  // ------------------------------------------------------------------- decoding

  /** A Python slice: bounds past the end are clamped. */
  function Slice(data: bytes, start: nat, end: nat): bytes {
    var hi := if end < |data| then end else |data|;
    if start <= hi then data[start..hi] else []
  }

  /** A payload length: given by the prefix, or spelled out in big-endian digits. */
  datatype Length = Short(n: nat) | Long(digits: bytes) {
    function Value(): nat {
      match this
      case Short(n) => n
      case Long(digits) => FromBytes(digits)
    }
  }

  datatype Header = Header(isList: bool, start: nat, length: Length)

  /** Where the payload starts and how long it claims to be. Strings and lists announce their length alike: up to 55
      in the prefix itself, otherwise in as many bytes as the prefix says. */
  function HeaderAt(data: bytes, offset: nat): (h: Header)
    requires offset < |data|
    ensures offset < h.start || h == Header(false, offset, Short(1))
  {
    var prefix := data[offset];
    var isList := prefix >= 0xC0;
    if prefix < 0x80 then Header(false, offset, Short(1))
    else
      var d := prefix - if isList then 0xC0 else 0x80;
      if d <= 55 then Header(isList, offset + 1, Short(d))
      else Header(isList, offset + 1 + (d - 55), Long(Slice(data, offset + 1, offset + 1 + (d - 55))))
  }

  function Left(data: bytes, offset: nat): nat {
    if offset < |data| then |data| - offset else 0
  }

  /** The item at an offset and the offset after it. */
  function Decode(data: bytes, offset: nat): (r: Result<(Item, nat), RlpError>)
    ensures r.Success? ==> r.value.1 > offset
    decreases Left(data, offset), 0
  {
    if offset >= |data| then Failure(IndexOutOfRange)
    else
      var h := HeaderAt(data, offset);
      var end := h.start + h.length.Value();
      if !h.isList then Success((Str(Slice(data, h.start, end)), end))
      else
        var r :- DecodeItems(data, h.start, end, []);
        if r.1 != end then Failure(InconsistentList) else Success((List(r.0), end))
  }

  /** The items from `start` up to `end`, after those already read. */
  function DecodeItems(data: bytes, start: nat, end: nat, items: seq<Item>): Result<(seq<Item>, nat), RlpError>
    decreases Left(data, start), 1
  {
    if start >= end then Success((items, start))
    else
      var r :- Decode(data, start);
      DecodeItems(data, r.1, end, items + [r.0])
  }

  /** The branches on the prefix byte. */
  method ReadHeader(data: bytes, offset: nat) returns (h: Header)
    requires offset < |data|
    ensures h == HeaderAt(data, offset)
  {
    var prefix := data[offset];
    if prefix <= 0x7F { return Header(false, offset, Short(1)); }
    if prefix <= 0xB7 { return Header(false, offset + 1, Short(prefix - 0x80)); }
    var start := offset + 1;
    if prefix <= 0xBF {
      var lengthOfLength := prefix - 0xB7;
      return Header(false, start + lengthOfLength, Long(Slice(data, start, start + lengthOfLength)));
    }
    if prefix <= 0xF7 { return Header(true, start, Short(prefix - 0xC0)); }
    var lengthOfLength := prefix - 0xF7;
    return Header(true, start + lengthOfLength, Long(Slice(data, start, start + lengthOfLength)));
  }

  /** The decoder: recursion inside a loop, on the bytes left. */
  method DecodeRlp(data: bytes, offset: nat) returns (r: Result<(Item, nat), RlpError>)
    ensures r == Decode(data, offset)
    decreases Left(data, offset), 1
  {
    if offset >= |data| { return Failure(IndexOutOfRange); }
    var h := ReadHeader(data, offset);
    var end := h.start + h.length.Value();
    if !h.isList { return Success((Str(Slice(data, h.start, end)), end)); }
    r := DecodeList(data, offset, h.start, end);
  }

  /** The loop of the decoder over the items of a list. */
  method DecodeList(data: bytes, ghost offset: nat, from: nat, end: nat) returns (r: Result<(Item, nat), RlpError>)
    requires offset < from && offset < |data|
    ensures r == match DecodeItems(data, from, end, [])
                 case Failure(e) => Failure(e)
                 case Success((items, next)) =>
                   if next != end then Failure(InconsistentList) else Success((List(items), end))
    decreases Left(data, offset), 0
  {
    var start := from;
    var items: seq<Item> := [];
    while start < end
      invariant start >= from
      invariant DecodeItems(data, start, end, items) == DecodeItems(data, from, end, [])
      decreases end - start
    {
      var one :- DecodeRlp(data, start);
      items, start := items + [one.0], one.1;
    }
    if start != end { return Failure(InconsistentList); }
    return Success((List(items), end));
  }

  // ------------------------------------------------------------------- encoding

  /** The lengths that can be announced. */
  predicate Announceable(length: nat) {
    |BigEndian(length)| <= 8
  }

  /** These are the lengths below 2^64. */
  lemma AnnounceableExactly(length: nat)
    ensures Announceable(length) <==> length < 0x1_0000_0000_0000_0000
  {
    BigEndianLength(length, 8);
    assert Pow256(4) == 0x1_0000_0000;
    assert Pow256(6) == 0x1_0000_0000_0000;
  }

  /** A length announced after `short`, or after `long` plus the number of bytes of the length. */
  function Announce(short: nat, long: nat, length: nat): bytes
    requires short <= 0xC0 && long <= 0xF7 && Announceable(length)
  {
    if length < 56 then [short + length] else [long + |BigEndian(length)|] + BigEndian(length)
  }

  function Concat(parts: seq<bytes>): bytes {
    if parts == [] then [] else parts[0] + Concat(parts[1..])
  }

  /** R_b and R_l of the Yellow Paper; lengths of 2^64 and more have no encoding. */
  function Encode(x: Item): bytes
    requires Encodable(x)
    decreases x, 1
  {
    match x
    case Str(s) => if |s| == 1 && s[0] < 0x80 then s else Announce(0x80, 0xB7, |s|) + s
    case List(items) =>
      var payload := Concat(seq(|items|, i requires 0 <= i < |items| => Encode(items[i])));
      Announce(0xC0, 0xF7, |payload|) + payload
  }

  ghost predicate Encodable(x: Item)
    decreases x, 0
  {
    match x
    case Str(s) => Announceable(|s|)
    case List(items) =>
      && (forall i | 0 <= i < |items| :: Encodable(items[i]))
      && Announceable(|Concat(seq(|items|, i requires 0 <= i < |items| => Encode(items[i])))|)
  }

  // ----------------------------------------------------------------- round trip

  function Shorts(isList: bool): nat { if isList then 0xC0 else 0x80 }

  function Longs(isList: bool): nat { if isList then 0xF7 else 0xB7 }

  /** The prefix byte of an announcement and the bytes after it. */
  lemma AnnouncedBytes(isList: bool, length: nat)
    requires Announceable(length)
    ensures var h := Announce(Shorts(isList), Longs(isList), length);
            && 0 < |h| <= 9
            && (length < 56 ==> h == [Shorts(isList) + length])
            && (length >= 56 ==> h[0] == Longs(isList) + |h| - 1 && |h| > 1 && FromBytes(h[1..]) == length)
  {
    if length >= 56 {
      BigEndianLength(length, 0);
      FromBigEndian(length);
      var h := Announce(Shorts(isList), Longs(isList), length);
      assert h[1..] == BigEndian(length);
    }
  }

  /** `s` stands in the data at an offset. */
  ghost predicate Has(data: bytes, offset: nat, s: bytes) {
    offset + |s| <= |data| && data[offset..offset+|s|] == s
  }

  lemma HasSplit(data: bytes, offset: nat, s: bytes, t: bytes)
    requires Has(data, offset, s + t)
    ensures Has(data, offset, s) && Has(data, offset + |s|, t)
  {
    var w := data[offset..offset+|s + t|];
    assert w[..|s|] == s && w[|s|..] == t;
    assert data[offset..offset+|s|] == w[..|s|];
    assert data[offset+|s|..offset+|s|+|t|] == w[|s|..];
  }

  lemma LongHeader(data: bytes, offset: nat, isList: bool, digits: bytes)
    requires 1 <= |digits| <= 8 && Has(data, offset, [Longs(isList) + |digits|] + digits)
    ensures HeaderAt(data, offset) == Header(isList, offset + 1 + |digits|, Long(digits))
  {
    HasSplit(data, offset, [Longs(isList) + |digits|], digits);
    assert data[offset] == data[offset..offset+1][0];
    assert Slice(data, offset + 1, offset + 1 + |digits|) == digits;
  }

  function LengthOf(length: nat): Length {
    if length < 56 then Short(length) else Long(BigEndian(length))
  }

  lemma LengthOfValue(length: nat)
    ensures LengthOf(length).Value() == length
  {
    FromBigEndian(length);
  }

  lemma HeaderRoundTrip(data: bytes, offset: nat, isList: bool, length: nat, h: bytes)
    requires Announceable(length) && h == Announce(Shorts(isList), Longs(isList), length) && Has(data, offset, h)
    ensures |h| > 0 && offset < |data| && HeaderAt(data, offset) == Header(isList, offset + |h|, LengthOf(length))
  {
    AnnouncedBytes(isList, length);
    if length >= 56 {
      LongHeader(data, offset, isList, BigEndian(length));
    } else {
      assert data[offset] == data[offset..offset+1][0];
    }
  }

  lemma DecodeAtStr(data: bytes, offset: nat, start: nat, length: Length, s: bytes)
    requires offset < |data| && HeaderAt(data, offset) == Header(false, start, length)
    requires length.Value() == |s| && Has(data, start, s)
    ensures Decode(data, offset) == Success((Str(s), start + |s|))
  {
  }

  lemma DecodeAtList(data: bytes, offset: nat, start: nat, length: Length, end: nat, items: seq<Item>)
    requires offset < |data| && HeaderAt(data, offset) == Header(true, start, length) && start + length.Value() == end
    requires DecodeItems(data, start, end, []) == Success((items, end))
    ensures Decode(data, offset) == Success((List(items), end))
  {
  }

  lemma AnnouncedStr(data: bytes, offset: nat, s: bytes, h: bytes)
    requires Announceable(|s|) && h == Announce(0x80, 0xB7, |s|)
    ensures ReadsAt(data, offset, h + s, Str(s))
  {
    if Has(data, offset, h + s) {
      HasSplit(data, offset, h, s);
      HeaderRoundTrip(data, offset, false, |s|, h);
      LengthOfValue(|s|);
      DecodeAtStr(data, offset, offset + |h|, LengthOf(|s|), s);
    }
  }

  lemma SingleByte(data: bytes, offset: nat, s: bytes)
    requires |s| == 1 && s[0] < 0x80
    ensures ReadsAt(data, offset, s, Str(s))
  {
    if Has(data, offset, s) {
      assert data[offset] == data[offset..offset+1][0] == s[0];
      DecodeAtStr(data, offset, offset, Short(1), s);
    }
  }

  /** If `s` stands at an offset, `Decode` reads it there as `x` and stops right after it. */
  ghost predicate ReadsAt(data: bytes, offset: nat, s: bytes, x: Item) {
    Has(data, offset, s) ==> Decode(data, offset) == Success((x, offset + |s|))
  }

  /** Wherever `s` stands and whatever follows, it is read as `x`. */
  ghost predicate ReadsAs(s: bytes, x: Item) {
    |s| > 0 && forall data, offset: nat :: ReadsAt(data, offset, s, x)
  }

  lemma StrReads(s: bytes)
    requires Announceable(|s|)
    ensures ReadsAs(if |s| == 1 && s[0] < 0x80 then s else Announce(0x80, 0xB7, |s|) + s, Str(s))
  {
    AnnouncedBytes(false, |s|);
    if |s| == 1 && s[0] < 0x80 {
      forall data, offset: nat ensures ReadsAt(data, offset, s, Str(s)) {
        SingleByte(data, offset, s);
      }
    } else {
      var h := Announce(0x80, 0xB7, |s|);
      forall data, offset: nat ensures ReadsAt(data, offset, h + s, Str(s)) {
        AnnouncedStr(data, offset, s, h);
      }
    }
  }

  lemma ItemsStep(data: bytes, start: nat, end: nat, items: seq<Item>, x: Item, next: nat)
    requires start < end && Decode(data, start) == Success((x, next))
    ensures DecodeItems(data, start, end, items) == DecodeItems(data, next, end, items + [x])
  {
  }

  /** The loop reads consecutive items. */
  lemma {:induction false} ItemsRead(data: bytes, offset: nat, items: seq<Item>, parts: seq<bytes>, done: seq<Item>)
    requires |parts| == |items| && forall i | 0 <= i < |items| :: ReadsAs(parts[i], items[i])
    requires Has(data, offset, Concat(parts))
    ensures var end := offset + |Concat(parts)|;
            DecodeItems(data, offset, end, done) == Success((done + items, end))
    decreases |items|
  {
    if items == [] {
      assert done + items == done;
    } else {
      var next := offset + |parts[0]|;
      HasSplit(data, offset, parts[0], Concat(parts[1..]));
      assert ReadsAt(data, offset, parts[0], items[0]);
      ItemsStep(data, offset, offset + |Concat(parts)|, done, items[0], next);
      ItemsRead(data, next, items[1..], parts[1..], done + [items[0]]);
      assert done + [items[0]] + items[1..] == done + items;
    }
  }

  lemma AnnouncedList(data: bytes, offset: nat, items: seq<Item>, h: bytes, length: nat, end: nat)
    requires Announceable(length) && h == Announce(0xC0, 0xF7, length) && end == offset + |h| + length
    requires Has(data, offset, h) && DecodeItems(data, offset + |h|, end, []) == Success((items, end))
    ensures Decode(data, offset) == Success((List(items), end))
  {
    HeaderRoundTrip(data, offset, true, length, h);
    LengthOfValue(length);
    DecodeAtList(data, offset, offset + |h|, LengthOf(length), end, items);
  }

  /** If `body` stands at an offset, the loop reads it there as `items`. */
  ghost predicate BodyReadsAt(data: bytes, start: nat, body: bytes, items: seq<Item>) {
    Has(data, start, body) ==> DecodeItems(data, start, start + |body|, []) == Success((items, start + |body|))
  }

  lemma BodyReads(data: bytes, start: nat, items: seq<Item>, parts: seq<bytes>)
    requires |parts| == |items| && forall i | 0 <= i < |items| :: ReadsAs(parts[i], items[i])
    ensures BodyReadsAt(data, start, Concat(parts), items)
  {
    if Has(data, start, Concat(parts)) {
      ItemsRead(data, start, items, parts, []);
      assert [] + items == items;
    }
  }

  lemma ListReadsAt(data: bytes, offset: nat, items: seq<Item>, h: bytes, body: bytes)
    requires Announceable(|body|) && h == Announce(0xC0, 0xF7, |body|)
    requires BodyReadsAt(data, offset + |h|, body, items)
    ensures ReadsAt(data, offset, h + body, List(items))
  {
    if Has(data, offset, h + body) {
      HasSplit(data, offset, h, body);
      AnnouncedList(data, offset, items, h, |body|, offset + |h| + |body|);
    }
  }

  lemma ListReads(items: seq<Item>, parts: seq<bytes>)
    requires |parts| == |items| && forall i | 0 <= i < |items| :: ReadsAs(parts[i], items[i])
    requires Announceable(|Concat(parts)|)
    ensures ReadsAs(Announce(0xC0, 0xF7, |Concat(parts)|) + Concat(parts), List(items))
  {
    AnnouncedBytes(true, |Concat(parts)|);
    var h, body := Announce(0xC0, 0xF7, |Concat(parts)|), Concat(parts);
    forall data, offset: nat ensures ReadsAt(data, offset, h + body, List(items)) {
      BodyReads(data, offset + |h|, items, parts);
      ListReadsAt(data, offset, items, h, body);
    }
  }

  /** Decoding an encoded item, wherever it stands and whatever follows, returns the item and the offset after it. */
  lemma {:induction false} RoundTrip(x: Item)
    requires Encodable(x)
    ensures ReadsAs(Encode(x), x)
  {
    match x
    case Str(s) => StrReads(s);
    case List(items) =>
      var parts := seq(|items|, i requires 0 <= i < |items| => Encode(items[i]));
      forall i | 0 <= i < |items| ensures ReadsAs(parts[i], items[i]) {
        RoundTrip(items[i]);
      }
      ListReads(items, parts);
  }

  /** In particular at the start of the data, before any suffix. */
  lemma DecodeOfEncode(x: Item, suffix: bytes)
    requires Encodable(x)
    ensures Decode(Encode(x) + suffix, 0) == Success((x, |Encode(x)|))
  {
    RoundTrip(x);
    assert ReadsAt(Encode(x) + suffix, 0, Encode(x), x);
  }

  /** No encoding is the beginning of another: what follows an item is never taken for part of it. */
  lemma PrefixFree(x: Item, s: bytes, y: Item, t: bytes)
    requires Encodable(x) && Encodable(y) && Encode(x) + s == Encode(y) + t
    ensures x == y && s == t
  {
    var data := Encode(x) + s;
    assert data[0..|Encode(x)|] == Encode(x) && (Encode(y) + t)[0..|Encode(y)|] == Encode(y);
    RoundTrip(x);
    RoundTrip(y);
    assert ReadsAt(data, 0, Encode(x), x) && ReadsAt(data, 0, Encode(y), y);
    assert data[|Encode(x)|..] == s && (Encode(y) + t)[|Encode(y)|..] == t;
  }

  /** Re-encoding the decoded item tells exactly whether the data began with an encoding at all. */
  lemma ReencodingDecides(data: bytes)
    ensures (exists x | Encodable(x) :: Encode(x) <= data) <==>
            var r := Decode(data, 0);
            r.Success? && Encodable(r.value.0) && Encode(r.value.0) <= data
  {
    if x :| Encodable(x) && Encode(x) <= data {
      RoundTrip(x);
      assert ReadsAt(data, 0, Encode(x), x);
    }
  }

  /** The decoder takes more than encodings: a byte that should stand alone, and content that is cut short. */
  lemma AcceptsMoreThanEncodings()
    ensures Decode([0x81, 0x05], 0) == Success((Str([0x05]), 2)) && Encode(Str([0x05])) != [0x81, 0x05]
    ensures Decode([0x83, 0x01], 0) == Success((Str([0x01]), 4))
  {
    assert Slice([0x81, 0x05], 1, 2) == [0x05];
    assert Slice([0x83, 0x01], 1, 4) == [0x01];
  }

  /** Examples that the Ethereum documentation gives. */
  lemma KnownEncodings()
    ensures Encode(Str([])) == [0x80] && Encode(Str([0x0F])) == [0x0F]
    ensures Encode(Str([0x04, 0x00])) == [0x82, 0x04, 0x00]
    ensures Encode(Str([0x64, 0x6F, 0x67])) == [0x83, 0x64, 0x6F, 0x67]
    ensures Encode(List([])) == [0xC0]
  {
    AnnounceableExactly(0);
    AnnounceableExactly(1);
  }
}
