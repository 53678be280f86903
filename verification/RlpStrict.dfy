/**
 Which data the decoder reads as it was written: the strict form of RLP, said of the bytes alone.
 */
module RlpStrict {
  import opened Prelude
  import opened Bytes
  import opened Rlp

  // ---------------------------------------------------------------- the strict form

  /** The length is announced as briefly as it can be: a byte below 0x80 stands for itself, and digits are written
      only for lengths from 56, all of them, and without a leading zero. */
  predicate Brief(data: bytes, offset: nat, h: Header)
    requires offset < |data|
  {
    match h.length
    case Short(n) => data[offset] < 0x80 || h.isList || n != 1 || (h.start < |data| && data[h.start] >= 0x80)
    case Long(digits) => h.start <= |data| && digits != [] && digits[0] != 0 && FromBytes(digits) >= 56
  }

  /** Where the item at an offset ends, by its own announcement. */
  function EndAt(data: bytes, offset: nat): (end: nat)
    requires offset < |data|
  {
    var h := HeaderAt(data, offset);
    h.start + h.length.Value()
  }

  /** The item at an offset is announced briefly and lies within the data; a list is filled exactly by strict items. */
  predicate Strict(data: bytes, offset: nat)
    decreases Left(data, offset), 0
  {
    && offset < |data|
    && var h := HeaderAt(data, offset);
       && Brief(data, offset, h)
       && EndAt(data, offset) <= |data|
       && (h.isList ==> StrictItems(data, h.start, EndAt(data, offset)))
  }

  predicate StrictItems(data: bytes, start: nat, end: nat)
    decreases Left(data, start), 1
  {
    if start >= end then start == end
    else
      && Strict(data, start)
      && start < EndAt(data, start)
      && StrictItems(data, EndAt(data, start), end)
  }

  // --------------------------------------------------------------- encodings are strict

  /** If `s` stands at an offset, a strict item ends right after it. */
  ghost predicate StrictAt(data: bytes, offset: nat, s: bytes) {
    Has(data, offset, s) ==> offset < |data| && Strict(data, offset) && EndAt(data, offset) == offset + |s|
  }

  ghost predicate StrictAs(s: bytes) {
    |s| > 0 && forall data, offset: nat :: StrictAt(data, offset, s)
  }

  lemma HeaderIsBrief(data: bytes, offset: nat, isList: bool, length: nat, h: bytes)
    requires Announceable(length) && h == Announce(Shorts(isList), Longs(isList), length) && Has(data, offset, h)
    requires length == 1 && !isList ==> offset + |h| < |data| && data[offset + |h|] >= 0x80
    ensures |h| > 0 && offset < |data|
    ensures HeaderAt(data, offset) == Header(isList, offset + |h|, LengthOf(length))
    ensures Brief(data, offset, HeaderAt(data, offset))
    ensures EndAt(data, offset) == offset + |h| + length
  {
    HeaderRoundTrip(data, offset, isList, length, h);
    LengthOfValue(length);
    if length >= 56 {
      BigEndianLeads(length);
      FromBigEndian(length);
    }
  }

  lemma SingleIsStrict(data: bytes, offset: nat, s: bytes)
    requires |s| == 1 && s[0] < 0x80
    ensures StrictAt(data, offset, s)
  {
    if Has(data, offset, s) {
      assert data[offset] == data[offset..offset+1][0] == s[0];
    }
  }

  lemma AnnouncedStrIsStrict(data: bytes, offset: nat, s: bytes, h: bytes)
    requires Announceable(|s|) && h == Announce(0x80, 0xB7, |s|) && (|s| == 1 ==> s[0] >= 0x80)
    ensures StrictAt(data, offset, h + s)
  {
    if Has(data, offset, h + s) {
      HasSplit(data, offset, h, s);
      AnnouncedBytes(false, |s|);
      if |s| == 1 { assert data[offset + |h|] == data[offset+|h|..offset+|h|+1][0]; }
      HeaderIsBrief(data, offset, false, |s|, h);
    }
  }

  lemma StrIsStrict(s: bytes)
    requires Announceable(|s|)
    ensures StrictAs(Encode(Str(s)))
  {
    AnnouncedBytes(false, |s|);
    forall data, offset: nat ensures StrictAt(data, offset, Encode(Str(s))) {
      if |s| == 1 && s[0] < 0x80 {
        SingleIsStrict(data, offset, s);
      } else {
        AnnouncedStrIsStrict(data, offset, s, Announce(0x80, 0xB7, |s|));
      }
    }
  }

  lemma StrictItemsStep(data: bytes, start: nat, next: nat, end: nat)
    requires start < next <= end && start < |data| && Strict(data, start) && EndAt(data, start) == next
    requires StrictItems(data, next, end)
    ensures StrictItems(data, start, end)
  {
  }

  lemma StrictPart(data: bytes, start: nat, s: bytes)
    requires StrictAs(s) && Has(data, start, s)
    ensures |s| > 0 && start < |data| && Strict(data, start) && EndAt(data, start) == start + |s|
  {
    assert StrictAt(data, start, s);
  }

  lemma {:induction false} PartsAreStrict(data: bytes, start: nat, parts: seq<bytes>)
    requires forall i | 0 <= i < |parts| :: StrictAs(parts[i])
    requires Has(data, start, Concat(parts))
    ensures StrictItems(data, start, start + |Concat(parts)|)
    decreases |parts|
  {
    if parts != [] {
      var next := start + |parts[0]|;
      HasSplit(data, start, parts[0], Concat(parts[1..]));
      StrictPart(data, start, parts[0]);
      PartsAreStrict(data, next, parts[1..]);
      StrictItemsStep(data, start, next, start + |Concat(parts)|);
    }
  }

  lemma StrictListAt(data: bytes, offset: nat, start: nat, end: nat)
    requires offset < |data| && HeaderAt(data, offset).isList && HeaderAt(data, offset).start == start
    requires Brief(data, offset, HeaderAt(data, offset)) && EndAt(data, offset) == end <= |data|
    requires StrictItems(data, start, end)
    ensures Strict(data, offset)
  {
  }

  /** If `body` stands at an offset, strict items fill it. */
  ghost predicate FilledAt(data: bytes, start: nat, body: bytes) {
    Has(data, start, body) ==> StrictItems(data, start, start + |body|)
  }

  lemma PartsFill(data: bytes, start: nat, parts: seq<bytes>)
    requires forall i | 0 <= i < |parts| :: StrictAs(parts[i])
    ensures FilledAt(data, start, Concat(parts))
  {
    if Has(data, start, Concat(parts)) { PartsAreStrict(data, start, parts); }
  }

  /** A list announcement at an offset, as the encoder writes it: its header and its end. */
  lemma ListHeader(data: bytes, offset: nat, length: nat, h: bytes)
    requires Announceable(length) && h == Announce(0xC0, 0xF7, length) && Has(data, offset, h)
    ensures offset < |data| && HeaderAt(data, offset).isList && HeaderAt(data, offset).start == offset + |h|
    ensures Brief(data, offset, HeaderAt(data, offset)) && EndAt(data, offset) == offset + |h| + length
  {
    HeaderIsBrief(data, offset, true, length, h);
  }

  lemma AnnouncedListIsStrict(data: bytes, offset: nat, body: bytes, h: bytes)
    requires Announceable(|body|) && h == Announce(0xC0, 0xF7, |body|) && FilledAt(data, offset + |h|, body)
    ensures StrictAt(data, offset, h + body)
  {
    if Has(data, offset, h + body) {
      HasSplit(data, offset, h, body);
      ListHeader(data, offset, |body|, h);
      StrictListAt(data, offset, offset + |h|, offset + |h| + |body|);
    }
  }

  lemma ListIsStrict(parts: seq<bytes>)
    requires forall i | 0 <= i < |parts| :: StrictAs(parts[i])
    requires Announceable(|Concat(parts)|)
    ensures StrictAs(Announce(0xC0, 0xF7, |Concat(parts)|) + Concat(parts))
  {
    var h, body := Announce(0xC0, 0xF7, |Concat(parts)|), Concat(parts);
    AnnouncedBytes(true, |body|);
    forall data, offset: nat ensures StrictAt(data, offset, h + body) {
      PartsFill(data, offset + |h|, parts);
      AnnouncedListIsStrict(data, offset, body, h);
    }
  }

  lemma {:induction false} EncodingIsStrict(x: Item)
    requires Encodable(x)
    ensures StrictAs(Encode(x))
  {
    match x
    case Str(s) => StrIsStrict(s);
    case List(items) =>
      var parts := seq(|items|, i requires 0 <= i < |items| => Encode(items[i]));
      forall i | 0 <= i < |items| ensures StrictAs(parts[i]) {
        EncodingIsStrict(items[i]);
      }
      ListIsStrict(parts);
  }

  // --------------------------------------------------------------- strict data are encodings

  /** What stands between a strict item's offset and its end is the encoding of `x`, and `Decode` returns `x`. */
  ghost predicate Reads(data: bytes, offset: nat, x: Item)
    requires offset < |data|
  {
    && Encodable(x) && Has(data, offset, Encode(x)) && offset + |Encode(x)| == EndAt(data, offset)
    && Decode(data, offset) == Success((x, EndAt(data, offset)))
  }

  lemma ShortHeader(data: bytes, offset: nat)
    requires offset < |data| && data[offset] >= 0x80
    requires HeaderAt(data, offset).length.Short?
    ensures var h := HeaderAt(data, offset);
            var n := h.length.Value();
            && n < 56 && Announceable(n)
            && Has(data, offset, Announce(Shorts(h.isList), Longs(h.isList), n))
            && offset + |Announce(Shorts(h.isList), Longs(h.isList), n)| == h.start
  {
    AnnounceableExactly(HeaderAt(data, offset).length.Value());
  }

  lemma LongHeaderBytes(data: bytes, offset: nat)
    requires offset < |data| && HeaderAt(data, offset).length.Long?
    requires HeaderAt(data, offset).start <= |data|
    ensures var h := HeaderAt(data, offset);
            && 1 <= |h.length.digits| <= 8
            && Has(data, offset, [Longs(h.isList) + |h.length.digits|] + h.length.digits)
            && h.start == offset + 1 + |h.length.digits|
  {
    var h := HeaderAt(data, offset);
    var digits := h.length.digits;
    assert digits == data[offset+1..h.start];
    assert data[offset..h.start] == [data[offset]] + digits;
  }

  /** A brief announcement is the one that the encoder writes. */
  lemma BriefIsAnnounced(data: bytes, offset: nat)
    requires offset < |data| && data[offset] >= 0x80
    requires Brief(data, offset, HeaderAt(data, offset)) && HeaderAt(data, offset).start <= |data|
    ensures var h := HeaderAt(data, offset);
            var n := h.length.Value();
            && Announceable(n)
            && Has(data, offset, Announce(Shorts(h.isList), Longs(h.isList), n))
            && offset + |Announce(Shorts(h.isList), Longs(h.isList), n)| == h.start
  {
    var h := HeaderAt(data, offset);
    if h.length.Short? {
      ShortHeader(data, offset);
    } else {
      LongHeaderBytes(data, offset);
      BigEndianOfBytes(h.length.digits);
    }
  }

  lemma HasJoin(data: bytes, offset: nat, s: bytes, t: bytes)
    requires Has(data, offset, s) && Has(data, offset + |s|, t)
    ensures Has(data, offset, s + t)
  {
    assert data[offset..offset + |s + t|] == data[offset..offset + |s|] + data[offset + |s|..offset + |s + t|];
  }

  lemma SingleReads(data: bytes, offset: nat)
    requires offset < |data| && data[offset] < 0x80
    ensures Reads(data, offset, Str([data[offset]]))
  {
    var s := [data[offset]];
    assert data[offset..offset+1] == s;
    AnnounceableExactly(1);
    SingleByte(data, offset, s);
    assert ReadsAt(data, offset, s, Str(s));
  }

  lemma AnnouncedStrReads(data: bytes, offset: nat, s: bytes, h: bytes)
    requires offset < |data| && !HeaderAt(data, offset).isList && (|s| == 1 ==> s[0] >= 0x80)
    requires Announceable(|s|) && h == Announce(0x80, 0xB7, |s|)
    requires Has(data, offset, h) && Has(data, offset + |h|, s) && EndAt(data, offset) == offset + |h| + |s|
    ensures Reads(data, offset, Str(s))
  {
    EncodeOfStr(s, h);
    HasJoin(data, offset, h, s);
    AnnouncedStr(data, offset, s, h);
    assert ReadsAt(data, offset, h + s, Str(s));
  }

  lemma EncodeOfStr(s: bytes, h: bytes)
    requires Announceable(|s|) && h == Announce(0x80, 0xB7, |s|) && (|s| == 1 ==> s[0] >= 0x80)
    ensures Encodable(Str(s)) && Encode(Str(s)) == h + s
  {
  }

  lemma StrictStrReads(data: bytes, offset: nat)
    requires Strict(data, offset) && !HeaderAt(data, offset).isList
    ensures exists x :: Reads(data, offset, x)
  {
    if data[offset] < 0x80 {
      SingleReads(data, offset);
    } else {
      var h, end := HeaderAt(data, offset), EndAt(data, offset);
      var s := data[h.start..end];
      BriefIsAnnounced(data, offset);
      assert |s| == 1 ==> s[0] == data[h.start];
      AnnouncedStrReads(data, offset, s, Announce(0x80, 0xB7, |s|));
    }
  }

  function Parts(items: seq<Item>): seq<bytes>
    requires forall i | 0 <= i < |items| :: Encodable(items[i])
  {
    seq(|items|, i requires 0 <= i < |items| => Encode(items[i]))
  }

  lemma PartsCons(x: Item, items: seq<Item>)
    requires Encodable(x) && forall i | 0 <= i < |items| :: Encodable(items[i])
    ensures Concat(Parts([x] + items)) == Encode(x) + Concat(Parts(items))
  {
    assert Parts([x] + items)[1..] == Parts(items);
  }

  /** From one offset to another the loop reads `items`. */
  ghost predicate LoopReads(data: bytes, start: nat, end: nat, items: seq<Item>) {
    forall done :: DecodeItems(data, start, end, done) == Success((done + items, end))
  }

  /** What stands between two offsets are the encodings of `items`, and the loop reads them. */
  ghost predicate ReadsItems(data: bytes, start: nat, end: nat, items: seq<Item>) {
    && (forall i | 0 <= i < |items| :: Encodable(items[i]))
    && Has(data, start, Concat(Parts(items))) && start + |Concat(Parts(items))| == end
    && LoopReads(data, start, end, items)
  }

  lemma NoItems(data: bytes, start: nat)
    requires start <= |data|
    ensures ReadsItems(data, start, start, [])
  {
    assert Concat(Parts([])) == [];
    assert forall done: seq<Item> :: done + [] == done;
  }

  lemma LoopReadsOneMore(data: bytes, start: nat, next: nat, end: nat, x: Item, items: seq<Item>)
    requires start < end && Decode(data, start) == Success((x, next)) && LoopReads(data, next, end, items)
    ensures LoopReads(data, start, end, [x] + items)
  {
    forall done ensures DecodeItems(data, start, end, done) == Success((done + ([x] + items), end)) {
      ItemsStep(data, start, end, done, x, next);
      assert DecodeItems(data, next, end, done + [x]) == Success((done + [x] + items, end));
      assert done + [x] + items == done + ([x] + items);
    }
  }

  lemma OneMoreItem(data: bytes, start: nat, end: nat, x: Item, items: seq<Item>)
    requires start < end && start < |data| && Reads(data, start, x) && ReadsItems(data, EndAt(data, start), end, items)
    ensures ReadsItems(data, start, end, [x] + items)
  {
    PartsCons(x, items);
    HasJoin(data, start, Encode(x), Concat(Parts(items)));
    LoopReadsOneMore(data, start, EndAt(data, start), end, x, items);
  }

  lemma {:induction false} StrictReads(data: bytes, offset: nat)
    requires Strict(data, offset)
    ensures exists x :: Reads(data, offset, x)
    decreases Left(data, offset), 0
  {
    if !HeaderAt(data, offset).isList {
      StrictStrReads(data, offset);
    } else {
      StrictItemsRead(data, HeaderAt(data, offset).start, EndAt(data, offset));
      StrictListReads(data, offset);
    }
  }

  lemma {:induction false} StrictItemsRead(data: bytes, start: nat, end: nat)
    requires StrictItems(data, start, end) && end <= |data|
    ensures exists items :: ReadsItems(data, start, end, items)
    decreases Left(data, start), 1
  {
    if start >= end {
      NoItems(data, start);
    } else {
      StrictReads(data, start);
      StrictItemsRead(data, EndAt(data, start), end);
      var x :| Reads(data, start, x);
      var items :| ReadsItems(data, EndAt(data, start), end, items);
      OneMoreItem(data, start, end, x, items);
    }
  }

  lemma StrictListReads(data: bytes, offset: nat)
    requires Strict(data, offset) && HeaderAt(data, offset).isList
    requires exists items :: ReadsItems(data, HeaderAt(data, offset).start, EndAt(data, offset), items)
    ensures exists x :: Reads(data, offset, x)
  {
    var h, end := HeaderAt(data, offset), EndAt(data, offset);
    var items :| ReadsItems(data, h.start, end, items);
    BriefIsAnnounced(data, offset);
    ListOfItemsReads(data, offset, items);
  }

  lemma ListOfItemsReads(data: bytes, offset: nat, items: seq<Item>)
    requires offset < |data| && HeaderAt(data, offset).isList
    requires ReadsItems(data, HeaderAt(data, offset).start, EndAt(data, offset), items)
    requires var n := HeaderAt(data, offset).length.Value();
             && Announceable(n) && Has(data, offset, Announce(0xC0, 0xF7, n))
             && offset + |Announce(0xC0, 0xF7, n)| == HeaderAt(data, offset).start
    ensures Reads(data, offset, List(items))
  {
    var h, end := HeaderAt(data, offset), EndAt(data, offset);
    var body := Concat(Parts(items));
    assert |body| == h.length.Value();
    assert Encodable(List(items));
    assert Encode(List(items)) == Announce(0xC0, 0xF7, |body|) + body;
    HasJoin(data, offset, Announce(0xC0, 0xF7, |body|), body);
    assert LoopReads(data, h.start, end, items);
    assert DecodeItems(data, h.start, end, []) == Success(([] + items, end));
    assert [] + items == items;
    DecodeAtList(data, offset, h.start, h.length, end, items);
  }

  // -------------------------------------------------------------------- exactly

  /** The data have the encoding of an item at an offset exactly if they are strict there: a condition on the bytes.
      `Decode` then returns that item and the offset where its encoding ends. */
  lemma StrictExactly(data: bytes, offset: nat)
    ensures Strict(data, offset) <==> exists x | Encodable(x) :: Has(data, offset, Encode(x))
    ensures forall x | Encodable(x) && Has(data, offset, Encode(x)) ::
              Decode(data, offset) == Success((x, offset + |Encode(x)|))
  {
    if Strict(data, offset) {
      StrictReads(data, offset);
      var x :| Reads(data, offset, x);
      assert Encodable(x) && Has(data, offset, Encode(x));
    }
    forall x | Encodable(x) && Has(data, offset, Encode(x))
      ensures Strict(data, offset)
      ensures Decode(data, offset) == Success((x, offset + |Encode(x)|))
    {
      EncodingIsStrict(x);
      assert StrictAt(data, offset, Encode(x));
      RoundTrip(x);
      assert ReadsAt(data, offset, Encode(x), x);
    }
  }

  /** So re-encoding what the decoder returns is a test for strictness. */
  lemma ReencodingTests(data: bytes)
    ensures Strict(data, 0) <==>
            var r := Decode(data, 0);
            r.Success? && Encodable(r.value.0) && Encode(r.value.0) <= data
  {
    StrictExactly(data, 0);
    ReencodingDecides(data);
    forall x | Encodable(x) ensures Has(data, 0, Encode(x)) <==> Encode(x) <= data {}
  }

  /** Neither of the data that the decoder takes without being an encoding is strict. */
  lemma LooseData()
    ensures Decode([0x81, 0x05], 0).Success? && !Strict([0x81, 0x05], 0)
    ensures Decode([0x83, 0x01], 0).Success? && !Strict([0x83, 0x01], 0)
  {
    AcceptsMoreThanEncodings();
  }
}
