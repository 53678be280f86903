/**
 The framing of a sealed bid: a version byte, two length-prefixed key wraps, and the symmetric part. The encryption
 itself is not modelled; the fields are byte strings.
 */
module CiphertextFraming {
  import opened Prelude
  import opened Bytes

  const SYM_KEY_LEN := 32
  const SYM_NONCE_LEN := 12
  const SYM_TAG_LEN := 16
  const KEY_WRAP_PUBKEY_LEN := 33
  const KEY_WRAP_NONCE_LEN := 12
  const KEY_WRAP_TAG_LEN := 16

  datatype KeyWrap = KeyWrap(ephemeralPublicKey: bytes, nonce: bytes, ciphertext: bytes, authTag: bytes)

  datatype Parts = Parts(version: byte, auctioneerWrap: KeyWrap, bidderWrap: KeyWrap,
                         symNonce: bytes, symCiphertext: bytes, symTag: bytes)

  datatype FramingError =
    | TooShort | InvalidAuctioneerWrapLength | InvalidBidderWrapLength | MissingSymmetricSegment | InvalidKeyWrap
    | OutOfRange // raised by the 16-bit read and write themselves

  // -------------------------------------------------------------------- packing

  /** `writeUInt16BE` into a fresh buffer; it refuses what does not fit. */
  function U16FromLength(n: nat): Result<bytes, FramingError> {
    if n > 0xFFFF then Failure(OutOfRange) else Success([n / 256, n % 256])
  }

  function PackKeyWrap(w: KeyWrap): bytes {
    w.ephemeralPublicKey + w.nonce + w.authTag + w.ciphertext
  }

  function PackCiphertext(p: Parts): Result<bytes, FramingError> {
    var a, b := PackKeyWrap(p.auctioneerWrap), PackKeyWrap(p.bidderWrap);
    var la :- U16FromLength(|a|);
    var lb :- U16FromLength(|b|);
    Success([p.version] + la + a + lb + b + p.symNonce + p.symTag + p.symCiphertext)
  }

  // -------------------------------------------------------------------- parsing

  function U16At(data: bytes, offset: nat): nat
    requires offset + 2 <= |data|
  {
    data[offset] as int * 256 + data[offset + 1]
  }

  function UnpackKeyWrap(data: bytes): Result<KeyWrap, FramingError> {
    if |data| < 93 then Failure(InvalidKeyWrap)
    else Success(KeyWrap(data[..33], data[33..45], data[61..], data[45..61]))
  }

  function ParseCiphertext(data: bytes): Result<Parts, FramingError> {
    if |data| < 3 then Failure(TooShort)
    else
      var a := 3 + U16At(data, 1);
      if a > |data| then Failure(InvalidAuctioneerWrapLength)
      else if a + 2 > |data| then Failure(OutOfRange)
      else
        var b := a + 2 + U16At(data, a);
        if b > |data| then Failure(InvalidBidderWrapLength)
        else if |data| < b + 28 then Failure(MissingSymmetricSegment)
        else
          var auctioneer :- UnpackKeyWrap(data[3..a]);
          var bidder :- UnpackKeyWrap(data[a+2..b]);
          Success(Parts(data[0], auctioneer, bidder, data[b..b+12], data[b+28..], data[b+12..b+28]))
  }

  method UnpackWrap(data: bytes) returns (r: Result<KeyWrap, FramingError>)
    ensures r == UnpackKeyWrap(data)
  {
    var minLen := KEY_WRAP_PUBKEY_LEN + KEY_WRAP_NONCE_LEN + KEY_WRAP_TAG_LEN + SYM_KEY_LEN;
    if |data| < minLen { return Failure(InvalidKeyWrap); }
    var offset := 0;
    var ephemeralPublicKey := data[offset..offset + KEY_WRAP_PUBKEY_LEN];
    offset := offset + KEY_WRAP_PUBKEY_LEN;
    var nonce := data[offset..offset + KEY_WRAP_NONCE_LEN];
    offset := offset + KEY_WRAP_NONCE_LEN;
    var authTag := data[offset..offset + KEY_WRAP_TAG_LEN];
    offset := offset + KEY_WRAP_TAG_LEN;
    return Success(KeyWrap(ephemeralPublicKey, nonce, data[offset..], authTag));
  }

  /** The offset-driven parser. */
  method Parse(data: bytes) returns (r: Result<Parts, FramingError>)
    ensures r == ParseCiphertext(data)
  {
    if |data| < 3 { return Failure(TooShort); }
    var offset := 0;
    var version := data[offset];
    offset := offset + 1;

    var auctioneerWrapLen := U16At(data, offset);
    offset := offset + 2;
    if offset + auctioneerWrapLen > |data| { return Failure(InvalidAuctioneerWrapLength); }
    var auctioneerWrapBytes := data[offset..offset + auctioneerWrapLen];
    offset := offset + auctioneerWrapLen;

    if offset + 2 > |data| { return Failure(OutOfRange); }
    var bidderWrapLen := U16At(data, offset);
    offset := offset + 2;
    if offset + bidderWrapLen > |data| { return Failure(InvalidBidderWrapLength); }
    var bidderWrapBytes := data[offset..offset + bidderWrapLen];
    offset := offset + bidderWrapLen;

    if |data| < offset + (SYM_NONCE_LEN + SYM_TAG_LEN) { return Failure(MissingSymmetricSegment); }
    var symNonce := data[offset..offset + SYM_NONCE_LEN];
    offset := offset + SYM_NONCE_LEN;
    var symTag := data[offset..offset + SYM_TAG_LEN];
    offset := offset + SYM_TAG_LEN;
    var symCiphertext := data[offset..];

    var auctioneerWrap :- UnpackWrap(auctioneerWrapBytes);
    var bidderWrap :- UnpackWrap(bidderWrapBytes);
    return Success(Parts(version, auctioneerWrap, bidderWrap, symNonce, symCiphertext, symTag));
  }

  // ---------------------------------------------------------- inverse, both ways

  ghost predicate StandardWrap(w: KeyWrap) {
    && |w.ephemeralPublicKey| == KEY_WRAP_PUBKEY_LEN && |w.nonce| == KEY_WRAP_NONCE_LEN
    && |w.authTag| == KEY_WRAP_TAG_LEN && |w.ciphertext| >= SYM_KEY_LEN
  }

  /** The field lengths that encryption produces. */
  ghost predicate Standard(p: Parts) {
    && StandardWrap(p.auctioneerWrap) && StandardWrap(p.bidderWrap)
    && |p.symNonce| == SYM_NONCE_LEN && |p.symTag| == SYM_TAG_LEN
  }

  lemma UnpackInverse(data: bytes, w: KeyWrap)
    ensures UnpackKeyWrap(data) == Success(w) <==> StandardWrap(w) && PackKeyWrap(w) == data
  {
    if StandardWrap(w) && PackKeyWrap(w) == data {
      assert data[..33] == w.ephemeralPublicKey;
      assert data[33..45] == w.nonce;
      assert data[45..61] == w.authTag;
      assert data[61..] == w.ciphertext;
    }
    if |data| >= 93 {
      assert data == data[..33] + data[33..45] + data[45..61] + data[61..];
    }
  }

  /** Packing succeeds exactly if both wraps fit their 16-bit length. */
  lemma PackExactly(p: Parts)
    ensures PackCiphertext(p).Success? <==>
            |PackKeyWrap(p.auctioneerWrap)| <= 0xFFFF && |PackKeyWrap(p.bidderWrap)| <= 0xFFFF
  {
  }

  /** The cut of a blob at its two length fields. */
  lemma Segments(data: bytes, v: byte, la: bytes, a: bytes, lb: bytes, b: bytes, rest: bytes)
    requires |la| == 2 && |lb| == 2
    requires data == [v] + la + a + lb + b + rest
    ensures var i, j := 3 + |a|, 5 + |a| + |b|;
            && |data| == j + |rest|
            && data[0] == v && U16At(data, 1) == U16At(la, 0) && data[3..i] == a
            && U16At(data, i) == U16At(lb, 0) && data[i+2..j] == b && data[j..] == rest
  {
    assert data[1] == la[0] && data[2] == la[1];
    var i := 3 + |a|;
    assert data[i] == lb[0] && data[i+1] == lb[1];
  }

  /** Parsing what was packed returns the parts. */
  lemma ParseOfPack(p: Parts, data: bytes)
    requires Standard(p) && PackCiphertext(p) == Success(data)
    ensures ParseCiphertext(data) == Success(p)
  {
    var a, b := PackKeyWrap(p.auctioneerWrap), PackKeyWrap(p.bidderWrap);
    var la, lb := U16FromLength(|a|).value, U16FromLength(|b|).value;
    var rest := p.symNonce + p.symTag + p.symCiphertext;
    assert data == [p.version] + la + a + lb + b + rest;
    Segments(data, p.version, la, a, lb, b, rest);
    UnpackInverse(a, p.auctioneerWrap);
    UnpackInverse(b, p.bidderWrap);
    SymmetricPart(data, 5 + |a| + |b|, p.symNonce, p.symTag, p.symCiphertext);
  }

  lemma SymmetricPart(data: bytes, j: nat, nonce: bytes, tag: bytes, ciphertext: bytes)
    requires j <= |data| && data[j..] == nonce + tag + ciphertext
    requires |nonce| == SYM_NONCE_LEN && |tag| == SYM_TAG_LEN
    ensures |data| >= j + 28
    ensures data[j..j+12] == nonce && data[j+12..j+28] == tag && data[j+28..] == ciphertext
  {
    assert |data[j..]| == 28 + |ciphertext|;
    assert data[j..j+12] == data[j..][..12];
    assert data[j+12..j+28] == data[j..][12..28];
    assert data[j+28..] == data[j..][28..];
  }

  /** Packing what was parsed returns the blob, byte for byte. */
  lemma PackOfParse(data: bytes, p: Parts)
    requires ParseCiphertext(data) == Success(p)
    ensures Standard(p) && PackCiphertext(p) == Success(data)
  {
    var i := 3 + U16At(data, 1);
    var j := i + 2 + U16At(data, i);
    UnpackInverse(data[3..i], p.auctioneerWrap);
    UnpackInverse(data[i+2..j], p.bidderWrap);
    U16Inverse(data, 1);
    U16Inverse(data, i);
    Extend(data, 1, 3);
    Extend(data, 3, i);
    Extend(data, i, i + 2);
    Extend(data, i + 2, j);
    Extend(data, j, j + 12);
    Extend(data, j + 12, j + 28);
    Extend(data, j + 28, |data|);
    assert data[..1] == [data[0]];
  }

  lemma U16Inverse(data: bytes, offset: nat)
    requires offset + 2 <= |data|
    ensures U16FromLength(U16At(data, offset)) == Success(data[offset..offset+2])
  {
    var hi: int, lo: int := data[offset], data[offset+1];
    assert hi * 256 + lo <= 0xFFFF;
    assert (hi * 256 + lo) / 256 == hi && (hi * 256 + lo) % 256 == lo;
    assert data[offset..offset+2] == [data[offset], data[offset+1]];
  }

  lemma Extend(data: bytes, i: nat, j: nat)
    requires i <= j <= |data|
    ensures data[..i] + data[i..j] == data[..j]
    ensures j == |data| ==> data[..j] == data && data[i..j] == data[i..]
  {
  }

  /** The parser accepts exactly the packings of standard parts, and inverts them; nothing else parses. */
  lemma FramingExactly(data: bytes, p: Parts)
    ensures ParseCiphertext(data) == Success(p) <==> Standard(p) && PackCiphertext(p) == Success(data)
  {
    if ParseCiphertext(data) == Success(p) { PackOfParse(data, p); }
    if Standard(p) && PackCiphertext(p) == Success(data) { ParseOfPack(p, data); }
  }

  /** Two different standard contents never share a blob. */
  lemma PackInjective(p: Parts, q: Parts)
    requires Standard(p) && Standard(q) && PackCiphertext(p).Success? && PackCiphertext(p) == PackCiphertext(q)
    ensures p == q
  {
    ParseOfPack(p, PackCiphertext(p).value);
    ParseOfPack(q, PackCiphertext(q).value);
  }

  // ------------------------------------------------------------ byte by byte

  /** The wrap of `n` bytes from `i`: key, nonce, tag, and the rest for the wrapped key. */
  ghost predicate WrapAt(data: bytes, i: nat, n: nat, w: KeyWrap) {
    && n >= 93 && i + n <= |data|
    && w.ephemeralPublicKey == data[i..i+33] && w.nonce == data[i+33..i+45]
    && w.authTag == data[i+45..i+61] && w.ciphertext == data[i+61..i+n]
  }

  function TwoBytes(high: byte, low: byte): nat {
    256 * high as int + low as int
  }

  lemma SliceOfSlice(data: bytes, i: nat, n: nat, a: nat, b: nat)
    requires a <= b <= n && i + n <= |data|
    ensures data[i..i+n][a..b] == data[i+a..i+b]
  {
    var slice, there := data[i..i+n][a..b], data[i+a..i+b];
    forall k | 0 <= k < b - a ensures slice[k] == there[k] {
      assert slice[k] == data[i..i+n][a+k];
    }
    assert slice == there;
  }

  lemma WrapExactly(data: bytes, i: nat, n: nat)
    requires i + n <= |data|
    ensures n < 93 ==> UnpackKeyWrap(data[i..i+n]) == Failure(InvalidKeyWrap)
    ensures n >= 93 ==> UnpackKeyWrap(data[i..i+n]).Success? && WrapAt(data, i, n, UnpackKeyWrap(data[i..i+n]).value)
  {
    var wrap := data[i..i+n];
    if n >= 93 {
      SliceOfSlice(data, i, n, 0, 33);
      SliceOfSlice(data, i, n, 33, 45);
      SliceOfSlice(data, i, n, 45, 61);
      SliceOfSlice(data, i, n, 61, n);
      assert wrap[..33] == wrap[0..33] && wrap[61..] == wrap[61..n];
    }
  }

  /** What a blob is, byte for byte, and each reason for which it is none: fewer than three bytes; a first wrap that
      overruns; no room for the second length; a second wrap that overruns; fewer than 28 bytes after it; a wrap of
      fewer than 93 bytes. */
  lemma ParseExactly(data: bytes)
    ensures var r := ParseCiphertext(data);
            && (r == Failure(TooShort) <==> |data| < 3)
            && (|data| >= 3 ==>
                  var first := TwoBytes(data[1], data[2]);
                  && (r == Failure(InvalidAuctioneerWrapLength) <==> 3 + first > |data|)
                  && (r == Failure(OutOfRange) <==> 3 + first <= |data| < 5 + first)
                  && (5 + first <= |data| ==>
                        var second := TwoBytes(data[3+first], data[4+first]);
                        var end := 5 + first + second;
                        && (r == Failure(InvalidBidderWrapLength) <==> end > |data|)
                        && (r == Failure(MissingSymmetricSegment) <==> end <= |data| < end + 28)
                        && (end + 28 <= |data| ==>
                              && (r == Failure(InvalidKeyWrap) <==> first < 93 || second < 93)
                              && (first >= 93 && second >= 93 ==>
                                    && r.Success? && r.value.version == data[0]
                                    && WrapAt(data, 3, first, r.value.auctioneerWrap)
                                    && WrapAt(data, 5 + first, second, r.value.bidderWrap)
                                    && r.value.symNonce == data[end..end+12]
                                    && r.value.symTag == data[end+12..end+28]
                                    && r.value.symCiphertext == data[end+28..]))))
  {
    if |data| >= 3 {
      var first := TwoBytes(data[1], data[2]);
      if 5 + first <= |data| {
        var second := TwoBytes(data[3+first], data[4+first]);
        if 5 + first + second + 28 <= |data| {
          WrapExactly(data, 3, first);
          WrapExactly(data, 5 + first, second);
        }
      }
    }
  }
}
