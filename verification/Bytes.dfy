/** Bytes and big-endian numbers. */
module Bytes {

  type byte = b: int | 0 <= b < 256

  type bytes = seq<byte>

  /** The number that a big-endian byte string denotes; the empty string denotes 0. */
  function FromBytes(s: bytes): nat {
    if s == [] then 0 else FromBytes(s[..|s|-1]) * 256 + s[|s|-1]
  }

  /** The shortest big-endian byte string for a number; 0 has none. */
  function BigEndian(n: nat): bytes {
    if n == 0 then [] else BigEndian(n / 256) + [n % 256]
  }

  lemma {:induction false} FromBigEndian(n: nat)
    ensures FromBytes(BigEndian(n)) == n
  {
    if n > 0 {
      FromBigEndian(n / 256);
      assert (BigEndian(n / 256) + [n % 256])[..|BigEndian(n / 256)|] == BigEndian(n / 256);
    }
  }

  /** The shortest form of a number does not begin with a zero. */
  lemma {:induction false} BigEndianLeads(n: nat)
    requires n > 0
    ensures BigEndian(n) != [] && BigEndian(n)[0] != 0
  {
    if n >= 256 { BigEndianLeads(n / 256); }
  }

  /** And a byte string that does not begin with a zero is the shortest form of its number. */
  lemma {:induction false} BigEndianOfBytes(s: bytes)
    requires s != [] && s[0] != 0
    ensures FromBytes(s) > 0 && BigEndian(FromBytes(s)) == s
  {
    var init, last := s[..|s|-1], s[|s|-1];
    assert s == init + [last];
    if init != [] { BigEndianOfBytes(init); }
    assert (FromBytes(init) * 256 + last) / 256 == FromBytes(init);
  }

  function Pow256(k: nat): nat {
    if k == 0 then 1 else 256 * Pow256(k - 1)
  }

  lemma {:induction false} Pow256Positive(k: nat)
    ensures Pow256(k) > 0
  {
    if k > 0 { Pow256Positive(k - 1); }
  }

  /** The length of a big-endian form is bounded exactly by the power of 256 the number stays below. */
  lemma {:induction false} BigEndianLength(n: nat, k: nat)
    ensures |BigEndian(n)| <= k <==> n < Pow256(k)
  {
    if k > 0 {
      if n > 0 { BigEndianLength(n / 256, k - 1); } else { Pow256Positive(k); }
    }
  }
}
