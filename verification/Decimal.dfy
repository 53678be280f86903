/** Decimal texts of natural numbers, as `BigInt.prototype.toString` writes them. */
module Decimal {

  function Digit(d: nat): char
    requires d < 10
  {
    ('0' as int + d) as char
  }

  function Text(n: nat): (s: string)
    ensures |s| > 0
  {
    if n < 10 then [Digit(n)] else Text(n / 10) + [Digit(n % 10)]
  }

  /** The number that digits stand for, the last one for units. */
  function Value(digits: string): nat
    requires forall i | 0 <= i < |digits| :: '0' <= digits[i] <= '9'
  {
    if digits == "" then 0 else 10 * Value(digits[..|digits|-1]) + (digits[|digits|-1] as int - '0' as int)
  }

  /** The text of a number is digits that stand for it, without a needless zero. */
  lemma {:induction false} TextExactly(n: nat)
    ensures forall i | 0 <= i < |Text(n)| :: '0' <= Text(n)[i] <= '9'
    ensures Value(Text(n)) == n && (Text(n)[0] == '0' ==> n == 0)
  {
    if n < 10 {
      assert Text(n)[..0] == "";
    } else {
      TextExactly(n / 10);
      assert Text(n)[..|Text(n)|-1] == Text(n / 10) && Text(n)[0] == Text(n / 10)[0];
      assert n == 10 * (n / 10) + n % 10;
    }
  }

  /** Different numbers have different texts. */
  lemma {:induction false} TextInjective(m: nat, n: nat)
    requires Text(m) == Text(n)
    ensures m == n
  {
    assert Text(m)[|Text(m)|-1] == Digit(m % 10) && Text(n)[|Text(n)|-1] == Digit(n % 10);
    assert (Digit(m % 10) as int) - ('0' as int) == m % 10;
    if m >= 10 && n >= 10 {
      assert Text(m)[..|Text(m)|-1] == Text(m / 10) && Text(n)[..|Text(n)|-1] == Text(n / 10);
      TextInjective(m / 10, n / 10);
    }
  }
}
