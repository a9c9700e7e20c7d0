/** Numbers written out in digits, most significant first and without leading zeros. */
module Numerals {

  const LOWER := "0123456789abcdef"
  const UPPER := "0123456789ABCDEF"

  function Digit(d: nat, upper: bool): char
    requires d < 16
  {
    if upper then UPPER[d] else LOWER[d]
  }

  function Numeral(n: nat, radix: nat, upper: bool): string
    requires radix == 10 || radix == 16
  {
    if n < radix then [Digit(n, upper)] else Numeral(n / radix, radix, upper) + [Digit(n % radix, upper)]
  }

  /** JavaScript's `String(n)` of a counter. */
  function Decimal(n: nat): string { Numeral(n, 10, false) }

  predicate IsDigit(c: char) { '0' <= c <= '9' || 'a' <= c <= 'f' || 'A' <= c <= 'F' }

  lemma DigitIs(d: nat, upper: bool)
    requires d < 16
    ensures IsDigit(Digit(d, upper)) && (d < 10 ==> '0' <= Digit(d, upper) <= '9')
  {
  }

  predicate Digits(s: string, radix: nat) {
    s != [] && forall i | 0 <= i < |s| :: IsDigit(s[i]) && (radix == 10 ==> '0' <= s[i] <= '9')
  }

  lemma {:induction false} NumeralShape(n: nat, radix: nat, upper: bool)
    requires radix == 10 || radix == 16
    ensures Digits(Numeral(n, radix, upper), radix)
  {
    if n < radix {
      DigitIs(n, upper);
    } else {
      DigitIs(n % radix, upper);
      NumeralShape(n / radix, radix, upper);
    }
  }

  /** Below `b` there are at most `k` digits, and one more below `radix * b`. */
  lemma NumeralGrows(n: nat, radix: nat, upper: bool, b: nat, k: nat)
    requires (radix == 10 || radix == 16) && n < radix * b && k >= 1
    requires forall m: nat | m < b :: |Numeral(m, radix, upper)| <= k
    ensures |Numeral(n, radix, upper)| <= k + 1
  {
    if radix == 10 { assert n / 10 < b; } else { assert n / 16 < b; }
  }

  lemma NumeralLengthNext(radix: nat, upper: bool, b: nat, k: nat)
    requires (radix == 10 || radix == 16) && k >= 1
    requires forall m: nat | m < b :: |Numeral(m, radix, upper)| <= k
    ensures forall m: nat | m < radix * b :: |Numeral(m, radix, upper)| <= k + 1
  {
    forall m: nat | m < radix * b ensures |Numeral(m, radix, upper)| <= k + 1 { NumeralGrows(m, radix, upper, b, k); }
  }

  lemma ShortDecimal(n: nat, upper: bool)
    requires n < 10_000_000
    ensures |Numeral(n, 10, upper)| <= 7
  {
    NumeralLengthNext(10, upper, 10, 1);
    NumeralLengthNext(10, upper, 100, 2);
    NumeralLengthNext(10, upper, 1_000, 3);
    NumeralLengthNext(10, upper, 10_000, 4);
    NumeralLengthNext(10, upper, 100_000, 5);
    NumeralLengthNext(10, upper, 1_000_000, 6);
  }

  lemma ShortHex(n: nat, upper: bool)
    requires n < 0x100_0000
    ensures |Numeral(n, 16, upper)| <= 6
  {
    NumeralLengthNext(16, upper, 0x10, 1);
    NumeralLengthNext(16, upper, 0x100, 2);
    NumeralLengthNext(16, upper, 0x1000, 3);
    NumeralLengthNext(16, upper, 0x1_0000, 4);
    NumeralLengthNext(16, upper, 0x10_0000, 5);
  }
}
