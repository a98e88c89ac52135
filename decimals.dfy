/** Decimal digit strings and the half-even rounding that Python's
    `Decimal` formatting applies under its default context. */
module Decimals {
  import opened Strings

  function Pow10(n: nat): (p: nat)
    ensures p >= 1
  {
    if n == 0 then 1 else 10 * Pow10(n - 1)
  }

  /** A finite decimal number as Python's `Decimal` holds it: a sign, a
      natural coefficient and a count of fractional digits, denoting
      `(-1)^sign * digits / 10^places` ("-1,50" is
      `Decimal(true, 150, 2)`). `places` is the negated exponent of
      `Decimal.as_tuple()`. */
  datatype Decimal = Decimal(negative: bool, digits: nat, places: nat)

  /** The number a `Decimal` denotes. */
  function Value(d: Decimal): real {
    var x := d.digits as real / Pow10(d.places) as real;
    if d.negative then -x else x
  }

  /** A `Decimal` is positive exactly when it has no sign and a non-zero
      coefficient, and zero exactly when its coefficient is. */
  lemma ValueSign(d: Decimal)
    ensures Value(d) > 0.0 <==> !d.negative && d.digits > 0
    ensures Value(d) == 0.0 <==> d.digits == 0
  {
    var p := Pow10(d.places) as real;
    var x := d.digits as real / p;
    assert x * p == d.digits as real;
  }

  function DigitChar(d: nat): (c: char)
    requires d < 10
    ensures IsDigit(c) && c as int - '0' as int == d
  {
    (d + '0' as int) as char
  }

  function DigitValue(c: char): (d: nat)
    requires IsDigit(c)
    ensures d < 10
  {
    c as int - '0' as int
  }

  /** The number a string of decimal digits denotes; `width` digits never
      reach `10^width`. */
  function DigitsValue(s: string): (v: nat)
    requires AllDigits(s)
    ensures v < Pow10(|s|)
  {
    if s == [] then 0 else DigitsValue(s[..|s| - 1]) * 10 + DigitValue(s[|s| - 1])
  }

  /** `str(n)` for a natural number: at least one digit, no leading zero,
      and it reads back as `n`. */
  function NatToDecimal(n: nat): (s: string)
    ensures |s| >= 1 && AllDigits(s)
    ensures DigitsValue(s) == n
    ensures s[0] == '0' ==> n == 0
    ensures n < 10 ==> |s| == 1
  {
    if n < 10 then [DigitChar(n)]
    else
      var s := NatToDecimal(n / 10) + [DigitChar(n % 10)];
      assert s[..|s| - 1] == NatToDecimal(n / 10);
      s
  }

  /** `k` zero digits. */
  function Zeros(k: nat): (z: string)
    ensures |z| == k && AllDigits(z)
    ensures DigitsValue(z) == 0
  {
    if k == 0 then []
    else
      var z := Zeros(k - 1) + "0";
      assert z[..k - 1] == Zeros(k - 1);
      z
  }

  /** The value of a concatenation: the left digits count `10^|b|` times. */
  lemma {:induction false} DigitsValueSplit(a: string, b: string)
    requires AllDigits(a) && AllDigits(b)
    ensures AllDigits(a + b)
    ensures DigitsValue(a + b) == DigitsValue(a) * Pow10(|b|) + DigitsValue(b)
  {
    var s := a + b;
    if b == [] {
      assert s == a;
    } else {
      var n := |b|;
      assert s[..|s| - 1] == a + b[..n - 1];
      assert s[|s| - 1] == b[n - 1];
      var front := b[..n - 1];
      DigitsValueSplit(a, front);
      Shift(DigitsValue(a), Pow10(n - 1), DigitsValue(front), DigitValue(b[n - 1]),
            DigitsValue(s), Pow10(n), DigitsValue(b));
    }
  }

  lemma Shift(x: int, q: int, y: int, d: int, v: int, p: int, w: int)
    requires v == (x * q + y) * 10 + d && p == 10 * q && w == y * 10 + d
    ensures v == x * p + w
  {
  }

  /** Zeros on the left change nothing. */
  lemma LeadingZeros(k: nat, s: string)
    requires AllDigits(s)
    ensures AllDigits(Zeros(k) + s) && DigitsValue(Zeros(k) + s) == DigitsValue(s)
  {
    DigitsValueSplit(Zeros(k), s);
    assert DigitsValue(Zeros(k)) * Pow10(|s|) == 0;
  }

  /** Round to the nearest integer, ties to the even neighbour
      (ROUND_HALF_EVEN, the rounding of Python's default decimal context). */
  function RoundHalfEven(x: real): (n: int)
    ensures -0.5 <= n as real - x <= 0.5
    ensures (n as real - x == 0.5 || x - n as real == 0.5) ==> n % 2 == 0
  {
    var f := x.Floor;
    var d := x - f as real;
    if d < 0.5 then f
    else if d > 0.5 then f + 1
    else if f % 2 == 0 then f
    else f + 1
  }

  /** Rounding keeps the sign, and leaves an integer as it is. */
  lemma RoundHalfEvenFacts(x: real)
    ensures x >= 0.0 ==> RoundHalfEven(x) >= 0
    ensures x <= 0.0 ==> RoundHalfEven(x) <= 0
    ensures x == x.Floor as real ==> RoundHalfEven(x) == x.Floor
  {
  }
}
