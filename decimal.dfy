/** Java's 32-bit `int`, `Math.abs` on it, and the decimal text that string
    concatenation (`"..." + n`) produces for an `int`. */
module Decimal {

  /** Java's `int`. */
  newtype int32 = x: int | -0x8000_0000 <= x < 0x8000_0000

  /** `Integer.MIN_VALUE`, the one `int` whose negation does not fit. */
  const MIN_VALUE: int32 := -0x8000_0000

  /** `Math.abs(int)`: two's-complement negation, which wraps back to
      `Integer.MIN_VALUE` for that one argument. */
  function Abs(x: int32): (r: int32)
    ensures r == x || r as int == -(x as int)
    ensures r < 0 <==> x == MIN_VALUE
  {
    if x >= 0 || x == MIN_VALUE then x else -x
  }

  /** The mathematical absolute value, for comparison with `Abs`. */
  function Magnitude(x: int): nat
  {
    if x < 0 then -x else x
  }

  predicate IsDigit(c: char)
  {
    '0' <= c <= '9'
  }

  predicate AllDigits(s: string)
  {
    forall i :: 0 <= i < |s| ==> IsDigit(s[i])
  }

  function DigitChar(d: nat): (c: char)
    requires d < 10
    ensures IsDigit(c) && c as int - '0' as int == d
  {
    ('0' as int + d) as char
  }

  function DigitValue(c: char): (d: nat)
    requires IsDigit(c)
    ensures d < 10 && DigitChar(d) == c
  {
    c as int - '0' as int
  }

  /** Decimal text of a non-negative number, as `Integer.toString` prints
      it: at least one digit and no leading zero. */
  function NatToDecimal(n: nat): (s: string)
    ensures |s| >= 1 && AllDigits(s)
    ensures s[0] == '0' ==> n == 0 && s == "0"
    decreases n
  {
    if n < 10 then [DigitChar(n)] else NatToDecimal(n / 10) + [DigitChar(n % 10)]
  }

  /** The number a string of decimal digits denotes. */
  function DecimalValue(s: string): nat
    requires AllDigits(s)
  {
    if s == [] then 0 else 10 * DecimalValue(s[..|s| - 1]) + DigitValue(s[|s| - 1])
  }

  /** Reading back the printed digits gives the number printed. */
  lemma {:induction false} DecimalRoundTrip(n: nat)
    ensures DecimalValue(NatToDecimal(n)) == n
  {
    if n >= 10 {
      var s := NatToDecimal(n);
      assert s[..|s| - 1] == NatToDecimal(n / 10);
      DecimalRoundTrip(n / 10);
    }
  }

  /** Distinct numbers print differently. */
  lemma NatToDecimalInjective(a: nat, b: nat)
    requires NatToDecimal(a) == NatToDecimal(b)
    ensures a == b
  {
    DecimalRoundTrip(a);
    DecimalRoundTrip(b);
  }

  /** Decimal text of any `int`, as `Integer.toString` prints it: a leading
      '-' for a negative value and no leading zero. */
  function IntToDecimal(x: int): (s: string)
    ensures |s| >= 1 && (s[0] == '-' <==> x < 0)
    ensures AllDigits(s[1..])
    ensures AllDigits(if x < 0 then s[1..] else s)
    ensures x >= 0 && s[0] == '0' ==> s == "0"
    ensures x < 0 ==> |s| >= 2 && s[1] != '0'
  {
    if x < 0 then "-" + NatToDecimal(-x) else NatToDecimal(x)
  }

  /** Reads an optionally signed decimal number. */
  function ParseInt(s: string): int
    requires |s| >= 1 && AllDigits(s[1..]) && (s[0] != '-' ==> IsDigit(s[0]))
  {
    if s[0] == '-' then -(DecimalValue(s[1..]) as int) else DecimalValue(s)
  }

  /** Reading back the decimal text of an `int` gives that `int`. */
  lemma IntRoundTrip(x: int)
    ensures ParseInt(IntToDecimal(x)) == x
  {
    if x < 0 {
      assert IntToDecimal(x)[1..] == NatToDecimal(-x);
      DecimalRoundTrip(-x);
    } else {
      DecimalRoundTrip(x);
    }
  }
}
