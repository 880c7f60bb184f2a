/**
 * Decimal rendering of integers, as done by `std::to_string` and by
 * `operator<<` on an `std::ostream`, together with the value a rendering
 * denotes, so that a rendering can be shown to determine its number.
 */
module Decimal {

  predicate IsDigit(c: char) {
    '0' <= c <= '9'
  }

  /** A non-empty run of decimal digits with no superfluous leading zero. */
  predicate IsNumeral(s: string) {
    && |s| > 0
    && (forall i :: 0 <= i < |s| ==> IsDigit(s[i]))
    && (|s| > 1 ==> s[0] != '0')
  }

  /** A numeral, optionally preceded by a minus sign (never "-0"). */
  predicate IsSignedNumeral(s: string) {
    if |s| > 0 && s[0] == '-' then IsNumeral(s[1..]) && s[1..] != "0" else IsNumeral(s)
  }

  function DigitChar(d: nat): (c: char)
    requires d < 10
    ensures IsDigit(c) && DigitValue(c) == d
  {
    (d + '0' as int) as char
  }

  function DigitValue(c: char): nat
    requires IsDigit(c)
  {
    c as int - '0' as int
  }

  /** The number a string of digits denotes. */
  function Value(s: string): nat
    requires forall i :: 0 <= i < |s| ==> IsDigit(s[i])
  {
    if s == [] then 0 else 10 * Value(s[..|s| - 1]) + DigitValue(s[|s| - 1])
  }

  /** The number a signed numeral denotes. */
  function SignedValue(s: string): int
    requires IsSignedNumeral(s)
  {
    if |s| > 0 && s[0] == '-' then -(Value(s[1..]) as int) else Value(s)
  }

  /** `std::to_string` of an unsigned number: its shortest decimal numeral. */
  function NatToString(n: nat): (s: string)
    ensures IsNumeral(s)
    ensures s[0] == '0' ==> n == 0
  {
    if n < 10 then [DigitChar(n)] else NatToString(n / 10) + [DigitChar(n % 10)]
  }

  /** `std::to_string` of a signed number, and what `operator<<` writes for an `int`. */
  function IntToString(x: int): (s: string)
    ensures IsSignedNumeral(s)
  {
    if x < 0 then "-" + NatToString(-x) else NatToString(x)
  }

  /** Reading back a rendering gives the number rendered. */
  lemma {:induction false} NatRoundTrip(n: nat)
    ensures Value(NatToString(n)) == n
  {
    if n >= 10 {
      var s := NatToString(n);
      NatRoundTrip(n / 10);
      assert s[..|s| - 1] == NatToString(n / 10);
    }
  }

  lemma IntRoundTrip(x: int)
    ensures SignedValue(IntToString(x)) == x
  {
    var s := IntToString(x);
    if x < 0 {
      assert s[1..] == NatToString(-x);
      NatRoundTrip(-x);
    } else {
      NatRoundTrip(x);
    }
  }

  /** Distinct numbers are rendered differently. */
  lemma NatToStringInjective(m: nat, n: nat)
    requires NatToString(m) == NatToString(n)
    ensures m == n
  {
    NatRoundTrip(m);
    NatRoundTrip(n);
  }
}
