/** Decimal rendering of integers, as Go's strconv.Itoa and the `%d` verb produce it. */
module Decimal {

  predicate IsDigit(c: char) {
    '0' <= c <= '9'
  }

  predicate AllDigits(s: string) {
    forall i :: 0 <= i < |s| ==> IsDigit(s[i])
  }

  function DigitChar(d: nat): (c: char)
    requires d < 10
    ensures IsDigit(c)
  {
    (d + '0' as int) as char
  }

  function DigitValue(c: char): (d: nat)
    requires IsDigit(c)
    ensures d < 10 && DigitChar(d) == c
  {
    c as int - '0' as int
  }

  /** The shortest decimal numeral of n: no sign, no leading zero. */
  function NatToString(n: nat): (s: string)
    ensures |s| >= 1 && AllDigits(s)
    ensures s[0] == '0' <==> n == 0
    ensures n == 0 ==> s == "0"
    decreases n
  {
    if n < 10 then [DigitChar(n)] else NatToString(n / 10) + [DigitChar(n % 10)]
  }

  /** The value of a string of decimal digits (the reading direction of NatToString). */
  function DigitsValue(s: string): nat
    requires AllDigits(s)
  {
    if s == [] then 0 else DigitsValue(s[..|s| - 1]) * 10 + DigitValue(s[|s| - 1])
  }

  lemma {:induction false} NatToStringRoundTrip(n: nat)
    ensures DigitsValue(NatToString(n)) == n
    decreases n
  {
    var s := NatToString(n);
    if n >= 10 {
      NatToStringRoundTrip(n / 10);
      assert s[..|s| - 1] == NatToString(n / 10);
    }
  }

  /** Reading the numeral back identifies the number: different numbers get different numerals. */
  lemma NatToStringInjective(m: nat, n: nat)
    requires NatToString(m) == NatToString(n)
    ensures m == n
  {
    NatToStringRoundTrip(m);
    NatToStringRoundTrip(n);
  }

  /** strconv.Itoa: an optional minus sign followed by the numeral of the magnitude. */
  function IntToString(i: int): string {
    if i < 0 then "-" + NatToString(-i) else NatToString(i)
  }

  /**
   * The numeral reads back as the number: a minus sign exactly for negative numbers,
   * then digits whose value is the magnitude, with no leading zero.
   */
  lemma IntToStringCorrect(i: int)
    ensures var s := IntToString(i);
      |s| >= 1 &&
      (s[0] == '-' <==> i < 0) &&
      (i >= 0 ==> AllDigits(s) && DigitsValue(s) == i) &&
      (i < 0 ==> |s| >= 2 && AllDigits(s[1..]) && DigitsValue(s[1..]) == -i) &&
      (i > 0 ==> '1' <= s[0] <= '9') &&
      (i == 0 ==> s == "0") &&
      (i < 0 ==> '1' <= s[1] <= '9')
  {
    if i < 0 {
      NegativeNumeral(i);
      assert IntToString(i)[1] == NatToString(-i)[0];
    } else {
      NatToStringRoundTrip(i);
    }
  }

  lemma NegativeNumeral(i: int)
    requires i < 0
    ensures var s := IntToString(i);
      |s| >= 2 && s[0] == '-' && s[1..] == NatToString(-i) && AllDigits(s[1..]) && DigitsValue(s[1..]) == -i
  {
    NatToStringRoundTrip(-i);
    assert IntToString(i)[1..] == NatToString(-i);
  }
}
