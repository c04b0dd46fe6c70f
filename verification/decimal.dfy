/**
  The decimal form of a natural number, as the number-to-string
  conversion of the base library writes it: the shortest string of ASCII
  digits, with no sign and no leading zero. Its partner is the parser of
  such strings, and the two are inverse.
*/
module Decimal {
  import opened Wrappers

  predicate IsDigit(c: char)
  {
    '0' <= c <= '9'
  }

  predicate AllDigits(s: string)
  {
    forall k :: 0 <= k < |s| ==> IsDigit(s[k])
  }

  function DigitChar(d: nat): (c: char)
    requires d < 10
    ensures IsDigit(c)
  {
    (48 + d) as char
  }

  function DigitValue(c: char): (d: nat)
    requires IsDigit(c)
    ensures d < 10
  {
    c as int - 48
  }

  /** The decimal form of `n`: digits only, and a leading zero only for zero itself. */
  function NumberToString(n: nat): (s: string)
    ensures |s| >= 1 && AllDigits(s)
    ensures s[0] == '0' <==> n == 0
    ensures s[0] == '0' ==> |s| == 1
    decreases n
  {
    if n < 10 then [DigitChar(n)] else NumberToString(n / 10) + [DigitChar(n % 10)]
  }

  /** The number a string of digits denotes, most significant digit first. */
  function DigitsValue(s: string): nat
    requires AllDigits(s)
  {
    if |s| == 0 then 0 else DigitsValue(s[..|s| - 1]) * 10 + DigitValue(s[|s| - 1])
  }

  /** The parser: a non-empty string of digits without a leading zero, read as a number. */
  function ParseNumber(s: string): (r: Option<nat>)
    ensures r.Some? <==> |s| >= 1 && AllDigits(s) && (s[0] == '0' ==> |s| == 1)
  {
    if |s| >= 1 && AllDigits(s) && (s[0] != '0' || |s| == 1) then Some(DigitsValue(s)) else None
  }

  lemma DigitRoundTrip(d: nat)
    requires d < 10
    ensures DigitValue(DigitChar(d)) == d
  {
  }

  /** The digits of `n` denote `n`. */
  lemma {:induction false} NumberToStringValue(n: nat)
    ensures DigitsValue(NumberToString(n)) == n
    decreases n
  {
    var s := NumberToString(n);
    if n < 10 {
      DigitRoundTrip(n);
    } else {
      NumberToStringValue(n / 10);
      DigitRoundTrip(n % 10);
      assert s[..|s| - 1] == NumberToString(n / 10);
    }
  }

  /** Parsing the decimal form of `n` gives `n` back. */
  lemma ParseNumberToString(n: nat)
    ensures ParseNumber(NumberToString(n)) == Some(n)
  {
    NumberToStringValue(n);
  }

  /** Different numbers have different decimal forms. */
  lemma NumberToStringInjective(a: nat, b: nat)
    ensures NumberToString(a) == NumberToString(b) ==> a == b
  {
    ParseNumberToString(a);
    ParseNumberToString(b);
  }
}
