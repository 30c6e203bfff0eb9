/**
 * Decimal integer strings: PHP's `(string)$int` conversion and the
 * canonical-integer test PHP applies before using a string as an array key.
 */
module Decimal {

  predicate IsDigit(c: char) {
    '0' <= c <= '9'
  }

  predicate AllDigits(s: string) {
    forall i :: 0 <= i < |s| ==> IsDigit(s[i])
  }

  function DigitValue(c: char): nat
    requires IsDigit(c)
  {
    c as int - '0' as int
  }

  function DigitChar(d: nat): (c: char)
    requires d < 10
    ensures IsDigit(c) && DigitValue(c) == d
  {
    ('0' as int + d) as char
  }

  /** The value of a run of digits, read most significant digit first. */
  function DigitsValue(s: string): nat
    requires AllDigits(s)
  {
    if |s| == 0 then 0 else 10 * DigitsValue(s[..|s| - 1]) + DigitValue(s[|s| - 1])
  }

  /** Decimal rendering of a natural number, without leading zeros. */
  function NatToString(n: nat): string
  {
    if n < 10 then [DigitChar(n)] else NatToString(n / 10) + [DigitChar(n % 10)]
  }

  /** `(string)$i` for a PHP integer. */
  function IntToString(i: int): string
  {
    if i < 0 then "-" + NatToString(-i) else NatToString(i)
  }

  /** A non-empty digit run with no leading zero (the single digit "0" is allowed). */
  predicate IsCanonicalUnsigned(s: string) {
    |s| > 0 && AllDigits(s) && (s[0] != '0' || |s| == 1)
  }

  /** The strings PHP reads as a decimal integer: "0", "123", "-45"; not "-0", "007", "+1" or " 1". */
  predicate IsCanonical(s: string) {
    || IsCanonicalUnsigned(s)
    || (|s| >= 2 && s[0] == '-' && s[1] != '0' && IsCanonicalUnsigned(s[1..]))
  }

  function CanonicalValue(s: string): int
    requires IsCanonical(s)
  {
    if s[0] == '-' then -(DigitsValue(s[1..]) as int) else DigitsValue(s)
  }

  lemma {:induction false} NatToStringCanonical(n: nat)
    ensures IsCanonicalUnsigned(NatToString(n))
    ensures DigitsValue(NatToString(n)) == n
    ensures NatToString(n)[0] == '0' <==> n == 0
    decreases n
  {
    if n >= 10 {
      NatToStringCanonical(n / 10);
      var s := NatToString(n);
      var p := NatToString(n / 10);
      assert s == p + [DigitChar(n % 10)];
      assert s[..|s| - 1] == p;
      assert s[0] == p[0];
    }
  }

  lemma DigitsValueLeading(s: string)
    requires IsCanonicalUnsigned(s) && s[0] != '0'
    ensures DigitsValue(s) > 0
    decreases |s|
  {
    if |s| > 1 {
      var p := s[..|s| - 1];
      assert p[0] == s[0];
      DigitsValueLeading(p);
    }
  }

  lemma {:induction false} DigitsRoundTrip(s: string)
    requires IsCanonicalUnsigned(s)
    ensures NatToString(DigitsValue(s)) == s
    decreases |s|
  {
    if |s| > 1 {
      var p := s[..|s| - 1];
      assert p[0] == s[0];
      assert s[0] != '0';
      DigitsValueLeading(p);
      DigitsRoundTrip(p);
      assert s == p + [s[|s| - 1]];
    }
  }

  /** Rendering an integer yields a canonical string that reads back as the same integer. */
  lemma IntToStringRoundTrip(i: int)
    ensures IsCanonical(IntToString(i))
    ensures CanonicalValue(IntToString(i)) == i
  {
    NatToStringCanonical(if i < 0 then -i else i);
    if i < 0 {
      var s := IntToString(i);
      assert s[1..] == NatToString(-i);
    }
  }

  /** Reading a canonical string and rendering the integer gives the string back. */
  lemma CanonicalRoundTrip(s: string)
    requires IsCanonical(s)
    ensures IntToString(CanonicalValue(s)) == s
  {
    if s[0] == '-' {
      DigitsValueLeading(s[1..]);
      DigitsRoundTrip(s[1..]);
      assert s == "-" + s[1..];
    } else {
      DigitsRoundTrip(s);
    }
  }
}
