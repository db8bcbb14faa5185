/**
 * Decimal numerals: `String(n)` for the integers the configuration holds,
 * and `parseInt` on a run of digits.
 */
module Numerals {

  predicate IsDigit(c: char)
  {
    '0' <= c <= '9'
  }

  /** A non-empty run of decimal digits: what the regular expression `\d+` matches. */
  predicate IsDigits(s: string)
  {
    |s| > 0 && forall i :: 0 <= i < |s| ==> IsDigit(s[i])
  }

  function DigitChar(d: nat): (c: char)
    requires d < 10
    ensures IsDigit(c)
  {
    "0123456789"[d]
  }

  function DigitValue(c: char): (d: nat)
    requires IsDigit(c)
    ensures d < 10 && DigitChar(d) == c
  {
    (c as int - '0' as int) as nat
  }

  /** `parseInt` on a run of digits: the value the digits denote in base ten. */
  function DigitsValue(s: string): nat
    requires forall i :: 0 <= i < |s| ==> IsDigit(s[i])
  {
    if |s| == 0 then 0 else 10 * DigitsValue(s[..|s| - 1]) + DigitValue(s[|s| - 1])
  }

  /** `String(n)` for a natural number: its shortest decimal numeral. */
  function NatToString(n: nat): string
  {
    if n < 10 then [DigitChar(n)] else NatToString(n / 10) + [DigitChar(n % 10)]
  }

  /** `String(n)` for an integer: a minus sign, then the numeral of the magnitude. */
  function IntToString(n: int): string
  {
    if n < 0 then "-" + NatToString(-n) else NatToString(n)
  }

  /** The numeral is a run of digits with no leading zero, unless the number is zero. */
  lemma {:induction false} NatToStringDigits(n: nat)
    ensures IsDigits(NatToString(n))
    ensures NatToString(n)[0] == '0' ==> n == 0 && NatToString(n) == "0"
  {
    if n >= 10 {
      NatToStringDigits(n / 10);
      var r := NatToString(n);
      assert r[0] == NatToString(n / 10)[0];
    }
  }

  /** A negative number, and only a negative number, is written with a leading minus sign. */
  lemma IntToStringSign(n: int)
    ensures |IntToString(n)| > 0
    ensures n < 0 <==> IntToString(n)[0] == '-'
  {
    NatToStringDigits(if n < 0 then -n else n);
  }

  /** Reading back a rendered numeral gives the number. */
  lemma {:induction false} NatToStringRoundTrip(n: nat)
    ensures IsDigits(NatToString(n))
    ensures DigitsValue(NatToString(n)) == n
  {
    var r := NatToString(n);
    NatToStringDigits(n);
    if n >= 10 {
      NatToStringDigits(n / 10);
      NatToStringRoundTrip(n / 10);
      assert r[..|r| - 1] == NatToString(n / 10);
    }
  }

  /** Distinct numbers render as distinct numerals. */
  lemma {:induction false} IntToStringInjective(m: int, n: int)
    requires IntToString(m) == IntToString(n)
    ensures m == n
  {
    IntToStringSign(m);
    IntToStringSign(n);
    if m < 0 {
      assert IntToString(m)[1..] == NatToString(-m);
      assert IntToString(n)[1..] == NatToString(-n);
      NatToStringInjective(-m, -n);
    } else {
      NatToStringInjective(m, n);
    }
  }

  lemma NatToStringInjective(m: nat, n: nat)
    requires NatToString(m) == NatToString(n)
    ensures m == n
  {
    NatToStringRoundTrip(m);
    NatToStringRoundTrip(n);
  }
}
