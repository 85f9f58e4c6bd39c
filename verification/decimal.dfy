/** Decimal rendering of an integer number of milliseconds, as a JavaScript
    template literal prints an integral `number`, and the reading back that
    shows the rendering loses nothing. */
module Decimal {
  import opened Options

  predicate IsDigit(c: char)
  {
    '0' <= c <= '9'
  }

  predicate AllDigits(s: string)
  {
    forall i :: 0 <= i < |s| ==> IsDigit(s[i])
  }

  function DigitChar(d: int): (c: char)
    requires 0 <= d < 10
    ensures IsDigit(c) && DigitValue(c) == d
  {
    (d + '0' as int) as char
  }

  function DigitValue(c: char): int
    requires IsDigit(c)
  {
    c as int - '0' as int
  }

  /** The digits of `n`, most significant first, with no leading zero. */
  function NatDigits(n: nat): (s: string)
    ensures |s| > 0 && AllDigits(s)
    ensures |s| > 1 ==> s[0] != '0'
    ensures s[0] == '0' <==> n == 0
  {
    if n < 10 then [DigitChar(n)]
    else
      var high := NatDigits(n / 10);
      assert forall i :: 0 <= i < |high| ==> (high + [DigitChar(n % 10)])[i] == high[i];
      high + [DigitChar(n % 10)]
  }

  /** `n` written in base ten, with a leading '-' when negative. The form
      is canonical: no leading zero and no "-0". */
  function DecimalString(n: int): (s: string)
    ensures |s| > 0
    ensures s[0] == '-' <==> n < 0
    ensures n < 0 ==> |s| > 1 && AllDigits(s[1..]) && s[1] != '0'
    ensures n >= 0 ==> AllDigits(s) && (|s| > 1 ==> s[0] != '0')
  {
    if n < 0 then "-" + NatDigits(-n) else NatDigits(n)
  }

  /** Value of a string of decimal digits. */
  function ParseNat(s: string): nat
    requires AllDigits(s)
  {
    if |s| == 0 then 0 else ParseNat(s[..|s| - 1]) * 10 + DigitValue(s[|s| - 1])
  }

  /** Reads an optionally negative decimal integer; None for anything else. */
  function ParseDecimal(s: string): Option<int>
  {
    if |s| > 1 && s[0] == '-' && AllDigits(s[1..]) then Some(0 - ParseNat(s[1..]) as int)
    else if |s| > 0 && AllDigits(s) then Some(ParseNat(s))
    else None
  }

  lemma {:induction false} ParseNatDigits(n: nat)
    ensures ParseNat(NatDigits(n)) == n
  {
    if n >= 10 {
      ParseNatDigits(n / 10);
      var s := NatDigits(n);
      assert s[..|s| - 1] == NatDigits(n / 10);
    }
  }

  /** Reading back a rendered integer gives the integer. */
  lemma DecimalRoundTrip(n: int)
    ensures ParseDecimal(DecimalString(n)) == Some(n)
  {
    if n < 0 {
      ParseNatDigits(-n);
      assert DecimalString(n)[1..] == NatDigits(-n);
    } else {
      ParseNatDigits(n);
      assert DecimalString(n)[0] != '-';
    }
  }
}
