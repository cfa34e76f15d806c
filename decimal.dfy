/**
 * Python's `str(n)` for an integer: an optional minus sign followed by the
 * decimal digits of |n| with no leading zero. The hash chain only needs the
 * facts proved here: the text is never empty and distinct integers have
 * distinct texts.
 */
module Decimal {

  /** The character of the decimal digit `d`. */
  function DigitChar(d: nat): char
    requires d < 10
  {
    "0123456789"[d]
  }

  /** Decimal text of a natural number. */
  function NatToString(n: nat): (s: string)
    ensures |s| > 0
  {
    if n < 10 then [DigitChar(n)] else NatToString(n / 10) + [DigitChar(n % 10)]
  }

  /** Decimal text of an integer, as `str(n)` writes it. */
  function IntToString(n: int): (s: string)
    ensures |s| > 0
  {
    if n < 0 then "-" + NatToString(-n) else NatToString(n)
  }

  /** The text of a natural number starts with a digit, never with a minus sign. */
  lemma {:induction false} NatToStringStartsWithDigit(n: nat)
    ensures '0' <= NatToString(n)[0] <= '9'
  {
    if n >= 10 {
      NatToStringStartsWithDigit(n / 10);
    }
  }

  lemma {:induction false} NatToStringInjective(a: nat, b: nat)
    requires NatToString(a) == NatToString(b)
    ensures a == b
  {
    var sa, sb := NatToString(a), NatToString(b);
    if a < 10 && b < 10 {
      assert DigitChar(a) == sa[0] == sb[0] == DigitChar(b);
    } else if a >= 10 && b >= 10 {
      var pa, pb := NatToString(a / 10), NatToString(b / 10);
      assert |pa| == |sa| - 1 == |sb| - 1 == |pb|;
      assert pa == sa[..|sa| - 1] == sb[..|sb| - 1] == pb;
      NatToStringInjective(a / 10, b / 10);
      assert DigitChar(a % 10) == sa[|sa| - 1] == sb[|sb| - 1] == DigitChar(b % 10);
    }
  }

  /** Distinct integers have distinct decimal texts. */
  lemma IntToStringInjective(a: int, b: int)
    requires IntToString(a) == IntToString(b)
    ensures a == b
  {
    var s := IntToString(a);
    if a < 0 && b < 0 {
      assert NatToString(-a) == s[1..] == NatToString(-b);
      NatToStringInjective(-a, -b);
    } else if a < 0 {
      NatToStringStartsWithDigit(b);
    } else if b < 0 {
      NatToStringStartsWithDigit(a);
    } else {
      NatToStringInjective(a, b);
    }
  }
}
