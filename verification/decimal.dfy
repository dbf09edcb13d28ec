/**
 * Decimal integer text: Python's `str(n)` for integers, and the plain
 * optional-sign form of `int(s)` that the battery decoder relies on.
 */
module Decimal {
  import opened Wrappers

  predicate IsDigit(c: char) {
    '0' <= c <= '9'
  }

  predicate AllDigits(s: string) {
    forall i :: 0 <= i < |s| ==> IsDigit(s[i])
  }

  function DigitChar(d: nat): (c: char)
    requires d < 10
    ensures IsDigit(c)
  {
    ('0' as int + d) as char
  }

  function DigitValue(c: char): (d: nat)
    requires IsDigit(c)
    ensures d < 10
  {
    c as int - '0' as int
  }

  /** The value of a run of decimal digits, most significant first; leading zeros are allowed. */
  function DigitsValue(s: string): nat
    requires AllDigits(s)
  {
    if |s| == 0 then 0 else DigitsValue(s[..|s| - 1]) * 10 + DigitValue(s[|s| - 1])
  }

  /** `str(n)` for a non-negative integer: at least one digit and no leading zero. */
  function FormatNat(n: nat): (s: string)
    ensures |s| > 0 && AllDigits(s)
    ensures s[0] == '0' ==> n == 0 && |s| == 1
  {
    if n < 10 then [DigitChar(n)] else FormatNat(n / 10) + [DigitChar(n % 10)]
  }

  /** `str(i)` for any integer: a minus sign in front of a negative number. */
  function FormatInt(i: int): (s: string)
    ensures |s| > 0
    ensures s[0] == '-' <==> i < 0
    ensures i < 0 ==> AllDigits(s[1..])
    ensures i >= 0 ==> AllDigits(s)
  {
    if i < 0 then "-" + FormatNat(-i) else FormatNat(i)
  }

  /** True when `c` is a sign character `int` accepts in front of the digits. */
  predicate IsSign(c: char) {
    c == '+' || c == '-'
  }

  /** The literals `int(s)` accepts here: an optional `+` or `-`, then one or more ASCII digits. */
  predicate IsIntLiteral(s: string) {
    var start := if |s| > 0 && IsSign(s[0]) then 1 else 0;
    start < |s| && AllDigits(s[start..])
  }

  /** `int(s)` on a str; None stands for the ValueError raised on anything else. */
  function ParseInt(s: string): (r: Option<int>)
    ensures r.Some? <==> IsIntLiteral(s)
    ensures r.Some? && s[0] != '-' ==> r.value >= 0
    ensures r.Some? && s[0] == '-' ==> r.value <= 0
  {
    if |s| > 0 && IsSign(s[0]) then
      var digits := s[1..];
      if |digits| > 0 && AllDigits(digits) then
        var magnitude: int := DigitsValue(digits);
        Some(if s[0] == '-' then -magnitude else magnitude)
      else
        None
    else if |s| > 0 && AllDigits(s) then
      assert s[0..] == s;
      Some(DigitsValue(s))
    else
      assert s[0..] == s;
      None
  }

  /** Reading back the digits `str` wrote gives the number. */
  lemma {:induction false} DigitsValueOfFormatNat(n: nat)
    ensures DigitsValue(FormatNat(n)) == n
  {
    if n >= 10 {
      var s := FormatNat(n);
      assert s[..|s| - 1] == FormatNat(n / 10);
      DigitsValueOfFormatNat(n / 10);
    }
  }

  /** A run of digits, with or without a leading minus sign, reads as its value. */
  lemma ParseIntOfDigits(negative: bool, d: string)
    requires |d| > 0 && AllDigits(d)
    ensures ParseInt(if negative then "-" + d else d) == Some(if negative then -(DigitsValue(d) as int) else DigitsValue(d))
  {
    if negative {
      var s := "-" + d;
      assert s[0] == '-' && s[1..] == d;
    } else {
      assert !IsSign(d[0]);
    }
  }

  /** `int(str(i)) == i` for every integer. */
  lemma ParseIntOfFormatInt(i: int)
    ensures ParseInt(FormatInt(i)) == Some(i)
  {
    var n: nat := if i < 0 then -i else i;
    var d := FormatNat(n);
    assert FormatInt(i) == (if i < 0 then "-" + d else d);
    DigitsValueOfFormatNat(n);
    ParseIntOfDigits(i < 0, d);
  }
}
