/**
 * Decimal text of integers: what Python's `str(n)` (and an f-string `{n}`)
 * produces, and the plain digit-string parsing that `int(s)` performs on the
 * counter strings the data API returns.
 */
module Decimal {
  import opened Wrappers

  predicate IsDigit(c: char) {
    '0' <= c <= '9'
  }

  predicate AllDigits(s: string) {
    forall i :: 0 <= i < |s| ==> IsDigit(s[i])
  }

  function DigitChar(d: nat): (c: char)
    requires d < 10
    ensures IsDigit(c)
  {
    (48 + d) as char
  }

  function DigitValue(c: char): (d: nat)
    requires IsDigit(c)
    ensures d < 10
  {
    c as int - 48
  }

  /** `str(n)` for a non-negative integer: canonical decimal, no leading zero. */
  function FromNat(n: nat): (s: string)
    ensures |s| >= 1 && AllDigits(s)
    ensures s[0] == '0' ==> n == 0
    decreases n
  {
    if n < 10 then [DigitChar(n)] else FromNat(n / 10) + [DigitChar(n % 10)]
  }

  /** `str(i)` for any integer: a minus sign in front of a negative value. */
  function FromInt(i: int): (s: string)
    ensures |s| >= 1
    ensures s[0] == '-' <==> i < 0
  {
    if i < 0 then "-" + FromNat(-i) else FromNat(i)
  }

  /** The value of a string of decimal digits (leading zeros allowed). */
  function Value(s: string): nat
    requires AllDigits(s)
  {
    if s == [] then 0 else 10 * Value(s[..|s| - 1]) + DigitValue(s[|s| - 1])
  }

  /** `int(s)` on an unsigned decimal string; any other string fails. */
  function ParseNat(s: string): (r: Option<nat>)
    ensures r.Some? <==> s != [] && AllDigits(s)
  {
    if s != [] && AllDigits(s) then Some(Value(s)) else None
  }

  /** `int(s)` on an optionally negative decimal string. */
  function ParseInt(s: string): (r: Option<int>)
    ensures s != [] && s[0] != '-' ==> r == ParseNat(s)
  {
    if s != [] && s[0] == '-' then
      match ParseNat(s[1..])
      case Some(n) => Some(0 - n as int)
      case None => None
    else
      match ParseNat(s)
      case Some(n) => Some(n)
      case None => None
  }

  lemma {:induction false} ValueOfFromNat(n: nat)
    ensures Value(FromNat(n)) == n
    decreases n
  {
    if n >= 10 {
      var s := FromNat(n);
      ValueOfFromNat(n / 10);
      assert s[..|s| - 1] == FromNat(n / 10);
    }
  }

  /** Reading back the decimal text gives the number: `int(str(n)) == n`. */
  lemma ParseFromNat(n: nat)
    ensures ParseNat(FromNat(n)) == Some(n)
  {
    ValueOfFromNat(n);
  }

  lemma ParseFromInt(i: int)
    ensures ParseInt(FromInt(i)) == Some(i)
  {
    if i < 0 {
      ValueOfFromNat(-i);
      assert FromInt(i)[1..] == FromNat(-i);
    } else {
      ValueOfFromNat(i);
    }
  }

  /** Distinct numbers have distinct decimal texts. */
  lemma FromNatInjective(m: nat, n: nat)
    ensures FromNat(m) == FromNat(n) <==> m == n
  {
    ValueOfFromNat(m);
    ValueOfFromNat(n);
  }
}
