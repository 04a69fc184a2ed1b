/** Decimal rendering of integers, as Java's string concatenation `"" + n` produces it,
    with the reading-back function that shows the rendering loses nothing. */
module Decimal {

  predicate IsDigit(c: char) {
    '0' <= c <= '9'
  }

  predicate AllDigits(s: string) {
    forall i :: 0 <= i < |s| ==> IsDigit(s[i])
  }

  function DigitChar(d: nat): (c: char)
    requires d < 10
    ensures IsDigit(c)
  {
    (d + '0' as int) as char
  }

  function DigitValue(c: char): (d: nat)
    requires IsDigit(c)
    ensures d < 10 && DigitChar(d) == c
  {
    c as int - '0' as int
  }

  /** Base-10 digits of `n`, most significant first, without leading zeros. */
  function NatToString(n: nat): (s: string)
    ensures |s| >= 1 && AllDigits(s)
    ensures s[0] == '0' ==> n == 0
    decreases n
  {
    if n < 10 then [DigitChar(n)] else NatToString(n / 10) + [DigitChar(n % 10)]
  }

  /** The value of a string of decimal digits. */
  function DigitsValue(s: string): nat
    requires AllDigits(s)
  {
    if s == [] then 0 else DigitsValue(s[..|s| - 1]) * 10 + DigitValue(s[|s| - 1])
  }

  lemma {:induction false} NatToStringRoundTrip(n: nat)
    ensures DigitsValue(NatToString(n)) == n
    decreases n
  {
    var s := NatToString(n);
    if n >= 10 {
      NatToStringRoundTrip(n / 10);
      assert s[..|s| - 1] == NatToString(n / 10);
    }
  }

  lemma NatToStringInjective(a: nat, b: nat)
    ensures NatToString(a) == NatToString(b) ==> a == b
  {
    NatToStringRoundTrip(a);
    NatToStringRoundTrip(b);
  }

  /** Java's `Integer.toString`: a minus sign before the digits of a negative value. */
  function IntToString(i: int): (s: string)
    ensures |s| >= 1 && (s[0] == '-' || IsDigit(s[0]))
    ensures forall k :: 0 < k < |s| ==> IsDigit(s[k])
    ensures i >= 0 ==> AllDigits(s)
  {
    if i < 0 then "-" + NatToString(-i) else NatToString(i)
  }

  /** A string ends a number when it is empty or starts with a character that is not a digit. */
  predicate EndsNumber(x: string) {
    x == [] || !IsDigit(x[0])
  }

  /** Two digit strings followed by text that cannot continue a number split the same way. */
  lemma DigitsSplit(d1: string, x: string, d2: string, y: string)
    requires AllDigits(d1) && AllDigits(d2) && EndsNumber(x) && EndsNumber(y)
    requires d1 + x == d2 + y
    ensures d1 == d2 && x == y
  {
    var m := if |d1| <= |d2| then |d1| else |d2|;
    assert m < |d1 + x| ==> (d1 + x)[m] == (d2 + y)[m];
    assert d1 == (d1 + x)[..|d1|];
    assert d2 == (d2 + y)[..|d2|];
    assert x == (d1 + x)[|d1|..];
    assert y == (d2 + y)[|d2|..];
  }

  /** Different integers render differently. */
  lemma IntToStringInjective(a: int, b: int)
    ensures IntToString(a) == IntToString(b) ==> a == b
  {
    if a < 0 && b < 0 {
      assert IntToString(a)[1..] == NatToString(-a);
      assert IntToString(b)[1..] == NatToString(-b);
      NatToStringInjective(-a, -b);
    } else if a >= 0 && b >= 0 {
      NatToStringInjective(a, b);
    }
  }

  /** The same for signed numbers: all characters of a rendering after the first are digits,
      so text that does not start with a digit marks where the number ends. */
  lemma IntSplit(a: int, x: string, b: int, y: string)
    requires EndsNumber(x) && EndsNumber(y)
    requires IntToString(a) + x == IntToString(b) + y
    ensures a == b && x == y
  {
    var sa, sb := IntToString(a), IntToString(b);
    var m := if |sa| <= |sb| then |sa| else |sb|;
    assert m < |sa + x| ==> (sa + x)[m] == (sb + y)[m];
    assert sa == (sa + x)[..|sa|];
    assert sb == (sb + y)[..|sb|];
    assert x == (sa + x)[|sa|..];
    assert y == (sb + y)[|sb|..];
    IntToStringInjective(a, b);
  }
}
