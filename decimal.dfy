/**
 * Decimal rendering of non-negative integers, as JavaScript's `String(n)`
 * produces it for an integral number, and the reading back of such a string.
 */
module Decimal {

  predicate IsDigit(c: char)
  {
    '0' <= c <= '9'
  }

  predicate AllDigits(s: string)
  {
    forall i :: 0 <= i < |s| ==> IsDigit(s[i])
  }

  function DigitChar(d: nat): (c: char)
    requires d < 10
    ensures IsDigit(c)
  {
    (('0' as int) + d) as char
  }

  function DigitValue(c: char): (d: nat)
    requires IsDigit(c)
    ensures d < 10
    ensures DigitChar(d) == c
  {
    (c as int) - ('0' as int)
  }

  function Pow10(k: nat): (p: nat)
    ensures p >= 1
  {
    if k == 0 then 1 else 10 * Pow10(k - 1)
  }

  /** The shortest decimal rendering of `n`: digits only, no leading zero. */
  function NatToString(n: nat): (s: string)
    ensures |s| >= 1 && AllDigits(s)
    ensures s[0] == '0' <==> n == 0
    decreases n
  {
    if n < 10 then [DigitChar(n)] else NatToString(n / 10) + [DigitChar(n % 10)]
  }

  /** The value of a string of decimal digits, most significant digit first. */
  function ParseNat(s: string): nat
    requires AllDigits(s)
  {
    if s == [] then 0 else ParseNat(s[..|s| - 1]) * 10 + DigitValue(s[|s| - 1])
  }

  /** Reading back a rendering gives the number that was rendered. */
  lemma {:induction false} ParseRender(n: nat)
    ensures ParseNat(NatToString(n)) == n
    decreases n
  {
    if n >= 10 {
      var s := NatToString(n);
      ParseRender(n / 10);
      assert s[..|s| - 1] == NatToString(n / 10);
      assert DigitValue(s[|s| - 1]) == n % 10;
    }
  }

  /** A number with exactly `k + 1` decimal digits renders to `k + 1` characters. */
  lemma {:induction false} RenderLength(n: nat, k: nat)
    requires Pow10(k) <= n < Pow10(k + 1)
    ensures |NatToString(n)| == k + 1
    decreases k
  {
    if k > 0 {
      assert Pow10(k - 1) <= n / 10 < Pow10(k);
      RenderLength(n / 10, k - 1);
    }
  }

  /** Distinct numbers have distinct renderings. */
  lemma RenderInjective(a: nat, b: nat)
    requires NatToString(a) == NatToString(b)
    ensures a == b
  {
    ParseRender(a);
    ParseRender(b);
  }
}
