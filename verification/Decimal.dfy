/** Decimal printing and reading of natural numbers, as printf's %d and hand-written parsers do it. */
module Decimal {

  predicate IsDigit(c: char) {
    '0' <= c <= '9'
  }

  predicate AllDigits(s: string) {
    forall i :: 0 <= i < |s| ==> IsDigit(s[i])
  }

  function DigitValue(c: char): nat
    requires IsDigit(c)
  {
    c as int - '0' as int
  }

  function Digit(d: nat): (c: char)
    requires d < 10
    ensures IsDigit(c) && DigitValue(c) == d
  {
    ('0' as int + d) as char
  }

  /** The decimal representation without leading zeros. */
  function Dec(n: nat): (s: string)
    ensures |s| > 0 && AllDigits(s)
  {
    if n < 10 then [Digit(n)] else Dec(n / 10) + [Digit(n % 10)]
  }

  function Value(s: string): nat
    requires AllDigits(s)
  {
    if s == [] then 0 else Value(s[..|s| - 1]) * 10 + DigitValue(s[|s| - 1])
  }

  lemma {:induction false} ValueOfDec(n: nat)
    ensures Value(Dec(n)) == n
  {
    if n >= 10 {
      ValueOfDec(n / 10);
      assert Dec(n)[..|Dec(n)| - 1] == Dec(n / 10);
    }
  }

  lemma DecInjective(m: nat, n: nat)
    requires Dec(m) == Dec(n)
    ensures m == n
  {
    ValueOfDec(m);
    ValueOfDec(n);
  }

  /** A string does not continue with a digit. */
  predicate StopsDigits(s: string) {
    s == "" || !IsDigit(s[0])
  }

  /** If one of two equal strings starts with a longer run of digits, the shorter run goes on. */
  lemma LongerRunContinues(a: string, x: string, b: string, y: string)
    requires AllDigits(b) && a + x == b + y
    ensures |a| < |b| ==> !StopsDigits(x)
  {
    if |a| < |b| {
      assert (a + x)[|a|] == (b + y)[|a|] == b[|a|];
      assert |a + x| > |a| && (a + x)[|a|] == x[0];
    }
  }

  /** Where a run of digits ends is determined by the string. */
  lemma DigitRunUnique(a: string, x: string, b: string, y: string)
    requires AllDigits(a) && AllDigits(b) && StopsDigits(x) && StopsDigits(y)
    requires a + x == b + y
    ensures a == b && x == y
  {
    LongerRunContinues(a, x, b, y);
    LongerRunContinues(b, y, a, x);
    assert a == (a + x)[..|a|] && b == (b + y)[..|b|];
    assert x == (a + x)[|a|..] && y == (b + y)[|b|..];
  }

  function Pow10(k: nat): nat {
    if k == 0 then 1 else 10 * Pow10(k - 1)
  }

  lemma {:induction false} DecLength(n: nat, k: nat)
    requires k > 0 && n < Pow10(k)
    ensures |Dec(n)| <= k
  {
    if n >= 10 {
      DecLength(n / 10, k - 1);
    }
  }

  /** Longer digit strings with a non-zero start are bigger: prefixes never exceed the whole. */
  lemma {:induction false} ValuePrefix(s: string, i: nat)
    requires AllDigits(s) && i <= |s|
    ensures Value(s[..i]) <= Value(s)
    decreases |s|
  {
    if i < |s| {
      ValuePrefix(s[..|s| - 1], i);
      assert s[..|s| - 1][..i] == s[..i];
    } else {
      assert s[..i] == s;
    }
  }
}
