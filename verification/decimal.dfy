/** Decimal digit strings: Python's `str(n)` for a natural number, the
    zero-padded fields `strftime` writes, and the value a digit string denotes. */
module Decimal {

  predicate IsDigit(c: char) {
    '0' <= c <= '9'
  }

  predicate AllDigits(s: string) {
    forall i :: 0 <= i < |s| ==> IsDigit(s[i])
  }

  function DigitChar(d: nat): (c: char)
    requires d < 10
    ensures IsDigit(c)
  {
    (d + '0' as int) as char
  }

  /** The number a string of decimal digits denotes (most significant first). */
  function Value(s: string): nat
    requires AllDigits(s)
  {
    if s == [] then 0
    else Value(s[..|s| - 1]) * 10 + (s[|s| - 1] as int - '0' as int)
  }

  function Pow10(n: nat): nat {
    if n == 0 then 1 else 10 * Pow10(n - 1)
  }

  /** `str(n)`: the shortest decimal spelling of `n`, with no leading zero
      except in "0" itself. */
  function Show(n: nat): (r: string)
    ensures r != [] && AllDigits(r)
    ensures r[0] == '0' <==> n == 0
    ensures |r| == 1 || r[0] != '0'
  {
    (if n < 10 then [] else Show(n / 10)) + [DigitChar(n % 10)]
  }

  /** A run of digits ends where the first non-digit stands, so the digits
      in front of a non-digit are determined by the whole string. */
  lemma DigitsThenOther(a: string, x: string, b: string, y: string)
    requires AllDigits(a) && AllDigits(b)
    requires x != [] && !IsDigit(x[0]) && y != [] && !IsDigit(y[0])
    requires a + x == b + y
    ensures a == b && x == y
  {
    var s := a + x;
    var k := if |a| <= |b| then |a| else |b|;
    DigitAt(a, x, k);
    DigitAt(b, y, k);
    assert a == s[..|a|] && b == s[..|b|];
    assert x == s[|a|..] && y == s[|b|..];
  }

  lemma DigitAt(a: string, x: string, k: nat)
    requires AllDigits(a) && x != [] && !IsDigit(x[0]) && k <= |a|
    ensures k < |a + x| && (IsDigit((a + x)[k]) <==> k < |a|)
  {
    if k < |a| {
      assert (a + x)[k] == a[k];
    } else {
      assert (a + x)[k] == x[0];
    }
  }

  /** `n` written with exactly `width` digits, leading zeros added. */
  function Padded(n: nat, width: nat): (r: string)
    requires n < Pow10(width)
    ensures |r| == width && AllDigits(r)
  {
    if width == 0 then [] else Padded(n / 10, width - 1) + [DigitChar(n % 10)]
  }

  lemma {:induction false} ShowRoundTrip(n: nat)
    ensures Value(Show(n)) == n
  {
    var r := Show(n);
    var front := if n < 10 then [] else Show(n / 10);
    assert r[..|r| - 1] == front;
    if n >= 10 {
      ShowRoundTrip(n / 10);
    }
  }

  lemma {:induction false} PaddedRoundTrip(n: nat, width: nat)
    requires n < Pow10(width)
    ensures Value(Padded(n, width)) == n
  {
    if width > 0 {
      var r := Padded(n, width);
      assert r[..|r| - 1] == Padded(n / 10, width - 1);
      PaddedRoundTrip(n / 10, width - 1);
    }
  }
}
