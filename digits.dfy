/**
 * Decimal digit strings: reading them (`int(...)` on ASCII digits) and
 * writing them (`%d`, `%02d`, `%04d`).
 */
module Digits {

  predicate IsDigit(c: char) {
    '0' <= c <= '9'
  }

  predicate AllDigits(s: string) {
    forall i :: 0 <= i < |s| ==> IsDigit(s[i])
  }

  function Pow10(n: nat): (p: nat)
    ensures p >= 1
  {
    if n == 0 then 1 else 10 * Pow10(n - 1)
  }

  function DigitChar(d: nat): (c: char)
    requires d < 10
    ensures IsDigit(c) && c as int - '0' as int == d
  {
    ('0' as int + d) as char
  }

  /** The number a string of decimal digits denotes. */
  function DigitsValue(s: string): (n: nat)
    requires AllDigits(s)
    ensures n < Pow10(|s|)
  {
    if s == [] then 0
    else
      var m := DigitsValue(s[..|s| - 1]);
      var d := s[|s| - 1] as int - '0' as int;
      assert m * 10 + d < Pow10(|s| - 1) * 10 by {
        assert m + 1 <= Pow10(|s| - 1);
        assert (m + 1) * 10 <= Pow10(|s| - 1) * 10;
      }
      m * 10 + d
  }

  lemma ShiftStep(x: int, p: int, y: int, d: int)
    ensures (x * p + y) * 10 + d == x * (p * 10) + (y * 10 + d)
  {
  }

  lemma AllDigitsAppend(a: string, b: string)
    requires AllDigits(a) && AllDigits(b)
    ensures AllDigits(a + b)
  {
    forall i | 0 <= i < |a + b|
      ensures IsDigit((a + b)[i])
    {
      if i < |a| {
        assert (a + b)[i] == a[i];
      } else {
        assert (a + b)[i] == b[i - |a|];
      }
    }
  }

  /** Reading a concatenation: the left part is shifted by the right part's length. */
  lemma {:induction false} DigitsValueAppend(a: string, b: string)
    requires AllDigits(a) && AllDigits(b)
    ensures AllDigits(a + b)
    ensures DigitsValue(a + b) == DigitsValue(a) * Pow10(|b|) + DigitsValue(b)
  {
    AllDigitsAppend(a, b);
    if b == [] {
      assert a + b == a;
    } else {
      var n := |b| - 1;
      var bn := b[..n];
      assert (a + b)[..|a + b| - 1] == a + bn;
      assert (a + b)[|a + b| - 1] == b[n];
      assert b[..|b| - 1] == bn;
      DigitsValueAppend(a, bn);
      ShiftStep(DigitsValue(a), Pow10(n), DigitsValue(bn), b[n] as int - '0' as int);
    }
  }

  function CharValue(c: char): int {
    c as int - '0' as int
  }

  /** Reading one or two digits. */
  lemma DigitsValueShort(t: string)
    requires AllDigits(t) && 1 <= |t| <= 2
    ensures |t| == 1 ==> DigitsValue(t) == CharValue(t[0])
    ensures |t| == 2 ==> DigitsValue(t) == CharValue(t[0]) * 10 + CharValue(t[1])
  {
    if |t| == 2 {
      assert t[..1][0] == t[0];
    }
  }

  /** Reading four digits. */
  lemma DigitsValueFour(t: string)
    requires AllDigits(t) && |t| == 4
    ensures DigitsValue(t) == CharValue(t[0]) * 1000 + CharValue(t[1]) * 100 + CharValue(t[2]) * 10 + CharValue(t[3])
  {
    assert t == t[..2] + t[2..];
    DigitsValueAppend(t[..2], t[2..]);
    DigitsValueShort(t[..2]);
    DigitsValueShort(t[2..]);
  }

  /** `n` written with exactly `w` digits, zero-padded on the left (`%0wd`). */
  function PadDigits(n: nat, w: nat): (r: string)
    ensures |r| == w && AllDigits(r)
    ensures n < Pow10(w) ==> DigitsValue(r) == n
  {
    if w == 0 then []
    else
      var r := PadDigits(n / 10, w - 1) + [DigitChar(n % 10)];
      assert r[..|r| - 1] == PadDigits(n / 10, w - 1);
      r
  }

  /** Splitting off the last decimal digit. */
  lemma DivModTen(m: nat, d: nat)
    requires d < 10
    ensures (m * 10 + d) / 10 == m && (m * 10 + d) % 10 == d
  {
  }

  /** Writing back what was read reproduces a digit string, leading zeros included. */
  lemma {:induction false} PadDigitsOfValue(s: string)
    requires AllDigits(s)
    ensures PadDigits(DigitsValue(s), |s|) == s
  {
    if s != [] {
      var t := s[..|s| - 1];
      var c := s[|s| - 1];
      var d := c as int - '0' as int;
      var v := DigitsValue(s);
      assert v == DigitsValue(t) * 10 + d;
      DivModTen(DigitsValue(t), d);
      assert DigitChar(d) == c;
      PadDigitsOfValue(t);
      calc {
        PadDigits(v, |s|);
        PadDigits(v / 10, |t|) + [DigitChar(v % 10)];
        t + [c];
        s;
      }
    }
  }

  /** `n` in decimal without leading zeros (`str(n)`, `%d`). */
  function NatDigits(n: nat): (r: string)
    ensures r != [] && AllDigits(r)
    ensures DigitsValue(r) == n
  {
    if n < 10 then [DigitChar(n)]
    else
      var r := NatDigits(n / 10) + [DigitChar(n % 10)];
      assert r[..|r| - 1] == NatDigits(n / 10);
      r
  }
}
