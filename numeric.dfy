/** Decimal digit strings: Rust's `to_string` and `parse` on unsigned integers. */
module Decimal {

  import RustInt

  predicate IsDigit(c: char) {
    '0' <= c <= '9'
  }

  predicate AllDigits(s: string) {
    forall i :: 0 <= i < |s| ==> IsDigit(s[i])
  }

  function DigitValue(c: char): (d: nat)
    requires IsDigit(c)
    ensures d < 10
  {
    c as int - '0' as int
  }

  function DigitChar(d: nat): (c: char)
    requires d < 10
    ensures IsDigit(c) && DigitValue(c) == d
  {
    ('0' as int + d) as char
  }

  function Pow10(k: nat): (p: nat)
    ensures p >= 1
  {
    if k == 0 then 1 else 10 * Pow10(k - 1)
  }

  /** The value of a digit string, most significant digit first (leading zeros allowed). */
  function Value(s: string): (v: nat)
    requires AllDigits(s)
    ensures v < Pow10(|s|)
  {
    if s == [] then 0 else Value(s[..|s| - 1]) * 10 + DigitValue(s[|s| - 1])
  }

  /** The decimal rendering of n without leading zeros, as Rust's `n.to_string()`. */
  function Digits(n: nat): (s: string)
    ensures AllDigits(s) && |s| >= 1
    ensures |s| > 1 ==> s[0] != '0'
  {
    if n < 10 then [DigitChar(n)] else Digits(n / 10) + [DigitChar(n % 10)]
  }

  /** Number of decimal digits of n: `n.checked_ilog10().unwrap_or(0) + 1`. */
  function NumDigits(n: nat): (d: nat)
    ensures d >= 1
  {
    if n < 10 then 1 else 1 + NumDigits(n / 10)
  }

  lemma {:induction false} ValueOfDigits(n: nat)
    ensures Value(Digits(n)) == n
  {
    if n >= 10 {
      var s := Digits(n);
      assert s[..|s| - 1] == Digits(n / 10);
      ValueOfDigits(n / 10);
    }
  }

  lemma {:induction false} DigitsLength(n: nat)
    ensures |Digits(n)| == NumDigits(n)
  {
    if n >= 10 {
      DigitsLength(n / 10);
    }
  }

  /** NumDigits(n) is the d with 10^(d-1) <= n < 10^d (for n >= 1). */
  lemma {:induction false} NumDigitsBounds(n: nat)
    ensures n < Pow10(NumDigits(n))
    ensures n >= 1 ==> Pow10(NumDigits(n) - 1) <= n
  {
    if n >= 10 {
      NumDigitsBounds(n / 10);
    }
  }

  lemma AllDigitsAppend(a: string, b: string)
    requires AllDigits(a) && AllDigits(b)
    ensures AllDigits(a + b)
  {
    forall i | 0 <= i < |a + b| ensures IsDigit((a + b)[i]) {
      if i < |a| { assert (a + b)[i] == a[i]; } else { assert (a + b)[i] == b[i - |a|]; }
    }
  }

  lemma {:induction false} ValueAppend(a: string, b: string)
    requires AllDigits(a) && AllDigits(b)
    ensures AllDigits(a + b)
    ensures Value(a + b) == Value(a) * Pow10(|b|) + Value(b)
  {
    AllDigitsAppend(a, b);
    if b == [] {
      assert a + b == a;
    } else {
      var b' := b[..|b| - 1];
      var last := b[|b| - 1];
      assert (a + b)[..|a + b| - 1] == a + b';
      assert (a + b)[|a + b| - 1] == last;
      ValueAppend(a, b');
      AppendStep(Value(a), Value(b'), Pow10(|b'|), DigitValue(last), Value(a + b'), Value(a + b), Value(b), Pow10(|b|));
    }
  }

  lemma AppendStep(x: int, y: int, p: int, d: int, vab': int, vab: int, vb: int, pb: int)
    requires vab' == x * p + y && vab == vab' * 10 + d && vb == y * 10 + d && pb == 10 * p
    ensures vab == x * pb + vb
  {
  }

  /** Splitting a digit string at k divides its value by 10^(|s|-k). */
  lemma SplitDigits(s: string, k: nat)
    requires AllDigits(s) && k <= |s|
    ensures AllDigits(s[..k]) && AllDigits(s[k..])
    ensures Value(s) == Value(s[..k]) * Pow10(|s| - k) + Value(s[k..])
    ensures Value(s[..k]) == Value(s) / Pow10(|s| - k)
    ensures Value(s[k..]) == Value(s) % Pow10(|s| - k)
  {
    assert s == s[..k] + s[k..];
    ValueAppend(s[..k], s[k..]);
    var p := Pow10(|s| - k);
    var q, r := Value(s[..k]), Value(s[k..]);
    assert r < p;
    DivModUnique(Value(s), p, q, r);
  }

  lemma DivModUnique(n: nat, p: nat, q: nat, r: nat)
    requires p >= 1 && r < p && n == q * p + r
    ensures q == n / p && r == n % p
  {
    RustInt.DivUnique(n, p, q, r);
  }
}

/** Rust's signed integer division and remainder, which truncate toward zero. */
module RustInt {

  function Abs(a: int): nat {
    if a < 0 then -a else a
  }

  /** `a / d` on a Rust signed integer. */
  function Quot(a: int, d: int): int
    requires d != 0
  {
    if (a >= 0) == (d > 0) then Abs(a) / Abs(d) else -(Abs(a) / Abs(d))
  }

  /** `a % d` on a Rust signed integer: the remainder takes the sign of a. */
  function Rem(a: int, d: int): (r: int)
    requires d != 0
    ensures Abs(r) < Abs(d)
    ensures a >= 0 ==> r >= 0
    ensures a <= 0 ==> r <= 0
  {
    if a >= 0 then Abs(a) % Abs(d) else -(Abs(a) % Abs(d))
  }

  lemma QuotRem(a: int, d: int)
    requires d != 0
    ensures a == d * Quot(a, d) + Rem(a, d)
  {
    var q, r := Abs(a) / Abs(d), Abs(a) % Abs(d);
    var p := Abs(d) * q;
    assert Abs(a) == p + r;
    NegMul(Abs(d), q);
    if d > 0 {
      assert d * q == p;
    } else {
      assert d * q == -p;
    }
  }

  lemma NegMul(x: int, y: int)
    ensures (-x) * y == -(x * y) && x * (-y) == -(x * y)
  {
  }

  /** For a non-negative dividend and a positive divisor Rust agrees with Dafny. */
  lemma RemNonNegative(a: int, d: int)
    requires a >= 0 && d > 0
    ensures Rem(a, d) == a % d && Quot(a, d) == a / d
  {
  }

  /** A zero remainder means exact divisibility, whatever the signs. */
  lemma RemZeroIffDivides(a: int, d: int)
    requires d != 0
    ensures Rem(a, d) == 0 <==> a % d == 0
    ensures Rem(a, d) == 0 ==> a == d * Quot(a, d) && Quot(a, d) == a / d
  {
    QuotRem(a, d);
    if Rem(a, d) == 0 {
      var q := Quot(a, d);
      assert a == d * q;
      MultipleMod(q, d);
    }
    if a % d == 0 {
      var k := a / d;
      assert a == d * k;
      MultipleRem(k, d);
    }
  }

  lemma MultipleMod(q: int, d: int)
    requires d != 0
    ensures (d * q) % d == 0 && (d * q) / d == q
  {
    var a := d * q;
    assert a == d * q + 0;
    if d > 0 {
      DivUnique(a, d, q, 0);
    } else {
      assert a == (-d) * (-q) + 0;
      DivUnique(a, d, q, 0);
    }
  }

  lemma DivUnique(a: int, d: int, q: int, r: int)
    requires d != 0 && 0 <= r < Abs(d) && a == d * q + r
    ensures a / d == q && a % d == r
  {
    var q0, r0 := a / d, a % d;
    assert a == d * q0 + r0 && 0 <= r0 < Abs(d);
    if q != q0 {
      var k := q - q0;
      SubtractProducts(d, q, q0);
      assert d * k == r0 - r;
      AbsProduct(d, k);
      MulAtLeast(Abs(d), Abs(k));
      assert false;
    }
  }

  lemma AbsProduct(x: int, y: int)
    ensures Abs(x * y) == Abs(x) * Abs(y)
  {
    if x >= 0 && y >= 0 {
    } else if x >= 0 {
      assert x * y == -(x * -y);
    } else if y >= 0 {
      assert x * y == -((-x) * y);
    } else {
      assert x * y == (-x) * (-y);
    }
  }

  lemma SubtractProducts(d: int, x: int, y: int)
    ensures d * (x - y) == d * x - d * y
  {
  }

  lemma MulAtLeast(a: nat, k: nat)
    requires k >= 1
    ensures a * k >= a
  {
    assert a * k == a + a * (k - 1);
  }

  lemma MultipleRem(k: int, d: int)
    requires d != 0
    ensures Rem(d * k, d) == 0
  {
    var a := d * k;
    assert Abs(a) == Abs(d) * Abs(k) by {
      if d >= 0 && k >= 0 {
      } else if d >= 0 {
        assert a == -(d * -k);
      } else if k >= 0 {
        assert a == -((-d) * k);
      } else {
        assert a == (-d) * (-k);
      }
    }
    DivUnique(Abs(a), Abs(d), Abs(k), 0);
  }
}
