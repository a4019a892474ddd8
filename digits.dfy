/** Decimal digit counts: `NumDigits(n)` is `n.ilog10() + 1` for a
    positive `n`, and 1 for 0. */
module Digits {
  function Pow10(k: nat): (r: nat)
    ensures r >= 1
  {
    if k == 0 then 1 else 10 * Pow10(k - 1)
  }

  function NumDigits(n: nat): (d: nat)
    ensures d >= 1
  {
    if n < 10 then 1 else 1 + NumDigits(n / 10)
  }

  lemma {:induction false} Pow10Add(a: nat, b: nat)
    ensures Pow10(a + b) == Pow10(a) * Pow10(b)
  {
    if a > 0 {
      Pow10Add(a - 1, b);
      assert Pow10(a + b) == 10 * Pow10(a - 1 + b);
    }
  }

  /** `NumDigits(n)` digits are enough for `n` and, for a positive `n`, one
      fewer are not: `10^(d-1) <= n < 10^d`. */
  lemma {:induction false} NumDigitsBounds(n: nat)
    ensures n < Pow10(NumDigits(n))
    ensures n >= 1 ==> Pow10(NumDigits(n) - 1) <= n
  {
    if n >= 10 {
      NumDigitsBounds(n / 10);
    }
  }

  /** The bounds determine the digit count. */
  lemma {:induction false} NumDigitsUnique(n: nat, d: nat)
    requires d >= 1 && Pow10(d - 1) <= n < Pow10(d)
    ensures NumDigits(n) == d
  {
    assert d >= 2 ==> Pow10(d - 1) == 10 * Pow10(d - 2);
    if n >= 10 {
      assert Pow10(d - 2) <= n / 10 < Pow10(d - 1);
      NumDigitsUnique(n / 10, d - 1);
    }
  }

  function Pow(radix: nat, k: nat): (r: nat)
    ensures radix >= 1 ==> r >= 1
  {
    if k == 0 then 1 else radix * Pow(radix, k - 1)
  }

  lemma MulMonotone(x: nat, y: nat, d: nat)
    requires x <= y
    ensures x * d <= y * d
  {
  }

  lemma MulAtLeast(a: int, d: int)
    requires a >= 1 && d > 0
    ensures a * d >= d
  {
  }

  /** Dividing a natural number by a positive one leaves a natural quotient
      and a remainder below the divisor. */
  lemma DivMod(x: nat, d: nat)
    requires d >= 1
    ensures x / d >= 0 && 0 <= x % d < d && x == (x / d) * d + x % d
  {
  }

  /** Quotient and remainder are unique. */
  lemma DivUnique(x: int, d: int, q: int, r: int)
    requires d > 0 && x == q * d + r && 0 <= r < d
    ensures x / d == q && x % d == r
  {
    var q0, r0 := x / d, x % d;
    assert x == q0 * d + r0 && 0 <= r0 < d;
    assert (q - q0) * d == r0 - r;
    if q - q0 >= 1 {
      MulAtLeast(q - q0, d);
    }
    if q0 - q >= 1 {
      MulAtLeast(q0 - q, d);
    }
  }

  /** The digit of weight `p` survives cutting `c` down below `radix · p`,
      and so do the digits below it. */
  lemma DigitBelow(c: nat, radix: nat, p: nat)
    requires radix >= 1 && p >= 1
    ensures (c % (radix * p)) / p == (c / p) % radix
    ensures (c % (radix * p)) % p == c % p
  {
    var q, m := c / (radix * p), c % (radix * p);
    assert c == q * (radix * p) + m && m < radix * p;
    var a, s := m / p, m % p;
    assert m == a * p + s && s < p;
    assert a < radix;
    assert c == (q * radix + a) * p + s;
    DivUnique(c, p, q * radix + a, s);
    DivUnique(c / p, radix, q, a);
  }
}
