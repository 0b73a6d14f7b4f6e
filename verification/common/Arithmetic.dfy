/** Powers of two, and quotients and remainders of integers. */
module Arithmetic {

  /** 1, doubled `n` times. */
  function Doublings(n: nat): (r: int)
    ensures r > 0
  {
    if n == 0 then 1 else 2 * Doublings(n - 1)
  }

  function Pow2(n: nat): (r: int)
    ensures r > 0
  {
    Doublings(n)
  }

  lemma Pow2Step(n: nat)
    ensures Pow2(0) == 1 && Pow2(n + 1) == 2 * Pow2(n)
  {
  }

  lemma {:induction false} Pow2Sum(m: nat, n: nat)
    ensures Pow2(m + n) == Pow2(m) * Pow2(n)
  {
    hide Pow2;
    if m == 0 {
      Pow2Step(0);
    } else {
      Pow2Sum(m - 1, n);
      Pow2Step(m - 1);
      Pow2Step(m - 1 + n);
      Twice(Pow2(m - 1), Pow2(n));
    }
  }

  lemma Twice(a: int, b: int)
    ensures 2 * a * b == 2 * (a * b)
  {
  }

  lemma {:induction false} Pow2Mono(m: nat, n: nat)
    requires m <= n
    ensures Pow2(m) <= Pow2(n)
  {
    if m < n { Pow2Mono(m, n - 1); }
  }

  lemma Pow2Is1()
    ensures Pow2(0) == 1
  {
  }

  lemma Pow2Is64()
    ensures Pow2(64) == 0x1_0000_0000_0000_0000 && Pow2(63) == 0x8000_0000_0000_0000
  {
    assert Pow2(8) == 0x100;
    hide Pow2;
    Pow2Sum(8, 8);
    assert Pow2(16) == 0x1_0000;
    Pow2Sum(16, 16);
    assert Pow2(32) == 0x1_0000_0000;
    Pow2Sum(32, 32);
    Pow2Step(63);
  }

  lemma Multiple(k: int, d: int)
    requires d > 0
    ensures k >= 1 ==> k * d >= d && k * d >= k
    ensures k <= -1 ==> k * d <= -d
  {
  }

  lemma SameQuotient(p: int, u: int, q: int, r: int, d: int)
    requires 0 <= u < d && 0 <= r < d && p * d + u == q * d + r
    ensures p == q && u == r
  {
    Multiple(p - q, d);
    assert (p - q) * d == p * d - q * d;
  }

  /** A quotient and a remainder are known by what they add up to. */
  lemma QuotientIs(x: int, q: int, d: int, r: int)
    requires 0 <= r < d && x == q * d + r
    ensures x / d == q && x % d == r
  {
    SameQuotient(x / d, x % d, q, r, d);
  }

  /** Dividing twice divides by the product. */
  lemma DividedTwice(x: int, c: int, d: int)
    requires c > 0 && d > 0
    ensures c * d > 0 && x / c / d == x / (c * d) && x % (c * d) == (x / c % d) * c + x % c
  {
    var q, r, h, l := x / c, x % c, x / c / d, x / c % d;
    assert x == q * c + r && q == h * d + l && 0 <= r < c && 0 <= l < d;
    hide *;
    Expanded(h, d, l, c, r);
    PartsBelow(l, d, r, c);
    QuotientIs(x, h, c * d, l * c + r);
  }

  lemma Expanded(h: int, b: int, l: int, a: int, r: int)
    ensures (h * b + l) * a + r == h * (a * b) + (l * a + r)
  {
    assert (h * b + l) * a == (h * b) * a + l * a;
    assert (h * b) * a == h * (a * b);
  }

  lemma PartsBelow(l: int, b: int, r: int, a: int)
    requires 0 <= l < b && 0 <= r < a
    ensures 0 <= l * a + r < a * b && a * b > 0
  {
    Multiple(b - l, a);
    assert (b - l) * a == a * b - l * a;
    assert l * a >= 0 by { if l > 0 { Multiple(l, a); } }
  }

  lemma Factor(x: int, c: int, d: int)
    requires c > 0 && d > 0 && x % (c * d) == 0
    ensures x % d == 0
  {
    var q := x / (c * d);
    assert x == q * (c * d) == (q * c) * d;
    QuotientIs(x, q * c, d, 0);
  }

  lemma Difference(x: int, y: int, d: int)
    requires d > 0 && x % d == 0 && y % d == 0
    ensures (x - y) % d == 0
  {
    assert x - y == (x / d - y / d) * d;
    QuotientIs(x - y, x / d - y / d, d, 0);
  }

  lemma Division(x: nat, d: nat)
    requires d > 0
    ensures x == (x / d) * d + x % d && 0 <= x % d < d && x / d >= 0
  {
  }
}
