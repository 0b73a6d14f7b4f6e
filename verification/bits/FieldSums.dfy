/** Adding the fields of a word pairwise (bitCount of bits.c). */
module FieldSums {
  import opened Arithmetic
  import opened TwosComplement

  /** `n` fields of `2w` bits, the low `w` of each set. */
  ghost function Fields(w: nat, n: nat): int {
    if n == 0 then 0 else (Pow2(w) - 1) + Pow2(2 * w) * Fields(w, n - 1)
  }

  /** The sum of the low `n` fields of `w` bits. */
  ghost function FieldSum(c: int, w: nat, n: nat): int
    decreases n
  {
    if n == 0 then 0 else c % Pow2(w) + FieldSum(c / Pow2(w), w, n - 1)
  }

  /** `(c & mask) + ((c >> w) & mask)`. */
  function AddFields(c: int, w: nat, mask: int): int {
    And(c, mask) + And(Shr(c, w), mask)
  }

  /** Low bits set up to `j`, and then `m` from `k` on. */
  lemma {:induction false} AndField(c: int, j: nat, k: nat, m: int)
    requires j <= k
    ensures And(c, (Pow2(j) - 1) + Pow2(k) * m) == c % Pow2(j) + Pow2(k) * And(c / Pow2(k), m)
    decreases k
  {
    if j == 0 {
      AndAbove(c, k, m);
    } else {
      var y := (Pow2(j - 1) - 1) + Pow2(k - 1) * m;
      Double(Pow2(k - 1), m);
      assert (Pow2(j) - 1) + Pow2(k) * m == 2 * y + 1;
      Halves(y, 1);
      AndStep(c, 2 * y + 1);
      AndField(c / 2, j - 1, k - 1, m);
      LowStep(c, Pow2(j - 1));
      DivTwice(c, Pow2(k - 1));
      Double(Pow2(k - 1), And(c / 2 / Pow2(k - 1), m));
    }
  }

  /** The sum of the two lowest fields, for `p == Pow2(w)`. */
  ghost function Pair(c: int, p: int): int
    requires p > 0
  {
    c % p + (c / p) % p
  }

  lemma LowField(c: int, w: nat, n: nat)
    requires n > 0
    ensures And(c, Fields(w, n)) == c % Pow2(w) + Pow2(2 * w) * And(c / Pow2(2 * w), Fields(w, n - 1))
  {
    hide And, Pow2;
    AndField(c, w, 2 * w, Fields(w, n - 1));
  }

  lemma DivSwap(c: int, p: int, q: int)
    requires p > 0 && q > 0
    ensures c / p / q == c / q / p
  {
    DividedTwice(c, p, q);
    DividedTwice(c, q, p);
    assert p * q == q * p;
  }

  lemma OneField(c: int, w: nat, n: nat)
    requires w > 0 && n > 0
    ensures var P := Pow2(2 * w);
      AddFields(c, w, Fields(w, n)) == AddFields(c / P, w, Fields(w, n - 1)) * P + Pair(c, Pow2(w))
  {
    hide And, Pow2, Fields;
    var p, P, rest := Pow2(w), Pow2(2 * w), Fields(w, n - 1);
    LowField(c, w, n);
    LowField(c / p, w, n);
    DivSwap(c, p, P);
    Spread(And(c / P, rest), And(c / P / p, rest), P);
  }

  lemma PairBelow(c: int, p: int)
    requires p >= 2
    ensures 0 <= Pair(c, p) < p * p
  {
    TwiceBelow(p, c % p, (c / p) % p);
  }

  lemma TwoFields(c: int, w: nat, n: nat)
    requires w > 0 && n >= 2
    ensures FieldSum(c, w, n) == Pair(c, Pow2(w)) + FieldSum(c / Pow2(2 * w), w, n - 2)
  {
    var p := Pow2(w);
    Pow2Sum(w, w);
    DividedTwice(c, p, p);
    assert FieldSum(c, w, n) == c % p + FieldSum(c / p, w, n - 1);
    assert FieldSum(c / p, w, n - 1) == (c / p) % p + FieldSum(c / p / p, w, n - 2);
  }

  /** A field sum by its lowest field. */
  lemma FirstField(x: int, q: int, r: int, w: nat, n: nat)
    requires x == q * Pow2(w) + r && 0 <= r < Pow2(w)
    ensures FieldSum(x, w, n + 1) == r + FieldSum(q, w, n)
  {
    QuotientIs(x, q, Pow2(w), r);
  }

  /** One step keeps the sum of the fields, which are then twice as wide. */
  lemma {:induction false} AddFieldsSum(c: int, w: nat, n: nat)
    requires w > 0
    ensures FieldSum(AddFields(c, w, Fields(w, n)), 2 * w, n) == FieldSum(c, w, 2 * n)
    decreases n
  {
    if n > 0 {
      var p, P := Pow2(w), Pow2(2 * w);
      Pow2Sum(w, w);
      hide *;
      OneField(c, w, n);
      PairBelow(c, p);
      FirstField(AddFields(c, w, Fields(w, n)), AddFields(c / P, w, Fields(w, n - 1)), Pair(c, p), 2 * w, n - 1);
      AddFieldsSum(c / P, w, n - 1);
      TwoFields(c, w, 2 * n);
      assert 2 * n - 2 == 2 * (n - 1);
    }
  }

  lemma Spread(a: int, b: int, p: int)
    ensures p * a + p * b == (a + b) * p
  {
  }

  lemma TwiceBelow(p: int, a: int, b: int)
    requires p >= 2 && 0 <= a < p && 0 <= b < p
    ensures 0 <= a + b < p * p
  {
    Multiple(p - 2, p);
    assert (p - 2) * p == p * p - 2 * p;
    if p == 2 { assert p * p == 4; }
  }

  /** Only the low `n * w` bits matter. */
  lemma {:induction false} FieldSumLow(c: int, k: int, w: nat, n: nat, x: int)
    requires x == c + k * Pow2(n * w)
    ensures FieldSum(x, w, n) == FieldSum(c, w, n)
    decreases n
  {
    hide Pow2;
    if n > 0 {
      var p, u := Pow2(w), Pow2((n - 1) * w);
      OneWidth(n, w);
      Pow2Sum(w, (n - 1) * w);
      AddAbove(c, k, p, u);
      FieldSumLow(c / p, k, w, n - 1, x / p);
    }
  }

  lemma OneWidth(n: nat, w: nat)
    requires n > 0
    ensures n * w == w + (n - 1) * w && (n - 1) * w >= 0
  {
  }

  lemma AddAbove(c: int, k: int, p: int, u: int)
    requires p > 0
    ensures (c + k * (p * u)) / p == c / p + k * u && (c + k * (p * u)) % p == c % p
  {
    var q, r, m := c / p, c % p, k * u;
    assert k * (p * u) == m * p;
    assert c == q * p + r;
    assert c + m * p == (q + m) * p + r;
    QuotientIs(c + m * p, q + m, p, r);
  }

  /** The sum of one-bit fields is the sum of the bits. */
  ghost function Ones(x: int, n: nat): int {
    if n == 0 then 0 else Ones(x, n - 1) + Bit(x, n - 1)
  }

  lemma {:induction false} FieldSumBits(x: int, n: nat)
    ensures FieldSum(x, 1, n) == Ones(x, n)
    decreases n
  {
    if n > 0 {
      assert Pow2(1) == 2;
      FieldSumBits(x / 2, n - 1);
      OnesShift(x, n - 1);
    }
  }

  lemma {:induction false} OnesShift(x: int, n: nat)
    ensures Ones(x, n + 1) == x % 2 + Ones(x / 2, n)
  {
    if n > 0 { OnesShift(x, n - 1); }
  }
}
