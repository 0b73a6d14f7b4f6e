/** C's integer operators on two's complement numbers: a number is the int it stands for, and its bits go on
    for ever (zeros above a non-negative number, ones above a negative one). */
module TwosComplement {
  import opened Arithmetic

  const MIN: int := -0x8000_0000_0000_0000
  const WORD: nat := 0x1_0000_0000_0000_0000

  type Long = x: int | MIN <= x < -MIN

  function Bit(x: int, i: nat): (b: int)
    ensures b == 0 || b == 1
    decreases i
  {
    if i == 0 then x % 2 else Bit(x / 2, i - 1)
  }

  /** How far a number is from being all zeros or all ones. */
  function Size(x: int): nat {
    if x < 0 then -x - 1 else x
  }

  function AndBits(x: int, y: int): int
    decreases Size(x)
  {
    if x == 0 || y == 0 then 0
    else if x == -1 then y
    else 2 * AndBits(x / 2, y / 2) + (x % 2) * (y % 2)
  }

  function And(x: int, y: int): int {
    AndBits(x, y)
  }

  function Not(x: int): int {
    -x - 1
  }

  function Or(x: int, y: int): int {
    Not(And(Not(x), Not(y)))
  }

  function Xor(x: int, y: int): int {
    And(Or(x, y), Not(And(x, y)))
  }

  /** `!x`. */
  function IsZero(x: int): int {
    if x == 0 then 1 else 0
  }

  /** The low 64 bits, as a long. */
  function Wrap(x: int): Long {
    (x - MIN) % WORD + MIN
  }

  function Shl(x: int, n: nat): Long {
    Wrap(x * Pow2(n))
  }

  /** `>>` on a signed number copies the sign. */
  function Shr(x: int, n: nat): int {
    x / Pow2(n)
  }

  // ----- The operators by bits

  lemma {:induction false} AndBit(x: int, y: int, i: nat)
    ensures Bit(And(x, y), i) == Bit(x, i) * Bit(y, i)
    decreases i
  {
    hide And;
    var h, b := And(x / 2, y / 2), (x % 2) * (y % 2);
    AndStep(x, y);
    assert b == 0 || b == 1;
    Halves(h, b);
    if i > 0 { AndBit(x / 2, y / 2, i - 1); }
  }

  lemma {:induction false} ZeroBits(i: nat)
    ensures Bit(0, i) == 0
  {
    if i > 0 { ZeroBits(i - 1); }
  }

  lemma {:induction false} OneBits(i: nat)
    ensures Bit(-1, i) == 1
  {
    if i > 0 { OneBits(i - 1); }
  }

  lemma {:induction false} NotBit(x: int, i: nat)
    ensures Bit(Not(x), i) == 1 - Bit(x, i)
    decreases i
  {
    if i > 0 {
      assert Not(x) / 2 == Not(x / 2);
      NotBit(x / 2, i - 1);
    }
  }

  lemma OrBit(x: int, y: int, i: nat)
    ensures Bit(Or(x, y), i) == if Bit(x, i) == 1 || Bit(y, i) == 1 then 1 else 0
  {
    NotBit(x, i);
    NotBit(y, i);
    AndBit(Not(x), Not(y), i);
    NotBit(And(Not(x), Not(y)), i);
  }

  lemma XorBit(x: int, y: int, i: nat)
    ensures Bit(Xor(x, y), i) == if Bit(x, i) == Bit(y, i) then 0 else 1
  {
    OrBit(x, y, i);
    AndBit(x, y, i);
    NotBit(And(x, y), i);
    AndBit(Or(x, y), Not(And(x, y)), i);
  }

  /** `(x / 2^n)` has the bits of `x` from `n` on. */
  lemma {:induction false} ShrBit(x: int, n: nat, i: nat)
    ensures Bit(Shr(x, n), i) == Bit(x, i + n)
    decreases n
  {
    if n > 0 {
      DivTwice(x, Pow2(n - 1));
      ShrBit(x / 2, n - 1, i);
    }
  }

  lemma DivTwice(x: int, d: int)
    requires d > 0
    ensures x / (2 * d) == (x / 2) / d
  {
    var h, q := x / 2, x / (2 * d);
    var r := x - q * (2 * d);
    assert 0 <= r < 2 * d;
    assert h == q * d + r / 2 && 0 <= r / 2 < d;
    QuotientIs(h, q, d, r / 2);
  }

  lemma {:induction false} TimesPow2Bit(x: int, n: nat, i: nat)
    ensures Bit(x * Pow2(n), i) == if i < n then 0 else Bit(x, i - n)
    decreases n
  {
    if n > 0 {
      var y := x * Pow2(n - 1);
      assert x * Pow2(n) == 2 * y;
      if i > 0 { TimesPow2Bit(x, n - 1, i - 1); }
    }
  }

  /** A number and its low 64 bits agree on these bits. */
  lemma {:induction false} SameBits(x: int, k: int, n: nat, i: nat)
    requires i < n
    ensures Bit(x + k * Pow2(n), i) == Bit(x, i)
    decreases n
  {
    var p := Pow2(n - 1);
    assert x + k * Pow2(n) == x + 2 * (k * p);
    if i > 0 {
      assert (x + 2 * (k * p)) / 2 == x / 2 + k * p;
      SameBits(x / 2, k, n - 1, i - 1);
    }
  }

  lemma WrapBit(x: int, i: nat)
    requires i < 64
    ensures Bit(Wrap(x), i) == Bit(x, i)
  {
    var k := (x - MIN) / WORD;
    Pow2Is64();
    assert Wrap(x) == x + (-k) * WORD;
    SameBits(x, -k, 64, i);
  }

  /** Numbers of `n` bits and a sign are equal when their first `n + 1` bits are. */
  lemma {:induction false} EqualBits(x: int, y: int, n: nat)
    requires -Pow2(n) <= x < Pow2(n) && -Pow2(n) <= y < Pow2(n)
    requires forall i: nat :: i <= n ==> Bit(x, i) == Bit(y, i)
    ensures x == y
    decreases n
  {
    assert Bit(x, 0) == Bit(y, 0);
    if n > 0 {
      forall i: nat | i <= n - 1
        ensures Bit(x / 2, i) == Bit(y / 2, i)
      {
        assert Bit(x, i + 1) == Bit(y, i + 1);
      }
      EqualBits(x / 2, y / 2, n - 1);
    }
  }

  // ----- Masks

  lemma AndOnes(x: int)
    ensures And(x, -1) == x && And(-1, x) == x && And(0, x) == 0 && And(x, 0) == 0
    decreases Size(x)
  {
    if x != 0 && x != -1 { AndOnes(x / 2); }
  }

  lemma AndStep(x: int, y: int)
    ensures And(x, y) == 2 * And(x / 2, y / 2) + (x % 2) * (y % 2)
  {
    Digits(x);
    Digits(y);
    if x == -1 {
      AndOnes(y / 2);
      AndOnes(y);
      hide And;
    } else if x == 0 || y == 0 {
      AndOnes(x / 2);
      AndOnes(y / 2);
      hide And;
    }
  }

  lemma Digits(x: int)
    ensures x == 2 * (x / 2) + x % 2 && (x % 2 == 0 || x % 2 == 1)
    ensures Not(x) / 2 == Not(x / 2) && Not(x) % 2 == 1 - x % 2
  {
  }

  lemma OrStep(x: int, y: int)
    ensures Or(x, y) == 2 * Or(x / 2, y / 2) + if x % 2 == 1 || y % 2 == 1 then 1 else 0
  {
    hide And;
    Digits(x);
    Digits(y);
    AndStep(Not(x), Not(y));
  }

  lemma OrZero(x: int)
    ensures Or(x, 0) == x
  {
    hide And;
    AndOnes(Not(x));
  }

  lemma Halves(h: int, b: int)
    requires b == 0 || b == 1
    ensures (2 * h + b) / 2 == h && (2 * h + b) % 2 == b
  {
  }

  lemma Double(p: int, m: int)
    ensures (2 * p) * m == 2 * (p * m)
  {
  }

  lemma {:induction false} AndAbove(c: int, k: nat, m: int)
    ensures And(c, Pow2(k) * m) == Pow2(k) * And(c / Pow2(k), m)
    decreases k
  {
    hide Pow2;
    if k == 0 {
      Pow2Step(0);
    } else {
      var p := Pow2(k - 1);
      Pow2Step(k - 1);
      Double(p, m);
      Halves(p * m, 0);
      AndStep(c, 2 * (p * m));
      AndAbove(c / 2, k - 1, m);
      DivTwice(c, p);
      Double(p, And(c / 2 / p, m));
    }
  }

  /** Numbers without a common one bit: `|` is `+`. */
  lemma {:induction false} OrDisjoint(lo: int, h: int, k: nat)
    requires 0 <= lo < Pow2(k)
    ensures Or(lo, h * Pow2(k)) == lo + h * Pow2(k)
    decreases k
  {
    if k == 0 {
      AndOnes(Not(h));
    } else {
      var y := h * Pow2(k - 1);
      assert h * Pow2(k) == 2 * y;
      OrStep(lo, 2 * y);
      OrDisjoint(lo / 2, h, k - 1);
    }
  }

  lemma DoubledBit(x: int, p: int, half: int, isSet: bool)
    requires half == if isSet then x / 2 else x / 2 + p
    ensures 2 * half + x % 2 == if isSet then x else x + 2 * p
    ensures x % 2 == 0 || x % 2 == 1
  {
  }

  /** Setting one bit. */
  lemma {:induction false} OrOneBit(x: int, k: nat)
    ensures Or(x, Pow2(k)) == if x / Pow2(k) % 2 == 1 then x else x + Pow2(k)
    decreases k
  {
    hide Or, Pow2;
    OrStep(x, Pow2(k));
    Pow2Step(if k == 0 then 0 else k - 1);
    if k == 0 {
      OrZero(x / 2);
      Digits(x);
    } else {
      var p := Pow2(k - 1);
      OrOneBit(x / 2, k - 1);
      DivTwice(x, p);
      Halves(p, 0);
      hide *;
      DoubledBit(x, p, Or(x / 2, p), x / (2 * p) % 2 == 1);
    }
  }

  /** `x & (2^n - 1)` is the remainder. */
  lemma {:induction false} AndLow(x: int, n: nat)
    ensures And(x, Pow2(n) - 1) == x % Pow2(n)
    decreases n
  {
    if x == -1 {
      AndOnes(Pow2(n) - 1);
      QuotientIs(-1, -1, Pow2(n), Pow2(n) - 1);
    } else if n > 0 && x != 0 {
      var p := Pow2(n - 1);
      AndLow(x / 2, n - 1);
      assert (2 * p - 1) / 2 == p - 1 && (2 * p - 1) % 2 == 1;
      LowStep(x, p);
    }
  }

  lemma LowStep(x: int, p: int)
    requires p > 0
    ensures x % (2 * p) == 2 * ((x / 2) % p) + x % 2
  {
    var h, q := x / 2, (x / 2) / p;
    assert x == q * (2 * p) + (2 * (h % p) + x % 2);
    QuotientIs(x, q, 2 * p, 2 * (h % p) + x % 2);
  }

  /** `x & (-2^n)`, for a number of `n` bits, is its sign. */
  lemma {:induction false} AndSign(x: int, n: nat)
    requires -Pow2(n) <= x < Pow2(n)
    ensures And(-Pow2(n), x) == (if x < 0 then -Pow2(n) else 0) == And(x, -Pow2(n))
    decreases n
  {
    AndOnes(x);
    AndOnes(-Pow2(n));
    if n > 0 && x != 0 && x != -1 {
      assert (-Pow2(n)) / 2 == -Pow2(n - 1) && (-Pow2(n)) % 2 == 0;
      AndSign(x / 2, n - 1);
    }
  }
}
