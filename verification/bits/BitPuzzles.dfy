/** The branch-free forms of bits.c and what they compute. */
module BitPuzzles {
  import opened Arithmetic
  import opened TwosComplement

  /** C's division: the quotient is rounded toward zero. */
  function Quotient(x: int, d: int): int
    requires d > 0
  {
    if x >= 0 then x / d else -((-x) / d)
  }

  /** The product with the quotient is next to the number, on the side of zero. */
  lemma QuotientRounds(x: int, d: int)
    requires d > 0
    ensures x >= 0 ==> Quotient(x, d) * d <= x < Quotient(x, d) * d + d
    ensures x <= 0 ==> Quotient(x, d) * d - d < x <= Quotient(x, d) * d
  {
    Division(if x >= 0 then x else -x, d);
    assert x < 0 ==> -((-x) / d) * d == -((-x) / d * d);
  }

  /** The copies of the sign bit, `x >> 63`. */
  lemma SignOf(x: Long)
    ensures Shr(x, 63) == if x < 0 then -1 else 0
  {
    Pow2Is64();
    QuotientIs(x, if x < 0 then -1 else 0, Pow2(63), if x < 0 then x + Pow2(63) else x);
  }

  /** `(a & ~s) | (s & b)` chooses by the mask `s`. */
  lemma Choose(s: int, a: int, b: int)
    requires s == 0 || s == -1
    ensures Or(And(a, Not(s)), And(s, b)) == if s == 0 then a else b
  {
    AndOnes(a);
    AndOnes(b);
    AndOnes(Not(a));
    AndOnes(Not(b));
  }

  lemma WrapLong(x: int)
    requires MIN <= x < -MIN
    ensures Wrap(x) == x
  {
  }

  // ----- dividePower2

  function DividePower2(x: Long, n: nat): int {
    var sign := Shr(x, 63);
    var result1 := Shr(x, n);
    var result2 := Shr(Wrap(x + Wrap(Shl(1, n) + Wrap(Not(1) + 1))), n);
    Or(And(result1, Not(sign)), And(sign, result2))
  }

  lemma DividePower2IsQuotient(x: Long, n: nat)
    requires n <= 62
    ensures DividePower2(x, n) == Quotient(x, Pow2(n))
    ensures x >= 0 ==> DividePower2(x, n) * Pow2(n) <= x < DividePower2(x, n) * Pow2(n) + Pow2(n)
    ensures x <= 0 ==> DividePower2(x, n) * Pow2(n) - Pow2(n) < x <= DividePower2(x, n) * Pow2(n)
  {
    DividesPower2(x, n);
    hide *;
    QuotientRounds(x, Pow2(n));
  }

  lemma DividesPower2(x: Long, n: nat)
    requires n <= 62
    ensures DividePower2(x, n) == Quotient(x, Pow2(n))
  {
    SignOf(x);
    var biased := Wrap(x + Wrap(Shl(1, n) + Wrap(Not(1) + 1)));
    Choose(Shr(x, 63), Shr(x, n), Shr(biased, n));
    hide Or, And, Not, Wrap, Shl, Pow2;
    if x < 0 {
      Bias(x, n);
      CeilingQuotient(x, Pow2(n));
    }
  }

  lemma Bias(x: Long, n: nat)
    requires n <= 62 && x < 0
    ensures Wrap(x + Wrap(Shl(1, n) + Wrap(Not(1) + 1))) == x + (Pow2(n) - 1)
  {
    Pow2Mono(n, 62);
    Pow2Is64();
    assert Pow2(63) == 2 * Pow2(62);
    assert Shl(1, n) == Wrap(Pow2(n)) && Not(1) + 1 == -1;
    hide Pow2, Shl, Wrap, Not;
    WrapLong(-1);
    WrapLong(Pow2(n));
    WrapLong(Pow2(n) - 1);
    WrapLong(x + (Pow2(n) - 1));
  }

  lemma CeilingQuotient(x: int, d: int)
    requires x < 0 && d > 0
    ensures (x + (d - 1)) / d == Quotient(x, d)
  {
    var q, r := (-x) / d, (-x) % d;
    assert x == -(q * d) - r;
    QuotientIs(x + (d - 1), -q, d, d - 1 - r);
  }

  // ----- isLessOrEqual

  function IsLessOrEqual(x: Long, y: Long): int {
    var yMinusx := Wrap(y + Wrap(Not(x) + 1));
    var index := Shl(1, 63);
    var same := IsZero(Xor(And(index, x), And(index, y)));
    var resultsame := IsZero(And(yMinusx, index));
    var xLeft := And(x, index);
    var yLeft := And(y, index);
    var resultdiff := IsZero(And(Not(xLeft), yLeft));
    Or(And(same, resultsame), And(Not(same), resultdiff))
  }

  lemma IsLessOrEqualIs(x: Long, y: Long)
    ensures IsLessOrEqual(x, y) == if x <= y then 1 else 0
  {
    TopBit(x);
    TopBit(y);
    var d: Long := Wrap(y + Wrap(Not(x) + 1));
    TopBit(d);
    if x < 0 <==> y < 0 { Difference(x, y); }
    hide And, Or, Xor, Not, Wrap, Shl;
    SignsDiffer(if x < 0 then MIN else 0, if y < 0 then MIN else 0);
    OneBitOps(IsZero(And(d, MIN)), IsZero(And(Not(And(x, MIN)), And(y, MIN))));
  }

  /** `1L << 63` picks the sign. */
  lemma TopBit(x: Long)
    ensures Shl(1, 63) == MIN && And(MIN, x) == And(x, MIN) == if x < 0 then MIN else 0
  {
    Pow2Is64();
    AndSign(x, 63);
  }

  /** `y - x` is right when the signs agree. */
  lemma Difference(x: Long, y: Long)
    requires x < 0 <==> y < 0
    ensures Wrap(y + Wrap(Not(x) + 1)) == y - x
  {
    if x == MIN {
      assert Wrap(Not(x) + 1) == MIN;
    } else {
      WrapLong(-x);
    }
  }

  lemma SignsDiffer(a: int, b: int)
    requires (a == 0 || a == MIN) && (b == 0 || b == MIN)
    ensures IsZero(Xor(a, b)) == if a == b then 1 else 0
    ensures IsZero(And(Not(a), b)) == if a == 0 && b == MIN then 0 else 1
  {
    Pow2Is64();
    XorBit(a, b, 63);
    AndBit(Not(a), b, 63);
    NotBit(a, 63);
    SignBit();
    ZeroBits(63);
    XorSame(a);
    AndOnes(b);
    AndOnes(Not(a));
    AndSign(Not(a), 63);
    AndSign(b, 63);
  }

  lemma SignBit()
    ensures Bit(MIN, 63) == 1
  {
    Pow2Is64();
    TimesPow2Bit(-1, 63, 63);
  }

  lemma {:induction false} XorSame(a: int)
    ensures Xor(a, a) == 0
    decreases Size(a)
  {
    AndSelf(a);
    AndSelf(Not(a));
    assert Or(a, a) == a;
    AndNot(a);
  }

  lemma {:induction false} AndSelf(a: int)
    ensures And(a, a) == a
    decreases Size(a)
  {
    hide And;
    AndOnes(a);
    if a != 0 && a != -1 {
      AndStep(a, a);
      Digits(a);
      AndSelf(a / 2);
    }
  }

  lemma {:induction false} AndNot(a: int)
    ensures And(a, Not(a)) == 0
    decreases Size(a)
  {
    hide And;
    AndOnes(a);
    AndOnes(Not(a));
    if a != 0 && a != -1 {
      AndStep(a, Not(a));
      Digits(a);
      AndNot(a / 2);
    }
  }

  /** `(s & a) | (~s & b)` for bits. */
  lemma OneBitOps(a: int, b: int)
    requires 0 <= a <= 1 && 0 <= b <= 1
    ensures Or(And(1, a), And(Not(1), b)) == a
    ensures Or(And(0, a), And(Not(0), b)) == b
  {
    AndOnes(a);
    AndOnes(b);
    AndOnes(Not(a));
    AndOnes(Not(b));
    assert And(1, a) == a;
    assert And(-2, b) == 0;
  }

  // ----- trueThreeFourths

  function TrueThreeFourths(x: Long): int {
    var mask := 3;
    var sign := Shr(x, 63);
    var result := Wrap(Shr(x, 2) + Shr(x, 1));
    var remainder := And(x, mask);
    var remainder1 := IsZero(IsZero(Xor(And(remainder, sign), 0)));
    var remainder2 := IsZero(Xor(remainder, mask));
    Wrap(result + remainder1 + remainder2)
  }

  lemma TrueThreeFourthsIs(x: Long)
    ensures TrueThreeFourths(x) == Quotient(3 * x, 4)
    ensures var r := TrueThreeFourths(x);
      if x >= 0 then 4 * r <= 3 * x < 4 * r + 4 else 4 * r - 4 < 3 * x <= 4 * r
  {
    ThreeFourthsQuotient(x);
    hide *;
    QuotientRounds(3 * x, 4);
  }

  lemma ThreeFourthsQuotient(x: Long)
    ensures TrueThreeFourths(x) == Quotient(3 * x, 4)
  {
    hide And, Or, Xor, Not, Shr, Pow2, Wrap, IsZero, Quotient;
    Parts(x);
    var sum := x / 4 + x / 2;
    WrapLong(sum);
    ThreeFourths(x);
  }

  /** The parts of the sum: the quotients, and the two corrections. */
  lemma Parts(x: Long)
    ensures Shr(x, 2) == x / 4 && Shr(x, 1) == x / 2
    ensures IsZero(IsZero(Xor(And(And(x, 3), Shr(x, 63)), 0))) == if x < 0 && x % 4 != 0 then 1 else 0
    ensures IsZero(Xor(And(x, 3), 3)) == if x % 4 == 3 then 1 else 0
  {
    SignOf(x);
    assert Shr(x, 1) == x / 2 && Shr(x, 2) == x / 4 && Pow2(2) == 4;
    AndLow(x, 2);
    hide And, Or, Xor, Not, Shr, Pow2;
    AndOnes(x % 4);
    XorZero(x % 4);
    XorZero(0);
    XorThree(x % 4);
  }

  lemma XorThree(r: int)
    requires 0 <= r < 4
    ensures IsZero(Xor(r, 3)) == if r == 3 then 1 else 0
  {
    XorSame(3);
    if r != 3 { XorBelow(r, if r % 2 == 0 then 0 else 1); }
    hide Xor;
  }

  lemma XorBelow(r: int, i: nat)
    requires 0 <= r < 3 && i == if r % 2 == 0 then 0 else 1
    ensures Xor(r, 3) != 0
  {
    XorBit(r, 3, i);
    ZeroBits(i);
    hide Xor;
    assert r == 0 || r == 1 || r == 2;
    assert Bit(3, 0) == Bit(3, 1) == 1 && Bit(0, 0) == Bit(2, 0) == 0 && Bit(1, 1) == 0;
  }

  lemma ThreeFourths(x: Long)
    ensures var s := x / 4 + x / 2 + (if x < 0 && x % 4 != 0 then 1 else 0) + (if x % 4 == 3 then 1 else 0);
      Wrap(s) == s == Quotient(3 * x, 4)
  {
    var q, r := x / 4, x % 4;
    QuotientIs(x, 2 * q + r / 2, 2, r % 2);
    if x >= 0 {
      QuotientIs(3 * x, 3 * q + 3 * r / 4, 4, 3 * r % 4);
    } else {
      QuotientIs(-(3 * x), -(3 * q) - r, 4, r);
    }
    WrapLong(Quotient(3 * x, 4));
  }

  lemma XorZero(a: int)
    ensures Xor(a, 0) == a
  {
    AndOnes(a);
    AndOnes(Not(a));
  }

  // ----- integerLog2

  /** `result + (!!(x >> (w + result)) * w)`: one turn of the search. */
  function Halving(x: Long, r: nat, w: nat): (u: nat)
    ensures u == r || u == r + w
  {
    r + IsZero(IsZero(Shr(x, w + r))) * w
  }

  function IntegerLog2(x: Long): nat {
    Halving(x, Halving(x, Halving(x, Halving(x, Halving(x, Halving(x, 0, 32), 16), 8), 4), 2), 1)
  }

  /** One halving of the search: the answer lies in `r .. r + 2w`. */
  lemma Halve(x: Long, r: nat, w: nat)
    requires 0 < x && Pow2(r) <= x < Pow2(r + 2 * w)
    ensures var u := Halving(x, r, w); u >= r && Pow2(u) <= x < Pow2(u + w)
  {
    var p := Pow2(w + r);
    if x < p {
      QuotientIs(x, 0, p, x);
    } else {
      Positive(x, p);
    }
    assert r + w == w + r && r + 2 * w == (r + w) + w;
  }

  lemma Positive(x: int, p: int)
    requires 0 < p <= x
    ensures x / p != 0
  {
    assert x == (x / p) * p + x % p;
  }

  /** Three turns, from 8w possible places to w. */
  ghost function ThreeTurns(x: Long, r: nat, w: nat): nat {
    Halving(x, Halving(x, Halving(x, r, 4 * w), 2 * w), w)
  }

  lemma SixTurns(x: Long)
    ensures IntegerLog2(x) == ThreeTurns(x, ThreeTurns(x, 0, 8), 1)
  {
    hide Halving;
  }

  lemma HalveThrice(x: Long, r: nat, w: nat)
    requires 0 < x && Pow2(r) <= x < Pow2(r + 8 * w)
    ensures var u := ThreeTurns(x, r, w); Pow2(u) <= x < Pow2(u + w)
  {
    hide Pow2, Halving;
    Halve(x, r, 4 * w);
    Halve(x, Halving(x, r, 4 * w), 2 * w);
    Halve(x, Halving(x, Halving(x, r, 4 * w), 2 * w), w);
  }

  lemma FromPow2(a: nat, b: nat)
    ensures a <= b ==> Pow2(a) <= Pow2(b)
  {
    hide Pow2;
    if a <= b { Pow2Mono(a, b); }
  }

  lemma LongRange(x: Long)
    requires x > 0
    ensures Pow2(0) <= x < Pow2(63) && x < Pow2(0 + 8 * 8)
  {
    Pow2Is64();
    Pow2Is1();
    hide Pow2;
  }

  lemma IntegerLog2IsFloor(x: Long)
    requires x > 0
    ensures var r := IntegerLog2(x); r <= 62 && Pow2(r) <= x < Pow2(r + 1)
  {
    hide *;
    LongRange(x);
    SixTurns(x);
    HalveThrice(x, 0, 8);
    HalveThrice(x, ThreeTurns(x, 0, 8), 1);
    FromPow2(63, IntegerLog2(x));
  }
}
