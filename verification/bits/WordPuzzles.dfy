/** bitCount and isPalindrome of bits.c: all fields of a word are worked on at once. */
module WordPuzzles {
  import opened Arithmetic
  import opened TwosComplement
  import opened BitPuzzles
  import opened FieldSums

  // ----- Masks

  /** The masks as bits.c builds them, each from the one before. */
  function Mask6(): Long { 0xFFFF_FFFF }
  function Mask5(): int { Xor(Mask6(), Shl(Mask6(), 16)) }
  function Mask4(): int { Xor(Mask5(), Shl(Mask5(), 8)) }
  function Mask3(): int { Xor(Mask4(), Shl(Mask4(), 4)) }
  function Mask2(): int { Xor(Mask3(), Shl(Mask3(), 2)) }
  function Mask1(): int { Xor(Mask2(), Shl(Mask2(), 1)) }

  /** Bit `i` lies in the low half of its field of `2w` bits. */
  predicate InLow(w: nat, i: nat)
    requires w > 0
  {
    i % (2 * w) < w
  }

  lemma {:induction false} LowBits(n: nat, i: nat)
    ensures Bit(Pow2(n) - 1, i) == if i < n then 1 else 0
    decreases i
  {
    if n == 0 {
      ZeroBits(i);
    } else if i > 0 {
      assert (2 * Pow2(n - 1) - 1) / 2 == Pow2(n - 1) - 1;
      LowBits(n - 1, i - 1);
    }
  }

  /** The bits of the fields, up to the last of `n`. */
  lemma {:induction false} FieldsBit(w: nat, n: nat, i: nat)
    requires w > 0
    ensures Bit(Fields(w, n), i) == if i < 2 * w * n && InLow(w, i) then 1 else 0
    decreases n
  {
    if n == 0 {
      ZeroBits(i);
    } else {
      assert 2 * w * n == 2 * w + 2 * w * (n - 1);
      if i < 2 * w {
        FirstField(w, Fields(w, n - 1), i);
      } else {
        Pow2Mono(w, 2 * w);
        AboveBits(Pow2(w) - 1, Fields(w, n - 1), 2 * w, i);
        FieldsBit(w, n - 1, i - 2 * w);
        Turn(i - 2 * w, 2 * w);
      }
    }
  }

  lemma FirstField(w: nat, rest: int, i: nat)
    requires i < 2 * w
    ensures Bit((Pow2(w) - 1) + Pow2(2 * w) * rest, i) == if InLow(w, i) then 1 else 0
  {
    assert Pow2(2 * w) * rest == rest * Pow2(2 * w);
    SameBits(Pow2(w) - 1, rest, 2 * w, i);
    LowBits(w, i);
    QuotientIs(i, 0, 2 * w, i);
  }

  lemma Turn(i: int, d: int)
    requires d > 0
    ensures (i + d) % d == i % d
  {
    QuotientIs(i + d, i / d + 1, d, i % d);
  }

  /** Above `n`, `low + 2^n * x` has the bits of `x`. */
  lemma AboveBits(low: int, x: int, n: nat, i: nat)
    requires 0 <= low < Pow2(n) && i >= n
    ensures Bit(low + Pow2(n) * x, i) == Bit(x, i - n)
  {
    QuotientIs(low + Pow2(n) * x, x, Pow2(n), low);
    ShrBit(low + Pow2(n) * x, n, i - n);
  }

  lemma {:induction false} FieldsBound(w: nat, n: nat)
    ensures 0 <= Fields(w, n) && Fields(w, n) * Pow2(w) < Pow2(2 * w * n)
    decreases n
  {
    if n > 0 {
      FieldsBound(w, n - 1);
      assert 2 * w * n == 2 * w + 2 * w * (n - 1);
      Pow2Sum(2 * w, 2 * w * (n - 1));
      Pow2Sum(w, w);
      BoundStep(Pow2(w), Fields(w, n - 1), Pow2(2 * w * (n - 1)));
    }
  }

  lemma BoundStep(p: int, f: int, q: int)
    requires p > 0 && 0 <= f && f * p < q
    ensures 0 <= (p - 1) + (p * p) * f && ((p - 1) + (p * p) * f) * p < (p * p) * q
  {
    assert ((p - 1) + (p * p) * f) * p == p * p - p + (p * p) * (f * p);
    assert (p * p) * (f * p + 1) <= (p * p) * q by { Product(p * p, f * p + 1, q); }
    assert (p * p) * (f * p + 1) == (p * p) * (f * p) + p * p;
    assert 0 <= (p * p) * f;
  }

  lemma Product(a: int, b: int, c: int)
    requires a >= 0 && b <= c
    ensures a * b <= a * c
  {
    assert a * (c - b) == a * c - a * b;
  }

  /** A full row of fields is a long. */
  lemma FieldsLong(w: nat, n: nat)
    requires w > 0 && 2 * w * n == 64
    ensures 0 <= Fields(w, n) < -MIN
  {
    FieldsBound(w, n);
    Pow2Is64();
    Pow2Mono(1, w);
    assert Pow2(1) == 2;
    Product(Fields(w, n), 2, Pow2(w));
  }

  lemma {:induction false} AndRange(x: int, y: int, n: nat)
    requires -Pow2(n) <= x < Pow2(n) && -Pow2(n) <= y < Pow2(n)
    ensures -Pow2(n) <= And(x, y) < Pow2(n)
    decreases n
  {
    if x == 0 || y == 0 || x == -1 {
    } else if n > 0 {
      AndRange(x / 2, y / 2, n - 1);
      BitProduct(x % 2, y % 2);
    }
  }

  lemma BitProduct(a: int, b: int)
    requires 0 <= a <= 1 && 0 <= b <= 1
    ensures 0 <= a * b <= 1
  {
  }

  /** The operators on longs give longs. */
  lemma LongOps(x: Long, y: Long)
    ensures MIN <= And(x, y) < -MIN && MIN <= Or(x, y) < -MIN && MIN <= Xor(x, y) < -MIN
  {
    Pow2Is64();
    hide And;
    AndRange(x, y, 63);
    AndRange(Not(x), Not(y), 63);
    AndRange(Or(x, y), Not(And(x, y)), 63);
  }

  lemma Parted(i: nat, d: nat) returns (q: nat, r: nat)
    requires d > 0
    ensures i == q * d + r && r < d
  {
    q, r := i / d, i % d;
  }

  lemma HalfFields(w: nat, i: nat)
    requires w > 0
    ensures InLow(w, i) <==> (InLow(2 * w, i) != (i >= w && InLow(2 * w, i - w)))
  {
    hide InLow;
    var q, r := Parted(i, 4 * w);
    Quarter(w, i, q, r);
    if i >= w { QuarterBefore(w, i, q, r); } else { SameQuotient(q, r, 0, i, 4 * w); }
  }

  /** In which quarter of its field of `4w` bits a bit lies says in which half of its field of `2w` it does. */
  lemma Quarter(w: nat, i: nat, q: nat, r: nat)
    requires w > 0 && i == q * (4 * w) + r && r < 4 * w
    ensures InLow(2 * w, i) <==> r < 2 * w
    ensures InLow(w, i) <==> r < w || 2 * w <= r < 3 * w
  {
    var t := q * (4 * w);
    QuotientIs(i, q, 4 * w, r);
    assert t == (2 * q) * (2 * w) && t + 2 * w == (2 * q + 1) * (2 * w);
    if r < 2 * w {
      QuotientIs(i, 2 * q, 2 * w, r);
    } else {
      QuotientIs(i, 2 * q + 1, 2 * w, r - 2 * w);
    }
  }

  lemma QuarterBefore(w: nat, i: nat, q: nat, r: nat)
    requires 0 < w <= i && i == q * (4 * w) + r && r < 4 * w
    ensures InLow(2 * w, i - w) <==> w <= r < 3 * w
  {
    var t := q * (4 * w);
    if r >= w {
      QuotientIs(i - w, q, 4 * w, r - w);
    } else {
      assert (q - 1) * (4 * w) == t - 4 * w;
      QuotientIs(i - w, q - 1, 4 * w, r + 3 * w);
    }
  }

  lemma ShiftedMaskBit(w: nat, n: nat, i: nat)
    requires w > 0 && 4 * w * n == 64 && i <= 63
    ensures Bit(Shl(Fields(2 * w, n), w), i) == if i >= w && InLow(2 * w, i - w) then 1 else 0
  {
    var m := Fields(2 * w, n);
    WrapBit(m * Pow2(w), i);
    TimesPow2Bit(m, w, i);
    hide InLow, Fields, Bit;
    if i >= w { FieldsBit(2 * w, n, i - w); }
  }

  lemma MaskStepBit(w: nat, n: nat, i: nat)
    requires w > 0 && 4 * w * n == 64 && i <= 63
    ensures Bit(Xor(Fields(2 * w, n), Shl(Fields(2 * w, n), w)), i) == Bit(Fields(w, 2 * n), i)
  {
    hide InLow, Xor, Fields, Bit, Shl;
    assert 2 * (2 * w) * n == 64 && 2 * w * (2 * n) == 64;
    XorBit(Fields(2 * w, n), Shl(Fields(2 * w, n), w), i);
    ShiftedMaskBit(w, n, i);
    FieldsBit(2 * w, n, i);
    FieldsBit(w, 2 * n, i);
    HalfFields(w, i);
  }

  /** `mask ^ (mask << w)` halves the fields. */
  lemma MaskStep(w: nat, n: nat)
    requires w > 0 && 4 * w * n == 64
    ensures MIN <= Fields(2 * w, n) < -MIN && Xor(Fields(2 * w, n), Shl(Fields(2 * w, n), w)) == Fields(w, 2 * n)
  {
    hide Xor, Fields, Bit, Shl, Pow2;
    assert 2 * (2 * w) * n == 64 && 2 * w * (2 * n) == 64;
    FieldsLong(2 * w, n);
    FieldsLong(w, 2 * n);
    MasksAgree(Xor(Fields(2 * w, n), Shl(Fields(2 * w, n), w)), w, n);
  }

  lemma MasksAgree(x: int, w: nat, n: nat)
    requires w > 0 && 4 * w * n == 64 && x == Xor(Fields(2 * w, n), Shl(Fields(2 * w, n), w))
    requires MIN <= Fields(2 * w, n) < -MIN && MIN <= Fields(w, 2 * n) < -MIN
    ensures x == Fields(w, 2 * n)
  {
    hide Xor, Fields, Bit, Shl, Pow2;
    LongOps(Fields(2 * w, n), Shl(Fields(2 * w, n), w));
    Pow2Is64();
    forall i: nat | i <= 63
      ensures Bit(x, i) == Bit(Fields(w, 2 * n), i)
    {
      MaskStepBit(w, n, i);
    }
    EqualBits(x, Fields(w, 2 * n), 63);
  }

  lemma Mask6Is()
    ensures Mask6() == Fields(32, 1)
  {
    assert Fields(32, 0) == 0 && Pow2(32) == 0x1_0000_0000 by {
      assert Pow2(8) == 0x100;
      Pow2Sum(8, 8);
      Pow2Sum(16, 16);
    }
  }

  /** What the masks are. */
  lemma Masks()
    ensures Mask6() == Fields(32, 1) && Mask5() == Fields(16, 2) && Mask4() == Fields(8, 4)
    ensures Mask3() == Fields(4, 8) && Mask2() == Fields(2, 16) && Mask1() == Fields(1, 32)
  {
    hide Xor, Shl, Fields, Mask6;
    Mask6Is();
    MaskStep(16, 1);
    MaskStep(8, 2);
    MaskStep(4, 4);
    MaskStep(2, 8);
    MaskStep(1, 16);
  }

  // ----- bitCount

  function BitCount(x: Long): Long {
    var count1 := Wrap(AddFields(x, 1, Mask1()));
    var count2 := Wrap(AddFields(count1, 2, Mask2()));
    var count3 := Wrap(AddFields(count2, 4, Mask3()));
    var count4 := Wrap(AddFields(count3, 8, Mask4()));
    var count5 := Wrap(AddFields(count4, 16, Mask5()));
    Wrap(AddFields(count5, 32, Mask6()))
  }

  lemma WrapSum(c: int, w: nat, n: nat)
    requires n * w == 64
    ensures FieldSum(Wrap(c), w, n) == FieldSum(c, w, n)
  {
    Pow2Is64();
    var k := (c - MIN) / WORD;
    assert Wrap(c) == c + (-k) * WORD;
    FieldSumLow(c, -k, w, n, c - k * Pow2(n * w));
  }

  /** One line of bitCount. */
  lemma CountStep(c: Long, w: nat, n: nat)
    requires w > 0 && n * (2 * w) == 64
    ensures FieldSum(Wrap(AddFields(c, w, Fields(w, n))), 2 * w, n) == FieldSum(c, w, 2 * n)
  {
    AddFieldsSum(c, w, n);
    WrapSum(AddFields(c, w, Fields(w, n)), 2 * w, n);
  }

  /** bitCount is the sum of the 64 bits. */
  lemma BitCountIsSum(x: Long)
    ensures BitCount(x) == Ones(x, 64)
  {
    Masks();
    hide AddFields, Fields, FieldSum, Wrap, Mask1, Mask2, Mask3, Mask4, Mask5, Mask6;
    var count1 := Wrap(AddFields(x, 1, Fields(1, 32)));
    CountStep(x, 1, 32);
    var count2 := Wrap(AddFields(count1, 2, Fields(2, 16)));
    CountStep(count1, 2, 16);
    var count3 := Wrap(AddFields(count2, 4, Fields(4, 8)));
    CountStep(count2, 4, 8);
    var count4 := Wrap(AddFields(count3, 8, Fields(8, 4)));
    CountStep(count3, 8, 4);
    var count5 := Wrap(AddFields(count4, 16, Fields(16, 2)));
    CountStep(count4, 16, 2);
    var count6 := Wrap(AddFields(count5, 32, Fields(32, 1)));
    CountStep(count5, 32, 1);
    FieldSumBits(x, 64);
    OneField(count6);
    OnesBound(x, 64);
  }

  lemma OneField(c: Long)
    ensures FieldSum(c, 64, 1) == if c < 0 then c + WORD else c
  {
    Pow2Is64();
    assert FieldSum(c / Pow2(64), 64, 0) == 0;
    QuotientIs(c, if c < 0 then -1 else 0, WORD, if c < 0 then c + WORD else c);
  }

  lemma {:induction false} OnesBound(x: int, n: nat)
    ensures 0 <= Ones(x, n) <= n
  {
    if n > 0 { OnesBound(x, n - 1); }
  }

  /** `(x >> i) & 1`, as the reference loop reads a bit. */
  lemma BitIsShifted(x: int, i: nat)
    ensures Bit(x, i) == And(Shr(x, i), 1)
  {
    ShrBit(x, i, 0);
    AndLow(Shr(x, i), 1);
    assert Pow2(1) == 2;
  }

  // ----- isPalindrome

  /** `((x & mask) << w) | ((x >> w) & mask)`. */
  function SwapFields(x: Long, w: nat, mask: int): int {
    Or(Shl(And(x, mask), w), And(Shr(x, w), mask))
  }

  /** The place a bit comes from when fields of `w` bits are swapped in pairs. */
  function Flip(w: nat, i: nat): nat
    requires w > 0
  {
    if InLow(w, i) then i + w else if i >= w then i - w else 0
  }

  lemma HighHalf(w: nat, i: nat)
    requires w > 0 && i >= w
    ensures InLow(w, i) ==> !InLow(w, i - w)
    ensures !InLow(w, i) ==> InLow(w, i - w)
  {
    var d := 2 * w;
    var q, r := i / d, i % d;
    assert i == q * d + r;
    if r >= w {
      QuotientIs(i - w, q, d, r - w);
    } else {
      assert (q - 1) * d == q * d - d;
      QuotientIs(i - w, q - 1, d, r + w);
    }
  }

  lemma InLowSmall(w: nat, i: nat)
    requires i < w
    ensures InLow(w, i)
  {
    QuotientIs(i, 0, 2 * w, i);
  }

  lemma SwapBit(x: Long, w: nat, n: nat, i: nat)
    requires w > 0 && 2 * w * n == 64 && i < 64
    ensures Bit(Wrap(SwapFields(x, w, Fields(w, n))), i) == Bit(x, Flip(w, i))
  {
    var m := Fields(w, n);
    hide InLow, Fields, Bit, Or, And, Shr, Shl, Wrap;
    WrapBit(SwapFields(x, w, m), i);
    OrBit(Shl(And(x, m), w), And(Shr(x, w), m), i);
    MovedUp(x, w, n, i);
    MovedDown(x, w, n, i);
    if i >= w { HighHalf(w, i); } else { InLowSmall(w, i); }
  }

  lemma MovedUp(x: Long, w: nat, n: nat, i: nat)
    requires w > 0 && 2 * w * n == 64 && i < 64
    ensures Bit(Shl(And(x, Fields(w, n)), w), i) == if i >= w && InLow(w, i - w) then Bit(x, i - w) else 0
  {
    hide InLow, Fields, Bit, And, Shl;
    ShlBit(And(x, Fields(w, n)), w, i);
    if i >= w {
      AndBit(x, Fields(w, n), i - w);
      FieldsBit(w, n, i - w);
    }
  }

  lemma MovedDown(x: Long, w: nat, n: nat, i: nat)
    requires w > 0 && 2 * w * n == 64 && i < 64
    ensures Bit(And(Shr(x, w), Fields(w, n)), i) == if InLow(w, i) then Bit(x, i + w) else 0
  {
    hide InLow, Fields, Bit, And, Shr;
    AndBit(Shr(x, w), Fields(w, n), i);
    ShrBit(x, w, i);
    FieldsBit(w, n, i);
  }

  /** A swap of fields of `w` bits flips one binary digit of a place. */
  lemma FlipDigit(w: nat, high: nat, digit: nat, low: nat, i: nat, f: nat)
    requires low < w && digit <= 1
    requires i == high * (2 * w) + digit * w + low && f == high * (2 * w) + (1 - digit) * w + low
    ensures Flip(w, i) == f
  {
    QuotientIs(i, high, 2 * w, digit * w + low);
  }

  /** Six swaps turn the word round: they flip the six digits of a place. */
  lemma FlipAll(i: nat)
    requires i < 64
    ensures Flip(32, Flip(16, Flip(8, Flip(4, Flip(2, Flip(1, i)))))) == 63 - i
  {
    hide *;
    var i1, i2, i3, i4, i5 := i / 2, i / 2 / 2, i / 2 / 2 / 2, i / 2 / 2 / 2 / 2, i / 2 / 2 / 2 / 2 / 2;
    assert i == 2 * i1 + i % 2 && i1 == 2 * i2 + i1 % 2 && i2 == 2 * i3 + i2 % 2;
    assert i3 == 2 * i4 + i3 % 2 && i4 == 2 * i5 + i4 % 2;
    FlipDigits(i % 2, i1 % 2, i2 % 2, i3 % 2, i4 % 2, i5);
  }

  lemma FlipDigits(b0: nat, b1: nat, b2: nat, b3: nat, b4: nat, b5: nat)
    requires b0 <= 1 && b1 <= 1 && b2 <= 1 && b3 <= 1 && b4 <= 1 && b5 <= 1
    ensures var i := b0 + 2 * b1 + 4 * b2 + 8 * b3 + 16 * b4 + 32 * b5;
      Flip(32, Flip(16, Flip(8, Flip(4, Flip(2, Flip(1, i)))))) == 63 - i
  {
    hide Flip;
    var high, low := b3 + 2 * b4 + 4 * b5, 7 - (b0 + 2 * b1 + 4 * b2);
    FlipLow(b0, b1, b2, high);
    FlipHigh(b3, b4, b5, low);
  }

  lemma FlipLow(b0: nat, b1: nat, b2: nat, high: nat)
    requires b0 <= 1 && b1 <= 1 && b2 <= 1
    ensures var low := b0 + 2 * b1 + 4 * b2; Flip(4, Flip(2, Flip(1, low + 8 * high))) == 7 - low + 8 * high
  {
    hide Flip;
    var h2 := b2 + 2 * high;
    var h1 := b1 + 2 * h2;
    var l1 := 1 - b0;
    var l2 := l1 + 2 * (1 - b1);
    FlipDigit(1, h1, b0, 0, b0 + 2 * h1, 2 * h1 + l1);
    FlipDigit(2, h2, b1, l1, 2 * h1 + l1, 4 * h2 + l2);
    FlipDigit(4, high, b2, l2, 4 * h2 + l2, 8 * high + l2 + 4 * (1 - b2));
  }

  lemma FlipHigh(b3: nat, b4: nat, b5: nat, low: nat)
    requires b3 <= 1 && b4 <= 1 && b5 <= 1 && low < 8
    ensures var high := b3 + 2 * b4 + 4 * b5;
      Flip(32, Flip(16, Flip(8, low + 8 * high))) == low + 8 * (7 - high)
  {
    hide Flip;
    var h4 := b4 + 2 * b5;
    var l4 := low + 8 * (1 - b3);
    var l5 := l4 + 16 * (1 - b4);
    FlipDigit(8, h4, b3, low, low + 8 * (b3 + 2 * h4), 16 * h4 + l4);
    FlipDigit(16, b5, b4, l4, 16 * h4 + l4, 32 * b5 + l5);
    FlipDigit(32, 0, b5, l5, 32 * b5 + l5, l5 + 32 * (1 - b5));
  }

  /** The word turned round, as isPalindrome builds it: the halves are swapped, then their halves, and so on. */
  function HighSwaps(x: Long): Long {
    var x1 := Wrap(Or(Shl(x, 32), And(Shr(x, 32), Mask6())));
    var x2 := Wrap(SwapFields(x1, 16, Mask5()));
    Wrap(SwapFields(x2, 8, Mask4()))
  }

  function LowSwaps(x: Long): Long {
    var x4 := Wrap(SwapFields(x, 4, Mask3()));
    var x5 := Wrap(SwapFields(x4, 2, Mask2()));
    Wrap(SwapFields(x5, 1, Mask1()))
  }

  function Reversed(x: Long): Long {
    LowSwaps(HighSwaps(x))
  }

  function IsPalindrome(x: Long): int {
    IsZero(Xor(Reversed(x), x))
  }

  lemma LowHalfBit(x: Long, i: nat)
    requires i < 64
    ensures Bit(And(Shr(x, 32), Fields(32, 1)), i) == if i < 32 then Bit(x, i + 32) else 0
  {
    hide *;
    AndBit(Shr(x, 32), Fields(32, 1), i);
    ShrBit(x, 32, i);
    LowHalf(i);
  }

  lemma LowHalf(i: nat)
    requires i < 64
    ensures Bit(Fields(32, 1), i) == if i < 32 then 1 else 0
  {
    hide Fields, Bit;
    FieldsBit(32, 1, i);
  }

  lemma FirstSwapBit(x: Long, i: nat)
    requires i < 64
    ensures Bit(Wrap(Or(Shl(x, 32), And(Shr(x, 32), Fields(32, 1)))), i) == Bit(x, Flip(32, i))
  {
    assert Flip(32, i) == if i < 32 then i + 32 else i - 32;
    hide Flip, Fields, Bit, Or, And, Shr, Shl, Wrap;
    WrapBit(Or(Shl(x, 32), And(Shr(x, 32), Fields(32, 1))), i);
    OrBit(Shl(x, 32), And(Shr(x, 32), Fields(32, 1)), i);
    ShlBit(x, 32, i);
    LowHalfBit(x, i);
  }

  lemma ShlBit(x: int, n: nat, i: nat)
    requires i < 64
    ensures Bit(Shl(x, n), i) == if i < n then 0 else Bit(x, i - n)
  {
    WrapBit(x * Pow2(n), i);
    TimesPow2Bit(x, n, i);
  }

  lemma FlipBelow(w: nat, n: nat, i: nat)
    requires w > 0 && 2 * w * n == 64 && i < 64
    ensures Flip(w, i) < 64
  {
    if InLow(w, i) {
      var q, r := Parted(i, 2 * w);
      QuotientIs(i, q, 2 * w, r);
      if q >= n { Product(2 * w, n, q); }
      Product(2 * w, q, n - 1);
      assert (2 * w) * (n - 1) == 64 - 2 * w && (2 * w) * q == q * (2 * w);
    }
  }

  lemma LowSwapsBit(x: Long, i: nat)
    requires i < 64
    ensures Flip(4, Flip(2, Flip(1, i))) < 64 && Bit(LowSwaps(x), i) == Bit(x, Flip(4, Flip(2, Flip(1, i))))
  {
    Masks();
    hide Flip, Bit, SwapFields, Wrap, Fields, Mask1, Mask2, Mask3;
    var x4 := Wrap(SwapFields(x, 4, Fields(4, 8)));
    var x5 := Wrap(SwapFields(x4, 2, Fields(2, 16)));
    FlipBelow(1, 32, i);
    FlipBelow(2, 16, Flip(1, i));
    FlipBelow(4, 8, Flip(2, Flip(1, i)));
    SwapBit(x5, 1, 32, i);
    SwapBit(x4, 2, 16, Flip(1, i));
    SwapBit(x, 4, 8, Flip(2, Flip(1, i)));
  }

  lemma HighSwapsBit(x: Long, i: nat)
    requires i < 64
    ensures Bit(HighSwaps(x), i) == Bit(x, Flip(32, Flip(16, Flip(8, i))))
  {
    Masks();
    hide Flip, Bit, SwapFields, Wrap, Fields, Mask4, Mask5, Mask6, Shl, Shr, And, Or;
    var x1 := Wrap(Or(Shl(x, 32), And(Shr(x, 32), Fields(32, 1))));
    var x2 := Wrap(SwapFields(x1, 16, Fields(16, 2)));
    FlipBelow(8, 4, i);
    FlipBelow(16, 2, Flip(8, i));
    SwapBit(x2, 8, 4, i);
    SwapBit(x1, 16, 2, Flip(8, i));
    FirstSwapBit(x, Flip(16, Flip(8, i)));
  }

  /** Bit `i` of the reversed word is bit `63 - i`. */
  lemma ReversedBit(x: Long, i: nat)
    requires i < 64
    ensures Bit(Reversed(x), i) == Bit(x, 63 - i)
  {
    hide Flip, Bit, LowSwaps, HighSwaps;
    LowSwapsBit(HighSwaps(x), i);
    HighSwapsBit(x, Flip(4, Flip(2, Flip(1, i))));
    FlipAll(i);
  }

  /** Bit `i` of the upper half, and its mirror image in the lower. */
  ghost predicate MirrorBit(x: int, i: nat)
    requires i < 32
  {
    Bit(x, 32 + i) == Bit(x, 31 - i)
  }

  /** isPalindrome is 1 exactly when the upper half mirrors the lower. */
  lemma IsPalindromeIsMirror(x: Long)
    ensures IsPalindrome(x) == if forall i: nat :: i < 32 ==> MirrorBit(x, i) then 1 else 0
  {
    hide Reversed, Bit, Xor;
    if forall i: nat :: i < 32 ==> MirrorBit(x, i) {
      forall i: nat | i <= 63
        ensures Bit(Reversed(x), i) == Bit(x, i)
      {
        ReversedBit(x, i);
        assert MirrorBit(x, if i >= 32 then i - 32 else 31 - i);
      }
      Pow2Is64();
      EqualBits(Reversed(x), x, 63);
      XorSame(x);
    } else {
      var i: nat :| i < 32 && !MirrorBit(x, i);
      ReversedBit(x, 32 + i);
      XorBit(Reversed(x), x, 32 + i);
      ZeroBits(32 + i);
    }
  }
}
