/** floatScale4 of bits.c, on the encoding of binary32 numbers (section 3.4 of IEEE 754-2008). */
module FloatScale {
  import opened Arithmetic

  const SIGN: nat := 0x8000_0000
  const HIDDEN: nat := 0x80_0000

  type Unsigned = u: nat | u < 0x1_0000_0000

  function SignField(u: Unsigned): nat { u / SIGN * SIGN }
  function ExpField(u: Unsigned): nat { u / HIDDEN % 256 }
  function FracField(u: Unsigned): nat { u % HIDDEN }

  /** The fields are the top bit, the next eight bits and the low 23 bits. */
  lemma FieldsAre(u: Unsigned)
    ensures u == SignField(u) + ExpField(u) * 0x80_0000 + FracField(u)
    ensures SignField(u) in {0, 0x8000_0000} && ExpField(u) < 256 && FracField(u) < 0x80_0000
  {
  }

  /** What a number encodes. The magnitude of a finite one counts in units of 2^-149, the smallest there is. */
  datatype Float = NaN | Infinite(negative: bool) | Finite(negative: bool, magnitude: nat)

  function Decode(u: Unsigned): Float {
    var negative, exp, frac := u / SIGN == 1, ExpField(u), FracField(u);
    if exp == 255 then if frac == 0 then Infinite(negative) else NaN
    else if exp == 0 then Finite(negative, frac)
    else Finite(negative, (HIDDEN + frac) * Pow2(exp - 1))
  }

  /** Where the finite numbers end: 2^128. */
  ghost function TooLarge(): nat {
    2 * HIDDEN * Pow2(253)
  }

  lemma TooLargeIs()
    ensures TooLarge() == Pow2(128 + 149)
  {
    HiddenIs();
    hide Pow2;
    Pow2Sum(24, 253);
  }

  lemma HiddenIs()
    ensures Pow2(23) == HIDDEN && Pow2(24) == 2 * HIDDEN
  {
    assert Pow2(8) == 0x100 && Pow2(7) == 0x80;
    hide Pow2;
    Pow2Sum(8, 8);
    Pow2Sum(16, 7);
    Pow2Step(23);
  }

  /** The unit is right: one is 2^149 of them. */
  lemma OneIs()
    ensures Decode(0x3F80_0000) == Finite(false, Pow2(149))
  {
    HiddenIs();
    Pow2Sum(23, 126);
    hide Decode, Pow2, SignField, ExpField, FracField;
    Encoded(0x3F80_0000, 0, 127, 0);
  }

  /** Four times a number. It is exact, or too large and then infinite. */
  ghost function Times4(f: Float): Float {
    match f
    case NaN => NaN
    case Infinite(negative) => Infinite(negative)
    case Finite(negative, magnitude) =>
      if 4 * magnitude < TooLarge() then Finite(negative, 4 * magnitude) else Infinite(negative)
  }

  /** One doubling on the fields; a number that stops being subnormal keeps its top bit until the end. */
  function Doubled(exp: nat, frac: nat): (r: (nat, nat)) {
    if exp != 0 then
      var e := if exp != 0xFF then exp + 1 else exp;
      (e, if e == 0xFF then 0 else frac)
    else if frac / 0x40_0000 % 2 == 1 then (1, frac * 2)
    else (0, frac * 2)
  }

  method FloatScale4(uf: Unsigned) returns (r: Unsigned)
    ensures Decode(r) == Times4(Decode(uf))
    ensures Decode(uf) == NaN ==> r == uf
  {
    var exp, frac := ExpField(uf), FracField(uf);
    var special := (exp + 1) / 256 % 2;
    Unscaled(uf);
    hide Decode, Times4, ExpField, FracField;
    if (frac == 0 && exp == 0) || special == 1 {
      r := uf;
    } else {
      r := ScaleFields(uf);
    }
  }

  method ScaleFields(uf: Unsigned) returns (r: Unsigned)
    requires ExpField(uf) != 255
    ensures Decode(r) == Times4(Decode(uf))
  {
    hide Decode, Times4, Doubled, SignField, ExpField, FracField, FromFields;
    DoubledTwice(uf);
    var sf := SignField(uf);
    var exp, frac := DoubleTwice(ExpField(uf), FracField(uf));
    frac := frac % HIDDEN;
    exp := exp % 256;
    Fields(sf, exp, frac);
    r := sf + exp * HIDDEN + frac;
    Encoded(r, sf, exp, frac);
  }

  /** The loop on the fields. */
  method DoubleTwice(exp0: nat, frac0: nat) returns (exp: nat, frac: nat)
    ensures (exp, frac) == Doubled(Doubled(exp0, frac0).0, Doubled(exp0, frac0).1)
  {
    exp, frac := exp0, frac0;
    var time := 2;
    while time > 0
      invariant 0 <= time <= 2
      invariant (exp, frac) == if time == 2 then (exp0, frac0) else if time == 1 then Doubled(exp0, frac0)
                               else Doubled(Doubled(exp0, frac0).0, Doubled(exp0, frac0).1)
    {
      time := time - 1;
      if exp != 0 {
        if exp != 0xFF {
          exp := exp + 1;
        }
        if exp == 0xFF {
          frac := 0;
        }
      } else {
        if frac / 0x40_0000 % 2 == 1 {
          frac := frac * 2;
          exp := 1;
        } else {
          frac := frac * 2;
          exp := 0;
        }
      }
    }
  }

  /** What the fields encode. */
  ghost function FromFields(negative: bool, exp: nat, frac: nat): Float {
    if exp == 255 then if frac == 0 then Infinite(negative) else NaN else Finite(negative, Magnitude(exp, frac))
  }

  lemma Encoded(u: Unsigned, sf: nat, exp: nat, frac: nat)
    requires (sf == 0 || sf == SIGN) && exp < 256 && frac < HIDDEN && u == sf + exp * HIDDEN + frac
    ensures Decode(u) == FromFields(sf == SIGN, exp, frac)
  {
    Fields(sf, exp, frac);
    assert frac % HIDDEN == frac;
  }

  lemma Decoded(u: Unsigned)
    ensures Decode(u) == FromFields(SignField(u) == SIGN, ExpField(u), FracField(u))
    ensures SignField(u) == 0 || SignField(u) == SIGN
  {
    assert FracField(u) % HIDDEN == FracField(u);
  }

  lemma Unscaled(u: Unsigned)
    ensures (ExpField(u) + 1) / 256 % 2 == 1 <==> ExpField(u) == 255
    ensures (ExpField(u) == 0 && FracField(u) == 0) || ExpField(u) == 255 ==> Times4(Decode(u)) == Decode(u)
    ensures Decode(u) == NaN ==> ExpField(u) == 255
  {
  }

  /** The fields of a word put together from them. */
  lemma Fields(sf: nat, exp: nat, frac: nat)
    requires (sf == 0 || sf == SIGN) && exp < 256 && frac < HIDDEN
    ensures var u := sf + exp * HIDDEN + frac;
      u < 0x1_0000_0000 && SignField(u) == sf && ExpField(u) == exp && FracField(u) == frac && u / SIGN == sf / SIGN
  {
  }

  /** What the fields stand for while doubling: a top bit in `frac` counts once. */
  ghost function Magnitude(exp: nat, frac: nat): nat {
    if exp == 0 then frac else (HIDDEN + frac % HIDDEN) * Pow2(exp - 1)
  }

  lemma DoubledIs(exp: nat, frac: nat)
    requires exp < 255 && (if exp == 0 then frac < HIDDEN else frac < 2 * HIDDEN)
    ensures var d := Doubled(exp, frac);
      && d.0 <= 255 && (if d.0 == 0 then d.1 < HIDDEN else d.1 < 2 * HIDDEN)
      && (if exp == 0 then d.0 <= 1 else d.0 == exp + 1) && (d.0 == 255 ==> d.1 == 0)
      && (d.0 != 255 ==> Magnitude(d.0, d.1) == 2 * Magnitude(exp, frac))
  {
    if exp == 0 {
      assert Pow2(0) == 1;
    } else {
      DoubledExponent(exp, frac);
      hide Pow2, Magnitude;
    }
  }

  lemma DoubledExponent(exp: nat, frac: nat)
    requires exp > 0
    ensures Magnitude(exp + 1, frac) == 2 * Magnitude(exp, frac)
  {
    var m, p := HIDDEN + frac % HIDDEN, Pow2(exp - 1);
    assert Pow2(exp) == 2 * p;
    assert m * (2 * p) == 2 * (m * p);
  }

  /** A number is too large to be scaled exactly just when its exponent field is 253 or 254. */
  lemma Overflows(exp: nat, frac: nat)
    requires exp < 255 && frac < HIDDEN
    ensures 4 * Magnitude(exp, frac) < TooLarge() <==> exp < 253
  {
    assert Pow2(253) == 2 * Pow2(252);
    if exp == 0 {
      Pow2Mono(2, 253);
      assert Pow2(2) == 4;
    } else {
      var m, p := HIDDEN + frac, Pow2(exp - 1);
      assert frac % HIDDEN == frac;
      if exp < 253 {
        Pow2Mono(exp - 1, 251);
        assert Pow2(252) == 2 * Pow2(251);
        Products(m, 2 * HIDDEN, p, Pow2(251));
      } else {
        Pow2Mono(252, exp - 1);
        Products2(HIDDEN, m, Pow2(252), p);
      }
    }
  }

  lemma Products(a: nat, b: nat, c: nat, d: nat)
    requires a < b && 0 < c <= d
    ensures a * c < b * d
  {
    assert a * c < b * c;
    assert b * c <= b * d;
  }

  lemma Products2(a: nat, b: nat, c: nat, d: nat)
    requires a <= b && c <= d
    ensures a * c <= b * d
  {
    assert a * c <= b * c;
    assert b * c <= b * d;
  }

  lemma DoubledTwice(u: Unsigned)
    requires ExpField(u) != 255
    ensures SignField(u) == 0 || SignField(u) == SIGN
    ensures var d := Doubled(ExpField(u), FracField(u)); var dd := Doubled(d.0, d.1);
      dd.0 <= 255 && Times4(Decode(u)) == FromFields(SignField(u) == SIGN, dd.0, dd.1 % HIDDEN)
  {
    Decoded(u);
    FieldsInRange(u);
    hide *;
    DoubledFields(SignField(u) == SIGN, ExpField(u), FracField(u));
  }

  lemma FieldsInRange(u: Unsigned)
    requires ExpField(u) != 255
    ensures ExpField(u) < 255 && FracField(u) < HIDDEN
  {
  }

  lemma DoubledFields(negative: bool, e: nat, f: nat)
    requires e < 255 && f < HIDDEN
    ensures var d := Doubled(e, f); var dd := Doubled(d.0, d.1);
      dd.0 <= 255 && Times4(FromFields(negative, e, f)) == FromFields(negative, dd.0, dd.1 % HIDDEN)
  {
    hide *;
    DoubledAgain(e, f);
    Overflows(e, f);
    var dd := Doubled(Doubled(e, f).0, Doubled(e, f).1);
    FourTimes(negative, e, f, dd.0, dd.1 % HIDDEN);
  }

  lemma FourTimes(negative: bool, e: nat, f: nat, e2: nat, f2: nat)
    requires e < 255 && (4 * Magnitude(e, f) < TooLarge() <==> e < 253)
    requires if e < 253 then e2 != 255 && Magnitude(e2, f2) == 4 * Magnitude(e, f) else e2 == 255 && f2 == 0
    ensures Times4(FromFields(negative, e, f)) == FromFields(negative, e2, f2)
  {
    hide Magnitude, TooLarge;
  }

  /** The exponent field gets full exactly for the two largest exponents. */
  lemma DoubledAgain(e: nat, f: nat)
    requires e < 255 && f < HIDDEN
    ensures var d := Doubled(e, f); var dd := Doubled(d.0, d.1);
      && dd.0 <= 255 && if e < 253 then dd.0 != 255 && Magnitude(dd.0, dd.1 % HIDDEN) == 4 * Magnitude(e, f)
      else dd.0 == 255 && dd.1 % HIDDEN == 0
  {
    hide Doubled, Magnitude, Pow2;
    DoubledIs(e, f);
    var d := Doubled(e, f);
    if e == 254 {
      AtTheTop(d.1);
    } else {
      DoubledIs(d.0, d.1);
      LowBits(Doubled(d.0, d.1).0, Doubled(d.0, d.1).1);
    }
  }

  lemma AtTheTop(frac: nat)
    requires frac == 0
    ensures Doubled(255, frac) == (255, 0)
  {
  }

  lemma LowBits(exp: nat, frac: nat)
    requires exp == 0 ==> frac < HIDDEN
    ensures Magnitude(exp, frac % HIDDEN) == Magnitude(exp, frac)
  {
  }
}
