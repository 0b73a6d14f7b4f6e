/** Words as sequences of bytes, the lowest first. */
module LittleEndian {
  import opened Arithmetic
  import TwosComplement

  type Byte = b: nat | b < 256

  const WORD: nat := 0x1_0000_0000_0000_0000

  type Word = w: nat | w < WORD

  /** 256 to the power `n`, which is `1 << (8 * n)`. */
  function Pow(n: nat): (r: nat)
    ensures r > 0
  {
    Pow2(8 * n)
  }

  lemma PowNext(n: nat)
    ensures Pow(n + 1) == 256 * Pow(n) && Pow(0) == 1
  {
    Pow2Sum(8, 8 * n);
    assert Pow2(8) == 256;
  }

  /** The number that bytes stand for. */
  function Value(s: seq<Byte>): nat {
    if s == [] then 0 else s[0] + 256 * Value(s[1..])
  }

  /** The low `n` bytes of a number. */
  function BytesOf(v: nat, n: nat): (s: seq<Byte>)
    ensures |s| == n
  {
    if n == 0 then [] else [v % 256] + BytesOf(v / 256, n - 1)
  }

  /** Byte `i` is bits 8 i to 8 i + 7. */
  lemma {:induction false} BytesOfIs(v: nat, n: nat, i: nat)
    requires i < n
    ensures BytesOf(v, n)[i] == v / Pow2(8 * i) % 256
  {
    if i == 0 {
      Pow2Is1();
    } else {
      BytesOfIs(v / 256, n - 1, i - 1);
      PowNext(i - 1);
      assert Pow(i - 1) == Pow2(8 * (i - 1)) && Pow(i) == Pow2(8 * i);
      hide Pow2, Pow;
      DividedTwice(v, 256, Pow2(8 * (i - 1)));
    }
  }

  /** `v & ((1 << (8 * n)) - 1)`. */
  function Low(v: nat, n: nat): (r: nat)
    ensures r <= v && r == v % Pow(n) < Pow(n)
  {
    LowBound(v, Pow(n));
    TwosComplement.AndLow(v, 8 * n);
    TwosComplement.And(v, Pow2(8 * n) - 1)
  }

  lemma LowBound(v: nat, d: nat)
    requires d > 0
    ensures 0 <= v % d < d && v % d <= v
  {
  }

  lemma {:induction false} ValueBound(s: seq<Byte>)
    ensures Value(s) < Pow(|s|)
  {
    PowNext(if s == [] then 0 else |s| - 1);
    hide Pow;
    if s != [] { ValueBound(s[1..]); }
  }

  lemma {:induction false} ValueConcat(s: seq<Byte>, t: seq<Byte>)
    ensures Value(s + t) == Value(s) + Pow(|s|) * Value(t)
  {
    PowNext(if s == [] then 0 else |s| - 1);
    hide Pow;
    if s == [] {
      assert s + t == t;
    } else {
      assert (s + t)[1..] == s[1..] + t;
      ValueConcat(s[1..], t);
      Regroup(s[0], Value(s[1..]), Pow(|s| - 1), Value(t));
    }
  }

  lemma Regroup(b: nat, x: nat, p: nat, y: nat)
    ensures b + 256 * (x + p * y) == (b + 256 * x) + (256 * p) * y
  {
  }

  /** Masking keeps the low bytes. */
  lemma LowIs(s: seq<Byte>, n: nat)
    requires n <= |s|
    ensures Low(Value(s), n) == Value(s[..n])
  {
    assert s == s[..n] + s[n..];
    ValueConcat(s[..n], s[n..]);
    ValueBound(s[..n]);
    hide Value, Pow;
    Remainder(Value(s[..n]), Value(s[n..]), Pow(n));
  }

  lemma Remainder(r: nat, q: nat, d: nat)
    requires r < d
    ensures (r + d * q) % d == r
  {
    QuotientIs(r + d * q, q, d, r);
  }

  /** Writing the low bytes of a number and reading them gives the number back, masked. */
  lemma {:induction false} ValueOfBytes(v: nat, n: nat)
    ensures Value(BytesOf(v, n)) == Low(v, n) == v % Pow2(8 * n)
  {
    PowNext(if n == 0 then 0 else n - 1);
    hide Pow;
    if n > 0 {
      ValueOfBytes(v / 256, n - 1);
      LowStep(v, Pow(n - 1));
    }
  }

  lemma LowStep(v: nat, p: nat)
    requires p > 0
    ensures v % 256 + 256 * ((v / 256) % p) == v % (256 * p)
  {
    var q, b := v / 256, v % 256;
    var h, l := q / p, q % p;
    assert q == p * h + l;
    assert v == (b + 256 * l) + (256 * p) * h by { Regroup(b, l, p, h); }
    assert 0 <= b + 256 * l < 256 * p;
    hide Low;
    Remainder(b + 256 * l, h, 256 * p);
  }

  lemma {:induction false} BytesOfValue(s: seq<Byte>)
    ensures BytesOf(Value(s), |s|) == s
  {
    if s != [] {
      var v := Value(s);
      QuotientIs(v, Value(s[1..]), 256, s[0]);
      BytesOfValue(s[1..]);
    }
  }

  lemma {:induction false} BytesPrefix(v: nat, n: nat, m: nat)
    requires n <= m
    ensures BytesOf(v, m)[..n] == BytesOf(v, n)
  {
    if n > 0 { BytesPrefix(v / 256, n - 1, m - 1); }
  }

  // ----- Loads that cross a page

  /** `lo | (hi << (8 * n))` on a 64-bit word, when `lo` has `n` bytes: the two do not overlap. */
  function Combine(lo: nat, hi: nat, n: nat): int {
    TwosComplement.Or(lo, (hi * Pow(n)) % WORD)
  }

  lemma WordIsPow()
    ensures Pow(8) == WORD
  {
    Pow2Is64();
  }

  /** The bytes of two loads, the second shifted above the first `n` of the first, are those of both parts. */
  lemma CombineIs(lo: seq<Byte>, hi: seq<Byte>, n: nat)
    requires |lo| == 8 && |hi| == 8 && 0 < n < 8
    ensures Combine(Low(Value(lo), n), Value(hi), n) == Value(lo[..n] + hi[..8 - n])
  {
    hide *;
    var a, b, c := lo[..n], hi[..8 - n], hi[8 - n..];
    assert hi == b + c;
    LowIs(lo, n);
    ValueConcat(b, c);
    ValueConcat(a, b);
    ValueBound(a);
    ValueBound(b);
    PowSum(n, 8 - n);
    WordIsPow();
    Shifted(Value(hi), Value(b), Value(c), Pow(n), Pow(8 - n));
    CombineSum(Value(a), Value(hi), Value(b), n);
  }

  lemma CombineSum(a: nat, h: nat, b: nat, n: nat)
    requires a < Pow(n) && (h * Pow(n)) % WORD == Pow(n) * b
    ensures Combine(a, h, n) == a + Pow(n) * b
  {
    assert Pow(n) * b == b * Pow2(8 * n);
    TwosComplement.OrDisjoint(a, b, 8 * n);
  }

  lemma Shifted(h: nat, b: nat, c: nat, p: nat, q: nat)
    requires b < q && p > 0 && q > 0 && p * q == WORD && h == b + q * c
    ensures (h * p) % WORD == p * b
  {
    ShiftedPart(b, c, p, q);
  }

  lemma PowSum(m: nat, n: nat)
    ensures Pow(m + n) == Pow(m) * Pow(n)
  {
    Pow2Sum(8 * m, 8 * n);
  }

  /** What is shifted out of the word is lost. */
  lemma ShiftedPart(b: nat, c: nat, p: nat, q: nat)
    requires b < q && p > 0 && q > 0 && p * q == WORD
    ensures ((b + q * c) * p) % WORD == p * b
  {
    assert (b + q * c) * p == p * b + WORD * c;
    assert p * b < WORD by { Multiple(q - b, p); assert (q - b) * p == p * q - p * b; }
    Remainder(p * b, c, WORD);
  }
}
