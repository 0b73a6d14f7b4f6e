/** How csim1.c splits an address into tag and set index. */
module CacheGeometry {
  import opened Arithmetic

  /** 2^s sets of E lines of 2^b bytes. */
  datatype Geometry = Geometry(s: nat, E: nat, b: nat)

  const WORD: nat := 0x1_0000_0000_0000_0000

  type Address = a: nat | a < WORD

  /** `a << n` on a 64-bit word, and `a >> n`. */
  function ShiftLeft(a: Address, n: nat): Address {
    (a * Pow2(n)) % WORD
  }

  function ShiftRight(a: Address, n: nat): nat {
    Division(a, Pow2(n));
    a / Pow2(n)
  }

  /** The shift counts the program uses are below 64, as C demands. */
  ghost predicate Shiftable(g: Geometry) {
    g.s + g.b < 64 && (g.s > 0 || g.b == 0)
  }

  function TagOf(g: Geometry, address: Address): nat {
    ShiftRight(address, g.s + g.b)
  }

  function SetOf(g: Geometry, address: Address): nat
    requires Shiftable(g)
  {
    var t := 64 - (g.s + g.b);
    if t != 64 then ShiftRight(ShiftLeft(address, t), t + g.b) else 0
  }

  /** The two shifts pick the `s` bits above the `b` offset bits. */
  lemma SetOfIsRemainder(g: Geometry, address: Address)
    requires Shiftable(g)
    ensures SetOf(g, address) == (address / Pow2(g.b)) % Pow2(g.s) < Pow2(g.s)
  {
    var t := 64 - (g.s + g.b);
    if t != 64 {
      Pow2Is64();
      Pow2Sum(g.s + g.b, t);
      Pow2Sum(g.s, g.b);
      Pow2Sum(t, g.b);
      ShiftsPick(address, Pow2(g.s), Pow2(g.b), Pow2(t));
    }
  }

  /** The number of the block that an address lies in. */
  function BlockOf(g: Geometry, address: Address): nat {
    Division(address, Pow2(g.b));
    address / Pow2(g.b)
  }

  /** The tag is the rest of the block number. */
  lemma TagOfIsQuotient(g: Geometry, address: Address)
    requires Shiftable(g)
    ensures TagOf(g, address) == address / Pow2(g.s + g.b) == BlockOf(g, address) / Pow2(g.s)
    ensures SetOf(g, address) == BlockOf(g, address) % Pow2(g.s) < Pow2(g.s)
  {
    SetOfIsRemainder(g, address);
    Pow2Sum(g.b, g.s);
    DividedTwice(address, Pow2(g.b), Pow2(g.s));
    assert g.b + g.s == g.s + g.b;
  }

  /** Two addresses have the same tag in the same set if and only if they lie in the same block. */
  lemma SameBlock(g: Geometry, a: Address, c: Address)
    requires Shiftable(g)
    ensures SetOf(g, a) == SetOf(g, c) && TagOf(g, a) == TagOf(g, c) <==> a / Pow2(g.b) == c / Pow2(g.b)
  {
    TagOfIsQuotient(g, a);
    TagOfIsQuotient(g, c);
    hide TagOf, SetOf;
    Division(a / Pow2(g.b), Pow2(g.s));
    Division(c / Pow2(g.b), Pow2(g.s));
  }

  lemma ShiftsPick(a: nat, S: nat, B: nat, T: nat)
    requires S > 0 && B > 0 && T > 0
    ensures S * B * T > 0 && T * B > 0
    ensures ((a * T) % (S * B * T)) / (T * B) == (a / B) % S
  {
    var q := a / B;
    Division(a, B);
    Division(q, S);
    Picked(a, q / S, q % S, a % B, S, B, T);
  }

  lemma Picked(a: nat, h: nat, i: nat, o: nat, S: nat, B: nat, T: nat)
    requires i < S && o < B && T > 0 && a == (h * S + i) * B + o
    ensures S * B * T > 0 && T * B > 0 && ((a * T) % (S * B * T)) / (T * B) == i
  {
    var low, all, unit, rest := (i * B + o) * T, S * B * T, T * B, o * T;
    LowPart(i, o, S, B, T);
    Parts(h, i, o, S, B, T);
    QuotientIs(a * T, h, all, low);
    QuotientIs(low, i, unit, rest);
  }

  lemma Grouping(x: int, y: int, z: int)
    ensures x * y == y * x && x * y * z == x * (y * z) == y * (x * z) && (x + y) * z == x * z + y * z
  {
  }

  lemma Parts(h: int, i: int, o: int, S: int, B: int, T: int)
    ensures ((h * S + i) * B + o) * T == h * (S * B * T) + (i * B + o) * T
    ensures (i * B + o) * T == i * (T * B) + o * T
  {
    Grouping(h * S, i, B);
    Grouping(h * S * B, i * B + o, T);
    Grouping(h, S, B);
    Grouping(h, S * B, T);
    Grouping(i * B, o, T);
    Grouping(i, B, T);
    Grouping(B, T, 1);
  }

  lemma LowPart(i: nat, o: nat, S: nat, B: nat, T: nat)
    requires i < S && o < B && T > 0
    ensures 0 <= (i * B + o) * T < S * B * T && 0 <= o * T < T * B
  {
    assert i * B + o < S * B by {
      Grouping(S - i - 1, i + 1, B);
      Grouping(i, 1, B);
      Multiple(S - i - 1, B);
      assert S * B == (S - i - 1) * B + i * B + B;
      Multiple(i, B);
    }
    Below(i * B + o, S * B, T);
    Below(o, B, T);
    Grouping(B, T, 1);
  }

  lemma Below(x: nat, y: nat, t: nat)
    requires x < y && t > 0
    ensures 0 <= x * t < y * t
  {
    Grouping(x, y - x, t);
    Multiple(y - x, t);
    Multiple(x, t);
  }
}
