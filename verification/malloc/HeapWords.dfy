/** Header and footer words of the allocator (mm.c). A word is a natural number; bit k of it is its
    k-th binary digit. The size of a block is a multiple of 16, so the low four bits are flags. */
module HeapWords {
  import opened Arithmetic
  import TwosComplement

  const WSIZE: nat := 8
  const DSIZE: nat := 16
  const MIN_BLOCK_SIZE: nat := 16
  const CHUNK_SIZE: nat := 4096
  const ALLOC_MASK: nat := 1
  const PREV_ALLOC_MASK: nat := 2
  const MINI_MASK: nat := 4

  /** `w | mask` for a mask with a single one bit. */
  function Or(w: nat, mask: nat): nat
    requires mask > 0
  {
    if (w / mask) % 2 == 1 then w else w + mask
  }

  function Pack(size: nat, alloc: bool, prevAlloc: bool, prevMini: bool): nat {
    var w0 := if alloc then Or(size, ALLOC_MASK) else size;
    var w1 := if prevAlloc then Or(w0, PREV_ALLOC_MASK) else w0;
    if prevMini then Or(w1, MINI_MASK) else w1
  }

  /** `word & ~0xF`. */
  function SizeOf(w: nat): nat {
    w - w % 16
  }

  predicate AllocOf(w: nat) {
    w % 2 == 1
  }

  predicate PrevAllocOf(w: nat) {
    (w / 2) % 2 == 1
  }

  predicate PrevMiniOf(w: nat) {
    (w / 4) % 2 == 1
  }

  /** With a mask of one bit, this is `|`. */
  lemma OrIsBitwise(w: nat, k: nat)
    ensures Or(w, Pow2(k)) == TwosComplement.Or(w, Pow2(k))
  {
    TwosComplement.OrOneBit(w, k);
  }

  /** The accessors of the flags read single bits. */
  lemma FlagsAreBits(w: nat)
    ensures AllocOf(w) == (TwosComplement.Bit(w, 0) == 1)
    ensures PrevAllocOf(w) == (TwosComplement.Bit(w, 1) == 1)
    ensures PrevMiniOf(w) == (TwosComplement.Bit(w, 2) == 1)
  {
    assert TwosComplement.Bit(w, 2) == TwosComplement.Bit(w / 2, 1) == TwosComplement.Bit(w / 2 / 2, 0);
    assert w / 2 / 2 == w / 4;
  }

  /** The low four digits are masked off. */
  lemma SizeIsMasked(w: nat)
    ensures SizeOf(w) == TwosComplement.And(w, TwosComplement.Not(0xF))
  {
    assert Pow2(4) == 16;
    TwosComplement.AndAbove(w, 4, -1);
    TwosComplement.AndOnes(w / 16);
  }

  /** The length of a block in eight-byte words. */
  function Len(w: nat): nat {
    SizeOf(w) / WSIZE
  }

  /** A whole number of 16-byte units is an even number of words. */
  lemma EvenWords(words: nat, bytes: nat)
    requires bytes == 8 * words && bytes % 16 == 0
    ensures words % 2 == 0
  {
  }

  lemma SizeIsLen(w: nat)
    ensures SizeOf(w) == 8 * Len(w) && Len(w) % 2 == 0 && SizeOf(w) % 16 == 0 && SizeOf(w) <= w
  {
    assert w - w % 16 == 16 * (w / 16);
  }

  /** Adding a multiple of 16 to a number below 16 leaves the low digits alone. */
  lemma LowDigits(q: nat, r: nat)
    requires r < 16
    ensures SizeOf(16 * q + r) == 16 * q
    ensures AllocOf(16 * q + r) == AllocOf(r)
    ensures PrevAllocOf(16 * q + r) == PrevAllocOf(r)
    ensures PrevMiniOf(16 * q + r) == PrevMiniOf(r)
  {
    assert (16 * q + r) % 16 == r by { QuotientIs(16 * q + r, q, 16, r); }
    DigitKept(8 * q, r);
    assert (16 * q + r) / 2 == 2 * (4 * q) + r / 2;
    DigitKept(4 * q, r / 2);
    assert (16 * q + r) / 4 == 2 * (2 * q) + r / 4;
    DigitKept(2 * q, r / 4);
  }

  lemma DigitKept(q: nat, r: nat)
    ensures (2 * q + r) % 2 == r % 2
  {
    QuotientIs(2 * q + r, q + r / 2, 2, r % 2);
  }

  /** The four fields of a header are independent of each other. */
  lemma PackExtract(size: nat, alloc: bool, prevAlloc: bool, prevMini: bool)
    requires size % 16 == 0
    ensures var w := Pack(size, alloc, prevAlloc, prevMini);
      && SizeOf(w) == size && Len(w) == size / 8
      && AllocOf(w) == alloc && PrevAllocOf(w) == prevAlloc && PrevMiniOf(w) == prevMini
  {
    var q := size / 16;
    var r := (if alloc then 1 else 0) + (if prevAlloc then 2 else 0) + (if prevMini then 4 else 0);
    PackIsSum(q, alloc, prevAlloc, prevMini);
    LowDigits(q, r);
    FlagsOf(alloc, prevAlloc, prevMini);
    hide Pack, SizeOf, AllocOf, PrevAllocOf, PrevMiniOf;
  }

  lemma FlagsOf(alloc: bool, prevAlloc: bool, prevMini: bool)
    ensures var r := (if alloc then 1 else 0) + (if prevAlloc then 2 else 0) + (if prevMini then 4 else 0);
      AllocOf(r) == alloc && PrevAllocOf(r) == prevAlloc && PrevMiniOf(r) == prevMini
  {
  }

  lemma PackIsSum(q: nat, alloc: bool, prevAlloc: bool, prevMini: bool)
    ensures Pack(16 * q, alloc, prevAlloc, prevMini)
         == 16 * q + ((if alloc then 1 else 0) + (if prevAlloc then 2 else 0) + (if prevMini then 4 else 0))
  {
    LowDigits(q, 0);
    LowDigits(q, if alloc then 1 else 0);
    LowDigits(q, (if alloc then 1 else 0) + (if prevAlloc then 2 else 0));
  }
}
