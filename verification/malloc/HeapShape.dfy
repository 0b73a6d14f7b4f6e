/** The implicit list of blocks: what the headers and footers of the heap say, and what each
    rewriting of a region of the heap keeps.

    `m` is the memory from mem_heap_lo to the break, in eight-byte words; an address is a word index.
    `S` holds the indices of all headers, the epilogue included. */
module HeapShape {
  import opened HeapWords

  /** find_next. */
  function Next(m: seq<nat>, h: nat): nat
    requires h < |m|
  {
    h + Len(m[h])
  }

  ghost predicate Free(m: seq<nat>, S: set<nat>, h: nat) {
    h in S && h + 1 < |m| && !AllocOf(m[h])
  }

  ghost predicate Live(m: seq<nat>, S: set<nat>, h: nat) {
    h in S && h + 1 < |m| && AllocOf(m[h])
  }

  /** What the header of the following block records about block `h`. The mini bit is exact only when
      `h` is free; only a free block of more than 16 bytes has a footer, whose flags may be stale. */
  ghost predicate Recorded(m: seq<nat>, h: nat)
    requires h < |m| && 1 <= Next(m, h) < |m|
  {
    var n := Next(m, h);
    && PrevAllocOf(m[n]) == AllocOf(m[h])
    && (!AllocOf(m[h]) ==> (PrevMiniOf(m[n]) <==> Len(m[h]) == 2))
    && (!AllocOf(m[h]) && Len(m[h]) > 2 ==> Len(m[n - 1]) == Len(m[h]) && !AllocOf(m[n - 1]))
  }

  ghost predicate BlockOk(m: seq<nat>, S: set<nat>, h: nat)
    requires h < |m|
  {
    var n := Next(m, h);
    && n >= h + 2
    && n in S && n < |m|
    && Recorded(m, h)
  }

  /** Every header is at an odd index (so payloads are 16-byte aligned), blocks tile the space from
      heap_start = 1 to the epilogue, and each header records its predecessor. */
  ghost predicate Shape(m: seq<nat>, S: set<nat>) {
    && |m| >= 2 && |m| % 2 == 0
    && 1 in S && |m| - 1 in S
    && m[0] == Pack(0, true, true, false)
    && Len(m[|m| - 1]) == 0 && AllocOf(m[|m| - 1])
    && PrevAllocOf(m[1])
    && (forall h :: h in S ==> 1 <= h < |m| && h % 2 == 1)
    && (forall h {:trigger Next(m, h)} {:trigger BlockOk(m, S, h)} :: h in S && h + 1 < |m| ==> BlockOk(m, S, h))
    && (forall h, g {:trigger Next(m, h), g in S} :: h in S && g in S && h < g ==> Next(m, h) <= g)
  }

  /** No two neighbouring blocks are both free, except pairs that contain block `x`. */
  ghost predicate Coalesced(m: seq<nat>, S: set<nat>, x: nat)
    requires Shape(m, S)
  {
    forall h {:trigger Next(m, h)} :: Free(m, S, h) && Free(m, S, Next(m, h)) ==> h == x || Next(m, h) == x
  }

  // ----- Finding the predecessor

  /** Every block but the first has a predecessor, and find_prev finds it when it is free. */
  lemma Predecessor(m: seq<nat>, S: set<nat>, h: nat) returns (p: nat)
    requires Shape(m, S) && h in S && h != 1
    ensures p in S && p < h && Next(m, p) == h
  {
    p := 1;
    while Next(m, p) != h
      invariant p in S && p < h
      decreases h - p
    {
      assert Next(m, p) <= h;
      p := Next(m, p);
    }
  }

  // ----- Rewriting a region

  /** `m2` differs from `m` only in words `a` to `n`; at `a` it keeps what that header records about
      its predecessor, at `n` it keeps the size and status; the headers change only between. */
  ghost predicate SameOutside(m: seq<nat>, S: set<nat>, m2: seq<nat>, S2: set<nat>, a: nat, n: nat) {
    && |m2| == |m|
    && a in S && n in S && a < n < |m| && a in S2
    && (forall w :: 0 <= w < |m| && !(a <= w <= n) ==> m2[w] == m[w])
    && PrevAllocOf(m2[a]) == PrevAllocOf(m[a])
    && (PrevAllocOf(m[a]) || PrevMiniOf(m2[a]) == PrevMiniOf(m[a]))
    && Len(m2[n]) == Len(m[n]) && AllocOf(m2[n]) == AllocOf(m[n])
    && (forall h :: !(a < h < n) ==> (h in S2 <==> h in S))
    && (forall h :: h in S2 && a < h < n ==> h % 2 == 1)
  }

  /** The blocks of `S2` tile the region from `a` to `n`. */
  ghost predicate RegionOk(m2: seq<nat>, S2: set<nat>, a: nat, n: nat)
    requires n < |m2|
  {
    && (forall h {:trigger Next(m2, h)} :: h in S2 && a <= h < n ==> BlockOk(m2, S2, h) && Next(m2, h) <= n)
    && (forall h, g {:trigger Next(m2, h), g in S2} :: h in S2 && g in S2 && a <= h < g < n ==> Next(m2, h) <= g)
  }

  /** A region of whole blocks can be rewritten without looking at the rest of the heap. */
  lemma Rewrite(m: seq<nat>, S: set<nat>, m2: seq<nat>, S2: set<nat>, a: nat, n: nat)
    requires Shape(m, S) && SameOutside(m, S, m2, S2, a, n) && RegionOk(m2, S2, a, n)
    ensures Shape(m2, S2)
    ensures forall h {:trigger Next(m2, h)} :: h in S2 && !(a <= h < n) ==>
              Next(m2, h) == Next(m, h) && AllocOf(m2[h]) == AllocOf(m[h])
  {
    forall h {:trigger Next(m2, h)} | h in S2 && !(a <= h < n)
      ensures h in S && Next(m2, h) == Next(m, h) && AllocOf(m2[h]) == AllocOf(m[h])
    {
      assert h in S;
    }
    forall h {:trigger Next(m2, h)} {:trigger BlockOk(m2, S2, h)} | h in S2 && h + 1 < |m2|
      ensures BlockOk(m2, S2, h)
    {
      if h < a {
        assert Next(m, h) <= a;
      } else if h >= n {
        assert BlockOk(m, S, h);
      }
    }
    forall h, g {:trigger Next(m2, h), g in S2} | h in S2 && g in S2 && h < g
      ensures Next(m2, h) <= g
    {
      if h < a {
        assert Next(m, h) <= a;
      } else if h < n <= g {
        assert Next(m2, h) <= n;
      }
    }
  }

  // ----- What the client sees

  /** The allocated blocks, each with the words of its payload. */
  ghost function LiveHeap(m: seq<nat>, S: set<nat>): map<nat, seq<nat>>
    requires Shape(m, S)
  {
    map h | h in S && Live(m, S, h) :: Payload(m, S, h)
  }

  ghost function Payload(m: seq<nat>, S: set<nat>, h: nat): seq<nat>
    requires Shape(m, S) && h in S && Live(m, S, h)
  {
    m[h + 1..Next(m, h)]
  }

  /** Two heaps whose allocated blocks other than `a` agree differ at most in the entry of `a`. */
  lemma LiveExcept(m: seq<nat>, S: set<nat>, m2: seq<nat>, S2: set<nat>, a: nat)
    requires Shape(m, S) && Shape(m2, S2)
    requires forall h :: h != a ==> Live(m2, S2, h) == Live(m, S, h)
    requires forall h :: h != a && Live(m, S, h) && Live(m2, S2, h) ==> Payload(m2, S2, h) == Payload(m, S, h)
    ensures Live(m2, S2, a) ==> LiveHeap(m2, S2) == LiveHeap(m, S)[a := Payload(m2, S2, a)]
    ensures !Live(m2, S2, a) ==> LiveHeap(m2, S2) == LiveHeap(m, S) - {a}
  {
    hide Shape, Payload;
  }

  /** Rewriting a region leaves every payload outside it alone: when no block strictly inside the
      region is allocated, before or after, only the entry of its first block can change. */
  lemma LiveOutside(m: seq<nat>, S: set<nat>, m2: seq<nat>, S2: set<nat>, a: nat, n: nat)
    requires Shape(m, S) && Shape(m2, S2) && SameOutside(m, S, m2, S2, a, n)
    requires forall h :: a < h < n ==> !Live(m, S, h) && !Live(m2, S2, h)
    ensures Live(m2, S2, a) ==> LiveHeap(m2, S2) == LiveHeap(m, S)[a := Payload(m2, S2, a)]
    ensures !Live(m2, S2, a) ==> LiveHeap(m2, S2) == LiveHeap(m, S) - {a}
  {
    hide Len, SizeOf, Pack, AllocOf, PrevAllocOf, PrevMiniOf;
    forall h: nat | h != a
      ensures Live(m2, S2, h) == Live(m, S, h)
      ensures Live(m, S, h) ==> Payload(m2, S2, h) == Payload(m, S, h)
    {
      if Live(m, S, h) && !(a < h < n) { PayloadOutside(m, S, m2, S2, a, n, h); }
    }
    LiveExcept(m, S, m2, S2, a);
  }

  lemma PayloadOutside(m: seq<nat>, S: set<nat>, m2: seq<nat>, S2: set<nat>, a: nat, n: nat, h: nat)
    requires Shape(m, S) && Shape(m2, S2) && SameOutside(m, S, m2, S2, a, n)
    requires Live(m, S, h) && !(a <= h < n)
    ensures Live(m2, S2, h) && Payload(m2, S2, h) == Payload(m, S, h)
  {
    hide Len, SizeOf, Pack, AllocOf, PrevAllocOf, PrevMiniOf;
    assert Next(m2, h) == Next(m, h);
    if h < a { assert Next(m, h) <= a; }
  }

  // ----- The rewritings the allocator performs

  /** The free region from `a` to `n` becomes one free block (cases 2 to 4 of coalesce_block). */
  function Merged(m: seq<nat>, a: nat, n: nat, prevMini: bool): (r: seq<nat>)
    requires a + 2 <= n < |m|
    ensures |r| == |m|
  {
    var w := Pack(8 * (n - a), false, true, prevMini);
    m[a := w][n - 1 := w][n := Pack(SizeOf(m[n]), AllocOf(m[n]), false, false)]
  }

  function Without(S: set<nat>, a: nat, n: nat): set<nat> {
    set h | h in S && !(a < h < n)
  }

  function With(S: set<nat>, k: nat): set<nat> {
    S + {k}
  }

  lemma Merge(m: seq<nat>, S: set<nat>, a: nat, n: nat, prevMini: bool)
    requires Shape(m, S) && a in S && n in S && a + 4 <= n && PrevAllocOf(m[a])
    requires forall h :: h in S && a <= h < n ==> !AllocOf(m[h])
    ensures var m2, S2 := Merged(m, a, n, prevMini), Without(S, a, n);
      && Shape(m2, S2) && LiveHeap(m2, S2) == LiveHeap(m, S)
      && SameOutside(m, S, m2, S2, a, n)
      && Next(m2, a) == n && !AllocOf(m2[a])
  {
    hide Len, SizeOf, Pack, AllocOf, PrevAllocOf, PrevMiniOf, Merged;
    var m2, S2 := Merged(m, a, n, prevMini), Without(S, a, n);
    MergedWords(m, a, n, prevMini);
    assert Next(m2, a) == n;
    assert SameOutside(m, S, m2, S2, a, n);
    assert RegionOk(m2, S2, a, n);
    Rewrite(m, S, m2, S2, a, n);
    hide Shape;
    LiveOutside(m, S, m2, S2, a, n);
  }

  lemma MergedWords(m: seq<nat>, a: nat, n: nat, prevMini: bool)
    requires a + 4 <= n < |m| && (n - a) % 2 == 0
    ensures var m2 := Merged(m, a, n, prevMini);
      && |m2| == |m| && (forall w :: 0 <= w < |m| && !(a <= w <= n) ==> m2[w] == m[w])
      && Len(m2[a]) == n - a && !AllocOf(m2[a]) && PrevAllocOf(m2[a])
      && Len(m2[n - 1]) == n - a && !AllocOf(m2[n - 1])
      && Len(m2[n]) == Len(m[n]) && AllocOf(m2[n]) == AllocOf(m[n])
      && !PrevAllocOf(m2[n]) && !PrevMiniOf(m2[n])
  {
    hide Len, SizeOf, Pack, AllocOf, PrevAllocOf, PrevMiniOf;
    PackExtract(8 * (n - a), false, true, prevMini);
    SizeIsLen(m[n]);
    PackExtract(SizeOf(m[n]), AllocOf(m[n]), false, false);
  }

  /** The free block `h` is cut at `k`: the front is allocated, the rest stays free (split_block). */
  function Carved(m: seq<nat>, h: nat, k: nat, n: nat, prevMini: bool): (r: seq<nat>)
    requires h + 2 <= k && k + 2 <= n < |m|
    ensures |r| == |m|
  {
    var f := Pack(8 * (k - h), true, true, prevMini);
    var r := Pack(8 * (n - k), false, true, false);
    m[h := f][k - 1 := f][k := r][n - 1 := r][n := Pack(SizeOf(m[n]), AllocOf(m[n]), false, n - k == 2)]
  }

  ghost predicate CarveOk(m: seq<nat>, S: set<nat>, h: nat, k: nat, prevMini: bool)
    requires h < |m| && h + 2 <= k && k + 2 <= Next(m, h) < |m|
  {
    var n := Next(m, h);
    var m2, S2 := Carved(m, h, k, n, prevMini), With(S, k);
    && Shape(m2, S2) && Live(m2, S2, h) && Free(m2, S2, k)
    && SameOutside(m, S, m2, S2, h, n)
    && Next(m2, h) == k && Next(m2, k) == n
  }

  lemma Carve(m: seq<nat>, S: set<nat>, h: nat, k: nat, prevMini: bool)
    requires Shape(m, S) && Free(m, S, h) && PrevAllocOf(m[h])
    requires h + 2 <= k && k + 2 <= Next(m, h) && (k - h) % 2 == 0
    ensures CarveOk(m, S, h, k, prevMini)
    ensures var n := Next(m, h); var m2, S2 := Carved(m, h, k, n, prevMini), With(S, k);
      LiveHeap(m2, S2) == LiveHeap(m, S)[h := m2[h + 1..k]]
  {
    hide Len, SizeOf, Pack, AllocOf, PrevAllocOf, PrevMiniOf;
    var n := Next(m, h);
    CarveShape(m, S, h, k, prevMini);
    LiveOutside(m, S, Carved(m, h, k, n, prevMini), With(S, k), h, n);
  }

  lemma CarvedWords(m: seq<nat>, h: nat, k: nat, n: nat, prevMini: bool)
    requires h + 2 <= k && k + 2 <= n < |m| && (k - h) % 2 == 0 && (n - k) % 2 == 0
    ensures var m2 := Carved(m, h, k, n, prevMini);
      && |m2| == |m| && (forall w :: 0 <= w < |m| && !(h <= w <= n) ==> m2[w] == m[w])
      && Len(m2[h]) == k - h && AllocOf(m2[h]) && PrevAllocOf(m2[h])
      && Len(m2[k]) == n - k && !AllocOf(m2[k]) && PrevAllocOf(m2[k])
      && Len(m2[n - 1]) == n - k && !AllocOf(m2[n - 1])
      && Len(m2[n]) == Len(m[n]) && AllocOf(m2[n]) == AllocOf(m[n])
      && !PrevAllocOf(m2[n]) && (PrevMiniOf(m2[n]) <==> n - k == 2)
  {
    hide Len, SizeOf, Pack, AllocOf, PrevAllocOf, PrevMiniOf;
    PackExtract(8 * (k - h), true, true, prevMini);
    PackExtract(8 * (n - k), false, true, false);
    SizeIsLen(m[n]);
    PackExtract(SizeOf(m[n]), AllocOf(m[n]), false, n - k == 2);
  }

  lemma CarveShape(m: seq<nat>, S: set<nat>, h: nat, k: nat, prevMini: bool)
    requires Shape(m, S) && Free(m, S, h) && PrevAllocOf(m[h])
    requires h + 2 <= k && k + 2 <= Next(m, h) && (k - h) % 2 == 0
    ensures CarveOk(m, S, h, k, prevMini)
  {
    hide Len, SizeOf, Pack, AllocOf, PrevAllocOf, PrevMiniOf, Carved, Shape, SameOutside, RegionOk;
    var n := Next(m, h);
    FreeRoom(m, S, h);
    var m2, S2 := Carved(m, h, k, n, prevMini), With(S, k);
    CarvedWords(m, h, k, n, prevMini);
    CarvedRegion(m, S, m2, h, k, n);
    Rewrite(m, S, m2, S2, h, n);
  }

  lemma FreeRoom(m: seq<nat>, S: set<nat>, h: nat)
    requires Shape(m, S) && Free(m, S, h)
    ensures Next(m, h) < |m| && Next(m, h) in S && (Next(m, h) - h) % 2 == 0 && h % 2 == 1
    ensures forall g :: g in S && h < g ==> Next(m, h) <= g
  {
    hide Len, AllocOf, PrevAllocOf, PrevMiniOf;
    assert BlockOk(m, S, h);
  }

  lemma CarvedRegion(m: seq<nat>, S: set<nat>, m2: seq<nat>, h: nat, k: nat, n: nat)
    requires h in S && n in S && h + 2 <= k && k + 2 <= n < |m| && h % 2 == 1 && k % 2 == 1
    requires forall g :: g in S && h < g ==> n <= g
    requires |m2| == |m| && (forall w :: 0 <= w < |m| && !(h <= w <= n) ==> m2[w] == m[w])
    requires PrevAllocOf(m[h])
    requires Len(m2[h]) == k - h && AllocOf(m2[h]) && PrevAllocOf(m2[h])
    requires Len(m2[k]) == n - k && !AllocOf(m2[k]) && PrevAllocOf(m2[k])
    requires Len(m2[n - 1]) == n - k && !AllocOf(m2[n - 1])
    requires Len(m2[n]) == Len(m[n]) && AllocOf(m2[n]) == AllocOf(m[n])
    requires !PrevAllocOf(m2[n]) && (PrevMiniOf(m2[n]) <==> n - k == 2)
    ensures SameOutside(m, S, m2, With(S, k), h, n) && RegionOk(m2, With(S, k), h, n)
    ensures Next(m2, h) == k && Next(m2, k) == n
  {
    hide Len, AllocOf, PrevAllocOf, PrevMiniOf;
    assert Next(m2, h) == k && Next(m2, k) == n;
  }

  /** The free block `h` is allocated whole (the other branch of split_block). */
  function Taken(m: seq<nat>, h: nat, n: nat, prevMini: bool): (r: seq<nat>)
    requires h < n < |m|
    ensures |r| == |m|
  {
    m[h := Pack(8 * (n - h), true, true, prevMini)][n := Pack(SizeOf(m[n]), AllocOf(m[n]), true, PrevMiniOf(m[n]))]
  }

  lemma Take(m: seq<nat>, S: set<nat>, h: nat, prevMini: bool)
    requires Shape(m, S) && Free(m, S, h) && PrevAllocOf(m[h])
    ensures Next(m, h) == h + Len(m[h]) && h + 2 <= Next(m, h) < |m|
    ensures var n := Next(m, h); var m2 := Taken(m, h, n, prevMini);
      && Shape(m2, S) && Live(m2, S, h)
      && SameOutside(m, S, m2, S, h, n)
      && Next(m2, h) == n
      && LiveHeap(m2, S) == LiveHeap(m, S)[h := m2[h + 1..n]]
  {
    hide Len, SizeOf, Pack, AllocOf, PrevAllocOf, PrevMiniOf;
    var n := Next(m, h);
    var m2 := Taken(m, h, n, prevMini);
    SizeIsLen(m[h]);
    PackExtract(8 * (n - h), true, true, prevMini);
    SizeIsLen(m[n]);
    PackExtract(SizeOf(m[n]), AllocOf(m[n]), true, PrevMiniOf(m[n]));
    assert SameOutside(m, S, m2, S, h, n);
    assert Next(m2, h) == n;
    Rewrite(m, S, m2, S, h, n);
    LiveOutside(m, S, m2, S, h, n);
  }

  /** The allocated block `h` is marked free, with a footer unless it is a 16-byte block (free). */
  function Freed(m: seq<nat>, h: nat, n: nat): (r: seq<nat>)
    requires h + 2 <= n < |m|
    ensures |r| == |m|
  {
    var w := Pack(8 * (n - h), false, PrevAllocOf(m[h]), PrevMiniOf(m[h]));
    var m1 := m[h := w];
    var m2 := if n - h != 2 then m1[n - 1 := w] else m1;
    m2[n := Pack(SizeOf(m[n]), AllocOf(m[n]), false, n - h == 2)]
  }

  lemma Release(m: seq<nat>, S: set<nat>, h: nat)
    requires Shape(m, S) && Live(m, S, h)
    ensures h + 2 <= Next(m, h) < |m|
    ensures var n := Next(m, h); var m2 := Freed(m, h, n);
      && Shape(m2, S) && Free(m2, S, h)
      && SameOutside(m, S, m2, S, h, n)
      && Next(m2, h) == n
      && LiveHeap(m2, S) == LiveHeap(m, S) - {h}
  {
    hide Len, SizeOf, Pack, AllocOf, PrevAllocOf, PrevMiniOf;
    var n := Next(m, h);
    var m2 := Freed(m, h, n);
    SizeIsLen(m[h]);
    PackExtract(8 * (n - h), false, PrevAllocOf(m[h]), PrevMiniOf(m[h]));
    SizeIsLen(m[n]);
    PackExtract(SizeOf(m[n]), AllocOf(m[n]), false, n - h == 2);
    assert SameOutside(m, S, m2, S, h, n);
    assert Next(m2, h) == n;
    Rewrite(m, S, m2, S, h, n);
    LiveOutside(m, S, m2, S, h, n);
  }

  /** The heap grows by `|grown|` words: the old epilogue becomes the header of a free block, and the
      last new word is the new epilogue (extend_heap). */
  function Extended(m: seq<nat>, grown: seq<nat>): (r: seq<nat>)
    requires |m| >= 1 && |grown| >= 4
    ensures |r| == |m| + |grown|
  {
    var e := |m| - 1;
    var w := Pack(8 * |grown|, false, PrevAllocOf(m[e]), PrevMiniOf(m[e]));
    (m + grown)[e := w][e + |grown| - 1 := w][e + |grown| := Pack(0, true, false, false)]
  }

  ghost predicate ExtendOk(m: seq<nat>, S: set<nat>, grown: seq<nat>)
    requires |m| >= 1 && |grown| >= 4
  {
    var e := |m| - 1;
    var m2, S2 := Extended(m, grown), With(S, e + |grown|);
    && Shape(m2, S2) && Free(m2, S2, e)
    && Next(m2, e) == e + |grown| == |m2| - 1
    && (forall w :: 0 <= w < e ==> m2[w] == m[w])
    && PrevAllocOf(m2[e]) == PrevAllocOf(m[e])
  }

  lemma ExtendShape(m: seq<nat>, S: set<nat>, grown: seq<nat>)
    requires Shape(m, S) && |grown| >= 4 && |grown| % 2 == 0
    ensures ExtendOk(m, S, grown)
  {
    hide Len, SizeOf, Pack, AllocOf, PrevAllocOf, PrevMiniOf, Extended;
    var n := |m| - 1 + |grown|;
    var m2, S2 := Extended(m, grown), With(S, n);
    ExtendedWords(m, grown);
    forall h {:trigger Next(m2, h)} {:trigger BlockOk(m2, S2, h)} | h in S2 && h < n
      ensures BlockOk(m2, S2, h) && (forall g :: g in S2 && h < g ==> Next(m2, h) <= g)
    {
      OldBlock(m, S, m2, |m| - 1, n, h);
    }
  }

  lemma ExtendedWords(m: seq<nat>, grown: seq<nat>)
    requires |m| >= 1 && |grown| >= 4 && |grown| % 2 == 0
    ensures var e, m2 := |m| - 1, Extended(m, grown); var n := e + |grown|;
      && |m2| == n + 1 && (forall w :: 0 <= w < e ==> m2[w] == m[w])
      && Len(m2[e]) == |grown| && !AllocOf(m2[e])
      && PrevAllocOf(m2[e]) == PrevAllocOf(m[e]) && PrevMiniOf(m2[e]) == PrevMiniOf(m[e])
      && Len(m2[n - 1]) == |grown| && !AllocOf(m2[n - 1])
      && Len(m2[n]) == 0 && AllocOf(m2[n]) && !PrevAllocOf(m2[n]) && !PrevMiniOf(m2[n])
  {
    hide Len, SizeOf, Pack, AllocOf, PrevAllocOf, PrevMiniOf;
    var e := |m| - 1;
    PackExtract(8 * |grown|, false, PrevAllocOf(m[e]), PrevMiniOf(m[e]));
    PackExtract(0, true, false, false);
  }

  lemma OldBlock(m: seq<nat>, S: set<nat>, m2: seq<nat>, e: nat, n: nat, h: nat)
    requires Shape(m, S) && e == |m| - 1 && e + 4 <= n == |m2| - 1 && h in S && h <= e
    requires forall w :: 0 <= w < e ==> m2[w] == m[w]
    requires PrevAllocOf(m2[e]) == PrevAllocOf(m[e]) && PrevMiniOf(m2[e]) == PrevMiniOf(m[e])
    requires Len(m2[e]) == n - e && !AllocOf(m2[e]) && Len(m2[n - 1]) == n - e && !AllocOf(m2[n - 1])
    requires !PrevAllocOf(m2[n]) && !PrevMiniOf(m2[n])
    ensures BlockOk(m2, With(S, n), h) && forall g :: g in With(S, n) && h < g ==> Next(m2, h) <= g
  {
    hide Len, AllocOf, PrevAllocOf, PrevMiniOf;
    if h < e {
      assert BlockOk(m, S, h) && Next(m, h) <= e;
    }
  }

  lemma Extend(m: seq<nat>, S: set<nat>, grown: seq<nat>)
    requires Shape(m, S) && |grown| >= 4 && |grown| % 2 == 0
    ensures ExtendOk(m, S, grown)
    ensures LiveHeap(Extended(m, grown), With(S, |m| - 1 + |grown|)) == LiveHeap(m, S)
  {
    hide Len, SizeOf, Pack, AllocOf, PrevAllocOf, PrevMiniOf;
    ExtendShape(m, S, grown);
    var e := |m| - 1;
    var m2, S2 := Extended(m, grown), With(S, e + |grown|);
    forall h: nat | h != e
      ensures Live(m2, S2, h) == Live(m, S, h)
      ensures Live(m, S, h) ==> Payload(m2, S2, h) == Payload(m, S, h)
    {
      if h in S && h < e {
        assert Next(m, h) <= e && Next(m2, h) == Next(m, h);
      }
    }
    LiveExcept(m, S, m2, S2, e);
  }
}
