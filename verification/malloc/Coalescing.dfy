/** When neighbouring free blocks are merged, and what that leaves (coalesce_block in mm.c). */
module Coalescing {
  import opened HeapWords
  import opened HeapShape

  /** find_prev: the size of the predecessor is read from its footer. */
  function FindPrev(m: seq<nat>, h: nat): int
    requires 1 <= h <= |m|
  {
    h - Len(m[h - 1])
  }

  /** find_prev_mini. */
  function FindPrevMini(h: nat): int {
    h - 2
  }

  /** The prev_alloc and mini bits lead to the free predecessor of a block. */
  lemma FreePredecessor(m: seq<nat>, S: set<nat>, h: nat) returns (p: nat)
    requires Shape(m, S) && h in S && !PrevAllocOf(m[h])
    ensures Free(m, S, p) && p < h && Next(m, p) == h
    ensures p == if PrevMiniOf(m[h]) then FindPrevMini(h) else FindPrev(m, h)
  {
    hide Len, SizeOf, Pack, AllocOf, PrevAllocOf, PrevMiniOf;
    p := Predecessor(m, S, h);
    assert BlockOk(m, S, p);
  }

  lemma AllocatedPredecessor(m: seq<nat>, S: set<nat>, x: nat, h: nat)
    requires Shape(m, S) && Coalesced(m, S, x) && Free(m, S, h) && h != x
    requires x == 0 || h < x
    ensures PrevAllocOf(m[h])
  {
    hide Len, SizeOf, Pack, AllocOf, PrevAllocOf, PrevMiniOf;
    if !PrevAllocOf(m[h]) {
      var p := FreePredecessor(m, S, h);
    }
  }

  /** Merging the free run around `x` with allocated blocks on both sides leaves no free neighbours. */
  lemma MergeCoalesces(m: seq<nat>, S: set<nat>, m2: seq<nat>, S2: set<nat>, a: nat, n: nat, x: nat)
    requires Shape(m, S) && Coalesced(m, S, x) && a <= x < n
    requires Shape(m2, S2) && SameOutside(m, S, m2, S2, a, n)
    requires Next(m2, a) == n && PrevAllocOf(m2[a]) && (n + 1 < |m| ==> AllocOf(m[n]))
    requires forall h :: h in S2 ==> !(a < h < n)
    ensures Coalesced(m2, S2, 0)
  {
    hide Len, SizeOf, Pack, AllocOf, PrevAllocOf, PrevMiniOf;
    forall h: nat {:trigger Next(m2, h)} | Free(m2, S2, h)
      ensures !Free(m2, S2, Next(m2, h))
    {
      if h != a {
        assert Next(m2, h) == Next(m, h);
        assert BlockOk(m2, S2, h);
      }
    }
  }

  /** Taking a free block, or the front of one, leaves no free neighbours either. */
  lemma StaysCoalesced(m: seq<nat>, S: set<nat>, m2: seq<nat>, S2: set<nat>, a: nat, n: nat)
    requires Shape(m, S) && Coalesced(m, S, 0)
    requires Shape(m2, S2) && SameOutside(m, S, m2, S2, a, n)
    requires Free(m, S, a) && Next(m, a) == n && Live(m2, S2, a)
    requires forall h :: h in S2 && a < h < n ==> Next(m2, h) == n
    ensures Coalesced(m2, S2, 0)
  {
    hide Len, SizeOf, Pack, AllocOf, PrevAllocOf, PrevMiniOf;
    forall h: nat {:trigger Next(m2, h)} | Free(m2, S2, h)
      ensures !Free(m2, S2, Next(m2, h))
    {
      if !(a < h < n) {
        assert Next(m2, h) == Next(m, h);
      } else {
        assert Next(m, a) == n;
        assert !Free(m, S, n);
      }
    }
  }

  /** Freeing block `h` can create free neighbours only around `h`. */
  lemma CoalescedExcept(m: seq<nat>, S: set<nat>, m2: seq<nat>, h: nat, n: nat)
    requires Shape(m, S) && Coalesced(m, S, 0) && Shape(m2, S) && SameOutside(m, S, m2, S, h, n)
    requires Next(m, h) == n && Next(m2, h) == n
    ensures Coalesced(m2, S, h)
  {
    hide Len, SizeOf, Pack, AllocOf, PrevAllocOf, PrevMiniOf;
    forall g: nat {:trigger Next(m2, g)} | Free(m2, S, g) && Free(m2, S, Next(m2, g))
      ensures g == h || Next(m2, g) == h
    {
      if g != h {
        if g < h { assert Next(m, g) <= h; }
        assert Next(m2, g) == Next(m, g);
      }
    }
  }

  /** All headers from `a` to the allocated block `n` are free and in `X`, and `a` follows an allocated block. */
  ghost predicate Mergeable(m: seq<nat>, S: set<nat>, a: nat, n: nat, x: nat, X: set<nat>) {
    && a in S && n in S && a + 4 <= n < |m| && PrevAllocOf(m[a]) && AllocOf(m[n]) && a <= x < n
    && (forall h :: h in S && a <= h < n ==> !AllocOf(m[h]) && h in X)
    && (forall h :: h in X ==> a <= h < n)
  }

  lemma MergeableFrame(m: seq<nat>, m2: seq<nat>, S: set<nat>, a: nat, n: nat, x: nat, X: set<nat>)
    requires Mergeable(m, S, a, n, x, X)
    requires |m2| == |m| && forall h :: h in S ==> h < |m| && m2[h] == m[h]
    ensures Mergeable(m2, S, a, n, x, X)
  {
    hide AllocOf, PrevAllocOf;
  }

  ghost predicate RunOfTwo(m: seq<nat>, S: set<nat>, a: nat, b: nat, n: nat) {
    && Free(m, S, a) && Free(m, S, b) && Next(m, a) == b && Next(m, b) == n
    && a + 2 <= b && b + 2 <= n < |m| && n in S
    && SizeOf(m[a]) + SizeOf(m[b]) == 8 * (n - a)
    && (forall h :: h in S && a <= h < n ==> h == a || h == b)
  }

  lemma Pair(m: seq<nat>, S: set<nat>, a: nat)
    requires Shape(m, S) && Free(m, S, a) && Next(m, a) < |m| && !AllocOf(m[Next(m, a)])
    ensures Next(m, Next(m, a)) < |m|
    ensures RunOfTwo(m, S, a, Next(m, a), Next(m, Next(m, a)))
  {
    hide Len, SizeOf, Pack, AllocOf, PrevAllocOf, PrevMiniOf;
    SizeIsLen(m[a]);
    assert BlockOk(m, S, a);
    var b := Next(m, a);
    SizeIsLen(m[b]);
    assert BlockOk(m, S, b);
    var n := Next(m, b);
    assert forall h :: h in S && a <= h < n ==> h == a || h == b;
  }

  lemma AfterPair(m: seq<nat>, S: set<nat>, x: nat)
    requires Shape(m, S) && Coalesced(m, S, x) && Free(m, S, x)
    requires Next(m, x) < |m| && !AllocOf(m[Next(m, x)])
    ensures var b := Next(m, x); Next(m, b) < |m| && RunOfTwo(m, S, x, b, Next(m, b)) && AllocOf(m[Next(m, b)])
  {
    hide Len, SizeOf, Pack, AllocOf, PrevAllocOf, PrevMiniOf, RunOfTwo;
    Pair(m, S, x);
    var b := Next(m, x);
    assert BlockOk(m, S, b);
    assert !Free(m, S, Next(m, b));
  }

  lemma BeforePair(m: seq<nat>, S: set<nat>, x: nat)
    requires Shape(m, S) && Coalesced(m, S, x) && Free(m, S, x) && !PrevAllocOf(m[x])
    ensures 0 <= PrevBlock(m, x) && Next(m, x) < |m|
    ensures var p: nat := PrevBlock(m, x); RunOfTwo(m, S, p, x, Next(m, x)) && PrevAllocOf(m[p])
  {
    hide Len, SizeOf, Pack, AllocOf, PrevAllocOf, PrevMiniOf, RunOfTwo, FindPrev;
    var p := FreePredecessor(m, S, x);
    Pair(m, S, p);
    AllocatedPredecessor(m, S, x, p);
  }

  /** Case 2: the successor of the freed block is free, and is followed by an allocated block. */
  lemma NextFree(m: seq<nat>, S: set<nat>, x: nat)
    requires Shape(m, S) && Coalesced(m, S, x) && Free(m, S, x) && PrevAllocOf(m[x])
    requires Next(m, x) < |m| && !AllocOf(m[Next(m, x)])
    ensures var b := Next(m, x);
      && x < b && Next(m, b) < |m| && Free(m, S, b) && Next(m, b) >= b
      && SizeOf(m[x]) + SizeOf(m[b]) == 8 * (Next(m, b) - x)
      && Mergeable(m, S, x, Next(m, b), x, {x} + {b})
  {
    hide Len, SizeOf, Pack, AllocOf, PrevAllocOf, PrevMiniOf, Shape, Coalesced;
    AfterPair(m, S, x);
  }

  /** Case 3: the predecessor is free; find_prev finds it, and it follows an allocated block. */
  lemma PrevFree(m: seq<nat>, S: set<nat>, x: nat)
    requires Shape(m, S) && Coalesced(m, S, x) && Free(m, S, x) && !PrevAllocOf(m[x])
    requires Next(m, x) < |m| && AllocOf(m[Next(m, x)])
    ensures 0 <= PrevBlock(m, x) < x
    ensures var p: nat, n := PrevBlock(m, x), Next(m, x);
      && x + 2 <= n && Free(m, S, p)
      && SizeOf(m[p]) + SizeOf(m[x]) == 8 * (n - p)
      && Mergeable(m, S, p, n, x, {x} + {p})
  {
    hide Len, SizeOf, Pack, AllocOf, PrevAllocOf, PrevMiniOf, Shape, Coalesced, PrevBlock;
    BeforePair(m, S, x);
  }

  /** Case 4: both neighbours are free. */
  lemma BothFree(m: seq<nat>, S: set<nat>, x: nat)
    requires Shape(m, S) && Coalesced(m, S, x) && Free(m, S, x) && !PrevAllocOf(m[x])
    requires Next(m, x) < |m| && !AllocOf(m[Next(m, x)])
    ensures 0 <= PrevBlock(m, x) < x < Next(m, x) && Next(m, Next(m, x)) < |m|
    ensures var p: nat, b := PrevBlock(m, x), Next(m, x);
      && Free(m, S, p) && Free(m, S, b) && Next(m, b) >= b
      && SizeOf(m[x]) + SizeOf(m[p]) + SizeOf(m[b]) == 8 * (Next(m, b) - p)
      && Mergeable(m, S, p, Next(m, b), x, {x} + {p} + {b})
  {
    hide Len, Pack, SizeOf, AllocOf, PrevAllocOf, PrevMiniOf, Shape, Coalesced, PrevBlock;
    BeforePair(m, S, x);
    AfterPair(m, S, x);
    SizeIsLen(m[x]);
  }

  /** find_prev, unless the mini bit says the predecessor is a 16-byte block. */
  function PrevBlock(m: seq<nat>, h: nat): int
    requires 1 <= h < |m|
  {
    if PrevMiniOf(m[h]) then FindPrevMini(h) else FindPrev(m, h)
  }
}
