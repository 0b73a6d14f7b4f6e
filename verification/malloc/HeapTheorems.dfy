/** What the invariant of the allocator means for the whole heap. */
module HeapTheorems {
  import opened HeapWords
  import opened SizeClasses
  import opened HeapShape
  import opened FreeLists

  /** The blocks met by following the sizes in the headers from `h` to the epilogue. */
  ghost function Walk(m: seq<nat>, S: set<nat>, h: nat): seq<nat>
    requires Shape(m, S) && h in S
    decreases |m| - h
  {
    if h + 1 == |m| then []
    else
      assert BlockOk(m, S, h);
      [h] + Walk(m, S, Next(m, h))
  }

  ghost function TotalSize(m: seq<nat>, blocks: seq<nat>): nat
    requires forall k :: 0 <= k < |blocks| ==> blocks[k] < |m|
  {
    if blocks == [] then 0 else SizeOf(m[blocks[0]]) + TotalSize(m, blocks[1..])
  }

  /** The walk misses no header from `h` on and invents none. */
  lemma {:induction false} WalkVisits(m: seq<nat>, S: set<nat>, h: nat, g: nat)
    requires Shape(m, S) && h in S
    ensures g in Walk(m, S, h) <==> g in S && h <= g && g + 1 < |m|
    decreases |m| - h
  {
    NextIn(m, S, h, g);
    hide Shape, Next;
    if h + 1 < |m| {
      WalkVisits(m, S, Next(m, h), g);
      InFront(h, Walk(m, S, Next(m, h)), g);
    }
  }

  lemma InFront(h: nat, s: seq<nat>, g: nat)
    ensures g in [h] + s <==> g == h || g in s
  {
  }

  lemma NextIn(m: seq<nat>, S: set<nat>, h: nat, g: nat)
    requires Shape(m, S) && h in S
    ensures h < |m| && (g in S ==> g < |m|)
    ensures h + 1 < |m| ==> h < Next(m, h) < |m| && Next(m, h) in S && (g in S && h < g ==> Next(m, h) <= g)
  {
    hide Len, AllocOf, PrevAllocOf, PrevMiniOf;
    if h + 1 < |m| { assert BlockOk(m, S, h); }
  }

  /** No byte is lost: the blocks add up to what mem_sbrk handed out, less the prologue and epilogue. */
  lemma {:induction false} BytesConserved(m: seq<nat>, S: set<nat>, h: nat)
    requires Shape(m, S) && h in S
    ensures forall k :: 0 <= k < |Walk(m, S, h)| ==> Walk(m, S, h)[k] < |m|
    ensures TotalSize(m, Walk(m, S, h)) == 8 * (|m| - 1 - h)
    decreases |m| - h
  {
    hide Len, Pack, AllocOf, PrevAllocOf, PrevMiniOf, SizeOf;
    if h + 1 < |m| {
      assert BlockOk(m, S, h);
      BytesConserved(m, S, Next(m, h));
      SizeIsLen(m[h]);
      assert Walk(m, S, h)[1..] == Walk(m, S, Next(m, h));
    }
  }

  lemma BlockInside(m: seq<nat>, S: set<nat>, h: nat)
    requires Shape(m, S) && h in S && h + 1 < |m|
    ensures h % 2 == 1 && h + 2 <= Next(m, h) < |m|
  {
    hide Len, Pack, AllocOf, PrevAllocOf, PrevMiniOf, Recorded;
    assert BlockOk(m, S, h);
  }

  lemma PayloadInside(m: seq<nat>, S: set<nat>, h: nat)
    requires Shape(m, S) && h in LiveHeap(m, S)
    ensures h in S && (h + 1) % 2 == 0 && h + 1 + |LiveHeap(m, S)[h]| == Next(m, h) < |m|
  {
    hide Shape, AllocOf, Len;
    assert Live(m, S, h) && LiveHeap(m, S)[h] == Payload(m, S, h);
    BlockInside(m, S, h);
    hide LiveHeap;
  }

  /** Payloads of different allocated blocks do not overlap, and lie inside the heap. */
  lemma PayloadsDisjoint(m: seq<nat>, S: set<nat>, g: nat, h: nat)
    requires Shape(m, S) && g in LiveHeap(m, S) && h in LiveHeap(m, S) && g < h
    ensures g + 1 + |LiveHeap(m, S)[g]| <= h && h + 1 + |LiveHeap(m, S)[h]| < |m|
    ensures (g + 1) % 2 == 0 && (h + 1) % 2 == 0
  {
    PayloadInside(m, S, g);
    PayloadInside(m, S, h);
    hide LiveHeap, Len, Pack, AllocOf, PrevAllocOf, PrevMiniOf;
  }

  /** When nothing is allocated, coalescing has left one free block (or a heap with no block at all). */
  lemma AllFreedIsOneBlock(m: seq<nat>, S: set<nat>)
    requires Shape(m, S) && Coalesced(m, S, 0) && LiveHeap(m, S) == map[]
    ensures S == {1, |m| - 1}
    ensures |m| > 2 ==> Free(m, S, 1) && SizeOf(m[1]) == 8 * (|m| - 2)
  {
    hide Len, Pack, AllocOf, PrevAllocOf, PrevMiniOf, SizeOf;
    forall h | h in S && h + 1 < |m|
      ensures Free(m, S, h)
    {
      assert h !in LiveHeap(m, S);
    }
    if |m| > 2 {
      assert BlockOk(m, S, 1);
      assert Next(m, 1) == |m| - 1;
      SizeIsLen(m[1]);
      assert forall h :: h in S && 1 < h ==> Next(m, 1) <= h;
    }
  }

  ghost predicate IsAt(L: Lists, i: int, k: int, h: nat) {
    0 <= i < LIST_NUMBER && 0 <= k < |L[i]| && L[i][k] == h
  }

  /** The 14 lists partition the free blocks: each free block is once in one list, and nothing else is. */
  lemma ListsPartition(m: seq<nat>, S: set<nat>, seg: seq<nat>, L: Lists, h: nat)
    requires Shape(m, S) && ListsOk(m, S, seg, L, {})
    ensures Free(m, S, h) <==> exists i, k :: IsAt(L, i, k, h)
    ensures forall i, k, i', k' :: IsAt(L, i, k, h) && IsAt(L, i', k', h) ==> i == i' && k == k'
  {
    hide Len, Pack, AllocOf, PrevAllocOf, PrevMiniOf, IndexOf, At;
    if Free(m, S, h) {
      var i := ClassOf(m, h);
      assert h in L[i];
      var k :| 0 <= k < |L[i]| && L[i][k] == h;
      assert IsAt(L, i, k, h);
    }
    forall i, k, i', k' | IsAt(L, i, k, h) && IsAt(L, i', k', h)
      ensures i == i' && k == k'
    {
      ListedInShape(m, S, seg, L, {}, i);
      ListedInShape(m, S, seg, L, {}, i');
    }
  }
}
