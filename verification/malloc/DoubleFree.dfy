/** What free does with a block that is free already: the lists are lost. */
module DoubleFree {
  import opened HeapWords
  import opened SizeClasses
  import opened HeapShape
  import opened FreeLists
  import opened Coalescing
  import opened HeapSteps
  import opened HeapTheorems
  import opened WrittenWords
  import opened Allocator
  import TraceReplay

  /** No contents of the lists agree with the links, whatever counts as a block and as listed. */
  ghost predicate ListsLost(m: seq<nat>, seg: seq<nat>) {
    forall S: set<nat>, L: Lists, X: set<nat> :: !ListsOk(m, S, seg, L, X)
  }

  /** Only the header, the footer and the next header may differ. */
  ghost predicate LinksLeft(m: seq<nat>, m2: seq<nat>, h: nat, n: nat) {
    |m2| == |m| && forall w :: 0 <= w < |m| && w != h && w != n && (w == n - 1 ==> n - h == 2) ==> m2[w] == m[w]
  }

  lemma FreedWords(m: seq<nat>, h: nat, n: nat)
    requires h + 2 <= n < |m| && SizeOf(m[h]) == 8 * (n - h) && (n - h) % 2 == 0
    ensures var m1 := Freed(m, h, n);
      && |m1| == |m| && LinksLeft(m, m1, h, n)
      && SizeOf(m1[h]) == SizeOf(m[h]) && PrevAllocOf(m1[h]) == PrevAllocOf(m[h])
      && AllocOf(m1[n]) == AllocOf(m[n]) && Next(m1, h) == n
  {
    hide Pack, SizeOf, Len, AllocOf, PrevAllocOf, PrevMiniOf;
    PackExtract(8 * (n - h), false, PrevAllocOf(m[h]), PrevMiniOf(m[h]));
    SizeIsLen(m[n]);
    PackExtract(SizeOf(m[n]), AllocOf(m[n]), false, n - h == 2);
  }

  lemma NextWritten(m: seq<nat>, m1: seq<nat>, h: nat, n: nat, w: nat)
    requires LinksLeft(m, m1, h, n) && h < n < |m|
    ensures |m1| == |m| && LinksLeft(m, m1[n := w], h, n) && m1[n := w][h] == m1[h]
  {
  }

  /** So the list the block is in can still be read off. */
  lemma ListStays(m: seq<nat>, S: set<nat>, seg: seq<nat>, L: Lists, h: nat, m2: seq<nat>, i: nat)
    requires Shape(m, S) && ListsOk(m, S, seg, L, {}) && Free(m, S, h) && i < LIST_NUMBER
    requires LinksLeft(m, m2, h, Next(m, h))
    ensures i < |seg| && Chained(m2, seg[i], L[i], i) && Odd(L[i])
  {
    hide Len, SizeOf, Pack, AllocOf, PrevAllocOf, PrevMiniOf, IndexOf, Chained, ListsOk;
    ListedInShape(m, S, seg, L, {}, i);
    Sizes(m, S, h);
    var l := L[i];
    forall k | 0 <= k < |l|
      ensures l[k] + 2 < |m| && m2[l[k] + 1] == m[l[k] + 1] && (i != 0 ==> m2[l[k] + 2] == m[l[k] + 2])
    {
      Sizes(m, S, l[k]);
      if l[k] < h { assert Next(m, l[k]) <= h; }
      if h < l[k] { assert Next(m, h) <= l[k]; }
    }
    OtherChain(m, m2, seg[i], l, i);
  }

  /** In a heap without free neighbours, coalesce_block takes its first case. */
  lemma Between(m: seq<nat>, S: set<nat>, h: nat)
    requires Shape(m, S) && Coalesced(m, S, 0) && Free(m, S, h)
    ensures h + 2 <= Next(m, h) < |m| && SizeOf(m[h]) == 8 * (Next(m, h) - h) && (Next(m, h) - h) % 2 == 0
    ensures PrevAllocOf(m[h]) && AllocOf(m[Next(m, h)]) && Next(m, h) in S
  {
    hide Len, SizeOf, Pack, AllocOf, PrevAllocOf, PrevMiniOf;
    Sizes(m, S, h);
    SizeIsLen(m[h]);
    AllocatedPredecessor(m, S, 0, h);
    assert BlockOk(m, S, h);
    assert !Free(m, S, Next(m, h));
  }

  lemma Lost(m: seq<nat>, head: nat, l: seq<nat>, i: nat, k: nat, m2: seq<nat>, seg: seq<nat>)
    requires Chained(m, head, l, i) && Odd(l) && k < |l| && l[k] + 2 < |m| && head + 2 < |m|
    requires i < LIST_NUMBER && i < |seg| && seg[i] == l[k] && m2 == Linked(m, i, l[k], head)
    ensures ListsLost(m2, seg)
  {
    hide Linked, Chained;
    forall S: set<nat>, L: Lists, X: set<nat>
      ensures !ListsOk(m2, S, seg, L, X)
    {
      LinkedTwice(m, head, l, i, k, L[i]);
    }
  }

  /** What has been written around a free block. */
  lemma WrittenAround(m: seq<nat>, S: set<nat>, W: set<nat>, h: nat)
    requires Shape(m, S) && Coalesced(m, S, 0) && Initialised(m, S, W, {}) && Free(m, S, h)
    ensures h < |m| && h in W && Next(m, h) in W && Next(m, h) - 1 in W
  {
    hide Len, SizeOf, Pack, AllocOf, PrevAllocOf, PrevMiniOf, Initialised;
    ReadableAround(m, S, W, {}, h);
    LastOf(m, S, W, {}, h);
  }

  lemma InUse(heap: Heap)
    requires heap.Ready(0, {})
    ensures heap.segList.Length == LIST_NUMBER && Shape(heap.mem, heap.starts) && Coalesced(heap.mem, heap.starts, 0)
    ensures ListsOk(heap.mem, heap.starts, heap.segList[..], heap.lists, {})
    ensures Initialised(heap.mem, heap.starts, heap.written, {})
  {
  }

  /** The writes of free and of the first case of coalesce_block, before insert_block: the block stays free, and
      no link word changes. */
  method WriteAgain(heap: Heap, block: nat)
    requires heap.Ready(0, {}) && Free(heap.mem, heap.starts, block)
    modifies heap`mem, heap`written
    ensures block < |old(heap.mem)| && LinksLeft(old(heap.mem), heap.mem, block, old(Next(heap.mem, block)))
    ensures |heap.mem| == |old(heap.mem)|
    ensures SizeOf(heap.mem[block]) == SizeOf(old(heap.mem)[block]) && old(heap.written) <= heap.written
  {
    hide Len, Pack, SizeOf, AllocOf, PrevAllocOf, PrevMiniOf, Shape, Coalesced, ListsOk, Initialised, Free;
    hide Consistent, Freed, LinksLeft;
    ghost var m, S := heap.mem, heap.starts;
    InUse(heap);
    Between(m, S, block);
    ghost var n := Next(m, block);
    WrittenAround(m, S, heap.written, block);
    var size := SizeOf(heap.Word(block));
    heap.WriteFreed(block, size, n);
    FreedWords(m, block, n);
    var nextAlloc, prevAlloc := AllocOf(heap.Word(heap.NextBlock(block))), PrevAllocOf(heap.Word(block));
    assert nextAlloc && prevAlloc;
    ghost var m1 := heap.mem;
    if SizeOf(heap.Word(block)) == MIN_BLOCK_SIZE {
      heap.SetNextBlockPrevAlloc(block, false, true);
    } else {
      heap.SetNextBlockPrevAlloc(block, false, false);
    }
    NextWritten(m, m1, block, n, heap.mem[n]);
  }

  /** Where a free block is listed. */
  lemma Position(m: seq<nat>, S: set<nat>, seg: seq<nat>, L: Lists, W: set<nat>, h: nat) returns (k: nat, i: nat)
    requires Shape(m, S) && ListsOk(m, S, seg, L, {}) && Initialised(m, S, W, {}) && Free(m, S, h)
    ensures h < |m| && h in W && i < LIST_NUMBER && i < |seg| && i == IndexOf(RoundUp(SizeOf(m[h]), DSIZE))
    ensures i == 0 <==> SizeOf(m[h]) == MIN_BLOCK_SIZE
    ensures k < |L[i]| && L[i][k] == h && (seg[i] != NULL && i != 0 ==> seg[i] + 2 in W)
  {
    hide Len, SizeOf, IndexOf, RoundUp, Chained, ListIn;
    i := ClassOf(m, h);
    RoundUpMultiple(m[h]);
    k := Locate(m, S, seg, L, {}, h);
    hide Shape, ListsOk;
    FirstReadable(m, S, seg, L, W, {}, i);
    WordsInside(m, S, W, {});
  }

  /** The block is element `k` of list `i`, the list of its class, and its words and the first of them have been
      written. */
  ghost predicate InList(heap: Heap, block: nat, L: Lists, i: nat, k: nat)
    reads heap`mem, heap`written, heap.segList
  {
    && heap.segList.Length == LIST_NUMBER && block < |heap.mem| && block in heap.written
    && i < LIST_NUMBER && i == IndexOf(RoundUp(SizeOf(heap.mem[block]), DSIZE))
    && (i == 0 <==> SizeOf(heap.mem[block]) == MIN_BLOCK_SIZE)
    && Chained(heap.mem, heap.segList[i], L[i], i) && Odd(L[i]) && k < |L[i]| && L[i][k] == block
    && (heap.segList[i] != NULL && i != 0 ==> heap.segList[i] + 2 in heap.written)
  }

  lemma ChainEnds(m: seq<nat>, head: nat, l: seq<nat>, i: nat, k: nat)
    requires Chained(m, head, l, i) && k < |l|
    ensures l[k] + 2 < |m| && head + 2 < |m|
  {
  }

  /** insert_block on a block that is listed. */
  method InsertAgain(heap: Heap, block: nat, ghost L: Lists, ghost i: nat, ghost k: nat)
    requires InList(heap, block, L, i, k)
    modifies heap`mem, heap`written, heap.segList
    ensures heap.segList.Length == LIST_NUMBER && ListsLost(heap.mem, heap.segList[..])
  {
    hide Len, SizeOf, AllocOf, PrevAllocOf, PrevMiniOf, IndexOf, RoundUp, Linked, Chained, ListsLost, Odd, At;
    ghost var m, head, seg := heap.mem, heap.segList[i], heap.segList[..];
    ChainEnds(m, head, L[i], i, k);
    var size := SizeOf(heap.Word(block));
    var index := GetIndex(RoundUp(size, DSIZE));
    heap.Push(block, index, size);
    Lost(m, head, L[i], i, k, heap.mem, heap.segList[..]);
  }

  /** So after these writes the block is still where it was in the lists. */
  method MarkAgain(heap: Heap, block: nat) returns (ghost L: Lists, ghost i: nat, ghost k: nat)
    requires heap.Ready(0, {}) && Free(heap.mem, heap.starts, block)
    modifies heap`mem, heap`written
    ensures InList(heap, block, L, i, k)
  {
    hide *;
    InUse(heap);
    ghost var m, S, seg, W := heap.mem, heap.starts, heap.segList[..], heap.written;
    L := heap.lists;
    k, i := Position(m, S, seg, L, W, block);
    WriteAgain(heap, block);
    ListStays(m, S, seg, L, block, heap.mem, i);
    StillInList(heap, block, m, seg, W, L, i, k);
  }

  lemma StillInList(heap: Heap, block: nat, m: seq<nat>, seg: seq<nat>, W: set<nat>, L: Lists, i: nat, k: nat)
    requires heap.segList.Length == LIST_NUMBER && seg == heap.segList[..] && W <= heap.written
    requires block < |m| == |heap.mem| && SizeOf(heap.mem[block]) == SizeOf(m[block]) && block in W
    requires i < LIST_NUMBER && i == IndexOf(RoundUp(SizeOf(m[block]), DSIZE))
    requires i == 0 <==> SizeOf(m[block]) == MIN_BLOCK_SIZE
    requires k < |L[i]| && L[i][k] == block && (seg[i] != NULL && i != 0 ==> seg[i] + 2 in W)
    requires Chained(heap.mem, seg[i], L[i], i) && Odd(L[i])
    ensures InList(heap, block, L, i, k)
  {
    hide Len, SizeOf, IndexOf, RoundUp, Chained, Odd;
  }

  /** free on a block that is free, in a heap in order. */
  method FreeAgain(heap: Heap, p: nat)
    requires heap.Valid() && heap.heapStart != NULL && p > 0 && Free(heap.mem, heap.starts, p - 1)
    modifies heap`mem, heap`written, heap.segList
    ensures heap.segList.Length == LIST_NUMBER && ListsLost(heap.mem, heap.segList[..])
  {
    heap.UnfoldStarted();
    hide *;
    var block := p - 1;
    ghost var L, i, k := MarkAgain(heap, block);
    InsertAgain(heap, block, L, i, k);
  }

  /** The heap that mm_init leaves has one free block, and room for the request. */
  lemma Fresh(heap: Heap, d: TraceReplay.Driver, size: nat)
    requires heap.Valid() && heap.heapStart != NULL && heap.Blocks() == map[]
    requires 8 * |heap.mem| == 2 * WSIZE + CHUNK_SIZE
    requires d == TraceReplay.Driver(map[], map[], {}) && 0 < size <= MAX_REQUEST && AdjustedSize(size) <= CHUNK_SIZE
    ensures TraceReplay.Sound(heap, d) && !heap.NullWhen(size) && !NoFit(heap.mem, heap.starts, AdjustedSize(size))
    ensures forall h :: Free(heap.mem, heap.starts, h) ==> h == 1
  {
    AdjustedSizeExact(size);
    hide Consistent, LiveHeap, AdjustedSize, NoFit;
    heap.UnfoldStarted();
    FreshFit(heap.mem, heap.starts, heap.segList[..], heap.lists, AdjustedSize(size));
    FreshBlock(heap.mem, heap.starts);
  }

  lemma FreshBlock(m: seq<nat>, S: set<nat>)
    requires Shape(m, S) && Coalesced(m, S, 0) && LiveHeap(m, S) == map[]
    ensures S == {1, |m| - 1} && forall h :: Free(m, S, h) ==> h == 1
    ensures |m| > 2 ==> Free(m, S, 1)
  {
    hide Shape, Coalesced, LiveHeap;
    AllFreedIsOneBlock(m, S);
  }

  /** After the first request, index 0 owns the only block. */
  lemma OneBlock(heap: Heap, d: TraceReplay.Driver, size: nat, data: seq<nat>)
    requires TraceReplay.Sound(heap, d)
    requires TraceReplay.ServesIn(TraceReplay.Driver(map[], map[], {}), d, TraceReplay.Alloc(0, size, data))
    ensures d.live == {0} && TraceReplay.Owns(d, 0) && TraceReplay.NoneLost(d) && d.live <= d.blocks.Keys
    ensures TraceReplay.Handed(d, 0) == 2 ==> |heap.mem| > 2
  {
    hide *;
    var none := TraceReplay.Driver(map[], map[], {});
    NothingLost(none);
    TraceReplay.SoundLive(heap, d);
    TraceReplay.LiveServed(none, d, TraceReplay.Alloc(0, size, data));
    TraceReplay.OwnsHere(d, TraceReplay.Free(0));
    OwnedInside(heap, d);
  }

  lemma NothingLost(d: TraceReplay.Driver)
    requires d.ranges == map[]
    ensures TraceReplay.NoneLost(d)
  {
  }

  lemma OwnedInside(heap: Heap, d: TraceReplay.Driver)
    requires heap.Valid() && heap.heapStart != NULL && 0 in d.live && d.live <= d.blocks.Keys
    requires TraceReplay.NoneNull(d) && TraceReplay.Holds(heap.Blocks(), TraceReplay.LiveRegions(d))
    ensures TraceReplay.Handed(d, 0) == 2 ==> |heap.mem| > 2
  {
    hide *;
    TraceReplay.LiveKeys(d);
    TraceReplay.HandedBy(d, 0);
    TraceReplay.HoldsIndex(heap.Blocks(), TraceReplay.LiveRegions(d), 0);
    LiveInside(heap, TraceReplay.Handed(d, 0) - 1);
  }

  lemma LiveInside(heap: Heap, h: nat)
    requires heap.Valid() && heap.heapStart != NULL && h in heap.Blocks()
    ensures h + 1 < |heap.mem|
  {
    hide LiveHeap, Shape, Coalesced, ListsOk, Initialised;
    LiveBlock(heap.mem, heap.starts, h);
  }

  /** After the second request nothing is allocated, and the pointer of index 0 names the free block again. */
  lemma BlockIsFree(heap: Heap, d1: TraceReplay.Driver, d2: TraceReplay.Driver)
    requires d1.live == {0} && TraceReplay.NoneLost(d1) && d1.live <= d1.blocks.Keys && |heap.mem| > 2
    requires TraceReplay.Sound(heap, d2) && TraceReplay.ServesIn(d1, d2, TraceReplay.Free(0))
    ensures heap.Valid() && heap.heapStart != NULL && Free(heap.mem, heap.starts, 1)
  {
    hide *;
    TraceReplay.SoundLive(heap, d2);
    TraceReplay.LiveServed(d1, d2, TraceReplay.Free(0));
    TraceReplay.AllReturned(heap, d2);
  }

  /** The calls of the driver on the trace that frees a block twice, from mm_init on. */
  method FreeTwice(heap: Heap, size: nat, data: seq<nat>)
    requires heap.segList.Length == LIST_NUMBER && 2 * WSIZE + CHUNK_SIZE <= heap.maxBytes < TWO64 / 2
    requires 0 < size <= MAX_REQUEST && AdjustedSize(size) <= CHUNK_SIZE && 8 * |data| <= size
    modifies heap, heap.segList
    ensures heap.segList.Length == LIST_NUMBER && ListsLost(heap.mem, heap.segList[..])
  {
    hide *;
    var d := TraceReplay.Driver(map[], map[], {});
    heap.ResetBrk();
    var ok := heap.MmInit();
    Fresh(heap, d, size);
    var verdict, d1 := TraceReplay.ReplayAlloc(heap, d, 0, size, data);
    FirstServed(heap, d, verdict, d1, size, data);
    OneBlock(heap, d1, size, data);
    var verdict2, d2 := TraceReplay.ReplayFree(heap, d1, 0);
    TraceReplay.ServedAccepted(heap, d1, d2, TraceReplay.Free(0));
    BlockIsFree(heap, d1, d2);
    SamePointer(d1, d2);
    FreeAgain(heap, TraceReplay.Handed(d2, 0));
  }

  lemma FirstServed(heap: Heap, d: TraceReplay.Driver, verdict: TraceReplay.Verdict, d1: TraceReplay.Driver,
      size: nat, data: seq<nat>)
    requires TraceReplay.Served(heap, d, verdict, d1, TraceReplay.Alloc(0, size, data))
    requires verdict != TraceReplay.AllocationFailed
    ensures verdict == TraceReplay.Accepted && TraceReplay.Sound(heap, d1) && d1.live <= d1.blocks.Keys
    ensures TraceReplay.ServesIn(d, d1, TraceReplay.Alloc(0, size, data))
  {
    TraceReplay.ServedAccepted(heap, d, d1, TraceReplay.Alloc(0, size, data));
  }

  lemma SamePointer(d1: TraceReplay.Driver, d2: TraceReplay.Driver)
    requires d2.blocks == d1.blocks
    ensures TraceReplay.Handed(d2, 0) == TraceReplay.Handed(d1, 0)
  {
  }
}
