/** The allocator itself (mm.c): its memory, its list heads, and the operations that update them. */
module Allocator {
  import opened HeapWords
  import opened SizeClasses
  import opened HeapShape
  import opened FreeLists
  import opened Coalescing
  import opened HeapSteps
  import opened HeapTheorems
  import opened PayloadBytes
  import opened WrittenWords
  import Arithmetic

  const NULL: nat := 0
  const TWO64: nat := 0x1_0000_0000_0000_0000
  const MAX_REQUEST: nat := 0xFFFF_FFFF_FFFF_FFE8

  class Heap {
    /** mem_max_addr - mem_heap_lo() in memlib.c: the heap never holds more bytes. */
    const maxBytes: nat
    /** The words from mem_heap_lo() to the break. */
    var mem: seq<nat>
    var heapStart: nat
    const segList: array<nat>

    /** The headers, the epilogue's included, and the contents of the segregated lists. */
    ghost var starts: set<nat>
    ghost var lists: Lists
    /** The words the allocator has written since the break was last reset. */
    ghost var written: set<nat>

    ghost predicate Ready(x: nat, X: set<nat>)
      reads this`mem, this`starts, this`lists, this`written, segList
    {
      && segList.Length == LIST_NUMBER
      && Consistent(mem, starts, segList[..], lists, x, X)
      && Initialised(mem, starts, written, X)
    }

    ghost predicate Valid()
      reads this`mem, this`heapStart, this`starts, this`lists, this`written, segList
    {
      && segList.Length == LIST_NUMBER
      && 8 * |mem| <= maxBytes < TWO64 / 2
      && if heapStart == NULL
         then mem == [] && written == {} && (forall i :: 0 <= i < LIST_NUMBER ==> segList[i] == NULL)
         else heapStart == 1 && Ready(0, {})
    }

    // ----- Words

    /** A load by the allocator. In sparse mode mem_read exits at a word that has not been written. */
    function Word(w: nat): nat
      requires w < |mem| && w in written
      reads this`mem, this`written
    {
      mem[w]
    }

    /** find_next. */
    function NextBlock(block: nat): nat
      requires block < |mem| && block in written
      reads this`mem, this`written
    {
      block + Len(Word(block))
    }

    /** find_prev. */
    function PrevFooter(block: nat): int
      requires 1 <= block <= |mem| && block - 1 in written
      reads this`mem, this`written
    {
      block - Len(Word(block - 1))
    }

    lemma WordIs(w: nat)
      requires w < |mem| && w in written
      ensures Word(w) == mem[w] && (w + Len(mem[w]) == Next(mem, w) == NextBlock(w))
    {
    }

    lemma ReadyParts(x: nat, X: set<nat>)
      requires Ready(x, X)
      ensures segList.Length == LIST_NUMBER && Consistent(mem, starts, segList[..], lists, x, X)
      ensures Shape(mem, starts) && Coalesced(mem, starts, x) && ListsOk(mem, starts, segList[..], lists, X)
      ensures Initialised(mem, starts, written, X)
      ensures starts <= written && forall w :: w in written ==> w < |mem|
    {
      hide Shape, Coalesced, ListsOk, Initialised;
      WordsInside(mem, starts, written, X);
    }

    lemma ReadyFrom(x: nat, X: set<nat>)
      requires segList.Length == LIST_NUMBER && Consistent(mem, starts, segList[..], lists, x, X)
      requires Initialised(mem, starts, written, X)
      ensures Ready(x, X)
    {
    }

    /** A store by the allocator. */
    method Put(w: nat, v: nat)
      requires w < |mem|
      modifies this`mem, this`written
      ensures mem == old(mem)[w := v] && written == old(written) + {w}
    {
      mem := mem[w := v];
      written := written + {w};
    }

    method WriteHeader(block: nat, size: nat, alloc: bool, prevAlloc: bool, prevMini: bool)
      requires block < |mem|
      modifies this`mem, this`written
      ensures mem == old(mem)[block := Pack(size, alloc, prevAlloc, prevMini)]
      ensures written == old(written) + {block}
    {
      Put(block, Pack(size, alloc, prevAlloc, prevMini));
    }

    method WriteFooter(block: nat, size: nat, alloc: bool, prevAlloc: bool, prevMini: bool)
      requires block < |mem| && 1 <= Next(mem, block) <= |mem| && block in written
      modifies this`mem, this`written
      ensures mem == old(mem)[Next(old(mem), block) - 1 := Pack(size, alloc, prevAlloc, prevMini)]
      ensures written == old(written) + {Next(old(mem), block) - 1}
    {
      Put(NextBlock(block) - 1, Pack(size, alloc, prevAlloc, prevMini));
    }

    /** The header and the footer of a block that ends at `end`. */
    method WriteBoth(block: nat, size: nat, alloc: bool, prevAlloc: bool, prevMini: bool, ghost end: nat)
      requires block < end <= |mem| && size == 8 * (end - block) && size % 16 == 0
      modifies this`mem, this`written
      ensures var w := Pack(size, alloc, prevAlloc, prevMini);
        mem == old(mem)[block := w][end - 1 := w] && Len(w) == end - block
      ensures written == old(written) + {block, end - 1}
    {
      hide Len, SizeOf, Pack;
      PackExtract(size, alloc, prevAlloc, prevMini);
      WriteHeader(block, size, alloc, prevAlloc, prevMini);
      WriteFooter(block, size, alloc, prevAlloc, prevMini);
    }

    method SetNextBlockPrevAlloc(block: nat, prevAlloc: bool, prevMini: bool)
      requires block < |mem| && Next(mem, block) < |mem| && block in written && Next(mem, block) in written
      modifies this`mem, this`written
      ensures var n := Next(old(mem), block);
        mem == old(mem)[n := Pack(SizeOf(old(mem)[n]), AllocOf(old(mem)[n]), prevAlloc, prevMini)]
      ensures written == old(written)
    {
      var n := NextBlock(block);
      var size := SizeOf(Word(n));
      var alloc := AllocOf(Word(n));
      WriteHeader(n, size, alloc, prevAlloc, prevMini);
    }

    // ----- The segregated lists

    /** The search loop of delete_block: list 0 is singly linked, so it is walked from its head. */
    method PrevInMiniList(block: nat, index: nat, ghost l: seq<nat>, ghost k: int) returns (prevPoint: nat)
      requires index < segList.Length
      requires Located(mem, segList[index], l, index, k, block) && ListIn(l, index, written)
      ensures prevPoint == At(l, k - 1)
    {
      hide At;
      prevPoint := NULL;
      var temp := segList[index];
      ghost var j := 0;
      AtIs(l, -1);
      while temp != block
        invariant 0 <= j <= k && temp == l[j]
        invariant prevPoint == At(l, j - 1)
        decreases k - j
      {
        prevPoint := temp;
        AtIs(l, j);
        AtIs(l, j + 1);
        temp := Word(temp + 1);
        j := j + 1;
      }
    }

    /** The four pointer cases of delete_block, and the mini list: `block` is bypassed. */
    method Bypass(block: nat, index: nat, size: nat, ghost l: seq<nat>, ghost k: int)
      requires index < segList.Length && (index == 0 <==> size == MIN_BLOCK_SIZE)
      requires Located(mem, segList[index], l, index, k, block) && ListIn(l, index, written)
      modifies this`mem, this`written, segList
      ensures var p, q := At(l, k - 1), At(l, k + 1);
        && p + 2 < |old(mem)| && q + 2 < |old(mem)|
        && mem == Unlinked(old(mem), index, p, q)
        && segList[..] == UnlinkedHeads(old(segList[..]), index, p, q)
      ensures written == old(written)
    {
      hide At;
      LocatedEnds(mem, segList[index], l, index, k, block);
      ListNeighbours(l, index, k, written);
      hide ListIn;
      if size != MIN_BLOCK_SIZE {
        if Word(block + 2) == NULL && Word(block + 1) == NULL {
          segList[index] := NULL;
        } else if Word(block + 2) == NULL && Word(block + 1) != NULL {
          var nextBlock := Word(block + 1);
          Put(nextBlock + 2, NULL);
          segList[index] := nextBlock;
        } else if Word(block + 1) == NULL && Word(block + 2) != NULL {
          var prevBlock := Word(block + 2);
          Put(prevBlock + 1, NULL);
        } else {
          var nextBlock := Word(block + 1);
          var prevBlock := Word(block + 2);
          Put(prevBlock + 1, nextBlock);
          Put(nextBlock + 2, prevBlock);
        }
      } else {
        var prevPoint := PrevInMiniList(block, index, l, k);
        var next := Word(block + 1);
        if prevPoint != NULL {
          Put(prevPoint + 1, next);
        } else {
          segList[index] := next;
        }
      }
    }

    /** delete_block: `block` leaves its list, and no header, footer or payload changes. The test for
        NULL is left out: every caller passes a free block. */
    method DeleteBlock(block: nat, ghost X: set<nat>)
      requires segList.Length == LIST_NUMBER
      requires Shape(mem, starts) && ListsOk(mem, starts, segList[..], lists, X)
      requires Free(mem, starts, block) && block !in X && Initialised(mem, starts, written, X)
      modifies this`mem, this`written, this`lists, segList
      ensures SameBlocks(old(mem), mem, starts)
      ensures ListsOk(mem, starts, segList[..], lists, X + {block})
      ensures Initialised(mem, starts, written, X + {block})
    {
      hide Len, SizeOf, AllocOf, PrevAllocOf, PrevMiniOf, IndexOf, RoundUp, Initialised, Shape, ListsOk;
      ReadableAround(mem, starts, written, X, block);
      var size := SizeOf(Word(block));
      var index := GetIndex(RoundUp(size, DSIZE));
      hide *;
      ghost var k: int := Locate(mem, starts, segList[..], lists, X, block);
      ghost var l := lists[index];
      ReadableList(mem, starts, segList[..], lists, written, X, index);
      Unlink(mem, starts, segList[..], lists, X, index, k);
      Bypass(block, index, size, l, k);
      lists := lists[index := Drop(l, k)];
      LinksKept(old(mem), mem, starts, written, X, block);
    }

    /** insert_block: `block` becomes the first of its list (again without the test for NULL). */
    method InsertBlock(block: nat, ghost X: set<nat>)
      requires segList.Length == LIST_NUMBER
      requires Shape(mem, starts) && ListsOk(mem, starts, segList[..], lists, X)
      requires Free(mem, starts, block) && block in X && Initialised(mem, starts, written, X)
      modifies this`mem, this`written, this`lists, segList
      ensures SameBlocks(old(mem), mem, starts)
      ensures ListsOk(mem, starts, segList[..], lists, X - {block})
      ensures Initialised(mem, starts, written, X - {block})
    {
      hide Len, SizeOf, Pack, AllocOf, PrevAllocOf, PrevMiniOf, IndexOf, At, RoundUp;
      LinkHere(mem, starts, segList[..], lists, X, block);
      hide Shape, ListsOk, Initialised, Linkable;
      ReadableAround(mem, starts, written, X, block);
      var size := SizeOf(Word(block));
      var index := GetIndex(RoundUp(size, DSIZE));
      PushFree(block, index, size, X);
    }

    method PushFree(block: nat, index: nat, size: nat, ghost X: set<nat>)
      requires segList.Length == LIST_NUMBER && block < |mem| && index == IndexOf(RoundUp(SizeOf(mem[block]), DSIZE))
      requires Shape(mem, starts) && ListsOk(mem, starts, segList[..], lists, X) &&
        block in starts && size == SizeOf(mem[block])
      requires Linkable(mem, starts, segList[..], lists, X, block, index) && Initialised(mem, starts, written, X)
      modifies this`mem, this`written, this`lists, segList
      ensures SameBlocks(old(mem), mem, starts)
      ensures ListsOk(mem, starts, segList[..], lists, X - {block})
      ensures Initialised(mem, starts, written, X - {block})
    {
      hide Shape, ListsOk, Initialised, SameBlocks, Linked, SizeOf, RoundUp, IndexOf;
      FirstReadable(mem, starts, segList[..], lists, written, X, index);
      Push(block, index, size);
      lists := lists[index := [block] + lists[index]];
      LinksAdded(old(mem), mem, starts, old(written), written, X, block);
    }

    /** find_fit: the smallest free block of the whole heap that is large enough. */
    method FindFit(asize: nat) returns (block: nat)
      requires segList.Length == LIST_NUMBER && 8 * |mem| < TWO64 / 2
      requires Shape(mem, starts) && ListsOk(mem, starts, segList[..], lists, {})
      requires Initialised(mem, starts, written, {})
      ensures block == NULL ==> NoFit(mem, starts, asize)
      ensures block != NULL ==> BestFit(mem, starts, asize, block)
    {
      hide Len, SizeOf, Pack, AllocOf, PrevAllocOf, PrevMiniOf, IndexOf, At, Shape, Initialised, ListIn;
      var index := GetIndex(asize);
      NoFitBelowIndex(mem, starts, asize);
      while index < LIST_NUMBER
        invariant index <= LIST_NUMBER
        invariant NoFitBelow(mem, starts, asize, index)
      {
        ListSizes(mem, starts, segList[..], lists, index);
        ReadableList(mem, starts, segList[..], lists, written, {}, index);
        block := FindFitIn(asize, index, lists[index]);
        if block != NULL {
          BestOfList(mem, starts, lists, asize, index, block);
          return;
        }
        NoFitAbove(mem, starts, lists, asize, index);
        index := index + 1;
      }
      return NULL;
    }

    /** The inner loop of find_fit: the best fit of one list, the first of them if there are several. */
    method FindFitIn(asize: nat, index: nat, ghost l: seq<nat>) returns (bestFit: nat)
      requires index < segList.Length && 8 * |mem| < TWO64 / 2
      requires Chained(mem, segList[index], l, index) && ListIn(l, index, written)
      requires forall k :: 0 <= k < |l| ==> SizeOf(mem[l[k]]) < 8 * |mem| && !AllocOf(mem[l[k]])
      ensures bestFit == NULL ==> forall k :: 0 <= k < |l| ==> SizeOf(mem[l[k]]) < asize
      ensures bestFit != NULL ==> bestFit in l && SizeOf(mem[bestFit]) >= asize
      ensures bestFit != NULL ==>
        forall k :: 0 <= k < |l| && SizeOf(mem[l[k]]) >= asize ==> SizeOf(mem[bestFit]) <= SizeOf(mem[l[k]])
    {
      hide SizeOf, AllocOf, At;
      bestFit := NULL;
      var bestFitNum: nat := TWO64 - 1;
      var block := segList[index];
      ghost var j := 0;
      AtIs(l, 0);
      while block != NULL
        invariant 0 <= j <= |l| && block == At(l, j)
        invariant block != NULL ==> j < |l|
        invariant block == NULL ==> j == |l|
        invariant bestFit == NULL ==> bestFitNum == TWO64 - 1
        invariant bestFit == NULL ==> forall k :: 0 <= k < j ==> SizeOf(mem[l[k]]) < asize
        invariant bestFit != NULL ==> bestFit in l && SizeOf(mem[bestFit]) == asize + bestFitNum
        invariant bestFit != NULL ==>
          forall k :: 0 <= k < j && SizeOf(mem[l[k]]) >= asize ==> SizeOf(mem[bestFit]) <= SizeOf(mem[l[k]])
        decreases |l| - j
      {
        AtIs(l, j);
        AtIs(l, j + 1);
        if !AllocOf(Word(block)) && asize <= SizeOf(Word(block)) {
          var diff := SizeOf(Word(block)) - asize;
          if diff == 0 {
            return block;
          }
          if diff < bestFitNum {
            bestFitNum := diff;
            bestFit := block;
          }
        }
        block := Word(block + 1);
        j := j + 1;
      }
    }

    /** The pointer updates of insert_block. */
    method Push(block: nat, index: nat, size: nat)
      requires index < segList.Length && (index == 0 <==> size == MIN_BLOCK_SIZE)
      requires block + 2 < |mem| && segList[index] + 2 < |mem|
      requires segList[index] != NULL && index != 0 ==> segList[index] + 2 in written
      modifies this`mem, this`written, segList
      ensures mem == Linked(old(mem), index, block, old(segList[index]))
      ensures segList[..] == old(segList[..])[index := block]
      ensures written == old(written) + {block + 1} + if index != 0 then {block + 2} else {}
    {
      if segList[index] == NULL {
        segList[index] := block;
        if size != MIN_BLOCK_SIZE {
          Put(block + 2, NULL);
        }
        Put(block + 1, NULL);
      } else {
        var firstBlock := segList[index];
        Put(block + 1, firstBlock);
        if size != MIN_BLOCK_SIZE {
          Put(block + 2, NULL);
          Put(firstBlock + 2, block);
        }
        segList[index] := block;
      }
    }

    // ----- Coalescing

    /** The common tail of cases 2 to 4 of coalesce_block: the run of unlisted free blocks from `a` to
        `n` becomes one block and is listed. `last` is the block whose successor is updated. */
    method MergeRun(a: nat, last: nat, size: nat, prevMini: bool, ghost n: nat, ghost x: nat, ghost X: set<nat>)
      requires Ready(x, X)
      requires Mergeable(mem, starts, a, n, x, X)
      requires size == 8 * (n - a)
      requires last == a || (a < last < |mem| && last + 2 <= n == Next(mem, last) && last in starts)
      modifies this`mem, this`written, this`starts, this`lists, segList
      ensures Ready(0, {})
      ensures |mem| == |old(mem)| && LiveHeap(mem, starts) == old(LiveHeap(mem, starts))
      ensures Free(mem, starts, a) && Next(mem, a) == n
    {
      hide *;
      ReadyParts(x, X);
      MergeableParts(mem, starts, a, n, x, X);
      MergeStep(mem, starts, segList[..], lists, x, X, a, n, prevMini);
      MergeWritten(mem, starts, written, X, a, n, prevMini);
      WriteMerged(a, last, size, prevMini, n);
      starts := Without(starts, a, n);
      ReadyFrom(0, {a});
      FreeHeader(mem, starts, a);
      ghost var m2 := mem;
      ListUnlisted(a, 0);
      ReadyParts(0, {});
      SameContents(m2, mem, starts);
    }

    /** insert_block, for the one block that is not listed. */
    method ListUnlisted(block: nat, ghost x: nat)
      requires Ready(x, {block}) && Free(mem, starts, block)
      modifies this`mem, this`written, this`lists, segList
      ensures Ready(x, {})
      ensures SameBlocks(old(mem), mem, starts)
      ensures forall h :: h in starts ==> Next(mem, h) == Next(old(mem), h)
      ensures Free(mem, starts, block)
    {
      hide Len, AllocOf, LiveHeap, ListsOk, Coalesced, Initialised;
      InsertBlock(block, {block});
      assert {block} - {block} == {};
      LinkStep(old(mem), mem, starts, segList[..], lists, x, {});
    }

    method WriteMerged(a: nat, last: nat, size: nat, prevMini: bool, ghost n: nat)
      requires a + 4 <= n < |mem| && size == 8 * (n - a) && (n - a) % 2 == 0
      requires last == a || (a < last < |mem| && last + 2 <= n == Next(mem, last) && last in written)
      requires n in written
      modifies this`mem, this`written
      ensures mem == Merged(old(mem), a, n, prevMini) && written == old(written) + {a, n - 1}
    {
      hide Len, SizeOf, Pack, AllocOf, PrevAllocOf, PrevMiniOf;
      PackExtract(size, false, true, prevMini);
      WriteHeader(a, size, false, true, prevMini);
      WriteFooter(a, size, false, true, prevMini);
      SetNextBlockPrevAlloc(last, false, false);
    }

    /** delete_block, as a step on the whole heap. */
    method Unlist(block: nat, ghost x: nat, ghost X: set<nat>)
      requires Ready(x, X) && Free(mem, starts, block) && block !in X
      modifies this`mem, this`written, this`lists, segList
      ensures Ready(x, X + {block})
      ensures |mem| == |old(mem)| && forall h :: h in starts ==> h < |mem| && mem[h] == old(mem)[h]
      ensures LiveHeap(mem, starts) == old(LiveHeap(mem, starts))
    {
      hide Len, AllocOf, LiveHeap, ListsOk, Coalesced, Initialised;
      DeleteBlock(block, X);
      LinkStep(old(mem), mem, starts, segList[..], lists, x, X + {block});
    }

    /** coalesce_block, with its four cases. */
    method CoalesceBlock(block: nat) returns (r: nat)
      requires Ready(block, {block}) && Free(mem, starts, block)
      modifies this`mem, this`written, this`starts, this`lists, segList
      ensures Ready(0, {}) && Free(mem, starts, r)
      ensures |mem| == |old(mem)| && LiveHeap(mem, starts) == old(LiveHeap(mem, starts))
      ensures r <= block < old(Next(mem, block)) <= Next(mem, r)
    {
      hide Len, SizeOf, Pack, AllocOf, PrevAllocOf, PrevMiniOf, Initialised;
      assert BlockOk(mem, starts, block);
      ReadableAround(mem, starts, written, {block}, block);
      var next := NextBlock(block);
      var prev := PrevFooter(block);
      if PrevMiniOf(Word(block)) {
        prev := FindPrevMini(block);
      }
      var prevAlloc := PrevAllocOf(Word(block));
      var nextAlloc := AllocOf(Word(next));
      hide Shape, Coalesced, ListsOk, LiveHeap, BlockOk;
      if nextAlloc && prevAlloc {
        CoalesceNone(block);
        r := block;
      } else if prevAlloc && !nextAlloc {
        CoalesceNext(block, next);
        r := block;
      } else if !prevAlloc && nextAlloc {
        r := CoalescePrev(block, prev);
      } else {
        r := CoalesceBoth(block, prev, next);
      }
    }

    method CoalesceNone(block: nat)
      requires Ready(block, {block}) && Free(mem, starts, block)
      requires PrevAllocOf(mem[block]) && Next(mem, block) < |mem| && AllocOf(mem[Next(mem, block)])
      modifies this`mem, this`written, this`starts, this`lists, segList
      ensures Ready(0, {}) && Free(mem, starts, block)
      ensures |mem| == |old(mem)| && LiveHeap(mem, starts) == old(LiveHeap(mem, starts))
      ensures Next(mem, block) == Next(old(mem), block)
    {
      hide Len, Pack, AllocOf, PrevAllocOf, PrevMiniOf, SizeOf, Initialised;
      RefreshStep(mem, starts, segList[..], lists, block);
      RefreshWritten(mem, starts, written, segList[..], lists, block);
      ReadableAround(mem, starts, written, {block}, block);
      SizeIsLen(mem[block]);
      hide Shape, Coalesced, ListsOk, LiveHeap;
      if SizeOf(Word(block)) == MIN_BLOCK_SIZE {
        SetNextBlockPrevAlloc(block, false, true);
      } else {
        SetNextBlockPrevAlloc(block, false, false);
      }
      ListUnlisted(block, 0);
    }

    method CoalesceNext(block: nat, next: nat)
      requires Ready(block, {block}) && Free(mem, starts, block)
      requires PrevAllocOf(mem[block]) && next == Next(mem, block) < |mem| && !AllocOf(mem[next])
      modifies this`mem, this`written, this`starts, this`lists, segList
      ensures Ready(0, {}) && Free(mem, starts, block)
      ensures |mem| == |old(mem)| && LiveHeap(mem, starts) == old(LiveHeap(mem, starts))
      ensures next <= Next(mem, block)
    {
      hide *;
      ReadyParts(block, {block});
      NextFree(mem, starts, block);
      FreeHeader(mem, starts, block);
      FreeHeader(mem, starts, next);
      WordIs(block);
      var size := SizeOf(Word(block));
      ghost var n := Next(mem, next);
      ghost var m := mem;
      Unlist(next, block, {block});
      ReadyParts(block, {block} + {next});
      MergeableFrame(m, mem, starts, block, n, block, {block} + {next});
      WordIs(next);
      size := size + SizeOf(Word(next));
      var prevMini := PrevMiniOf(Word(block));
      MergeRun(block, block, size, prevMini, n, block, {block} + {next});
    }

    method CoalescePrev(block: nat, prevBlock: int) returns (r: nat)
      requires Ready(block, {block}) && Free(mem, starts, block) && prevBlock == PrevBlock(mem, block)
      requires !PrevAllocOf(mem[block]) && Next(mem, block) < |mem| && AllocOf(mem[Next(mem, block)])
      modifies this`mem, this`written, this`starts, this`lists, segList
      ensures Ready(0, {}) && Free(mem, starts, r)
      ensures |mem| == |old(mem)| && LiveHeap(mem, starts) == old(LiveHeap(mem, starts))
      ensures r <= block && Next(old(mem), block) <= Next(mem, r)
    {
      hide *;
      ReadyParts(block, {block});
      PrevFree(mem, starts, block);
      var prev: nat := prevBlock;
      FreeHeader(mem, starts, block);
      FreeHeader(mem, starts, prev);
      WordIs(block);
      var size := SizeOf(Word(block));
      ghost var n := Next(mem, block);
      ghost var m := mem;
      Unlist(prev, block, {block});
      ReadyParts(block, {block} + {prev});
      MergeableFrame(m, mem, starts, prev, n, block, {block} + {prev});
      NextFrame(m, mem, block);
      WordIs(prev);
      size := size + SizeOf(Word(prev));
      var prevMini := PrevMiniOf(Word(block));
      MergeRun(prev, block, size, prevMini, n, block, {block} + {prev});
      r := prev;
    }

    method UnlistBoth(prev: nat, next: nat, ghost block: nat)
      requires Ready(block, {block}) && prev < block < next
      requires Free(mem, starts, prev) && Free(mem, starts, next)
      modifies this`mem, this`written, this`lists, segList
      ensures Ready(block, {block} + {prev} + {next})
      ensures |mem| == |old(mem)| && forall h :: h in starts ==> h < |mem| && mem[h] == old(mem)[h]
      ensures LiveHeap(mem, starts) == old(LiveHeap(mem, starts))
    {
      hide AllocOf, Shape, Coalesced, ListsOk, LiveHeap, Initialised;
      Unlist(prev, block, {block});
      Unlist(next, block, {block} + {prev});
    }

    method CoalesceBoth(block: nat, prevBlock: int, next: nat) returns (r: nat)
      requires Ready(block, {block}) && Free(mem, starts, block) && prevBlock == PrevBlock(mem, block)
      requires !PrevAllocOf(mem[block]) && next == Next(mem, block) < |mem| && !AllocOf(mem[next])
      modifies this`mem, this`written, this`starts, this`lists, segList
      ensures Ready(0, {}) && Free(mem, starts, r)
      ensures |mem| == |old(mem)| && LiveHeap(mem, starts) == old(LiveHeap(mem, starts))
      ensures r <= block && next <= Next(mem, r)
    {
      hide *;
      ReadyParts(block, {block});
      BothFree(mem, starts, block);
      var prev: nat := prevBlock;
      FreeHeader(mem, starts, block);
      FreeHeader(mem, starts, prev);
      FreeHeader(mem, starts, next);
      WordIs(block);
      var size := SizeOf(Word(block));
      ghost var n := Next(mem, next);
      ghost var m := mem;
      UnlistBoth(prev, next, block);
      ReadyParts(block, {block} + {prev} + {next});
      MergeableFrame(m, mem, starts, prev, n, block, {block} + {prev} + {next});
      WordIs(prev);
      WordIs(next);
      size := size + SizeOf(Word(prev));
      size := size + SizeOf(Word(next));
      var prevMini := PrevMiniOf(Word(prev));
      MergeRun(prev, prev, size, prevMini, n, block, {block} + {prev} + {next});
      r := prev;
    }

    // ----- Growing the heap

    /** mem_sbrk refuses a request that is negative as an intptr_t, and one beyond the end of the arena. */
    ghost predicate SbrkFails(incr: nat)
      reads this`mem
    {
      incr >= TWO64 / 2 || 8 * |mem| + incr > maxBytes
    }

    /** mem_sbrk (memlib.c); the new words hold whatever was there. */
    method MemSbrk(incr: nat) returns (start: int)
      requires incr % 8 == 0
      modifies this`mem
      ensures start == -1 <==> old(SbrkFails(incr))
      ensures start == -1 ==> mem == old(mem)
      ensures start != -1 ==>
        start == |old(mem)| && 8 * |mem| == 8 * start + incr <= maxBytes && mem[..start] == old(mem)
    {
      if incr >= TWO64 / 2 || 8 * |mem| + incr > maxBytes {
        return -1;
      }
      start := |mem|;
      assert |seq(incr / 8, i => 0)| == incr / 8;
      var grown: seq<nat> :| |grown| == incr / 8;
      mem := mem + grown;
    }

    /** mem_reset_brk (memlib.c): the heap is empty again, whatever mm.c remembers of it. */
    method ResetBrk()
      modifies this`mem, this`written
      ensures mem == [] && written == {}
    {
      mem := [];
      written := {};
    }

    /** extend_heap. */
    method ExtendHeap(size: nat) returns (r: nat)
      requires Ready(0, {}) && 32 <= size <= TWO64 - 16 && maxBytes < TWO64 / 2
      modifies this`mem, this`written, this`starts, this`lists, segList
      ensures r == NULL <==> old(SbrkFails(RoundUp(size, DSIZE)))
      ensures r == NULL ==> mem == old(mem) && starts == old(starts) && Ready(0, {})
      ensures r != NULL ==> Ready(0, {}) && Free(mem, starts, r) && SizeOf(mem[r]) >= size
      ensures r != NULL ==> 8 * |mem| == 8 * |old(mem)| + RoundUp(size, DSIZE) <= maxBytes
      ensures r != NULL ==> LiveHeap(mem, starts) == old(LiveHeap(mem, starts))
    {
      hide *;
      Rounding(size);
      ReadyParts(0, {});
      EpilogueWritten(mem, starts, written);
      ghost var m := mem;
      var rounded := RoundUp(size, DSIZE);
      r := NULL;
      var bp := MemSbrk(rounded);
      if bp != -1 {
        Suffix(m, mem, rounded);
        r := UseGrown(bp - 1, rounded, m, mem[|m|..]);
      }
    }

    /** The new words become a free block, which is coalesced with the last one if that is free. */
    method UseGrown(block: nat, bytes: nat, ghost m: seq<nat>, ghost grown: seq<nat>) returns (r: nat)
      requires segList.Length == LIST_NUMBER && |m| >= 2 && block == |m| - 1 && mem == m + grown
      requires Consistent(m, starts, segList[..], lists, 0, {}) && Initialised(m, starts, written, {})
      requires block in written && bytes % 16 == 0 && 32 <= bytes == 8 * |grown|
      modifies this`mem, this`written, this`starts, this`lists, segList
      ensures Ready(0, {}) && Free(mem, starts, r) && SizeOf(mem[r]) >= bytes && r >= 1
      ensures |mem| == |m| + |grown| && Shape(m, old(starts)) && LiveHeap(mem, starts) == LiveHeap(m, old(starts))
    {
      hide *;
      EvenWords(|grown|, bytes);
      ExtendStep(m, starts, segList[..], lists, grown);
      ConsistentParts(m, starts, segList[..], lists, 0, {});
      ExtendWritten(m, starts, written, grown);
      WriteExtended(block, bytes, m, grown);
      starts := With(starts, block + |grown|);
      ReadyFrom(block, {block});
      r := CoalesceBlock(block);
      ReadyParts(0, {});
      ReachesTo(mem, starts, r, block, bytes);
    }

    method WriteExtended(block: nat, size: nat, ghost m: seq<nat>, ghost grown: seq<nat>)
      requires |m| >= 1 && mem == m + grown && |grown| >= 4 && |grown| % 2 == 0
      requires block == |m| - 1 && size == 8 * |grown| && block in written
      modifies this`mem, this`written
      ensures mem == Extended(m, grown) && written == old(written) + {block, block + |grown| - 1, block + |grown|}
    {
      hide Len, SizeOf, Pack, AllocOf, PrevAllocOf, PrevMiniOf;
      var prevAlloc := PrevAllocOf(Word(block));
      var prevMini := PrevMiniOf(Word(block));
      PackExtract(size, false, prevAlloc, prevMini);
      WriteHeader(block, size, false, prevAlloc, prevMini);
      WriteFooter(block, size, false, prevAlloc, prevMini);
      var nextBlock := NextBlock(block);
      WriteHeader(nextBlock, 0, true, false, false);
    }

    // ----- Placing a block

    /** split_block: the front of the free block is allocated, and the rest, if any, stays free. */
    method SplitBlock(block: nat, asize: nat)
      requires Ready(0, {}) && Free(mem, starts, block)
      requires asize % 16 == 0 && MIN_BLOCK_SIZE <= asize <= SizeOf(mem[block])
      modifies this`mem, this`written, this`starts, this`lists, segList
      ensures Ready(0, {}) && |mem| == |old(mem)|
      ensures PlacedIn(old(mem), old(starts), mem, starts, block, asize - WSIZE)
    {
      hide Len, Pack, AllocOf, PrevAllocOf, PrevMiniOf, LiveHeap, ListsOk, Coalesced, Shape, SizeOf, Initialised;
      WordsInside(mem, starts, written, {});
      var blockSize := SizeOf(Word(block));
      SizeIsLen(mem[block]);
      Unlist(block, 0, {});
      assert {} + {block} == {block};
      ghost var m := mem;
      if blockSize - asize >= MIN_BLOCK_SIZE {
        SplitOff(block, asize, blockSize);
      } else {
        MultiplesOf16(asize, blockSize);
        TakeWhole(block, blockSize);
      }
    }

    method SplitOff(block: nat, asize: nat, blockSize: nat)
      requires Ready(0, {block}) && Free(mem, starts, block)
      requires blockSize == SizeOf(mem[block]) && asize % 16 == 0
      requires MIN_BLOCK_SIZE <= asize <= blockSize - MIN_BLOCK_SIZE
      modifies this`mem, this`written, this`starts, this`lists, segList
      ensures Ready(0, {}) && |mem| == |old(mem)|
      ensures PlacedIn(old(mem), old(starts), mem, starts, block, asize - WSIZE)
    {
      hide Len, Pack, AllocOf, PrevAllocOf, PrevMiniOf, LiveHeap, ListsOk, Coalesced, SizeOf, Shape;
      hide PlacedIn, With, Initialised;
      WordsInside(mem, starts, written, {block});
      var prevMini := PrevMiniOf(Word(block));
      ghost var n, k := Next(mem, block), block + asize / 8;
      Words(asize);
      CarvePlaces(mem, starts, segList[..], lists, block, k, prevMini, asize);
      CarvePlacesWritten(mem, starts, segList[..], lists, written, block, k, prevMini, asize);
      var nextBlock := WriteCarved(block, asize, blockSize, prevMini, k, n);
      hide Carved;
      starts := With(starts, k);
      ghost var m := mem;
      ListUnlisted(nextBlock, 0);
      PlacedLater(old(mem), old(starts), m, starts, mem, block, asize - WSIZE);
    }

    method WriteCarved(block: nat, asize: nat, blockSize: nat, prevMini: bool, ghost k: nat, ghost n: nat)
      returns (nextBlock: nat)
      requires asize == 8 * (k - block) && blockSize == 8 * (n - block) && n < |mem|
      requires asize % 16 == 0 && blockSize % 16 == 0 && MIN_BLOCK_SIZE <= asize <= blockSize - MIN_BLOCK_SIZE
      requires n in written
      modifies this`mem, this`written
      ensures mem == Carved(old(mem), block, k, n, prevMini) && nextBlock == k
      ensures written == old(written) + {block, k - 1, k, n - 1}
    {
      hide Len, SizeOf, Pack, AllocOf, PrevAllocOf, PrevMiniOf;
      Arithmetic.Difference(blockSize, asize, 16);
      WriteBoth(block, asize, true, true, prevMini, k);
      var nextPrevMini := blockSize == MIN_BLOCK_SIZE;
      nextBlock := NextBlock(block);
      WriteBoth(nextBlock, blockSize - asize, false, true, nextPrevMini, n);
      var nextNextPrevMini := blockSize - asize == MIN_BLOCK_SIZE;
      SetNextBlockPrevAlloc(nextBlock, false, nextNextPrevMini);
    }

    method TakeWhole(block: nat, blockSize: nat)
      requires Ready(0, {block}) && Free(mem, starts, block) && blockSize == SizeOf(mem[block])
      modifies this`mem, this`written
      ensures Ready(0, {}) && |mem| == |old(mem)|
      ensures PlacedIn(old(mem), starts, mem, starts, block, blockSize - WSIZE)
    {
      hide Len, Pack, AllocOf, PrevAllocOf, PrevMiniOf, LiveHeap,
        ListsOk, Coalesced, SizeOf, Shape, PlacedIn, Initialised;
      ReadableAround(mem, starts, written, {block}, block);
      var prevMini := PrevMiniOf(Word(block));
      TakePlaces(mem, starts, segList[..], lists, block, prevMini);
      TakePlacesWritten(mem, starts, segList[..], lists, written, block, prevMini);
      WriteTaken(block, blockSize, prevMini, Next(mem, block));
    }

    method WriteTaken(block: nat, blockSize: nat, prevMini: bool, ghost n: nat)
      requires blockSize == 8 * (n - block) && blockSize % 16 == 0 && block < n < |mem| && n in written
      modifies this`mem, this`written
      ensures mem == Taken(old(mem), block, n, prevMini) && written == old(written) + {block}
    {
      hide Len, SizeOf, Pack, AllocOf, PrevAllocOf, PrevMiniOf;
      PackExtract(blockSize, true, true, prevMini);
      WriteHeader(block, blockSize, true, true, prevMini);
      var nextBlock := NextBlock(block);
      var tempMini := PrevMiniOf(Word(nextBlock));
      SetNextBlockPrevAlloc(block, true, tempMini);
    }

    // ----- The operations of the client

    /** The state before the first call: static storage is zero. */
    constructor (maxBytes: nat)
      requires maxBytes < TWO64 / 2
      ensures Valid() && fresh(segList) && this.maxBytes == maxBytes
      ensures heapStart == NULL && Blocks() == map[]
    {
      this.maxBytes := maxBytes;
      mem := [];
      heapStart := NULL;
      segList := new nat[LIST_NUMBER](i => NULL);
      starts := {};
      written := {};
      lists := seq(LIST_NUMBER, i => []);
    }

    /** The allocated blocks, by header, with their payloads. */
    ghost function Blocks(): map<nat, seq<nat>>
      requires Valid()
      reads this`mem, this`heapStart, this`starts, this`lists, this`written, segList
    {
      if heapStart == NULL then map[] else LiveHeap(mem, starts)
    }

    /** A heap in use. */
    lemma Unfold()
      requires Valid() && Blocks() != map[]
      ensures Ready(0, {}) && heapStart == 1 && 8 * |mem| <= maxBytes < TWO64 / 2 && Blocks() == LiveHeap(mem, starts)
    {
    }

    lemma UnfoldStarted()
      requires Valid() && heapStart != NULL
      ensures Ready(0, {}) && heapStart == 1 && 8 * |mem| <= maxBytes < TWO64 / 2 && Blocks() == LiveHeap(mem, starts)
    {
    }

    lemma Fold()
      requires Ready(0, {}) && heapStart == 1 && 8 * |mem| <= maxBytes < TWO64 / 2
      ensures Valid() && Blocks() == LiveHeap(mem, starts)
    {
    }

    /** The prologue, the epilogue and empty lists. */
    method PutBounds()
      requires segList.Length == LIST_NUMBER && |mem| == 2 && written == {}
      modifies this`mem, this`written, this`heapStart, this`starts, this`lists, segList
      ensures Ready(0, {}) && heapStart == 1 && |mem| == 2 && LiveHeap(mem, starts) == map[]
    {
      hide Consistent, LiveHeap, Initialised, Pack;
      Put(0, Pack(0, true, true, false));
      Put(1, Pack(0, true, true, false));
      heapStart := 1;
      for i := 0 to LIST_NUMBER
        invariant forall j :: 0 <= j < i ==> segList[j] == NULL
        modifies segList
      {
        segList[i] := NULL;
      }
      starts := {1};
      lists := seq(LIST_NUMBER, i => []);
      EmptyHeap(mem, segList[..], lists);
      assert written == {0, 1};
    }

    /** mm_init, on an empty heap. */
    method MmInit() returns (ok: bool)
      requires segList.Length == LIST_NUMBER && mem == [] && written == {} && maxBytes < TWO64 / 2
      modifies this, segList
      ensures ok <==> maxBytes >= 2 * WSIZE + CHUNK_SIZE
      ensures maxBytes < 2 * WSIZE ==>
        mem == [] && written == {} && heapStart == old(heapStart) && segList[..] == old(segList[..])
      ensures maxBytes >= 2 * WSIZE ==> Valid() && heapStart != NULL && Blocks() == map[]
      ensures maxBytes >= 2 * WSIZE ==> 8 * |mem| == 2 * WSIZE + if ok then CHUNK_SIZE else 0
    {
      var start := MemSbrk(2 * WSIZE);
      if start == -1 {
        return false;
      }
      PutBounds();
      hide Consistent, LiveHeap, Initialised;
      var r := ExtendHeap(CHUNK_SIZE);
      ok := r != NULL;
    }

    /** malloc. The request is bounded by what `size + wsize` rounds up to without wrapping around. */
    method MmMalloc(size: nat) returns (p: nat)
      requires Valid() && size <= MAX_REQUEST
      modifies this, segList
      ensures Valid() && Allocated(old(Blocks()), Blocks(), size, p)
      ensures old(heapStart) != NULL ==> heapStart == old(heapStart) && old(NullWhen(size)) == (p == NULL)
      ensures old(heapStart) != NULL && p == NULL ==> mem == old(mem) && starts == old(starts)
      ensures old(heapStart) == NULL ==> (p == NULL <==> size == 0 || FirstNeed(size) > maxBytes)
      ensures old(heapStart) != NULL && p != NULL ==>
        if old(NoFit(mem, starts, AdjustedSize(size)))
        then 8 * |mem| == 8 * |old(mem)| + Max(AdjustedSize(size), CHUNK_SIZE)
        else |mem| == |old(mem)| && old(BestFit(mem, starts, AdjustedSize(size), p - 1))
    {
      hide *;
      if heapStart == NULL {
        p := MallocFirst(size);
      } else {
        p := MallocLater(size);
      }
    }

    /** malloc returns NULL exactly for an empty request, and when no free block fits and the heap cannot grow. */
    ghost predicate NullWhen(size: nat)
      reads this`mem, this`starts
    {
      size == 0 || (NoFit(mem, starts, AdjustedSize(size)) && SbrkFails(Max(AdjustedSize(size), CHUNK_SIZE)))
    }

    /** The first call initialises the heap. When mem_sbrk refuses even its first 16 bytes, every list is
        still empty and extend_heap fails on the same limit. */
    method MallocFirst(size: nat) returns (p: nat)
      requires Valid() && heapStart == NULL && size <= MAX_REQUEST
      modifies this, segList
      ensures Valid() && Allocated(old(Blocks()), Blocks(), size, p)
      ensures p == NULL <==> size == 0 || FirstNeed(size) > maxBytes
    {
      AllocatedNone(Blocks(), size);
      AdjustedSizeExact(size);
      hide Consistent, LiveHeap, Allocated, NoFit, BestFit, AdjustedSize;
      p := NULL;
      var ok := MmInit();
      if heapStart != NULL {
        FreshFit(mem, starts, segList[..], lists, AdjustedSize(size));
        p := MallocLater(size);
      }
    }

    method MallocLater(size: nat) returns (p: nat)
      requires Valid() && heapStart != NULL && size <= MAX_REQUEST
      modifies this`mem, this`written, this`starts, this`lists, segList
      ensures Valid() && Allocated(old(Blocks()), Blocks(), size, p) && old(NullWhen(size)) == (p == NULL)
      ensures p == NULL ==> mem == old(mem) && starts == old(starts)
      ensures p != NULL ==>
        if old(NoFit(mem, starts, AdjustedSize(size)))
        then 8 * |mem| == 8 * |old(mem)| + Max(AdjustedSize(size), CHUNK_SIZE)
        else |mem| == |old(mem)| && old(BestFit(mem, starts, AdjustedSize(size), p - 1))
    {
      hide *;
      AllocatedNone(Blocks(), size);
      NullWhenIs(size);
      p := 0;
      if size != 0 {
        p := Allocate(size);
      }
      assert NULL == 0;
    }

    lemma NullIsZero()
      ensures NULL == 0
    {
    }

    lemma NullWhenIs(size: nat)
      ensures NULL == 0
      ensures NullWhen(size) <==>
                size == 0 || (NoFit(mem, starts, AdjustedSize(size)) && SbrkFails(Max(AdjustedSize(size), CHUNK_SIZE)))
    {
    }

    method Allocate(size: nat) returns (p: nat)
      requires Valid() && heapStart != NULL && 0 < size <= MAX_REQUEST
      modifies this`mem, this`written, this`starts, this`lists, segList
      ensures Valid() && Allocated(old(Blocks()), Blocks(), size, p)
      ensures p == NULL <==> old(NoFit(mem, starts, AdjustedSize(size)))
                             && old(SbrkFails(Max(AdjustedSize(size), CHUNK_SIZE)))
      ensures p == NULL ==> mem == old(mem) && starts == old(starts)
      ensures p != NULL ==>
        if old(NoFit(mem, starts, AdjustedSize(size)))
        then 8 * |mem| == 8 * |old(mem)| + Max(AdjustedSize(size), CHUNK_SIZE)
        else |mem| == |old(mem)| && old(BestFit(mem, starts, AdjustedSize(size), p - 1))
    {
      hide *;
      NullIsZero();
      AdjustedSizeFits(size);
      UnfoldStarted();
      var asize := AdjustedSize(size);
      var block := Place(asize);
      Fold();
      PlacedAllocated(old(Blocks()), Blocks(), size, block);
      p := if block == NULL then NULL else block + 1;
    }

    /** The body of malloc after the adjustment of the size. */
    method Place(asize: nat) returns (block: nat)
      requires Ready(0, {}) && asize % 16 == 0 && MIN_BLOCK_SIZE <= asize <= TWO64 - 16
      requires 8 * |mem| <= maxBytes < TWO64 / 2
      modifies this`mem, this`written, this`starts, this`lists, segList
      ensures Ready(0, {}) && 8 * |mem| <= maxBytes
      ensures Placed(old(LiveHeap(mem, starts)), LiveHeap(mem, starts), asize, block)
      ensures block == NULL <==> old(NoFit(mem, starts, asize)) && old(SbrkFails(Max(asize, CHUNK_SIZE)))
      ensures block == NULL ==> mem == old(mem) && starts == old(starts)
      ensures block != NULL ==>
        if old(NoFit(mem, starts, asize))
        then 8 * |mem| == 8 * |old(mem)| + Max(asize, CHUNK_SIZE)
        else |mem| == |old(mem)| && old(BestFit(mem, starts, asize, block))
    {
      hide Len, Pack, AllocOf, PrevAllocOf, PrevMiniOf, SizeOf, Coalesced, ListsOk, LiveHeap, NoFit, Initialised;
      block := FindFit(asize);
      FitOrNot(mem, starts, asize, block);
      if block == NULL {
        var extendSize := Max(asize, CHUNK_SIZE);
        RoundUpBound(extendSize);
        block := ExtendHeap(extendSize);
        if block == NULL {
          return NULL;
        }
      }
      NotLive(mem, starts, block);
      hide Shape, BestFit;
      SplitBlock(block, asize);
    }

    /** free. */
    method MmFree(p: nat)
      requires Valid() && (p == NULL || p - 1 in Blocks())
      modifies this`mem, this`written, this`starts, this`lists, segList
      ensures Valid() && |mem| == |old(mem)|
      ensures Blocks() == if p == NULL then old(Blocks()) else old(Blocks()) - {p - 1}
    {
      hide *;
      if p != NULL {
        Unfold();
        FreeBlock(p - 1);
        Fold();
      }
    }

    method FreeBlock(block: nat)
      requires Ready(0, {}) && block in LiveHeap(mem, starts)
      modifies this`mem, this`written, this`starts, this`lists, segList
      ensures Ready(0, {}) && |mem| == |old(mem)|
      ensures LiveHeap(mem, starts) == old(LiveHeap(mem, starts)) - {block}
    {
      hide Len, Pack, AllocOf, PrevAllocOf, PrevMiniOf, SizeOf, Initialised;
      LiveBlock(mem, starts, block);
      ReleaseStep(mem, starts, segList[..], lists, block);
      ReleaseWritten(mem, starts, written, block);
      ReadableAround(mem, starts, written, {}, block);
      LastOf(mem, starts, written, {}, block);
      hide Consistent, LiveHeap, Live;
      var size := SizeOf(Word(block));
      WriteFreed(block, size, Next(mem, block));
      assert |mem| == |old(mem)|;
      hide Freed;
      var r := CoalesceBlock(block);
    }

    method WriteFreed(block: nat, size: nat, ghost n: nat)
      requires block + 2 <= n < |mem| && n == Next(mem, block) && size == SizeOf(mem[block]) == 8 * (n - block)
      requires block in written && n in written && n - 1 in written
      modifies this`mem, this`written
      ensures mem == Freed(old(mem), block, n) && written == old(written) + {block, n - 1}
    {
      hide Len, Pack, AllocOf, PrevAllocOf, PrevMiniOf, SizeOf;
      SizeIsLen(mem[block]);
      var prevAlloc := PrevAllocOf(Word(block));
      var prevMini := PrevMiniOf(Word(block));
      PackExtract(size, false, prevAlloc, prevMini);
      WriteHeader(block, size, false, prevAlloc, prevMini);
      if size != MIN_BLOCK_SIZE {
        WriteFooter(block, size, false, prevAlloc, prevMini);
        SetNextBlockPrevAlloc(block, false, false);
      } else {
        SetNextBlockPrevAlloc(block, false, true);
      }
    }

    /** The client writes word `k` of a payload it owns. */
    method Store(p: nat, k: nat, v: nat)
      requires Valid() && p - 1 in Blocks() && k < |Blocks()[p - 1]|
      modifies this`mem
      ensures Valid() && |mem| == |old(mem)|
      ensures Blocks() == Stored(old(Blocks()), p - 1, k, v)
    {
      hide *;
      Unfold();
      StoreWord(p, k, v, Blocks());
      Fold();
    }

    /** The client reads word `k` of a payload it owns. */
    method Load(p: nat, k: nat) returns (v: nat)
      requires Valid() && p - 1 in Blocks() && k < |Blocks()[p - 1]|
      ensures v == Blocks()[p - 1][k]
    {
      hide *;
      Unfold();
      v := LoadWord(p, k, Blocks());
    }

    /** mem_memcpy (memlib.c) between two payloads; `b` is the heap before. */
    method Memcpy(dst: nat, src: nat, n: nat, ghost b: map<nat, seq<nat>>)
      requires Ready(0, {}) && LiveHeap(mem, starts) == b
      requires dst - 1 in b && src - 1 in b && dst != src && n <= 8 * |b[dst - 1]| && n <= 8 * |b[src - 1]|
      modifies this`mem
      ensures Ready(0, {}) && |mem| == |old(mem)|
      ensures LiveHeap(mem, starts) == Overwritten(b, dst - 1, src - 1, n)
    {
      hide LiveHeap, Consistent, Initialised, Splice, Mixed, Copied, OneChanged, Stored;
      ghost var d, s := b[dst - 1], b[src - 1];
      var left, j := CopyWords(dst, src, n, b, d, s);
      ghost var c := OneChanged(b, dst - 1, Mixed(s, d, j));
      if left != 0 {
        var data := LoadWord(src, j, c);
        var under := LoadWord(dst, j, c);
        StoredOver(b, dst - 1, Mixed(s, d, j), j, Splice(data, under, left));
        StoreWord(dst, j, Splice(data, under, left), c);
      }
      MixedCopied(s, d, n, j, left);
    }

    /** The loop of mem_memcpy over whole words: `d` and `s` are the payloads. */
    method CopyWords(dst: nat, src: nat, n: nat, ghost b: map<nat, seq<nat>>, ghost d: seq<nat>, ghost s: seq<nat>)
      returns (left: nat, j: nat)
      requires Ready(0, {}) && LiveHeap(mem, starts) == b
      requires dst - 1 in b && b[dst - 1] == d && src - 1 in b && b[src - 1] == s && dst != src
      requires n <= 8 * |d| && n <= 8 * |s|
      modifies this`mem
      ensures Ready(0, {}) && |mem| == |old(mem)|
      ensures left < WSIZE && n == 8 * j + left
      ensures LiveHeap(mem, starts) == OneChanged(b, dst - 1, Mixed(s, d, j))
    {
      left := n;
      j := 0;
      assert WSIZE == 8;
      hide *;
      MixedNone(s, d);
      Unchanged(b, dst - 1);
      while left >= WSIZE
        invariant n == 8 * j + left
        invariant Ready(0, {}) && |mem| == |old(mem)|
        invariant LiveHeap(mem, starts) == OneChanged(b, dst - 1, Mixed(s, d, j))
      {
        CopyWord(dst, src, j, b, d, s);
        left := left - WSIZE;
        j := j + 1;
      }
    }

    method CopyWord(dst: nat, src: nat, j: nat, ghost b: map<nat, seq<nat>>, ghost d: seq<nat>, ghost s: seq<nat>)
      requires Ready(0, {}) && dst - 1 in b && src - 1 in b && b[src - 1] == s && dst != src
      requires j < |d| && j < |s| && LiveHeap(mem, starts) == OneChanged(b, dst - 1, Mixed(s, d, j))
      modifies this`mem
      ensures Ready(0, {}) && |mem| == |old(mem)|
      ensures LiveHeap(mem, starts) == OneChanged(b, dst - 1, Mixed(s, d, j + 1))
    {
      hide Mixed, OneChanged, LiveHeap, Consistent, Initialised, Stored;
      ghost var c := OneChanged(b, dst - 1, Mixed(s, d, j));
      var data := LoadWord(src, j, c);
      StoredOver(b, dst - 1, Mixed(s, d, j), j, data);
      MixedStep(s, d, j);
      StoreWord(dst, j, data, c);
    }

    method StoreWord(p: nat, k: nat, v: nat, ghost b: map<nat, seq<nat>>)
      requires Ready(0, {}) && LiveHeap(mem, starts) == b && p - 1 in b && k < |b[p - 1]|
      modifies this`mem
      ensures Ready(0, {}) && |mem| == |old(mem)|
      ensures LiveHeap(mem, starts) == Stored(b, p - 1, k, v)
    {
      hide Consistent, LiveHeap, Stored, Initialised;
      StoreStep(mem, starts, segList[..], lists, p - 1, k, v);
      StoreWritten(mem, starts, segList[..], lists, written, p - 1, k, v);
      mem := mem[p + k := v];
    }

    method LoadWord(p: nat, k: nat, ghost b: map<nat, seq<nat>>) returns (v: nat)
      requires Ready(0, {}) && LiveHeap(mem, starts) == b && p - 1 in b && k < |b[p - 1]|
      ensures v == b[p - 1][k]
    {
      hide Shape, Coalesced, ListsOk, LiveHeap, Initialised;
      PayloadAt(mem, starts, p - 1, k);
      v := mem[p + k];
    }

    /** realloc. */
    method MmRealloc(p: nat, size: nat) returns (r: nat)
      requires Valid() && (p == NULL || p - 1 in Blocks()) && size <= MAX_REQUEST
      modifies this, segList
      ensures Valid() && (old(heapStart) != NULL ==> heapStart == old(heapStart))
      ensures size == 0 ==> r == NULL && Blocks() == if p == NULL then old(Blocks()) else old(Blocks()) - {p - 1}
      ensures size != 0 && p == NULL ==> Allocated(old(Blocks()), Blocks(), size, r)
      ensures size != 0 && p != NULL ==> Moved(old(Blocks()), Blocks(), p, size, r)
      ensures size != 0 && old(heapStart) != NULL ==> (r == NULL <==> old(NullWhen(size)))
      ensures size != 0 && old(heapStart) == NULL ==> (r == NULL <==> FirstNeed(size) > maxBytes)
      ensures size != 0 && old(heapStart) != NULL && r == NULL ==> mem == old(mem) && starts == old(starts)
    {
      hide Consistent, LiveHeap, Allocated, Moved, NoFit, BestFit, AdjustedSize, SbrkFails;
      if size == 0 {
        MmFree(p);
        return NULL;
      }
      if p == NULL {
        r := MmMalloc(size);
      } else {
        r := Move(p, size);
      }
    }

    /** The second half of realloc: a new block, a copy, and the old block freed. */
    method Move(p: nat, size: nat) returns (newPtr: nat)
      requires Valid() && p != NULL && p - 1 in Blocks() && 0 < size <= MAX_REQUEST
      modifies this, segList
      ensures Valid() && heapStart == old(heapStart) && Moved(old(Blocks()), Blocks(), p, size, newPtr)
      ensures newPtr == NULL <==> old(NullWhen(size))
      ensures newPtr == NULL ==> mem == old(mem) && starts == old(starts)
    {
      hide Consistent, LiveHeap, Allocated, Moved, NullWhen, NoFit, BestFit;
      ghost var before := Blocks();
      newPtr := MmMalloc(size);
      if newPtr == NULL {
        MovedNowhere(before, Blocks(), p, size);
        return;
      }
      AllocatedApart(before, Blocks(), size, newPtr, p);
      Transfer(p, newPtr, size, before);
    }

    method Transfer(p: nat, newPtr: nat, size: nat, ghost before: map<nat, seq<nat>>)
      requires Valid() && heapStart != NULL && p != NULL && p - 1 in before && newPtr != NULL
      requires Allocated(before, Blocks(), size, newPtr) && p - 1 in Blocks() && newPtr - 1 in Blocks() && p != newPtr
      requires Blocks()[p - 1] == before[p - 1] && size <= 8 * |Blocks()[newPtr - 1]|
      modifies this`mem, this`written, this`starts, this`lists, segList
      ensures Valid() && Moved(before, Blocks(), p, size, newPtr)
    {
      hide LiveHeap, Allocated, Moved, Shape, Coalesced, ListsOk, SizeOf, Initialised, Overwritten;
      ghost var b := Blocks();
      PayloadSize(mem, starts, p - 1);
      WordsInside(mem, starts, written, {});
      assert p - 1 in starts by { LiveBlock(mem, starts, p - 1); }
      var copySize := SizeOf(Word(p - 1)) - WSIZE;
      if size < copySize {
        copySize := size;
      }
      Memcpy(newPtr, p, copySize, b);
      TransferIs(before, b, p, size, newPtr, copySize);
      assert p - 1 in Overwritten(b, newPtr - 1, p - 1, copySize);
      FreeBlock(p - 1);
    }
  }

  // ----- What a client sees of malloc

  /** A call for `size` bytes returns `p`: NULL, and the allocated blocks are as before; or the 16-byte
      aligned payload of one new block that is large enough, and every other payload is as before. */
  ghost predicate Allocated(before: map<nat, seq<nat>>, after: map<nat, seq<nat>>, size: nat, p: nat) {
    if p == NULL then after == before
    else
      && p % 2 == 0 && p - 1 !in before && p - 1 in after
      && after == before[p - 1 := after[p - 1]]
      && size <= 8 * |after[p - 1]| == AdjustedSize(size) - WSIZE < size + DSIZE
  }

  /** The same for a block of exactly `asize` bytes. */
  ghost predicate Placed(before: map<nat, seq<nat>>, after: map<nat, seq<nat>>, asize: nat, block: nat) {
    if block == NULL then after == before
    else
      && block % 2 == 1 && block !in before && block in after
      && after == before[block := after[block]]
      && 8 * |after[block]| == asize - WSIZE
  }

  lemma AllocatedNone(b: map<nat, seq<nat>>, size: nat)
    ensures Allocated(b, b, size, NULL)
  {
  }

  lemma PlacedAllocated(before: map<nat, seq<nat>>, after: map<nat, seq<nat>>, size: nat, block: nat)
    requires size <= MAX_REQUEST && Placed(before, after, AdjustedSize(size), block)
    ensures Allocated(before, after, size, if block == NULL then NULL else block + 1)
  {
    AdjustedSizeExact(size);
    hide AdjustedSize;
  }

  /** One payload is replaced. */
  function OneChanged(blocks: map<nat, seq<nat>>, h: nat, payload: seq<nat>): (r: map<nat, seq<nat>>)
    ensures h in r && r[h] == payload
    ensures forall g :: g in blocks && g != h ==> g in r && r[g] == blocks[g]
  {
    blocks[h := payload]
  }

  lemma Unchanged(blocks: map<nat, seq<nat>>, h: nat)
    requires h in blocks
    ensures OneChanged(blocks, h, blocks[h]) == blocks
  {
  }

  lemma StoredOver(blocks: map<nat, seq<nat>>, h: nat, payload: seq<nat>, k: nat, v: nat)
    requires k < |payload|
    ensures Stored(OneChanged(blocks, h, payload), h, k, v) == OneChanged(blocks, h, payload[k := v])
  {
  }

  /** `j` words of `s`, then the rest of `d`. */
  function Mixed(s: seq<nat>, d: seq<nat>, j: nat): (r: seq<nat>)
    requires j <= |s| && j <= |d|
    ensures |r| == |d|
    ensures forall k :: j <= k < |d| ==> r[k] == d[k]
  {
    s[..j] + d[j..]
  }

  lemma MixedNone(s: seq<nat>, d: seq<nat>)
    ensures Mixed(s, d, 0) == d
  {
  }

  lemma MixedStep(s: seq<nat>, d: seq<nat>, j: nat)
    requires j < |s| && j < |d|
    ensures Mixed(s, d, j)[j := s[j]] == Mixed(s, d, j + 1)
  {
  }

  lemma MixedCopied(s: seq<nat>, d: seq<nat>, n: nat, q: nat, r: nat)
    requires n <= 8 * |s| && n <= 8 * |d| && n == 8 * q + r && r < 8
    ensures Copied(d, s, n) == if r == 0 then Mixed(s, d, q) else Mixed(s, d, q)[q := Splice(s[q], d[q], r)]
  {
    assert n / 8 == q && n % 8 == r;
  }

  /** `n` bytes of payload `s` are copied over payload `d`. */
  function Overwritten(blocks: map<nat, seq<nat>>, d: nat, s: nat, n: nat): (r: map<nat, seq<nat>>)
    requires d in blocks && s in blocks && n <= 8 * |blocks[d]| && n <= 8 * |blocks[s]|
    ensures r.Keys == blocks.Keys
  {
    OneChanged(blocks, d, Copied(blocks[d], blocks[s], n))
  }

  /** What a client sees of realloc when both arguments are non-zero: it fails and nothing changes, or
      the block moves and keeps its first bytes, and every other payload is as before. */
  ghost predicate Moved(before: map<nat, seq<nat>>, after: map<nat, seq<nat>>, p: nat, size: nat, r: nat)
    requires p - 1 in before
  {
    if r == NULL then after == before
    else
      && r % 2 == 0 && r - 1 !in before && r - 1 in after
      && after == (before - {p - 1})[r - 1 := after[r - 1]]
      && size <= 8 * |after[r - 1]| == AdjustedSize(size) - WSIZE < size + DSIZE
      && SameBytes(after[r - 1], before[p - 1], size)
  }

  lemma MovedNowhere(before: map<nat, seq<nat>>, after: map<nat, seq<nat>>, p: nat, size: nat)
    requires p - 1 in before && Allocated(before, after, size, NULL)
    ensures Moved(before, after, p, size, NULL)
  {
  }

  lemma AllocatedApart(before: map<nat, seq<nat>>, after: map<nat, seq<nat>>, size: nat, r: nat, p: nat)
    requires r != NULL && p - 1 in before && Allocated(before, after, size, r)
    ensures r - 1 in after && p - 1 in after && r != p && after[p - 1] == before[p - 1]
    ensures size <= 8 * |after[r - 1]|
  {
  }

  lemma TransferIs(before: map<nat, seq<nat>>, b: map<nat, seq<nat>>, p: nat, size: nat, r: nat, n: nat)
    requires r != NULL && p - 1 in before && Allocated(before, b, size, r) && r != p
    requires r - 1 in b && p - 1 in b && b[p - 1] == before[p - 1]
    requires n == (if size < 8 * |b[p - 1]| then size else 8 * |b[p - 1]|) && n <= 8 * |b[r - 1]|
    ensures Moved(before, Overwritten(b, r - 1, p - 1, n) - {p - 1}, p, size, r)
  {
    hide AdjustedSize, Copied;
    var after := Overwritten(b, r - 1, p - 1, n) - {p - 1};
    var d, s := b[r - 1], b[p - 1];
    CopiedSame(d, s, size, n);
    hide SameBytes;
  }

  // ----- The adjusted size

  /** max. */
  function Max(x: nat, y: nat): (r: nat)
    ensures r >= x && r >= y && (r == x || r == y)
  {
    if x > y then x else y
  }

  /** `round_up(size + wsize, dsize)` in 64-bit arithmetic. */
  function AdjustedSize(size: nat): nat {
    DSIZE * (((size + WSIZE) % TWO64 + (DSIZE - 1)) % TWO64 / DSIZE)
  }

  /** The block is large enough for its header and the request exactly when nothing wraps around. */
  lemma AdjustedSizeExact(size: nat)
    requires size < TWO64
    ensures size + WSIZE <= AdjustedSize(size) <==> size <= MAX_REQUEST
    ensures size <= MAX_REQUEST ==> AdjustedSize(size) < size + WSIZE + DSIZE && AdjustedSize(size) % 16 == 0
    ensures AdjustedSize(size) <= TWO64 - 16
  {
    Wrapped(size + WSIZE);
    var covered := (size + WSIZE) % TWO64 + (DSIZE - 1);
    Wrapped(covered);
    UnitsOf(covered % TWO64);
  }

  /** At most one turn around 64 bits. */
  lemma Wrapped(x: nat)
    requires x < 2 * TWO64
    ensures x % TWO64 == if x < TWO64 then x else x - TWO64
  {
    if x < TWO64 { Arithmetic.QuotientIs(x, 0, TWO64, x); } else { Arithmetic.QuotientIs(x, 1, TWO64, x - TWO64); }
  }

  lemma UnitsOf(x: nat)
    ensures x - 15 <= DSIZE * (x / DSIZE) <= x && DSIZE * (x / DSIZE) % 16 == 0
  {
    Arithmetic.Division(x, DSIZE);
    Arithmetic.QuotientIs(DSIZE * (x / DSIZE), x / DSIZE, 16, 0);
  }

  lemma AdjustedSizeFits(size: nat)
    requires size <= MAX_REQUEST
    ensures AdjustedSize(size) % 16 == 0 && size + WSIZE <= AdjustedSize(size) <= TWO64 - 16
    ensures size > 0 ==> AdjustedSize(size) >= MIN_BLOCK_SIZE
  {
    AdjustedSizeExact(size);
  }

  /** What the first call of malloc takes from mem_sbrk: the initial chunk serves a request that fits in it. */
  function FirstNeed(size: nat): nat {
    2 * WSIZE + CHUNK_SIZE + if AdjustedSize(size) <= CHUNK_SIZE then 0 else AdjustedSize(size)
  }

  /** A request past the limit: the size of its block wraps around to nothing. */
  lemma RequestTooLarge()
    ensures AdjustedSize(MAX_REQUEST + 1) == 0
  {
  }

  // ----- What find_fit looks for

  ghost predicate NoFit(m: seq<nat>, S: set<nat>, asize: nat) {
    forall h: nat :: Free(m, S, h) ==> SizeOf(m[h]) < asize
  }

  ghost predicate BestFit(m: seq<nat>, S: set<nat>, asize: nat, r: nat) {
    && Free(m, S, r) && SizeOf(m[r]) >= asize
    && forall h: nat :: Free(m, S, h) && SizeOf(m[h]) >= asize ==> SizeOf(m[r]) <= SizeOf(m[h])
  }

  ghost predicate NoFitBelow(m: seq<nat>, S: set<nat>, asize: nat, index: nat) {
    forall h: nat :: Free(m, S, h) && ClassOf(m, h) < index ==> SizeOf(m[h]) < asize
  }

  lemma ListSizes(m: seq<nat>, S: set<nat>, seg: seq<nat>, L: Lists, i: nat)
    requires Shape(m, S) && ListsOk(m, S, seg, L, {}) && i < LIST_NUMBER
    ensures Chained(m, seg[i], L[i], i)
    ensures forall k :: 0 <= k < |L[i]| ==> SizeOf(m[L[i][k]]) < 8 * |m| && !AllocOf(m[L[i][k]])
  {
    hide Len, SizeOf, AllocOf, PrevAllocOf, PrevMiniOf, IndexOf;
    ListedInShape(m, S, seg, L, {}, i);
    forall k | 0 <= k < |L[i]|
      ensures SizeOf(m[L[i][k]]) < 8 * |m| && !AllocOf(m[L[i][k]])
    {
      Sizes(m, S, L[i][k]);
      SizeIsLen(m[L[i][k]]);
    }
  }

  lemma NoFitBelowIndex(m: seq<nat>, S: set<nat>, asize: nat)
    ensures NoFitBelow(m, S, asize, IndexOf(asize))
  {
    hide IndexOf, AllocOf;
    forall h: nat | Free(m, S, h) && ClassOf(m, h) < IndexOf(asize)
      ensures SizeOf(m[h]) < asize
    {
      SizeIsLen(m[h]);
      if asize <= SizeOf(m[h]) { IndexMonotone(asize, SizeOf(m[h])); }
    }
  }

  lemma NoFitAbove(m: seq<nat>, S: set<nat>, L: Lists, asize: nat, index: nat)
    requires Listed(m, S, L, {}) && NoFitBelow(m, S, asize, index) && index < LIST_NUMBER
    requires forall k :: 0 <= k < |L[index]| ==> SizeOf(m[L[index][k]]) < asize
    ensures NoFitBelow(m, S, asize, index + 1)
    ensures index + 1 == LIST_NUMBER ==> NoFit(m, S, asize)
  {
    hide IndexOf, AllocOf, SizeOf, Len;
    forall h: nat | Free(m, S, h) && ClassOf(m, h) == index
      ensures SizeOf(m[h]) < asize
    {
      assert h in L[index];
    }
  }

  /** The best fit of the first list that has one is the best fit of all: the lists partition the sizes. */
  lemma BestOfList(m: seq<nat>, S: set<nat>, L: Lists, asize: nat, index: nat, r: nat)
    requires Listed(m, S, L, {}) && NoFitBelow(m, S, asize, index) && index < LIST_NUMBER
    requires r in L[index] && SizeOf(m[r]) >= asize
    requires forall k :: 0 <= k < |L[index]| && SizeOf(m[L[index][k]]) >= asize ==>
               SizeOf(m[r]) <= SizeOf(m[L[index][k]])
    ensures BestFit(m, S, asize, r)
  {
    hide IndexOf, AllocOf, SizeOf, Len;
    forall h: nat | Free(m, S, h) && SizeOf(m[h]) >= asize
      ensures SizeOf(m[r]) <= SizeOf(m[h])
    {
      SizeIsLen(m[h]);
      SizeIsLen(m[r]);
      if SizeOf(m[h]) <= SizeOf(m[r]) {
        IndexMonotone(SizeOf(m[h]), SizeOf(m[r]));
        assert h in L[index];
      }
    }
  }

  /** round_up. */
  function RoundUp(size: nat, n: nat): nat
    requires n > 0
  {
    n * ((size + (n - 1)) / n)
  }

  lemma RoundUpMultiple(w: nat)
    ensures RoundUp(SizeOf(w), DSIZE) == SizeOf(w) == 8 * Len(w)
  {
    SizeIsLen(w);
  }

  lemma Rounding(size: nat)
    requires size >= 32
    ensures DSIZE > 0 && NULL == 0
    ensures var r := RoundUp(size, DSIZE); r % 16 == 0 && r % 8 == 0 && 32 <= size <= r
  {
    RoundUpBound(size);
    Arithmetic.Factor(RoundUp(size, DSIZE), 2, 8);
    hide RoundUp;
  }

  lemma RoundUpBound(size: nat)
    ensures var r := RoundUp(size, DSIZE); r % 16 == 0 && size <= r < size + 16
    ensures size % 16 == 0 ==> RoundUp(size, DSIZE) == size
  {
  }

  // ----- Words that have been written

  lemma ListNeighbours(l: seq<nat>, i: nat, k: int, W: set<nat>)
    requires 0 <= k < |l| && ListIn(l, i, W)
    ensures l[k] + 1 in W && (i != 0 ==> l[k] + 2 in W)
    ensures k > 0 ==> l[k - 1] + 1 in W
    ensures k + 1 < |l| && i != 0 ==> l[k + 1] + 2 in W
  {
  }

  lemma LinksKept(m: seq<nat>, m2: seq<nat>, S: set<nat>, W: set<nat>, X: set<nat>, block: nat)
    requires SameBlocks(m, m2, S) && Initialised(m, S, W, X)
    ensures Initialised(m2, S, W, X + {block})
  {
    hide LiveHeap, Initialised;
    WordsInside(m, S, W, X);
    ShapeInside(m, S);
    hide Shape;
    SameHeaders(m, m2, S, W, W, X, X + {block});
  }

  lemma ShapeInside(m: seq<nat>, S: set<nat>)
    requires Shape(m, S)
    ensures forall h :: h in S ==> h < |m|
  {
  }

  lemma LinksAdded(m: seq<nat>, m2: seq<nat>, S: set<nat>, W: set<nat>, W2: set<nat>, X: set<nat>, block: nat)
    requires SameBlocks(m, m2, S) && Initialised(m, S, W, X) && block + 2 < |m| && block in S
    requires var i := IndexOf(RoundUp(SizeOf(m[block]), DSIZE));
      W2 == W + {block + 1} + if i != 0 then {block + 2} else {}
    ensures Initialised(m2, S, W2, X - {block})
  {
    RoundUpMultiple(m[block]);
    hide LiveHeap, Initialised, Len, SizeOf, RoundUp;
    WordsInside(m, S, W, X);
    ShapeInside(m, S);
    hide Shape;
    assert LinksIn(m, W2, block);
    SameHeaders(m, m2, S, W, W2, X, X - {block});
  }

  lemma FirstReadable(m: seq<nat>, S: set<nat>, seg: seq<nat>, L: Lists, W: set<nat>, X: set<nat>, i: nat)
    requires Shape(m, S) && ListsOk(m, S, seg, L, X) && Initialised(m, S, W, X) && i < LIST_NUMBER
    ensures i < |seg| && (seg[i] != NULL && i != 0 ==> seg[i] + 2 in W)
  {
    hide *;
    ListedInShape(m, S, seg, L, X, i);
    ReadableList(m, S, seg, L, W, X, i);
    HeadReadable(m, seg[i], L[i], i, W);
  }

  lemma HeadReadable(m: seq<nat>, head: nat, l: seq<nat>, i: nat, W: set<nat>)
    requires Chained(m, head, l, i) && ListIn(l, i, W)
    ensures head != NULL && i != 0 ==> head + 2 in W
  {
  }

  lemma CarvePlacesWritten(m: seq<nat>, S: set<nat>, seg: seq<nat>, L: Lists, W: set<nat>, h: nat, k: nat,
                           prevMini: bool, asize: nat)
    requires Consistent(m, S, seg, L, 0, {h}) && Free(m, S, h) && Initialised(m, S, W, {h})
    requires asize == 8 * (k - h) && asize % 16 == 0 && MIN_BLOCK_SIZE <= asize <= SizeOf(m[h]) - MIN_BLOCK_SIZE
    ensures h + 2 <= k && k + 2 <= Next(m, h) < |m| && Next(m, h) in W
    ensures Initialised(Carved(m, h, k, Next(m, h), prevMini), With(S, k), W + {h, k - 1, k, Next(m, h) - 1}, {k})
  {
    hide Len, SizeOf, Pack, AllocOf, PrevAllocOf, PrevMiniOf, LiveHeap, ListsOk, Coalesced, Carved, Initialised;
    CarvePlaces(m, S, seg, L, h, k, prevMini, asize);
    Words(asize);
    ReadableAround(m, S, W, {h}, h);
    UnlistedPredecessor(m, S, seg, L, h);
    hide Shape, With;
    CarveWritten(m, S, W, h, k, prevMini);
  }

  lemma UnlistedPredecessor(m: seq<nat>, S: set<nat>, seg: seq<nat>, L: Lists, h: nat)
    requires Consistent(m, S, seg, L, 0, {h}) && Free(m, S, h)
    ensures PrevAllocOf(m[h])
  {
    hide ListsOk, Shape, Coalesced;
    assert h != 0 by { InShape(m, S, h); }
    AllocatedPredecessor(m, S, 0, h);
  }

  lemma TakePlacesWritten(m: seq<nat>, S: set<nat>, seg: seq<nat>, L: Lists, W: set<nat>, h: nat, prevMini: bool)
    requires Consistent(m, S, seg, L, 0, {h}) && Free(m, S, h) && Initialised(m, S, W, {h})
    ensures h < Next(m, h) < |m| && Initialised(Taken(m, h, Next(m, h), prevMini), S, W + {h}, {})
  {
    hide ListsOk, Initialised, Taken, Coalesced, Shape;
    UnlistedPredecessor(m, S, seg, L, h);
    TakeWritten(m, S, W, h, prevMini);
  }

  lemma StoreWritten(m: seq<nat>, S: set<nat>, seg: seq<nat>, L: Lists, W: set<nat>, h: nat, k: nat, v: nat)
    requires Consistent(m, S, seg, L, 0, {}) && h in LiveHeap(m, S) && k < |LiveHeap(m, S)[h]|
    requires Initialised(m, S, W, {})
    ensures h + 1 + k < |m| && Initialised(m[h + 1 + k := v], S, W, {})
  {
    hide ListsOk, Initialised, Len, AllocOf;
    LiveBlock(m, S, h);
    PayloadIs(m, S, h);
    assert h + 1 + k < Next(m, h);
    hide Coalesced, LiveHeap;
    StoreShape(m, S, h, h + 1 + k, v);
    WordsInside(m, S, W, {});
    ShapeInside(m, S);
    SameHeaders(m, m[h + 1 + k := v], S, W, W, {}, {});
  }

  /** With nothing allocated, all the space is one free block. */
  lemma FreshFit(m: seq<nat>, S: set<nat>, seg: seq<nat>, L: Lists, asize: nat)
    requires Consistent(m, S, seg, L, 0, {}) && LiveHeap(m, S) == map[] && asize > 0
    ensures NoFit(m, S, asize) <==> 8 * (|m| - 2) < asize
  {
    hide LiveHeap, ListsOk, Len, SizeOf, Pack, AllocOf, PrevAllocOf, PrevMiniOf;
    AllFreedIsOneBlock(m, S);
  }

  lemma EmptyHeap(m: seq<nat>, seg: seq<nat>, L: Lists)
    requires |m| == 2 && m[0] == m[1] == Pack(0, true, true, false)
    requires |seg| == LIST_NUMBER && forall i :: 0 <= i < LIST_NUMBER ==> seg[i] == NULL && L[i] == []
    ensures Consistent(m, {1}, seg, L, 0, {}) && LiveHeap(m, {1}) == map[]
    ensures Initialised(m, {1}, {0, 1}, {})
  {
    hide Pack, Len, AllocOf, PrevAllocOf;
    PackExtract(0, true, true, false);
  }

  lemma FitOrNot(m: seq<nat>, S: set<nat>, asize: nat, r: nat)
    requires Shape(m, S)
    requires if r == NULL then NoFit(m, S, asize) else BestFit(m, S, asize, r)
    ensures r == NULL <==> NoFit(m, S, asize)
    ensures r != NULL ==> Free(m, S, r) && SizeOf(m[r]) >= asize
  {
  }

  lemma MultiplesOf16(a: nat, b: nat)
    requires a % 16 == 0 && b % 16 == 0 && a <= b < a + 16
    ensures a == b
  {
  }

  lemma Words(bytes: nat)
    requires bytes % 16 == 0
    ensures bytes == 8 * (bytes / 8) && (bytes / 8) % 2 == 0
  {
    var q := bytes / 16;
    Arithmetic.QuotientIs(bytes, 2 * q, 8, 0);
    Arithmetic.QuotientIs(2 * q, q, 2, 0);
  }

  lemma LiveBlock(m: seq<nat>, S: set<nat>, h: nat)
    requires Shape(m, S) && h in LiveHeap(m, S)
    ensures Live(m, S, h) && h + 2 <= Next(m, h) < |m| && SizeOf(m[h]) == 8 * (Next(m, h) - h) && h in S
  {
    hide Len, Pack, AllocOf, PrevAllocOf, PrevMiniOf, SizeOf;
    SizeIsLen(m[h]);
    assert BlockOk(m, S, h);
  }

  lemma PayloadAt(m: seq<nat>, S: set<nat>, h: nat, k: nat)
    requires Shape(m, S) && h in LiveHeap(m, S) && k < |LiveHeap(m, S)[h]|
    ensures h + 1 + k < |m| && LiveHeap(m, S)[h][k] == m[h + 1 + k]
  {
    LiveBlock(m, S, h);
    hide Shape, Len, AllocOf;
  }

  /** A free block that covers `bytes` bytes from `block` on is that large. */
  lemma ConsistentParts(m: seq<nat>, S: set<nat>, seg: seq<nat>, L: Lists, x: nat, X: set<nat>)
    requires Consistent(m, S, seg, L, x, X)
    ensures Shape(m, S) && Coalesced(m, S, x) && ListsOk(m, S, seg, L, X)
  {
  }

  lemma EpilogueWritten(m: seq<nat>, S: set<nat>, W: set<nat>)
    requires Shape(m, S) && S <= W
    ensures |m| >= 2 && |m| - 1 in S && |m| - 1 in W
  {
  }

  lemma Suffix(m: seq<nat>, m2: seq<nat>, bytes: nat)
    requires |m| <= |m2| && m2[..|m|] == m && 8 * |m2| == 8 * |m| + bytes
    ensures m2 == m + m2[|m|..] && bytes == 8 * |m2[|m|..]|
  {
  }

  lemma MergeableParts(m: seq<nat>, S: set<nat>, a: nat, n: nat, x: nat, X: set<nat>)
    requires Shape(m, S) && Mergeable(m, S, a, n, x, X)
    ensures a in S && n in S && a + 4 <= n < |m| && (n - a) % 2 == 0 && PrevAllocOf(m[a]) && AllocOf(m[n]) && a <= x < n
    ensures forall h :: h in S && a <= h < n ==> !AllocOf(m[h]) && h in X
    ensures forall h :: h in X ==> a <= h < n
  {
    hide Len, Pack, AllocOf, PrevAllocOf;
  }

  lemma SameContents(m: seq<nat>, m2: seq<nat>, S: set<nat>)
    requires SameBlocks(m, m2, S)
    ensures |m2| == |m| && Shape(m, S) && Shape(m2, S) && LiveHeap(m2, S) == LiveHeap(m, S)
  {
  }

  lemma FreeHeader(m: seq<nat>, S: set<nat>, h: nat)
    requires Free(m, S, h)
    ensures h in S && h + 1 < |m|
  {
  }

  lemma NextFrame(m: seq<nat>, m2: seq<nat>, h: nat)
    requires h < |m| && h < |m2| && m2[h] == m[h]
    ensures Next(m2, h) == Next(m, h)
  {
  }

  lemma ReachesTo(m: seq<nat>, S: set<nat>, r: nat, block: nat, bytes: nat)
    requires Shape(m, S) && Free(m, S, r) && r <= block && 8 * (Next(m, r) - block) >= bytes
    ensures r >= 1 && SizeOf(m[r]) >= bytes
  {
    SizeIsLen(m[r]);
  }

  lemma InShape(m: seq<nat>, S: set<nat>, h: nat)
    requires Shape(m, S) && Free(m, S, h)
    ensures h >= 1
  {
  }

  /** `block` is element `k` of list `i`, and the links that lead to and from it are as they should be. */
  ghost predicate Located(m: seq<nat>, head: nat, l: seq<nat>, i: nat, k: int, block: nat) {
    && 0 <= k < |l| && l[k] == block && head == l[0]
    && (forall t :: 0 <= t < |l| ==> l[t] > 0 && l[t] + 2 < |m|)
    && (forall t :: 0 <= t <= k ==> m[l[t] + 1] == At(l, t + 1))
    && (forall t :: 0 <= t < k ==> l[t] != block)
    && (i != 0 ==> m[block + 2] == At(l, k - 1))
  }

  lemma LocatedEnds(m: seq<nat>, head: nat, l: seq<nat>, i: nat, k: int, block: nat)
    requires Located(m, head, l, i, k, block)
    ensures block > 0 && block + 2 < |m| && At(l, -1) == 0 && m[block + 1] == At(l, k + 1)
    ensures if k == 0 then At(l, k - 1) == 0 else At(l, k - 1) == l[k - 1] > 0
    ensures if k + 1 == |l| then At(l, k + 1) == 0 else At(l, k + 1) == l[k + 1] > 0
    ensures At(l, k - 1) + 2 < |m| && At(l, k + 1) + 2 < |m|
  {
  }

  lemma Locate(m: seq<nat>, S: set<nat>, seg: seq<nat>, L: Lists, X: set<nat>, block: nat) returns (k: nat)
    requires Shape(m, S) && ListsOk(m, S, seg, L, X) && Free(m, S, block) && block !in X
    ensures |seg| == LIST_NUMBER
    ensures var i := IndexOf(RoundUp(SizeOf(m[block]), DSIZE));
      && (i == 0 <==> SizeOf(m[block]) == MIN_BLOCK_SIZE)
      && k < |L[i]| && Located(m, seg[i], L[i], i, k, block)
  {
    hide Len, SizeOf, Pack, AllocOf, PrevAllocOf, PrevMiniOf, IndexOf, At, RoundUp;
    var i := ClassOf(m, block);
    RoundUpMultiple(m[block]);
    Sizes(m, S, block);
    assert |seg| == LIST_NUMBER && block in L[i];
    ListedInShape(m, S, seg, L, X, i);
    hide *;
    k :| 0 <= k < |L[i]| && L[i][k] == block;
    LocatedAt(m, seg[i], L[i], i, k);
  }

  lemma LocatedAt(m: seq<nat>, head: nat, l: seq<nat>, i: nat, k: nat)
    requires Chained(m, head, l, i) && k < |l|
    ensures Located(m, head, l, i, k, l[k])
  {
    hide At;
    AtIs(l, 0);
  }

  /** `block` can be put in front of list `i`, which is the one for its size. */
  ghost predicate Linkable(m: seq<nat>, S: set<nat>, seg: seq<nat>, L: Lists, X: set<nat>, block: nat, i: nat)
    requires block < |m|
  {
    && (i == 0 <==> SizeOf(m[block]) == MIN_BLOCK_SIZE)
    && block + 2 < |m| && i < |seg| == LIST_NUMBER && seg[i] + 2 < |m|
    && SameBlocks(m, Linked(m, i, block, seg[i]), S)
    && ListsOk(Linked(m, i, block, seg[i]), S, seg[i := block], L[i := [block] + L[i]], X - {block})
  }

  /** Link, in the terms of insert_block. */
  lemma LinkHere(m: seq<nat>, S: set<nat>, seg: seq<nat>, L: Lists, X: set<nat>, block: nat)
    requires Shape(m, S) && ListsOk(m, S, seg, L, X) && Free(m, S, block) && block in X
    ensures block < |m| && Linkable(m, S, seg, L, X, block, IndexOf(RoundUp(SizeOf(m[block]), DSIZE)))
  {
    hide Len, SizeOf, Pack, AllocOf, PrevAllocOf, PrevMiniOf, IndexOf, At, RoundUp, Linked, SameBlocks;
    Sizes(m, S, block);
    RoundUpMultiple(m[block]);
    Link(m, S, seg, L, X, block);
  }
}
