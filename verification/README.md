# Verified models of the systems labs

Dafny models of seven components of this repository, with proofs of what they are for. The imperative C code is
modelled as imperative Dafny (fields, arrays, linked nodes and loops); each method is proved against functions and
predicates on values, and the main results are lemmas about those, for all inputs and all runs.
`dafny verify dfyconfig.toml` checks the whole project (Dafny 4.11).

- `malloc/`: the segregated-list allocator. Memory is a sequence of 8-byte words from mem_heap_lo to the break, an
  address is a word index, and index 0 (the prologue) serves as NULL. Two ghost fields hold the set of block headers
  and the contents of the 14 free lists. The invariant says of the mini bit only what holds when the predecessor is
  free, and of a footer only its size and alloc bit, since allocated blocks and 16-byte blocks have none and flag bits
  go stale. What clients see is a map from live blocks to their payloads. A ghost set holds the words the allocator
  has stored to, and each read of a header, footer or link requires the word to be in that set, so malloc and free
  never read a word that was not written (`WrittenWords`). `TraceReplay` is the correctness check of the malloc driver.
- `splay/`: the splay tree, on nodes with parent pointers. A tree value and a path down to a hole describe where a
  node is; pointer states are compared as maps from nodes to their fields. It refines a finite map, and whole runs of
  operations have the amortised cost that splaying is for (`SplayCost`, `SplayRuns`).
- `lru/`: the cache simulator. The integer ranks of a row refine a recency stack, from which the inclusion property
  and the accounting follow over whole traces. `CacheBlocks` says in block numbers alone when an access hits, when
  it evicts and which blocks are dirty.
- `shell/`: job control. `JobList` is the job table; `ShellSteps` is a transition system whose steps are the
  stretches of code between points where a signal or a child can act; `Shell` ties the two together, and
  `ShellTheorems` has what holds over all runs.
- `sparse/`: the sparse memory emulator, a hash table of pages with a bit for each byte written. It refines a flat
  map of the bytes written since the last reset.
- `proxy/`: the object cache of the proxy, a two-way list with sentinels that refines a sequence of entries, in the
  order of their last use over every run (`CacheRuns`).
- `bits/` and `timing/`: the integer and floating-point puzzles against their references, and k-best sampling.

Five properties do not hold on all inputs, and each has its exact condition here:

- The rounding in malloc covers the request if and only if the request is at most 2^64 - 24 bytes; above that, adding
  the header or rounding up wraps around (`AdjustedSizeExact`, and `RequestTooLarge` for an input).
- The driver hands free and realloc NULL or a block that the index owns, if and only if the trace never frees or
  reallocates an index whose block it has freed; otherwise the pointer is neither (`HandedUnlessStale`). `FreedTwice`
  is a trace of three requests that does, `ReplayFreeTwice` shows that the driver gets to its second Free, and
  `FreeTwice` that this call leaves lists that can no longer be read. The replay is proved up to the first such request.
- Searching is paid for by splaying exactly in the operations that splay, those that insert a new key or remove a
  present one: N of them take at most 2 N (8 log N + 1) comparisons from an empty tree (`RunNew`). The source splays
  in no other operation, and each other kind can take n comparisons on n keys every time (`IdlingCosts`).
- write_node with a new object larger than MAX_CACHE_SIZE, and only then, goes on to delete the head sentinel and
  dereferences its NULL links; the model reports this as `crashed`.
- The shell can abort: a job may be reaped between the check and the use in do_bgfg, and a child for which add_job
  had no room may be stopped. `AbortsOnlyWhen` says these are the only two ways; `AbortInBgfg` and `AbortInHandler`
  give a run from the start for each.

## Model

| member | source | states |
|---|---|---|
| `TraceReplay.EvalMmValid` | malloclab-s20-bhxxzp/mdriver.c:1132-1289 | Whatever was done with the heap before: for every trace of requests the driver never rejects the allocator, so no payload is misaligned, outside the heap or overlapping, and no byte is lost. Either every request is served and the live regions are exactly those the trace asks for; or the first `done` are, and the next one is a request for which malloc must return NULL, or is the first to free or reallocate an index whose block has been freed; with too small an arena nothing is served. |
| `TraceReplay.ReplayAll` | malloclab-s20-bhxxzp/mdriver.c:1176-1287 | The loop over the requests, from a heap with no block: the same for every trace. |
| `TraceReplay.OwnsUnlessStale` | malloclab-s20-bhxxzp/mdriver.c:1210-1281 | Free and Realloc name an index that has no pointer or owns the block it points to, if and only if no Free has left the index with the pointer of a freed block. This is read off the trace alone. |
| `TraceReplay.AfterTraceIs` | malloclab-s20-bhxxzp/mdriver.c:1176-1287 | What a trace asks for: an index is live exactly when the last request for it asks for a block, and then has the size and data of that request. |
| `TraceReplay.FreedAfterIs` | malloclab-s20-bhxxzp/mdriver.c:1264-1281 | An index keeps the pointer of a freed block exactly when a Free found it live and no later request gave it another pointer. |
| `TraceReplay.HandedUnlessStale` | malloclab-s20-bhxxzp/mdriver.c:1210-1281 | So what Free and Realloc hand over is NULL or the payload of the block their index owns, if and only if the request is not stale; a stale one hands over a pointer that is neither. |
| `TraceReplay.StalePointer` | malloclab-s20-bhxxzp/mdriver.c:1210-1281 | The pointer of a stale request is not NULL and, when no block was lost, is dead or is the payload of a block that belongs to another index. |
| `TraceReplay.FreedTwice` | malloclab-s20-bhxxzp/mdriver.c:1264-1281 | A trace of three requests with a stale one: allocate, free, free. Each request by itself is well formed. |
| `TraceReplay.FreedTwiceIsDead` | malloclab-s20-bhxxzp/mdriver.c:1264-1281 | After its first two requests the pointer that the driver still holds is not NULL and is dead, so the second Free passes mm_free a pointer it must not. |
| `TraceReplay.ReplayFreeTwice` | malloclab-s20-bhxxzp/mdriver.c:1132-1289 | And the driver gets there: in an arena with room for the first request, whatever was done with the heap before, the replay of this trace serves two requests and stops at the second Free, which would hand over that dead pointer. |
| `DoubleFree.FreeAgain` | malloclab-s20-bhxxzp/mm.c:1198-1227 | What free does with a block that is free already, in a heap in order: it is put in its list a second time, and afterwards no contents of the lists agree with the links and list heads. |
| `DoubleFree.FreeTwice` | malloclab-s20-bhxxzp/mdriver.c:1264-1281 | So the calls that the driver makes on this trace, from mm_init on, lose the lists. |
| `DoubleFree.ListStays` | malloclab-s20-bhxxzp/mm.c:1205-1226 | Before that, the writes of free and of case 1 of coalesce_block leave the links of a listed block alone. |
| `DoubleFree.Lost` | malloclab-s20-bhxxzp/mm.c:740-758 | Insertion of a block that is in the list leaves links that no lists agree with, whatever counts as a block and whatever is taken as unlisted. |
| `TraceReplay.AllReturned` | malloclab-s20-bhxxzp/mdriver.c:1132-1289 | When every index has given its block back and none was lost by allocating over it, nothing is allocated and the heap is one free block. |
| `TraceReplay.ReplayAlloc` | malloclab-s20-bhxxzp/mdriver.c:1185-1208 | An allocation request fails exactly when malloc must return NULL, and then nothing changes; otherwise the region is remembered with its size, passes the range tests and holds the data the driver wrote. An index that owned a block loses it. |
| `TraceReplay.ReplayRealloc` | malloclab-s20-bhxxzp/mdriver.c:1210-1262 | For an index without a pointer or with its own block: fails exactly when its size is not 0 and malloc must return NULL; size 0 frees; the first min(old, new) bytes pass the comparison. NULL with size 0 is accepted and changes nothing. |
| `TraceReplay.ReplayMove` | malloclab-s20-bhxxzp/mdriver.c:1210-1262 | The branch with a live block and a new size: old data checked, block moved, new range accepted, common prefix intact. |
| `TraceReplay.ReplayFree` | malloclab-s20-bhxxzp/mdriver.c:1264-1281 | For an index without a pointer or with its own block: the data is still there, the region is forgotten, and the index keeps a pointer it no longer owns. |
| `TraceReplay.NewRange` | malloclab-s20-bhxxzp/mdriver.c:789-835 | A payload handed out by the allocator passes every test of add_range against all remembered ranges. |
| `TraceReplay.RangeOkIs` | malloclab-s20-bhxxzp/mdriver.c:789-835 | These tests say: the payload is aligned, and each of its bytes is in the heap and in no remembered range. |
| `Allocator.Heap.MmMalloc` | malloclab-s20-bhxxzp/mm.c:1137-1186 | The result is NULL with all blocks as before, or a 16-byte aligned payload of one new block of the rounded size, with every other live payload word for word as before. NULL comes back exactly for size 0, or when no free block is large enough and the heap cannot grow (on the first call: when the initial chunk, plus the request if it is larger than the chunk, exceeds the arena). The heap grows exactly when nothing fits, by the larger of the need and 4096 bytes; otherwise the best fit is used. The heap invariant is kept, and every word read has been written before. |
| `Allocator.Heap.MallocFirst` | malloclab-s20-bhxxzp/mm.c:1144-1163 | The first call initialises the heap; whether it returns NULL is settled by the arena size alone. |
| `Allocator.Heap.Allocate` | malloclab-s20-bhxxzp/mm.c:1154-1185 | The non-empty request on an initialised heap: exact condition for NULL, nothing changed then, best fit or exact growth otherwise. |
| `Allocator.Heap.Place` | malloclab-s20-bhxxzp/mm.c:1163-1185 | Search, growth and split on an adjusted size: the new block has exactly the adjusted size and no other live block changes. |
| `Allocator.Max` | malloclab-s20-bhxxzp/mm.c:193-195 | Not below either of the two, and one of them: so the heap grows by 4096 bytes, or by the need if that is more. |
| `Allocator.Heap.MmFree` | malloclab-s20-bhxxzp/mm.c:1198-1227 | The live blocks afterwards are those before without the freed one, each with its payload unchanged; the heap keeps its size and its invariant; NULL changes nothing. Every word read has been written before. |
| `Allocator.Heap.FreeBlock` | malloclab-s20-bhxxzp/mm.c:1205-1226 | Marking the block free, coalescing it and listing it restores the invariant and removes just that block. |
| `Allocator.Heap.MmRealloc` | malloclab-s20-bhxxzp/mm.c:1240-1274 | Size 0 frees, a NULL pointer allocates, otherwise the block moves: the new payload holds the first min(size, old) bytes, the old block is gone, all others are unchanged. On failure, which happens exactly when malloc fails, nothing changes; for a NULL pointer before the first malloc that is settled by the arena size. |
| `Allocator.Heap.Move` | malloclab-s20-bhxxzp/mm.c:1255-1273 | Allocate, copy, free: the contents of the block survive the move up to the smaller of the two sizes. |
| `Allocator.Heap.MmInit` | malloclab-s20-bhxxzp/mm.c:1100-1126 | From an empty heap, whatever the static variables hold: succeeds exactly when the arena holds 16 + 4096 bytes, and leaves a heap of that size with no live block and the invariant; with room for 16 bytes only it leaves an empty heap. |
| `Allocator.Heap.constructor` | malloclab-s20-bhxxzp/mm.c:152-155 | Zeroed static storage is a valid state with no live block. |
| `Allocator.Heap.ExtendHeap` | malloclab-s20-bhxxzp/mm.c:566-591 | Returns NULL exactly when mem_sbrk refuses the rounded size, with nothing changed; otherwise the heap grows by exactly that size, the result is a free listed block at least that large, and no live block changes. |
| `Allocator.Heap.CoalesceBlock` | malloclab-s20-bhxxzp/mm.c:490-554 | For a free block not yet listed: afterwards no two neighbours are free, every free block is listed once, the result covers the given block, and no live block changes. The word before the block, which find_prev reads before anyone knows that it is a footer, has been written. |
| `Allocator.Heap.CoalesceNone` | malloclab-s20-bhxxzp/mm.c:503-510 | Case 1, both neighbours allocated: the block is listed at its old extent. |
| `Allocator.Heap.CoalesceNext` | malloclab-s20-bhxxzp/mm.c:514-522 | Case 2, next free: the block starts where it did and reaches past the next one. |
| `Allocator.Heap.CoalescePrev` | malloclab-s20-bhxxzp/mm.c:526-535 | Case 3, previous free: the block starts at the predecessor found through the mini bit or the footer. |
| `Allocator.Heap.CoalesceBoth` | malloclab-s20-bhxxzp/mm.c:538-549 | Case 4: three blocks become one. |
| `Allocator.Heap.MergeRun` | malloclab-s20-bhxxzp/mm.c:514-549 | A run of unlisted free blocks between allocated ones becomes a single listed free block that spans the run. |
| `Allocator.Heap.SplitBlock` | malloclab-s20-bhxxzp/mm.c:603-647 | The free block becomes live with exactly `asize` bytes, the rest stays free and listed, and all other live blocks are unchanged. |
| `Allocator.Heap.SplitOff` | malloclab-s20-bhxxzp/mm.c:611-636 | The branch that leaves a free remainder. |
| `Allocator.Heap.TakeWhole` | malloclab-s20-bhxxzp/mm.c:637-644 | The branch that uses the whole block. |
| `Allocator.Heap.DeleteBlock` | malloclab-s20-bhxxzp/mm.c:659-722 | The block leaves its list, in each of the four pointer cases and in the singly linked list 0; every list stays well formed and no header or payload changes. The search in list 0 ends. |
| `Allocator.Heap.PrevInMiniList` | malloclab-s20-bhxxzp/mm.c:709-713 | The walk of list 0 terminates at the block and yields its predecessor in the list. |
| `Allocator.Heap.Bypass` | malloclab-s20-bhxxzp/mm.c:671-721 | The memory and the list heads change exactly as bypassing that list element requires. |
| `Allocator.Heap.InsertBlock` | malloclab-s20-bhxxzp/mm.c:733-760 | The block becomes the first of the list of its size class; every list stays well formed and no header or payload changes. |
| `Allocator.Heap.Push` | malloclab-s20-bhxxzp/mm.c:740-758 | The pointer writes of insertion at the front, for an empty and a non-empty list. |
| `Allocator.Heap.FindFit` | malloclab-s20-bhxxzp/mm.c:806-841 | NULL exactly when no free block of the whole heap is large enough; otherwise a free block of the smallest sufficient size in the whole heap. |
| `Allocator.Heap.FindFitIn` | malloclab-s20-bhxxzp/mm.c:817-833 | The best fit of one list, or NULL exactly when none of its blocks is large enough. |
| `Allocator.Heap.MemSbrk` | malloclab-s20-bhxxzp/memlib.c:188-228 | Refuses a size that is negative as a signed number or passes the end of the arena, changing nothing; otherwise appends that many bytes and keeps the rest. |
| `Allocator.Heap.ResetBrk` | malloclab-s20-bhxxzp/memlib.c:168-181 | The heap is empty and no word counts as written; the variables of the allocator keep their values. |
| `Allocator.Heap.Memcpy` | malloclab-s20-bhxxzp/memlib.c:370-388 | Copying between two payloads overwrites the first n bytes of the one with those of the other, byte for byte, and nothing else. |
| `Allocator.AdjustedSizeExact` | malloclab-s20-bhxxzp/mm.c:1157 | Of the rounding alone: in 64-bit arithmetic the rounded size covers header and request if and only if the request is at most 2^64 - 24; within the limit less than 24 bytes are added. |
| `Allocator.RequestTooLarge` | malloclab-s20-bhxxzp/mm.c:1157 | The first request past the limit is rounded to a block of size 0. |
| `Allocator.NoFitBelowIndex` | malloclab-s20-bhxxzp/mm.c:810-818 | No block of a lower list than the one the search starts with can be large enough. |
| `Allocator.NoFitAbove` | malloclab-s20-bhxxzp/mm.c:818-840 | A list without a fit lets the search go on without missing a block; after the last list no block of the heap fits. |
| `Allocator.BestOfList` | malloclab-s20-bhxxzp/mm.c:834-837 | The best fit of the first list that has one is the best fit of all lists. |
| `Allocator.FreshFit` | malloclab-s20-bhxxzp/mm.c:1163-1171 | With nothing allocated, a request fits exactly when it is no larger than the whole space. |
| `HeapTheorems.BytesConserved` | malloclab-s20-bhxxzp/mm.c:444-448 | The sizes of the blocks from any header to the epilogue add up to the bytes between: from the first header, what mem_sbrk gave less 16. |
| `HeapTheorems.WalkVisits` | malloclab-s20-bhxxzp/mm.c:444-448 | Following the sizes from the first header meets every block once and nothing else. |
| `HeapTheorems.PayloadsDisjoint` | malloclab-s20-bhxxzp/mm.c:1137-1227 | Payloads of different live blocks do not overlap, are 16-byte aligned and lie inside the heap. |
| `HeapTheorems.AllFreedIsOneBlock` | malloclab-s20-bhxxzp/mm.c:490-554 | Once nothing is live the heap is a single free block of all its bytes. |
| `HeapTheorems.ListsPartition` | malloclab-s20-bhxxzp/mm.c:659-795 | A block is free if and only if it is in one of the 14 lists, and then it is there once, in one list. |
| `WrittenWords.ReadableAround` | malloclab-s20-bhxxzp/mm.c:378-471 | The header of every block, the header after it and the word before it have been written, so the reads of coalesce_block hit no word that was never stored to, also with the sparse check on. |
| `WrittenWords.ReadableList` | malloclab-s20-bhxxzp/mm.c:659-722 | The headers and link words of all blocks of each list have been written: the lists can be walked. |
| `WrittenWords.MergeWritten` | malloclab-s20-bhxxzp/mm.c:490-554 | Merging keeps all of these words written. |
| `WrittenWords.CarveWritten` | malloclab-s20-bhxxzp/mm.c:603-636 | Splitting too; the front gets a footer for this. |
| `WrittenWords.TakeWritten` | malloclab-s20-bhxxzp/mm.c:637-644 | So does using the whole block. |
| `WrittenWords.ReleaseWritten` | malloclab-s20-bhxxzp/mm.c:1198-1227 | So does freeing, which writes the last word even where no one reads it as a footer. |
| `WrittenWords.RefreshWritten` | malloclab-s20-bhxxzp/mm.c:503-510 | So does case 1. |
| `WrittenWords.ExtendWritten` | malloclab-s20-bhxxzp/mm.c:566-591 | So does growing: of the new words only the footer and the epilogue have been written. |
| `FreeLists.LinkedTwice` | malloclab-s20-bhxxzp/mm.c:740-758 | Inserting a block that is in the list already, at any place, closes a cycle: no list can be read off the links from its head. |
| `HeapWords.PackExtract` | malloclab-s20-bhxxzp/mm.c:219-347 | The four fields of a packed word are read back independently of each other. |
| `HeapWords.OrIsBitwise` | malloclab-s20-bhxxzp/mm.c:219-240 | Setting a flag in a packed word is the bitwise or. |
| `HeapWords.SizeIsMasked` | malloclab-s20-bhxxzp/mm.c:242-262 | The size is what is left by the mask ~0xF. |
| `HeapWords.FlagsAreBits` | malloclab-s20-bhxxzp/mm.c:320-347 | The three flags are read from bits 0, 1 and 2 of the word. |
| `SizeClasses.GetIndex` | malloclab-s20-bhxxzp/mm.c:774-795 | The loop returns the size class; its final default is never reached. |
| `SizeClasses.IndexExact` | malloclab-s20-bhxxzp/mm.c:774-795 | A size belongs to list j exactly when it is from 16 * 2^(j - 1) up to below 16 * 2^j; the last list has all sizes from 16 * 2^12 on. |
| `SizeClasses.IndexMonotone` | malloclab-s20-bhxxzp/mm.c:774-795 | A larger size never has a lower class. |
| `Coalescing.FreePredecessor` | malloclab-s20-bhxxzp/mm.c:406-471 | When the prev_alloc bit is clear, the mini bit tells which of the two ways of finding the predecessor applies, and that way finds the free block just before. |
| `Coalescing.AllocatedPredecessor` | malloclab-s20-bhxxzp/mm.c:490-554 | Of a coalesced heap, every free block follows an allocated one. |
| `Coalescing.MergeCoalesces` | malloclab-s20-bhxxzp/mm.c:514-549 | Merging the whole free run around the freed block leaves no free neighbours anywhere. |
| `Coalescing.StaysCoalesced` | malloclab-s20-bhxxzp/mm.c:603-647 | Allocating a free block or the front of one leaves no free neighbours. |
| `Coalescing.NextFree` | malloclab-s20-bhxxzp/mm.c:514-522 | In case 2 the successor is a listed free block followed by an allocated one, and the sizes add up to the run. |
| `Coalescing.PrevFree` | malloclab-s20-bhxxzp/mm.c:526-535 | In case 3 the same for the predecessor, which itself follows an allocated block. |
| `Coalescing.BothFree` | malloclab-s20-bhxxzp/mm.c:538-549 | In case 4 the same for both. |
| `FreeLists.Unlink` | malloclab-s20-bhxxzp/mm.c:659-722 | Removing one element changes no other list, no header and no payload, and exactly that block is unlisted. |
| `FreeLists.Link` | malloclab-s20-bhxxzp/mm.c:733-760 | Adding a block in front likewise, and exactly that block is now listed. |
| `HeapShape.Merge` | malloclab-s20-bhxxzp/mm.c:514-549 | Writing one header, one footer and the next flag bits over a free run keeps the tiling and every live payload. |
| `HeapShape.Carve` | malloclab-s20-bhxxzp/mm.c:611-635 | Cutting a free block keeps the tiling and every other live payload; the front is live. |
| `HeapShape.Take` | malloclab-s20-bhxxzp/mm.c:637-643 | Allocating a block whole keeps the tiling and every other live payload. |
| `HeapShape.Release` | malloclab-s20-bhxxzp/mm.c:1205-1220 | Marking a live block free keeps the tiling and removes exactly its payload. |
| `HeapShape.Extend` | malloclab-s20-bhxxzp/mm.c:576-585 | Growing at the end turns the old epilogue into the header of a free block and keeps every live payload. |
| `HeapShape.Predecessor` | malloclab-s20-bhxxzp/mm.c:465-471 | Every block but the first has exactly a block that ends where it starts. |
| `HeapSteps.MergeStep` | malloclab-s20-bhxxzp/mm.c:490-554 | Merging keeps the whole invariant, lists included. |
| `HeapSteps.CarveStep` | malloclab-s20-bhxxzp/mm.c:603-647 | Cutting keeps the whole invariant, with the rest the only unlisted block. |
| `HeapSteps.TakeStep` | malloclab-s20-bhxxzp/mm.c:637-644 | Allocating whole keeps the whole invariant. |
| `HeapSteps.ReleaseStep` | malloclab-s20-bhxxzp/mm.c:1198-1227 | Freeing keeps all of the invariant but for the freed block, which is unlisted and not yet coalesced. |
| `HeapSteps.ExtendStep` | malloclab-s20-bhxxzp/mm.c:566-591 | Growing keeps all of the invariant but for the new block. |
| `HeapSteps.RefreshStep` | malloclab-s20-bhxxzp/mm.c:503-510 | Case 1 rewrites the next header with what it already records. |
| `HeapSteps.StoreStep` | malloclab-s20-bhxxzp/mm.c:263-275 | A client that writes into its own payload disturbs neither the heap nor any other payload. |
| `HeapSteps.PayloadSize` | malloclab-s20-bhxxzp/mm.c:307-310 | The payload size read from the header is the length of the payload. |
| `PayloadBytes.CopiedBytes` | malloclab-s20-bhxxzp/memlib.c:370-388 | After copying n bytes word by word and then a part of a word, byte k is the source byte below n and the old byte from n on. |
| `PayloadBytes.ByteOfIs` | malloclab-s20-bhxxzp/memlib.c:370-388 | Byte j of a word is its bits 8 j to 8 j + 7. |
| `PayloadBytes.SameWord` | malloclab-s20-bhxxzp/memlib.c:370-388 | Words below 2^(8 n) are equal when their n bytes are. |
| `PayloadBytes.SpliceIs` | malloclab-s20-bhxxzp/memlib.c:383-387 | The partial word at the end of a copy: the low 8 r bits are those of the source, the bits above them stay. |
| `PayloadBytes.SameBytesWords` | malloclab-s20-bhxxzp/mm.c:1255-1273 | Every whole word of the first min(size, old) bytes is the same word after realloc. |
| `SplayTree.Tree.TreeInsert` | malloclab-s20-bhxxzp/stree.c:41-79 | Returns true exactly for a new key; the map then has that one more entry and the new node is the root of the tree that splaying defines; otherwise the tree is untouched. Search order, parent pointers and node_count stay right. The rotations are covered by the potential set free and 8 log n + 1, and the comparisons are twice the rotations. |
| `SplayTree.Tree.TreeFind` | malloclab-s20-bhxxzp/stree.c:81-96 | The record of the key, or NULL when there is none; comparison_count grows by what the search takes. |
| `SplayTree.Tree.TreeFindNearest` | malloclab-s20-bhxxzp/stree.c:98-118 | The record of the largest key that is at most the given one, or NULL exactly when every key is larger; comparison_count grows likewise. |
| `SplayTree.Tree.TreeRemove` | malloclab-s20-bhxxzp/stree.c:120-156 | Returns the record of the key or NULL, and the map loses exactly that entry; the tree stays valid and no node is added. For a present key the rotations are covered by the potential set free and 6 log n + 1; for a missing one the tree is untouched and the search has made half the comparisons of tree_find. |
| `SplayTree.Tree.constructor` | malloclab-s20-bhxxzp/stree.c:20-32 | The new tree is valid and empty. |
| `SplayTree.Tree.CountIsSize` | malloclab-s20-bhxxzp/stree.c:41-156 | In every valid state node_count is the number of keys of the map. |
| `SplayTree.Tree.Splay` | malloclab-s20-bhxxzp/stree.c:228-260 | The loop ends, with the node at the root of exactly the tree that splaying along its path defines, after as many rotations as the node was deep; the pointers agree with that tree and keys and records stay. |
| `SplayTree.Tree.ZigZigOrZag` | malloclab-s20-bhxxzp/stree.c:239-258 | Two rotations bring the node two levels up and leave the result of splaying the same. |
| `SplayTree.Tree.Zig` | malloclab-s20-bhxxzp/stree.c:232-238 | A single rotation under the root likewise. |
| `SplayTree.Tree.ZigZigRight` | malloclab-s20-bhxxzp/stree.c:239-243 | The shape after the grandparent and then the parent are rotated right. |
| `SplayTree.Tree.ZigZigLeft` | malloclab-s20-bhxxzp/stree.c:244-248 | The mirror image. |
| `SplayTree.Tree.ZigZagRightLeft` | malloclab-s20-bhxxzp/stree.c:249-253 | The shape after a right and then a left rotation at the parent. |
| `SplayTree.Tree.ZigZagLeftRight` | malloclab-s20-bhxxzp/stree.c:254-258 | The mirror image. |
| `SplayTree.Tree.RightRotate` | malloclab-s20-bhxxzp/stree.c:207-226 | The pointer fields change exactly as the assignments say, and the root when the node was the root; what that means for the tree is `Rotations.RotateRight`. |
| `SplayTree.Tree.LeftRotate` | malloclab-s20-bhxxzp/stree.c:186-205 | The mirror image; see `Rotations.RotateLeft`. |
| `SplayTree.Tree.Replace` | malloclab-s20-bhxxzp/stree.c:262-272 | The pointer down to one node is redirected to another, whose parent is set. |
| `SplayTree.Tree.SubtreeMinimum` | malloclab-s20-bhxxzp/stree.c:274-279 | The node found has no left child and comes first in the order of the subtree. |
| `SplayTree.Tree.SeekPlace` | malloclab-s20-bhxxzp/stree.c:43-58 | Finds the key, or the hole where it belongs and the node above it. |
| `SplayTree.Tree.InsertAt` | malloclab-s20-bhxxzp/stree.c:60-77 | A new leaf in that hole, splayed to the root, adds exactly one entry. |
| `SplayTree.Tree.Seek` | malloclab-s20-bhxxzp/stree.c:122-131 | Finds the node of the key, or none exactly when the key is missing. |
| `SplayTree.Tree.RemoveAt` | malloclab-s20-bhxxzp/stree.c:134-155 | Splaying a node to the root and taking it out removes exactly its entry. |
| `SplayTree.Tree.Unroot` | malloclab-s20-bhxxzp/stree.c:135-151 | Taking out the root keeps the order of all other nodes, and the pointers agree with the new tree. |
| `SplayTree.Tree.UnrootOne` | malloclab-s20-bhxxzp/stree.c:135-138 | With at most one child, that child becomes the tree. |
| `SplayTree.Tree.UnrootBoth` | malloclab-s20-bhxxzp/stree.c:140-151 | With two children the successor takes the place of the root. |
| `SplayTree.Tree.BringUp` | malloclab-s20-bhxxzp/stree.c:142-147 | The successor is taken out of the right subtree and gets the rest of it as its own. |
| `SplaySpec.SplayInOrder` | malloclab-s20-bhxxzp/stree.c:228-260 | Splaying keeps the in-order sequence of the nodes, for every path and subtree. |
| `SplayCost.SplayPays` | malloclab-s20-bhxxzp/stree.c:228-260 | One splay, along any path: the depth of the node is covered by the potential set free (twice the sum of the logarithms of all subtree sizes) and 6 (log of the size of the tree - log of the size of the subtree) + 1. |
| `SplayCost.TurnPays` | malloclab-s20-bhxxzp/stree.c:239-258 | Each pair of rotations in it pays for itself: only the sizes of three subtrees change. |
| `SplayCost.RankStep` | malloclab-s20-bhxxzp/stree.c:239-258 | The reason: two disjoint subtrees cannot both have the full logarithm of the tree that holds them. |
| `SplayCost.InsertPays` | malloclab-s20-bhxxzp/stree.c:60-77 | A new leaf and its splay are covered by 8 log n + 1. |
| `SplayRuns.Run` | malloclab-s20-bhxxzp/stree.c:41-156 | Any sequence of insertions, removals and searches on any tree refines the map, and its rotations are covered by the potential of the tree at the start and N (8 log(n + N) + 1). If every operation splays (a new key goes in, a present key goes out), the comparisons of the searches are at most twice the rotations. |
| `SplayRuns.RunNew` | malloclab-s20-bhxxzp/stree.c:20-156 | From the empty tree N operations take at most N (8 log N + 1) rotations, and at most twice that many comparisons if every one splays. |
| `SplayRuns.IdlingCosts` | malloclab-s20-bhxxzp/stree.c:41-156 | Operations that do not splay have no such bound, whatever their kind: after n keys have been inserted in order, a search for the first or an earlier key, an insertion of the first, or a removal of an earlier one takes at least n comparisons, however often it is repeated. |
| `SplayRuns.SpineGrows` | malloclab-s20-bhxxzp/stree.c:41-79 | The reason: a new largest key splayed into a tree without right children gives again such a tree, |
| `SplayRuns.SpineCost` | malloclab-s20-bhxxzp/stree.c:41-156 | in which a search for a first or an earlier key goes past every node. |
| `Rotations.RotateRight` | malloclab-s20-bhxxzp/stree.c:207-226 | Wherever in the tree, the assignments of right_rotate turn (A y B) x C into A y (B x C) with all parent pointers right. |
| `Rotations.RotateLeft` | malloclab-s20-bhxxzp/stree.c:186-205 | The mirror image. |
| `SplaySpec.DictInsert` | malloclab-s20-bhxxzp/stree.c:66-77 | A node put between the smaller and the larger ones adds just its entry. |
| `SplaySpec.DictSize` | malloclab-s20-bhxxzp/stree.c:77 | A sorted tree has as many entries as nodes. |
| `SplaySpec.NotFound` | malloclab-s20-bhxxzp/stree.c:46-58 | A search that ends in a hole means the key is missing, and the hole lies between the smaller and the larger keys. |
| `SplaySpec.Found` | malloclab-s20-bhxxzp/stree.c:87-88 | A search that meets the key has met its entry. |
| `SplaySpec.NearestBefore` | malloclab-s20-bhxxzp/stree.c:108-117 | When the search ends in a hole, the last right turn is at the nearest smaller key. |
| `SplaySpec.LastTurn` | malloclab-s20-bhxxzp/stree.c:110-111 | Each later right turn is at a larger key than the ones before, which is what the comparison in the loop tests. |
| `Removal.SpliceOut` | malloclab-s20-bhxxzp/stree.c:262-272 | Replacing a node that has one child by that child takes just this node out. |
| `Removal.SuccessorOrder` | malloclab-s20-bhxxzp/stree.c:140-151 | Putting the first node of the right subtree in the place of the root keeps the order of the rest. |
| `Removal.RemovedEntries` | malloclab-s20-bhxxzp/stree.c:120-156 | A sorted sequence without one node stands for the map without its key. |
| `Removal.BroughtUp` | malloclab-s20-bhxxzp/stree.c:142-147 | After the three assignments for a successor further down, its right subtree hangs below it. |
| `Removal.Crown` | malloclab-s20-bhxxzp/stree.c:148-150 | With the last three assignments the successor is the root with both subtrees. |
| `CacheSim.Simulate` | cachelab-s20-bhxxzp/csim1.c:64-202 | The printed hits, misses, evictions, dirty bytes and dirty evictions are those of true least-recently-used sets, over every trace. |
| `CacheSim.AccessRow` | cachelab-s20-bhxxzp/csim1.c:87-182 | Rank bookkeeping refines the recency stack: a hit exactly when the block is among the resident ones, an eviction exactly on a miss in a full set, bytes written back exactly when the victim is dirty. |
| `CacheSim.AccessCache` | cachelab-s20-bhxxzp/csim1.c:79-182 | The access changes only the set its address names, and agrees with the abstract step. |
| `CacheSim.Miss` | cachelab-s20-bhxxzp/csim1.c:121-182 | A miss fills an open line, or evicts exactly when the set is full. |
| `CacheSim.Replace` | cachelab-s20-bhxxzp/csim1.c:151-181 | In a full set the search always meets a line of rank 1 (if there is a line at all), and it is the least recently used one. |
| `CacheSim.FindLine` | cachelab-s20-bhxxzp/csim1.c:94-96 | The first valid line with the tag, or none exactly when there is none. |
| `CacheSim.Hit` | cachelab-s20-bhxxzp/csim1.c:99-116 | The ranks after the loop over the row. |
| `CacheSim.Fill` | cachelab-s20-bhxxzp/csim1.c:126-149 | The first open line gets the block; only lines in use lose a rank. |
| `CacheSim.Evict` | cachelab-s20-bhxxzp/csim1.c:157-179 | The first line of rank 1 gets the block, and its old block is written back if dirty. |
| `CacheSim.NewCache` | cachelab-s20-bhxxzp/csim1.c:46-59 | Every set starts empty. |
| `CacheSim.CountDirty` | cachelab-s20-bhxxzp/csim1.c:195-202 | The dirty bytes left are B for each dirty resident block. |
| `CacheSim.DirtyLinesAreBlocks` | cachelab-s20-bhxxzp/csim1.c:197-199 | A row has as many dirty lines as its set has dirty blocks: no invalid line is dirty. |
| `CacheTrace.Inclusion` | cachelab-s20-bhxxzp/csim1.c:93-182 | An access that hits with E lines hits with any larger number, for every trace before it. |
| `CacheTrace.MissesNeverRise` | cachelab-s20-bhxxzp/csim1.c:93-182 | So misses never rise and hits never fall with E. |
| `CacheTrace.SetsFollowRecency` | cachelab-s20-bhxxzp/csim1.c:93-182 | After any trace a set holds the E most recently used distinct tags in that order. |
| `CacheTrace.VictimIsLeastRecent` | cachelab-s20-bhxxzp/csim1.c:157-165 | The last of the stack was used longer ago than every other block of the set. |
| `CacheTrace.Accounting` | cachelab-s20-bhxxzp/csim1.c:76-202 | Over every trace hits + misses are the accesses, misses are evictions plus resident blocks, and dirty bytes plus dirty evictions are B times the number of times a block goes from clean to dirty. |
| `CacheTrace.StepCounts` | cachelab-s20-bhxxzp/csim1.c:79-182 | One access changes the resident and dirty counts by exactly what it brings in, evicts and soils. |
| `CacheBlocks.HitExact` | cachelab-s20-bhxxzp/csim1.c:76-182 | In block numbers alone, for every trace: an access hits if and only if its block was used before and fewer than E blocks of its set, those with the same number mod 2^s, have been used since. |
| `CacheBlocks.EvictionExact` | cachelab-s20-bhxxzp/csim1.c:119-182 | A miss evicts a block if and only if at least E blocks of the set have been used. |
| `CacheBlocks.CountersExact` | cachelab-s20-bhxxzp/csim1.c:76-182 | The counters are the numbers of accesses that hit, and that evict. |
| `CacheBlocks.DirtyExact` | cachelab-s20-bhxxzp/csim1.c:105-179 | A block in the cache is dirty if and only if it was stored to since it came in: some store to it has no later miss of it. |
| `CacheBlocks.BlocksAreTags` | cachelab-s20-bhxxzp/csim1.c:79-84 | The blocks a trace uses in a set and their tags correspond one to one. |
| `RankedRow.RanksPermuted` | cachelab-s20-bhxxzp/csim1.c:103-176 | The ranks of the k lines in use are E-k+1 to E, each once, and their tags differ. |
| `RankedRow.LastHasRankOne` | cachelab-s20-bhxxzp/csim1.c:157-165 | A full set has a line of rank 1, and any such line holds the least recently used block. |
| `RankedRow.HitRefines` | cachelab-s20-bhxxzp/csim1.c:103-116 | Lowering the ranks above the old one moves the block to the front of the stack. |
| `RankedRow.FillRefines` | cachelab-s20-bhxxzp/csim1.c:130-145 | Filling an open line pushes the block. |
| `RankedRow.EvictRefines` | cachelab-s20-bhxxzp/csim1.c:159-176 | Replacing the line of rank 1 drops the last block and pushes the new one. |
| `RankedRow.HitIsIn` | cachelab-s20-bhxxzp/csim1.c:94-96 | The tag is in the stack exactly when some valid line has it. |
| `RankedRow.Full` | cachelab-s20-bhxxzp/csim1.c:126-128 | The stack is as long as the row exactly when every line is in use. |
| `RecencyStack.RecencyOrder` | cachelab-s20-bhxxzp/csim1.c:103-179 | The abstract stack holds every tag used once, ordered by last use. |
| `RecencyStack.DepthIs` | cachelab-s20-bhxxzp/csim1.c:103-179 | A tag is as deep in that order as there are different tags used after it. |
| `RecencyStack.TakeFront` | cachelab-s20-bhxxzp/csim1.c:103-179 | Moving to the front commutes with keeping the first n: the stack property. |
| `RecencyStack.TouchTags` | cachelab-s20-bhxxzp/csim1.c:93-182 | A set of E lines keeps holding the first E of the full recency order. |
| `CacheGeometry.SetOfIsRemainder` | cachelab-s20-bhxxzp/csim1.c:80-84 | The two 64-bit shifts pick the set (address / 2^b) mod 2^s, the edge case included. |
| `CacheGeometry.TagOfIsQuotient` | cachelab-s20-bhxxzp/csim1.c:79-80 | The tag is address / 2^(s + b), the block number without its set. |
| `CacheGeometry.SameBlock` | cachelab-s20-bhxxzp/csim1.c:79-84 | Two addresses have the same tag in the same set if and only if they lie in the same block. |
| `ShellTheorems.EveryRunKeepsInv` | tshlab-s20-bhxxzp/tsh.c:173-436 | Every interleaving of shell, handlers and children keeps the invariant. |
| `ShellTheorems.JobsMatchChildren` | tshlab-s20-bhxxzp/tsh.c:206-302 | Outside the window between fork and add_job, jobs and unreaped children are in bijection, as long as add_job never met a full table. |
| `ShellTheorems.OverflowExact` | tshlab-s20-bhxxzp/tsh_helper.c:359-366 | What that proviso says: the state records an overflow exactly when some step of the run called add_job on a full table. |
| `ShellTheorems.HandlerFindsTheJob` | tshlab-s20-bhxxzp/tsh.c:274-297 | So the handler finds a job for every child it reaps, and does not abort. |
| `ShellTheorems.PromptHasNoForeground` | tshlab-s20-bhxxzp/tsh.c:232-252 | No job is in the foreground when the shell is back at the prompt. |
| `ShellTheorems.NoLostWakeUp` | tshlab-s20-bhxxzp/tsh.c:238-240 | While sigsuspend waits, the foreground job runs or its signal is pending and deliverable. |
| `ShellTheorems.AbortsOnlyWhen` | tshlab-s20-bhxxzp/tsh.c:264-436 | A step aborts the shell if and only if it is do_bgfg using a job reaped since its check, or the handler reporting a stopped child that never got a job. |
| `ShellTheorems.CheckedOrReaped` | tshlab-s20-bhxxzp/tsh.c:405-424 | A job that do_bgfg has checked is there when it is used, unless the handler interrupted do_bgfg since that check and reaped its child, which had ended. |
| `ShellTheorems.StoppedJobs` | tshlab-s20-bhxxzp/tsh.c:274-282 | After every run a job whose child is known to be stopped is in state ST; and it is in state ST only if its child is stopped, or has ended since, or was continued by someone else. |
| `ShellTheorems.CommandLines` | tshlab-s20-bhxxzp/tsh.c:232-246 | After every run the command line of a job is the one that its process was last forked for. |
| `ShellTheorems.ReapedAfterCheck` | tshlab-s20-bhxxzp/tsh.c:413-424 | The first of these: every run that is back at the prompt, with a running job and no signal pending, goes on, in one way, to an abort in do_bgfg. |
| `ShellTheorems.AbortInBgfg` | tshlab-s20-bhxxzp/tsh.c:413-424 | And there is such a run from the start, for fg and for bg. |
| `ShellTheorems.StoppedWithoutJob` | tshlab-s20-bhxxzp/tsh.c:241-282 | The second: every run that has forked a background child with the table full goes on, in one way, to an abort in the handler. |
| `ShellTheorems.AbortInHandler` | tshlab-s20-bhxxzp/tsh.c:241-282 | And there is such a run from the start. |
| `ShellTheorems.StartJobs` | tshlab-s20-bhxxzp/tsh.c:232-252 | For each n up to MAXJOBS a run starts n background jobs, by induction. |
| `ShellSteps.StepInv` | tshlab-s20-bhxxzp/tsh.c:173-436 | Each possible step keeps the invariant. |
| `ShellSteps.AddStep` | tshlab-s20-bhxxzp/tsh.c:232-246 | Recording the job after fork keeps it and cannot abort. |
| `ShellSteps.ReapStep` | tshlab-s20-bhxxzp/tsh.c:274-297 | Handling one child keeps it, and aborts exactly for a stopped child without a job. |
| `ShellSteps.ResumeStep` | tshlab-s20-bhxxzp/tsh.c:421-436 | Resuming a job keeps it. |
| `ShellSteps.JobSteps` | tshlab-s20-bhxxzp/tsh.c:173-436 | Which step does what to a job: jobs come only from add_job, FG or BG as eval says, with their process and command line; they go only when the handler reaps their ended child; they become ST only when it reaps their stopped child, and FG or BG only by fg or bg. In all other steps, and in these for all other jobs, state, process and command line stay. |
| `Shell.EvalAdd` | tshlab-s20-bhxxzp/tsh.c:232-243 | The code of eval after fork does the abstract step on the job list, does not abort, and waits exactly for a foreground job. |
| `Shell.ReapChild` | tshlab-s20-bhxxzp/tsh.c:274-297 | The body of the handler loop does the abstract step, and aborts exactly when the step says. |
| `Shell.BgfgName` | tshlab-s20-bhxxzp/tsh.c:398-406 | do_bgfg finds the job of a process id, or goes back to the prompt. |
| `Shell.BgfgCheck` | tshlab-s20-bhxxzp/tsh.c:407-413 | It goes on exactly with a job that exists. |
| `Shell.BgfgResume` | tshlab-s20-bhxxzp/tsh.c:421-426 | The last part of do_bgfg does the abstract step, aborts exactly when the step says, and prints the command line of the job. |
| `Shell.MustWait` | tshlab-s20-bhxxzp/tsh.c:238-240 | So does the test of the wait loops. |
| `JobList.JobList.AddJob` | tshlab-s20-bhxxzp/tsh_helper.c:339-390 | Aborts exactly on a bad state, pid or command line or a second foreground job; returns 0 exactly when no id is left; otherwise the job is in the slot of nextjid and the table stays well formed, so the assertion on the slot never fires. |
| `JobList.JobList.DeleteJob` | tshlab-s20-bhxxzp/tsh_helper.c:398-414 | True exactly when the job exists; its slot is cleared and nextjid is one more than the largest id left. |
| `JobList.JobList.JobSetState` | tshlab-s20-bhxxzp/tsh_helper.c:479-486 | Aborts exactly without such a job, on a bad state, or for a second foreground job; otherwise only the state changes. |
| `JobList.JobList.MaxJid` | tshlab-s20-bhxxzp/tsh_helper.c:286-293 | The largest live id, or 0. |
| `JobList.JobList.FgJob` | tshlab-s20-bhxxzp/tsh_helper.c:420-434 | The foreground job, or 0 exactly when there is none. |
| `JobList.JobList.JobFromPid` | tshlab-s20-bhxxzp/tsh_helper.c:440-461 | The job of the process, or 0 exactly when there is none. |
| `JobList.JobList.JobExists` | tshlab-s20-bhxxzp/tsh_helper.c:299-307 | True exactly for the id of a live job; any other id, also out of range, is false. |
| `JobList.JobList.JobGetPid` | tshlab-s20-bhxxzp/tsh_helper.c:492-498 | Aborts exactly without such a job; otherwise its process id. |
| `JobList.JobList.JobGetCmdline` | tshlab-s20-bhxxzp/tsh_helper.c:504-510 | Aborts exactly without such a job; otherwise its command line. |
| `JobList.JobList.JobGetState` | tshlab-s20-bhxxzp/tsh_helper.c:467-473 | Aborts exactly without such a job; otherwise its state. |
| `JobList.JobList.constructor` | tshlab-s20-bhxxzp/tsh_helper.c:258-266 | The empty table is well formed. |
| `JobTable.NextIsFree` | tshlab-s20-bhxxzp/tsh_helper.c:360-368 | In a well-formed table nextjid is in 1..MAXJOBS+1 and not live, and the table counts as full exactly when the last slot is live. |
| `JobTable.AddedOk` | tshlab-s20-bhxxzp/tsh_helper.c:367-389 | Adding gives exactly one more live job, with the given process, state and command line, and at most one is in the foreground; all other slots stay as they were. |
| `JobTable.DeletedOk` | tshlab-s20-bhxxzp/tsh_helper.c:401-413 | Deleting takes away exactly that job; all other slots stay as they were. |
| `JobTable.WithStateOk` | tshlab-s20-bhxxzp/tsh_helper.c:479-486 | Changing a state leaves the process and the command line of the job, and all other slots. |
| `SparseMemory.SparseMemory.Read` | malloclab-s20-bhxxzp/memlib.c:279-321 | Inside the heap: the little-endian value of the bytes last written, over one page or two, whatever lies past the page. With the check on it exits exactly when one of the bytes was not written since the reset, and changes nothing else; with the check off exactly when there are not enough free pages. |
| `SparseMemory.SparseMemory.Write` | malloclab-s20-bhxxzp/memlib.c:324-367 | The flat memory changes in exactly the given bytes, also over a page boundary; exits exactly when there are not enough free pages. |
| `SparseMemory.SparseMemory.Memcpy` | malloclab-s20-bhxxzp/memlib.c:370-388 | Each destination byte is what the loop reads there, turn by turn, with the check on or off; exits exactly when there are not enough free pages for the destination (with the check off, for source and destination) or, with the check on, some byte is not written when it is read. |
| `SparseMemory.SparseMemory.Memset` | malloclab-s20-bhxxzp/memlib.c:391-413 | Every byte becomes c mod 256, whatever the number of bytes; exits exactly when there are not enough free pages for the whole stretch. |
| `SparseMemory.SparseMemory.Spread` | malloclab-s20-bhxxzp/memlib.c:394-401 | The bitwise or of the loop builds a word that holds the byte eight times. |
| `SparseMemory.SparseMemory.ResetBrk` | malloclab-s20-bhxxzp/memlib.c:168-181 | Afterwards no byte counts as written and all pages are free. |
| `SparseMemory.SparseMemory.Sbrk` | malloclab-s20-bhxxzp/memlib.c:188-228 | Moves the break by a non-negative amount within the limit and returns the old one, or refuses and changes nothing. |
| `SparseMemory.SparseMemory.constructor` | malloclab-s20-bhxxzp/memlib.c:94-150 | A fresh memory has no written byte. |
| `SparseMemory.SparseMemory.FindBlock` | malloclab-s20-bhxxzp/memlib.c:485-491 | The walk of the bucket ends, and finds the page of the id exactly when one is in use. |
| `SparseMemory.SparseMemory.Obtain` | malloclab-s20-bhxxzp/memlib.c:485-513 | A missing page is taken and put in its bucket without changing the flat memory; exits exactly when it is missing and none is free. |
| `SparseMemory.SparseMemory.MarkBytes` | malloclab-s20-bhxxzp/memlib.c:515-552 | Exactly the bits of the bytes written in the page are set. |
| `SparseMemory.SparseMemory.CheckBytes` | malloclab-s20-bhxxzp/memlib.c:515-552 | Succeeds exactly when the check is off or every byte read in the page has its bit set. |
| `SparseMemory.SparseMemory.WriteSplit` | malloclab-s20-bhxxzp/memlib.c:335-344 | The two copies of a split write make one store to the flat memory. |
| `SparseMemory.SparseMemory.ReadSecond` | malloclab-s20-bhxxzp/memlib.c:291-303 | Mask, shift and or of the two loads give the bytes of both pages in order. |
| `SparseMemory.ReadBack` | malloclab-s20-bhxxzp/memlib.c:278-367 | Bytes of a value that are written are read back as the value mod 2^(8 n), and all other bytes keep theirs. |
| `SparseMemory.CopyMovesAll` | malloclab-s20-bhxxzp/memlib.c:370-388 | Going down, or between stretches that do not overlap, a copy moves all bytes at once, and is readable exactly when the whole source has been written. |
| `LittleEndian.CombineIs` | malloclab-s20-bhxxzp/memlib.c:296-302 | The bitwise or of the masked low part and the shifted high part is the value of both parts one after the other. |
| `LittleEndian.LowIs` | malloclab-s20-bhxxzp/memlib.c:315-319 | The bitwise and with a mask keeps exactly its low bytes. |
| `LittleEndian.ValueOfBytes` | malloclab-s20-bhxxzp/memlib.c:337-352 | The low n bytes of a value stand for the value masked to n bytes. |
| `LittleEndian.BytesOfIs` | malloclab-s20-bhxxzp/memlib.c:337-352 | Byte i of a value is its bits 8 i to 8 i + 7. |
| `SparseStore.TakenSound` | malloclab-s20-bhxxzp/memlib.c:494-512 | A page that is taken is in its own bucket, and no id occurs twice. |
| `SparseStore.TakenFlat` | malloclab-s20-bhxxzp/memlib.c:506-512 | A page that is taken, whatever bytes it holds, has no written byte. |
| `SparseStore.FilledFlat` | malloclab-s20-bhxxzp/memlib.c:523-530 | Marking bytes and copying them in is a store to the flat memory at that page. |
| `SparseMemory.RoomForMore` | malloclab-s20-bhxxzp/memlib.c:370-413 | Once the pages of one stretch are there, another stretch runs out of pages exactly when there were not enough for both. |
| `SparseMemory.RoomForTwo` | malloclab-s20-bhxxzp/memlib.c:331-341 | A split access runs out of pages at the second page exactly when there were not enough for both. |
| `SparseMemory.SpanIs` | malloclab-s20-bhxxzp/memlib.c:331-341 | The pages counted for a stretch are those that its bytes lie in. |
| `ObjectCache.ObjectCache.WriteNode` | proxylab-s20-bhxxzp/cache.c:100-140 | A present key changes nothing. A new one is put first and exactly the shortest least recently used suffix that makes room goes. A new object larger than the whole cache, and only that, ends in the deletion of the head sentinel. |
| `ObjectCache.ObjectCache.GetValue` | proxylab-s20-bhxxzp/cache.c:143-155 | Found exactly when the key is there; the bytes are those stored, and the object becomes the first. |
| `ObjectCache.ObjectCache.FindNode` | proxylab-s20-bhxxzp/cache.c:82-96 | The node with the key is moved to the front with both links right, or NULL exactly when there is none. |
| `ObjectCache.ObjectCache.AddNode` | proxylab-s20-bhxxzp/cache.c:112-139 | The part under the lock: new object first, the rest cut to what fits. |
| `ObjectCache.ObjectCache.Evict` | proxylab-s20-bhxxzp/cache.c:122-136 | The loop stops with the longest prefix that leaves room; it reaches the head sentinel exactly when the object alone is too large. |
| `ObjectCache.ObjectCache.DeleteNode` | proxylab-s20-bhxxzp/cache.c:179-187 | The node is out of the list and the size counted falls by its size. |
| `ObjectCache.ObjectCache.MoveToFront` | proxylab-s20-bhxxzp/cache.c:86-91 | The six assignments give a well-formed two-way list with the node in front. |
| `ObjectCache.ObjectCache.PushFront` | proxylab-s20-bhxxzp/cache.c:115-120 | The new object is first, keys stay distinct and the size is counted. |
| `ObjectCache.ObjectCache.HasNode` | proxylab-s20-bhxxzp/cache.c:101-111 | True exactly when the key is in the cache. |
| `ObjectCache.ObjectCache.constructor` | proxylab-s20-bhxxzp/cache.c:39-55 | The new cache is well formed and empty. |
| `CacheSpec.KeptIsLongest` | proxylab-s20-bhxxzp/cache.c:121-136 | What is kept is a prefix, and a prefix fits in the room exactly when it is no longer than that. |
| `CacheSpec.WithoutLast` | proxylab-s20-bhxxzp/cache.c:123-136 | As long as the object does not fit, dropping the last one does not change what is kept in the end. |
| `CacheSpec.TotalToFront` | proxylab-s20-bhxxzp/cache.c:82-96 | Moving to the front keeps the total size. |
| `CacheRuns.Run` | proxylab-s20-bhxxzp/cache.c:82-155 | The calls of a run on the real list, from an empty cache: it does to the contents what the abstract run does, and ends early only at an object larger than the cache. |
| `CacheRuns.OrderOfUse` | proxylab-s20-bhxxzp/cache.c:82-155 | After every run the keys differ, the objects are in the order of their last use (a get, or the write that brought them in), and they take no more than MAX_CACHE_SIZE. |
| `CacheRuns.BytesStored` | proxylab-s20-bhxxzp/cache.c:100-155 | The bytes of an object are those of a write that brought it in when its key was missing, and it has been there since. |
| `WordPuzzles.BitCountIsSum` | datalab-s20-bhxxzp/bits.c:308-323 | For every long, bitCount is the sum of its 64 bits. |
| `WordPuzzles.BitIsShifted` | datalab-s20-bhxxzp/tests.c:103-109 | Those bits are the ones the reference loop reads. |
| `FieldSums.AddFieldsSum` | datalab-s20-bhxxzp/bits.c:316-321 | One masked shift-and-add keeps the sum of the fields while it doubles their width. |
| `WordPuzzles.Masks` | datalab-s20-bhxxzp/bits.c:310-315 | The masks, each made from the one before, are alternating fields of 32, 16, 8, 4, 2 and 1 bits. |
| `WordPuzzles.IsPalindromeIsMirror` | datalab-s20-bhxxzp/bits.c:332-349 | For every long, isPalindrome is 1 exactly when each bit of the upper half equals its mirror image in the lower half. |
| `WordPuzzles.ReversedBit` | datalab-s20-bhxxzp/bits.c:341-346 | The six swaps reverse the 64 bits. |
| `BitPuzzles.IntegerLog2IsFloor` | datalab-s20-bhxxzp/bits.c:357-385 | For every positive long, 2^r <= x < 2^(r+1). |
| `BitPuzzles.Halve` | datalab-s20-bhxxzp/bits.c:373-383 | One turn of the search halves the range the answer lies in. |
| `BitPuzzles.TrueThreeFourthsIs` | datalab-s20-bhxxzp/bits.c:278-286 | For every long, exactly 3x/4 rounded toward zero, with no overflow: 4 times the result is within 4 of 3x, on the side of zero. |
| `BitPuzzles.DividePower2IsQuotient` | datalab-s20-bhxxzp/bits.c:226-231 | For every long and 0 <= n <= 62, exactly x / 2^n rounded toward zero: the result times 2^n is within 2^n of x, on the side of zero. |
| `BitPuzzles.IsLessOrEqualIs` | datalab-s20-bhxxzp/bits.c:252-265 | For all longs 1 exactly when x <= y, also when y - x overflows. |
| `FloatScale.FloatScale4` | datalab-s20-bhxxzp/bits.c:424-457 | For every argument the result encodes exactly four times the number (binary32 of section 3.4 of IEEE 754-2008), or the infinity of the same sign when that is too large; NaN comes back unchanged. |
| `FloatScale.FieldsAre` | datalab-s20-bhxxzp/bits.c:424-433 | The fields are the top bit, the next eight bits and the low 23 bits of the argument. |
| `FloatScale.OneIs` | datalab-s20-bhxxzp/bits.c:424-457 | The unit of the magnitudes is right: 0x3F800000, which encodes one, is 2^149 of them, |
| `FloatScale.TooLargeIs` | datalab-s20-bhxxzp/bits.c:434-442 | and the finite numbers end at 2^128. |
| `FloatScale.Overflows` | datalab-s20-bhxxzp/bits.c:434-442 | Four times the number is too large exactly when its exponent field is at least 253. |
| `FloatScale.DoubledIs` | datalab-s20-bhxxzp/bits.c:435-451 | One turn of the loop doubles the magnitude, subnormal or not, until the exponent field is full. |
| `TwosComplement.AndBit` | datalab-s20-bhxxzp/bits.c:226-385 | The operators of the model act bit by bit on two's complement numbers: here `&`. |
| `TwosComplement.OrBit` | datalab-s20-bhxxzp/bits.c:226-385 | Here `|`. |
| `TwosComplement.OrDisjoint` | malloclab-s20-bhxxzp/memlib.c:296-302 | Numbers without a common bit are added by `|`. |
| `TwosComplement.XorBit` | datalab-s20-bhxxzp/bits.c:226-385 | Here `^`. |
| `TwosComplement.NotBit` | datalab-s20-bhxxzp/bits.c:226-385 | Here `~`. |
| `TwosComplement.ShrBit` | datalab-s20-bhxxzp/bits.c:226-385 | Here `>>`, which copies the sign. |
| `TwosComplement.WrapBit` | datalab-s20-bhxxzp/bits.c:226-385 | Wrapping to a long keeps the low 64 bits. |
| `KBest.Sampler.AddSample` | malloclab-s20-bhxxzp/fcyc.c:63-88 | After any number of samples the array starts with the smallest ones seen, ascending. |
| `KBest.Sampler.Settle` | malloclab-s20-bhxxzp/fcyc.c:80-87 | The exchanges put the new value in its place and leave the rest of the array. |
| `KBest.Sampler.HasConverged` | malloclab-s20-bhxxzp/fcyc.c:91-95 | True exactly when k samples have been seen and at least k of all samples are at most (1 + epsilon) times the smallest. |
| `KBest.KthWithin` | malloclab-s20-bhxxzp/fcyc.c:91-95 | The k-th of the ordered samples is within a factor of the first exactly when at least k samples are within it. |
| `KBest.Sampler.constructor` | malloclab-s20-bhxxzp/fcyc.c:48-60 | Starts without samples. |
| `KBest.TakeIsSmallest` | malloclab-s20-bhxxzp/fcyc.c:63-88 | The first min(count, k) of the ordered samples are ascending, and with the others make up all samples, none of the others being smaller. |
| `KBest.TakeInsert` | malloclab-s20-bhxxzp/fcyc.c:66-75 | Keeping only the k best is enough: a new sample changes them exactly when it is below the k-th, and then the k-th goes. |
| `KBest.InOrderSorts` | malloclab-s20-bhxxzp/fcyc.c:80-87 | The order holds every sample as often as it was seen. |

## Left out

Allocator (mm.c, memlib.c, mdriver.c):

- Allocator.Heap.MmMalloc: takes requests of at most 2^64 - 24 bytes; what the code does with a wrapped size is only shown by `RequestTooLarge`.
- Allocator.Heap.MemSbrk: the failure of the system call sbrk itself in dense mode is not modelled, only the limit of the arena.
- Allocator.Heap.DeleteBlock: the early return on a NULL block never happens and is not in the body; the counter `times` is left out. The same holds of the NULL test of insert_block.
- Allocator.Heap.MmFree: a pointer that is neither NULL nor a live payload is outside the contract of free; likewise for realloc.
- Words are numbers, and `size | flag` adds a flag bit that is not set (`OrIsBitwise`). A word counts as written once the allocator has stored to it as a whole, as it always does; the payload words are the client's.
- mem_sbrk and mem_memcpy appear twice, on the dense words of the heap here and on the pages of the sparse mode below.
- calloc, and the heap checkers check_block, check_freelist and mm_checkheap, which are debugging aids.
- TraceReplay.EvalMmValid: the replay stops, as `Misused`, before a request that would hand over a stale pointer; what the code does from there on is not modelled. The list and tree of ranges are one map from payload addresses to sizes; random data become part of the trace; the expensive debug mode and the timing are left out. Bytes beyond the last whole word of the driver's data are not compared.

Splay tree (stree.c):

- SplayTree.Tree.RightRotate: the guard for a missing child is left out, since splaying only rotates towards an existing child; the same for LeftRotate.
- The steps of subtree_minimum, and the test of the key in the loop of tree_remove, are not in comparison_count, and are not counted here either. A removal or insertion that finds nothing to do does not splay, and has the cost of a search.
- Running out of memory, freeing nodes, tree_free, tree_show and subtree_maximum.

Cache simulator (csim1.c):

- CacheGeometry.SetOfIsRemainder: needs shift counts below 64 (s + b < 64, and s > 0 unless b = 0), as C does.
- CacheSim.Simulate: counters and ranks are unbounded numbers, 1 << s and 1 << b do not overflow, and the trace is given as a sequence; option parsing, file reading and printing are left out.

Shell (tsh.c, tsh_helper.c):

- ShellTheorems.JobsMatchChildren: assumes that fork returns a process id that is not among the unreaped children, and that SIGCONT reaches the child.
- Command line parsing, redirection, exec, process groups, printing, the warnings of check_blocked, destroy_job_list, and the quit and jobs commands. The SIGINT and SIGTSTP handlers change no job; they appear as a signal that interrupts sigsuspend, and their effect as a child that ends or stops.

Sparse memory (memlib.c):

- SparseMemory.SparseMemory.Read: an access outside the heap goes straight to memory in the source; here it is reported as `Outside`. The bytes past the end of a page are a parameter, so they may be anything.
- SparseMemory.SparseMemory.Memcpy: both stretches lie in the heap; the same for Memset.
- Pointers into the page area are page numbers; exit is the outcome `Exited`; the 128-bit accesses, hprobe, dense mode and statistics are left out, and the numbers of pages and buckets are parameters.

Object cache (cache.c):

- ObjectCache.ObjectCache.WriteNode: sequential calls only; the test for a duplicate key is outside the lock, so with two threads keys need not be distinct.
- ObjectCache.ObjectCache.DeleteNode: giving back memory is left out, and so is free_list. The NULL keys of the sentinels are empty strings that are never compared.

Bits and sampling (bits.c, fcyc.c):

- KBest.Sampler.AddSample: samples are real numbers, so neither NaN nor rounding occurs; the record of all samples and the timing loop are left out.
- The other puzzles are single expressions without a search or a loop. floatUnsigned2Float drops its rounding carry and can shift by 32, so it does not round correctly on all inputs; it is not modelled.

Not modelled at all, as easier or beyond a sequential model: the other allocators, the other cache simulators (csim.c, csim2.c, asd.c), matrix transposes, the queue and its console, the bomb and attack labs, sockets and HTTP forwarding.
