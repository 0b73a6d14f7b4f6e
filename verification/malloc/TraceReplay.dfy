/** The correctness check of the driver (eval_mm_valid in mdriver.c): a trace of requests is replayed, and
    the driver compares what it wrote into each payload with what it reads back. */
module TraceReplay {
  import opened HeapWords
  import opened SizeClasses
  import opened HeapShape
  import opened HeapSteps
  import opened HeapTheorems
  import opened PayloadBytes
  import opened Allocator

  /** A request names its block by an index, and carries the words the driver writes into the payload. */
  datatype Request =
    | Alloc(index: nat, size: nat, data: seq<nat>)
    | Realloc(index: nat, size: nat, data: seq<nat>)
    | Free(index: nat)

  /** Misused: the next request hands over a pointer that its index no longer owns. */
  datatype Verdict = Accepted | AllocationFailed | Rejected | Misused

  /** What the driver remembers of a block. */
  datatype Region = Region(p: nat, size: nat, data: seq<nat>)

  type Regions = map<nat, Region>

  /** `blocks` has an entry for each index whose pointer is not NULL, also after the block has been freed;
      `ranges` has the sizes of the allocated payloads. The driver does not know `live`, the indices that own
      the block their pointer names. */
  datatype Driver = Driver(blocks: Regions, ranges: map<nat, nat>, live: set<nat>)

  predicate WellFormed(r: Request) {
    match r
    case Alloc(_, size, data) => size <= MAX_REQUEST && 8 * |data| <= size
    case Realloc(_, size, data) => size <= MAX_REQUEST && 8 * |data| <= size
    case Free(_) => true
  }

  /** What a trace asks for: the live indices, each with its size and data. */
  datatype Wanted = Wanted(size: nat, data: seq<nat>)

  function Requested(w: map<nat, Wanted>, r: Request): map<nat, Wanted> {
    match r
    case Alloc(index, size, data) => w[index := Wanted(size, data)]
    case Realloc(index, size, data) => if size == 0 then w - {index} else w[index := Wanted(size, data)]
    case Free(index) => w - {index}
  }

  function AfterTrace(trace: seq<Request>): map<nat, Wanted> {
    if trace == [] then map[] else Requested(AfterTrace(trace[..|trace| - 1]), trace[|trace| - 1])
  }

  /** The indices that keep the pointer of a freed block: a Free leaves the pointer as it is. */
  function FreedBy(freed: set<nat>, live: set<nat>, r: Request): set<nat> {
    if r.Free? && r.index in live then freed + {r.index}
    else if r.Free? then freed
    else freed - {r.index}
  }

  function FreedAfter(trace: seq<Request>): set<nat> {
    if trace == [] then {}
    else
      var before := trace[..|trace| - 1];
      FreedBy(FreedAfter(before), AfterTrace(before).Keys, trace[|trace| - 1])
  }

  /** Request `k` frees or reallocates an index whose block has been freed and not been allocated again. */
  predicate Stale(trace: seq<Request>, k: nat) {
    k < |trace| && !trace[k].Alloc? && trace[k].index in FreedAfter(trace[..k])
  }

  /** Request `k` allocates a block for an index that has one, which is lost. */
  predicate Overwrites(trace: seq<Request>, k: nat) {
    k < |trace| && trace[k].Alloc? && trace[k].index in AfterTrace(trace[..k])
  }

  /** Request `k` is the last for the index, and asks for a block. */
  ghost predicate Standing(trace: seq<Request>, k: nat, index: nat) {
    && k < |trace| && trace[k].index == index && !trace[k].Free? && (trace[k].Realloc? ==> trace[k].size != 0)
    && forall m :: k < m < |trace| ==> trace[m].index != index
  }

  /** An index is live exactly when the last request for it asks for a block; it then has the size and the data of
      that request. */
  lemma {:induction false} AfterTraceIs(trace: seq<Request>, index: nat)
    ensures index in AfterTrace(trace) <==> exists k: nat :: Standing(trace, k, index)
    ensures forall k: nat :: Standing(trace, k, index) ==>
      index in AfterTrace(trace) && AfterTrace(trace)[index] == Wanted(trace[k].size, trace[k].data)
  {
    if trace != [] {
      var before, r := trace[..|trace| - 1], trace[|trace| - 1];
      AfterTraceIs(before, index);
      forall k: nat
        ensures Standing(trace, k, index) <==>
          if k == |before| then r.index == index && !r.Free? && (r.Realloc? ==> r.size != 0)
          else Standing(before, k, index) && r.index != index
      {
        StandingNext(trace, k, index);
      }
      hide Standing;
      if k: nat :| Standing(before, k, index) { assert Standing(trace, k, index) <==> r.index != index; }
      assert Standing(trace, |before|, index) <==> r.index == index && !r.Free? && (r.Realloc? ==> r.size != 0);
    }
  }

  lemma StandingNext(trace: seq<Request>, k: nat, index: nat)
    requires trace != []
    ensures var before, r := trace[..|trace| - 1], trace[|trace| - 1];
      && (k == |before| ==>
            (Standing(trace, k, index) <==> r.index == index && !r.Free? && (r.Realloc? ==> r.size != 0)))
      && (k != |before| ==> (Standing(trace, k, index) <==> Standing(before, k, index) && r.index != index))
      && (Standing(before, k, index) ==> k < |before| && trace[k] == before[k])
  {
  }

  /** Request `k` frees the block of the index, and no later one gives the index another pointer. */
  ghost predicate LeftBy(trace: seq<Request>, k: nat, index: nat) {
    && k < |trace| && trace[k] == Free(index) && index in AfterTrace(trace[..k])
    && forall m :: k < m < |trace| && trace[m].index == index ==> trace[m].Free?
  }

  lemma {:induction false} FreedAfterIs(trace: seq<Request>, index: nat)
    ensures index in FreedAfter(trace) <==> exists k: nat :: LeftBy(trace, k, index)
  {
    if trace != [] {
      var before, r := trace[..|trace| - 1], trace[|trace| - 1];
      FreedAfterIs(before, index);
      hide AfterTrace;
      forall k: nat
        ensures k == |before| ==> (LeftBy(trace, k, index) <==> r == Free(index) && index in AfterTrace(before))
        ensures k != |before| ==> (LeftBy(trace, k, index) <==> LeftBy(before, k, index) && (r.index == index ==> r.Free?))
        ensures LeftBy(before, k, index) ==> k < |before|
      {
        if k < |before| { assert trace[..k] == before[..k]; }
      }
      hide LeftBy;
      if k: nat :| LeftBy(before, k, index) {
        assert LeftBy(trace, k, index) <==> (r.index == index ==> r.Free?);
      }
      assert LeftBy(trace, |before|, index) <==> r == Free(index) && index in AfterTrace(before);
    }
  }

  function LiveRegions(d: Driver): Regions {
    map i | i in d.blocks && i in d.live :: d.blocks[i]
  }

  function Described(rs: Regions): map<nat, Wanted> {
    map i | i in rs :: Wanted(rs[i].size, rs[i].data)
  }

  /** Each region is the front of its own allocated block, and holds what the driver wrote. */
  ghost predicate Holds(b: map<nat, seq<nat>>, rs: Regions) {
    && (forall i :: i in rs ==> RegionHolds(b, rs[i]))
    && (forall i, j :: i in rs && j in rs && i != j ==> rs[i].p != rs[j].p)
  }

  ghost predicate RegionHolds(b: map<nat, seq<nat>>, r: Region) {
    && r.p > 0 && r.p - 1 in b && r.size <= 8 * |b[r.p - 1]|
    && 8 * |r.data| <= r.size && b[r.p - 1][..|r.data|] == r.data
  }

  /** The ranges are those of the allocated blocks: none is missing and none is left over. */
  ghost predicate Covers(b: map<nat, seq<nat>>, ranges: map<nat, nat>) {
    && (forall q: nat :: q in ranges <==> q > 0 && q - 1 in b)
    && (forall q :: q in ranges ==> ranges[q] <= 8 * |b[q - 1]|)
  }

  /** The range of each region has the size that was asked for. */
  ghost predicate Ranged(rs: Regions, ranges: map<nat, nat>) {
    forall i :: i in rs ==> rs[i].p in ranges && ranges[rs[i].p] == rs[i].size
  }

  lemma RangedPlaced(rs: Regions, ranges: map<nat, nat>, index: nat, r: Region)
    requires Ranged(rs - {index}, ranges) && r.p !in ranges
    ensures Ranged(rs[index := r], ranges[r.p := r.size])
  {
    forall i | i in rs && i != index
      ensures rs[i].p in ranges && ranges[rs[i].p] == rs[i].size
    {
      assert i in rs - {index};
    }
  }

  lemma RangedWithout(b: map<nat, seq<nat>>, rs: Regions, ranges: map<nat, nat>, index: nat)
    requires Ranged(rs, ranges) && Holds(b, rs) && index in rs
    ensures Ranged(rs - {index}, ranges - {rs[index].p})
  {
  }

  /** The tests of add_range: the new payload is aligned, inside the heap, and apart from all others. */
  predicate RangeOk(heapWords: nat, ranges: map<nat, nat>, p: nat, size: nat) {
    && p % 2 == 0 && 8 * p + size <= 8 * heapWords
    && forall q :: q in ranges ==> 8 * p + size <= 8 * q || 8 * q + ranges[q] <= 8 * p
  }

  /** They say of the bytes: each is in the heap and in no other remembered range. */
  lemma RangeOkIs(heapWords: nat, ranges: map<nat, nat>, p: nat, size: nat)
    requires size > 0 && forall q :: q in ranges ==> ranges[q] > 0
    ensures RangeOk(heapWords, ranges, p, size) <==>
      p % 2 == 0 && forall b: nat :: 8 * p <= b < 8 * p + size ==> ByteIsNew(heapWords, ranges, b)
  {
    assert ByteIsNew(heapWords, ranges, 8 * p + size - 1) ==> 8 * p + size <= 8 * heapWords;
    forall q | q in ranges && 8 * q < 8 * p + size && 8 * p < 8 * q + ranges[q]
      ensures !ByteIsNew(heapWords, ranges, if p < q then 8 * q else 8 * p)
    {
    }
    if RangeOk(heapWords, ranges, p, size) {
      forall b: nat | 8 * p <= b < 8 * p + size
        ensures ByteIsNew(heapWords, ranges, b)
      {
      }
    }
  }

  ghost predicate ByteIsNew(heapWords: nat, ranges: map<nat, nat>, b: nat) {
    b < 8 * heapWords && forall q :: q in ranges ==> !(8 * q <= b < 8 * q + ranges[q])
  }

  lemma NewRange(m: seq<nat>, S: set<nat>, ranges: map<nat, nat>, p: nat, size: nat)
    requires Shape(m, S) && Covers(LiveHeap(m, S), ranges[p := size]) && p !in ranges
    ensures RangeOk(|m|, ranges, p, size)
  {
    hide Shape, LiveHeap;
    assert p in ranges[p := size];
    PayloadInside(m, S, p - 1);
    forall q | q in ranges
      ensures 8 * p + size <= 8 * q || 8 * q + ranges[q] <= 8 * p
    {
      assert q in ranges[p := size];
      var g, h := q - 1, p - 1;
      if g < h { PayloadsDisjoint(m, S, g, h); } else { PayloadsDisjoint(m, S, h, g); }
    }
  }

  lemma CoversBlock(b: map<nat, seq<nat>>, ranges: map<nat, nat>, h: nat)
    requires Covers(b, ranges) && h in b
    ensures h + 1 in ranges
  {
    assert h + 1 - 1 in b;
  }

  lemma CoversAllocated(before: map<nat, seq<nat>>, after: map<nat, seq<nat>>, ranges: map<nat, nat>, size: nat, p: nat)
    requires Covers(before, ranges) && Allocated(before, after, size, p) && p != NULL
    ensures p !in ranges && Covers(after, ranges[p := size])
  {
    hide *;
    AllocatedOne(before, after, size, p);
    CoversNone(before, ranges, p);
    CoversOneMore(before, ranges, p - 1, after[p - 1], size);
  }

  lemma AllocatedOne(before: map<nat, seq<nat>>, after: map<nat, seq<nat>>, size: nat, p: nat)
    requires Allocated(before, after, size, p) && p != NULL
    ensures p > 0 && p - 1 !in before && p - 1 in after && after == before[p - 1 := after[p - 1]]
    ensures size <= 8 * |after[p - 1]|
  {
    hide AdjustedSize;
  }

  lemma CoversNone(b: map<nat, seq<nat>>, ranges: map<nat, nat>, p: nat)
    requires Covers(b, ranges) && p > 0 && p - 1 !in b
    ensures p !in ranges
  {
  }

  lemma CoversOneMore(before: map<nat, seq<nat>>, ranges: map<nat, nat>, h: nat, payload: seq<nat>, size: nat)
    requires Covers(before, ranges) && size <= 8 * |payload|
    ensures Covers(before[h := payload], ranges[h + 1 := size])
  {
  }

  lemma CoversFreed(before: map<nat, seq<nat>>, ranges: map<nat, nat>, p: nat)
    requires Covers(before, ranges) && p > 0
    ensures Covers(before - {p - 1}, ranges - {p})
  {
  }

  lemma CoversMoved(before: map<nat, seq<nat>>, after: map<nat, seq<nat>>,
      ranges: map<nat, nat>, size: nat, p: nat, r: nat)
    requires Covers(before, ranges) && p > 0 && p - 1 in before && Moved(before, after, p, size, r) && r != NULL
    ensures r !in ranges - {p} && Covers(after, (ranges - {p})[r := size])
  {
    hide AdjustedSize, SameBytes;
  }

  lemma CoversFilled(b: map<nat, seq<nat>>, ranges: map<nat, nat>, h: nat, data: seq<nat>)
    requires Covers(b, ranges) && h in b && |data| <= |b[h]|
    ensures Covers(Filled(b, h, data), ranges)
  {
    FilledSizes(b, h, data);
    hide Filled;
  }

  lemma FilledSizes(b: map<nat, seq<nat>>, h: nat, data: seq<nat>)
    requires h in b && |data| <= |b[h]|
    ensures Filled(b, h, data).Keys == b.Keys
    ensures forall g :: g in b ==> |Filled(b, h, data)[g]| == |b[g]|
  {
  }

  lemma HoldsAllocated(before: map<nat, seq<nat>>, after: map<nat, seq<nat>>, rs: Regions, size: nat, p: nat)
    requires Holds(before, rs) && Allocated(before, after, size, p) && p != NULL
    ensures Holds(after, rs) && p - 1 in after && size <= 8 * |after[p - 1]|
    ensures forall i :: i in rs ==> rs[i].p != p
  {
    hide AdjustedSize;
    forall i | i in rs
      ensures RegionHolds(after, rs[i]) && rs[i].p != p
    {
      assert RegionHolds(before, rs[i]);
    }
  }

  lemma HoldsMoved(before: map<nat, seq<nat>>, after: map<nat, seq<nat>>, rs: Regions, index: nat, size: nat, p: nat)
    requires Holds(before, rs) && index in rs && rs[index].p - 1 in before
    requires Moved(before, after, rs[index].p, size, p) && p != NULL
    ensures Holds(after, rs - {index}) && p - 1 in after && size <= 8 * |after[p - 1]|
    ensures forall i :: i in rs && i != index ==> rs[i].p != p
    ensures SameBytes(after[p - 1], before[rs[index].p - 1], size)
  {
    hide AdjustedSize, SameBytes;
    forall i | i in rs && i != index
      ensures RegionHolds(after, rs[i]) && rs[i].p != p
    {
      assert RegionHolds(before, rs[i]) && RegionHolds(before, rs[index]);
    }
  }

  lemma HoldsWithout(before: map<nat, seq<nat>>, rs: Regions, index: nat)
    requires Holds(before, rs) && index in rs
    ensures rs[index].p > 0 && rs[index].p - 1 in before
    ensures Holds(before - {rs[index].p - 1}, rs - {index})
  {
    assert RegionHolds(before, rs[index]);
    forall i | i in rs && i != index
      ensures RegionHolds(before - {rs[index].p - 1}, rs[i])
    {
      assert RegionHolds(before, rs[i]);
    }
  }

  lemma HoldsFilled(before: map<nat, seq<nat>>, rs: Regions, index: nat, p: nat, size: nat, data: seq<nat>)
    requires Holds(before, rs) && index !in rs && p > 0 && p - 1 in before && size <= 8 * |before[p - 1]|
    requires 8 * |data| <= size && forall i :: i in rs ==> rs[i].p != p
    ensures Holds(Filled(before, p - 1, data), rs[index := Region(p, size, data)])
  {
    var after := Filled(before, p - 1, data);
    forall i | i in rs
      ensures RegionHolds(after, rs[i])
    {
      assert RegionHolds(before, rs[i]);
    }
    assert RegionHolds(after, Region(p, size, data));
  }

  /** The words of `data` over the front of a payload. */
  function Filled(b: map<nat, seq<nat>>, h: nat, data: seq<nat>): map<nat, seq<nat>>
    requires h in b && |data| <= |b[h]|
  {
    OneChanged(b, h, Mixed(data, b[h], |data|))
  }

  lemma FilledStep(b: map<nat, seq<nat>>, h: nat, data: seq<nat>, k: nat)
    requires h in b && k < |data| <= |b[h]|
    ensures h in Filled(b, h, data[..k]) && |Filled(b, h, data[..k])[h]| == |b[h]|
    ensures Stored(Filled(b, h, data[..k]), h, k, data[k]) == Filled(b, h, data[..k + 1])
  {
    StoredOver(b, h, Mixed(data[..k], b[h], k), k, data[k]);
    assert Mixed(data[..k], b[h], k)[k := data[k]] == Mixed(data[..k + 1], b[h], k + 1);
  }

  lemma FilledNone(b: map<nat, seq<nat>>, h: nat)
    requires h in b
    ensures Filled(b, h, []) == b
  {
    MixedNone([], b[h]);
  }

  /** randomize_block: the driver writes its data into a payload. */
  method Fill(heap: Heap, p: nat, data: seq<nat>)
    requires heap.Valid() && p > 0 && p - 1 in heap.Blocks() && |data| <= |heap.Blocks()[p - 1]|
    modifies heap`mem
    ensures heap.Valid() && |heap.mem| == |old(heap.mem)|
    ensures heap.Blocks() == Filled(old(heap.Blocks()), p - 1, data)
  {
    hide *;
    ghost var b := heap.Blocks();
    FilledNone(b, p - 1);
    assert data[..0] == [];
    for k := 0 to |data|
      invariant heap.Valid() && |heap.mem| == |old(heap.mem)|
      invariant heap.Blocks() == Filled(b, p - 1, data[..k])
    {
      FilledStep(b, p - 1, data, k);
      heap.Store(p, k, data[k]);
    }
    assert data[..|data|] == data;
  }

  /** check_index: the first `n` bytes of a payload are compared with those of `data`. */
  method CheckIndex(heap: Heap, p: nat, data: seq<nat>, n: nat) returns (ok: bool)
    requires heap.Valid() && p > 0 && p - 1 in heap.Blocks()
    requires n <= 8 * |data| && n <= 8 * |heap.Blocks()[p - 1]|
    ensures ok <==> SameBytes(heap.Blocks()[p - 1], data, n)
  {
    ghost var payload := heap.Blocks()[p - 1];
    hide ByteOf, Consistent, LiveHeap;
    var k := 0;
    while k < n
      invariant k <= n
      invariant SameBytes(payload, data, k)
    {
      var w := heap.Load(p, k / 8);
      if ByteOf(w, k % 8) != ByteOf(data[k / 8], k % 8) {
        assert ByteAt(payload, k) != ByteAt(data, k);
        return false;
      }
      assert ByteAt(payload, k) == ByteAt(data, k);
      k := k + 1;
    }
    return true;
  }

  /** No index keeps a NULL pointer as a block. */
  ghost predicate NoneNull(d: Driver) {
    forall i :: i in d.blocks ==> d.blocks[i].p > 0
  }

  /** The state between two requests. */
  ghost predicate Sound(heap: Heap, d: Driver)
    reads heap, heap.segList
  {
    && heap.Valid() && heap.heapStart != NULL && d.live <= d.blocks.Keys && NoneNull(d)
    && Holds(heap.Blocks(), LiveRegions(d)) && Covers(heap.Blocks(), d.ranges) && Ranged(LiveRegions(d), d.ranges)
  }

  lemma SoundBy(heap: Heap, d: Driver)
    requires heap.Valid() && heap.heapStart != NULL && d.live <= d.blocks.Keys && NoneNull(d)
    requires Holds(heap.Blocks(), LiveRegions(d)) && Covers(heap.Blocks(), d.ranges)
    requires Ranged(LiveRegions(d), d.ranges)
    ensures Sound(heap, d)
  {
  }

  lemma SoundLive(heap: Heap, d: Driver)
    requires Sound(heap, d)
    ensures heap.Valid() && heap.heapStart != NULL && d.live <= d.blocks.Keys && NoneNull(d)
    ensures Holds(heap.Blocks(), LiveRegions(d)) && Covers(heap.Blocks(), d.ranges)
    ensures Ranged(LiveRegions(d), d.ranges)
  {
  }

  /** The pointer that a Free or Realloc of `index` hands over. */
  function Handed(d: Driver, index: nat): nat {
    if index in d.blocks then d.blocks[index].p else NULL
  }

  /** The index has no pointer, or the one of its own block. */
  predicate Owns(d: Driver, index: nat) {
    index in d.blocks ==> index in d.live
  }

  /** No block has been lost: each allocated one belongs to an index. */
  ghost predicate NoneLost(d: Driver) {
    forall q :: q in d.ranges ==> OwnedBySome(d, q)
  }

  ghost predicate OwnedBySome(d: Driver, q: nat) {
    exists i :: i in d.live && i in d.blocks && d.blocks[i].p == q
  }

  /** A request is never rejected. It is served, or it leaves what the driver remembers as it is and asks for
      bytes that the heap cannot give. A block is lost only when an index that owns one is allocated again. */
  ghost predicate Served(heap: Heap, d: Driver, verdict: Verdict, d': Driver, r: Request)
    reads heap, heap.segList
  {
    && (verdict == Accepted || verdict == AllocationFailed)
    && Sound(heap, d')
    && (verdict == Accepted ==> ServesIn(d, d', r))
    && (verdict == AllocationFailed ==> d' == d && !r.Free? && (r.Alloc? || r.size != 0) && heap.NullWhen(r.size))
  }

  lemma ServedIs(heap: Heap, d: Driver, verdict: Verdict, d': Driver, r: Request)
    requires Sound(heap, d') && (verdict == Accepted || verdict == AllocationFailed)
    requires verdict == Accepted ==> ServesIn(d, d', r)
    requires verdict == AllocationFailed ==> d' == d && !r.Free? && (r.Alloc? || r.size != 0) && heap.NullWhen(r.size)
    ensures Served(heap, d, verdict, d', r)
  {
  }

  ghost predicate ServesIn(d: Driver, d': Driver, r: Request) {
    && Described(LiveRegions(d')) == Requested(Described(LiveRegions(d)), r)
    && d'.blocks.Keys - d'.live == FreedBy(d.blocks.Keys - d.live, d.live, r)
    && (NoneLost(d) && !(r.Alloc? && r.index in d.live) ==> NoneLost(d'))
  }

  /** `index` gets a new pointer: what is remembered of the others stays. */
  function Placed(d: Driver, ranges: map<nat, nat>, index: nat, r: Region): Driver {
    Driver(d.blocks[index := r], ranges[r.p := r.size], d.live + {index})
  }

  lemma PlacedIs(d: Driver, ranges: map<nat, nat>, index: nat, r: Region)
    requires d.live <= d.blocks.Keys
    ensures var d' := Placed(d, ranges, index, r);
      && d'.live <= d'.blocks.Keys && d'.ranges == ranges[r.p := r.size]
      && LiveRegions(d') == LiveRegions(d)[index := r]
      && Described(LiveRegions(d')) == Described(LiveRegions(d))[index := Wanted(r.size, r.data)]
      && d'.blocks.Keys - d'.live == d.blocks.Keys - d.live - {index}
  {
  }

  lemma PlacedNotNull(d: Driver, ranges: map<nat, nat>, index: nat, r: Region)
    requires NoneNull(d) && r.p > 0
    ensures NoneNull(Placed(d, ranges, index, r))
  {
  }

  lemma PlacedKeeps(d: Driver, ranges: map<nat, nat>, index: nat, r: Region)
    requires d.live <= d.blocks.Keys && NoneLost(d)
    requires forall q :: q in ranges ==> q in d.ranges && (index in d.live ==> d.blocks[index].p != q)
    ensures NoneLost(Placed(d, ranges, index, r))
  {
    var d' := Placed(d, ranges, index, r);
    forall q | q in d'.ranges
      ensures OwnedBySome(d', q)
    {
      if q == r.p {
        assert index in d'.live && d'.blocks[index].p == q;
      } else {
        assert OwnedBySome(d, q);
        var i :| i in d.live && i in d.blocks && d.blocks[i].p == q;
        assert i in d'.live && d'.blocks[i].p == q;
      }
    }
  }

  /** `index` no longer owns its block; it may keep the pointer. */
  lemma Disowned(d: Driver, d': Driver, index: nat)
    requires d.live <= d.blocks.Keys && index in d.live
    requires d' == Driver(d.blocks, d.ranges - {d.blocks[index].p}, d.live - {index})
          || d' == Driver(d.blocks - {index}, d.ranges - {d.blocks[index].p}, d.live - {index})
    ensures d'.live <= d'.blocks.Keys && LiveRegions(d') == LiveRegions(d) - {index}
    ensures Described(LiveRegions(d')) == Described(LiveRegions(d)) - {index}
    ensures NoneLost(d) ==> NoneLost(d')
  {
    if NoneLost(d) {
      forall q | q in d'.ranges
        ensures OwnedBySome(d', q)
      {
        assert OwnedBySome(d, q);
        var i :| i in d.live && i in d.blocks && d.blocks[i].p == q;
        assert i in d'.live && i in d'.blocks && d'.blocks[i].p == q;
      }
    }
  }

  /** A block that is placed serves its request. */
  lemma PlacedServes(d: Driver, ranges: map<nat, nat>, r: Request, p: nat)
    requires d.live <= d.blocks.Keys && !r.Free? && (r.Realloc? ==> r.size != 0)
    requires ranges == if r.Realloc? && r.index in d.live then d.ranges - {d.blocks[r.index].p} else d.ranges
    ensures ServesIn(d, Placed(d, ranges, r.index, Region(p, r.size, r.data)), r)
  {
    var region := Region(p, r.size, r.data);
    PlacedIs(d, ranges, r.index, region);
    if NoneLost(d) && !(r.Alloc? && r.index in d.live) {
      PlacedKeeps(d, ranges, r.index, region);
    }
  }

  /** An allocation for an index; `d` says what the driver remembers of the others. */
  method ReplayNew(heap: Heap, d: Driver, index: nat, size: nat, data: seq<nat>)
    returns (verdict: Verdict, d': Driver)
    requires Sound(heap, d) && size <= MAX_REQUEST && 8 * |data| <= size
    modifies heap, heap.segList
    ensures Sound(heap, d') && (verdict == AllocationFailed <==> old(heap.NullWhen(size)))
    ensures if verdict == Accepted
      then exists p :: p !in d.ranges && d' == Placed(d, d.ranges, index, Region(p, size, data))
      else verdict == AllocationFailed && d' == d && heap.NullWhen(size)
    ensures verdict == Accepted && !old(NoFit(heap.mem, heap.starts, AdjustedSize(size))) ==>
      Handed(d', index) > 0 && old(HeapShape.Free(heap.mem, heap.starts, Handed(d', index) - 1))
  {
    hide Consistent, LiveHeap, Allocated, Holds, Covers, Filled, RangeOk, NoFit, BestFit, AdjustedSize, LiveRegions;
    ghost var before, rs := heap.Blocks(), LiveRegions(d);
    d' := d;
    var p := heap.MmMalloc(size);
    if p == NULL {
      return AllocationFailed, d';
    }
    if !old(NoFit(heap.mem, heap.starts, AdjustedSize(size))) {
      FitIsFree(old(heap.mem), old(heap.starts), AdjustedSize(size), p - 1);
    }
    HoldsAllocated(before, heap.Blocks(), rs, size, p);
    CoversAllocated(before, heap.Blocks(), d.ranges, size, p);
    RegionAdded(heap, d.ranges, p, size);
    if !RangeOk(|heap.mem|, d.ranges, p, size) {
      return Rejected, d';
    }
    HoldsRemembered(heap.Blocks(), rs, index, p, size, data);
    CoversFilled(heap.Blocks(), d.ranges[p := size], p - 1, data);
    Fill(heap, p, data);
    d' := Placed(d, d.ranges, index, Region(p, size, data));
    PlacedIs(d, d.ranges, index, Region(p, size, data));
    PlacedNotNull(d, d.ranges, index, Region(p, size, data));
    RangedPlaced(rs, d.ranges, index, Region(p, size, data));
    verdict := Accepted;
  }

  lemma FitIsFree(m: seq<nat>, S: set<nat>, asize: nat, h: nat)
    requires BestFit(m, S, asize, h)
    ensures HeapShape.Free(m, S, h)
  {
  }

  lemma RegionAdded(heap: Heap, ranges: map<nat, nat>, p: nat, size: nat)
    requires heap.Valid() && heap.heapStart != NULL && Covers(heap.Blocks(), ranges[p := size]) && p !in ranges
    ensures RangeOk(|heap.mem|, ranges, p, size)
  {
    NewRange(heap.mem, heap.starts, ranges, p, size);
  }

  lemma HoldsRemembered(b: map<nat, seq<nat>>, rs: Regions, index: nat, p: nat, size: nat, data: seq<nat>)
    requires Holds(b, rs) && p > 0 && p - 1 in b && size <= 8 * |b[p - 1]|
    requires 8 * |data| <= size && forall i :: i in rs && i != index ==> rs[i].p != p
    ensures |data| <= |b[p - 1]| && Holds(Filled(b, p - 1, data), rs[index := Region(p, size, data)])
  {
    hide Filled;
    HoldsFilled(b, rs - {index}, index, p, size, data);
    assert (rs - {index})[index := Region(p, size, data)] == rs[index := Region(p, size, data)];
  }

  method ReplayAlloc(heap: Heap, d: Driver, index: nat, size: nat, data: seq<nat>)
    returns (verdict: Verdict, d': Driver)
    requires Sound(heap, d) && size <= MAX_REQUEST && 8 * |data| <= size
    modifies heap, heap.segList
    ensures Served(heap, d, verdict, d', Alloc(index, size, data))
    ensures verdict == AllocationFailed <==> old(heap.NullWhen(size))
    ensures verdict == Accepted && !old(NoFit(heap.mem, heap.starts, AdjustedSize(size))) ==>
      Handed(d', index) > 0 && old(HeapShape.Free(heap.mem, heap.starts, Handed(d', index) - 1))
  {
    hide *;
    SoundLive(heap, d);
    verdict, d' := ReplayNew(heap, d, index, size, data);
    if verdict == Accepted {
      ghost var p :| p !in d.ranges && d' == Placed(d, d.ranges, index, Region(p, size, data));
      PlacedServes(d, d.ranges, Alloc(index, size, data), p);
    }
    ServedIs(heap, d, verdict, d', Alloc(index, size, data));
  }

  lemma HoldsIndex(b: map<nat, seq<nat>>, rs: Regions, index: nat)
    requires Holds(b, rs) && index in rs
    ensures rs[index].p > 0 && rs[index].p - 1 in b && |rs[index].data| <= |b[rs[index].p - 1]|
    ensures SameBytes(b[rs[index].p - 1], rs[index].data, 8 * |rs[index].data|)
  {
    hide ByteOf;
    var r := rs[index];
    assert RegionHolds(b, r);
    assert forall k :: 0 <= k < |r.data| ==> b[r.p - 1][..|r.data|][k] == r.data[k];
  }

  /** The driver frees the block an index owns, or NULL. */
  method ReplayFree(heap: Heap, d: Driver, index: nat) returns (verdict: Verdict, d': Driver)
    requires Sound(heap, d) && Owns(d, index)
    modifies heap, heap.segList
    ensures Served(heap, d, verdict, d', Free(index)) && verdict == Accepted
    ensures d'.blocks == d.blocks && |heap.mem| == |old(heap.mem)|
  {
    hide Consistent, LiveHeap, Holds, Covers, NoneLost, Described;
    d' := d;
    if index in d.blocks {
      ghost var rs, before := LiveRegions(d), heap.Blocks();
      assert index in rs && rs[index] == d.blocks[index];
      HoldsIndex(before, rs, index);
      var ok := CheckIndex(heap, d.blocks[index].p, d.blocks[index].data, 8 * |d.blocks[index].data|);
      assert ok;
      d' := Driver(d.blocks, d.ranges - {d.blocks[index].p}, d.live - {index});
      HoldsWithout(before, rs, index);
      CoversFreed(before, d.ranges, d.blocks[index].p);
      RangedWithout(before, rs, d.ranges, index);
      Disowned(d, d', index);
      hide LiveRegions;
      heap.MmFree(d.blocks[index].p);
      verdict := if ok then Accepted else Rejected;
    } else {
      heap.MmFree(NULL);
      NotDescribed(d, index);
      verdict := Accepted;
    }
  }

  lemma NotDescribed(d: Driver, index: nat)
    requires index !in d.blocks
    ensures Described(LiveRegions(d)) - {index} == Described(LiveRegions(d))
  {
  }

  method ReplayRealloc(heap: Heap, d: Driver, index: nat, size: nat, data: seq<nat>)
    returns (verdict: Verdict, d': Driver)
    requires Sound(heap, d) && Owns(d, index) && size <= MAX_REQUEST && 8 * |data| <= size
    modifies heap, heap.segList
    ensures Served(heap, d, verdict, d', Realloc(index, size, data))
    ensures verdict == AllocationFailed <==> size != 0 && old(heap.NullWhen(size))
  {
    if index in d.blocks && size != 0 {
      verdict, d' := ReplayMove(heap, d, index, size, data);
    } else if index in d.blocks {
      verdict, d' := ReplayDrop(heap, d, index, data);
    } else if size != 0 {
      verdict, d' := ReplayFirst(heap, d, index, size, data);
    } else {
      verdict, d' := ReplayNothing(heap, d, index, data);
    }
  }

  /** realloc(NULL, 0). */
  method ReplayNothing(heap: Heap, d: Driver, index: nat, data: seq<nat>) returns (verdict: Verdict, d': Driver)
    requires Sound(heap, d) && index !in d.blocks
    modifies heap, heap.segList
    ensures Served(heap, d, verdict, d', Realloc(index, 0, data)) && verdict == Accepted
  {
    hide Consistent, LiveHeap, Holds, Covers, NoneLost, Described, NoFit, AdjustedSize;
    var p := heap.MmRealloc(NULL, 0);
    NotDescribed(d, index);
    verdict, d' := if p == NULL then Accepted else Rejected, d;
  }

  /** realloc of NULL. */
  method ReplayFirst(heap: Heap, d: Driver, index: nat, size: nat, data: seq<nat>)
    returns (verdict: Verdict, d': Driver)
    requires Sound(heap, d) && index !in d.blocks && 0 < size <= MAX_REQUEST && 8 * |data| <= size
    modifies heap, heap.segList
    ensures Served(heap, d, verdict, d', Realloc(index, size, data))
    ensures verdict == AllocationFailed <==> old(heap.NullWhen(size))
  {
    hide *;
    SoundLive(heap, d);
    verdict, d' := ReplayNew(heap, d, index, size, data);
    if verdict == Accepted {
      ghost var p :| p !in d.ranges && d' == Placed(d, d.ranges, index, Region(p, size, data));
      PlacedServes(d, d.ranges, Realloc(index, size, data), p);
    }
    ServedIs(heap, d, verdict, d', Realloc(index, size, data));
  }

  /** realloc of a block to size 0. */
  method ReplayDrop(heap: Heap, d: Driver, index: nat, data: seq<nat>) returns (verdict: Verdict, d': Driver)
    requires Sound(heap, d) && index in d.blocks && index in d.live
    modifies heap, heap.segList
    ensures Served(heap, d, verdict, d', Realloc(index, 0, data)) && verdict == Accepted
  {
    hide Consistent, LiveHeap, Holds, Covers, NoneLost, Described, NoFit, AdjustedSize;
    ghost var rs, before := LiveRegions(d), heap.Blocks();
    var oldp, oldData := d.blocks[index].p, d.blocks[index].data;
    assert index in rs && rs[index] == d.blocks[index];
    HoldsIndex(before, rs, index);
    var ok := CheckIndex(heap, oldp, oldData, 8 * |oldData|);
    d' := Driver(d.blocks - {index}, d.ranges - {oldp}, d.live - {index});
    HoldsWithout(before, rs, index);
    CoversFreed(before, d.ranges, oldp);
    RangedWithout(before, rs, d.ranges, index);
    Disowned(d, d', index);
    assert d'.blocks.Keys - d'.live == d.blocks.Keys - d.live - {index};
    hide LiveRegions;
    var p := heap.MmRealloc(oldp, 0);
    verdict := if ok && p == NULL then Accepted else Rejected;
  }

  /** realloc of a block to another size. */
  method ReplayMove(heap: Heap, d: Driver, index: nat, size: nat, data: seq<nat>)
    returns (verdict: Verdict, d': Driver)
    requires Sound(heap, d) && index in d.blocks && index in d.live && 0 < size <= MAX_REQUEST && 8 * |data| <= size
    modifies heap, heap.segList
    ensures Served(heap, d, verdict, d', Realloc(index, size, data))
    ensures verdict == AllocationFailed <==> old(heap.NullWhen(size))
  {
    hide Consistent, LiveHeap, Holds, Covers, Moved, Filled, RangeOk, SameBytes, NoFit, BestFit, AdjustedSize, NoneLost;
    hide Described, ServesIn;
    ghost var before, rs := heap.Blocks(), LiveRegions(d);
    var oldp, oldData := d.blocks[index].p, d.blocks[index].data;
    assert index in rs && rs[index] == d.blocks[index];
    hide LiveRegions;
    d' := d;
    HoldsIndex(before, rs, index);
    var ok := CheckIndex(heap, oldp, oldData, 8 * |oldData|);
    if !ok {
      return Rejected, d';
    }
    var newp := heap.MmRealloc(oldp, size);
    if newp == NULL {
      MovedNothing(before, heap.Blocks(), oldp, size);
      return AllocationFailed, d';
    }
    HoldsMoved(before, heap.Blocks(), rs, index, size, newp);
    RangedWithout(before, rs, d.ranges, index);
    CoversMoved(before, heap.Blocks(), d.ranges, size, oldp, newp);
    var n := if size < 8 * |oldData| then size else 8 * |oldData|;
    SameThrough(heap.Blocks()[newp - 1], before[oldp - 1], oldData, size, n);
    verdict, d' := FinishMove(heap, d, index, size, data, newp, oldp, oldData, n);
    PlacedServes(d, d.ranges - {oldp}, Realloc(index, size, data), newp);
  }

  /** The tests on the new block, which then holds the new data. */
  method FinishMove(heap: Heap, d: Driver, index: nat, size: nat, data: seq<nat>,
                    newp: nat, oldp: nat, oldData: seq<nat>, n: nat)
    returns (verdict: Verdict, d': Driver)
    requires heap.Valid() && heap.heapStart != NULL && d.live <= d.blocks.Keys && NoneNull(d)
    requires 8 * |data| <= size
    requires newp > 0 && newp - 1 in heap.Blocks() && size <= 8 * |heap.Blocks()[newp - 1]|
    requires newp !in d.ranges - {oldp} && Covers(heap.Blocks(), (d.ranges - {oldp})[newp := size])
    requires var rs := LiveRegions(d) - {index};
      Holds(heap.Blocks(), rs) && forall i :: i in rs ==> rs[i].p != newp
    requires Ranged(LiveRegions(d) - {index}, d.ranges - {oldp})
    requires n <= size && n <= 8 * |oldData| && SameBytes(heap.Blocks()[newp - 1], oldData, n)
    modifies heap`mem
    ensures Sound(heap, d') && verdict == Accepted
    ensures d' == Placed(d, d.ranges - {oldp}, index, Region(newp, size, data))
  {
    hide *;

    ghost var rs := LiveRegions(d);
    var ranges := d.ranges - {oldp};
    RegionAdded(heap, ranges, newp, size);
    d' := d;
    if !RangeOk(|heap.mem|, ranges, newp, size) {
      return Rejected, d';
    }
    var ok := CheckIndex(heap, newp, oldData, n);
    if !ok {
      return Rejected, d';
    }
    HoldsRemembered(heap.Blocks(), rs - {index}, index, newp, size, data);
    CoversFilled(heap.Blocks(), ranges[newp := size], newp - 1, data);
    Fill(heap, newp, data);
    d' := Placed(d, ranges, index, Region(newp, size, data));
    PlacedIs(d, ranges, index, Region(newp, size, data));
    PlacedNotNull(d, ranges, index, Region(newp, size, data));
    RangedPlaced(rs, ranges, index, Region(newp, size, data));
    assert (rs - {index})[index := Region(newp, size, data)] == rs[index := Region(newp, size, data)];
    SoundBy(heap, d');
    verdict := Accepted;
  }

  lemma MovedNothing(before: map<nat, seq<nat>>, after: map<nat, seq<nat>>, p: nat, size: nat)
    requires p - 1 in before && Moved(before, after, p, size, NULL)
    ensures after == before
  {
  }

  lemma SameThrough(a: seq<nat>, b: seq<nat>, data: seq<nat>, size: nat, n: nat)
    requires SameBytes(a, b, size) && SameBytes(b, data, 8 * |data|)
    requires n <= size && n <= 8 * |data| && size <= 8 * |a| && |data| <= |b|
    ensures SameBytes(a, data, n)
  {
    hide ByteAt;
    forall k: nat {:trigger ByteAt(a, k)} | k < n
      ensures ByteAt(a, k) == ByteAt(data, k)
    {
      assert ByteAt(a, k) == ByteAt(b, k);
      assert ByteAt(b, k) == ByteAt(data, k);
    }
  }

  // ----- Whole traces

  /** A block that is freed twice: the second Free is stale, and is where the replay stops. */
  lemma FreedTwice(size: nat, data: seq<nat>)
    requires size <= MAX_REQUEST && 8 * |data| <= size
    ensures var trace := [Alloc(0, size, data), Free(0), Free(0)];
      && (forall k :: 0 <= k < |trace| ==> WellFormed(trace[k]))
      && !Stale(trace, 0) && !Stale(trace, 1) && Stale(trace, 2)
      && AfterTrace(trace[..2]) == map[] && forall k :: 0 <= k < |trace| ==> !Overwrites(trace, k)
  {
    var trace := [Alloc(0, size, data), Free(0), Free(0)];
    assert trace[..2][..1] == trace[..1] == [trace[0]] && trace[..1][..0] == [];
    assert AfterTrace(trace[..1]) == map[0 := Wanted(size, data)];
    assert FreedAfter(trace[..2]) == FreedBy(FreedAfter(trace[..1]), AfterTrace(trace[..1]).Keys, trace[1]);
    assert AfterTrace(trace[..0]) == map[];
  }

  /** A pointer that its index no longer owns is not NULL, and is dead or the payload of a block that was handed
      out again, to another index. */
  lemma StalePointer(heap: Heap, d: Driver, index: nat)
    requires Sound(heap, d) && NoneLost(d) && !Owns(d, index)
    ensures index in d.blocks && d.blocks[index].p > 0
    ensures var p := d.blocks[index].p;
      p - 1 in heap.Blocks() ==> exists j :: j in d.live && j != index && j in d.blocks && d.blocks[j].p == p
  {
    var p := d.blocks[index].p;
    if p - 1 in heap.Blocks() {
      assert p - 1 + 1 in d.ranges;
      assert OwnedBySome(d, p);
      var j :| j in d.live && j in d.blocks && d.blocks[j].p == p;
      assert j in d.live && j != index;
    }
  }

  /** In that trace, the pointer that the second Free would hand over is dead. */
  lemma FreedTwiceIsDead(heap: Heap, d: Driver, size: nat, data: seq<nat>)
    requires size <= MAX_REQUEST && 8 * |data| <= size
    requires Sound(heap, d) && Remembers(d, [Alloc(0, size, data), Free(0), Free(0)], 2)
    ensures 0 in d.blocks && !Owns(d, 0) && d.blocks[0].p > 0
    ensures d.blocks[0].p - 1 !in heap.Blocks()
  {
    var trace := [Alloc(0, size, data), Free(0), Free(0)];
    hide *;
    FreedTwice(size, data);
    OwnsUnlessStale(d, trace, 2);
    RemembersNothingLive(d, trace, 2);
    OwnsHere(d, trace[2]);
    StalePointer(heap, d, 0);
  }

  lemma RemembersNothingLive(d: Driver, trace: seq<Request>, done: nat)
    requires done <= |trace| && Remembers(d, trace, done) && AfterTrace(trace[..done]) == map[]
    ensures d.live == {}
    ensures (forall k :: 0 <= k < done ==> !Overwrites(trace, k)) ==> NoneLost(d)
  {
    hide AfterTrace, NoneLost, Overwrites;
    assert LiveRegions(d).Keys == d.live;
    assert Described(LiveRegions(d)).Keys == {};
  }

  /** When every block has been given back and none was lost, nothing is allocated. */
  lemma AllReturned(heap: Heap, d: Driver)
    requires Sound(heap, d) && NoneLost(d) && d.live == {}
    ensures heap.Blocks() == map[]
    ensures heap.starts == {1, |heap.mem| - 1}
    ensures |heap.mem| > 2 ==> HeapShape.Free(heap.mem, heap.starts, 1) && SizeOf(heap.mem[1]) == 8 * (|heap.mem| - 2)
  {
    assert d.ranges == map[];
    hide *;
    SoundLive(heap, d);
    CoversNothing(heap.Blocks(), d.ranges);
    NothingLive(heap);
  }

  lemma CoversNothing(b: map<nat, seq<nat>>, ranges: map<nat, nat>)
    requires Covers(b, ranges) && ranges == map[]
    ensures b == map[]
  {
    forall h | h in b
      ensures h + 1 in ranges
    {
      CoversBlock(b, ranges, h);
    }
  }

  lemma NothingLive(heap: Heap)
    requires heap.Valid() && heap.heapStart != NULL && heap.Blocks() == map[]
    ensures heap.starts == {1, |heap.mem| - 1}
    ensures |heap.mem| > 2 ==> HeapShape.Free(heap.mem, heap.starts, 1) && SizeOf(heap.mem[1]) == 8 * (|heap.mem| - 2)
  {
    hide Shape, Coalesced, LiveHeap, SizeOf, AllocOf, Len;
    heap.UnfoldStarted();
    AllFreedIsOneBlock(heap.mem, heap.starts);
  }

  /** What the driver remembers after `done` requests, when none of them was stale. */
  ghost predicate Remembers(d: Driver, trace: seq<Request>, done: nat)
    requires done <= |trace|
  {
    && d.live <= d.blocks.Keys
    && Described(LiveRegions(d)) == AfterTrace(trace[..done])
    && d.blocks.Keys - d.live == FreedAfter(trace[..done])
    && (forall k :: 0 <= k < done ==> !Stale(trace, k))
    && ((forall k :: 0 <= k < done ==> !Overwrites(trace, k)) ==> NoneLost(d))
  }

  lemma RemembersNothing(trace: seq<Request>)
    ensures Remembers(Driver(map[], map[], {}), trace, 0)
  {
    assert trace[..0] == [];
  }

  /** The next request is stale exactly when its index points to a block it does not own. */
  lemma OwnsUnlessStale(d: Driver, trace: seq<Request>, done: nat)
    requires done < |trace| && Remembers(d, trace, done)
    ensures Stale(trace, done) <==> !trace[done].Alloc? && !Owns(d, trace[done].index)
    ensures Overwrites(trace, done) <==> trace[done].Alloc? && trace[done].index in d.live
  {
    assert AfterTrace(trace[..done]).Keys == LiveRegions(d).Keys == d.live;
  }

  /** It is NULL or that of the block the index owns, unless the request is stale, and then it is neither. */
  lemma HandedUnlessStale(heap: Heap, d: Driver, trace: seq<Request>, done: nat)
    requires Sound(heap, d) && done < |trace| && Remembers(d, trace, done) && !trace[done].Alloc?
    ensures var i := trace[done].index;
      Stale(trace, done) <==> Handed(d, i) != NULL && i !in d.live
    ensures var i := trace[done].index; i in d.live ==> Handed(d, i) > 0 && Handed(d, i) - 1 in heap.Blocks()
  {
    hide *;
    var i := trace[done].index;
    OwnsUnlessStale(d, trace, done);
    SoundLive(heap, d);
    OwnsHere(d, trace[done]);
    HandedBy(d, i);
    if i in d.live {
      HoldsIndex(heap.Blocks(), LiveRegions(d), i);
    }
  }

  lemma HandedBy(d: Driver, index: nat)
    requires NoneNull(d)
    ensures Handed(d, index) != NULL <==> index in d.blocks
    ensures index in d.live && index in d.blocks ==>
      index in LiveRegions(d) && LiveRegions(d)[index].p == Handed(d, index) > 0
  {
  }

  lemma RemembersOn(d: Driver, d': Driver, trace: seq<Request>, done: nat)
    requires done < |trace| && Remembers(d, trace, done) && !Stale(trace, done)
    requires ServesIn(d, d', trace[done]) && d'.live <= d'.blocks.Keys
    ensures Remembers(d', trace, done + 1)
  {
    OwnsUnlessStale(d, trace, done);
    hide NoneLost;
    assert trace[..done + 1][..done] == trace[..done];
    assert AfterTrace(trace[..done]).Keys == LiveRegions(d).Keys == d.live;
    if forall k :: 0 <= k < done + 1 ==> !Overwrites(trace, k) {
      assert !Overwrites(trace, done);
    }
  }

  method Replay(heap: Heap, d: Driver, r: Request) returns (verdict: Verdict, d': Driver)
    requires Sound(heap, d) && WellFormed(r) && (!r.Alloc? ==> Owns(d, r.index))
    modifies heap, heap.segList
    ensures Served(heap, d, verdict, d', r)
  {
    match r {
      case Alloc(index, size, data) => verdict, d' := ReplayAlloc(heap, d, index, size, data);
      case Realloc(index, size, data) => verdict, d' := ReplayRealloc(heap, d, index, size, data);
      case Free(index) => verdict, d' := ReplayFree(heap, d, index);
    }
  }

  /** Why the replay stops after `done` requests. */
  ghost predicate Ends(heap: Heap, d: Driver, trace: seq<Request>, done: nat, verdict: Verdict)
    reads heap
  {
    && done <= |trace|
    && (verdict == Accepted ==> done == |trace|)
    && (verdict == Misused ==> Stale(trace, done) && !Owns(d, trace[done].index))
    && (verdict == AllocationFailed ==>
          && done < |trace| && !Stale(trace, done) && !trace[done].Free?
          && (trace[done].Alloc? || trace[done].size != 0) && heap.NullWhen(trace[done].size))
  }

  /** The loop of eval_mm_valid. */
  method ReplayAll(heap: Heap, trace: seq<Request>) returns (verdict: Verdict, done: nat, d: Driver)
    requires heap.Valid() && heap.heapStart != NULL && heap.Blocks() == map[]
    requires forall k :: 0 <= k < |trace| ==> WellFormed(trace[k])
    modifies heap, heap.segList
    ensures verdict != Rejected && done <= |trace|
    ensures Sound(heap, d) && Remembers(d, trace, done) && Ends(heap, d, trace, done, verdict)
  {
    done, d := 0, Driver(map[], map[], {});
    RemembersNothing(trace);
    assert Sound(heap, d);
    hide *;
    while done < |trace|
      invariant done <= |trace| && Sound(heap, d) && Remembers(d, trace, done)
    {
      OwnsUnlessStale(d, trace, done);
      var r := trace[done];
      OwnsHere(d, r);
      if !r.Alloc? && r.index in d.blocks && r.index !in d.live {
        verdict := Misused;
        EndsMisused(heap, d, trace, done);
        return;
      }
      var d';
      verdict, d' := Replay(heap, d, r);
      if verdict != Accepted {
        EndsFailed(heap, d, d', trace, done, verdict);
        return;
      }
      ServedAccepted(heap, d, d', r);
      RemembersOn(d, d', trace, done);
      d, done := d', done + 1;
    }
    verdict := Accepted;
    EndsAccepted(heap, d, trace);
  }

  lemma LiveKeys(d: Driver)
    requires d.live <= d.blocks.Keys
    ensures LiveRegions(d).Keys == d.live && Described(LiveRegions(d)).Keys == d.live
  {
  }

  /** Which indices own a block after a request has been served. */
  lemma LiveServed(d: Driver, d': Driver, r: Request)
    requires d.live <= d.blocks.Keys && d'.live <= d'.blocks.Keys && ServesIn(d, d', r)
    ensures d'.live == if r.Free? || (r.Realloc? && r.size == 0) then d.live - {r.index} else d.live + {r.index}
    ensures NoneLost(d) && !(r.Alloc? && r.index in d.live) ==> NoneLost(d')
  {
    hide NoneLost, Described, LiveRegions;
    LiveKeys(d);
    LiveKeys(d');
  }

  lemma OwnsHere(d: Driver, r: Request)
    ensures Owns(d, r.index) <==> (r.index in d.blocks ==> r.index in d.live)
  {
  }

  lemma ServedAccepted(heap: Heap, d: Driver, d': Driver, r: Request)
    requires Served(heap, d, Accepted, d', r)
    ensures Sound(heap, d') && ServesIn(d, d', r) && d'.live <= d'.blocks.Keys
  {
  }

  lemma EndsAccepted(heap: Heap, d: Driver, trace: seq<Request>)
    ensures Ends(heap, d, trace, |trace|, Accepted)
  {
  }

  lemma EndsMisused(heap: Heap, d: Driver, trace: seq<Request>, done: nat)
    requires done < |trace| && Stale(trace, done) && trace[done].index in d.blocks && trace[done].index !in d.live
    ensures Ends(heap, d, trace, done, Misused)
  {
  }

  lemma EndsFailed(heap: Heap, d: Driver, d': Driver, trace: seq<Request>, done: nat, verdict: Verdict)
    requires done < |trace| && verdict != Accepted && !Stale(trace, done)
    requires Served(heap, d, verdict, d', trace[done])
    ensures Sound(heap, d) && verdict == AllocationFailed && Ends(heap, d, trace, done, verdict)
  {
  }

  /** eval_mm_valid, after any earlier use of the heap: whatever the trace, the driver finds nothing wrong.
      Either every request is served, and the live regions are those the trace asks for; or the first `done`
      requests are, and the next one asks for bytes that no free block has and the heap cannot grow by; or it
      is the first to hand free or realloc a pointer that its index no longer owns; or there is no room for
      the first chunk. */
  method EvalMmValid(heap: Heap, trace: seq<Request>) returns (verdict: Verdict, done: nat, d: Driver)
    requires heap.segList.Length == LIST_NUMBER && heap.maxBytes < TWO64 / 2
    requires forall k :: 0 <= k < |trace| ==> WellFormed(trace[k])
    modifies heap, heap.segList
    ensures verdict != Rejected && done <= |trace|
    ensures heap.maxBytes >= 2 * WSIZE + CHUNK_SIZE ==> Sound(heap, d) && Remembers(d, trace, done)
    ensures heap.maxBytes >= 2 * WSIZE + CHUNK_SIZE ==> Ends(heap, d, trace, done, verdict)
    ensures heap.maxBytes < 2 * WSIZE + CHUNK_SIZE ==> verdict == AllocationFailed && done == 0
  {
    hide Consistent, LiveHeap, NoFit, BestFit, AdjustedSize, Ends;
    heap.ResetBrk();
    var ok := heap.MmInit();
    if !ok {
      return AllocationFailed, 0, Driver(map[], map[], {});
    }
    verdict, done, d := ReplayAll(heap, trace);
  }

  /** The driver does get there: with room enough for its first request, the trace that frees a block twice is
      served up to the second Free. */
  method ReplayFreeTwice(heap: Heap, size: nat, data: seq<nat>) returns (verdict: Verdict, done: nat, d: Driver)
    requires heap.segList.Length == LIST_NUMBER && heap.maxBytes < TWO64 / 2
    requires 0 < size <= MAX_REQUEST && 8 * |data| <= size
    requires 2 * WSIZE + AdjustedSize(size) + Max(AdjustedSize(size), CHUNK_SIZE) <= heap.maxBytes
    modifies heap, heap.segList
    ensures verdict == Misused && done == 2
    ensures Handed(d, 0) > 0 && heap.Valid() && Handed(d, 0) - 1 !in heap.Blocks()
  {
    FreedTwice(size, data);
    hide *;
    var trace := [Alloc(0, size, data), Free(0), Free(0)];
    EnoughToStart(size);
    verdict, done, d := EvalMmValid(heap, trace);
    StopsAtThird(heap, size, data, d, done, verdict);
    FreedTwiceIsDead(heap, d, size, data);
    SoundLive(heap, d);
    HandedIs(d, 0);
  }

  lemma EnoughToStart(size: nat)
    requires 0 < size <= MAX_REQUEST
    ensures 2 * WSIZE + CHUNK_SIZE <= 2 * WSIZE + AdjustedSize(size) + Max(AdjustedSize(size), CHUNK_SIZE)
  {
  }

  lemma HandedIs(d: Driver, index: nat)
    ensures index in d.blocks ==> Handed(d, index) == d.blocks[index].p
  {
  }

  lemma StopsAtThird(heap: Heap, size: nat, data: seq<nat>, d: Driver, done: nat, verdict: Verdict)
    requires 0 < size <= MAX_REQUEST && 8 * |data| <= size && verdict != Rejected
    requires 2 * WSIZE + AdjustedSize(size) + Max(AdjustedSize(size), CHUNK_SIZE) <= heap.maxBytes
    requires done <= 3 && Sound(heap, d) && Remembers(d, [Alloc(0, size, data), Free(0), Free(0)], done)
    requires Ends(heap, d, [Alloc(0, size, data), Free(0), Free(0)], done, verdict)
    ensures verdict == Misused && done == 2
  {
    var trace := [Alloc(0, size, data), Free(0), Free(0)];
    FreedTwice(size, data);
    hide Sound, AdjustedSize, Stale;
    if done == 0 {
      assert AfterTrace(trace[..0]) == map[];
      RemembersNothingLive(d, trace, 0);
      NotRefused(heap, d, size);
    }
  }

  /** With nothing allocated, a request that the arena has room for is not refused. */
  lemma NotRefused(heap: Heap, d: Driver, size: nat)
    requires Sound(heap, d) && NoneLost(d) && d.live == {} && 0 < size <= MAX_REQUEST
    requires 2 * WSIZE + AdjustedSize(size) + Max(AdjustedSize(size), CHUNK_SIZE) <= heap.maxBytes
    ensures !heap.NullWhen(size)
  {
    AdjustedSizeExact(size);
    hide Sound, NoneLost, NoFit, AdjustedSize, Consistent, LiveHeap;
    AllReturned(heap, d);
    SoundLive(heap, d);
    heap.UnfoldStarted();
    FreshFit(heap.mem, heap.starts, heap.segList[..], heap.lists, AdjustedSize(size));
  }
}
