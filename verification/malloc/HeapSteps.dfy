/** Each rewriting of the heap, as a step on everything at once: shape, coalescing, lists, contents. */
module HeapSteps {
  import opened HeapWords
  import opened HeapShape
  import opened FreeLists
  import opened Coalescing

  /** Everything but the blocks of `X` is listed; only the pairs around `x` are not coalesced. */
  ghost predicate Consistent(m: seq<nat>, S: set<nat>, seg: seq<nat>, L: Lists, x: nat, X: set<nat>) {
    && Shape(m, S)
    && Coalesced(m, S, x)
    && ListsOk(m, S, seg, L, X)
  }

  /** Writing links only moves blocks between lists. */
  lemma LinkStep(m: seq<nat>, m2: seq<nat>, S: set<nat>, seg2: seq<nat>, L2: Lists, x: nat, X2: set<nat>)
    requires Shape(m, S) && Coalesced(m, S, x)
    requires SameBlocks(m, m2, S) && ListsOk(m2, S, seg2, L2, X2)
    ensures Consistent(m2, S, seg2, L2, x, X2)
    ensures forall h :: h in S ==> Next(m2, h) == Next(m, h) && (Free(m2, S, h) <==> Free(m, S, h))
  {
    hide Len, AllocOf, PrevAllocOf, PrevMiniOf, LiveHeap, ListsOk;
    forall h: nat {:trigger Next(m2, h)} | Free(m2, S, h) && Free(m2, S, Next(m2, h))
      ensures h == x || Next(m2, h) == x
    {
      assert Next(m, h) == Next(m2, h);
    }
  }

  /** A free run from `a` to `n` whose blocks are all unlisted becomes one unlisted block. */
  lemma MergeStep(m: seq<nat>, S: set<nat>, seg: seq<nat>, L: Lists, x: nat, X: set<nat>,
                  a: nat, n: nat, prevMini: bool)
    requires Consistent(m, S, seg, L, x, X)
    requires a in S && n in S && a + 4 <= n && PrevAllocOf(m[a]) && AllocOf(m[n]) && a <= x < n
    requires forall h :: h in S && a <= h < n ==> !AllocOf(m[h]) && h in X
    requires forall h :: h in X ==> a <= h < n
    ensures var m2, S2 := Merged(m, a, n, prevMini), Without(S, a, n);
      && Consistent(m2, S2, seg, L, 0, {a})
      && Free(m2, S2, a) && Next(m2, a) == n && LiveHeap(m2, S2) == LiveHeap(m, S)
  {
    hide Len, SizeOf, Pack, AllocOf, PrevAllocOf, PrevMiniOf, Merged, LiveHeap, ListsOk;
    var m2, S2 := Merged(m, a, n, prevMini), Without(S, a, n);
    Merge(m, S, a, n, prevMini);
    assert PrevAllocOf(m2[a]);
    MergeCoalesces(m, S, m2, S2, a, n, x);
    ListsOutside(m, S, m2, S2, a, n, seg, L, X, {a});
  }

  /** An unlisted free block is cut at `k`: the front is allocated, the rest is an unlisted free block. */
  lemma CarveStep(m: seq<nat>, S: set<nat>, seg: seq<nat>, L: Lists, h: nat, k: nat, prevMini: bool)
    requires Consistent(m, S, seg, L, 0, {h}) && Free(m, S, h)
    requires h + 2 <= k && k + 2 <= Next(m, h) && (k - h) % 2 == 0
    ensures PrevAllocOf(m[h]) && Next(m, h) < |m|
    ensures var m2, S2 := Carved(m, h, k, Next(m, h), prevMini), With(S, k);
      && Consistent(m2, S2, seg, L, 0, {k})
      && Free(m2, S2, k) && LiveHeap(m2, S2) == LiveHeap(m, S)[h := m2[h + 1..k]]
  {
    hide Len, SizeOf, Pack, AllocOf, PrevAllocOf, PrevMiniOf, Carved, LiveHeap, ListsOk;
    var n := Next(m, h);
    AllocatedPredecessor(m, S, 0, h);
    Carve(m, S, h, k, prevMini);
    var m2, S2 := Carved(m, h, k, n, prevMini), With(S, k);
    StaysCoalesced(m, S, m2, S2, h, n);
    ListsOutside(m, S, m2, S2, h, n, seg, L, {h}, {k});
  }

  /** An unlisted free block is allocated whole. */
  lemma TakeStep(m: seq<nat>, S: set<nat>, seg: seq<nat>, L: Lists, h: nat, prevMini: bool)
    requires Consistent(m, S, seg, L, 0, {h}) && Free(m, S, h)
    ensures PrevAllocOf(m[h]) && h + 2 <= Next(m, h) < |m|
    ensures var n := Next(m, h); var m2 := Taken(m, h, n, prevMini);
      && Consistent(m2, S, seg, L, 0, {})
      && LiveHeap(m2, S) == LiveHeap(m, S)[h := m2[h + 1..n]]
  {
    hide Len, SizeOf, Pack, AllocOf, PrevAllocOf, PrevMiniOf, Taken, LiveHeap, ListsOk;
    var n := Next(m, h);
    AllocatedPredecessor(m, S, 0, h);
    Take(m, S, h, prevMini);
    var m2 := Taken(m, h, n, prevMini);
    StaysCoalesced(m, S, m2, S, h, n);
    ListsOutside(m, S, m2, S, h, n, seg, L, {h}, {});
  }

  /** `block` was placed: it is allocated now, with `bytes` of payload, and nothing else has changed. */
  ghost predicate PlacedIn(m: seq<nat>, S: set<nat>, m2: seq<nat>, S2: set<nat>, block: nat, bytes: int)
    requires Shape(m, S) && Shape(m2, S2)
  {
    && block in LiveHeap(m2, S2) && 8 * |LiveHeap(m2, S2)[block]| == bytes
    && LiveHeap(m2, S2) == LiveHeap(m, S)[block := LiveHeap(m2, S2)[block]]
  }

  /** TakeStep and CarveStep in the terms of split_block. */
  lemma TakePlaces(m: seq<nat>, S: set<nat>, seg: seq<nat>, L: Lists, h: nat, prevMini: bool)
    requires Consistent(m, S, seg, L, 0, {h}) && Free(m, S, h)
    ensures h + 2 <= Next(m, h) < |m| && SizeOf(m[h]) == 8 * (Next(m, h) - h) && SizeOf(m[h]) % 16 == 0
    ensures var m2 := Taken(m, h, Next(m, h), prevMini);
      Consistent(m2, S, seg, L, 0, {}) && |m2| == |m| && PlacedIn(m, S, m2, S, h, SizeOf(m[h]) - WSIZE)
  {
    hide Len, SizeOf, Pack, AllocOf, PrevAllocOf, PrevMiniOf, LiveHeap, ListsOk, Coalesced, Shape, Free, ClassOf;
    Sizes(m, S, h);
    SizeIsLen(m[h]);
    TakeStep(m, S, seg, L, h, prevMini);
  }

  lemma CarveRoom(m: seq<nat>, S: set<nat>, h: nat, k: nat, asize: nat)
    requires Shape(m, S) && Free(m, S, h)
    requires asize == 8 * (k - h) && asize % 16 == 0 && MIN_BLOCK_SIZE <= asize <= SizeOf(m[h]) - MIN_BLOCK_SIZE
    ensures h + 2 <= k && k + 2 <= Next(m, h) < |m| && (k - h) % 2 == 0
    ensures SizeOf(m[h]) == 8 * (Next(m, h) - h) && SizeOf(m[h]) % 16 == 0
  {
    hide Len, SizeOf, AllocOf, Shape, Free, ClassOf;
    Sizes(m, S, h);
    SizeIsLen(m[h]);
    EvenWords(k - h, asize);
  }

  lemma CarvePlaces(m: seq<nat>, S: set<nat>, seg: seq<nat>, L: Lists, h: nat, k: nat, prevMini: bool, asize: nat)
    requires Consistent(m, S, seg, L, 0, {h}) && Free(m, S, h)
    requires asize == 8 * (k - h) && asize % 16 == 0 && MIN_BLOCK_SIZE <= asize <= SizeOf(m[h]) - MIN_BLOCK_SIZE
    ensures h + 2 <= k && k + 2 <= Next(m, h) < |m|
    ensures SizeOf(m[h]) == 8 * (Next(m, h) - h) && SizeOf(m[h]) % 16 == 0
    ensures var m2, S2 := Carved(m, h, k, Next(m, h), prevMini), With(S, k);
      && Consistent(m2, S2, seg, L, 0, {k}) && Free(m2, S2, k)
      && |m2| == |m| && PlacedIn(m, S, m2, S2, h, asize - WSIZE)
  {
    hide Len, SizeOf, Pack, AllocOf, PrevAllocOf, PrevMiniOf, LiveHeap, ListsOk, Coalesced, Shape, Free, With, Carved;
    CarveRoom(m, S, h, k, asize);
    CarveStep(m, S, seg, L, h, k, prevMini);
  }

  lemma PlacedLater(m: seq<nat>, S: set<nat>, m2: seq<nat>, S2: set<nat>, m3: seq<nat>, block: nat, bytes: int)
    requires Shape(m, S) && Shape(m2, S2) && PlacedIn(m, S, m2, S2, block, bytes) && SameBlocks(m2, m3, S2)
    ensures PlacedIn(m, S, m3, S2, block, bytes)
  {
    hide Shape, LiveHeap;
  }

  /** An allocated block becomes an unlisted free block, not yet coalesced. */
  lemma ReleaseStep(m: seq<nat>, S: set<nat>, seg: seq<nat>, L: Lists, h: nat)
    requires Consistent(m, S, seg, L, 0, {}) && Live(m, S, h)
    ensures h + 2 <= Next(m, h) < |m|
    ensures var m2 := Freed(m, h, Next(m, h));
      && Consistent(m2, S, seg, L, h, {h})
      && Free(m2, S, h) && Next(m2, h) == Next(m, h) && LiveHeap(m2, S) == LiveHeap(m, S) - {h}
  {
    hide Len, SizeOf, Pack, AllocOf, PrevAllocOf, PrevMiniOf, Freed, LiveHeap, ListsOk;
    var n := Next(m, h);
    Release(m, S, h);
    var m2 := Freed(m, h, n);
    CoalescedExcept(m, S, m2, h, n);
    ListsOutside(m, S, m2, S, h, n, seg, L, {}, {h});
  }

  /** The heap grows at its end by an unlisted free block, not yet coalesced. */
  lemma ExtendStep(m: seq<nat>, S: set<nat>, seg: seq<nat>, L: Lists, grown: seq<nat>)
    requires Consistent(m, S, seg, L, 0, {}) && |grown| >= 4 && |grown| % 2 == 0
    ensures var e := |m| - 1; var m2, S2 := Extended(m, grown), With(S, e + |grown|);
      && Consistent(m2, S2, seg, L, e, {e})
      && Free(m2, S2, e) && Next(m2, e) == e + |grown| && LiveHeap(m2, S2) == LiveHeap(m, S)
  {
    hide Len, SizeOf, Pack, AllocOf, PrevAllocOf, PrevMiniOf, Extended, LiveHeap, ListsOk;
    Extend(m, S, grown);
    var e := |m| - 1;
    var m2, S2 := Extended(m, grown), With(S, e + |grown|);
    forall h: nat {:trigger Next(m2, h)} | Free(m2, S2, h) && Free(m2, S2, Next(m2, h))
      ensures h == e || Next(m2, h) == e
    {
      if h < e {
        assert Next(m, h) <= e;
        assert Next(m2, h) == Next(m, h);
      }
    }
    forall h: nat | Free(m, S, h)
      ensures Free(m2, S2, h) && h != e && Len(m2[h]) == Len(m[h])
      ensures m2[h + 1] == m[h + 1] && (h + 4 <= Next(m, h) ==> m2[h + 2] == m[h + 2])
    {
      assert Next(m, h) <= e;
      Sizes(m, S, h);
    }
    ListsFrame(m, S, m2, S2, seg, L, {}, {e});
  }

  /** Case 1 of coalesce_block rewrites the next header with what it already records. */
  function Refreshed(m: seq<nat>, n: nat, mini: bool): (r: seq<nat>)
    requires n < |m|
    ensures |r| == |m|
  {
    m[n := Pack(SizeOf(m[n]), AllocOf(m[n]), false, mini)]
  }

  lemma RefreshStep(m: seq<nat>, S: set<nat>, seg: seq<nat>, L: Lists, h: nat)
    requires Consistent(m, S, seg, L, h, {h}) && Free(m, S, h)
    requires PrevAllocOf(m[h]) && Next(m, h) < |m| && AllocOf(m[Next(m, h)])
    ensures var m2 := Refreshed(m, Next(m, h), Len(m[h]) == 2);
      && Consistent(m2, S, seg, L, 0, {h})
      && SameOutside(m, S, m2, S, h, Next(m, h))
      && Free(m2, S, h) && Next(m2, h) == Next(m, h) && LiveHeap(m2, S) == LiveHeap(m, S)
  {
    hide Len, SizeOf, Pack, AllocOf, PrevAllocOf, PrevMiniOf, LiveHeap, ListsOk;
    var n := Next(m, h);
    var m2 := Refreshed(m, n, Len(m[h]) == 2);
    SizeIsLen(m[n]);
    PackExtract(SizeOf(m[n]), AllocOf(m[n]), false, Len(m[h]) == 2);
    assert SameOutside(m, S, m2, S, h, n);
    assert Next(m2, h) == n;
    Rewrite(m, S, m2, S, h, n);
    LiveOutside(m, S, m2, S, h, n);
    assert h !in LiveHeap(m, S) by { NotLive(m, S, h); }
    MergeCoalesces(m, S, m2, S, h, n, h);
    ListsOutside(m, S, m2, S, h, n, seg, L, {h}, {h});
  }

  lemma NotLive(m: seq<nat>, S: set<nat>, h: nat)
    requires Shape(m, S) && Free(m, S, h)
    ensures h !in LiveHeap(m, S)
  {
    hide Shape;
  }

  function Stored(blocks: map<nat, seq<nat>>, h: nat, k: nat, v: nat): map<nat, seq<nat>>
    requires h in blocks && k < |blocks[h]|
  {
    var payload: seq<nat> := blocks[h][k := v];
    blocks[h := payload]
  }

  /** A payload word of an allocated block is seen by nothing but its owner. */
  lemma StoreStep(m: seq<nat>, S: set<nat>, seg: seq<nat>, L: Lists, h: nat, k: nat, v: nat)
    requires Consistent(m, S, seg, L, 0, {}) && h in LiveHeap(m, S) && k < |LiveHeap(m, S)[h]|
    ensures h + 1 + k < |m|
    ensures var m2, before := m[h + 1 + k := v], LiveHeap(m, S);
      Consistent(m2, S, seg, L, 0, {}) && LiveHeap(m2, S) == Stored(before, h, k, v)
  {
    hide Len, AllocOf, ListsOk, Shape, Coalesced, LiveHeap, Stored;
    var w := h + 1 + k;
    PayloadRoom(m, S, h, k);
    StoreShape(m, S, h, w, v);
    StoreOthers(m, S, h, w, v);
    StoreLive(m, S, h, k, v);
    StoreLists(m, S, seg, L, w, v);
  }

  lemma PayloadRoom(m: seq<nat>, S: set<nat>, h: nat, k: nat)
    requires Shape(m, S) && h in LiveHeap(m, S) && k < |LiveHeap(m, S)[h]|
    ensures Live(m, S, h) && h + 1 + k < Next(m, h)
  {
  }

  lemma StoreLists(m: seq<nat>, S: set<nat>, seg: seq<nat>, L: Lists, w: nat, v: nat)
    requires Shape(m, S) && ListsOk(m, S, seg, L, {}) && w < |m| && Shape(m[w := v], S)
    requires forall g :: g in S ==> g < |m| && m[w := v][g] == m[g]
    requires forall g: nat :: Free(m, S, g) ==>
               m[w := v][g + 1] == m[g + 1] && (g + 4 <= Next(m, g) ==> m[w := v][g + 2] == m[g + 2])
    ensures ListsOk(m[w := v], S, seg, L, {})
  {
    hide Len, AllocOf, ListsOk, Shape;
    ListsFrame(m, S, m[w := v], S, seg, L, {}, {});
  }

  lemma PayloadIs(m: seq<nat>, S: set<nat>, h: nat)
    requires Shape(m, S) && Live(m, S, h)
    ensures h in LiveHeap(m, S) && LiveHeap(m, S)[h] == Payload(m, S, h)
  {
    hide Shape, Payload;
  }

  lemma StorePayload(m: seq<nat>, S: set<nat>, h: nat, k: nat, v: nat)
    requires Shape(m, S) && Live(m, S, h) && k < |Payload(m, S, h)|
    requires h + 1 + k < |m| && Shape(m[h + 1 + k := v], S) && m[h + 1 + k := v][h] == m[h]
    ensures Payload(m[h + 1 + k := v], S, h) == Payload(m, S, h)[k := v]
  {
    hide Len, AllocOf, PrevAllocOf, PrevMiniOf, Recorded;
    assert BlockOk(m, S, h);
  }

  lemma StoreLive(m: seq<nat>, S: set<nat>, h: nat, k: nat, v: nat)
    requires Shape(m, S) && h in LiveHeap(m, S) && k < |LiveHeap(m, S)[h]|
    requires h + 1 + k < |m| && Shape(m[h + 1 + k := v], S)
    requires forall g :: g in S ==> m[h + 1 + k := v][g] == m[g]
    requires forall g: nat :: g != h && Live(m, S, g) ==>
               Live(m[h + 1 + k := v], S, g) && Payload(m[h + 1 + k := v], S, g) == Payload(m, S, g)
    ensures LiveHeap(m[h + 1 + k := v], S) == Stored(LiveHeap(m, S), h, k, v)
  {
    var m2 := m[h + 1 + k := v];
    assert Live(m, S, h) && Live(m2, S, h);
    PayloadIs(m, S, h);
    hide LiveHeap;
    StorePayload(m, S, h, k, v);
    hide Shape, Payload;
    LiveExcept(m, S, m2, S, h);
  }

  lemma StoreShape(m: seq<nat>, S: set<nat>, h: nat, w: nat, v: nat)
    requires Shape(m, S) && Coalesced(m, S, 0) && Live(m, S, h) && h < w < Next(m, h)
    ensures w < |m| && Shape(m[w := v], S) && Coalesced(m[w := v], S, 0)
    ensures forall g :: g in S ==> g < |m| && m[w := v][g] == m[g]
  {
    hide Len, SizeOf, Pack, AllocOf, PrevAllocOf, PrevMiniOf;
    var m2 := m[w := v];
    forall g | g in S
      ensures m2[g] == m[g]
    {
      if h < g { assert Next(m, h) <= g; }
    }
    forall g {:trigger Next(m2, g)} {:trigger BlockOk(m2, S, g)} | g in S && g + 1 < |m2|
      ensures BlockOk(m2, S, g) && Next(m2, g) == Next(m, g)
    {
      assert BlockOk(m, S, g);
      if h < g { assert Next(m, h) <= g; } else if g < h { assert Next(m, g) <= h; }
    }
    forall g: nat {:trigger Next(m2, g)} | Free(m2, S, g)
      ensures !Free(m2, S, Next(m2, g))
    {
      assert Next(m2, g) == Next(m, g);
    }
  }

  lemma StoreOthers(m: seq<nat>, S: set<nat>, h: nat, w: nat, v: nat)
    requires Shape(m, S) && Live(m, S, h) && h < w < Next(m, h) && w < |m| && Shape(m[w := v], S)
    requires forall g :: g in S ==> m[w := v][g] == m[g]
    ensures forall g: nat :: g != h && Live(m, S, g) ==>
              Live(m[w := v], S, g) && Payload(m[w := v], S, g) == Payload(m, S, g)
    ensures forall g: nat :: Free(m, S, g) ==>
              m[w := v][g + 1] == m[g + 1] && (g + 4 <= Next(m, g) ==> m[w := v][g + 2] == m[g + 2])
  {
    hide Len, SizeOf, Pack, AllocOf, PrevAllocOf, PrevMiniOf;
    var m2 := m[w := v];
    forall g: nat | g in S && g + 1 < |m| && g != h
      ensures Next(m2, g) == Next(m, g) && (w <= g || Next(m, g) <= w) && g + 2 <= Next(m, g)
    {
      assert BlockOk(m, S, g);
      if h < g { assert Next(m, h) <= g; } else { assert Next(m, g) <= h; }
    }
  }

  /** The header of an allocated block gives the length of its payload. */
  lemma PayloadSize(m: seq<nat>, S: set<nat>, h: nat)
    requires Shape(m, S) && h in LiveHeap(m, S)
    ensures h < |m| && SizeOf(m[h]) == 8 * |LiveHeap(m, S)[h]| + WSIZE
  {
    hide Pack, AllocOf, PrevAllocOf, PrevMiniOf, SizeOf, Len;
    SizeIsLen(m[h]);
    assert BlockOk(m, S, h);
  }
}
