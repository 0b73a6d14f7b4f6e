/** The words the allocator has written itself. In sparse mode, with the check on, mem_read in memlib.c exits at
    a byte that has not been written; malloc and free must therefore read no other word. */
module WrittenWords {
  import opened HeapWords
  import opened HeapShape
  import opened FreeLists
  import opened HeapSteps

  /** The link words of a free block. */
  ghost predicate LinksIn(m: seq<nat>, W: set<nat>, h: nat)
    requires h < |m|
  {
    h + 1 in W && (Len(m[h]) > 2 ==> h + 2 in W)
  }

  /** The prologue, each header, the last word of each block, and the links of each listed block have been
      written. The last word matters of allocated blocks too: coalesce_block reads the word before a header as
      a footer before it looks at the flag that says whether it is one. */
  ghost predicate Initialised(m: seq<nat>, S: set<nat>, W: set<nat>, X: set<nat>) {
    && (forall w :: w in W ==> w < |m|)
    && 0 in W
    && (forall h :: h in S ==> h < |m| && h in W)
    && (forall h {:trigger LastIn(m, W, h)} :: h in S && h + 1 < |m| ==> LastIn(m, W, h))
    && (forall h :: Free(m, S, h) && h !in X ==> LinksIn(m, W, h))
  }

  ghost predicate LastIn(m: seq<nat>, W: set<nat>, h: nat)
    requires h < |m|
  {
    Next(m, h) > 0 && Next(m, h) - 1 in W
  }

  /** Every word that find_prev, find_next and the accesses to headers read has been written. */
  lemma ReadableAround(m: seq<nat>, S: set<nat>, W: set<nat>, X: set<nat>, h: nat)
    requires Shape(m, S) && Initialised(m, S, W, X) && h in S
    ensures 0 < h < |m| && h in W && h - 1 in W
    ensures h + 1 < |m| ==> Next(m, h) < |m| && Next(m, h) in W
  {
    hide Len, Pack, AllocOf, PrevAllocOf, PrevMiniOf;
    if h != 1 {
      var p := Predecessor(m, S, h);
      assert LastIn(m, W, p);
    }
    if h + 1 < |m| { assert BlockOk(m, S, h); }
  }

  /** The blocks of list `i` can be walked: their headers and links have been written. */
  ghost predicate ListIn(l: seq<nat>, i: nat, W: set<nat>) {
    forall k :: 0 <= k < |l| ==> l[k] in W && l[k] + 1 in W && (i != 0 ==> l[k] + 2 in W)
  }

  lemma ReadableList(m: seq<nat>, S: set<nat>, seg: seq<nat>, L: Lists, W: set<nat>, X: set<nat>, i: nat)
    requires Shape(m, S) && ListsOk(m, S, seg, L, X) && Initialised(m, S, W, X) && i < |seg|
    ensures i < |L| && ListIn(L[i], i, W)
  {
    hide Len, AllocOf, PrevAllocOf, PrevMiniOf;
    forall k | 0 <= k < |L[i]|
      ensures L[i][k] in W && L[i][k] + 1 in W && (i != 0 ==> L[i][k] + 2 in W)
    {
      var h := L[i][k];
      assert Free(m, S, h) && h !in X && ClassOf(m, h) == i;
      Sizes(m, S, h);
      assert LinksIn(m, W, h);
    }
  }

  // ----- What keeps them written

  /** Only headers matter for where these words are. */
  lemma SameHeaders(m: seq<nat>, m2: seq<nat>, S: set<nat>, W: set<nat>, W2: set<nat>, X: set<nat>, X2: set<nat>)
    requires |m2| == |m| && forall h :: h in S ==> h < |m| && m2[h] == m[h]
    requires Initialised(m, S, W, X) && W <= W2 && forall w :: w in W2 ==> w < |m|
    requires forall h :: Free(m, S, h) && h in X && h !in X2 ==> LinksIn(m, W2, h)
    ensures Initialised(m2, S, W2, X2)
  {
    hide Len, AllocOf;
    forall h | Free(m2, S, h) && h !in X2
      ensures LinksIn(m2, W2, h)
    {
      assert Free(m, S, h);
      if h !in X { assert LinksIn(m, W, h); }
      assert LinksIn(m, W2, h);
    }
    forall h | h in S && h + 1 < |m2|
      ensures LastIn(m2, W2, h)
    {
      assert LastIn(m, W, h);
    }
  }

  ghost predicate HeaderIn(m: seq<nat>, S: set<nat>, W: set<nat>, X: set<nat>, h: nat) {
    h < |m| && h in W && LastIn(m, W, h) && (Free(m, S, h) && h !in X ==> LinksIn(m, W, h))
  }

  lemma HeadersIn(m: seq<nat>, S: set<nat>, W: set<nat>, X: set<nat>)
    requires 0 in W && |m| > 0 && (forall w :: w in W ==> w < |m|) && (forall h :: h in S ==> h < |m| && h in W)
    requires forall h :: h in S && h + 1 < |m| ==> HeaderIn(m, S, W, X, h)
    ensures Initialised(m, S, W, X)
  {
    hide Len, AllocOf;
    forall h | Free(m, S, h) && h !in X
      ensures LinksIn(m, W, h)
    {
      assert HeaderIn(m, S, W, X, h);
    }
    forall h | h in S && h + 1 < |m|
      ensures LastIn(m, W, h)
    {
      assert HeaderIn(m, S, W, X, h);
    }
  }

  /** A region has been rewritten: only its own headers, last words and links need to be looked at. */
  lemma RegionWritten(m: seq<nat>, S: set<nat>, m2: seq<nat>, S2: set<nat>, a: nat, n: nat,
                      W: set<nat>, W2: set<nat>, X: set<nat>, X2: set<nat>)
    requires SameOutside(m, S, m2, S2, a, n) && Initialised(m, S, W, X)
    requires W <= W2 && forall w :: w in W2 ==> w < |m|
    requires forall h :: h in S2 && a <= h < n ==> HeaderIn(m2, S2, W2, X2, h)
    requires forall h :: h in X && !(a <= h < n) ==> h in X2
    ensures Initialised(m2, S2, W2, X2)
  {
    hide Len, AllocOf, PrevAllocOf, PrevMiniOf;
    forall h | h in S2
      ensures h < |m2| && h in W2 && (h + 1 < |m2| ==> HeaderIn(m2, S2, W2, X2, h))
    {
      if !(a <= h < n) {
        OutsideRegion(m, S, m2, S2, a, n, h);
        if h + 1 < |m| {
          assert LastIn(m, W, h);
          assert Free(m, S, h) && h !in X ==> LinksIn(m, W, h);
        }
      }
    }
    HeadersIn(m2, S2, W2, X2);
  }

  lemma OutsideRegion(m: seq<nat>, S: set<nat>, m2: seq<nat>, S2: set<nat>, a: nat, n: nat, h: nat)
    requires SameOutside(m, S, m2, S2, a, n) && h in S2 && !(a <= h < n) && (forall g :: g in S ==> g < |m|)
    ensures h in S && h < |m| && Len(m2[h]) == Len(m[h]) && Next(m2, h) == Next(m, h)
    ensures Free(m2, S2, h) <==> Free(m, S, h)
  {
    hide Len, AllocOf, PrevAllocOf, PrevMiniOf;
    if h != n { assert m2[h] == m[h]; }
  }

  // ----- The rewritings the allocator performs

  lemma MergeWritten(m: seq<nat>, S: set<nat>, W: set<nat>, X: set<nat>, a: nat, n: nat, prevMini: bool)
    requires Shape(m, S) && a in S && n in S && a + 4 <= n && PrevAllocOf(m[a]) && Initialised(m, S, W, X)
    requires forall h :: h in S && a <= h < n ==> !AllocOf(m[h])
    requires forall h :: h in X ==> a <= h < n
    ensures n < |m| && Initialised(Merged(m, a, n, prevMini), Without(S, a, n), W + {a, n - 1}, {a})
  {
    hide Len, SizeOf, Pack, AllocOf, PrevAllocOf, PrevMiniOf, Initialised, Merged, Shape;
    Merge(m, S, a, n, prevMini);
    WordsInside(m, S, W, X);
    var m2, S2 := Merged(m, a, n, prevMini), Without(S, a, n);
    forall h | h in S2 && a <= h < n
      ensures HeaderIn(m2, S2, W + {a, n - 1}, {a}, h)
    {
      assert h == a;
    }
    RegionWritten(m, S, m2, S2, a, n, W, W + {a, n - 1}, X, {a});
  }

  lemma WordsInside(m: seq<nat>, S: set<nat>, W: set<nat>, X: set<nat>)
    requires Initialised(m, S, W, X)
    ensures forall w :: w in W ==> w < |m|
    ensures S <= W && 0 in W
  {
  }

  lemma LastOf(m: seq<nat>, S: set<nat>, W: set<nat>, X: set<nat>, h: nat)
    requires Initialised(m, S, W, X) && h in S && h + 1 < |m|
    ensures LastIn(m, W, h) && (Free(m, S, h) && h !in X ==> LinksIn(m, W, h))
  {
  }

  lemma CarveWritten(m: seq<nat>, S: set<nat>, W: set<nat>, h: nat, k: nat, prevMini: bool)
    requires Shape(m, S) && Free(m, S, h) && PrevAllocOf(m[h]) && Initialised(m, S, W, {h})
    requires h + 2 <= k && k + 2 <= Next(m, h) && (k - h) % 2 == 0
    ensures Next(m, h) < |m|
    ensures Initialised(Carved(m, h, k, Next(m, h), prevMini), With(S, k), W + {h, k - 1, k, Next(m, h) - 1}, {k})
  {
    hide Len, SizeOf, Pack, AllocOf, PrevAllocOf, PrevMiniOf, Initialised, Carved, Shape;
    CarveShape(m, S, h, k, prevMini);
    WordsInside(m, S, W, {h});
    var n := Next(m, h);
    var m2, S2, W2 := Carved(m, h, k, n, prevMini), With(S, k), W + {h, k - 1, k, n - 1};
    forall g | g in S2 && h <= g < n
      ensures HeaderIn(m2, S2, W2, {k}, g)
    {
      if g != h && g != k { NoHeaderInside(m, S, h, g); }
    }
    RegionWritten(m, S, m2, S2, h, n, W, W2, {h}, {k});
  }

  lemma HeaderWritten(m: seq<nat>, S: set<nat>, W: set<nat>, X: set<nat>, h: nat, n: nat)
    requires h < |m| && Next(m, h) == n > 0 && h in W && n - 1 in W && h in X
    ensures HeaderIn(m, S, W, X, h)
  {
  }

  lemma NoHeaderInside(m: seq<nat>, S: set<nat>, h: nat, g: nat)
    requires Shape(m, S) && h in S && g in S && h < g
    ensures Next(m, h) <= g
  {
  }

  lemma TakeWritten(m: seq<nat>, S: set<nat>, W: set<nat>, h: nat, prevMini: bool)
    requires Shape(m, S) && Free(m, S, h) && PrevAllocOf(m[h]) && Initialised(m, S, W, {h})
    ensures h < Next(m, h) < |m| && Initialised(Taken(m, h, Next(m, h), prevMini), S, W + {h}, {})
  {
    hide Len, SizeOf, Pack, AllocOf, PrevAllocOf, PrevMiniOf, Initialised, Taken, Shape;
    Take(m, S, h, prevMini);
    var n := Next(m, h);
    var m2 := Taken(m, h, n, prevMini);
    LastOf(m, S, W, {h}, h);
    WordsInside(m, S, W, {h});
    forall g | g in S && h <= g < n
      ensures HeaderIn(m2, S, W + {h}, {}, g)
    {
      if g != h { NoHeaderInside(m, S, h, g); }
    }
    RegionWritten(m, S, m2, S, h, n, W, W + {h}, {h}, {});
  }

  lemma ReleaseWritten(m: seq<nat>, S: set<nat>, W: set<nat>, h: nat)
    requires Shape(m, S) && Live(m, S, h) && Initialised(m, S, W, {})
    ensures h + 2 <= Next(m, h) < |m|
    ensures Initialised(Freed(m, h, Next(m, h)), S, W + {h, Next(m, h) - 1}, {h})
  {
    hide Len, SizeOf, Pack, AllocOf, PrevAllocOf, PrevMiniOf, Initialised, Freed, Shape, SameOutside, LiveHeap;
    Release(m, S, h);
    var n := Next(m, h);
    var m2 := Freed(m, h, n);
    WordsInside(m, S, W, {});
    hide HeaderIn;
    HeaderWritten(m2, S, W + {h, n - 1}, {h}, h, n);
    forall g | g in S && h <= g < n
      ensures HeaderIn(m2, S, W + {h, n - 1}, {h}, g)
    {
      if g != h { NoHeaderInside(m, S, h, g); }
    }
    RegionWritten(m, S, m2, S, h, n, W, W + {h, n - 1}, {}, {h});
  }

  lemma RefreshWritten(m: seq<nat>, S: set<nat>, W: set<nat>, seg: seq<nat>, L: Lists, h: nat)
    requires Consistent(m, S, seg, L, h, {h}) && Free(m, S, h) && Initialised(m, S, W, {h})
    requires PrevAllocOf(m[h]) && Next(m, h) < |m| && AllocOf(m[Next(m, h)])
    ensures Initialised(Refreshed(m, Next(m, h), Len(m[h]) == 2), S, W, {h})
  {
    hide Len, SizeOf, Pack, AllocOf, PrevAllocOf, PrevMiniOf, Initialised, Refreshed, Shape, ListsOk, Coalesced;
    RefreshStep(m, S, seg, L, h);
    var n := Next(m, h);
    var m2 := Refreshed(m, n, Len(m[h]) == 2);
    LastOf(m, S, W, {h}, h);
    WordsInside(m, S, W, {h});
    forall g | g in S && h <= g < n
      ensures HeaderIn(m2, S, W, {h}, g)
    {
      if g != h { NoHeaderInside(m, S, h, g); }
    }
    RegionWritten(m, S, m2, S, h, n, W, W, {h}, {h});
  }

  /** The words of `grown` have not been written, but for the last two. */
  lemma ExtendWritten(m: seq<nat>, S: set<nat>, W: set<nat>, grown: seq<nat>)
    requires Shape(m, S) && |grown| >= 4 && |grown| % 2 == 0 && Initialised(m, S, W, {})
    ensures var e := |m| - 1; var n := e + |grown|;
      Initialised(Extended(m, grown), With(S, n), W + {e, n - 1, n}, {e})
  {
    hide Len, SizeOf, Pack, AllocOf, PrevAllocOf, PrevMiniOf, Shape, Extended, Initialised;
    ExtendShape(m, S, grown);
    WordsInside(m, S, W, {});
    var e := |m| - 1;
    var n := e + |grown|;
    var m2, S2, W2 := Extended(m, grown), With(S, n), W + {e, n - 1, n};
    forall h | h in S2 && h < n
      ensures HeaderIn(m2, S2, W2, {e}, h)
    {
      if h != e { OldHeader(m, S, W, m2, S2, W2, e, h); }
    }
    HeadersIn(m2, S2, W2, {e});
  }

  lemma OldHeader(m: seq<nat>, S: set<nat>, W: set<nat>, m2: seq<nat>, S2: set<nat>, W2: set<nat>, e: nat, h: nat)
    requires Initialised(m, S, W, {}) && e == |m| - 1 < |m2| && W <= W2 && h in S && h < e
    requires forall w :: 0 <= w < e ==> m2[w] == m[w]
    ensures HeaderIn(m2, S2, W2, {e}, h)
  {
    hide Len, AllocOf;
    assert LastIn(m, W, h);
    if !AllocOf(m[h]) { assert Free(m, S, h) && LinksIn(m, W, h); }
  }
}
