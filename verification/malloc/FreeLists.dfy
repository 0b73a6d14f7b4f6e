/** The segregated lists: 14 lists of free blocks threaded through the payload words of the blocks.
    Word h + 1 of a free block is its next pointer; word h + 2 is its prev pointer, except in list 0,
    whose 16-byte blocks have no room for one. */
module FreeLists {
  import opened HeapWords
  import opened SizeClasses
  import opened HeapShape

  type Lists = L: seq<seq<nat>> | |L| == LIST_NUMBER witness seq(LIST_NUMBER, _ => [])

  /** Element `k` of a list, or NULL beyond either end. */
  function At(l: seq<nat>, k: int): nat {
    if 0 <= k < |l| then l[k] else 0
  }

  /** The blocks of `l` are chained from `head`, forwards and (outside list 0) backwards. */
  ghost predicate Chained(m: seq<nat>, head: nat, l: seq<nat>, i: nat) {
    && head == At(l, 0)
    && (forall k :: 0 <= k < |l| ==> l[k] > 0 && l[k] + 2 < |m|)
    && (forall j, k :: 0 <= j < k < |l| ==> l[j] != l[k])
    && (forall k :: 0 <= k < |l| ==> m[l[k] + 1] == At(l, k + 1) && (i != 0 ==> m[l[k] + 2] == At(l, k - 1)))
  }

  ghost function ClassOf(m: seq<nat>, h: nat): (i: nat)
    requires h < |m|
    ensures i < LIST_NUMBER
  {
    IndexOf(8 * Len(m[h]))
  }

  /** The lists hold exactly the free blocks that are not in `X`, each in the list of its class. */
  ghost predicate Listed(m: seq<nat>, S: set<nat>, L: Lists, X: set<nat>) {
    && (forall i, k :: 0 <= i < LIST_NUMBER && 0 <= k < |L[i]| ==>
          Free(m, S, L[i][k]) && ClassOf(m, L[i][k]) == i && L[i][k] !in X)
    && (forall h :: Free(m, S, h) && h !in X ==> h in L[ClassOf(m, h)])
  }

  ghost predicate ListsOk(m: seq<nat>, S: set<nat>, seg: seq<nat>, L: Lists, X: set<nat>) {
    && |seg| == LIST_NUMBER
    && (forall i :: 0 <= i < LIST_NUMBER ==> Chained(m, seg[i], L[i], i))
    && Listed(m, S, L, X)
  }

  // ----- Frames

  lemma Sizes(m: seq<nat>, S: set<nat>, h: nat)
    requires Shape(m, S) && Free(m, S, h)
    ensures h + 2 <= Next(m, h) < |m| && Next(m, h) == h + Len(m[h])
    ensures ClassOf(m, h) == 0 <==> Len(m[h]) == 2
    ensures ClassOf(m, h) != 0 ==> h + 4 <= Next(m, h)
  {
    SizeIsLen(m[h]);
  }

  lemma OtherChain(m: seq<nat>, m2: seq<nat>, head: nat, l: seq<nat>, i: nat)
    requires Chained(m, head, l, i) && |m| <= |m2|
    requires forall k :: 0 <= k < |l| ==> m2[l[k] + 1] == m[l[k] + 1] && (i != 0 ==> m2[l[k] + 2] == m[l[k] + 2])
    ensures Chained(m2, head, l, i)
  {
  }

  lemma ListedInShape(m: seq<nat>, S: set<nat>, seg: seq<nat>, L: Lists, X: set<nat>, i: nat)
    requires Shape(m, S) && ListsOk(m, S, seg, L, X) && i < LIST_NUMBER
    ensures i < |seg| && Odd(L[i]) && Chained(m, seg[i], L[i], i)
    ensures forall k :: 0 <= k < |L[i]| ==> Free(m, S, L[i][k]) && L[i][k] !in X && ClassOf(m, L[i][k]) == i
  {
    hide Len, SizeOf, Pack, AllocOf, PrevAllocOf, PrevMiniOf, IndexOf;
  }

  /** The chain of a list depends on the links of its blocks. */
  lemma FrameChain(m: seq<nat>, S: set<nat>, m2: seq<nat>, seg: seq<nat>, L: Lists, X: set<nat>, i: nat)
    requires Shape(m, S) && ListsOk(m, S, seg, L, X) && i < LIST_NUMBER && |m| <= |m2|
    requires forall h: nat :: Free(m, S, h) && h !in X ==>
      m2[h + 1] == m[h + 1] && (h + 4 <= Next(m, h) ==> m2[h + 2] == m[h + 2])
    ensures i < |seg| && Chained(m2, seg[i], L[i], i)
  {
    hide Len, SizeOf, Pack, AllocOf, PrevAllocOf, PrevMiniOf, IndexOf, At, Shape, ListsOk;
    ListedInShape(m, S, seg, L, X, i);
    var l := L[i];
    forall k | 0 <= k < |l|
      ensures m2[l[k] + 1] == m[l[k] + 1] && (i != 0 ==> m2[l[k] + 2] == m[l[k] + 2])
    {
      Sizes(m, S, l[k]);
    }
    OtherChain(m, m2, seg[i], l, i);
  }

  /** What the lists depend on: the size, status and links of the listed blocks. */
  lemma ListsFrame(m: seq<nat>, S: set<nat>, m2: seq<nat>, S2: set<nat>, seg: seq<nat>, L: Lists,
                   X: set<nat>, X2: set<nat>)
    requires Shape(m, S) && ListsOk(m, S, seg, L, X)
    requires |m| <= |m2|
    requires forall h: nat :: Free(m, S, h) && h !in X ==>
      && Free(m2, S2, h) && h !in X2 && Len(m2[h]) == Len(m[h])
      && m2[h + 1] == m[h + 1] && (h + 4 <= Next(m, h) ==> m2[h + 2] == m[h + 2])
    requires forall h :: Free(m2, S2, h) && h !in X2 ==> Free(m, S, h) && h !in X
    ensures ListsOk(m2, S2, seg, L, X2)
  {
    hide Len, SizeOf, Pack, AllocOf, PrevAllocOf, PrevMiniOf, IndexOf, Chained, Shape;
    forall i | 0 <= i < LIST_NUMBER
      ensures Chained(m2, seg[i], L[i], i)
    {
      FrameChain(m, S, m2, seg, L, X, i);
    }
  }

  /** Rewriting a region whose free blocks are all unlisted leaves the lists alone. */
  lemma ListsOutside(m: seq<nat>, S: set<nat>, m2: seq<nat>, S2: set<nat>, a: nat, n: nat, seg: seq<nat>,
                     L: Lists, X: set<nat>, X2: set<nat>)
    requires Shape(m, S) && Shape(m2, S2) && SameOutside(m, S, m2, S2, a, n)
    requires ListsOk(m, S, seg, L, X)
    requires forall h :: a <= h < n && Free(m, S, h) ==> h in X
    requires forall h :: a <= h < n && Free(m2, S2, h) ==> h in X2
    requires forall h :: !(a <= h < n) ==> (h in X <==> h in X2)
    ensures ListsOk(m2, S2, seg, L, X2)
  {
    hide Len, SizeOf, Pack, AllocOf, PrevAllocOf, PrevMiniOf, IndexOf, ListsOk;
    forall h: nat | Free(m, S, h) && h !in X
      ensures Free(m2, S2, h) && h !in X2 && Len(m2[h]) == Len(m[h])
      ensures m2[h + 1] == m[h + 1] && (h + 4 <= Next(m, h) ==> m2[h + 2] == m[h + 2])
    {
      Sizes(m, S, h);
      if h < a { assert Next(m, h) <= a; }
    }
    ListsFrame(m, S, m2, S2, seg, L, X, X2);
  }

  // ----- Writing links

  /** `m2` has the headers of `m`, and so the same shape and the same client-visible contents. */
  ghost predicate SameBlocks(m: seq<nat>, m2: seq<nat>, S: set<nat>) {
    && Shape(m, S) && Shape(m2, S) && |m2| == |m|
    && (forall g :: g in S ==> m2[g] == m[g])
    && LiveHeap(m2, S) == LiveHeap(m, S)
  }

  /** The link words of a free block are neither a header, nor a footer, nor payload. */
  lemma WriteLink(m: seq<nat>, S: set<nat>, h: nat, w: nat, v: nat)
    requires Shape(m, S) && Free(m, S, h) && h + 2 <= Next(m, h) < |m|
    requires w == h + 1 || (w == h + 2 && h + 4 <= Next(m, h))
    ensures SameBlocks(m, m[w := v], S)
  {
    hide Len, SizeOf, Pack, AllocOf, PrevAllocOf, PrevMiniOf;
    WriteLinkShape(m, S, h, w, v);
    var m2 := m[w := v];
    forall g: nat | g != 0
      ensures Live(m2, S, g) == Live(m, S, g)
      ensures Live(m, S, g) ==> Payload(m2, S, g) == Payload(m, S, g)
    {
      if Live(m, S, g) { WriteLinkBlock(m, S, h, w, v, g); }
    }
    hide Shape, Payload;
    LiveExcept(m, S, m2, S, 0);
  }

  /** The word lies in the free block, so in no other block, and it is no header and no footer. */
  lemma WriteLinkBlock(m: seq<nat>, S: set<nat>, h: nat, w: nat, v: nat, g: nat)
    requires Shape(m, S) && Free(m, S, h) && h + 2 <= Next(m, h) < |m|
    requires w == h + 1 || (w == h + 2 && h + 4 <= Next(m, h))
    requires g in S && g + 1 < |m|
    ensures var m2 := m[w := v];
      && g < Next(m, g) < |m| && m2[g] == m[g] && m2[Next(m, g)] == m[Next(m, g)]
      && (Len(m[g]) > 2 ==> m2[Next(m, g) - 1] == m[Next(m, g) - 1])
      && (g != h ==> m2[g + 1..Next(m, g)] == m[g + 1..Next(m, g)])
  {
    hide Len, SizeOf, Pack, AllocOf, PrevAllocOf, PrevMiniOf, Recorded;
    assert BlockOk(m, S, g);
    if h < g { assert Next(m, h) <= g; } else if g < h { assert Next(m, g) <= h; }
  }

  lemma WriteLinkShape(m: seq<nat>, S: set<nat>, h: nat, w: nat, v: nat)
    requires Shape(m, S) && Free(m, S, h) && h + 2 <= Next(m, h) < |m|
    requires w == h + 1 || (w == h + 2 && h + 4 <= Next(m, h))
    ensures Shape(m[w := v], S) && forall g :: g in S ==> m[w := v][g] == m[g]
  {
    hide Len, SizeOf, Pack, AllocOf, PrevAllocOf, PrevMiniOf;
    var m2 := m[w := v];
    forall g | g in S
      ensures m2[g] == m[g]
    {
      if h < g { assert Next(m, h) <= g; }
    }
    forall g {:trigger Next(m2, g)} {:trigger BlockOk(m2, S, g)} | g in S && g + 1 < |m2|
      ensures BlockOk(m2, S, g) && Next(m2, g) == Next(m, g)
    {
      assert BlockOk(m, S, g);
      WriteLinkBlock(m, S, h, w, v, g);
    }
  }

  /** The effect of delete_block on memory: `p` and `q` are the neighbours of the block in list `i`. */
  function Unlinked(m: seq<nat>, i: nat, p: nat, q: nat): (r: seq<nat>)
    requires p + 1 < |m| && q + 2 < |m|
    ensures |r| == |m|
  {
    var m1 := if p != 0 then m[p + 1 := q] else m;
    if i != 0 && q != 0 then m1[q + 2 := p] else m1
  }

  function UnlinkedHeads(seg: seq<nat>, i: nat, p: nat, q: nat): seq<nat>
    requires i < |seg|
  {
    if p == 0 then seg[i := q] else seg
  }

  function Drop(l: seq<nat>, k: nat): seq<nat>
    requires k < |l|
  {
    l[..k] + l[k + 1..]
  }

  ghost predicate Odd(l: seq<nat>) {
    forall k :: 0 <= k < |l| ==> l[k] % 2 == 1
  }

  lemma UnlinkedWords(m: seq<nat>, i: nat, p: nat, q: nat, g: nat)
    requires p + 1 < |m| && q + 2 < |m| && g + 2 < |m| && g % 2 == 1
    requires (p != 0 ==> p % 2 == 1) && (q != 0 ==> q % 2 == 1)
    ensures var m2 := Unlinked(m, i, p, q);
      && |m2| == |m|
      && m2[g + 1] == (if g == p then q else m[g + 1])
      && m2[g + 2] == (if i != 0 && g == q then p else m[g + 2])
  {
  }

  lemma AtDrop(l: seq<nat>, k: nat, t: int)
    requires k < |l|
    ensures At(Drop(l, k), t) == At(l, if t < k then t else t + 1)
  {
  }

  lemma AtPush(h: nat, l: seq<nat>, t: int)
    ensures At([h] + l, t) == if t == 0 then h else At(l, t - 1)
  {
  }

  lemma AtIs(l: seq<nat>, k: int)
    ensures At(l, k) == if 0 <= k < |l| then l[k] else 0
  {
  }

  /** What becomes of the links of another element of the list. */
  lemma UnlinkedElement(m: seq<nat>, head: nat, l: seq<nat>, i: nat, k: nat, t: nat)
    requires Chained(m, head, l, i) && Odd(l) && k < |l| && t < |l| && t != k
    ensures var p, q := At(l, k - 1), At(l, k + 1);
      && p + 1 < |m| && q + 2 < |m|
      && var m2 := Unlinked(m, i, p, q);
      && l[t] > 0 && l[t] + 2 < |m2|
      && m2[l[t] + 1] == (if t + 1 == k then q else At(l, t + 1))
      && (i != 0 ==> m2[l[t] + 2] == if t == k + 1 then p else At(l, t - 1))
  {
    hide Unlinked, At;
    AtIs(l, k - 1);
    AtIs(l, k + 1);
    UnlinkedWords(m, i, At(l, k - 1), At(l, k + 1), l[t]);
  }

  lemma UnlinkedLinks(m: seq<nat>, head: nat, l: seq<nat>, i: nat, k: nat, t: nat)
    requires Chained(m, head, l, i) && Odd(l) && k < |l| && t < |Drop(l, k)|
    ensures var p, q, d := At(l, k - 1), At(l, k + 1), Drop(l, k);
      && p + 1 < |m| && q + 2 < |m|
      && var m2 := Unlinked(m, i, p, q);
      && d[t] > 0 && d[t] + 2 < |m2|
      && m2[d[t] + 1] == At(d, t + 1) && (i != 0 ==> m2[d[t] + 2] == At(d, t - 1))
  {
    hide Unlinked, At, Chained, Odd;
    var u := if t < k then t else t + 1;
    assert Drop(l, k)[t] == l[u];
    hide Drop;
    UnlinkedElement(m, head, l, i, k, u);
    AtDrop(l, k, t + 1);
    AtDrop(l, k, t - 1);
  }

  lemma UnlinkedChain(m: seq<nat>, head: nat, l: seq<nat>, i: nat, k: nat)
    requires Chained(m, head, l, i) && Odd(l) && k < |l|
    ensures var p, q := At(l, k - 1), At(l, k + 1);
      && p + 1 < |m| && q + 2 < |m|
      && Chained(Unlinked(m, i, p, q), if p == 0 then q else head, Drop(l, k), i)
  {
    hide Unlinked, At, Odd;
    var p, q, d := At(l, k - 1), At(l, k + 1), Drop(l, k);
    AtIs(l, k - 1);
    AtIs(l, k);
    AtIs(l, k + 1);
    AtIs(l, 0);
    AtDrop(l, k, 0);
    var m2 := Unlinked(m, i, p, q);
    forall t | 0 <= t < |d|
      ensures d[t] > 0 && d[t] + 2 < |m2|
      ensures m2[d[t] + 1] == At(d, t + 1) && (i != 0 ==> m2[d[t] + 2] == At(d, t - 1))
    {
      UnlinkedLinks(m, head, l, i, k, t);
    }
  }

  lemma LinkedWords(m: seq<nat>, i: nat, h: nat, f: nat, g: nat)
    requires h + 2 < |m| && f + 2 < |m| && g + 2 < |m| && g % 2 == 1 && h % 2 == 1 && f != h
    requires f != 0 ==> f % 2 == 1
    ensures var m2 := Linked(m, i, h, f);
      && |m2| == |m|
      && m2[g + 1] == (if g == h then f else m[g + 1])
      && m2[g + 2] == (if i != 0 && g == h then 0 else if i != 0 && g == f then h else m[g + 2])
  {
  }

  lemma LinkedChain(m: seq<nat>, head: nat, l: seq<nat>, i: nat, h: nat)
    requires Chained(m, head, l, i) && Odd(l) && h % 2 == 1 && h + 2 < |m| && h !in l
    ensures head + 2 < |m| && Chained(Linked(m, i, h, head), h, [h] + l, i)
  {
    hide Linked, At;
    var d := [h] + l;
    AtIs(l, 0);
    AtIs(l, -2);
    AtPush(h, l, 0);
    var m2 := Linked(m, i, h, head);
    LinkedWords(m, i, h, head, h);
    forall t | 0 <= t < |d|
      ensures d[t] > 0 && d[t] + 2 < |m2|
      ensures m2[d[t] + 1] == At(d, t + 1) && (i != 0 ==> m2[d[t] + 2] == At(d, t - 1))
    {
      if t > 0 {
        assert d[t] == l[t - 1];
        LinkedWords(m, i, h, head, l[t - 1]);
      }
      AtPush(h, l, t + 1);
      AtPush(h, l, t - 1);
    }
  }

  /** The effect of insert_block on memory: `f` is the first block of list `i`, or NULL. */
  function Linked(m: seq<nat>, i: nat, h: nat, f: nat): (r: seq<nat>)
    requires h + 2 < |m| && f + 2 < |m|
    ensures |r| == |m|
  {
    var m1 := m[h + 1 := f];
    if i == 0 then m1
    else
      var m2 := m1[h + 2 := 0];
      if f != 0 then m2[f + 2 := h] else m2
  }

  /** Inserting a block that is in the list already, in place `k`, closes a cycle: it leads to the old first block,
      and from there back to itself. No list can be read off the links any more. */
  lemma LinkedTwice(m: seq<nat>, head: nat, l: seq<nat>, i: nat, k: nat, l2: seq<nat>)
    requires Chained(m, head, l, i) && Odd(l) && k < |l|
    ensures l[k] + 2 < |m| && head + 2 < |m| && !Chained(Linked(m, i, l[k], head), l[k], l2, i)
  {
    hide Linked, At;
    AtIs(l, 0);
    var m2 := Linked(m, i, l[k], head);
    forall j | 0 <= j < |l|
      ensures |m2| == |m| && m2[l[j] + 1] == if j == k then l[0] else At(l, j + 1)
    {
      NextWord(m, i, l[k], head, l[j]);
    }
    if Chained(m2, l[k], l2, i) {
      Follow(m2, l, i, k, l2, k);
      AtIs(l2, 0);
    }
  }

  /** From the block inserted again, the links run through the old list up to that block. */
  lemma {:induction false} Follow(m2: seq<nat>, l: seq<nat>, i: nat, k: nat, l2: seq<nat>, j: nat)
    requires j <= k < |l| && (forall j :: 0 <= j < |l| ==> 0 < l[j] && l[j] + 1 < |m2|)
    requires forall j :: 0 <= j < |l| ==> m2[l[j] + 1] == if j == k then l[0] else At(l, j + 1)
    requires Chained(m2, l[k], l2, i)
    ensures j + 1 < |l2| && l2[j + 1] == l[j]
    decreases j
  {
    hide At;
    AtIs(l, j);
    AtIs(l2, 0);
    AtIs(l2, j + 1);
    if j > 0 { Follow(m2, l, i, k, l2, j - 1); }
    assert m2[l2[j] + 1] == At(l2, j + 1);
  }

  lemma NextWord(m: seq<nat>, i: nat, h: nat, f: nat, g: nat)
    requires h + 2 < |m| && f + 2 < |m| && g + 2 < |m| && g % 2 == 1 && h % 2 == 1
    requires f != 0 ==> f % 2 == 1
    ensures |Linked(m, i, h, f)| == |m| && Linked(m, i, h, f)[g + 1] == if g == h then f else m[g + 1]
  {
  }

  /** Removing element `k` of list `i`: no other list, no header and no payload changes. */
  lemma Unlink(m: seq<nat>, S: set<nat>, seg: seq<nat>, L: Lists, X: set<nat>, i: nat, k: nat)
    requires Shape(m, S) && ListsOk(m, S, seg, L, X)
    requires i < LIST_NUMBER && k < |L[i]|
    ensures var l := L[i]; var p, q := At(l, k - 1), At(l, k + 1);
      && p + 1 < |m| && q + 2 < |m|
      && var m2 := Unlinked(m, i, p, q);
      && SameBlocks(m, m2, S)
      && ListsOk(m2, S, UnlinkedHeads(seg, i, p, q), L[i := Drop(l, k)], X + {l[k]})
  {
    hide Len, SizeOf, Pack, AllocOf, PrevAllocOf, PrevMiniOf, IndexOf, At, Odd, Shape, Drop, Unlinked;
    var l := L[i];
    var p, q := At(l, k - 1), At(l, k + 1);
    ListedInShape(m, S, seg, L, X, i);
    UnlinkedChain(m, seg[i], l, i, k);
    UnlinkBlocks(m, S, seg, L, X, i, k);
    var m2 := Unlinked(m, i, p, q);
    var L2: Lists, seg2, X2: set<nat> := L[i := Drop(l, k)], UnlinkedHeads(seg, i, p, q), X + {l[k]};
    forall j | 0 <= j < LIST_NUMBER
      ensures Chained(m2, seg2[j], L2[j], j)
    {
      if j != i { OtherUnlinked(m, S, seg, L, X, i, k, j); }
    }
    HeadersInside(m, S);
    UnlinkListed(m, m2, S, L, X, i, k);
    hide Chained, Listed, LiveHeap, Free;
  }

  lemma HeadersInside(m: seq<nat>, S: set<nat>)
    requires Shape(m, S)
    ensures forall g :: g in S ==> g < |m|
  {
  }

  lemma OtherUnlinked(m: seq<nat>, S: set<nat>, seg: seq<nat>, L: Lists, X: set<nat>, i: nat, k: nat, j: nat)
    requires Shape(m, S) && ListsOk(m, S, seg, L, X)
    requires i < LIST_NUMBER && k < |L[i]| && j < LIST_NUMBER && j != i
    ensures var p, q := At(L[i], k - 1), At(L[i], k + 1);
      p + 1 < |m| && q + 2 < |m| && Chained(Unlinked(m, i, p, q), seg[j], L[j], j)
  {
    hide Len, SizeOf, Pack, AllocOf, PrevAllocOf, PrevMiniOf, IndexOf, At, Unlinked;
    var p, q := At(L[i], k - 1), At(L[i], k + 1);
    AtIs(L[i], k - 1);
    AtIs(L[i], k + 1);
    ListedInShape(m, S, seg, L, X, i);
    ListedInShape(m, S, seg, L, X, j);
    hide ListsOk, Shape, Free;
    UnlinkedChain(m, seg[i], L[i], i, k);
    forall t | 0 <= t < |L[j]|
      ensures var m2 := Unlinked(m, i, p, q);
        m2[L[j][t] + 1] == m[L[j][t] + 1] && m2[L[j][t] + 2] == m[L[j][t] + 2]
    {
      UnlinkedWords(m, i, p, q, L[j][t]);
    }
    OtherChain(m, Unlinked(m, i, p, q), seg[j], L[j], j);
  }

  lemma UnlinkBlocks(m: seq<nat>, S: set<nat>, seg: seq<nat>, L: Lists, X: set<nat>, i: nat, k: nat)
    requires Shape(m, S) && ListsOk(m, S, seg, L, X)
    requires i < LIST_NUMBER && k < |L[i]|
    ensures var p, q := At(L[i], k - 1), At(L[i], k + 1);
      p + 1 < |m| && q + 2 < |m| && SameBlocks(m, Unlinked(m, i, p, q), S)
  {
    hide Len, SizeOf, Pack, AllocOf, PrevAllocOf, PrevMiniOf, IndexOf, At, LiveHeap, Unlinked;
    var l := L[i];
    AtIs(l, k - 1);
    AtIs(l, k + 1);
    ListedInShape(m, S, seg, L, X, i);
    Sizes(m, S, l[k]);
    UnlinkedBlocks(m, S, i, At(l, k - 1), At(l, k + 1));
  }

  lemma UnlinkedBlocks(m: seq<nat>, S: set<nat>, i: nat, p: nat, q: nat)
    requires Shape(m, S) && |m| > 2
    requires p != 0 ==> Free(m, S, p)
    requires q != 0 ==> Free(m, S, q) && ClassOf(m, q) == i
    ensures p + 1 < |m| && q + 2 < |m| && SameBlocks(m, Unlinked(m, i, p, q), S)
  {
    hide Len, SizeOf, Pack, AllocOf, PrevAllocOf, PrevMiniOf, IndexOf, LiveHeap;
    if p != 0 {
      Sizes(m, S, p);
      WriteLink(m, S, p, p + 1, q);
    }
    var m1 := if p != 0 then m[p + 1 := q] else m;
    if q != 0 {
      Sizes(m, S, q);
      if i != 0 {
        assert Next(m1, q) == Next(m, q);
        WriteLink(m1, S, q, q + 2, p);
      }
    }
  }

  lemma LinkedBlocks(m: seq<nat>, S: set<nat>, i: nat, h: nat, f: nat)
    requires Shape(m, S) && Free(m, S, h) && ClassOf(m, h) == i
    requires f != 0 ==> Free(m, S, f) && ClassOf(m, f) == i
    ensures h + 2 < |m| && f + 2 < |m| && SameBlocks(m, Linked(m, i, h, f), S)
  {
    hide Len, SizeOf, Pack, AllocOf, PrevAllocOf, PrevMiniOf, IndexOf, LiveHeap;
    Sizes(m, S, h);
    WriteLink(m, S, h, h + 1, f);
    var m1 := m[h + 1 := f];
    if i != 0 {
      assert Next(m1, h) == Next(m, h);
      WriteLink(m1, S, h, h + 2, 0);
      var m2 := m1[h + 2 := 0];
      if f != 0 {
        Sizes(m, S, f);
        assert Next(m2, f) == Next(m, f);
        WriteLink(m2, S, f, f + 2, h);
      }
    } else if f != 0 {
      Sizes(m, S, f);
    }
  }

  lemma UnlinkListed(m: seq<nat>, m2: seq<nat>, S: set<nat>, L: Lists, X: set<nat>, i: nat, k: nat)
    requires Listed(m, S, L, X) && i < LIST_NUMBER && k < |L[i]|
    requires forall j, t :: 0 <= j < t < |L[i]| ==> L[i][j] != L[i][t]
    requires |m2| == |m| && forall g :: g in S ==> g < |m| && m2[g] == m[g]
    ensures Listed(m2, S, L[i := Drop(L[i], k)], X + {L[i][k]})
  {
    hide Len, SizeOf, Pack, AllocOf, PrevAllocOf, PrevMiniOf, IndexOf;
    var l, d := L[i], Drop(L[i], k);
    var L2: Lists, X2 := L[i := d], X + {l[k]};
    forall j, t | 0 <= j < LIST_NUMBER && 0 <= t < |L2[j]|
      ensures Free(m2, S, L2[j][t]) && ClassOf(m2, L2[j][t]) == j && L2[j][t] !in X2
    {
      if j == i {
        assert d[t] == if t < k then l[t] else l[t + 1];
      }
    }
    forall h | Free(m2, S, h) && h !in X2
      ensures h in L2[ClassOf(m2, h)]
    {
      assert h in L[ClassOf(m, h)];
      if ClassOf(m, h) == i {
        var t :| 0 <= t < |l| && l[t] == h;
        assert h == d[if t < k then t else t - 1];
      }
    }
  }

  /** Adding the unlisted free block `h` at the front of the list of its class. */
  lemma Link(m: seq<nat>, S: set<nat>, seg: seq<nat>, L: Lists, X: set<nat>, h: nat)
    requires Shape(m, S) && ListsOk(m, S, seg, L, X)
    requires Free(m, S, h) && h in X
    ensures var i := ClassOf(m, h); var f := seg[i];
      && h + 2 < |m| && f + 2 < |m|
      && var m2 := Linked(m, i, h, f);
      && SameBlocks(m, m2, S)
      && ListsOk(m2, S, seg[i := h], L[i := [h] + L[i]], X - {h})
  {
    hide Len, SizeOf, Pack, AllocOf, PrevAllocOf, PrevMiniOf, IndexOf, At, Linked, LiveHeap, Odd;
    var i := ClassOf(m, h);
    var l, f := L[i], seg[i];
    AtIs(l, 0);
    ListedInShape(m, S, seg, L, X, i);
    LinkedBlocks(m, S, i, h, f);
    LinkedChain(m, f, l, i, h);
    HeadersInside(m, S);
    hide Shape;
    var m2 := Linked(m, i, h, f);
    var L2: Lists, seg2 := L[i := [h] + l], seg[i := h];
    forall j | 0 <= j < LIST_NUMBER
      ensures Chained(m2, seg2[j], L2[j], j)
    {
      if j != i { OtherLinked(m, S, seg, L, X, h, j); }
    }
    LinkListed(m, m2, S, L, X, h);
    hide Chained, Listed, Free;
  }

  lemma OtherLinked(m: seq<nat>, S: set<nat>, seg: seq<nat>, L: Lists, X: set<nat>, h: nat, j: nat)
    requires Shape(m, S) && ListsOk(m, S, seg, L, X) && Free(m, S, h) && h in X
    requires j < LIST_NUMBER && j != ClassOf(m, h)
    ensures var i := ClassOf(m, h);
      h + 2 < |m| && seg[i] + 2 < |m| && Chained(Linked(m, i, h, seg[i]), seg[j], L[j], j)
  {
    hide Len, SizeOf, Pack, AllocOf, PrevAllocOf, PrevMiniOf, IndexOf, At, Linked;
    var i := ClassOf(m, h);
    AtIs(L[i], 0);
    Sizes(m, S, h);
    ListedInShape(m, S, seg, L, X, i);
    ListedInShape(m, S, seg, L, X, j);
    LinkedChain(m, seg[i], L[i], i, h);
    hide ListsOk, Shape, Free;
    forall t | 0 <= t < |L[j]|
      ensures var m2 := Linked(m, i, h, seg[i]);
        m2[L[j][t] + 1] == m[L[j][t] + 1] && m2[L[j][t] + 2] == m[L[j][t] + 2]
    {
      LinkedWords(m, i, h, seg[i], L[j][t]);
    }
    OtherChain(m, Linked(m, i, h, seg[i]), seg[j], L[j], j);
  }

  lemma LinkListed(m: seq<nat>, m2: seq<nat>, S: set<nat>, L: Lists, X: set<nat>, h: nat)
    requires Listed(m, S, L, X) && Free(m, S, h) && h in X
    requires |m2| == |m| && forall g :: g in S ==> g < |m| && m2[g] == m[g]
    ensures var i := ClassOf(m, h); Listed(m2, S, L[i := [h] + L[i]], X - {h})
  {
    hide Len, SizeOf, Pack, AllocOf, PrevAllocOf, PrevMiniOf, IndexOf;
    var i := ClassOf(m, h);
    var l, d := L[i], [h] + L[i];
    var L2: Lists, X2 := L[i := d], X - {h};
    forall j, t | 0 <= j < LIST_NUMBER && 0 <= t < |L2[j]|
      ensures Free(m2, S, L2[j][t]) && ClassOf(m2, L2[j][t]) == j && L2[j][t] !in X2
    {
      if j == i {
        assert d[t] == if t == 0 then h else l[t - 1];
      }
    }
    forall g | Free(m2, S, g) && g !in X2
      ensures g in L2[ClassOf(m2, g)]
    {
      if g != h {
        assert g in L[ClassOf(m, g)];
        if ClassOf(m, g) == i { assert g in d; }
      } else {
        assert d[0] == h;
      }
    }
  }
}
