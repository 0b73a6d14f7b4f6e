/** The simulation in terms of block numbers alone, without sets, tags and stacks (csim1.c). */
module CacheBlocks {
  import opened Arithmetic
  import opened CacheGeometry
  import opened RecencyStack
  import opened CacheTrace

  function Block(g: Geometry, a: Access): nat {
    BlockOf(g, a.address)
  }

  /** The blocks of set `i` that a trace uses. */
  ghost function BlocksIn(g: Geometry, trace: Trace, i: nat): set<nat> {
    set k | 0 <= k < |trace| && Block(g, trace[k]) % Pow2(g.s) == i :: Block(g, trace[k])
  }

  lemma {:induction false} UsesConcat(g: Geometry, a: Trace, b: Trace, i: nat)
    requires Shiftable(g)
    ensures Uses(g, a + b, i) == Uses(g, a, i) + Uses(g, b, i)
  {
    hide SetOf, TagOf;
    if b == [] {
      assert a + b == a;
    } else {
      assert (a + b)[..|a + b| - 1] == a + b[..|b| - 1];
      UsesConcat(g, a, b[..|b| - 1], i);
    }
  }

  lemma BlocksGrow(g: Geometry, before: Trace, a: Access, i: nat)
    ensures BlocksIn(g, before + [a], i) ==
      BlocksIn(g, before, i) + if Block(g, a) % Pow2(g.s) == i then {Block(g, a)} else {}
  {
    hide Block, Pow2;
    var all := before + [a];
    assert all[|before|] == a;
    assert forall k :: 0 <= k < |before| ==> all[k] == before[k];
    forall x | x in BlocksIn(g, before, i)
      ensures x in BlocksIn(g, all, i)
    {
      var k :| 0 <= k < |before| && Block(g, before[k]) % Pow2(g.s) == i && Block(g, before[k]) == x;
      assert all[k] == before[k];
    }
  }

  /** The blocks `B` of set `i` and the tags `u` correspond one to one. */
  ghost predicate Correspond(B: set<nat>, u: seq<nat>, d: nat, i: nat)
    requires d > 0
  {
    |B| == |Distinct(u)| && forall x :: x in B <==> IsBlock(x, u, d, i)
  }

  ghost predicate IsBlock(x: nat, u: seq<nat>, d: nat, i: nat)
    requires d > 0
  {
    x % d == i && x / d in u
  }

  lemma OneMore(B: set<nat>, u: seq<nat>, y: nat, t: nat, d: nat, i: nat)
    requires d > 0 && Correspond(B, u, d, i) && y % d == i && t == y / d
    ensures Correspond(B + {y}, u + [t], d, i)
  {
    assert y in B <==> t in u by { assert y in B <==> IsBlock(y, u, d, i); }
    SameSize(B, u, y, t);
    forall x
      ensures x in B + {y} <==> IsBlock(x, u + [t], d, i)
    {
      assert x in B <==> IsBlock(x, u, d, i);
      OneMoreBlock(B, u, x, y, t, d, i);
    }
    hide IsBlock, Distinct;
  }

  lemma SameSize(B: set<nat>, u: seq<nat>, y: nat, t: nat)
    requires |B| == |Distinct(u)| && (y in B <==> t in u)
    ensures |B + {y}| == |Distinct(u + [t])|
  {
    assert Distinct(u + [t]) == Distinct(u) + {t};
    Grown(B, y);
    Grown(Distinct(u), t);
  }

  lemma Grown(X: set<nat>, x: nat)
    ensures |X + {x}| == |X| + if x in X then 0 else 1
  {
    if x in X { assert X + {x} == X; }
  }

  lemma OneMoreBlock(B: set<nat>, u: seq<nat>, x: nat, y: nat, t: nat, d: nat, i: nat)
    requires d > 0 && (x in B <==> IsBlock(x, u, d, i)) && y % d == i && t == y / d
    ensures x in B + {y} <==> IsBlock(x, u + [t], d, i)
  {
    if x % d == i && x / d == t { SameParts(x, y, d); }
  }

  lemma {:induction false} BlocksAreTags(g: Geometry, trace: Trace, i: nat)
    requires Shiftable(g)
    ensures Correspond(BlocksIn(g, trace, i), Uses(g, trace, i), Pow2(g.s), i)
  {
    hide Pow2, SetOf, TagOf, Block, BlocksIn, Correspond;
    if trace == [] {
      NoBlocksIn(g, i);
      NoneCorrespond(Pow2(g.s), i);
    } else {
      var before, a := trace[..|trace| - 1], trace[|trace| - 1];
      assert trace == before + [a];
      BlocksAreTags(g, before, i);
      BlocksGrow(g, before, a, i);
      BlockParts(g, a);
      if SetOf(g, a.address) == i {
        OneMore(BlocksIn(g, before, i), Uses(g, before, i), Block(g, a), TagOf(g, a.address), Pow2(g.s), i);
      } else {
        assert Uses(g, trace, i) == Uses(g, before, i);
        assert BlocksIn(g, trace, i) == BlocksIn(g, before, i);
      }
    }
  }

  lemma NoneCorrespond(d: nat, i: nat)
    requires d > 0
    ensures Correspond({}, [], d, i)
  {
  }

  lemma NoBlocksIn(g: Geometry, i: nat)
    ensures BlocksIn(g, [], i) == {}
  {
  }

  lemma BlockParts(g: Geometry, a: Access)
    requires Shiftable(g)
    ensures Block(g, a) % Pow2(g.s) == SetOf(g, a.address) && Block(g, a) / Pow2(g.s) == TagOf(g, a.address)
  {
    TagOfIsQuotient(g, a.address);
  }

  lemma SameParts(x: nat, y: nat, d: nat)
    requires d > 0 && x / d == y / d && x % d == y % d
    ensures x == y
  {
    Division(x, d);
    Division(y, d);
  }

  // ----- Hits and evictions

  /** The trace uses the block of `a` in step `k`, and fewer than E blocks of its set from then on. */
  ghost predicate Recent(g: Geometry, trace: Trace, a: Access, k: nat) {
    && k < |trace| && Block(g, trace[k]) == Block(g, a)
    && |BlocksIn(g, trace[k + 1..], Block(g, a) % Pow2(g.s))| < g.E
  }

  /** After step `k` the block of `a` is not used. */
  ghost predicate LastAt(g: Geometry, trace: Trace, a: Access, k: nat) {
    && k < |trace| && Block(g, trace[k]) == Block(g, a)
    && forall j :: k < j < |trace| ==> Block(g, trace[j]) != Block(g, a)
  }

  lemma {:induction false} FindLast(g: Geometry, trace: Trace, a: Access, j: nat) returns (k: nat)
    requires j < |trace| && Block(g, trace[j]) == Block(g, a)
    ensures LastAt(g, trace, a, k) && j <= k
    decreases |trace| - j
  {
    hide Block;
    if i :| j < i < |trace| && Block(g, trace[i]) == Block(g, a) {
      k := FindLast(g, trace, a, i);
    } else {
      k := j;
    }
  }

  lemma HitAfter(g: Geometry, trace: Trace, a: Access, k: nat)
    requires Shiftable(g) && LastAt(g, trace, a, k)
    ensures IsHit(g, After(g, trace), a) <==> Recent(g, trace, a, k)
  {
    hide Pow2, SetOf, TagOf, Block, After, Uses, Tags, Take, Recency, BlocksIn;
    var i, t := SetOf(g, a.address), TagOf(g, a.address);
    BlockParts(g, a);
    SetOfIsRemainder(g, a.address);
    var before, later := trace[..k], trace[k + 1..];
    SplitUses(g, trace, a, k, i, t);
    NotUsedLater(g, trace, a, k);
    SetsFollowRecency(g, trace, i);
    DepthIs(Uses(g, before, i), t, Uses(g, later, i));
    TakeMember(Recency(Uses(g, trace, i)), g.E, t);
    BlocksAreTags(g, later, i);
  }

  lemma SplitUses(g: Geometry, trace: Trace, a: Access, k: nat, i: nat, t: nat)
    requires Shiftable(g) && k < |trace| && Block(g, trace[k]) == Block(g, a)
    requires i == SetOf(g, a.address) && t == TagOf(g, a.address)
    ensures Uses(g, trace, i) == Uses(g, trace[..k], i) + [t] + Uses(g, trace[k + 1..], i)
  {
    BlockParts(g, a);
    BlockParts(g, trace[k]);
    hide Pow2, SetOf, TagOf, Block;
    var front := trace[..k] + [trace[k]];
    assert trace == front + trace[k + 1..];
    UsesConcat(g, front, trace[k + 1..], i);
    assert front[..|front| - 1] == trace[..k];
  }

  lemma NotUsedLater(g: Geometry, trace: Trace, a: Access, k: nat)
    requires Shiftable(g) && LastAt(g, trace, a, k)
    ensures TagOf(g, a.address) !in Uses(g, trace[k + 1..], SetOf(g, a.address))
  {
    var later, i, d := trace[k + 1..], SetOf(g, a.address), Pow2(g.s);
    BlocksAreTags(g, later, i);
    BlockParts(g, a);
    hide Pow2, SetOf, TagOf, Block, Uses;
    assert Block(g, a) in BlocksIn(g, later, i) <==> IsBlock(Block(g, a), Uses(g, later, i), d, i);
    assert forall j :: 0 <= j < |later| ==> later[j] == trace[k + 1 + j];
  }

  /** An access hits if and only if its block was used before, and fewer than E blocks of its set have been used
      since. */
  lemma HitExact(g: Geometry, trace: Trace, a: Access)
    requires Shiftable(g)
    ensures IsHit(g, After(g, trace), a) <==> exists k: nat :: Recent(g, trace, a, k)
  {
    hide Block, IsHit, After, Recent, LastAt;
    if j: nat :| j < |trace| && Block(g, trace[j]) == Block(g, a) {
      var k := FindLast(g, trace, a, j);
      HitAfter(g, trace, a, k);
      forall h: nat | Recent(g, trace, a, h)
        ensures Recent(g, trace, a, k)
      {
        StillRecent(g, trace, a, h, k);
      }
    } else {
      NeverUsed(g, trace, a);
    }
  }

  lemma StillRecent(g: Geometry, trace: Trace, a: Access, h: nat, k: nat)
    requires LastAt(g, trace, a, k) && Recent(g, trace, a, h)
    ensures Recent(g, trace, a, k)
  {
    hide Block, Pow2;
    assert h <= k;
    var i := Block(g, a) % Pow2(g.s);
    var early, late := trace[h + 1..], trace[k + 1..];
    assert forall j :: 0 <= j < |late| ==> late[j] == early[k - h + j];
    Subset(BlocksIn(g, late, i), BlocksIn(g, early, i));
  }

  lemma Subset(x: set<nat>, y: set<nat>)
    requires x <= y
    ensures |x| <= |y|
  {
    assert y == x + (y - x);
  }

  lemma NeverUsed(g: Geometry, trace: Trace, a: Access)
    requires Shiftable(g) && forall j: nat :: j < |trace| ==> Block(g, trace[j]) != Block(g, a)
    ensures !IsHit(g, After(g, trace), a) && forall k: nat :: !Recent(g, trace, a, k)
  {
    var i, t, d := SetOf(g, a.address), TagOf(g, a.address), Pow2(g.s);
    BlocksAreTags(g, trace, i);
    BlockParts(g, a);
    SetOfIsRemainder(g, a.address);
    SetsFollowRecency(g, trace, i);
    RecencyOrder(Uses(g, trace, i));
    hide Pow2, SetOf, TagOf, Block, After, Uses, Tags, Recency, IndexOf;
    TakeMember(Recency(Uses(g, trace, i)), g.E, t);
    assert Block(g, a) in BlocksIn(g, trace, i) <==> IsBlock(Block(g, a), Uses(g, trace, i), d, i);
  }

  /** A miss evicts a block if and only if at least E blocks of the set have been used. */
  lemma EvictionExact(g: Geometry, trace: Trace, a: Access)
    requires Shiftable(g)
    ensures Evicts(g, After(g, trace), a) <==>
      !IsHit(g, After(g, trace), a) && |BlocksIn(g, trace, Block(g, a) % Pow2(g.s))| >= g.E
  {
    var i := SetOf(g, a.address);
    SetOfIsRemainder(g, a.address);
    BlockParts(g, a);
    SetsFollowRecency(g, trace, i);
    RecencySize(Uses(g, trace, i));
    BlocksAreTags(g, trace, i);
    hide Pow2, SetOf, TagOf, Block, After, Uses, Recency, IsHit;
  }

  /** The steps that hit, and those that evict a block. */
  ghost function HitSteps(g: Geometry, trace: Trace): set<nat>
    requires Shiftable(g)
  {
    set k: nat | k < |trace| && IsHit(g, After(g, trace[..k]), trace[k])
  }

  ghost function EvictingSteps(g: Geometry, trace: Trace): set<nat>
    requires Shiftable(g)
  {
    set k: nat | k < |trace| && Evicts(g, After(g, trace[..k]), trace[k])
  }

  lemma HitsGrow(g: Geometry, before: Trace, a: Access)
    requires Shiftable(g)
    ensures |HitSteps(g, before + [a])| == |HitSteps(g, before)| + if IsHit(g, After(g, before), a) then 1 else 0
  {
    hide Pow2, IsHit, After;
    var trace, n := before + [a], |before|;
    assert forall k: nat :: k < n ==> trace[..k] == before[..k] && trace[k] == before[k];
    assert trace[..n] == before && trace[n] == a;
    assert HitSteps(g, trace) == HitSteps(g, before) + if IsHit(g, After(g, before), a) then {n} else {};
  }

  lemma EvictionsGrow(g: Geometry, before: Trace, a: Access)
    requires Shiftable(g)
    ensures |EvictingSteps(g, before + [a])| ==
      |EvictingSteps(g, before)| + if Evicts(g, After(g, before), a) then 1 else 0
  {
    hide Pow2, Evicts, After;
    var trace, n := before + [a], |before|;
    assert forall k: nat :: k < n ==> trace[..k] == before[..k] && trace[k] == before[k];
    assert trace[..n] == before && trace[n] == a;
    assert EvictingSteps(g, trace) == EvictingSteps(g, before) + if Evicts(g, After(g, before), a) then {n} else {};
  }

  /** The counters count them. */
  lemma {:induction false} CountersExact(g: Geometry, trace: Trace)
    requires Shiftable(g)
    ensures After(g, trace).hits == |HitSteps(g, trace)|
    ensures After(g, trace).evictions == |EvictingSteps(g, trace)|
  {
    hide Pow2, SetOf, TagOf, Touch, IsHit, Evicts, WrittenBack, HitSteps, EvictingSteps;
    if trace == [] {
      assert HitSteps(g, trace) == {} && EvictingSteps(g, trace) == {} by { NoSteps(g); }
    } else {
      var before, a := trace[..|trace| - 1], trace[|trace| - 1];
      assert trace == before + [a];
      CountersExact(g, before);
      HitsGrow(g, before, a);
      EvictionsGrow(g, before, a);
    }
  }

  lemma NoSteps(g: Geometry)
    requires Shiftable(g)
    ensures HitSteps(g, []) == {} && EvictingSteps(g, []) == {}
  {
  }

  // ----- Dirty blocks

  /** The block of `a` is in the cache, and dirty. */
  ghost predicate IsDirty(g: Geometry, st: State, a: Access)
    requires Shiftable(g) && |st.sets| == Pow2(g.s)
  {
    SetOfIsRemainder(g, a.address);
    Entry(TagOf(g, a.address), true) in st.sets[SetOf(g, a.address)]
  }

  /** Step `k` stores to the block of `a`, which has not been missed since. */
  ghost predicate StoredAt(g: Geometry, trace: Trace, a: Access, k: nat)
    requires Shiftable(g)
  {
    && k < |trace| && Block(g, trace[k]) == Block(g, a) && trace[k].instruction == 'S'
    && forall j :: k < j < |trace| && Block(g, trace[j]) == Block(g, a) ==> IsHit(g, After(g, trace[..j]), trace[j])
  }

  lemma Elsewhere(st: Stack, E: nat, tag: nat, store: bool, t: nat) returns (q: nat, p: nat)
    requires tag != t && t in Tags(Touch(st, E, tag, store))
    ensures q < |Touch(st, E, tag, store)| && p < |st| && Touch(st, E, tag, store)[q] == st[p] && st[p].tag == t
  {
    var now := Touch(st, E, tag, store);
    var h := IndexOf(Tags(st), tag);
    q :| 0 <= q < |Tags(now)| && Tags(now)[q] == t;
    p := if q - 1 < h then q - 1 else q;
  }

  /** A touched block is dirty if it is stored to or was dirty; the others stay as they are. */
  lemma TouchDirty(st: Stack, E: nat, tag: nat, store: bool, t: nat)
    requires NoRepeats(Tags(st)) && NoRepeats(Tags(Touch(st, E, tag, store)))
    requires t in Tags(Touch(st, E, tag, store))
    ensures tag == t ==>
      (Entry(t, true) in Touch(st, E, tag, store) <==> store || (t in Tags(st) && Entry(t, true) in st))
    ensures tag != t ==>
      t in Tags(st) && (Entry(t, true) in Touch(st, E, tag, store) <==> Entry(t, true) in st)
  {
    var now := Touch(st, E, tag, store);
    if tag == t {
      var p := IndexOf(Tags(st), tag);
      assert now != [] && now[0].tag == t;
      OneEntry(now, 0);
      if p < |st| { OneEntry(st, p); }
    } else {
      var q, p := Elsewhere(st, E, tag, store, t);
      hide Touch, NoRepeats;
      assert Tags(st)[p] == t;
      OneEntry(now, q);
      OneEntry(st, p);
    }
  }

  /** What one access does to the block of `a`. */
  lemma DirtyStep(g: Geometry, before: Trace, c: Access, a: Access)
    requires Shiftable(g) && IsHit(g, After(g, before + [c]), a)
    ensures var st, now := After(g, before), After(g, before + [c]);
      if Block(g, c) == Block(g, a)
      then IsDirty(g, now, a) <==> c.instruction == 'S' || (IsHit(g, st, c) && IsHit(g, st, a) && IsDirty(g, st, a))
      else IsHit(g, st, a) && (IsDirty(g, now, a) <==> IsDirty(g, st, a))
  {
    assert (before + [c])[..|before|] == before;
    AlwaysSound(g, before);
    AlwaysSound(g, before + [c]);
    SetOfIsRemainder(g, a.address);
    SetOfIsRemainder(g, c.address);
    SameBlock(g, a.address, c.address);
    hide Pow2, SetOf, TagOf, Tags, NoRepeats, Touch;
    var i, k := SetOf(g, c.address), After(g, before).sets[SetOf(g, c.address)];
    if SetOf(g, a.address) == i {
      TouchDirty(k, g.E, TagOf(g, c.address), c.instruction == 'S', TagOf(g, a.address));
    }
  }

  /** A block in the cache is dirty if and only if it was stored to since it came in. */
  lemma {:induction false} DirtyExact(g: Geometry, trace: Trace, a: Access)
    requires Shiftable(g) && IsHit(g, After(g, trace), a)
    ensures IsDirty(g, After(g, trace), a) <==> exists k: nat :: StoredAt(g, trace, a, k)
  {
    hide Block, IsHit, IsDirty, After, StoredAt;
    if trace == [] {
      NothingIn(g, a);
    } else {
      var before, c := trace[..|trace| - 1], trace[|trace| - 1];
      assert trace == before + [c];
      DirtyStep(g, before, c, a);
      if IsHit(g, After(g, before), a) { DirtyExact(g, before, a); }
      StoredSome(g, before, c, a);
      if Block(g, c) == Block(g, a) {
        SameHit(g, After(g, before), c, a);
      }
    }
  }

  lemma NothingIn(g: Geometry, a: Access)
    requires Shiftable(g)
    ensures !IsHit(g, After(g, []), a)
  {
    SetOfIsRemainder(g, a.address);
    hide Pow2, SetOf, TagOf;
  }

  lemma SameHit(g: Geometry, st: State, c: Access, a: Access)
    requires Shiftable(g) && |st.sets| == Pow2(g.s) && Block(g, c) == Block(g, a)
    ensures IsHit(g, st, c) == IsHit(g, st, a)
  {
    SameBlock(g, a.address, c.address);
  }

  ghost predicate StoredNext(g: Geometry, before: Trace, c: Access, a: Access, k: nat)
    requires Shiftable(g)
  {
    if k == |before| then Block(g, c) == Block(g, a) && c.instruction == 'S'
    else StoredAt(g, before, a, k) && (Block(g, c) == Block(g, a) ==> IsHit(g, After(g, before), c))
  }

  lemma StoredLater(g: Geometry, before: Trace, c: Access, a: Access, k: nat)
    requires Shiftable(g)
    ensures StoredAt(g, before + [c], a, k) <==> StoredNext(g, before, c, a, k)
  {
    hide Block, IsHit, After;
    var trace := before + [c];
    assert forall j :: 0 <= j < |before| ==> trace[j] == before[j] && trace[..j] == before[..j];
    assert trace[|before|] == c && trace[..|before|] == before;
  }

  lemma StoredSome(g: Geometry, before: Trace, c: Access, a: Access)
    requires Shiftable(g)
    ensures (exists k: nat :: StoredAt(g, before + [c], a, k)) <==>
      || (Block(g, c) == Block(g, a) && c.instruction == 'S')
      || ((exists k: nat :: StoredAt(g, before, a, k)) && (Block(g, c) == Block(g, a) ==> IsHit(g, After(g, before), c)))
  {
    forall k: nat
      ensures StoredAt(g, before + [c], a, k) <==> StoredNext(g, before, c, a, k)
      ensures StoredAt(g, before, a, k) ==> k < |before|
    {
      StoredLater(g, before, c, a, k);
    }
    hide Block, IsHit, After, StoredAt;
    assert StoredNext(g, before, c, a, |before|) <==> Block(g, c) == Block(g, a) && c.instruction == 'S';
    if k: nat :| StoredAt(g, before, a, k) { assert StoredAt(g, before + [c], a, k) <==> StoredNext(g, before, c, a, k); }
  }
}
