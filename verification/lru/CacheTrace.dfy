/** What a trace does to a cache with true least-recently-used sets, and the theorems about it (csim1.c). */
module CacheTrace {
  import opened RecencyStack
  import opened Arithmetic
  import opened CacheGeometry

  datatype Access = Access(instruction: char, address: Address, size: int)

  type Trace = seq<Access>

  /** The sets, and the counters that are printed at the end. */
  datatype State = State(sets: seq<Stack>, hits: nat, misses: nat, evictions: nat, dirtyEvictions: nat)

  ghost function Init(g: Geometry): State {
    State(seq(Pow2(g.s), _ => []), 0, 0, 0, 0)
  }

  ghost predicate IsHit(g: Geometry, st: State, a: Access)
    requires Shiftable(g) && |st.sets| == Pow2(g.s)
  {
    SetOfIsRemainder(g, a.address);
    TagOf(g, a.address) in Tags(st.sets[SetOf(g, a.address)])
  }

  /** A miss in a full set. */
  ghost predicate Evicts(g: Geometry, st: State, a: Access)
    requires Shiftable(g) && |st.sets| == Pow2(g.s)
  {
    SetOfIsRemainder(g, a.address);
    !IsHit(g, st, a) && |st.sets[SetOf(g, a.address)]| == g.E
  }

  ghost function WrittenBack(g: Geometry, k: Stack): nat {
    if k != [] && k[|k| - 1].dirty then Pow2(g.b) else 0
  }

  ghost function Step(g: Geometry, st: State, a: Access): (r: State)
    requires Shiftable(g) && |st.sets| == Pow2(g.s)
    ensures |r.sets| == |st.sets|
  {
    SetOfIsRemainder(g, a.address);
    var i, k := SetOf(g, a.address), st.sets[SetOf(g, a.address)];
    State(st.sets[i := Touch(k, g.E, TagOf(g, a.address), a.instruction == 'S')],
          st.hits + if IsHit(g, st, a) then 1 else 0,
          st.misses + if IsHit(g, st, a) then 0 else 1,
          st.evictions + if Evicts(g, st, a) then 1 else 0,
          st.dirtyEvictions + if Evicts(g, st, a) then WrittenBack(g, k) else 0)
  }

  ghost function After(g: Geometry, trace: Trace): (st: State)
    requires Shiftable(g)
    ensures |st.sets| == Pow2(g.s)
  {
    if trace == [] then Init(g) else Step(g, After(g, trace[..|trace| - 1]), trace[|trace| - 1])
  }

  // ----- A set holds its most recently used blocks

  /** The tags the trace uses in set `i`, in order. */
  ghost function Uses(g: Geometry, trace: Trace, i: nat): seq<nat>
    requires Shiftable(g)
  {
    if trace == [] then []
    else
      var a := trace[|trace| - 1];
      Uses(g, trace[..|trace| - 1], i) + if SetOf(g, a.address) == i then [TagOf(g, a.address)] else []
  }

  lemma NoBlocks(E: nat)
    ensures Tags([]) == Take(Recency([]), E)
  {
  }

  /** The blocks in set `i` are the E most recently used ones, in that order. */
  lemma {:induction false} SetsFollowRecency(g: Geometry, trace: Trace, i: nat)
    requires Shiftable(g) && i < Pow2(g.s)
    ensures Tags(After(g, trace).sets[i]) == Take(Recency(Uses(g, trace, i)), g.E)
  {
    hide Pow2, ShiftRight, ShiftLeft, SetOf, TagOf, Touch, Tags, Take, Recency;
    if trace == [] {
      NoBlocks(g.E);
    } else {
      var before, a := trace[..|trace| - 1], trace[|trace| - 1];
      SetsFollowRecency(g, before, i);
      SetOfIsRemainder(g, a.address);
      if SetOf(g, a.address) == i {
        TouchTags(After(g, before).sets[i], g.E, Uses(g, before, i), TagOf(g, a.address), a.instruction == 'S');
      } else {
        assert Uses(g, trace, i) == Uses(g, before, i);
      }
    }
  }

  /** The block that goes is the one whose last use is longest ago, of all in the set. */
  lemma VictimIsLeastRecent(g: Geometry, trace: Trace, i: nat)
    requires Shiftable(g) && i < Pow2(g.s) && After(g, trace).sets[i] != []
    ensures var k, u := After(g, trace).sets[i], Uses(g, trace, i);
      forall e :: e in k && e != k[|k| - 1] ==> 0 <= LastUse(u, k[|k| - 1].tag) < LastUse(u, e.tag)
  {
    var k, u := After(g, trace).sets[i], Uses(g, trace, i);
    SetsFollowRecency(g, trace, i);
    hide After, Uses;
    LastOfStack(k, u, g.E);
  }

  lemma LastOfStack(k: Stack, u: seq<nat>, E: nat)
    requires k != [] && Tags(k) == Take(Recency(u), E)
    ensures forall e :: e in k && e != k[|k| - 1] ==> 0 <= LastUse(u, k[|k| - 1].tag) < LastUse(u, e.tag)
  {
    RecencyOrder(u);
    hide Recency, LastUse;
    var r, n := Recency(u), |k| - 1;
    assert forall j :: 0 <= j < |k| ==> k[j].tag == Tags(k)[j] == r[j];
    assert r[n] in r;
    forall e | e in k && e != k[n]
      ensures 0 <= LastUse(u, k[n].tag) < LastUse(u, e.tag)
    {
      var j :| 0 <= j < |k| && k[j] == e;
      assert LastUse(u, r[j]) > LastUse(u, r[n]);
    }
  }

  // ----- Inclusion

  /** With more lines in each set, an access that hits still hits. */
  lemma Inclusion(g: Geometry, more: nat, trace: Trace, a: Access)
    requires Shiftable(g) && g.E <= more && IsHit(g, After(g, trace), a)
    ensures IsHit(g.(E := more), After(g.(E := more), trace), a)
  {
    var h, i, tag := g.(E := more), SetOf(g, a.address), TagOf(g, a.address);
    SetOfIsRemainder(g, a.address);
    assert SetOf(h, a.address) == i && TagOf(h, a.address) == tag;
    hide Pow2, ShiftRight, ShiftLeft, SetOf, TagOf, After, Uses, Tags, Take, Recency;
    SetsFollowRecency(g, trace, i);
    SetsFollowRecency(h, trace, i);
    SameUses(g, more, trace, i);
    TakeMember(Recency(Uses(g, trace, i)), g.E, tag);
    TakeMember(Recency(Uses(g, trace, i)), more, tag);
  }

  lemma {:induction false} SameUses(g: Geometry, more: nat, trace: Trace, i: nat)
    requires Shiftable(g)
    ensures Uses(g.(E := more), trace, i) == Uses(g, trace, i)
  {
    if trace != [] { SameUses(g, more, trace[..|trace| - 1], i); }
  }

  /** ... so the number of misses never rises. */
  lemma {:induction false} MissesNeverRise(g: Geometry, more: nat, trace: Trace)
    requires Shiftable(g) && g.E <= more
    ensures After(g.(E := more), trace).misses <= After(g, trace).misses
    ensures After(g.(E := more), trace).hits >= After(g, trace).hits
  {
    if trace != [] {
      var before, a := trace[..|trace| - 1], trace[|trace| - 1];
      MissesNeverRise(g, more, before);
      if IsHit(g, After(g, before), a) { Inclusion(g, more, before, a); }
    }
  }

  // ----- Accounting

  ghost function Sum(s: seq<nat>): nat {
    if s == [] then 0 else Sum(s[..|s| - 1]) + s[|s| - 1]
  }

  lemma {:induction false} SumUpdate(s: seq<nat>, i: nat, v: nat)
    requires i < |s|
    ensures Sum(s[i := v]) + s[i] == Sum(s) + v
  {
    var n := |s| - 1;
    if i == n {
      assert s[i := v][..n] == s[..n];
    } else {
      assert s[i := v][..n] == s[..n][i := v];
      SumUpdate(s[..n], i, v);
    }
  }

  ghost function Dirty(st: Stack): nat {
    if st == [] then 0 else Dirty(st[1..]) + if st[0].dirty then 1 else 0
  }

  ghost function Sizes(sets: seq<Stack>): (r: seq<nat>)
    ensures |r| == |sets| && forall i :: 0 <= i < |sets| ==> r[i] == |sets[i]|
  {
    seq(|sets|, i requires 0 <= i < |sets| => |sets[i]|)
  }

  ghost function DirtySizes(sets: seq<Stack>): (r: seq<nat>)
    ensures |r| == |sets| && forall i :: 0 <= i < |sets| ==> r[i] == Dirty(sets[i])
  {
    seq(|sets|, i requires 0 <= i < |sets| => Dirty(sets[i]))
  }

  /** The blocks in the cache, and those of them that are dirty. */
  ghost function Resident(sets: seq<Stack>): nat {
    Sum(Sizes(sets))
  }

  ghost function DirtyBlocks(sets: seq<Stack>): nat {
    Sum(DirtySizes(sets))
  }

  /** The access makes its block dirty that was not: a store to a block that is clean or comes in. */
  ghost predicate Soils(g: Geometry, st: State, a: Access)
    requires Shiftable(g) && |st.sets| == Pow2(g.s)
  {
    SetOfIsRemainder(g, a.address);
    g.E > 0 && a.instruction == 'S' && Entry(TagOf(g, a.address), true) !in st.sets[SetOf(g, a.address)]
  }

  ghost function TimesSoiled(g: Geometry, trace: Trace): nat
    requires Shiftable(g)
  {
    if trace == [] then 0
    else
      TimesSoiled(g, trace[..|trace| - 1])
      + if Soils(g, After(g, trace[..|trace| - 1]), trace[|trace| - 1]) then 1 else 0
  }

  lemma {:induction false} DirtyConcat(s: Stack, u: Stack)
    ensures Dirty(s + u) == Dirty(s) + Dirty(u)
  {
    if s == [] {
      assert s + u == u;
    } else {
      DirtyConcat(s[1..], u);
      assert (s + u)[1..] == s[1..] + u;
    }
  }

  lemma {:induction false} DirtyWithout(s: Stack, p: nat)
    requires p < |s|
    ensures Dirty(s) == Dirty(Without(s, p)) + if s[p].dirty then 1 else 0
  {
    if p == 0 {
      assert Without(s, p) == s[1..];
    } else {
      DirtyWithout(s[1..], p - 1);
      WithoutTail(s, p);
    }
  }

  lemma WithoutTail(s: Stack, p: nat)
    requires 0 < p < |s|
    ensures Without(s, p) != [] && Without(s, p)[0] == s[0] && Without(s, p)[1..] == Without(s[1..], p - 1)
  {
  }

  /** How a set changes in size, and in dirty blocks. */
  lemma TouchCounts(k: Stack, E: nat, tag: nat, store: bool)
    requires NoRepeats(Tags(k)) && |k| <= E
    ensures var now := Touch(k, E, tag, store);
      && |now| <= E
      && |now| == |k| + (if tag in Tags(k) || |k| == E then 0 else 1)
      && Dirty(now) + (if tag !in Tags(k) && |k| == E && k != [] && k[|k| - 1].dirty then 1 else 0)
         == Dirty(k) + (if E > 0 && store && Entry(tag, true) !in k then 1 else 0)
  {
    var p := IndexOf(Tags(k), tag);
    if p < |k| {
      hide Dirty;
      HitCounts(k, p, store);
    } else {
      MissCounts(k, E, tag, store);
    }
  }

  lemma HitCounts(k: Stack, p: nat, store: bool)
    requires NoRepeats(Tags(k)) && p < |k|
    ensures Dirty([Entry(k[p].tag, k[p].dirty || store)] + Without(k, p))
         == Dirty(k) + if store && Entry(k[p].tag, true) !in k then 1 else 0
  {
    DirtyWithout(k, p);
    OneEntry(k, p);
    DirtyCons(Entry(k[p].tag, k[p].dirty || store), Without(k, p));
    hide Dirty, Without, Tags, NoRepeats;
  }

  lemma DirtyCons(e: Entry, u: Stack)
    ensures Dirty([e] + u) == Dirty(u) + if e.dirty then 1 else 0
  {
    assert ([e] + u)[1..] == u;
  }

  lemma OneEntry(k: Stack, p: nat)
    requires NoRepeats(Tags(k)) && p < |k|
    ensures Entry(k[p].tag, true) in k <==> k[p].dirty
  {
    if Entry(k[p].tag, true) in k {
      var j :| 0 <= j < |k| && k[j] == Entry(k[p].tag, true);
      assert Tags(k)[j] == Tags(k)[p];
    }
    assert k[p] in k;
  }

  lemma MissCounts(k: Stack, E: nat, tag: nat, store: bool)
    requires |k| <= E && tag !in Tags(k)
    ensures var now := Take([Entry(tag, store)] + k, E);
      && |now| == |k| + (if |k| == E then 0 else 1)
      && Dirty(now) + (if |k| == E && k != [] && k[|k| - 1].dirty then 1 else 0) ==
        Dirty(k) + (if E > 0 && store then 1 else 0)
    ensures Entry(tag, true) !in k
  {
    forall j | 0 <= j < |k|
      ensures k[j].tag != tag
    {
      assert Tags(k)[j] in Tags(k);
    }
    DirtyConcat([Entry(tag, store)], k);
    if |k| == E && E > 0 {
      var all := [Entry(tag, store)] + k;
      assert all == all[..E] + [k[E - 1]];
      DirtyConcat(all[..E], [k[E - 1]]);
    }
  }

  /** What holds of every state a trace leads to. */
  ghost predicate Sound(g: Geometry, st: State) {
    forall i :: 0 <= i < |st.sets| ==> NoRepeats(Tags(st.sets[i])) && |st.sets[i]| <= g.E
  }

  lemma StepCounts(g: Geometry, st: State, a: Access)
    requires Shiftable(g) && |st.sets| == Pow2(g.s) && Sound(g, st)
    ensures var now := Step(g, st, a);
      && Resident(now.sets) + (if Evicts(g, st, a) then 1 else 0) ==
        Resident(st.sets) + (if IsHit(g, st, a) then 0 else 1)
      && Pow2(g.b) * DirtyBlocks(now.sets) + now.dirtyEvictions
         == Pow2(g.b) * DirtyBlocks(st.sets) + st.dirtyEvictions + (if Soils(g, st, a) then Pow2(g.b) else 0)
  {
    SetOfIsRemainder(g, a.address);
    var i, k := SetOf(g, a.address), st.sets[SetOf(g, a.address)];
    var now := Touch(k, g.E, TagOf(g, a.address), a.instruction == 'S');
    TouchCounts(k, g.E, TagOf(g, a.address), a.instruction == 'S');
    hide Pow2, SetOf, TagOf, Touch, Tags, NoRepeats, Dirty, Resident, DirtyBlocks;
    SetsChange(st.sets, i, now);
    var v, s := if Evicts(g, st, a) && k != [] && k[|k| - 1].dirty then 1 else 0, if Soils(g, st, a) then 1 else 0;
    Balance(Pow2(g.b), DirtyBlocks(st.sets), DirtyBlocks(st.sets[i := now]), v, s);
  }

  lemma SizesChange(sets: seq<Stack>, i: nat, now: Stack)
    requires i < |sets|
    ensures Sizes(sets[i := now]) == Sizes(sets)[i := |now|]
    ensures DirtySizes(sets[i := now]) == DirtySizes(sets)[i := Dirty(now)]
  {
    hide Dirty;
  }

  lemma SetsChange(sets: seq<Stack>, i: nat, now: Stack)
    requires i < |sets|
    ensures Resident(sets[i := now]) + |sets[i]| == Resident(sets) + |now|
    ensures DirtyBlocks(sets[i := now]) + Dirty(sets[i]) == DirtyBlocks(sets) + Dirty(now)
  {
    SizesChange(sets, i, now);
    hide Sum, Dirty, Sizes, DirtySizes;
    SumUpdate(Sizes(sets), i, |now|);
    SumUpdate(DirtySizes(sets), i, Dirty(now));
  }

  /** Counts of blocks scale to counts of bytes. */
  lemma Balance(B: nat, before: nat, after: nat, v: nat, s: nat)
    requires after + v == before + s && v <= 1 && s <= 1
    ensures B * after + (if v == 1 then B else 0) == B * before + (if s == 1 then B else 0)
  {
    Scale(B, before, after);
  }

  lemma Scale(B: nat, x: nat, y: nat)
    ensures B * (x + 1) == B * x + B && B * (y + 1) == B * y + B
  {
  }

  lemma {:induction false} AlwaysSound(g: Geometry, trace: Trace)
    requires Shiftable(g)
    ensures Sound(g, After(g, trace))
  {
    forall i: nat | i < Pow2(g.s)
      ensures NoRepeats(Tags(After(g, trace).sets[i])) && |After(g, trace).sets[i]| <= g.E
    {
      SetsFollowRecency(g, trace, i);
      RecencyOrder(Uses(g, trace, i));
    }
  }

  lemma {:induction false} SumOfZeros(s: seq<nat>)
    requires forall i :: 0 <= i < |s| ==> s[i] == 0
    ensures Sum(s) == 0
  {
    if s != [] { SumOfZeros(s[..|s| - 1]); }
  }

  lemma EmptyCache(n: nat)
    ensures Resident(seq(n, _ => [])) == 0 && DirtyBlocks(seq(n, _ => [])) == 0
  {
    var none: seq<Stack> := seq(n, _ => []);
    SumOfZeros(Sizes(none));
    SumOfZeros(DirtySizes(none));
  }

  /** Every access is a hit or a miss; every miss fills a line or evicts a block; every block that becomes
      dirty is still in the cache or was written back. */
  lemma {:induction false} Accounting(g: Geometry, trace: Trace)
    requires Shiftable(g)
    ensures var st := After(g, trace);
      && st.hits + st.misses == |trace|
      && st.misses == st.evictions + Resident(st.sets)
      && Pow2(g.b) * DirtyBlocks(st.sets) + st.dirtyEvictions == Pow2(g.b) * TimesSoiled(g, trace)
  {
    hide Pow2, ShiftRight, ShiftLeft, SetOf, TagOf, IsHit, Soils, Evicts, Resident, DirtyBlocks, Sizes, DirtySizes;
    if trace == [] {
      EmptyCache(Pow2(g.s));
    } else {
      var before, a := trace[..|trace| - 1], trace[|trace| - 1];
      Accounting(g, before);
      AlwaysSound(g, before);
      StepCounts(g, After(g, before), a);
      Scale(Pow2(g.b), TimesSoiled(g, before), 0);
    }
  }
}
