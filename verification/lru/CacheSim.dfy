/** The main loop of csim1.c: rows of lines, updated in place. */
module CacheSim {
  import opened RecencyStack
  import opened Arithmetic
  import opened CacheGeometry
  import opened RankedRow
  import opened CacheTrace

  /** The first line that is in use with the tag, or the end of the row. */
  method FindLine(row: array<Line>, tag: nat) returns (i: nat)
    ensures i <= row.Length && (i < row.Length ==> row[i].valid && row[i].tag == tag)
    ensures i == row.Length ==> forall j: nat :: j < row.Length && row[j].valid ==> row[j].tag != tag
  {
    i := 0;
    while i < row.Length && !(row[i].tag == tag && row[i].valid)
      invariant i <= row.Length && forall j: nat :: j < i && row[j].valid ==> row[j].tag != tag
    {
      i := i + 1;
    }
  }

  /** A hit: the line gets the highest rank, and the ranks above its old one go down. */
  method Hit(row: array<Line>, i: nat, store: bool)
    requires i < row.Length
    modifies row
    ensures row[..] == HitRow(old(row[..]), i, store)
  {
    var prev := row[i].rank;
    row[i] := row[i].(rank := row.Length);
    ghost var was := old(row[..]);
    var j := 0;
    while j < row.Length
      invariant 0 <= j <= row.Length && row[i] == was[i].(rank := row.Length)
      invariant forall k :: 0 <= k < j && k != i ==>
                  row[k] == if was[k].rank > prev then was[k].(rank := was[k].rank - 1) else was[k]
      invariant forall k :: j <= k < row.Length && k != i ==> row[k] == was[k]
    {
      if i != j && row[j].rank > prev {
        row[j] := row[j].(rank := row[j].rank - 1);
      }
      j := j + 1;
    }
    if store {
      row[i] := row[i].(dirty := true);
    }
  }

  /** A miss with an open line: the block goes into the first one. */
  method Fill(row: array<Line>, tag: nat, store: bool) returns (write: bool, ghost at: nat)
    modifies row
    ensures write ==> at < row.Length && !old(row[at].valid) && row[..] == FillRow(old(row[..]), at, tag, store)
    ensures !write ==> row[..] == old(row[..]) && forall j: nat :: j < row.Length ==> row[j].valid
  {
    write, at := false, 0;
    var i := 0;
    while i < row.Length && !write
      invariant 0 <= i <= row.Length
      invariant write ==> at < row.Length && !old(row[at].valid) && row[..] == FillRow(old(row[..]), at, tag, store)
      invariant !write ==> row[..] == old(row[..]) && forall j: nat :: j < i ==> row[j].valid
    {
      if !row[i].valid {
        write, at := true, i;
        FillAt(row, i, tag, store);
      }
      i := i + 1;
    }
  }

  method FillAt(row: array<Line>, i: nat, tag: nat, store: bool)
    requires i < row.Length && !row[i].valid
    modifies row
    ensures row[..] == FillRow(old(row[..]), i, tag, store)
  {
    ghost var was := old(row[..]);
    row[i] := row[i].(valid := true, tag := tag, rank := row.Length);
    var j := 0;
    while j < row.Length
      invariant 0 <= j <= row.Length && row[i] == Line(true, tag, was[i].dirty, row.Length)
      invariant forall k :: 0 <= k < j && k != i ==>
                  row[k] == if was[k].valid then was[k].(rank := was[k].rank - 1) else was[k]
      invariant forall k :: j <= k < row.Length && k != i ==> row[k] == was[k]
    {
      if i != j && row[j].valid {
        row[j] := row[j].(rank := row[j].rank - 1);
      }
      j := j + 1;
    }
    if store {
      row[i] := row[i].(dirty := true);
    }
  }

  /** A miss in a full row: the first line of rank 1 is replaced, and its block written back if it is dirty. */
  method Evict(row: array<Line>, tag: nat, store: bool, B: nat) returns (written: nat, ghost at: nat)
    modifies row
    ensures at <= row.Length && (forall j: nat :: j < at ==> old(row[j].rank) != 1)
    ensures at < row.Length ==> old(row[at].rank) == 1 && row[..] == EvictRow(old(row[..]), at, tag, store)
    ensures at < row.Length ==> written == if old(row[at].dirty) then B else 0
    ensures at == row.Length ==> row[..] == old(row[..]) && written == 0
  {
    written, at := 0, row.Length;
    var j := 0;
    var eviction := false;
    while j < row.Length && !eviction
      invariant 0 <= j <= row.Length
      invariant eviction ==> at < row.Length && old(row[at].rank) == 1
      invariant eviction ==> forall k: nat :: k < at ==> old(row[k].rank) != 1
      invariant eviction ==> row[..] == EvictRow(old(row[..]), at, tag, store)
      invariant eviction ==> written == if old(row[at].dirty) then B else 0
      invariant !eviction ==> at == row.Length && written == 0 && row[..] == old(row[..])
      invariant !eviction ==> forall k: nat :: k < j ==> row[k].rank != 1
    {
      if row[j].rank == 1 {
        eviction, at := true, j;
        if row[j].dirty {
          written := B;
        }
        EvictAt(row, j, tag, store);
      }
      j := j + 1;
    }
  }

  method EvictAt(row: array<Line>, i: nat, tag: nat, store: bool)
    requires i < row.Length
    modifies row
    ensures row[..] == EvictRow(old(row[..]), i, tag, store)
  {
    ghost var was := old(row[..]);
    row[i] := row[i].(tag := tag, rank := row.Length, dirty := false);
    if store {
      row[i] := row[i].(dirty := true);
    }
    var k := 0;
    while k < row.Length
      invariant 0 <= k <= row.Length && row[i] == Line(was[i].valid, tag, store, row.Length)
      invariant forall j :: 0 <= j < k && j != i ==> row[j] == was[j].(rank := was[j].rank - 1)
      invariant forall j :: k <= j < row.Length && j != i ==> row[j] == was[j]
    {
      if k != i {
        row[k] := row[k].(rank := row[k].rank - 1);
      }
      k := k + 1;
    }
  }

  /** One access to its row. */
  method AccessRow(row: array<Line>, tag: nat, store: bool, B: nat, ghost st: Stack)
    returns (hit: bool, evicted: bool, written: nat)
    requires Refines(row[..], st)
    modifies row
    ensures Refines(row[..], Touch(st, row.Length, tag, store)) && |st| <= row.Length
    ensures hit <==> tag in Tags(st)
    ensures evicted <==> tag !in Tags(st) && |st| == row.Length
    ensures written == if evicted && st != [] && st[|st| - 1].dirty then B else 0
  {
    ghost var was := row[..];
    HitIsIn(was, st, tag);
    RanksPermuted(was, st);
    hide Refines, Touch;
    evicted, written := false, 0;
    var i := FindLine(row, tag);
    hit := i < row.Length;
    if hit {
      assert was[i].valid && was[i].tag == tag;
      HitRefines(was, st, i, store);
      Hit(row, i, store);
    } else {
      assert forall j: nat :: j < |was| && was[j].valid ==> was[j].tag != tag;
      evicted, written := Miss(row, tag, store, B, st);
    }
  }

  method Miss(row: array<Line>, tag: nat, store: bool, B: nat, ghost st: Stack) returns (evicted: bool, written: nat)
    requires Refines(row[..], st) && tag !in Tags(st)
    modifies row
    ensures Refines(row[..], Touch(st, row.Length, tag, store))
    ensures evicted <==> |st| == row.Length
    ensures written == if evicted && st != [] && st[|st| - 1].dirty then B else 0
  {
    ghost var was := row[..];
    evicted, written := false, 0;
    hide Refines, Touch, FillRow;
    var write, at := Fill(row, tag, store);
    if write {
      assert !was[at].valid;
      FillRefines(was, st, at, tag, store);
    } else {
      evicted := true;
      written := Replace(row, tag, store, B, st);
    }
  }

  method Replace(row: array<Line>, tag: nat, store: bool, B: nat, ghost st: Stack) returns (written: nat)
    requires Refines(row[..], st) && tag !in Tags(st) && forall j: nat :: j < row.Length ==> row[j].valid
    modifies row
    ensures Refines(row[..], Touch(st, row.Length, tag, store)) && |st| == row.Length
    ensures written == if st != [] && st[|st| - 1].dirty then B else 0
  {
    ghost var was := row[..];
    LastHasRankOne(was, st);
    hide Refines, EvictRow;
    ghost var at: nat;
    written, at := Evict(row, tag, store, B);
    if |was| > 0 {
      ghost var j: nat :| j < |was| && was[j].rank == 1;
      assert old(row[j].rank) == 1;
      EvictRefines(was, st, at, tag, store);
    } else {
      assert Touch(st, 0, tag, store) == st;
    }
  }

  // ----- The whole simulation

  /** The cache is an array of rows; row `i` holds set `i`. */
  ghost predicate Holds(cache: seq<array<Line>>, E: nat, sets: seq<Stack>)
    reads cache
  {
    && |cache| == |sets|
    && (forall i, j :: 0 <= i < j < |cache| ==> cache[i] != cache[j])
    && (forall i :: 0 <= i < |cache| ==> cache[i].Length == E && Refines(cache[i][..], sets[i]))
  }

  method NewCache(S: nat, E: nat) returns (cache: seq<array<Line>>)
    ensures Holds(cache, E, seq(S, _ => [])) && fresh(cache)
  {
    cache := [];
    EmptyRow(E);
    while |cache| < S
      invariant |cache| <= S && fresh(cache) && Holds(cache, E, seq(|cache|, _ => []))
    {
      var row := new Line[E](_ => Line(false, 0, false, E));
      assert row[..] == seq(E, _ => Line(false, 0, false, E));
      cache := cache + [row];
    }
    assert seq(|cache|, _ => []) == seq<Stack>(S, _ => []);
  }

  lemma EmptyRow(E: nat)
    ensures Refines(seq(E, _ => Line(false, 0, false, E)), [])
  {
    assert Placed(seq(E, _ => Line(false, 0, false, E)), [], []);
  }

  /** One access to the cache, in the row its address names. */
  method AccessCache(g: Geometry, cache: seq<array<Line>>, a: Access, ghost st: State)
    returns (hit: bool, evicted: bool, written: nat)
    requires Shiftable(g) && |st.sets| == Pow2(g.s) && Holds(cache, g.E, st.sets)
    modifies cache
    ensures Holds(cache, g.E, Step(g, st, a).sets)
    ensures (hit <==> IsHit(g, st, a)) && (evicted <==> Evicts(g, st, a))
    ensures st.dirtyEvictions + written == Step(g, st, a).dirtyEvictions
  {
    SetOfIsRemainder(g, a.address);
    hide Pow2, ShiftRight, ShiftLeft, SetOf, TagOf, Refines, Touch;
    var sbits, tbits := SetOf(g, a.address), TagOf(g, a.address);
    hit, evicted, written := AccessRow(cache[sbits], tbits, a.instruction == 'S', Pow2(g.b), st.sets[sbits]);
  }

  /** The counters stand for `st`. */
  ghost predicate Counted(st: State, hits: nat, misses: nat, evictions: nat, dirtyEvictions: nat) {
    hits == st.hits && misses == st.misses && evictions == st.evictions && dirtyEvictions == st.dirtyEvictions
  }

  lemma CountedNext(g: Geometry, st: State, a: Access, hits: nat, misses: nat, evictions: nat, dirtyEvictions: nat,
      hit: bool, evicted: bool, written: nat)
    requires Shiftable(g) && |st.sets| == Pow2(g.s) && Counted(st, hits, misses, evictions, dirtyEvictions)
    requires (hit <==> IsHit(g, st, a)) && (evicted <==> Evicts(g, st, a))
    requires st.dirtyEvictions + written == Step(g, st, a).dirtyEvictions
    ensures Counted(Step(g, st, a), if hit then hits + 1 else hits, if hit then misses else misses + 1,
      if evicted then evictions + 1 else evictions, dirtyEvictions + written)
  {
    hide Pow2, IsHit, Evicts, Touch, SetOf, TagOf, WrittenBack;
  }

  lemma AfterNone(g: Geometry, trace: Trace)
    requires Shiftable(g)
    ensures After(g, trace[..0]).sets == seq(Pow2(g.s), _ => []) && Counted(After(g, trace[..0]), 0, 0, 0, 0)
  {
    hide Pow2;
  }

  lemma AfterNext(g: Geometry, trace: Trace, n: nat)
    requires Shiftable(g) && n < |trace|
    ensures After(g, trace[..n + 1]) == Step(g, After(g, trace[..n]), trace[n])
  {
    assert trace[..n + 1][..n] == trace[..n];
  }

  /** The simulator computes what true least-recently-used sets do. */
  method Simulate(g: Geometry, trace: Trace)
    returns (hits: nat, misses: nat, evictions: nat, dirtyBytes: nat, dirtyEvictions: nat)
    requires Shiftable(g)
    ensures Counted(After(g, trace), hits, misses, evictions, dirtyEvictions)
    ensures dirtyBytes == Pow2(g.b) * DirtyBlocks(After(g, trace).sets)
  {
    hide *;
    var cache := NewCache(Pow2(g.s), g.E);
    hits, misses, evictions, dirtyEvictions := 0, 0, 0, 0;
    var n := 0;
    AfterNone(g, trace);
    while n < |trace|
      invariant 0 <= n <= |trace| && fresh(cache) && Holds(cache, g.E, After(g, trace[..n]).sets)
      invariant Counted(After(g, trace[..n]), hits, misses, evictions, dirtyEvictions)
    {
      ghost var st := After(g, trace[..n]);
      AfterNext(g, trace, n);
      var hit, evicted, written := AccessCache(g, cache, trace[n], st);
      CountedNext(g, st, trace[n], hits, misses, evictions, dirtyEvictions, hit, evicted, written);
      hits := if hit then hits + 1 else hits;
      misses := if hit then misses else misses + 1;
      evictions := if evicted then evictions + 1 else evictions;
      dirtyEvictions := dirtyEvictions + written;
      n := n + 1;
    }
    assert trace[..n] == trace;
    dirtyBytes := CountDirty(cache, g.E, Pow2(g.b), After(g, trace).sets);
  }

  ghost function DirtyLines(row: Row): nat {
    if row == [] then 0 else DirtyLines(row[..|row| - 1]) + if row[|row| - 1].dirty then 1 else 0
  }

  /** The dirty bytes that are left at the end. */
  method CountDirty(cache: seq<array<Line>>, E: nat, B: nat, ghost sets: seq<Stack>) returns (dirtyBytes: nat)
    requires Holds(cache, E, sets)
    ensures dirtyBytes == B * DirtyBlocks(sets)
  {
    dirtyBytes := 0;
    hide Refines, Dirty;
    var i := 0;
    assert DirtySizes(sets)[..0] == [];
    while i < |cache|
      invariant 0 <= i <= |cache| && dirtyBytes == B * Sum(DirtySizes(sets)[..i])
    {
      ghost var n := DirtyLines(cache[i][..]);
      DirtyLinesAreBlocks(cache[i][..], sets[i]);
      assert DirtySizes(sets)[..i + 1] == DirtySizes(sets)[..i] + [n];
      Distribute(B, Sum(DirtySizes(sets)[..i]), n);
      dirtyBytes := AddDirtyLines(cache[i], B, dirtyBytes);
      i := i + 1;
    }
    assert DirtySizes(sets)[..i] == DirtySizes(sets);
  }

  lemma Distribute(B: nat, x: nat, y: nat)
    ensures B * (x + y) == B * x + B * y
  {
  }

  lemma DirtyNext(row: Row, j: nat, B: nat)
    requires j < |row|
    ensures B * DirtyLines(row[..j + 1]) == B * DirtyLines(row[..j]) + if row[j].dirty then B else 0
  {
    assert row[..j + 1][..j] == row[..j];
    Distribute(B, DirtyLines(row[..j]), 1);
  }

  method AddDirtyLines(row: array<Line>, B: nat, sofar: nat) returns (dirtyBytes: nat)
    ensures dirtyBytes == sofar + B * DirtyLines(row[..])
  {
    dirtyBytes := sofar;
    var j := 0;
    while j < row.Length
      invariant 0 <= j <= row.Length && dirtyBytes == sofar + B * DirtyLines(row[..][..j])
    {
      DirtyNext(row[..], j, B);
      if row[j].dirty {
        dirtyBytes := dirtyBytes + B;
      }
      j := j + 1;
    }
    assert row[..][..j] == row[..];
  }

  // ----- Dirty lines and dirty blocks

  ghost function DirtyPlaces(row: Row): set<nat> {
    set j: nat | j < |row| && row[j].dirty
  }

  lemma {:induction false} PlacesCounted(row: Row)
    ensures |DirtyPlaces(row)| == DirtyLines(row)
  {
    if row != [] {
      var front, last := row[..|row| - 1], |row| - 1;
      PlacesCounted(front);
      assert DirtyPlaces(row) == DirtyPlaces(front) + if row[last].dirty then {last} else {};
    }
  }

  ghost function DirtyEntries(st: Stack): set<nat> {
    set i: nat | i < |st| && st[i].dirty
  }

  lemma {:induction false} EntriesCounted(st: Stack)
    ensures |DirtyEntries(st)| == Dirty(st)
  {
    if st != [] {
      var front, last := st[..|st| - 1], |st| - 1;
      EntriesCounted(front);
      assert DirtyEntries(st) == DirtyEntries(front) + if st[last].dirty then {last} else {};
      DirtyConcat(front, [st[last]]);
      assert st == front + [st[last]];
    }
  }

  lemma {:induction false} ImageSize(from: set<nat>, pos: seq<nat>, to: set<nat>)
    requires NoRepeats(pos) && forall i: nat :: i in from ==> i < |pos| && pos[i] in to
    requires forall a: nat :: a in to ==> exists i: nat :: i in from && i < |pos| && pos[i] == a
    ensures |from| == |to|
  {
    if from == {} {
      assert to == {};
    } else {
      var i :| i in from;
      ImageSize(from - {i}, pos, to - {pos[i]});
    }
  }

  lemma DirtyLinesAreBlocks(row: Row, st: Stack)
    requires Refines(row, st)
    ensures DirtyLines(row) == Dirty(st)
  {
    var pos :| Placed(row, st, pos);
    PlacesDiffer(row, st, pos);
    forall a: nat | a in DirtyPlaces(row)
      ensures exists i: nat :: i in DirtyEntries(st) && i < |pos| && pos[i] == a
    {
      assert row[a].valid && pos[|row| - row[a].rank] == a;
    }
    ImageSize(DirtyEntries(st), pos, DirtyPlaces(row));
    PlacesCounted(row);
    EntriesCounted(st);
  }
}
