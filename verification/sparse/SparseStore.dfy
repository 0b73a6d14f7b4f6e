/** Pages in a chained hash table (memlib.c, sparse mode) as a value, and the flat memory they stand for. */
module SparseStore {
  import opened LittleEndian

  const PAGE_SIZE: nat := 1024

  /** A pointer to a page; the pages are one array, so a page is named by its place. */
  datatype Ptr = NULL | At(page: nat)

  /** mem_block_t: `initSet` has one bit for each byte. */
  datatype Page = Page(id: nat, next: Ptr, initSet: seq<bv8>, bytes: seq<Byte>)

  /** The pages, of which the first `used` are taken, and the hash table. */
  datatype Store = Store(pages: seq<Page>, table: seq<Ptr>, used: nat)

  /** The byte `o` of page `id`, counted from the start of the heap. */
  function Offset(id: nat, o: nat): nat {
    id * PAGE_SIZE + o
  }

  // ----- Bits

  /** `0x1 << k`. */
  function Mask(k: nat): bv8
    requires k < 8
  {
    if k == 0 then 1 else if k == 1 then 2 else if k == 2 then 4 else if k == 3 then 8
    else if k == 4 then 16 else if k == 5 then 32 else if k == 6 then 64 else 128
  }

  lemma MaskIs(k: nat)
    requires k < 8
    ensures Mask(k) == 1 << k
  {
  }

  predicate HasBit(b: bv8, k: nat)
    requires k < 8
  {
    b & Mask(k) != 0
  }

  function WithBit(b: bv8, k: nat): bv8
    requires k < 8
  {
    b | Mask(k)
  }

  lemma SetBit(b: bv8, j: nat, k: nat)
    requires j < 8 && k < 8
    ensures HasBit(WithBit(b, j), k) <==> HasBit(b, k) || j == k
    ensures !HasBit(0, k)
  {
  }

  ghost predicate Shaped(pg: Page) {
    |pg.initSet| == PAGE_SIZE / 8 && |pg.bytes| == PAGE_SIZE
  }

  ghost predicate IsInit(pg: Page, o: nat)
    requires Shaped(pg) && o < PAGE_SIZE
  {
    HasBit(pg.initSet[o / 8], o % 8)
  }

  // ----- Chains

  ghost function First(chain: seq<nat>, k: nat): Ptr {
    if k < |chain| then At(chain[k]) else NULL
  }

  /** The bucket of a page id. */
  function Bucket(id: nat, buckets: nat): (b: nat)
    requires buckets > 0
    ensures b < buckets
  {
    id % buckets
  }

  ghost predicate LinkOk(st: Store, b: nat, chain: seq<nat>, k: nat)
    requires b < |st.table| && k < |chain|
  {
    && chain[k] < st.used <= |st.pages|
    && Bucket(st.pages[chain[k]].id, |st.table|) == b
    && st.pages[chain[k]].next == First(chain, k + 1)
  }

  /** The list of bucket `b` runs through the pages of `chain`, which all belong there. */
  ghost predicate Chained(st: Store, b: nat, chain: seq<nat>)
    requires b < |st.table|
  {
    st.table[b] == First(chain, 0) && forall k: nat :: k < |chain| ==> LinkOk(st, b, chain, k)
  }

  ghost predicate Lists(st: Store, chains: seq<seq<nat>>)
    requires |st.table| == |chains|
  {
    forall b: nat :: b < |chains| ==> Chained(st, b, chains[b])
  }

  /** Every page in use is in the list of its own bucket. */
  ghost predicate Placed(st: Store, chains: seq<seq<nat>>)
    requires |st.table| == |chains| > 0 && st.used <= |st.pages|
  {
    forall p: nat :: p < st.used ==> p in chains[Bucket(st.pages[p].id, |st.table|)]
  }

  /** No two pages in use have the same id. */
  ghost predicate DistinctIds(st: Store)
    requires st.used <= |st.pages|
  {
    forall p: nat, q: nat :: p < q < st.used ==> st.pages[p].id != st.pages[q].id
  }

  ghost predicate PagesShaped(st: Store) {
    st.used <= |st.pages| && forall p :: 0 <= p < |st.pages| ==> Shaped(st.pages[p])
  }

  ghost predicate Sound(st: Store, chains: seq<seq<nat>>) {
    |st.table| == |chains| > 0 && PagesShaped(st) && Lists(st, chains) && Placed(st, chains) && DistinctIds(st)
  }

  // ----- The flat memory

  /** The first of `n` pages with the id, or `n`. */
  ghost function Find(pages: seq<Page>, n: nat, id: nat): (p: nat)
    requires n <= |pages|
    ensures p <= n && (p < n ==> pages[p].id == id)
    ensures forall q :: 0 <= q < p ==> pages[q].id != id
  {
    if n == 0 then 0
    else
      var q := Find(pages, n - 1, id);
      if q < n - 1 then q else if pages[n - 1].id == id then n - 1 else n
  }

  ghost predicate Missing(st: Store, id: nat)
    requires PagesShaped(st)
  {
    Find(st.pages, st.used, id) == st.used
  }

  /** The byte `off` bytes into the heap has been written. */
  ghost predicate IsWritten(st: Store, off: nat)
    requires PagesShaped(st)
  {
    !Missing(st, off / PAGE_SIZE)
    && IsInit(st.pages[Find(st.pages, st.used, off / PAGE_SIZE)], off % PAGE_SIZE)
  }

  type Memory = imap<nat, Byte>

  /** The bytes that have been written, by their distance from the start of the heap. */
  ghost function Flat(st: Store): Memory
    requires PagesShaped(st)
  {
    imap off: nat | IsWritten(st, off) :: st.pages[Find(st.pages, st.used, off / PAGE_SIZE)].bytes[off % PAGE_SIZE]
  }

  /** Bytes written over a stretch of memory. */
  ghost function Stored(m: Memory, off: nat, s: seq<Byte>): Memory {
    imap o: nat | o in m || off <= o < off + |s| :: if off <= o < off + |s| then s[o - off] else m[o]
  }

  ghost predicate AllWritten(m: Memory, off: nat, n: nat) {
    forall o: nat :: off <= o < off + n ==> o in m
  }

  ghost function Bytes(m: Memory, off: nat, n: nat): (s: seq<Byte>)
    requires AllWritten(m, off, n)
    ensures |s| == n && forall i: nat :: i < n ==> s[i] == m[off + i]
  {
    seq(n, i requires 0 <= i < n => m[off + i])
  }

  // ----- A page is taken

  ghost function Fresh(st: Store, id: nat): Page
    requires st.used < |st.pages| && |st.table| > 0
  {
    Page(id, st.table[Bucket(id, |st.table|)], seq(PAGE_SIZE / 8, _ => 0), st.pages[st.used].bytes)
  }

  ghost function Taken(st: Store, id: nat): Store
    requires st.used < |st.pages| && |st.table| > 0
  {
    Store(st.pages[st.used := Fresh(st, id)], st.table[Bucket(id, |st.table|) := At(st.used)], st.used + 1)
  }

  ghost function Pushed(chains: seq<seq<nat>>, b: nat, p: nat): seq<seq<nat>>
    requires b < |chains|
  {
    chains[b := [p] + chains[b]]
  }

  lemma FirstPushed(p: nat, chain: seq<nat>, k: nat)
    ensures First([p] + chain, k + 1) == First(chain, k)
  {
  }

  lemma TakenChained(st: Store, chains: seq<seq<nat>>, id: nat, b: nat)
    requires Sound(st, chains) && st.used < |st.pages| && b < |chains|
    ensures Chained(Taken(st, id), b, Pushed(chains, Bucket(id, |st.table|), st.used)[b])
  {
    var u, before := Taken(st, id), chains[b];
    assert Chained(st, b, before);
    hide Bucket, Sound;
    if b == Bucket(id, |st.table|) {
      var chain := [st.used] + before;
      FirstPushed(st.used, before, 0);
      forall k: nat | k < |chain|
        ensures LinkOk(u, b, chain, k)
      {
        if k > 0 {
          assert LinkOk(st, b, before, k - 1) && chain[k] == before[k - 1];
          FirstPushed(st.used, before, k);
        }
      }
    } else {
      forall k: nat | k < |before|
        ensures LinkOk(u, b, before, k)
      {
        assert LinkOk(st, b, before, k);
      }
    }
  }

  lemma TakenPlaced(st: Store, chains: seq<seq<nat>>, id: nat)
    requires |st.table| == |chains| > 0 && st.used < |st.pages| && Placed(st, chains)
    ensures Placed(Taken(st, id), Pushed(chains, Bucket(id, |st.table|), st.used))
  {
    var u, home := Taken(st, id), Bucket(id, |st.table|);
    var more := Pushed(chains, home, st.used);
    hide Bucket;
    assert more[home][0] == st.used;
    forall p: nat | p < st.used
      ensures p in more[Bucket(u.pages[p].id, |u.table|)]
    {
      var c := Bucket(st.pages[p].id, |st.table|);
      var k :| 0 <= k < |chains[c]| && chains[c][k] == p;
      if c == home { assert more[c][k + 1] == p; }
    }
  }

  lemma TakenSound(st: Store, chains: seq<seq<nat>>, id: nat)
    requires Sound(st, chains) && st.used < |st.pages| && Missing(st, id)
    ensures Sound(Taken(st, id), Pushed(chains, Bucket(id, |st.table|), st.used))
  {
    var u, more := Taken(st, id), Pushed(chains, Bucket(id, |st.table|), st.used);
    forall b: nat | b < |more|
      ensures Chained(u, b, more[b])
    {
      TakenChained(st, chains, id, b);
    }
    TakenPlaced(st, chains, id);
    hide Bucket, Lists, Placed, Chained;
    assert Lists(u, more);
  }

  lemma {:induction false} FindSame(pages: seq<Page>, more: seq<Page>, n: nat, id: nat)
    requires n <= |pages| && n <= |more| && forall p :: 0 <= p < n ==> more[p].id == pages[p].id
    ensures Find(more, n, id) == Find(pages, n, id)
  {
    if n > 0 { FindSame(pages, more, n - 1, id); }
  }

  lemma TakenFind(st: Store, id: nat, i: nat)
    requires PagesShaped(st) && st.used < |st.pages| && Missing(st, id) && |st.table| > 0
    ensures PagesShaped(Taken(st, id))
    ensures Find(Taken(st, id).pages, st.used + 1, i) == if i == id then st.used
            else if Missing(st, i) then st.used + 1 else Find(st.pages, st.used, i)
  {
    FindSame(st.pages, Taken(st, id).pages, st.used, i);
  }

  lemma TakenByte(st: Store, id: nat, off: nat)
    requires PagesShaped(st) && st.used < |st.pages| && Missing(st, id) && |st.table| > 0
    ensures PagesShaped(Taken(st, id)) && (IsWritten(Taken(st, id), off) <==> IsWritten(st, off))
    ensures IsWritten(st, off) ==> Flat(Taken(st, id))[off] == Flat(st)[off]
  {
    TakenFind(st, id, off / PAGE_SIZE);
    hide Find;
    SetBit(0, 0, off % PAGE_SIZE % 8);
  }

  /** A page that is taken holds no written byte. */
  lemma TakenFlat(st: Store, id: nat)
    requires PagesShaped(st) && st.used < |st.pages| && Missing(st, id) && |st.table| > 0
    ensures PagesShaped(Taken(st, id)) && Flat(Taken(st, id)) == Flat(st)
    ensures forall i :: Missing(Taken(st, id), i) <==> Missing(st, i) && i != id
    ensures Find(Taken(st, id).pages, st.used + 1, id) == st.used
  {
    var u := Taken(st, id);
    TakenFind(st, id, id);
    forall i: nat
      ensures Missing(u, i) <==> Missing(st, i) && i != id
    {
      TakenFind(st, id, i);
    }
    forall off: nat
      ensures IsWritten(u, off) <==> IsWritten(st, off)
      ensures IsWritten(st, off) ==> Flat(u)[off] == Flat(st)[off]
    {
      TakenByte(st, id, off);
    }
    hide IsWritten, Taken, Find, Missing, PagesShaped;
  }

  // ----- A page is written

  /** `pg` with the bits of `n` bytes from `o` on set, as far as the page goes. */
  ghost predicate Marked(pg: Page, out: Page, o: nat, n: nat) {
    && Shaped(pg) && Shaped(out) && out.id == pg.id && out.next == pg.next && out.bytes == pg.bytes
    && forall k: nat :: k < PAGE_SIZE ==> (IsInit(out, k) <==> IsInit(pg, k) || o <= k < o + n)
  }

  function Copied(bytes: seq<Byte>, o: nat, s: seq<Byte>): seq<Byte>
    requires o + |s| <= |bytes|
  {
    bytes[..o] + s + bytes[o + |s|..]
  }

  lemma WrittenSound(st: Store, chains: seq<seq<nat>>, p: nat, out: Page)
    requires Sound(st, chains) && p < |st.pages| && Shaped(out)
    requires out.id == st.pages[p].id && out.next == st.pages[p].next
    ensures Sound(st.(pages := st.pages[p := out]), chains)
  {
    var u := st.(pages := st.pages[p := out]);
    forall b: nat | b < |chains|
      ensures Chained(u, b, chains[b])
    {
      assert Chained(st, b, chains[b]);
      forall k: nat | k < |chains[b]|
        ensures LinkOk(u, b, chains[b], k)
      {
        assert LinkOk(st, b, chains[b], k);
      }
    }
    hide Chained, Bucket;
    assert Lists(u, chains);
  }

  /** The store once bytes have been copied into a page and marked. */
  ghost function Filled(st: Store, p: nat, marked: Page, o: nat, s: seq<Byte>): Store
    requires p < |st.pages| && o + |s| <= |marked.bytes|
  {
    st.(pages := st.pages[p := marked.(bytes := Copied(marked.bytes, o, s))])
  }

  ghost predicate Fills(st: Store, p: nat, marked: Page, o: nat, s: seq<Byte>, n: nat) {
    && PagesShaped(st) && p < st.used && p == Find(st.pages, st.used, st.pages[p].id)
    && Marked(st.pages[p], marked, o, n) && |s| <= n && o + |s| <= PAGE_SIZE && (|s| == n || o + |s| == PAGE_SIZE)
  }

  lemma FilledShape(st: Store, p: nat, marked: Page, o: nat, s: seq<Byte>, n: nat)
    requires Fills(st, p, marked, o, s, n)
    ensures PagesShaped(Filled(st, p, marked, o, s))
    ensures forall i :: Missing(Filled(st, p, marked, o, s), i) <==> Missing(st, i)
  {
    var u := Filled(st, p, marked, o, s);
    assert PagesShaped(u);
    forall i: nat
      ensures Missing(u, i) <==> Missing(st, i)
    {
      FindSame(st.pages, u.pages, st.used, i);
    }
  }

  /** Marking bytes and copying them in is a store to the flat memory. */
  lemma FilledFlat(st: Store, p: nat, marked: Page, o: nat, s: seq<Byte>, n: nat)
    requires Fills(st, p, marked, o, s, n)
    ensures PagesShaped(Filled(st, p, marked, o, s))
    ensures Flat(Filled(st, p, marked, o, s)) == Stored(Flat(st), Offset(st.pages[p].id, o), s)
  {
    FilledShape(st, p, marked, o, s, n);
    var now, was, base := Flat(Filled(st, p, marked, o, s)), Flat(st), Offset(st.pages[p].id, o);
    forall off: nat
      ensures ByteStored(now, was, base, s, off)
    {
      FilledByte(st, p, marked, o, s, n, off);
    }
    SameMemory(now, was, base, s);
    hide ByteStored, Offset, Stored, Flat, Marked, PagesShaped;
  }

  ghost predicate ByteStored(now: Memory, was: Memory, base: nat, s: seq<Byte>, off: nat) {
    && (off in now <==> off in was || base <= off < base + |s|)
    && (base <= off < base + |s| ==> now[off] == s[off - base])
    && (off in was && !(base <= off < base + |s|) ==> now[off] == was[off])
  }

  lemma SameMemory(now: Memory, was: Memory, base: nat, s: seq<Byte>)
    requires forall off: nat :: ByteStored(now, was, base, s, off)
    ensures now == Stored(was, base, s)
  {
    forall off: nat
      ensures off in now <==> off in Stored(was, base, s)
      ensures off in now ==> now[off] == Stored(was, base, s)[off]
    {
      assert ByteStored(now, was, base, s, off);
    }
  }

  lemma OffsetParts(id: nat, k: nat)
    requires k < PAGE_SIZE
    ensures Offset(id, k) / PAGE_SIZE == id && Offset(id, k) % PAGE_SIZE == k
  {
  }

  lemma OffsetOf(off: nat)
    ensures Offset(off / PAGE_SIZE, off % PAGE_SIZE) == off
  {
  }

  lemma ByteOfPage(st: Store, p: nat, k: nat)
    requires PagesShaped(st) && p < st.used && p == Find(st.pages, st.used, st.pages[p].id) && k < PAGE_SIZE
    ensures Offset(st.pages[p].id, k) in Flat(st) <==> IsInit(st.pages[p], k)
    ensures Offset(st.pages[p].id, k) in Flat(st) ==> Flat(st)[Offset(st.pages[p].id, k)] == st.pages[p].bytes[k]
  {
    OffsetParts(st.pages[p].id, k);
    hide Offset;
  }

  lemma FilledByte(st: Store, p: nat, marked: Page, o: nat, s: seq<Byte>, n: nat, off: nat)
    requires Fills(st, p, marked, o, s, n)
    ensures PagesShaped(st) && p < |st.pages| && PagesShaped(Filled(st, p, marked, o, s))
    ensures ByteStored(Flat(Filled(st, p, marked, o, s)), Flat(st), Offset(st.pages[p].id, o), s, off)
  {
    FilledShape(st, p, marked, o, s, n);
    assert PagesShaped(st) && p < |st.pages|;
    assert off % PAGE_SIZE < PAGE_SIZE;
    hide *;
    OffsetOf(off);
    if off / PAGE_SIZE == st.pages[p].id {
      SamePage(st, p, marked, o, s, n, off % PAGE_SIZE);
    } else {
      OtherPage(st, p, marked, o, s, n, off);
    }
  }

  lemma SamePage(st: Store, p: nat, marked: Page, o: nat, s: seq<Byte>, n: nat, k: nat)
    requires Fills(st, p, marked, o, s, n) && k < PAGE_SIZE
    ensures PagesShaped(st) && p < |st.pages| && PagesShaped(Filled(st, p, marked, o, s))
    ensures ByteStored(Flat(Filled(st, p, marked, o, s)), Flat(st),
      Offset(st.pages[p].id, o), s, Offset(st.pages[p].id, k))
  {
    FilledShape(st, p, marked, o, s, n);
    var u, id := Filled(st, p, marked, o, s), st.pages[p].id;
    FindSame(st.pages, u.pages, st.used, id);
    PageByte(st.pages[p], marked, o, s, n, k);
    var out := u.pages[p];
    assert Shaped(out) && Shaped(st.pages[p]) && u.used == st.used && out.id == id;
    assert Offset(id, k) - Offset(id, o) == k - o;
    hide Find, IsInit, Copied, Marked, Offset, Flat, PagesShaped, Filled, ByteStored, Fills;
    ByteOfPage(st, p, k);
    ByteOfPage(u, p, k);
    ByteIs(Flat(u), Flat(st), Offset(id, o), s, Offset(id, k),
      IsInit(st.pages[p], k), st.pages[p].bytes[k], IsInit(out, k), out.bytes[k]);
  }

  /** A byte that is written exactly when it was or is one of `s`, and is that one of `s` or what it was. */
  lemma ByteIs(now: Memory, was: Memory, base: nat, s: seq<Byte>,
      off: nat, init: bool, byte: Byte, init2: bool, byte2: Byte)
    requires (off in was <==> init) && (init ==> was[off] == byte)
    requires (off in now <==> init2) && (init2 ==> now[off] == byte2)
    requires (init2 <==> init || 0 <= off - base < |s|)
    requires byte2 == if 0 <= off - base < |s| then s[off - base] else byte
    ensures ByteStored(now, was, base, s, off)
  {
  }

  lemma OtherPage(st: Store, p: nat, marked: Page, o: nat, s: seq<Byte>, n: nat, off: nat)
    requires Fills(st, p, marked, o, s, n) && off / PAGE_SIZE != st.pages[p].id
    ensures PagesShaped(st) && p < |st.pages| && PagesShaped(Filled(st, p, marked, o, s))
    ensures ByteStored(Flat(Filled(st, p, marked, o, s)), Flat(st), Offset(st.pages[p].id, o), s, off)
  {
    FilledShape(st, p, marked, o, s, n);
    var u := Filled(st, p, marked, o, s);
    FindSame(st.pages, u.pages, st.used, off / PAGE_SIZE);
    hide IsInit, Copied, Marked;
  }

  lemma PageByte(pg: Page, marked: Page, o: nat, s: seq<Byte>, n: nat, k: nat)
    requires Marked(pg, marked, o, n) && k < PAGE_SIZE
    requires |s| <= n && o + |s| <= PAGE_SIZE && (|s| == n || o + |s| == PAGE_SIZE)
    ensures var out := marked.(bytes := Copied(marked.bytes, o, s));
      && Shaped(out) && (IsInit(out, k) <==> IsInit(pg, k) || o <= k < o + |s|)
      && out.bytes[k] == if o <= k < o + |s| then s[k - o] else pg.bytes[k]
  {
    assert IsInit(marked, k) <==> IsInit(pg, k) || o <= k < o + n;
  }
}
