/** The sparse memory emulator of memlib.c: a hash table of pages, updated in place. Where the program exits with
    an error message the result is Exited; accesses outside the heap go to other memory (Outside). */
module SparseMemory {
  import opened Arithmetic
  import opened LittleEndian
  import opened SparseStore
  import TwosComplement

  datatype Outcome<T> = Exited | Outside | Done(value: T)

  class SparseMemory {
    const heap: nat
    const maxAddr: nat
    const pages: array<Page>
    const table: array<Ptr>
    var used: nat
    var brk: nat
    var checkUB: bool
    ghost var chains: seq<seq<nat>>

    ghost function State(): Store
      reads this, pages, table
    {
      Store(pages[..], table[..], used)
    }

    ghost predicate Valid()
      reads this, pages, table
      ensures Valid() ==> PagesShaped(State()) && |State().table| > 0 && heap <= brk <= maxAddr
    {
      Sound(State(), chains) && heap <= brk <= maxAddr
    }

    /** The bytes written since the last reset. */
    ghost function Contents(): Memory
      reads this, pages, table
      requires PagesShaped(State())
    {
      Flat(State())
    }

    /** mem_init, in sparse mode. */
    constructor (heap: nat, maxAddr: nat, numPages: nat, numBuckets: nat)
      requires heap <= maxAddr && numBuckets > 0
      ensures Valid() && Contents() == imap[] && brk == heap && checkUB && fresh(pages) && fresh(table)
      ensures this.heap == heap && this.maxAddr == maxAddr && pages.Length == numPages && table.Length == numBuckets
    {
      this.heap, this.maxAddr, this.brk, this.checkUB := heap, maxAddr, heap, true;
      this.pages := new Page[numPages](_ => Page(0, NULL, seq(PAGE_SIZE / 8, _ => 0), seq(PAGE_SIZE, _ => 0)));
      this.table := new Ptr[numBuckets](_ => NULL);
      this.used := 0;
      this.chains := [];
      new;
      ResetBrk();
    }

    /** mem_reset_brk: the table is cleared and all pages are free again; their bytes stay. */
    method ResetBrk()
      requires table.Length > 0 && heap <= maxAddr && forall p :: 0 <= p < pages.Length ==> Shaped(pages[p])
      modifies this`used, this`brk, this`chains, table
      ensures Valid() && Contents() == imap[] && brk == heap && used == 0
    {
      var b := 0;
      while b < table.Length
        invariant 0 <= b <= table.Length && forall c :: 0 <= c < b ==> table[c] == NULL
      {
        table[b] := NULL;
        b := b + 1;
      }
      used := 0;
      brk := heap;
      chains := seq(table.Length, _ => []);
    }

    /** mem_sbrk, in sparse mode: the old break, or -1. */
    method Sbrk(incr: int) returns (r: int)
      requires Valid()
      modifies this`brk
      ensures Valid() && Contents() == old(Contents())
      ensures if 0 <= incr && old(brk) + incr <= maxAddr then r == old(brk) && brk == old(brk) + incr
        else r == -1 && brk == old(brk)
    {
      if incr < 0 || brk + incr > maxAddr {
        return -1;
      }
      r := brk;
      brk := brk + incr;
    }

    function PageId(addr: nat): nat
      requires heap <= addr
    {
      (addr - heap) / PAGE_SIZE
    }

    function Place(addr: nat): (o: nat)
      requires heap <= addr
      ensures o < PAGE_SIZE
    {
      (addr - heap) % PAGE_SIZE
    }

    function PageStart(id: nat): nat {
      heap + id * PAGE_SIZE
    }

    /** The search of get_mem through the list of a bucket. */
    method FindBlock(id: nat) returns (block: Ptr)
      requires Valid()
      ensures block == NULL <==> Missing(State(), id)
      ensures block.At? ==> block.page == Find(State().pages, used, id)
    {
      ghost var b := Bucket(id, table.Length);
      ghost var chain := chains[b];
      ghost var k: nat := 0;
      assert Chained(State(), b, chain);
      block := table[Bucket(id, table.Length)];
      if |chain| > 0 { InUse(State(), chains, b, 0); }
      while block != NULL && pages[block.page].id != id
        invariant k <= |chain| && block == First(chain, k)
        invariant block.At? ==> block.page < used
        invariant forall j :: 0 <= j < k ==> Differs(State(), chain[j], id)
        decreases |chain| - k
      {
        InUse(State(), chains, b, k);
        if k + 1 < |chain| { InUse(State(), chains, b, k + 1); }
        block := pages[block.page].next;
        k := k + 1;
      }
      if block == NULL {
        NotInChain(State(), chains, id);
      } else {
        FindUnique(State(), block.page);
      }
    }

    /** get_mem, up to the page: a page that is missing is taken from the free ones. */
    method Obtain(id: nat) returns (r: Outcome<nat>)
      requires Valid()
      modifies this`used, this`chains, pages, table
      ensures Valid() && Flat(State()) == Flat(old(State()))
      ensures r != Outside && (r.Exited? <==> NoRoom(old(State()), id))
      ensures r.Exited? ==> State() == old(State()) && used == pages.Length
      ensures r.Done? ==> State() == Obtained(old(State()), id) && Current(State(), r.value) && pages[r.value].id == id
    {
      ghost var st := State();
      var block := FindBlock(id);
      if block.At? {
        FoundPage(st, id);
        r := Done(block.page);
      } else if used == pages.Length {
        r := Exited;
      } else {
        TakenPage(st, id);
        r := Done(used);
        TakePage(id);
      }
    }

    /** The first free page goes to the front of the list of its bucket. */
    method TakePage(id: nat)
      requires Valid() && Missing(State(), id) && used < pages.Length
      modifies this`used, this`chains, pages, table
      ensures Valid() && State() == Taken(old(State()), id)
    {
      ghost var st := State();
      TakenSound(st, chains, id);
      hide Sound, Missing, PagesShaped, Bucket;
      var b := Bucket(id, table.Length);
      var p := used;
      used := used + 1;
      pages[p] := Page(id, table[b], seq(PAGE_SIZE / 8, _ => 0), pages[p].bytes);
      table[b] := At(p);
      chains := Pushed(chains, b, p);
      assert State() == Taken(st, id);
    }

    /** The loop of get_mem over the bytes of an access, as far as the page goes. */
    method MarkBytes(p: nat, o: nat, size: nat)
      requires Valid() && p < used && o < PAGE_SIZE
      modifies pages
      ensures Valid() && State() == old(State()).(pages := old(State()).pages[p := pages[p]])
      ensures Marked(old(pages[p]), pages[p], o, size)
    {
      ghost var st := State();
      assert Shaped(st.pages[p]);
      hide Sound, Marked, Shaped, PagesShaped;
      MarkLoop(p, o, size);
      assert State().pages == st.pages[p := pages[p]];
      MarkedSound(st, chains, p, pages[p], o, size);
    }

    method MarkLoop(p: nat, o: nat, size: nat)
      requires p < pages.Length && Shaped(pages[p]) && o < PAGE_SIZE
      modifies pages
      ensures Marked(old(pages[p]), pages[p], o, size)
      ensures forall q :: 0 <= q < pages.Length && q != p ==> pages[q] == old(pages[q])
    {
      MarkedNone(pages[p], o);
      hide Marked, Shaped, WithBit;
      var offsetIdx, offsetBit, i := o / 8, o % 8, 0;
      while i < size && offsetIdx < PAGE_SIZE / 8
        invariant 0 <= i <= size && 0 <= offsetBit < 8 && offsetIdx * 8 + offsetBit == o + i
        invariant Marked(old(pages[p]), pages[p], o, i)
        invariant forall q :: 0 <= q < pages.Length && q != p ==> pages[q] == old(pages[q])
      {
        MarkOne(old(pages[p]), pages[p], o, i, offsetIdx, offsetBit);
        var bits := pages[p].initSet;
        pages[p] := pages[p].(initSet := bits[offsetIdx := WithBit(bits[offsetIdx], offsetBit)]);
        offsetBit := offsetBit + 1;
        if offsetBit == 8 {
          offsetBit := 0;
          offsetIdx := offsetIdx + 1;
        }
        i := i + 1;
      }
      MarkedToEnd(old(pages[p]), pages[p], o, i, size);
    }

    method CheckBytes(p: nat, o: nat, size: nat) returns (ok: bool)
      requires Valid() && p < used && o < PAGE_SIZE
      ensures ok <==> !checkUB || AllInit(pages[p], o, size)
    {
      assert Shaped(pages[p]);
      hide Sound, PagesShaped, AllInit, Mask, HasBit;
      var offsetIdx, offsetBit, i := o / 8, o % 8, 0;
      InitNone(pages[p], o);
      while i < size && offsetIdx < PAGE_SIZE / 8
        invariant 0 <= i <= size && 0 <= offsetBit < 8 && offsetIdx * 8 + offsetBit == o + i
        invariant checkUB ==> AllInit(pages[p], o, i)
      {
        InitOne(pages[p], o, i, size, offsetIdx, offsetBit);
        if checkUB && !HasBit(pages[p].initSet[offsetIdx], offsetBit) {
          return false;
        }
        offsetBit := offsetBit + 1;
        if offsetBit == 8 {
          offsetBit := 0;
          offsetIdx := offsetIdx + 1;
        }
        i := i + 1;
      }
      InitToEnd(pages[p], o, i, size);
      return true;
    }

    /** The page of an address, and the place in the page. */
    method Locate(addr: nat) returns (id: nat, offset: nat)
      requires heap <= addr
      ensures id == PageId(addr) && offset == Place(addr) && Offset(id, offset) == addr - heap
    {
      id := PageId(addr);
      offset := addr - PageStart(id);
      OffsetOf(addr - heap);
    }

    /** get_mem for a write of `size` bytes, and the memcpy of those that lie in the page. */
    method WritePart(addr: nat, s: seq<Byte>, size: nat) returns (ok: bool)
      requires Valid() && heap <= addr && |s| == InPage(Place(addr), size)
      modifies this`used, this`chains, pages, table
      ensures Valid() && (ok <==> !NoRoom(old(State()), PageId(addr))) && (ok || used == pages.Length)
      ensures ok ==> StepsTo(old(State()), State(), PageId(addr), Stored(Flat(old(State())), addr - heap, s))
    {
      hide *;
      var id, offset := Locate(addr);
      var r := Obtain(id);
      ok := r.Done?;
      if ok {
        CopyIn(r.value, offset, s, size, old(State()));
      }
    }

    method CopyIn(p: nat, o: nat, s: seq<Byte>, size: nat, ghost was: Store)
      requires Valid() && Current(State(), p) && o < PAGE_SIZE && |s| == InPage(o, size)
      requires PagesShaped(was) && |was.table| > 0 && !NoRoom(was, pages[p].id) && State() == Obtained(was, pages[p].id)
      modifies pages
      ensures Valid() && StepsTo(was, State(), old(pages[p]).id, Stored(Flat(was), Offset(old(pages[p]).id, o), s))
    {
      ghost var st, id := State(), pages[p].id;
      ObtainedStep(was, id);
      hide NoRoom, Flat, Stored, StepsTo, Obtained;
      MarkBytes(p, o, size);
      FilledFlat(st, p, pages[p], o, s, size);
      FilledShape(st, p, pages[p], o, s, size);
      ghost var u := Filled(st, p, pages[p], o, s);
      WrittenSound(st, chains, p, u.pages[p]);
      StepCopy(was, st, u, id, Flat(u));
      pages[p] := pages[p].(bytes := Copied(pages[p].bytes, o, s));
      assert State() == u;
    }

    /** How an access of `len` bytes lies on its pages. */
    lemma Layout(addr: nat, len: nat)
      requires heap <= addr && 1 <= len <= 8
      ensures Place(addr) + len <= PAGE_SIZE ==>
        PageId(addr + len - 1) == PageId(addr) && Span(addr - heap, len) == {PageId(addr)}
      ensures Place(addr) + len <= PAGE_SIZE ==> InPage(Place(addr), len) == len <= InPage(Place(addr), 8)
      ensures Place(addr) + len > PAGE_SIZE ==> var llen := PAGE_SIZE - Place(addr);
        && PageId(addr + llen) == PageId(addr + len - 1) == PageId(addr) + 1
        && Place(addr + llen) == 0 && 0 < llen < len
        && Span(addr - heap, len) == {PageId(addr), PageId(addr) + 1}
        && InPage(Place(addr), len) == InPage(Place(addr), 8) == llen
        && InPage(0, len - llen) == len - llen && InPage(0, 8) == 8
    {
      PagesOf(addr - heap, len);
    }

    /** mem_write: the low `len` bytes of `val`, over one page or two. */
    method Write(addr: nat, val: Word, len: nat) returns (r: Outcome<()>)
      requires Valid() && 1 <= len <= 8
      modifies this`used, this`chains, pages, table
      ensures Valid()
      ensures r.Outside? <==> !(heap <= addr && addr + len <= brk)
      ensures !r.Outside? ==> (r.Exited? <==> NoRoomFor(old(State()), Span(addr - heap, len)))
      ensures r.Done? ==> Takes(old(State()), State(), Span(addr - heap, len))
      ensures r.Exited? ==> used == pages.Length
      ensures r.Outside? ==> State() == old(State())
      ensures r.Done? ==> Contents() == Stored(old(Contents()), addr - heap, BytesOf(val, len))
    {
      if heap <= addr && addr + len <= brk {
        var ok := WriteHeap(addr, BytesOf(val, len));
        r := if ok then Done(()) else Exited;
      } else {
        r := Outside;
      }
    }

    method WriteHeap(addr: nat, s: seq<Byte>) returns (ok: bool)
      requires Valid() && heap <= addr && 1 <= |s| <= 8
      modifies this`used, this`chains, pages, table
      ensures Valid() && (ok <==> !NoRoomFor(old(State()), Span(addr - heap, |s|)))
      ensures ok || used == pages.Length
      ensures ok ==> Flat(State()) == Stored(Flat(old(State())), addr - heap, s)
      ensures ok ==> Takes(old(State()), State(), Span(addr - heap, |s|))
    {
      hide *;
      Layout(addr, |s|);
      var id, offset := Locate(addr);
      var llen := PAGE_SIZE - offset;
      RoomForOne(State(), PageId(addr));
      if llen < |s| {
        ok := WriteSplit(addr, s, llen);
      } else {
        ok := WritePart(addr, s, |s|);
        if ok { StepTakes(old(State()), State(), id, Stored(Flat(old(State())), addr - heap, s)); }
      }
    }

    /** A two-page write. */
    method WriteSplit(addr: nat, s: seq<Byte>, llen: nat) returns (ok: bool)
      requires Valid() && heap <= addr && 1 <= |s| <= 8 && llen == PAGE_SIZE - Place(addr) < |s|
      modifies this`used, this`chains, pages, table
      ensures Valid() && (ok <==> !NoRoomFor(old(State()), Span(addr - heap, |s|)))
      ensures ok || used == pages.Length
      ensures ok ==> Flat(State()) == Stored(Flat(old(State())), addr - heap, s)
      ensures ok ==> Takes(old(State()), State(), Span(addr - heap, |s|))
    {
      hide *;
      Layout(addr, |s|);
      ghost var st, off, id := State(), addr - heap, PageId(addr);
      RoomForOne(st, id);
      ok := WritePart(addr, s[..llen], |s|);
      if ok {
        ghost var mid := State();
        StepTakes(st, mid, id, Stored(Flat(st), off, s[..llen]));
        RoomForTwo(st, mid, id);
        ok := WritePart(addr + llen, s[llen..], |s| - llen);
        if ok {
          StepTakes(mid, State(), id + 1, Stored(Flat(mid), off + llen, s[llen..]));
          StoredBoth(Flat(st), off, s, llen);
          TakesTwo(st, mid, State(), id);
        }
      }
    }

    /** get_mem for a read of `size` bytes, and the load of a word from there; `beyond` lies past the page. */
    method ReadPart(addr: nat, size: nat, beyond: seq<Byte>) returns (r: Outcome<seq<Byte>>)
      requires Valid() && heap <= addr && |beyond| == 8 && size > 0
      modifies this`used, this`chains, pages, table
      ensures Valid() && Flat(State()) == Flat(old(State())) && r != Outside
      ensures checkUB ==> (r.Exited? <==> !AllWritten(Flat(old(State())), addr - heap, InPage(Place(addr), size)))
      ensures checkUB && r.Done? ==> State() == old(State())
      ensures !checkUB ==> (r.Exited? <==> NoRoom(old(State()), PageId(addr))) && (r.Exited? ==> used == pages.Length)
      ensures r.Done? ==>
        !NoRoom(old(State()), PageId(addr)) && StepsTo(old(State()), State(), PageId(addr), Flat(old(State())))
      ensures r.Done? ==> |r.value| == 8 && Agrees(r.value, Flat(State()), addr - heap, InPage(Place(addr), 8))
    {
      hide *;
      var id, offset := Locate(addr);
      ObtainedRead(State(), id, offset, size);
      var b := Obtain(id);
      if b.Exited? {
        r := Exited;
      } else {
        ObtainedStep(old(State()), id);
        var ok, word := LoadWord(b.value, offset, size, beyond);
        r := if ok then Done(word) else Exited;
      }
    }

    method LoadWord(p: nat, o: nat, size: nat, beyond: seq<Byte>) returns (ok: bool, word: seq<Byte>)
      requires Valid() && Current(State(), p) && o < PAGE_SIZE && |beyond| == 8
      ensures if checkUB then ok <==> AllWritten(Flat(State()), Offset(pages[p].id, o), InPage(o, size)) else ok
      ensures |word| == 8 && Agrees(word, Flat(State()), Offset(pages[p].id, o), InPage(o, 8))
    {
      PageWritten(State(), p, o, size);
      PageWritten(State(), p, o, 8);
      WordAt(State(), p, o, beyond);
      hide Flat, AllInit, AllWritten, Agrees, InPage, Find;
      ok := CheckBytes(p, o, size);
      word := (pages[p].bytes[o..] + beyond)[..8];
    }

    /** mem_read. With the check on, the bytes must all have been written, and nothing changes; in any case the
        bytes of the result that have been written are right, whatever lies beyond the page. */
    method Read(addr: nat, len: nat, beyond: seq<Byte>) returns (r: Outcome<nat>, ghost raw: seq<Byte>)
      requires Valid() && 1 <= len <= 8 && |beyond| == 8
      modifies this`used, this`chains, pages, table
      ensures Valid() && Contents() == old(Contents())
      ensures r.Outside? <==> !(heap <= addr && addr + len <= brk)
      ensures !r.Outside? && checkUB ==> (r.Exited? <==> !AllWritten(old(Contents()), addr - heap, len))
      ensures !r.Outside? && !checkUB ==> (r.Exited? <==> NoRoomFor(old(State()), Span(addr - heap, len)))
      ensures r.Exited? && !checkUB ==> used == pages.Length
      ensures r.Done? && !checkUB ==> Takes(old(State()), State(), Span(addr - heap, len))
      ensures r.Done? ==> |raw| == len && r.value == Value(raw) && Agrees(raw, Contents(), addr - heap, len)
      ensures (r.Done? && checkUB) || r.Outside? ==> State() == old(State())
    {
      if heap <= addr && addr + len <= brk {
        r, raw := ReadHeap(addr, len, beyond);
      } else {
        r, raw := Outside, [];
      }
    }

    method ReadHeap(addr: nat, len: nat, beyond: seq<Byte>) returns (r: Outcome<nat>, ghost raw: seq<Byte>)
      requires Valid() && heap <= addr && 1 <= len <= 8 && |beyond| == 8
      modifies this`used, this`chains, pages, table
      ensures Valid() && Flat(State()) == Flat(old(State())) && r != Outside
      ensures checkUB ==> (r.Exited? <==> !AllWritten(Flat(old(State())), addr - heap, len))
      ensures !checkUB ==> (r.Exited? <==> NoRoomFor(old(State()), Span(addr - heap, len)))
      ensures r.Exited? && !checkUB ==> used == pages.Length
      ensures r.Done? && !checkUB ==> Takes(old(State()), State(), Span(addr - heap, len))
      ensures r.Done? ==> |raw| == len && r.value == Value(raw) && Agrees(raw, Flat(State()), addr - heap, len)
      ensures r.Done? && checkUB ==> State() == old(State())
    {
      hide *;
      Layout(addr, len);
      var id, offset := Locate(addr);
      raw := [];
      RoomForOne(State(), id);
      var lo := ReadPart(addr, len, beyond);
      if id != PageId(addr + len - 1) {
        AllWrittenBoth(Flat(old(State())), addr - heap, PAGE_SIZE - offset, len - (PAGE_SIZE - offset));
        if lo.Exited? {
          r := Exited;
        } else {
          StepTakes(old(State()), State(), id, Flat(old(State())));
          RoomForTwo(old(State()), State(), id);
          ghost var mid := State();
          r, raw := ReadSecond(addr, len, lo.value);
          if r.Done? { TakesTwo(old(State()), mid, State(), id); }
        }
      } else if lo.Exited? {
        r := Exited;
      } else {
        StepTakes(old(State()), State(), id, Flat(old(State())));
        raw := lo.value[..len];
        MaskedIs(lo.value, len);
        AgreesLess(lo.value, Flat(State()), addr - heap, InPage(offset, 8), len);
        r := Done(if len < 8 then Low(Value(lo.value), len) else Value(lo.value));
      }
    }

    /** The second page of a split read. */
    method ReadSecond(addr: nat, len: nat, lo: seq<Byte>) returns (r: Outcome<nat>, ghost raw: seq<Byte>)
      requires Valid() && heap <= addr && 1 <= len <= 8 && |lo| == 8 && PAGE_SIZE < Place(addr) + len
      requires Agrees(lo, Flat(State()), addr - heap, PAGE_SIZE - Place(addr))
      modifies this`used, this`chains, pages, table
      ensures Valid() && Flat(State()) == Flat(old(State())) && r != Outside
      ensures checkUB ==> (r.Exited? <==>
        !AllWritten(Flat(old(State())), addr - heap + (PAGE_SIZE - Place(addr)), len - (PAGE_SIZE - Place(addr))))
      ensures !checkUB ==>
        (r.Exited? <==> NoRoom(old(State()), PageId(addr) + 1)) && (r.Exited? ==> used == pages.Length)
      ensures r.Done? ==> Takes(old(State()), State(), {PageId(addr) + 1})
      ensures r.Done? ==> |raw| == len && r.value == Value(raw) && Agrees(raw, Flat(State()), addr - heap, len)
      ensures r.Done? && checkUB ==> State() == old(State())
    {
      hide *;
      Layout(addr, len);
      var id, offset := Locate(addr);
      var llen := PAGE_SIZE - offset;
      raw := [];
      var hi := ReadPart(addr + llen, len - llen, seq(8, _ => 0));
      if hi.Exited? {
        r := Exited;
      } else {
        StepTakes(old(State()), State(), id + 1, Flat(old(State())));
        CombineIs(lo, hi.value, llen);
        var rdata: nat := Combine(Low(Value(lo), llen), Value(hi.value), llen);
        r := Done(if len < 8 then Low(rdata, len) else rdata);
        raw := (lo[..llen] + hi.value[..8 - llen])[..len];
        MaskedIs(lo[..llen] + hi.value[..8 - llen], len);
        AgreesBoth(lo, hi.value, Flat(State()), addr - heap, llen, len);
      }
    }

    /** mem_memcpy, between stretches of the heap: word by word from the front, then what is left. It gives up
        exactly when there are not enough pages, or with the check on at a byte not written when it is read. */
    method Memcpy(dst: nat, src: nat, n: nat, beyond: seq<Byte>) returns (r: Outcome<nat>, ghost raw: seq<Byte>)
      requires Valid() && |beyond| == 8
      requires heap <= src && src + n <= brk && heap <= dst && dst + n <= brk
      modifies this`used, this`chains, pages, table
      ensures Valid() && r != Outside
      ensures r.Exited? <==> NoRoomFor(old(State()), CopySpan(dst - heap, src - heap, n, checkUB))
                             || (checkUB && !Readable(old(Contents()), dst - heap, src - heap, n))
      ensures r.Done? ==> r.value == dst && |raw| == n && Contents() == Stored(old(Contents()), dst - heap, raw)
      ensures r.Done? ==> Moves(old(Contents()), dst - heap, src - heap, raw)
    {
      hide *;
      ghost var m, st, all := Contents(), State(), CopySpan(dst - heap, src - heap, n, checkUB);
      var to: nat, from: nat, left: nat := dst, src, n;
      raw := [];
      CopyStarts(m, dst - heap, src - heap);
      NothingToCopy(st, dst - heap, src - heap, checkUB);
      while left >= 8
        invariant Valid() && left <= n && (n - left) % 8 == 0 && to == dst + (n - left) && from == src + (n - left)
        invariant |raw| == n - left && Contents() == Stored(m, dst - heap, raw)
        invariant Moves(m, dst - heap, src - heap, raw)
        invariant checkUB ==> Readable(m, dst - heap, src - heap, n - left)
        invariant Takes(st, State(), CopySpan(dst - heap, src - heap, n - left, checkUB))
      {
        ghost var mid := State();
        var ok, part := CopyPart(to, from, 8, beyond);
        CopyTurn(m, dst - heap, src - heap, raw, part, 8, n);
        CopyRoom(st, mid, dst - heap, src - heap, n - left, 8, n, checkUB);
        if !ok {
          return Exited, raw;
        }
        TakesBoth(st, mid, State(), CopySpan(dst - heap, src - heap, n - left, checkUB),
          CopySpan(to - heap, from - heap, 8, checkUB));
        left, from, to, raw := left - 8, from + 8, to + 8, raw + part;
      }
      if left > 0 {
        ghost var mid := State();
        var ok, part := CopyPart(to, from, left, beyond);
        CopyTurn(m, dst - heap, src - heap, raw, part, left, n);
        CopyRoom(st, mid, dst - heap, src - heap, n - left, left, n, checkUB);
        if !ok {
          return Exited, raw;
        }
        TakesBoth(st, mid, State(), CopySpan(dst - heap, src - heap, n - left, checkUB),
          CopySpan(to - heap, from - heap, left, checkUB));
        raw := raw + part;
      }
      TakenFits(st, State(), all);
      r := Done(dst);
    }

    /** One turn of the copy loop. */
    method CopyPart(to: nat, from: nat, k: nat, beyond: seq<Byte>) returns (ok: bool, ghost part: seq<Byte>)
      requires Valid() && |beyond| == 8 && 0 < k <= 8
      requires heap <= from && from + k <= brk && heap <= to && to + k <= brk
      modifies this`used, this`chains, pages, table
      ensures Valid() && |part| == k
      ensures ok ==>
        Contents() == Stored(old(Contents()), to - heap, part) && Agrees(part, old(Contents()), from - heap, k)
      ensures ok && checkUB ==> AllWritten(old(Contents()), from - heap, k)
      ensures ok ==> Takes(old(State()), State(), CopySpan(to - heap, from - heap, k, checkUB))
      ensures !ok ==>
        || NoRoomFor(old(State()), CopySpan(to - heap, from - heap, k, checkUB))
        || (checkUB && !AllWritten(old(Contents()), from - heap, k))
    {
      hide *;
      ghost var st, a, b := State(), Span(to - heap, k), Span(from - heap, k);
      var data, raw := Read(from, k, beyond);
      ok, part := data.Done?, raw;
      CopySpanIs(to - heap, from - heap, k, checkUB);
      if ok {
        ghost var mid := State();
        ValueFits(raw);
        BytesOfValue(raw);
        var w := Write(to, data.value, k);
        ok := w.Done?;
        if checkUB {
        } else if ok {
          TakesBoth(st, mid, State(), b, a);
        } else {
          RoomForMore(st, mid, b, a);
        }
      } else {
        part := seq(k, _ => 0);
        if !checkUB { RoomForFewer(st, b, b + a); }
      }
    }

    /** mem_memset, on a stretch of the heap. It gives up exactly when there are not enough pages. */
    method Memset(dst: nat, c: int, n: nat) returns (r: Outcome<nat>)
      requires Valid() && heap <= dst && dst + n <= brk
      modifies this`used, this`chains, pages, table
      ensures Valid() && r != Outside
      ensures r.Exited? <==> NoRoomFor(old(State()), Span(dst - heap, n))
      ensures r.Done? ==> r.value == dst && Contents() == Stored(old(Contents()), dst - heap, Repeat(c % 256, n))
    {
      hide *;
      ghost var st := State();
      var byte: Byte := c % 256;
      var data := Spread(byte);
      var to: nat, left: nat := dst, n;
      StoredNone(Contents(), dst - heap, byte);
      NothingToFill(State(), dst - heap);
      while left >= 8
        invariant Valid() && left <= n && to == dst + (n - left) && to + left <= brk
        invariant Contents() == Stored(old(Contents()), dst - heap, Repeat(byte, n - left))
        invariant Takes(st, State(), Span(dst - heap, n - left))
      {
        ghost var mid := State();
        var ok := FillPart(to, byte, data, 8);
        FillRoom(st, mid, dst - heap, n - left, 8, n);
        if !ok {
          return Exited;
        }
        StoredNext(old(Contents()), dst - heap, byte, n - left, 8);
        TakesBoth(st, mid, State(), Span(dst - heap, n - left), Span(to - heap, 8));
        left, to := left - 8, to + 8;
      }
      if left > 0 {
        ghost var mid := State();
        var ok := FillPart(to, byte, data, left);
        FillRoom(st, mid, dst - heap, n - left, left, n);
        if !ok {
          return Exited;
        }
        StoredNext(old(Contents()), dst - heap, byte, n - left, left);
        TakesBoth(st, mid, State(), Span(dst - heap, n - left), Span(to - heap, left));
      }
      TakenFits(st, State(), Span(dst - heap, n));
      return Done(dst);
    }

    method FillPart(to: nat, byte: Byte, data: Word, k: nat) returns (ok: bool)
      requires Valid() && heap <= to && to + k <= brk && 1 <= k <= 8 && data == Value(Repeat(byte, 8))
      modifies this`used, this`chains, pages, table
      ensures Valid()
      ensures if ok then Takes(old(State()), State(), Span(to - heap, k))
        else NoRoomFor(old(State()), Span(to - heap, k))
      ensures ok ==> Contents() == Stored(old(Contents()), to - heap, Repeat(byte, k))
    {
      hide *;
      SpreadBytes(byte, k);
      var w := Write(to, data, k);
      ok := w.Done?;
    }

    /** The word of eight equal bytes. */
    static method Spread(byte: Byte) returns (data: Word)
      ensures data == Value(Repeat(byte, 8))
    {
      var d, i := 0, 0;
      while i < 8
        invariant 0 <= i <= 8 && d == Value(Repeat(byte, i))
      {
        SpreadNext(byte, i);
        d := TwosComplement.Or(d, byte * Pow(i));
        i := i + 1;
      }
      ValueFits(Repeat(byte, 8));
      data := d;
    }
  }

  function Repeat(byte: Byte, n: nat): (s: seq<Byte>)
    ensures |s| == n && forall i :: 0 <= i < n ==> s[i] == byte
  {
    seq(n, _ => byte)
  }

  lemma SpreadNext(byte: Byte, i: nat)
    ensures Value(Repeat(byte, i + 1)) == TwosComplement.Or(Value(Repeat(byte, i)), byte * Pow(i))
  {
    assert Value([byte]) == byte && Pow(i) == Pow2(8 * i);
    assert Repeat(byte, i + 1) == Repeat(byte, i) + [byte];
    hide *;
    ValueBound(Repeat(byte, i));
    TwosComplement.OrDisjoint(Value(Repeat(byte, i)), byte, 8 * i);
    ValueConcat(Repeat(byte, i), [byte]);
    assert Pow(i) * byte == byte * Pow(i);
  }

  lemma SpreadBytes(byte: Byte, n: nat)
    requires n <= 8
    ensures BytesOf(Value(Repeat(byte, 8)), n) == Repeat(byte, n)
  {
    BytesOfValue(Repeat(byte, 8));
    BytesPrefix(Value(Repeat(byte, 8)), n, 8);
  }

  /** The pages that copying `n` bytes needs: with the check on, a read takes none. */
  ghost function CopySpan(to: nat, from: nat, n: nat, check: bool): set<nat> {
    Span(to, n) + if check then {} else Span(from, n)
  }

  lemma CopySpanIs(to: nat, from: nat, n: nat, check: bool)
    ensures CopySpan(to, from, n, check) == if check then Span(to, n) else Span(from, n) + Span(to, n)
  {
  }

  lemma NothingToCopy(st: Store, to: nat, from: nat, check: bool)
    requires PagesShaped(st)
    ensures Takes(st, st, CopySpan(to, from, 0, check))
  {
    TakesNone(st);
    assert CopySpan(to, from, 0, check) == {};
  }

  /** Running out of pages in the turn after `done` bytes means that there were not enough for all `n`. */
  lemma CopyRoom(st: Store, mid: Store, to: nat, from: nat, done: nat, k: nat, n: nat, check: bool)
    requires done + k <= n
    requires PagesShaped(st) && PagesShaped(mid) && Takes(st, mid, CopySpan(to, from, done, check))
    ensures NoRoomFor(mid, CopySpan(to + done, from + done, k, check)) ==> NoRoomFor(st, CopySpan(to, from, n, check))
    ensures CopySpan(to, from, done, check) + CopySpan(to + done, from + done, k, check) ==
      CopySpan(to, from, done + k, check)
  {
    hide *;
    CopySpanParts(to, from, done, k, check);
    CopySpanParts(to, from, done + k, n - (done + k), check);
    RoomForMore(st, mid, CopySpan(to, from, done, check), CopySpan(to + done, from + done, k, check));
    if NoRoomFor(mid, CopySpan(to + done, from + done, k, check)) {
      RoomForFewer(st, CopySpan(to, from, done + k, check), CopySpan(to, from, n, check));
    }
  }

  lemma CopySpanParts(to: nat, from: nat, a: nat, b: nat, check: bool)
    ensures CopySpan(to, from, a, check) + CopySpan(to + a, from + a, b, check) == CopySpan(to, from, a + b, check)
  {
    SpanParts(to, a, b);
    SpanParts(from, a, b);
    hide Span;
  }

  lemma NothingToFill(st: Store, off: nat)
    requires PagesShaped(st)
    ensures Takes(st, st, Span(off, 0))
  {
    TakesNone(st);
  }

  lemma FillRoom(st: Store, mid: Store, off: nat, done: nat, k: nat, n: nat)
    requires PagesShaped(st) && PagesShaped(mid) && Takes(st, mid, Span(off, done)) && done + k <= n
    ensures NoRoomFor(mid, Span(off + done, k)) ==> NoRoomFor(st, Span(off, n))
    ensures Span(off, done) + Span(off + done, k) == Span(off, done + k)
  {
    hide *;
    SpanParts(off, done, k);
    SpanParts(off, done + k, n - (done + k));
    RoomForMore(st, mid, Span(off, done), Span(off + done, k));
    if NoRoomFor(mid, Span(off + done, k)) {
      RoomForFewer(st, Span(off, done + k), Span(off, n));
    }
  }

  lemma StoredNone(m: Memory, off: nat, byte: Byte)
    ensures Stored(m, off, Repeat(byte, 0)) == m
  {
  }

  lemma StoredNext(m: Memory, off: nat, byte: Byte, k: nat, n: nat)
    ensures Stored(Stored(m, off, Repeat(byte, k)), off + k, Repeat(byte, n)) == Stored(m, off, Repeat(byte, k + n))
  {
  }

  lemma ValueFits(s: seq<Byte>)
    requires |s| <= 8
    ensures Value(s) < WORD
  {
    ValueBound(s);
    WordIsPow();
    Pow2Mono(8 * |s|, 64);
  }

  /** Byte `i` of a copy has been written when it is read: before, or by an earlier turn of the loop. */
  ghost predicate Readable(m: Memory, to: nat, from: nat, n: nat) {
    forall i: nat :: i < n ==> ReadableByte(m, to, from, i)
  }

  ghost predicate ReadableByte(m: Memory, to: nat, from: nat, i: nat) {
    from + i in m || to <= from + i < to + i / 8 * 8
  }

  /** The bytes `raw` are what the copy loop reads: byte `i` is that of the memory as the earlier turns have
      left it, unless it has not been written. */
  ghost predicate Moves(m: Memory, to: nat, from: nat, raw: seq<Byte>) {
    forall i: nat :: i < |raw| ==> MovedByte(m, to, from, raw, i)
  }

  ghost predicate MovedByte(m: Memory, to: nat, from: nat, raw: seq<Byte>, i: nat)
    requires i < |raw|
  {
    var u := Stored(m, to, raw[..i / 8 * 8]);
    from + i in u ==> raw[i] == u[from + i]
  }

  lemma CopyStarts(m: Memory, to: nat, from: nat)
    ensures Stored(m, to, []) == m && Moves(m, to, from, []) && Readable(m, to, from, 0)
  {
  }

  /** One turn of the copy loop, of `k` bytes. */
  lemma CopyTurn(m: Memory, to: nat, from: nat, raw: seq<Byte>, part: seq<Byte>, k: nat, n: nat)
    requires |raw| % 8 == 0 && |part| == k <= 8 && |raw| + k <= n
    requires Moves(m, to, from, raw)
    ensures var u := Stored(m, to, raw);
      && Stored(u, to + |raw|, part) == Stored(m, to, raw + part)
      && (Agrees(part, u, from + |raw|, k) ==> Moves(m, to, from, raw + part))
      && (Readable(m, to, from, |raw|) && AllWritten(u, from + |raw|, k) ==> Readable(m, to, from, |raw| + k))
      && (!AllWritten(u, from + |raw|, k) ==> !Readable(m, to, from, n))
  {
    var u := Stored(m, to, raw);
    hide Moves, Agrees, Readable, AllWritten, Stored;
    assert (raw + part)[..|raw|] == raw && (raw + part)[|raw|..] == part;
    StoredBoth(m, to, raw + part, |raw|);
    if Agrees(part, u, from + |raw|, k) {
      MovesOn(m, to, from, raw, part);
    }
    forall i: nat | |raw| <= i < |raw| + k
      ensures ReadableByte(m, to, from, i) <==> from + i in u
    {
      ReadableNow(m, to, from, raw, i);
    }
    TurnWritten(u, from + |raw|, k, m, to, from, |raw|, n);
  }

  lemma ReadableNow(m: Memory, to: nat, from: nat, raw: seq<Byte>, i: nat)
    requires |raw| % 8 == 0 && |raw| <= i < |raw| + 8
    ensures ReadableByte(m, to, from, i) <==> from + i in Stored(m, to, raw)
  {
    assert i / 8 * 8 == |raw|;
  }

  lemma MovesOn(m: Memory, to: nat, from: nat, raw: seq<Byte>, part: seq<Byte>)
    requires |raw| % 8 == 0 && |part| <= 8 && Moves(m, to, from, raw)
    requires Agrees(part, Stored(m, to, raw), from + |raw|, |part|)
    ensures Moves(m, to, from, raw + part)
  {
    forall i: nat | i < |raw + part|
      ensures MovedByte(m, to, from, raw + part, i)
    {
      hide Stored, Agrees;
      if i < |raw| { MovedBefore(m, to, from, raw, part, i); } else { MovedNow(m, to, from, raw, part, i); }
    }
  }

  lemma MovedBefore(m: Memory, to: nat, from: nat, raw: seq<Byte>, part: seq<Byte>, i: nat)
    requires i < |raw| && Moves(m, to, from, raw)
    ensures MovedByte(m, to, from, raw + part, i)
  {
    hide Stored;
    assert MovedByte(m, to, from, raw, i);
    Division(i, 8);
    assert (raw + part)[..i / 8 * 8] == raw[..i / 8 * 8];
  }

  lemma MovedNow(m: Memory, to: nat, from: nat, raw: seq<Byte>, part: seq<Byte>, i: nat)
    requires |raw| % 8 == 0 && |part| <= 8 && |raw| <= i < |raw + part|
    requires Agrees(part, Stored(m, to, raw), from + |raw|, |part|)
    ensures MovedByte(m, to, from, raw + part, i)
  {
    hide Stored;
    Division(|raw|, 8);
    QuotientIs(i, |raw| / 8, 8, i - |raw|);
    assert i / 8 * 8 == |raw| && (raw + part)[..|raw|] == raw;
    assert from + |raw| + (i - |raw|) == from + i;
  }

  lemma TurnWritten(u: Memory, off: nat, k: nat, m: Memory, to: nat, from: nat, done: nat, n: nat)
    requires off == from + done && done + k <= n
    requires forall i: nat :: done <= i < done + k ==> (ReadableByte(m, to, from, i) <==> from + i in u)
    ensures Readable(m, to, from, done) && AllWritten(u, off, k) ==> Readable(m, to, from, done + k)
    ensures !AllWritten(u, off, k) ==> !Readable(m, to, from, n)
  {
    if Readable(m, to, from, n) {
      forall o: nat | off <= o < off + k
        ensures o in u
      {
        assert ReadableByte(m, to, from, o - from);
      }
    }
  }

  /** If the copy goes down, or the stretches do not overlap, it moves all bytes at once. */
  lemma CopyMovesAll(m: Memory, to: nat, from: nat, raw: seq<Byte>)
    requires Moves(m, to, from, raw) && (to <= from || from + |raw| <= to)
    ensures Agrees(raw, m, from, |raw|)
    ensures Readable(m, to, from, |raw|) <==> AllWritten(m, from, |raw|)
    ensures AllWritten(m, from, |raw|) ==> raw == Bytes(m, from, |raw|)
  {
    forall i: nat | i < |raw|
      ensures from + i in m ==> raw[i] == m[from + i]
      ensures ReadableByte(m, to, from, i) <==> from + i in m
    {
      assert MovedByte(m, to, from, raw, i);
    }
    TurnWritten(m, from, |raw|, m, to, from, 0, |raw|);
  }

  /** What is written is read back: the low bytes of the value. Other bytes keep theirs. */
  lemma ReadBack(m: Memory, off: nat, v: nat, n: nat, o: nat)
    ensures AllWritten(Stored(m, off, BytesOf(v, n)), off, n)
    ensures Value(Bytes(Stored(m, off, BytesOf(v, n)), off, n)) == Low(v, n) == v % Pow2(8 * n)
    ensures !(off <= o < off + n) ==> (o in Stored(m, off, BytesOf(v, n)) <==> o in m)
    ensures !(off <= o < off + n) && o in m ==> Stored(m, off, BytesOf(v, n))[o] == m[o]
  {
    BytesStored(m, off, BytesOf(v, n), o);
    ValueOfBytes(v, n);
    hide *;
  }

  lemma BytesStored(m: Memory, off: nat, s: seq<Byte>, o: nat)
    ensures AllWritten(Stored(m, off, s), off, |s|) && Bytes(Stored(m, off, s), off, |s|) == s
    ensures !(off <= o < off + |s|) ==> (o in Stored(m, off, s) <==> o in m)
    ensures !(off <= o < off + |s|) && o in m ==> Stored(m, off, s)[o] == m[o]
  {
  }

  /** A read of bytes that have been written finds its page, and takes none. */
  lemma ObtainedRead(st: Store, id: nat, o: nat, n: nat)
    requires PagesShaped(st) && |st.table| > 0 && o < PAGE_SIZE && n > 0
    ensures Missing(st, id) ==> !AllWritten(Flat(st), Offset(id, o), InPage(o, n))
    ensures NoRoom(st, id) ==> Missing(st, id)
    ensures !Missing(st, id) ==> !NoRoom(st, id) && Obtained(st, id) == st
  {
    OffsetParts(id, o);
    MissingHere(st, Offset(id, o), InPage(o, n));
  }

  /** The word loaded from a page: the bytes up to the end of the page, then whatever lies beyond. */
  lemma WordAt(st: Store, p: nat, o: nat, beyond: seq<Byte>)
    requires Current(st, p) && o < PAGE_SIZE && |beyond| == 8
    requires Agrees(st.pages[p].bytes[o..], Flat(st), Offset(st.pages[p].id, o), InPage(o, 8))
    ensures |st.pages[p].bytes| == PAGE_SIZE
    ensures Agrees((st.pages[p].bytes[o..] + beyond)[..8], Flat(st), Offset(st.pages[p].id, o), InPage(o, 8))
  {
    assert Shaped(st.pages[p]);
    hide Flat, Find, Offset;
  }

  lemma MaskedIs(s: seq<Byte>, len: nat)
    requires |s| == 8 && len <= 8
    ensures (if len < 8 then Low(Value(s), len) else Value(s)) == Value(s[..len])
  {
    LowIs(s, len);
    if len == 8 { assert s[..8] == s; }
  }

  lemma AgreesLess(raw: seq<Byte>, m: Memory, off: nat, n: nat, len: nat)
    requires Agrees(raw, m, off, n) && len <= n
    ensures Agrees(raw[..len], m, off, len)
  {
  }

  lemma AgreesBoth(lo: seq<Byte>, hi: seq<Byte>, m: Memory, off: nat, k: nat, len: nat)
    requires |lo| == |hi| == 8 && 0 < k < len <= 8 && Agrees(lo, m, off, k) && Agrees(hi, m, off + k, 8)
    ensures Agrees((lo[..k] + hi[..8 - k])[..len], m, off, len)
  {
    var raw := (lo[..k] + hi[..8 - k])[..len];
    forall i: nat | i < len && off + i in m
      ensures raw[i] == m[off + i]
    {
      if i >= k { assert off + i == off + k + (i - k); }
    }
  }

  lemma AllWrittenBoth(m: Memory, off: nat, a: nat, b: nat)
    ensures AllWritten(m, off, a + b) <==> AllWritten(m, off, a) && AllWritten(m, off + a, b)
  {
  }

  /** How many of `n` bytes from `o` on lie in the page. */
  function InPage(o: nat, n: nat): nat
    requires o < PAGE_SIZE
  {
    if o + n <= PAGE_SIZE then n else PAGE_SIZE - o
  }

  /** The ids of the pages that `n` bytes from `off` on lie in. */
  ghost function Span(off: nat, n: nat): set<nat> {
    if n == 0 then {} else set i: nat | i <= (off + n - 1) / PAGE_SIZE && Touches(off, n, i)
  }

  /** The pages of a stretch are those that its bytes lie in. */
  lemma SpanIs(off: nat, n: nat, id: nat)
    ensures id in Span(off, n) <==> exists o: nat :: off <= o < off + n && o / PAGE_SIZE == id
  {
    if n > 0 {
      var last := off + n - 1;
      var o := if id == off / PAGE_SIZE then off else id * PAGE_SIZE;
      assert Touches(off, n, id) ==> off <= o <= last && o / PAGE_SIZE == id;
      forall b: nat | off <= b <= last
        ensures off / PAGE_SIZE <= b / PAGE_SIZE <= last / PAGE_SIZE
      {
      }
    }
  }

  ghost predicate Touches(off: nat, n: nat, id: nat) {
    n > 0 && off / PAGE_SIZE <= id <= (off + n - 1) / PAGE_SIZE
  }

  ghost function Lacking(st: Store, ids: set<nat>): set<nat>
    requires PagesShaped(st)
  {
    set i | i in ids && Missing(st, i)
  }

  /** There are not enough free pages for those of `ids` that are missing. */
  ghost predicate NoRoomFor(st: Store, ids: set<nat>)
    requires PagesShaped(st)
  {
    |st.pages| < st.used + |Lacking(st, ids)|
  }

  /** Just the pages of `ids` that were missing have been taken. */
  ghost predicate Takes(st: Store, u: Store, ids: set<nat>)
    requires PagesShaped(st) && PagesShaped(u)
  {
    && |u.pages| == |st.pages|
    && (forall i :: Missing(u, i) <==> Missing(st, i) && i !in ids)
    && u.used == st.used + |Lacking(st, ids)|
  }

  lemma TakesNone(st: Store)
    requires PagesShaped(st)
    ensures Takes(st, st, {})
  {
    assert Lacking(st, {}) == {};
  }

  lemma TakesBoth(st: Store, mid: Store, u: Store, a: set<nat>, b: set<nat>)
    requires PagesShaped(st) && PagesShaped(mid) && PagesShaped(u)
    requires Takes(st, mid, a) && Takes(mid, u, b)
    ensures Takes(st, u, a + b)
  {
    LackingBoth(st, mid, a, b);
  }

  lemma LackingBoth(st: Store, mid: Store, a: set<nat>, b: set<nat>)
    requires PagesShaped(st) && PagesShaped(mid) && Takes(st, mid, a)
    ensures |Lacking(st, a + b)| == |Lacking(st, a)| + |Lacking(mid, b)|
  {
    assert Lacking(st, a + b) == Lacking(st, a) + Lacking(mid, b);
    assert Lacking(st, a) * Lacking(mid, b) == {};
  }

  /** Whether there is room for more can be seen before or after some pages have been taken. */
  lemma RoomForMore(st: Store, mid: Store, a: set<nat>, b: set<nat>)
    requires PagesShaped(st) && PagesShaped(mid) && Takes(st, mid, a)
    ensures NoRoomFor(mid, b) <==> NoRoomFor(st, a + b)
  {
    LackingBoth(st, mid, a, b);
  }

  lemma RoomForFewer(st: Store, a: set<nat>, b: set<nat>)
    requires PagesShaped(st) && a <= b && NoRoomFor(st, a)
    ensures NoRoomFor(st, b)
  {
    assert Lacking(st, b) == Lacking(st, a) + (Lacking(st, b) - Lacking(st, a));
  }

  lemma TakenFits(st: Store, u: Store, ids: set<nat>)
    requires PagesShaped(st) && PagesShaped(u) && Takes(st, u, ids)
    ensures !NoRoomFor(st, ids)
  {
  }

  lemma SpanParts(off: nat, a: nat, b: nat)
    ensures Span(off, a) + Span(off + a, b) == Span(off, a + b)
  {
    if a > 0 && b > 0 {
      var x := off + a - 1;
      assert x / PAGE_SIZE <= (x + 1) / PAGE_SIZE <= x / PAGE_SIZE + 1;
    }
  }

  /** One page may have been taken, for `id`, and the memory is `m`. */
  ghost predicate StepsTo(st: Store, u: Store, id: nat, m: Memory)
    requires PagesShaped(st) && PagesShaped(u)
  {
    && Flat(u) == m && |u.pages| == |st.pages|
    && (forall i :: Missing(u, i) <==> Missing(st, i) && i != id)
    && u.used == st.used + if Missing(st, id) then 1 else 0
  }

  /** The same pages are missing and the same number is taken. */
  ghost predicate SameSpace(st: Store, u: Store)
    requires PagesShaped(st) && PagesShaped(u)
  {
    |u.pages| == |st.pages| && u.used == st.used && forall i :: Missing(u, i) <==> Missing(st, i)
  }

  lemma FoundPage(st: Store, id: nat)
    requires PagesShaped(st) && |st.table| > 0 && !Missing(st, id)
    ensures Obtained(st, id) == st && Current(st, Find(st.pages, st.used, id))
    ensures st.pages[Find(st.pages, st.used, id)].id == id
  {
  }

  lemma TakenPage(st: Store, id: nat)
    requires PagesShaped(st) && |st.table| > 0 && Missing(st, id) && st.used < |st.pages|
    ensures !NoRoom(st, id) && Obtained(st, id) == Taken(st, id) && Current(Taken(st, id), st.used)
    ensures Taken(st, id).pages[st.used].id == id && Flat(Taken(st, id)) == Flat(st)
  {
    TakenFlat(st, id);
    hide Flat;
  }

  lemma ObtainedStep(st: Store, id: nat)
    requires PagesShaped(st) && !NoRoom(st, id) && |st.table| > 0
    ensures PagesShaped(Obtained(st, id)) && StepsTo(st, Obtained(st, id), id, Flat(st))
  {
    if Missing(st, id) { TakenFlat(st, id); }
  }

  lemma StepCopy(st: Store, mid: Store, u: Store, id: nat, m: Memory)
    requires PagesShaped(st) && PagesShaped(mid) && PagesShaped(u)
    requires StepsTo(st, mid, id, Flat(st)) && SameSpace(mid, u) && Flat(u) == m
    ensures StepsTo(st, u, id, m)
  {
  }

  lemma TakesTwo(st: Store, mid: Store, u: Store, id: nat)
    requires PagesShaped(st) && PagesShaped(mid) && PagesShaped(u)
    requires Takes(st, mid, {id}) && Takes(mid, u, {id + 1})
    ensures Takes(st, u, {id, id + 1})
  {
    hide *;
    TakesBoth(st, mid, u, {id}, {id + 1});
    assert {id} + {id + 1} == {id, id + 1};
  }

  lemma StepTakes(st: Store, u: Store, id: nat, m: Memory)
    requires PagesShaped(st) && PagesShaped(u) && StepsTo(st, u, id, m)
    ensures Flat(u) == m && Takes(st, u, {id})
  {
    LackingOne(st, id);
  }

  lemma LackingOne(st: Store, id: nat)
    requires PagesShaped(st)
    ensures Lacking(st, {id}) == if Missing(st, id) then {id} else {}
  {
  }

  lemma RoomForOne(st: Store, id: nat)
    requires PagesShaped(st)
    ensures NoRoom(st, id) <==> NoRoomFor(st, {id})
    ensures NoRoom(st, id) ==> NoRoomFor(st, {id, id + 1})
  {
    LackingOne(st, id);
    if NoRoomFor(st, {id}) { RoomForFewer(st, {id}, {id, id + 1}); }
  }

  lemma RoomForTwo(st: Store, u: Store, id: nat)
    requires PagesShaped(st) && PagesShaped(u) && Takes(st, u, {id})
    ensures NoRoomFor(st, {id, id + 1}) <==> NoRoom(u, id + 1)
  {
    hide *;
    RoomForMore(st, u, {id}, {id + 1});
    assert {id} + {id + 1} == {id, id + 1};
    RoomForOne(u, id + 1);
  }

  lemma MissingHere(st: Store, off: nat, n: nat)
    requires PagesShaped(st) && n > 0
    ensures Missing(st, off / PAGE_SIZE) ==> !AllWritten(Flat(st), off, n)
  {
    assert off in Flat(st) <==> IsWritten(st, off);
  }

  lemma PagesOf(off: nat, len: nat)
    requires 1 <= len <= 8
    ensures var o := off % PAGE_SIZE;
      if PAGE_SIZE - o < len
      then (off + (PAGE_SIZE - o)) % PAGE_SIZE == 0 &&
        (off + (PAGE_SIZE - o)) / PAGE_SIZE == (off + len - 1) / PAGE_SIZE == off / PAGE_SIZE + 1
      else (off + len - 1) / PAGE_SIZE == off / PAGE_SIZE
  {
  }

  /** The first `n` bytes of `raw` are those of the memory from `off` on, where it has been written. */
  ghost predicate Agrees(raw: seq<Byte>, m: Memory, off: nat, n: nat) {
    n <= |raw| && forall i: nat :: i < n && off + i in m ==> raw[i] == m[off + i]
  }

  lemma StoredBoth(m: Memory, off: nat, s: seq<Byte>, k: nat)
    requires k <= |s|
    ensures Stored(Stored(m, off, s[..k]), off + k, s[k..]) == Stored(m, off, s)
  {
  }

  /** The page in use for its id. */
  ghost predicate Current(st: Store, p: nat) {
    PagesShaped(st) && p < st.used && p == Find(st.pages, st.used, st.pages[p].id)
  }

  /** What the page says about an access is what the flat memory says. */
  lemma PageWritten(st: Store, p: nat, o: nat, n: nat)
    requires Current(st, p) && o < PAGE_SIZE
    ensures AllInit(st.pages[p], o, n) <==> AllWritten(Flat(st), Offset(st.pages[p].id, o), InPage(o, n))
    ensures Agrees(st.pages[p].bytes[o..], Flat(st), Offset(st.pages[p].id, o), InPage(o, n))
  {
    hide AllInit, AllWritten, Flat, Find, Agrees;
    if AllInit(st.pages[p], o, n) { PageInit(st, p, o, n); }
    if AllWritten(Flat(st), Offset(st.pages[p].id, o), InPage(o, n)) { InitPage(st, p, o, n); }
    PageBytes(st, p, o, n);
  }

  lemma PageInit(st: Store, p: nat, o: nat, n: nat)
    requires Current(st, p) && o < PAGE_SIZE && AllInit(st.pages[p], o, n)
    ensures AllWritten(Flat(st), Offset(st.pages[p].id, o), InPage(o, n))
  {
    var m, base := Flat(st), Offset(st.pages[p].id, o);
    hide Flat, IsInit, Find;
    forall a: nat | base <= a < base + InPage(o, n)
      ensures a in m
    {
      ByteOfPage(st, p, o + (a - base));
    }
  }

  lemma InitPage(st: Store, p: nat, o: nat, n: nat)
    requires Current(st, p) && o < PAGE_SIZE && AllWritten(Flat(st), Offset(st.pages[p].id, o), InPage(o, n))
    ensures AllInit(st.pages[p], o, n)
  {
    hide Flat, IsInit, Find;
    forall k: nat | o <= k < o + n && k < PAGE_SIZE
      ensures IsInit(st.pages[p], k)
    {
      ByteOfPage(st, p, k);
    }
  }

  lemma PageBytes(st: Store, p: nat, o: nat, n: nat)
    requires Current(st, p) && o < PAGE_SIZE
    ensures Agrees(st.pages[p].bytes[o..], Flat(st), Offset(st.pages[p].id, o), InPage(o, n))
  {
    assert Shaped(st.pages[p]);
    hide Flat, Find, PagesShaped, Offset, Current;
    forall i: nat | i < InPage(o, n)
      ensures Offset(st.pages[p].id, o) + i in Flat(st) ==>
        st.pages[p].bytes[o..][i] == Flat(st)[Offset(st.pages[p].id, o) + i]
    {
      PageByteAt(st, p, o, i);
    }
  }

  lemma PageByteAt(st: Store, p: nat, o: nat, i: nat)
    requires Current(st, p) && o + i < PAGE_SIZE
    ensures o < |st.pages[p].bytes| && i < |st.pages[p].bytes[o..]|
    ensures Offset(st.pages[p].id, o) + i in Flat(st) ==>
      st.pages[p].bytes[o..][i] == Flat(st)[Offset(st.pages[p].id, o) + i]
  {
    hide Flat, Find, IsInit, Offset;
    assert Shaped(st.pages[p]);
    ByteOfPage(st, p, o + i);
    OffsetPlus(st.pages[p].id, o, i);
    hide *;
    BytesFrom(st.pages[p].bytes, o, i);
  }

  lemma OffsetPlus(id: nat, o: nat, i: nat)
    ensures Offset(id, o) + i == Offset(id, o + i)
  {
  }

  lemma BytesFrom(bytes: seq<Byte>, o: nat, i: nat)
    requires o + i < |bytes|
    ensures |bytes[o..]| == |bytes| - o && bytes[o..][i] == bytes[o + i]
  {
  }

  ghost predicate NoRoom(st: Store, id: nat)
    requires PagesShaped(st)
  {
    Missing(st, id) && st.used == |st.pages|
  }

  ghost function Obtained(st: Store, id: nat): Store
    requires PagesShaped(st) && !NoRoom(st, id) && |st.table| > 0
  {
    if Missing(st, id) then Taken(st, id) else st
  }

  /** The bytes of an access that lie in the page have all been written. */
  ghost predicate AllInit(pg: Page, o: nat, n: nat)
    requires Shaped(pg)
  {
    forall k: nat :: o <= k < o + n && k < PAGE_SIZE ==> IsInit(pg, k)
  }

  /** The list of a bucket holds every page with an id of that bucket. */
  lemma NotInChain(st: Store, chains: seq<seq<nat>>, id: nat)
    requires Sound(st, chains)
    requires forall j ::
      0 <= j < |chains[Bucket(id, |st.table|)]| ==> Differs(st, chains[Bucket(id, |st.table|)][j], id)
    ensures Missing(st, id)
  {
    hide Bucket;
    forall q: nat | q < st.used
      ensures st.pages[q].id != id
    {
      var c := chains[Bucket(st.pages[q].id, |st.table|)];
      var k :| 0 <= k < |c| && c[k] == q;
    }
  }

  ghost predicate Differs(st: Store, p: nat, id: nat) {
    p < |st.pages| && st.pages[p].id != id
  }

  lemma InUse(st: Store, chains: seq<seq<nat>>, b: nat, k: nat)
    requires Sound(st, chains) && b < |chains| && k < |chains[b]|
    ensures chains[b][k] < st.used && st.pages[chains[b][k]].next == First(chains[b], k + 1)
  {
    assert Chained(st, b, chains[b]);
    assert LinkOk(st, b, chains[b], k);
  }

  lemma FindUnique(st: Store, p: nat)
    requires st.used <= |st.pages| && DistinctIds(st) && p < st.used
    ensures Find(st.pages, st.used, st.pages[p].id) == p
  {
  }

  lemma InitNone(pg: Page, o: nat)
    requires Shaped(pg)
    ensures AllInit(pg, o, 0)
  {
  }

  lemma InitOne(pg: Page, o: nat, i: nat, n: nat, idx: nat, bit: nat)
    requires Shaped(pg) && idx < PAGE_SIZE / 8 && bit < 8 && idx * 8 + bit == o + i && i < n
    ensures AllInit(pg, o, i) && HasBit(pg.initSet[idx], bit) ==> AllInit(pg, o, i + 1)
    ensures AllInit(pg, o, n) ==> HasBit(pg.initSet[idx], bit)
  {
    PlaceOf(idx, bit, o + i);
    hide HasBit, Mask;
    assert o + i < PAGE_SIZE && (IsInit(pg, o + i) <==> HasBit(pg.initSet[idx], bit));
    hide IsInit;
  }

  lemma InitToEnd(pg: Page, o: nat, i: nat, n: nat)
    requires Shaped(pg) && i <= n && (i == n || o + i >= PAGE_SIZE)
    ensures AllInit(pg, o, i) <==> AllInit(pg, o, n)
  {
    hide IsInit;
  }

  lemma MarkedNone(pg: Page, o: nat)
    requires Shaped(pg)
    ensures Marked(pg, pg, o, 0)
  {
  }

  lemma MarkOne(was: Page, pg: Page, o: nat, i: nat, idx: nat, bit: nat)
    requires Marked(was, pg, o, i) && idx < PAGE_SIZE / 8 && bit < 8 && idx * 8 + bit == o + i
    ensures |pg.initSet| == PAGE_SIZE / 8
    ensures Marked(was, pg.(initSet := pg.initSet[idx := WithBit(pg.initSet[idx], bit)]), o, i + 1)
  {
    var out := pg.(initSet := pg.initSet[idx := WithBit(pg.initSet[idx], bit)]);
    forall k: nat | k < PAGE_SIZE
      ensures IsInit(out, k) <==> IsInit(was, k) || o <= k < o + (i + 1)
    {
      assert IsInit(pg, k) <==> IsInit(was, k) || o <= k < o + i;
      BitOf(pg, idx, bit, k);
    }
  }

  lemma BitOf(pg: Page, idx: nat, bit: nat, k: nat)
    requires Shaped(pg) && idx < PAGE_SIZE / 8 && bit < 8 && k < PAGE_SIZE
    ensures var out := pg.(initSet := pg.initSet[idx := WithBit(pg.initSet[idx], bit)]);
      Shaped(out) && (IsInit(out, k) <==> IsInit(pg, k) || k == idx * 8 + bit)
  {
    PlaceOf(idx, bit, k);
    if k / 8 == idx { SetBit(pg.initSet[idx], bit, k % 8); }
    hide HasBit, Mask;
  }

  lemma PlaceOf(idx: nat, bit: nat, k: nat)
    requires bit < 8
    ensures k == idx * 8 + bit <==> k / 8 == idx && k % 8 == bit
  {
  }

  lemma MarkedToEnd(was: Page, pg: Page, o: nat, i: nat, n: nat)
    requires Marked(was, pg, o, i) && i <= n && (i == n || o + i >= PAGE_SIZE)
    ensures Marked(was, pg, o, n)
  {
    hide IsInit;
  }

  lemma MarkedSound(st: Store, chains: seq<seq<nat>>, p: nat, out: Page, o: nat, n: nat)
    requires Sound(st, chains) && p < |st.pages| && Marked(st.pages[p], out, o, n)
    ensures Sound(st.(pages := st.pages[p := out]), chains)
  {
    hide Sound, IsInit;
    WrittenSound(st, chains, p, out);
  }
}
