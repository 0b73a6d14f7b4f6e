/** Whole runs of the proxy's object cache, one call after the other (cache.c). */
module CacheRuns {
  import opened CacheSpec
  import opened ObjectCache

  datatype Op = Write(key: string, value: seq<bv8>) | Get(key: string)

  /** write_node with this object runs into the head of the list. */
  ghost predicate Crashes(es: seq<Entry>, op: Op) {
    op.Write? && !HasKey(es, op.key) && |op.value| > MAX_CACHE_SIZE
  }

  ghost function PlaceOf(es: seq<Entry>, key: string): (i: nat)
    requires HasKey(es, key)
    ensures i < |es| && es[i].key == key
  {
    var i :| 0 <= i < |es| && es[i].key == key;
    i
  }

  ghost function Then(es: seq<Entry>, op: Op): seq<Entry> {
    match op
    case Write(key, value) =>
      if HasKey(es, key) || |value| > MAX_CACHE_SIZE then es
      else [Entry(key, value)] + Kept(es, MAX_CACHE_SIZE - |value|)
    case Get(key) => if HasKey(es, key) then ToFront(es, PlaceOf(es, key)) else es
  }

  /** What is in the cache after a run from the start. */
  ghost function After(ops: seq<Op>): seq<Entry> {
    if ops == [] then [] else Then(After(ops[..|ops| - 1]), ops[|ops| - 1])
  }

  lemma OnePlace(es: seq<Entry>, i: nat, key: string)
    requires DistinctKeys(es) && i < |es| && es[i].key == key
    ensures HasKey(es, key) && PlaceOf(es, key) == i
  {
  }

  lemma AfterNext(ops: seq<Op>, k: nat)
    requires k < |ops|
    ensures After(ops[..k + 1]) == Then(After(ops[..k]), ops[k]) && After(ops[..0]) == []
  {
    assert ops[..k + 1][..k] == ops[..k];
  }

  lemma AfterLast(before: seq<Op>, op: Op)
    ensures After(before + [op]) == Then(After(before), op)
  {
    assert (before + [op])[..|before|] == before;
  }

  // ----- The code

  method Do(cache: ObjectCache, op: Op) returns (crashed: bool)
    requires cache.Valid()
    modifies cache, cache.head, cache.tail, cache.nodes
    ensures crashed <==> Crashes(old(cache.Contents()), op)
    ensures !crashed ==> cache.Valid() && cache.Contents() == Then(old(cache.Contents()), op)
    ensures !crashed ==> forall n :: n in cache.nodes ==> n in old(cache.nodes) || fresh(n)
  {
    hide *;
    ghost var es := cache.Contents();
    DistinctIn(cache);
    match op {
      case Write(key, value) =>
        WriteIs(es, key, value);
        crashed := cache.WriteNode(key, value);
      case Get(key) =>
        ghost var i;
        var found, value;
        found, value, i := cache.GetValue(key);
        GetIs(es, key, found, i);
        crashed := false;
    }
  }

  lemma DistinctIn(cache: ObjectCache)
    requires cache.Valid()
    ensures DistinctKeys(cache.Contents()) && Total(cache.Contents()) <= MAX_CACHE_SIZE
  {
  }

  lemma WriteIs(es: seq<Entry>, key: string, value: seq<bv8>)
    ensures Crashes(es, Write(key, value)) <==> !HasKey(es, key) && |value| > MAX_CACHE_SIZE
    ensures Crashes(es, Write(key, value)) || Then(es, Write(key, value)) ==
      if HasKey(es, key) then es else [Entry(key, value)] + Kept(es, MAX_CACHE_SIZE - |value|)
  {
  }

  lemma GetIs(es: seq<Entry>, key: string, found: bool, i: nat)
    requires DistinctKeys(es) && (found <==> HasKey(es, key)) && (found ==> i < |es| && es[i].key == key)
    ensures !Crashes(es, Get(key)) && Then(es, Get(key)) == if found then ToFront(es, i) else es
  {
    if found { OnePlace(es, i, key); }
  }

  /** The calls of a run. It ends early only at a call that crashes. */
  method Run(ops: seq<Op>) returns (cache: ObjectCache, done: nat, crashed: bool)
    ensures done <= |ops|
    ensures if crashed then done < |ops| && Crashes(After(ops[..done]), ops[done])
      else done == |ops| && cache.Valid() && cache.Contents() == After(ops)
  {
    hide *;
    cache := new ObjectCache();
    NodesAmong(cache);
    done, crashed := 0, false;
    if ops != [] { AfterNext(ops, 0); } else { AfterNone(); }
    assert ops == [] ==> ops[..0] == [];
    while done < |ops|
      invariant done <= |ops| && cache.Valid() && cache.Contents() == After(ops[..done])
      invariant fresh(cache) && fresh(cache.head) && fresh(cache.tail) && forall n :: n in cache.nodes ==> fresh(n)
      invariant !crashed
    {
      AfterNext(ops, done);
      forall i | 0 <= i < |cache.nodes|
        ensures fresh(cache.nodes[i])
      {
        assert cache.nodes[i] in cache.nodes;
      }
      crashed := Do(cache, ops[done]);
      if crashed {
        return;
      }
      done := done + 1;
    }
    assert ops[..done] == ops;
  }

  lemma AfterNone()
    ensures After([]) == []
  {
  }

  lemma NodesAmong(cache: ObjectCache)
    ensures cache.head in cache.All() && cache.tail in cache.All()
    ensures forall n :: n in cache.nodes ==> n in cache.All()
  {
    assert cache.All()[0] == cache.head && cache.All()[|cache.nodes| + 1] == cache.tail;
  }

  // ----- The order of use

  /** The call uses the object: it asks for it, or brings it in. */
  ghost predicate Uses(es: seq<Entry>, op: Op, key: string) {
    op.key == key && (op.Get? || !HasKey(es, key))
  }

  /** The last call that used the object, or -1. */
  ghost function LastUse(ops: seq<Op>, key: string): (k: int)
    ensures -1 <= k < |ops|
  {
    if ops == [] then -1
    else if Uses(After(ops[..|ops| - 1]), ops[|ops| - 1], key) then |ops| - 1
    else LastUse(ops[..|ops| - 1], key)
  }

  ghost predicate InOrder(es: seq<Entry>, ops: seq<Op>) {
    forall i, j :: 0 <= i < j < |es| ==> LastUse(ops, es[i].key) > LastUse(ops, es[j].key)
  }

  lemma LastUseNext(before: seq<Op>, op: Op, key: string)
    ensures LastUse(before + [op], key) == if Uses(After(before), op, key) then |before| else LastUse(before, key)
  {
    assert (before + [op])[..|before|] == before;
  }

  /** An object that is used goes in front of others that keep their order. */
  lemma FrontInOrder(e: Entry, rest: seq<Entry>, before: seq<Op>, op: Op)
    requires InOrder(rest, before) && e.key == op.key && Uses(After(before), op, op.key)
    requires forall i :: 0 <= i < |rest| ==> rest[i].key != op.key
    ensures InOrder([e] + rest, before + [op])
  {
    var now := [e] + rest;
    hide After, LastUse;
    forall i, j | 0 <= i < j < |now|
      ensures LastUse(before + [op], now[i].key) > LastUse(before + [op], now[j].key)
    {
      LastUseNext(before, op, now[i].key);
      LastUseNext(before, op, now[j].key);
    }
  }

  lemma StaysInOrder(es: seq<Entry>, before: seq<Op>, op: Op)
    requires InOrder(es, before) && forall i :: 0 <= i < |es| ==> !Uses(After(before), op, es[i].key)
    ensures InOrder(es, before + [op])
  {
    hide After, LastUse, Uses;
    forall i, j | 0 <= i < j < |es|
      ensures LastUse(before + [op], es[i].key) > LastUse(before + [op], es[j].key)
    {
      LastUseNext(before, op, es[i].key);
      LastUseNext(before, op, es[j].key);
    }
  }

  lemma WithoutInOrder(es: seq<Entry>, p: nat, ops: seq<Op>)
    requires InOrder(es, ops) && DistinctKeys(es) && p < |es|
    ensures InOrder(Without(es, p), ops)
    ensures forall i :: 0 <= i < |Without(es, p)| ==> Without(es, p)[i].key != es[p].key
  {
    hide LastUse;
    assert forall i :: 0 <= i < |Without(es, p)| ==> Without(es, p)[i] == es[if i < p then i else i + 1];
  }

  lemma PrefixInOrder(es: seq<Entry>, m: nat, ops: seq<Op>, key: string)
    requires InOrder(es, ops) && DistinctKeys(es) && m <= |es| && !HasKey(es, key)
    ensures InOrder(es[..m], ops) && DistinctKeys(es[..m]) && !HasKey(es[..m], key)
  {
    hide LastUse;
  }

  /** What holds after every run. */
  ghost predicate Ordered(es: seq<Entry>, ops: seq<Op>) {
    DistinctKeys(es) && InOrder(es, ops) && Total(es) <= MAX_CACHE_SIZE
  }

  lemma GetKeeps(es: seq<Entry>, before: seq<Op>, key: string)
    requires es == After(before) && Ordered(es, before)
    ensures Ordered(Then(es, Get(key)), before + [Get(key)])
  {
    hide After, InOrder, Total;
    if HasKey(es, key) {
      var p := PlaceOf(es, key);
      DistinctToFront(es, p);
      TotalToFront(es, p);
      WithoutInOrder(es, p, before);
      FrontInOrder(es[p], Without(es, p), before, Get(key));
    } else {
      StaysInOrder(es, before, Get(key));
    }
  }

  lemma WriteKeeps(es: seq<Entry>, before: seq<Op>, key: string, value: seq<bv8>)
    requires es == After(before) && Ordered(es, before)
    ensures Ordered(Then(es, Write(key, value)), before + [Write(key, value)])
  {
    hide After, InOrder, Total, Kept;
    if HasKey(es, key) || |value| > MAX_CACHE_SIZE {
      StaysInOrder(es, before, Write(key, value));
    } else {
      var room := MAX_CACHE_SIZE - |value|;
      var m := |Kept(es, room)|;
      KeptIsLongest(es, room);
      PrefixInOrder(es, m, before, key);
      AddFirst(Entry(key, value), es[..m]);
      FrontInOrder(Entry(key, value), es[..m], before, Write(key, value));
    }
  }

  /** After every run the keys differ and the objects are in the order of their last use, the latest first; they
      take no more room than the cache has. */
  lemma {:induction false} OrderOfUse(ops: seq<Op>)
    ensures Ordered(After(ops), ops)
  {
    if ops == [] {
      TotalNone();
    } else {
      var before, op := ops[..|ops| - 1], ops[|ops| - 1];
      assert ops == before + [op];
      AfterLast(before, op);
      hide *;
      OrderOfUse(before);
      match op {
        case Write(key, value) => WriteKeeps(After(before), before, key, value);
        case Get(key) => GetKeeps(After(before), before, key);
      }
    }
  }

  // ----- The bytes

  /** Call `k` brings the object in, and it has been there since. */
  ghost predicate BroughtIn(ops: seq<Op>, k: nat, e: Entry) {
    && k < |ops| && ops[k] == Write(e.key, e.value) && !HasKey(After(ops[..k]), e.key)
    && forall m :: k < m <= |ops| ==> HasKey(After(ops[..m]), e.key)
  }

  /** The bytes of an object are those of the call that brought it in. */
  lemma {:induction false} BytesStored(ops: seq<Op>, e: Entry)
    requires e in After(ops)
    ensures exists k: nat :: BroughtIn(ops, k, e)
  {
    if ops == [] {
      AfterNone();
    } else {
      hide *;
      var before, op := ops[..|ops| - 1], ops[|ops| - 1];
      var es := After(before);
      assert ops == before + [op];
      AfterLast(before, op);
      InKey(After(ops), e);
      Before(es, op, e);
      if e in es {
        BytesStored(before, e);
        var k: nat :| BroughtIn(before, k, e);
        StillIn(before, op, k, e);
      } else {
        JustIn(before, op, e);
      }
    }
  }

  lemma StillIn(before: seq<Op>, op: Op, k: nat, e: Entry)
    requires BroughtIn(before, k, e) && HasKey(After(before + [op]), e.key)
    ensures BroughtIn(before + [op], k, e)
  {
    hide After, HasKey;
    var ops := before + [op];
    assert ops[..|ops|] == ops;
    forall m | k < m <= |ops|
      ensures HasKey(After(ops[..m]), e.key)
    {
      if m <= |before| { assert ops[..m] == before[..m]; }
    }
    assert ops[..k] == before[..k];
  }

  lemma JustIn(before: seq<Op>, op: Op, e: Entry)
    requires op == Write(e.key, e.value) && !HasKey(After(before), e.key) && HasKey(After(before + [op]), e.key)
    ensures BroughtIn(before + [op], |before|, e)
  {
    hide After, HasKey;
    var ops := before + [op];
    assert ops[..|ops|] == ops && ops[..|before|] == before;
  }

  lemma InKey(es: seq<Entry>, e: Entry)
    requires e in es
    ensures HasKey(es, e.key)
  {
  }

  /** An object was there before, or is the one brought in. */
  lemma Before(es: seq<Entry>, op: Op, e: Entry)
    requires e in Then(es, op)
    ensures e in es || (op == Write(e.key, e.value) && !HasKey(es, e.key))
  {
    if op.Write? && !HasKey(es, op.key) && |op.value| <= MAX_CACHE_SIZE {
      KeptIsLongest(es, MAX_CACHE_SIZE - |op.value|);
    }
  }
}
