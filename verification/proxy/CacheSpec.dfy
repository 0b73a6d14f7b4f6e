/** The proxy's object cache as a sequence, the most recently used object first (cache.c). */
module CacheSpec {

  const MAX_CACHE_SIZE: nat := 1024 * 1024

  /** An object; its size is the length of its value. */
  datatype Entry = Entry(key: string, value: seq<bv8>)

  ghost function Total(es: seq<Entry>): nat {
    if es == [] then 0 else Total(es[..|es| - 1]) + |es[|es| - 1].value|
  }

  ghost predicate DistinctKeys(es: seq<Entry>) {
    forall i, j :: 0 <= i < j < |es| ==> es[i].key != es[j].key
  }

  ghost predicate HasKey(es: seq<Entry>, key: string) {
    exists i :: 0 <= i < |es| && es[i].key == key
  }

  ghost function Without(es: seq<Entry>, i: nat): seq<Entry>
    requires i < |es|
  {
    es[..i] + es[i + 1..]
  }

  /** The object in place `i` becomes the most recently used one. */
  ghost function ToFront(es: seq<Entry>, i: nat): seq<Entry>
    requires i < |es|
  {
    [es[i]] + Without(es, i)
  }

  /** What stays when least recently used objects go until the rest takes at most `room`. */
  ghost function Kept(es: seq<Entry>, room: nat): (r: seq<Entry>)
    ensures |r| <= |es|
  {
    if Total(es) <= room then es
    else
      TotalNone();
      Kept(es[..|es| - 1], room)
  }

  lemma TotalNone()
    ensures Total([]) == 0
  {
  }

  lemma {:induction false} TotalConcat(a: seq<Entry>, b: seq<Entry>)
    ensures Total(a + b) == Total(a) + Total(b)
  {
    if b == [] {
      assert a + b == a;
    } else {
      assert (a + b)[..|a + b| - 1] == a + b[..|b| - 1];
      TotalConcat(a, b[..|b| - 1]);
    }
  }

  /** A longer prefix takes at least as much room. */
  lemma TotalPrefix(es: seq<Entry>, j: nat, k: nat)
    requires j <= k <= |es|
    ensures Total(es[..j]) <= Total(es[..k])
  {
    assert es[..k] == es[..j] + es[j..k];
    TotalConcat(es[..j], es[j..k]);
  }

  /** The shortest suffix goes that makes room: a prefix fits exactly when it is no longer than what stays. */
  lemma {:induction false} KeptIsLongest(es: seq<Entry>, room: nat)
    ensures Kept(es, room) == es[..|Kept(es, room)|]
    ensures forall k :: 0 <= k <= |es| ==> (Total(es[..k]) <= room <==> k <= |Kept(es, room)|)
    decreases |es|
  {
    if Total(es) <= room {
      assert es[..|es|] == es;
      forall k | 0 <= k <= |es|
        ensures Total(es[..k]) <= room
      {
        TotalPrefix(es, k, |es|);
      }
    } else {
      TotalNone();
      var rest := es[..|es| - 1];
      KeptIsLongest(rest, room);
      assert es[..|es|] == es;
      forall k | 0 <= k < |es|
        ensures Total(es[..k]) <= room <==> k <= |Kept(es, room)|
      {
        assert es[..k] == rest[..k];
      }
    }
  }

  lemma TotalToFront(es: seq<Entry>, i: nat)
    requires i < |es|
    ensures Total(es) == Total(Without(es, i)) + |es[i].value| == Total(ToFront(es, i))
  {
    TotalOne(es[i]);
    assert es == es[..i] + ([es[i]] + es[i + 1..]);
    TotalConcat(es[..i], [es[i]] + es[i + 1..]);
    TotalConcat([es[i]], es[i + 1..]);
    TotalConcat(es[..i], es[i + 1..]);
    TotalConcat([es[i]], Without(es, i));
  }

  lemma TotalOne(e: Entry)
    ensures Total([e]) == |e.value|
  {
    assert [e][..0] == [];
  }

  lemma DistinctToFront(es: seq<Entry>, i: nat)
    requires i < |es| && DistinctKeys(es)
    ensures DistinctKeys(Without(es, i)) && DistinctKeys(ToFront(es, i))
  {
    var w := Without(es, i);
    assert forall k :: 0 <= k < |w| ==> w[k] == es[if k < i then k else k + 1];
  }

  lemma AddFirst(e: Entry, es: seq<Entry>)
    requires DistinctKeys(es) && !HasKey(es, e.key)
    ensures DistinctKeys([e] + es) && Total([e] + es) == Total(es) + |e.value|
  {
    TotalOne(e);
    TotalConcat([e], es);
  }

  /** As long as the new object does not fit, letting the last one go does not change what stays in the end. */
  lemma WithoutLast(es: seq<Entry>, room: nat, key: string)
    requires es != [] && DistinctKeys(es) && !HasKey(es, key)
    ensures Without(es, |es| - 1) == es[..|es| - 1]
    ensures Total(es) > room ==> Kept(es[..|es| - 1], room) == Kept(es, room)
    ensures DistinctKeys(es[..|es| - 1]) && !HasKey(es[..|es| - 1], key)
  {
    assert forall i :: 0 <= i < |es| - 1 ==> es[..|es| - 1][i] == es[i];
  }

  lemma KeptAll(es: seq<Entry>, room: nat)
    ensures Total(es) <= room ==> Kept(es, room) == es
  {
  }
}
