/** The k-best sampler of fcyc.c. Samples are reals: only their order matters. */
module KBest {

  ghost predicate Sorted(s: seq<real>) {
    forall i, j :: 0 <= i < j < |s| ==> s[i] <= s[j]
  }

  /** The place of a sample among sorted ones: after all that are not larger. */
  ghost function Place(s: seq<real>, v: real): (p: nat)
    ensures p <= |s| && (p > 0 ==> s[p - 1] <= v)
    ensures forall i :: p <= i < |s| ==> s[i] > v
  {
    if s == [] || s[|s| - 1] <= v then |s| else Place(s[..|s| - 1], v)
  }

  ghost function Insert(s: seq<real>, v: real): seq<real> {
    s[..Place(s, v)] + [v] + s[Place(s, v)..]
  }

  /** All samples, in order. */
  ghost function InOrder(samples: seq<real>): seq<real> {
    if samples == [] then [] else Insert(InOrder(samples[..|samples| - 1]), samples[|samples| - 1])
  }

  ghost function Take(s: seq<real>, k: nat): seq<real> {
    if |s| <= k then s else s[..k]
  }

  lemma InsertSorted(s: seq<real>, v: real)
    requires Sorted(s)
    ensures Sorted(Insert(s, v)) && multiset(Insert(s, v)) == multiset(s) + multiset{v}
  {
    var p := Place(s, v);
    InsertMembers(s, v, p);
    InsertOrdered(s, v, p);
  }

  lemma InsertedLength(s: seq<real>, v: real)
    ensures |Insert(s, v)| == |s| + 1
  {
  }

  lemma InsertMembers(s: seq<real>, v: real, p: nat)
    requires p <= |s|
    ensures multiset(s[..p] + [v] + s[p..]) == multiset(s) + multiset{v}
  {
    assert s == s[..p] + s[p..];
  }

  lemma InsertOrdered(s: seq<real>, v: real, p: nat)
    requires Sorted(s) && p <= |s| && (p > 0 ==> s[p - 1] <= v) && forall i :: p <= i < |s| ==> s[i] > v
    ensures Sorted(s[..p] + [v] + s[p..])
  {
    var out := s[..p] + [v] + s[p..];
    assert forall i :: 0 <= i < p ==> out[i] == s[i] <= v;
    assert forall i :: p < i < |out| ==> out[i] == s[i - 1] > v;
    assert out[p] == v;
  }

  /** The order holds every sample once. */
  lemma {:induction false} InOrderSorts(samples: seq<real>)
    ensures Sorted(InOrder(samples)) && multiset(InOrder(samples)) == multiset(samples)
    ensures |InOrder(samples)| == |samples|
  {
    if samples != [] {
      var n := |samples| - 1;
      hide Insert, Sorted;
      assert InOrder(samples) == Insert(InOrder(samples[..n]), samples[n]);
      InOrderSorts(samples[..n]);
      InsertedLength(InOrder(samples[..n]), samples[n]);
      InsertSorted(InOrder(samples[..n]), samples[n]);
      LastMember(samples);
    }
  }

  lemma LastMember(s: seq<real>)
    requires s != []
    ensures multiset(s) == multiset(s[..|s| - 1]) + multiset{s[|s| - 1]}
  {
    assert s == s[..|s| - 1] + [s[|s| - 1]];
  }

  /** The first k of the order are the k smallest samples: no sample left over is smaller than one of them. */
  lemma TakeIsSmallest(samples: seq<real>, k: nat)
    ensures var best, rest := Take(InOrder(samples), k), InOrder(samples)[|Take(InOrder(samples), k)|..];
      && Sorted(best) && |best| == (if |samples| < k then |samples| else k)
      && multiset(best) + multiset(rest) == multiset(samples)
      && forall i, j :: 0 <= i < |best| && 0 <= j < |rest| ==> best[i] <= rest[j]
  {
    InOrderSorts(samples);
    SplitSorted(InOrder(samples), |Take(InOrder(samples), k)|);
  }

  lemma SplitSorted(s: seq<real>, m: nat)
    requires Sorted(s) && m <= |s|
    ensures Sorted(s[..m]) && multiset(s[..m]) + multiset(s[m..]) == multiset(s) && s[..|s|] == s
    ensures forall i, j :: 0 <= i < m && 0 <= j < |s| - m ==> s[..m][i] <= s[m..][j]
  {
    assert s == s[..m] + s[m..];
    assert s[..|s|] == s;
  }

  /** There is just one such place. */
  lemma {:induction false} PlaceUnique(s: seq<real>, v: real, p: nat)
    requires p <= |s| && (p > 0 ==> s[p - 1] <= v) && forall i :: p <= i < |s| ==> s[i] > v
    ensures Place(s, v) == p
  {
    if s != [] && s[|s| - 1] > v {
      PlaceUnique(s[..|s| - 1], v, p);
    }
  }

  /** Inserting into the k best, without the last if they are k, gives the k best with the new sample. */
  lemma TakeInsert(s: seq<real>, v: real, k: nat)
    requires Sorted(s) && k > 0
    ensures |s| < k ==> Take(Insert(s, v), k) == Insert(s, v)
    ensures |s| >= k && v < s[k - 1] ==> Take(Insert(s, v), k) == Insert(s[..k - 1], v)
    ensures |s| >= k && v >= s[k - 1] ==> Take(Insert(s, v), k) == s[..k]
  {
    var p := Place(s, v);
    hide Place, Sorted;
    if |s| >= k {
      BoundaryPlace(s, v, k);
      if v < s[k - 1] { PlaceUnique(s[..k - 1], v, p); }
    }
  }

  /** The new sample is among the k smallest exactly when it is smaller than the k-th. */
  lemma BoundaryPlace(s: seq<real>, v: real, k: nat)
    requires Sorted(s) && 0 < k <= |s|
    ensures Place(s, v) < k <==> v < s[k - 1]
  {
  }

  // ----- How many samples are within a bound

  ghost function CountUpTo(s: seq<real>, bound: real): (n: nat)
    ensures n <= |s|
  {
    if s == [] then 0 else CountUpTo(s[..|s| - 1], bound) + if s[|s| - 1] <= bound then 1 else 0
  }

  lemma {:induction false} CountConcat(a: seq<real>, b: seq<real>, bound: real)
    ensures CountUpTo(a + b, bound) == CountUpTo(a, bound) + CountUpTo(b, bound)
  {
    if b == [] {
      assert a + b == a;
    } else {
      assert (a + b)[..|a + b| - 1] == a + b[..|b| - 1];
      CountConcat(a, b[..|b| - 1], bound);
    }
  }

  lemma CountInsert(s: seq<real>, v: real, bound: real)
    ensures CountUpTo(Insert(s, v), bound) == CountUpTo(s, bound) + if v <= bound then 1 else 0
  {
    var p := Place(s, v);
    hide Place;
    assert s == s[..p] + s[p..];
    assert [v][..0] == [];
    CountConcat(s[..p], s[p..], bound);
    CountConcat(s[..p], [v], bound);
    CountConcat(s[..p] + [v], s[p..], bound);
  }

  lemma {:induction false} CountInOrder(samples: seq<real>, bound: real)
    ensures CountUpTo(InOrder(samples), bound) == CountUpTo(samples, bound)
  {
    if samples != [] {
      var n := |samples| - 1;
      CountInOrder(samples[..n], bound);
      CountInsert(InOrder(samples[..n]), samples[n], bound);
    }
  }

  lemma {:induction false} CountAll(s: seq<real>, bound: real)
    ensures (forall i :: 0 <= i < |s| ==> s[i] <= bound) ==> CountUpTo(s, bound) == |s|
    ensures (forall i :: 0 <= i < |s| ==> s[i] > bound) ==> CountUpTo(s, bound) == 0
  {
    if s != [] { CountAll(s[..|s| - 1], bound); }
  }

  /** The k-th of sorted samples is within a bound exactly when at least k are. */
  lemma CountSorted(s: seq<real>, bound: real, k: nat)
    requires Sorted(s) && 0 < k <= |s|
    ensures s[k - 1] <= bound <==> CountUpTo(s, bound) >= k
  {
    if s[k - 1] <= bound { FrontWithin(s, bound, k); } else { BackAbove(s, bound, k); }
  }

  lemma FrontWithin(s: seq<real>, bound: real, k: nat)
    requires Sorted(s) && 0 < k <= |s| && s[k - 1] <= bound
    ensures CountUpTo(s, bound) >= k
  {
    var front, back := s[..k], s[k..];
    assert forall i :: 0 <= i < |front| ==> front[i] <= bound;
    hide Sorted;
    assert s == front + back;
    CountConcat(front, back, bound);
    CountAll(front, bound);
  }

  lemma BackAbove(s: seq<real>, bound: real, k: nat)
    requires Sorted(s) && 0 < k <= |s| && s[k - 1] > bound
    ensures CountUpTo(s, bound) < k
  {
    var front, back := s[..k - 1], s[k - 1..];
    assert forall i :: 0 <= i < |back| ==> back[i] > bound;
    hide Sorted;
    assert s == front + back;
    CountConcat(front, back, bound);
    CountAll(back, bound);
  }

  /** The smallest sample. */
  ghost function Least(samples: seq<real>): (m: real)
    requires samples != []
    ensures m in samples && forall v :: v in samples ==> m <= v
  {
    var rest := samples[..|samples| - 1];
    var last := samples[|samples| - 1];
    assert samples == rest + [last];
    if rest == [] || last <= Least(rest) then last else Least(rest)
  }

  lemma LeastIsFirst(samples: seq<real>)
    requires samples != []
    ensures |InOrder(samples)| > 0 && InOrder(samples)[0] == Least(samples)
  {
    InOrderSorts(samples);
    var s, m := InOrder(samples), Least(samples);
    hide InOrder;
    assert m in multiset(samples) && m in multiset(s) && s[0] in multiset(s) && s[0] in multiset(samples);
    var i :| 0 <= i < |s| && s[i] == m;
  }

  lemma Settled(base: seq<real>, val: real, pos: nat, s: seq<real>)
    requires Sorted(base) && |s| == |base| + 1 && pos <= |base| && s[pos] == val
    requires forall i :: 0 <= i < pos ==> s[i] == base[i]
    requires forall i :: pos < i <= |base| ==> s[i] == base[i - 1]
    requires (pos > 0 ==> s[pos - 1] <= val) && forall i :: pos <= i < |base| ==> base[i] > val
    ensures s == Insert(base, val)
  {
    PlaceUnique(base, val, pos);
    assert s == base[..pos] + [val] + base[pos..];
  }

  class Sampler {
    const values: array<real>
    var samplecount: nat
    ghost var samples: seq<real>

    /** The array starts with the smallest samples so far, in order. */
    ghost predicate Valid()
      reads this, values
    {
      values.Length > 0 && samplecount == |samples| && Best() == Take(InOrder(samples), values.Length)
    }

    /** The part of the array that is in use. */
    ghost function Best(): seq<real>
      reads this, values
    {
      values[..if samplecount < values.Length then samplecount else values.Length]
    }

    /** init_sampler. */
    constructor (kbest: nat)
      requires kbest > 0
      ensures Valid() && samples == [] && values.Length == kbest && fresh(values)
    {
      values := new real[kbest](_ => 0.0);
      samplecount := 0;
      samples := [];
    }

    /** add_sample. */
    method AddSample(val: real)
      requires Valid()
      modifies this, values
      ensures Valid() && samples == old(samples) + [val]
    {
      OneMore(samples, val);
      hide InOrder, Insert, Sorted, Take;
      Keep(val, InOrder(samples));
      samplecount := samplecount + 1;
      samples := samples + [val];
    }

    /** The new value is stored if it is among the smallest, and moved to its place. */
    method Keep(val: real, ghost s: seq<real>)
      requires values.Length > 0 && |s| == samplecount && Sorted(s) && Best() == Take(s, values.Length)
      modifies values
      ensures values[..if samplecount + 1 < values.Length then samplecount + 1 else values.Length] ==
        Take(Insert(s, val), values.Length)
    {
      ghost var k := values.Length;
      TakeInsert(s, val, k);
      hide Insert;
      if samplecount < values.Length {
        Settle(samplecount, val, s);
      } else {
        InPlace(s);
        if val < values[values.Length - 1] {
          SplitSorted(s, k - 1);
          Settle(values.Length - 1, val, s[..k - 1]);
        }
      }
    }

    lemma InPlace(s: seq<real>)
      requires values.Length > 0 && |s| == samplecount >= values.Length && Best() == Take(s, values.Length)
      ensures values[..] == s[..values.Length] && values[..values.Length - 1] == s[..values.Length - 1]
      ensures values[values.Length - 1] == s[values.Length - 1]
    {
      assert values[..values.Length] == values[..] == s[..values.Length];
      assert s[..values.Length][..values.Length - 1] == s[..values.Length - 1];
      assert values[values.Length - 1] == s[..values.Length][values.Length - 1];
    }

    /** The new value is put in place `from`, and moves down past the larger ones. */
    method Settle(from: nat, val: real, ghost base: seq<real>)
      requires from < values.Length && |base| == from && Sorted(base) && values[..from] == base
      modifies values
      ensures values[..from + 1] == Insert(base, val)
      ensures forall i :: from < i < values.Length ==> values[i] == old(values[i])
    {
      hide Insert, Place;
      var pos := from;
      values[pos] := val;
      while pos > 0 && values[pos - 1] > values[pos]
        invariant 0 <= pos <= from && values[pos] == val
        invariant forall i :: 0 <= i < pos ==> values[i] == base[i]
        invariant forall i :: pos < i <= from ==> values[i] == base[i - 1]
        invariant forall i :: pos <= i < from ==> base[i] > val
        invariant forall i :: from < i < values.Length ==> values[i] == old(values[i])
      {
        var temp := values[pos - 1];
        values[pos - 1] := values[pos];
        values[pos] := temp;
        pos := pos - 1;
      }
      Settled(base, val, pos, values[..from + 1]);
    }

    /** has_converged. */
    method HasConverged(epsilon: real) returns (r: bool)
      requires Valid()
      ensures r <==> Converged(samples, values.Length, epsilon)
    {
      ConvergedIs(samples, values.Length, epsilon);
      r := false;
      assert samplecount == |samples|;
      if samplecount >= values.Length {
        FirstAndKth();
        hide *;
        var smallest, kth := values[0], values[values.Length - 1];
        r := (1.0 + epsilon) * smallest >= kth;
        KthWithin(samples, values.Length, epsilon, smallest, kth);
      }
    }

    /** The ends of the array. */
    lemma FirstAndKth()
      requires Valid() && samplecount >= values.Length
      ensures values[0] == Least(samples) && |InOrder(samples)| == samplecount == |samples|
      ensures values[values.Length - 1] == InOrder(samples)[values.Length - 1]
    {
      InOrderSorts(samples);
      LeastIsFirst(samples);
      InPlace(InOrder(samples));
      hide InOrder, Least;
      assert values[..][0] == InOrder(samples)[0];
    }
  }

  /** Samples enough have been seen, and at least k of all of them are within epsilon of the smallest. */
  ghost predicate Converged(samples: seq<real>, k: nat, epsilon: real)
    requires k > 0
  {
    |samples| >= k && CountUpTo(samples, (1.0 + epsilon) * Least(samples)) >= k
  }

  lemma ConvergedIs(samples: seq<real>, k: nat, epsilon: real)
    requires k > 0
    ensures Converged(samples, k, epsilon) ==> |samples| >= k
  {
  }

  lemma KthWithin(samples: seq<real>, k: nat, epsilon: real, smallest: real, kth: real)
    requires 0 < k <= |samples| && |InOrder(samples)| == |samples|
    requires smallest == Least(samples) && kth == InOrder(samples)[k - 1]
    ensures (1.0 + epsilon) * smallest >= kth <==> Converged(samples, k, epsilon)
  {
    hide InOrder, Least, CountUpTo;
    WithinBound(samples, k, (1.0 + epsilon) * Least(samples));
  }

  /** The k-th of the order is within a bound exactly when at least k samples are. */
  lemma WithinBound(samples: seq<real>, k: nat, bound: real)
    requires 0 < k <= |samples| && |InOrder(samples)| == |samples|
    ensures bound >= InOrder(samples)[k - 1] <==> CountUpTo(samples, bound) >= k
  {
    InOrderSorts(samples);
    CountInOrder(samples, bound);
    CountSorted(InOrder(samples), bound, k);
  }

  lemma OneMore(samples: seq<real>, v: real)
    ensures InOrder(samples + [v]) == Insert(InOrder(samples), v)
    ensures Sorted(InOrder(samples)) && |InOrder(samples)| == |samples| && |InOrder(samples + [v])| == |samples| + 1
  {
    assert (samples + [v])[..|samples|] == samples;
    InOrderSorts(samples);
    InOrderSorts(samples + [v]);
  }
}
