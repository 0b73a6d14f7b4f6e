/** The recency stack: what a least-recently-used set holds, without ranks (csim1.c). */
module RecencyStack {

  /** A block that is in the cache. */
  datatype Entry = Entry(tag: nat, dirty: bool)

  /** Most recently used first. */
  type Stack = seq<Entry>

  ghost function Tags(st: Stack): (r: seq<nat>)
    ensures |r| == |st| && forall i :: 0 <= i < |st| ==> r[i] == st[i].tag
  {
    seq(|st|, i requires 0 <= i < |st| => st[i].tag)
  }

  /** The first place of `x` in `s`, or `|s|`. */
  ghost function IndexOf(s: seq<nat>, x: nat): (p: nat)
    ensures p <= |s| && (p < |s| <==> x in s) && (p < |s| ==> s[p] == x)
    ensures forall i :: 0 <= i < p ==> s[i] != x
  {
    if s == [] then 0 else if s[0] == x then 0 else 1 + IndexOf(s[1..], x)
  }

  ghost function Take<T>(s: seq<T>, n: nat): seq<T> {
    if |s| <= n then s else s[..n]
  }

  ghost predicate NoRepeats(s: seq<nat>) {
    forall i, j :: 0 <= i < j < |s| ==> s[i] != s[j]
  }

  ghost function Without<T>(s: seq<T>, p: nat): seq<T> {
    if p < |s| then s[..p] + s[p + 1..] else s
  }

  ghost function ToFront(s: seq<nat>, x: nat): seq<nat> {
    [x] + Without(s, IndexOf(s, x))
  }

  /** An access to `tag` in a set of `E` lines: a hit moves the block to the front; a miss puts it there, and
      the last block goes if there is no room. */
  ghost function Touch(st: Stack, E: nat, tag: nat, store: bool): Stack {
    var p := IndexOf(Tags(st), tag);
    if p < |st| then [Entry(tag, st[p].dirty || store)] + Without(st, p)
    else Take([Entry(tag, store)] + st, E)
  }

  // ----- The order of last uses

  /** The distinct members of `uses`, the one used last first. */
  ghost function Recency(uses: seq<nat>): seq<nat> {
    if uses == [] then [] else ToFront(Recency(uses[..|uses| - 1]), uses[|uses| - 1])
  }

  /** The last place of `x` in `uses`, or -1. */
  ghost function LastUse(uses: seq<nat>, x: nat): (k: int)
    ensures -1 <= k < |uses| && (k >= 0 ==> uses[k] == x) && (k < 0 <==> x !in uses)
    ensures forall i :: k < i < |uses| ==> uses[i] != x
  {
    if uses == [] then -1
    else if uses[|uses| - 1] == x then |uses| - 1
    else LastUse(uses[..|uses| - 1], x)
  }

  lemma FrontMembers(s: seq<nat>, x: nat)
    requires NoRepeats(s)
    ensures NoRepeats(ToFront(s, x))
    ensures forall y :: y in ToFront(s, x) <==> y == x || y in s
  {
    var p := IndexOf(s, x);
    var w := Without(s, p);
    forall y | y in s && y != x
      ensures y in w
    {
      var i :| 0 <= i < |s| && s[i] == y;
      assert w[if i < p then i else i - 1] == y;
    }
    assert forall i :: 0 <= i < |w| ==> w[i] == s[if i < p then i else i + 1];
  }

  lemma UsesGrow(before: seq<nat>, x: nat)
    ensures Recency(before + [x]) == ToFront(Recency(before), x)
    ensures forall y :: y in before + [x] <==> y == x || y in before
  {
    assert (before + [x])[..|before|] == before;
  }

  /** Each later member of the stack was last used earlier. */
  ghost predicate ByLastUse(s: seq<nat>, uses: seq<nat>) {
    forall i, j :: 0 <= i < j < |s| ==> LastUse(uses, s[i]) > LastUse(uses, s[j])
  }

  /** The stack holds each tag once, ordered by last use. */
  lemma {:induction false} RecencyOrder(uses: seq<nat>)
    ensures NoRepeats(Recency(uses)) && ByLastUse(Recency(uses), uses)
    ensures forall x :: x in Recency(uses) <==> x in uses
  {
    if uses != [] {
      var n := |uses| - 1;
      var before, x := uses[..n], uses[n];
      assert uses == before + [x];
      RecencyOrder(before);
      FrontMembers(Recency(before), x);
      FrontOrder(before, Recency(before), x);
      UsesGrow(before, x);
      hide ByLastUse, LastUse, ToFront, NoRepeats, Recency;
    }
  }

  lemma LastUseAppend(before: seq<nat>, x: nat, y: nat)
    ensures LastUse(before + [x], y) == if y == x then |before| else LastUse(before, y)
  {
    assert (before + [x])[..|before|] == before;
  }

  /** Where the member in place `i` of the new order was before. */
  lemma Moved(s: seq<nat>, x: nat, i: nat) returns (k: nat)
    requires NoRepeats(s) && 0 < i < |ToFront(s, x)|
    ensures k < |s| && ToFront(s, x)[i] == s[k] != x && k == if i - 1 < IndexOf(s, x) then i - 1 else i
  {
    var p := IndexOf(s, x);
    hide IndexOf;
    WithoutIndex(s, p, i - 1);
    hide Without;
    k := if i - 1 < p then i - 1 else i;
  }

  lemma WithoutIndex<T>(s: seq<T>, p: nat, i: nat)
    requires p <= |s| && i < |Without(s, p)|
    ensures var k := if i < p then i else i + 1; k < |s| && Without(s, p)[i] == s[k]
  {
  }

  lemma FrontPair(before: seq<nat>, s: seq<nat>, x: nat, i: nat, j: nat)
    requires NoRepeats(s) && ByLastUse(s, before) && i < j < |ToFront(s, x)|
    ensures LastUse(before + [x], ToFront(s, x)[i]) > LastUse(before + [x], ToFront(s, x)[j])
  {
    var r := ToFront(s, x);
    assert r[0] == x;
    hide ToFront, LastUse, IndexOf, NoRepeats;
    LastUseAppend(before, x, r[i]);
    LastUseAppend(before, x, r[j]);
    var k := Moved(s, x, j);
    if i > 0 { var h := Moved(s, x, i); }
  }

  lemma FrontOrder(before: seq<nat>, s: seq<nat>, x: nat)
    requires NoRepeats(s) && ByLastUse(s, before)
    ensures ByLastUse(ToFront(s, x), before + [x])
  {
    var r := ToFront(s, x);
    assert r[0] == x;
    hide ToFront, LastUse, IndexOf, NoRepeats;
    forall i, j | 0 <= i < j < |r|
      ensures LastUse(before + [x], r[i]) > LastUse(before + [x], r[j])
    {
      FrontPair(before, s, x, i, j);
    }
  }

  // ----- How deep a tag is in the order

  ghost function Distinct(s: seq<nat>): set<nat> {
    set x | x in s
  }

  lemma {:induction false} DistinctSize(s: seq<nat>)
    requires NoRepeats(s)
    ensures |Distinct(s)| == |s|
  {
    if s != [] {
      var n := |s| - 1;
      DistinctSize(s[..n]);
      assert Distinct(s) == Distinct(s[..n]) + {s[n]};
    }
  }

  /** There are as many tags in the order as have been used. */
  lemma RecencySize(uses: seq<nat>)
    ensures |Recency(uses)| == |Distinct(uses)|
  {
    RecencyOrder(uses);
    DistinctSize(Recency(uses));
    assert Distinct(Recency(uses)) == Distinct(uses);
  }

  lemma LastUses(before: seq<nat>, x: nat, later: seq<nat>, y: nat)
    requires x !in later
    ensures var u := before + [x] + later; LastUse(u, x) == |before| && (y in later <==> LastUse(u, y) > |before|)
  {
    var u := before + [x] + later;
    assert u[|before|] == x;
    if y in later {
      var i :| 0 <= i < |later| && later[i] == y;
      assert u[|before| + 1 + i] == y;
    }
  }

  /** In front of a place are the members used later. */
  lemma InFront(r: seq<nat>, uses: seq<nat>, p: nat, y: nat)
    requires ByLastUse(r, uses) && p < |r| && (y in r <==> y in uses)
    ensures y in r[..p] <==> y in uses && LastUse(uses, y) > LastUse(uses, r[p])
  {
    hide *;
    if y in r {
      var j :| 0 <= j < |r| && r[j] == y;
      AtOneSide(r, uses, j, p);
      if j < p { assert r[..p][j] == y; }
    }
    if y in r[..p] {
      var i :| 0 <= i < p && r[..p][i] == y;
      assert r[i] == y;
      AtOneSide(r, uses, i, p);
    }
  }

  lemma AtOneSide(r: seq<nat>, uses: seq<nat>, j: nat, p: nat)
    requires ByLastUse(r, uses) && j < |r| && p < |r|
    ensures j < p ==> LastUse(uses, r[j]) > LastUse(uses, r[p])
    ensures j > p ==> LastUse(uses, r[j]) < LastUse(uses, r[p])
  {
    hide LastUse;
  }

  lemma FrontOf(r: seq<nat>, uses: seq<nat>, p: nat, later: seq<nat>)
    requires NoRepeats(r) && ByLastUse(r, uses) && p < |r| && forall y :: y in r <==> y in uses
    requires forall y :: y in later <==> y in uses && LastUse(uses, y) > LastUse(uses, r[p])
    ensures p == |Distinct(later)|
  {
    DistinctSize(r[..p]);
    hide NoRepeats, ByLastUse, LastUse;
    forall y
      ensures y in r[..p] <==> y in later
    {
      InFront(r, uses, p, y);
    }
    assert Distinct(r[..p]) == Distinct(later);
  }

  /** A tag is as deep in the order as there are tags used after it. */
  lemma DepthIs(before: seq<nat>, x: nat, later: seq<nat>)
    requires x !in later
    ensures var r := Recency(before + [x] + later);
      IndexOf(r, x) < |r| && IndexOf(r, x) == |Distinct(later)|
  {
    var u := before + [x] + later;
    var r := Recency(u);
    assert u[|before|] == x;
    RecencyOrder(u);
    hide Recency, LastUse, IndexOf, NoRepeats, ByLastUse;
    forall y
      ensures LastUse(u, x) == |before| && (y in later <==> y in u && LastUse(u, y) > |before|)
    {
      LastUses(before, x, later, y);
    }
    assert LastUse(u, x) == |before| by { LastUses(before, x, later, x); }
    FrontOf(r, u, IndexOf(r, x), later);
  }

  // ----- A set holds the most recently used tags

  lemma TakeMember(s: seq<nat>, n: nat, x: nat)
    ensures x in Take(s, n) <==> IndexOf(s, x) < |s| && IndexOf(s, x) < n
  {
    var p := IndexOf(s, x);
    if p < |s| && p < n { assert Take(s, n)[p] == x; }
  }

  lemma SamePlace(s: seq<nat>, n: nat, x: nat)
    requires x in Take(s, n)
    ensures IndexOf(Take(s, n), x) == IndexOf(s, x)
  {
    TakeMember(s, n, x);
    var p, q := IndexOf(s, x), IndexOf(Take(s, n), x);
    assert Take(s, n)[p] == s[p];
    assert Take(s, n)[q] == s[q];
  }

  /** Moving to the front commutes with keeping the first `n`: the stack property. */
  lemma TakeFront(s: seq<nat>, n: nat, x: nat)
    ensures x in Take(s, n) ==> Take(ToFront(s, x), n) == ToFront(Take(s, n), x)
    ensures x !in Take(s, n) ==> Take(ToFront(s, x), n) == Take([x] + Take(s, n), n)
  {
    TakeMember(s, n, x);
    if x in Take(s, n) {
      SamePlace(s, n, x);
      FrontHit(s, n, x);
    } else {
      FrontMiss(s, n, x);
    }
  }

  lemma FrontHit(s: seq<nat>, n: nat, x: nat)
    requires IndexOf(s, x) < |s| && IndexOf(s, x) < n
    ensures Take(ToFront(s, x), n) == [x] + Without(Take(s, n), IndexOf(s, x))
  {
    var p := IndexOf(s, x);
    hide IndexOf;
    WithoutTake(s, p, n);
    assert ToFront(s, x) == [x] + Without(s, p);
    hide Without;
    assert |s| > n ==> ([x] + Without(s, p))[..n] == [x] + Without(s, p)[..n - 1];
  }

  lemma WithoutTake(s: seq<nat>, p: nat, n: nat)
    requires p < |s| && p < n
    ensures |Without(s, p)| == |s| - 1
    ensures Without(Take(s, n), p) == if |s| > n then Without(s, p)[..n - 1] else Without(s, p)
  {
  }

  lemma FrontMiss(s: seq<nat>, n: nat, x: nat)
    requires IndexOf(s, x) >= |s| || IndexOf(s, x) >= n
    ensures Take(ToFront(s, x), n) == Take([x] + Take(s, n), n)
  {
  }

  /** The tags of a set follow the recency of its uses. */
  lemma TouchTags(st: Stack, E: nat, uses: seq<nat>, tag: nat, store: bool)
    requires Tags(st) == Take(Recency(uses), E)
    ensures Tags(Touch(st, E, tag, store)) == Take(Recency(uses + [tag]), E)
  {
    assert (uses + [tag])[..|uses|] == uses;
    TakeFront(Recency(uses), E, tag);
    TagsOfTouch(st, E, tag, store);
  }

  lemma TagsOfTouch(st: Stack, E: nat, tag: nat, store: bool)
    ensures Tags(Touch(st, E, tag, store)) == if tag in Tags(st) then ToFront(Tags(st), tag)
      else Take([tag] + Tags(st), E)
  {
    var p := IndexOf(Tags(st), tag);
    if p < |st| {
      TagsWithout(st, p);
      TagsFront(Entry(tag, st[p].dirty || store), Without(st, p));
    } else {
      TagsFront(Entry(tag, store), st);
      TagsTake([Entry(tag, store)] + st, E);
    }
    hide Without, Take, Tags;
  }

  lemma TagsFront(e: Entry, st: Stack)
    ensures Tags([e] + st) == [e.tag] + Tags(st)
  {
  }

  lemma TagsWithout(st: Stack, p: nat)
    ensures Tags(Without(st, p)) == Without(Tags(st), p)
  {
  }

  lemma TagsTake(st: Stack, n: nat)
    ensures Tags(Take(st, n)) == Take(Tags(st), n)
  {
  }
}
