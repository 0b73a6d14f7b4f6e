/** What splaying and the search-tree order mean, without pointers. */
module SplaySpec {
  import opened TreeShape

  // ----- Splaying, by its tree patterns

  /** The tree that results when `x`, with subtrees `a` and `b`, is splayed up along `path`: zig at the root,
      zig-zig when `x` and its parent are on the same side, zig-zag when they are on different sides. */
  ghost function SplayUp(path: Path, a: Shape, x: Node, b: Shape): (r: Shape)
    ensures r.Bin? && r.x == x
  {
    match path
    case Top => Bin(a, x, b)
    case Down(OnLeft(p, s), Top) => Bin(a, x, Bin(b, p, s))
    case Down(OnRight(s, p), Top) => Bin(Bin(s, p, a), x, b)
    case Down(OnLeft(p, s), Down(OnLeft(g, u), up)) => SplayUp(up, a, x, Bin(b, p, Bin(s, g, u)))
    case Down(OnRight(s, p), Down(OnRight(u, g), up)) => SplayUp(up, Bin(Bin(u, g, s), p, a), x, b)
    case Down(OnLeft(p, s), Down(OnRight(u, g), up)) => SplayUp(up, Bin(u, g, a), x, Bin(b, p, s))
    case Down(OnRight(s, p), Down(OnLeft(g, u), up)) => SplayUp(up, Bin(s, p, a), x, Bin(b, g, u))
  }

  /** A rotation keeps the order of the nodes. */
  lemma RotationOrder(a: Shape, y: Node, b: Shape, x: Node, c: Shape)
    ensures InOrder(Bin(Bin(a, y, b), x, c)) == InOrder(Bin(a, y, Bin(b, x, c)))
  {
  }

  lemma SameUnder(path: Path, t: Shape, u: Shape)
    requires InOrder(t) == InOrder(u)
    ensures InOrder(Plug(path, t)) == InOrder(Plug(path, u))
  {
    PlugInOrder(path, t);
    PlugInOrder(path, u);
  }

  /** Splaying keeps the order of the nodes. */
  lemma {:induction false} SplayInOrder(path: Path, a: Shape, x: Node, b: Shape)
    ensures InOrder(SplayUp(path, a, x, b)) == InOrder(Plug(path, Bin(a, x, b)))
  {
    match path
    case Top =>
    case Down(OnLeft(p, s), Top) => RotationOrder(a, x, b, p, s);
    case Down(OnRight(s, p), Top) => RotationOrder(s, p, a, x, b);
    case Down(OnLeft(p, s), Down(OnLeft(g, u), up)) =>
      SplayInOrder(up, a, x, Bin(b, p, Bin(s, g, u)));
      RotationOrder(Bin(a, x, b), p, s, g, u);
      RotationOrder(a, x, b, p, Bin(s, g, u));
      SameUnder(up, Bin(Bin(Bin(a, x, b), p, s), g, u), Bin(a, x, Bin(b, p, Bin(s, g, u))));
    case Down(OnRight(s, p), Down(OnRight(u, g), up)) =>
      SplayInOrder(up, Bin(Bin(u, g, s), p, a), x, b);
      RotationOrder(u, g, s, p, Bin(a, x, b));
      RotationOrder(Bin(u, g, s), p, a, x, b);
      SameUnder(up, Bin(u, g, Bin(s, p, Bin(a, x, b))), Bin(Bin(Bin(u, g, s), p, a), x, b));
    case Down(OnLeft(p, s), Down(OnRight(u, g), up)) =>
      SplayInOrder(up, Bin(u, g, a), x, Bin(b, p, s));
      RotationOrder(a, x, b, p, s);
      RotationOrder(u, g, a, x, Bin(b, p, s));
      SameUnder(up, Bin(u, g, Bin(Bin(a, x, b), p, s)), Bin(Bin(u, g, a), x, Bin(b, p, s)));
    case Down(OnRight(s, p), Down(OnLeft(g, u), up)) =>
      SplayInOrder(up, Bin(s, p, a), x, Bin(b, g, u));
      RotationOrder(s, p, a, x, b);
      RotationOrder(Bin(s, p, a), x, b, g, u);
      SameUnder(up, Bin(Bin(s, p, Bin(a, x, b)), g, u), Bin(Bin(s, p, a), x, Bin(b, g, u)));
  }

  ghost function Length(path: Path): nat {
    if path.Top? then 0 else 1 + Length(path.up)
  }

  /** Where a node is in a tree: the way up from it, and its subtrees. */
  lemma {:induction false} Locate(t: Shape, x: Node, up: Path) returns (path: Path, a: Shape, b: Shape)
    requires x in Nodes(t)
    ensures Plug(path, Bin(a, x, b)) == Plug(up, t)
    decreases t
  {
    if x == t.x {
      return up, t.l, t.r;
    } else if x in Nodes(t.l) {
      path, a, b := Locate(t.l, x, Down(OnLeft(t.x, t.r), up));
    } else {
      path, a, b := Locate(t.r, x, Down(OnRight(t.l, t.x), up));
    }
  }

  // ----- Keys in order

  ghost predicate Sorted(s: seq<Node>, c: Cells) {
    && (forall i :: 0 <= i < |s| ==> s[i] in c)
    && (forall i, j :: 0 <= i < j < |s| ==> c[s[i]].key < c[s[j]].key)
  }

  /** The map from keys to records that a sequence of nodes stands for. */
  ghost function Dict(s: seq<Node>, c: Cells): map<int, nat>
    requires forall i :: 0 <= i < |s| ==> s[i] in c
  {
    if s == [] then map[]
    else Dict(s[..|s| - 1], c)[c[s[|s| - 1]].key := c[s[|s| - 1]].record]
  }

  lemma {:induction false} DictLookup(s: seq<Node>, c: Cells)
    requires Sorted(s, c)
    ensures forall i :: 0 <= i < |s| ==> c[s[i]].key in Dict(s, c) && Dict(s, c)[c[s[i]].key] == c[s[i]].record
    ensures forall k :: k in Dict(s, c) ==> exists i :: 0 <= i < |s| && c[s[i]].key == k
  {
    if s != [] { DictLookup(s[..|s| - 1], c); }
    forall k | k in Dict(s, c)
      ensures exists i :: 0 <= i < |s| && c[s[i]].key == k
    {
      var i := KeyAt(s, c, k);
    }
  }

  /** The node that has the key `k`. */
  lemma {:induction false} KeyAt(s: seq<Node>, c: Cells, k: int) returns (i: nat)
    requires Sorted(s, c) && k in Dict(s, c)
    ensures i < |s| && c[s[i]].key == k
  {
    i := |s| - 1;
    if c[s[i]].key != k {
      i := KeyAt(s[..|s| - 1], c, k);
    }
  }

  /** No two nodes share an entry. */
  lemma {:induction false} DictSize(s: seq<Node>, c: Cells)
    requires Sorted(s, c)
    ensures |Dict(s, c)| == |s|
  {
    if s != [] {
      var u := s[..|s| - 1];
      DictSize(u, c);
      NotAmong(u, c, c[s[|s| - 1]].key);
    }
  }

  lemma {:induction false} DictConcat(s: seq<Node>, u: seq<Node>, c: Cells)
    requires forall i :: 0 <= i < |s| ==> s[i] in c
    requires forall i :: 0 <= i < |u| ==> u[i] in c
    ensures Dict(s + u, c) == Dict(s, c) + Dict(u, c)
  {
    if u == [] {
      assert s + u == s;
    } else {
      var v := u[..|u| - 1];
      DictConcat(s, v, c);
      assert (s + u)[..|s + u| - 1] == s + v;
    }
  }

  /** Inserting a node between the smaller and the larger ones adds its entry. */
  lemma DictInsert(s: seq<Node>, x: Node, u: seq<Node>, c: Cells)
    requires Sorted(s + [x] + u, c)
    ensures x in c && Sorted(s + u, c) && c[x].key !in Dict(s + u, c)
    ensures Dict(s + [x] + u, c) == Dict(s + u, c)[c[x].key := c[x].record]
  {
    SortedParts(s, x, u, c);
    NotAmong(s, c, c[x].key);
    NotAmong(u, c, c[x].key);
    assert Dict(s + [x], c) == Dict(s, c)[c[x].key := c[x].record] by { assert (s + [x])[..|s|] == s; }
    hide Dict, Sorted;
    DictConcat(s, u, c);
    DictConcat(s + [x], u, c);
    InsertFirst(Dict(s, c), Dict(u, c), c[x].key, c[x].record);
  }

  lemma InsertFirst(m: map<int, nat>, n: map<int, nat>, k: int, v: nat)
    requires k !in m && k !in n
    ensures m[k := v] + n == (m + n)[k := v]
  {
  }

  lemma NotAmong(s: seq<Node>, c: Cells, k: int)
    requires Sorted(s, c) && forall i :: 0 <= i < |s| ==> c[s[i]].key != k
    ensures k !in Dict(s, c)
  {
    DictLookup(s, c);
    hide Dict;
  }

  lemma SortedParts(s: seq<Node>, x: Node, u: seq<Node>, c: Cells)
    requires Sorted(s + [x] + u, c)
    ensures x in c && Sorted(s, c) && Sorted(u, c) && Sorted(s + u, c)
    ensures forall i :: 0 <= i < |s| ==> c[s[i]].key < c[x].key
    ensures forall i :: 0 <= i < |u| ==> c[x].key < c[u[i]].key
  {
    Middle(s, x, u, c);
    SortedWithout(s, x, u, c);
    SortedFront(s, u, c);
    SortedBack(s, u, c);
    hide Sorted;
  }

  lemma Middle(s: seq<Node>, x: Node, u: seq<Node>, c: Cells)
    requires Sorted(s + [x] + u, c)
    ensures x in c
    ensures forall i :: 0 <= i < |s| ==> s[i] in c && c[s[i]].key < c[x].key
    ensures forall i :: 0 <= i < |u| ==> u[i] in c && c[x].key < c[u[i]].key
  {
    var all := s + [x] + u;
    assert all[|s|] == x;
    assert forall i :: 0 <= i < |s| ==> all[i] == s[i];
    assert forall i :: 0 <= i < |u| ==> all[|s| + 1 + i] == u[i];
  }

  lemma SortedFront(s: seq<Node>, u: seq<Node>, c: Cells)
    requires Sorted(s + u, c)
    ensures Sorted(s, c)
  {
    assert forall i :: 0 <= i < |s| ==> (s + u)[i] == s[i];
  }

  lemma SortedBack(s: seq<Node>, u: seq<Node>, c: Cells)
    requires Sorted(s + u, c)
    ensures Sorted(u, c)
  {
    assert forall i :: 0 <= i < |u| ==> (s + u)[|s| + i] == u[i];
  }

  lemma SortedWithout(s: seq<Node>, x: Node, u: seq<Node>, c: Cells)
    requires Sorted(s + [x] + u, c)
    ensures Sorted(s + u, c)
  {
    var all := s + [x] + u;
    assert forall i :: 0 <= i < |s + u| ==> (s + u)[i] == all[if i < |s| then i else i + 1];
  }

  /** A tree in search order, with its entries and their number. */
  ghost predicate SearchTree(t: Shape, c: Cells, m: map<int, nat>, n: nat) {
    Sorted(InOrder(t), c) && Dict(InOrder(t), c) == m && |InOrder(t)| == n
  }

  lemma {:induction false} InOrderNodes(t: Shape)
    ensures forall i :: 0 <= i < |InOrder(t)| ==> InOrder(t)[i] in Nodes(t)
  {
    if t.Bin? {
      InOrderNodes(t.l);
      InOrderNodes(t.r);
    }
  }

  // ----- Searching

  ghost predicate KeysBelow(s: seq<Node>, c: Cells, key: int) {
    forall i :: 0 <= i < |s| ==> s[i] in c && c[s[i]].key < key
  }

  ghost predicate KeysAbove(s: seq<Node>, c: Cells, key: int) {
    forall i :: 0 <= i < |s| ==> s[i] in c && c[s[i]].key > key
  }

  /** A search for `key` in `t` has come down `path` to the subtree `s`. */
  ghost predicate At(t: Shape, path: Path, s: Shape, c: Cells, key: int) {
    && t == Plug(path, s)
    && KeysBelow(Before(path), c, key) && KeysAbove(After(path), c, key)
  }

  lemma BelowConcat(a: seq<Node>, b: seq<Node>, c: Cells, k: int, key: int)
    requires KeysBelow(a, c, key) && KeysBelow(b, c, k) && k <= key
    ensures KeysBelow(a + b, c, key)
  {
  }

  lemma AboveConcat(a: seq<Node>, b: seq<Node>, c: Cells, k: int, key: int)
    requires KeysAbove(a, c, key) && KeysAbove(b, c, k) && key <= k
    ensures KeysAbove(a + b, c, key)
  {
  }

  lemma Around(s: seq<Node>, x: Node, u: seq<Node>, c: Cells)
    requires Sorted(s + [x] + u, c)
    ensures x in c && KeysBelow(s, c, c[x].key) && KeysAbove(u, c, c[x].key)
  {
    SortedParts(s, x, u, c);
    hide Sorted;
  }

  lemma SplitAt(path: Path, l: Shape, z: Node, r: Shape, c: Cells)
    requires Sorted(InOrder(Plug(path, Bin(l, z, r))), c)
    ensures z in c
    ensures KeysBelow(Before(path) + InOrder(l), c, c[z].key)
    ensures KeysAbove(InOrder(r) + After(path), c, c[z].key)
  {
    hide Sorted, KeysBelow, KeysAbove;
    PlugInOrder(path, Bin(l, z, r));
    Regroup(Before(path), InOrder(l), [z], InOrder(r), After(path));
    assert Before(path) + InOrder(Bin(l, z, r)) + After(path)
        == (Before(path) + InOrder(l)) + [z] + (InOrder(r) + After(path));
    hide InOrder, Before, After;
    Around(Before(path) + InOrder(l), z, InOrder(r) + After(path), c);
  }

  lemma GoRight(t: Shape, path: Path, l: Shape, z: Node, r: Shape, c: Cells, key: int)
    requires At(t, path, Bin(l, z, r), c, key) && Sorted(InOrder(t), c) && z in c && c[z].key < key
    ensures At(t, Down(OnRight(l, z), path), r, c, key)
  {
    StepRight(path, l, z, r);
    OneKey(z, c, key);
    hide Sorted, InOrder, Before, After, Plug, KeysBelow, KeysAbove;
    SplitAt(path, l, z, r, c);
    Lower(Before(path) + InOrder(l), c, c[z].key, key);
    BelowConcat(Before(path) + InOrder(l), [z], c, key, key);
  }

  /** What lies before and behind the path, one step further down. */
  lemma StepRight(path: Path, l: Shape, z: Node, r: Shape)
    ensures Plug(Down(OnRight(l, z), path), r) == Plug(path, Bin(l, z, r))
    ensures Before(Down(OnRight(l, z), path)) == (Before(path) + InOrder(l)) + [z]
    ensures After(Down(OnRight(l, z), path)) == After(path)
  {
    hide InOrder;
  }

  lemma StepLeft(path: Path, l: Shape, z: Node, r: Shape)
    ensures Plug(Down(OnLeft(z, r), path), l) == Plug(path, Bin(l, z, r))
    ensures Before(Down(OnLeft(z, r), path)) == Before(path)
    ensures After(Down(OnLeft(z, r), path)) == [z] + (InOrder(r) + After(path))
  {
    hide InOrder;
  }

  lemma OneKey(z: Node, c: Cells, key: int)
    requires z in c
    ensures KeysBelow([z], c, key) <==> c[z].key < key
    ensures KeysAbove([z], c, key) <==> c[z].key > key
  {
    assert [z][0] == z;
  }

  lemma Lower(s: seq<Node>, c: Cells, k: int, key: int)
    requires KeysBelow(s, c, k) && k <= key
    ensures KeysBelow(s, c, key)
  {
  }

  lemma GoLeft(t: Shape, path: Path, l: Shape, z: Node, r: Shape, c: Cells, key: int)
    requires At(t, path, Bin(l, z, r), c, key) && Sorted(InOrder(t), c) && z in c && c[z].key > key
    ensures At(t, Down(OnLeft(z, r), path), l, c, key)
  {
    StepLeft(path, l, z, r);
    OneKey(z, c, key);
    hide Sorted, InOrder, Before, After, Plug, KeysBelow, KeysAbove;
    SplitAt(path, l, z, r, c);
    AboveConcat([z], InOrder(r) + After(path), c, c[z].key, key);
  }

  /** The node of the last right turn. */
  ghost function TurnedAt(path: Path): Node? {
    var b := Before(path);
    if b == [] then null else b[|b| - 1]
  }

  lemma LastTurn(path: Path, l: Shape, z: Node, r: Shape, c: Cells)
    requires Sorted(InOrder(Plug(path, Bin(l, z, r))), c) && Before(path) != []
    ensures var n := Before(path)[|Before(path)| - 1]; z in c && n in c && c[n].key < c[z].key
  {
    SplitAt(path, l, z, r, c);
    var s := Before(path) + InOrder(l);
    assert s[|Before(path)| - 1] == Before(path)[|Before(path)| - 1];
  }

  lemma Found(t: Shape, path: Path, l: Shape, z: Node, r: Shape, c: Cells)
    requires t == Plug(path, Bin(l, z, r)) && Sorted(InOrder(t), c)
    ensures z in c && c[z].key in Dict(InOrder(t), c) && Dict(InOrder(t), c)[c[z].key] == c[z].record
  {
    hide Dict, Sorted;
    PlugInOrder(path, Bin(l, z, r));
    var i := |Before(path)| + |InOrder(l)|;
    assert InOrder(t)[i] == z;
    FoundAt(InOrder(t), c, i);
  }

  lemma FoundAt(s: seq<Node>, c: Cells, i: nat)
    requires Sorted(s, c) && i < |s|
    ensures (forall j :: 0 <= j < |s| ==> s[j] in c)
    ensures c[s[i]].key in Dict(s, c) && Dict(s, c)[c[s[i]].key] == c[s[i]].record
  {
    DictLookup(s, c);
    hide Dict;
  }

  lemma NotFound(t: Shape, path: Path, c: Cells, key: int)
    requires At(t, path, Leaf, c, key) && Sorted(InOrder(t), c)
    ensures InOrder(t) == Before(path) + After(path) && key !in Dict(InOrder(t), c)
  {
    PlugInOrder(path, Leaf);
    assert InOrder(t) == Before(path) + After(path);
    NotAmong(InOrder(t), c, key);
  }

  /** The largest key of `m` that is at most `key`. */
  ghost predicate IsNearest(m: map<int, nat>, key: int, k: int) {
    k in m && k <= key && forall j :: j in m && j <= key ==> j <= k
  }

  /** `r` is the record of the largest key that is at most `key`, or NULL when every key is larger. */
  ghost predicate NearestRecord(m: map<int, nat>, key: int, r: nat) {
    || (exists k :: IsNearest(m, key, k) && r == m[k])
    || ((forall k :: k in m ==> k > key) && r == 0)
  }

  lemma NearestHere(m: map<int, nat>, key: int)
    requires key in m
    ensures NearestRecord(m, key, m[key])
  {
    assert IsNearest(m, key, key);
  }

  /** When the search ends in a hole, the last node before the hole has the nearest smaller key. */
  lemma NearestBefore(t: Shape, path: Path, c: Cells, key: int)
    requires At(t, path, Leaf, c, key) && Sorted(InOrder(t), c)
    ensures var b := Before(path); b != [] ==> b[|b| - 1] in c
    ensures var m, b := Dict(InOrder(t), c), Before(path);
      NearestRecord(m, key, if b == [] then 0 else c[b[|b| - 1]].record)
  {
    NotFound(t, path, c, key);
    hide Dict, Sorted, InOrder, Before, After, NearestRecord;
    NearestOfParts(Before(path), After(path), c, key);
  }

  lemma NearestOfParts(b: seq<Node>, u: seq<Node>, c: Cells, key: int)
    requires Sorted(b + u, c) && KeysBelow(b, c, key) && KeysAbove(u, c, key)
    ensures b != [] ==> b[|b| - 1] in c
    ensures NearestRecord(Dict(b + u, c), key, if b == [] then 0 else c[b[|b| - 1]].record)
  {
    hide Dict;
    var s, m := b + u, Dict(b + u, c);
    forall j | j in m
      ensures j <= key ==> b != [] && b[|b| - 1] in c && j <= c[b[|b| - 1]].key
    {
      if j <= key { NoneBetween(b, u, c, key, j); }
    }
    if b != [] {
      LastIsLargest(b, u, c);
      assert s[|b| - 1] == b[|b| - 1];
      FoundAt(s, c, |b| - 1);
      hide Sorted;
      assert IsNearest(m, key, c[b[|b| - 1]].key);
    }
  }

  lemma NoneBetween(b: seq<Node>, u: seq<Node>, c: Cells, key: int, j: int)
    requires Sorted(b + u, c) && KeysBelow(b, c, key) && KeysAbove(u, c, key)
    requires j in Dict(b + u, c) && j <= key
    ensures b != [] && b[|b| - 1] in c && j <= c[b[|b| - 1]].key
  {
    hide Dict;
    var i := KeyAt(b + u, c, j);
    AboveHere(b, u, c, key, i);
    assert (b + u)[i] == b[i];
    LastIsLargest(b, u, c);
  }

  lemma AboveHere(b: seq<Node>, u: seq<Node>, c: Cells, key: int, i: int)
    requires KeysAbove(u, c, key) && 0 <= i < |b + u|
    ensures i >= |b| ==> (b + u)[i] in c && c[(b + u)[i]].key > key
  {
    if i >= |b| { assert (b + u)[i] == u[i - |b|]; }
  }

  lemma LastIsLargest(b: seq<Node>, u: seq<Node>, c: Cells)
    requires b != [] && Sorted(b + u, c)
    ensures b[|b| - 1] in c && forall i :: 0 <= i < |b| ==> b[i] in c && c[b[i]].key <= c[b[|b| - 1]].key
  {
    assert forall i :: 0 <= i < |b| ==> (b + u)[i] == b[i];
  }

  // ----- States with the same keys

  /** Two states of the same nodes that differ in links only. */
  ghost predicate SameKeys(c: Cells, d: Cells) {
    && d.Keys == c.Keys
    && forall n :: n in c ==> d[n].key == c[n].key && d[n].record == c[n].record
  }

  lemma SameKeysTrans(c: Cells, d: Cells, e: Cells)
    ensures SameKeys(c, c) && (SameKeys(c, d) && SameKeys(d, e) ==> SameKeys(c, e))
  {
  }

  /** The nodes of `s` have the same keys and records in `c` and `d`. */
  ghost predicate AgreeOn(s: seq<Node>, c: Cells, d: Cells) {
    forall i :: 0 <= i < |s| ==>
      s[i] in c && s[i] in d && d[s[i]].key == c[s[i]].key && d[s[i]].record == c[s[i]].record
  }

  lemma SortedSame(s: seq<Node>, c: Cells, d: Cells)
    requires Sorted(s, c) && AgreeOn(s, c, d)
    ensures Sorted(s, d)
  {
  }

  lemma {:induction false} DictSame(s: seq<Node>, c: Cells, d: Cells)
    requires AgreeOn(s, c, d)
    ensures Dict(s, c) == Dict(s, d)
  {
    if s != [] {
      DictSame(s[..|s| - 1], c, d);
    }
  }

  lemma SameKeysAgree(s: seq<Node>, c: Cells, d: Cells)
    requires SameKeys(c, d) && forall i :: 0 <= i < |s| ==> s[i] in c
    ensures AgreeOn(s, c, d)
  {
  }

  /** A node put where a search for its key ended keeps the order. */
  lemma SortedInsert(b: seq<Node>, x: Node, u: seq<Node>, c: Cells)
    requires Sorted(b + u, c) && x in c && KeysBelow(b, c, c[x].key) && KeysAbove(u, c, c[x].key)
    ensures Sorted(b + [x] + u, c)
  {
    var all, rest := b + [x] + u, b + u;
    forall i, j | 0 <= i < j < |all|
      ensures all[i] in c && all[j] in c && c[all[i]].key < c[all[j]].key
    {
      assert i < |b| ==> all[i] == b[i] == rest[i];
      assert i > |b| ==> all[i] == u[i - |b| - 1] == rest[i - 1];
      assert j < |b| ==> all[j] == b[j] == rest[j];
      assert j > |b| ==> all[j] == u[j - |b| - 1] == rest[j - 1];
    }
    assert |b| < |all| && all[|b|] == x;
  }
}
