/** Whole runs of operations on a splay tree: what they cost together. */
module SplayRuns {
  import opened TreeShape
  import opened SplaySpec
  import opened SplayCost
  import opened SplayTree

  datatype Op = Insert(key: int, record: nat) | Remove(key: int) | Find(key: int) | Nearest(key: int)

  /** The map after an operation; the first record of a key stays. */
  function Then(m: map<int, nat>, op: Op): map<int, nat> {
    match op
    case Insert(key, record) => if key in m then m else m[key := record]
    case Remove(key) => m - {key}
    case Find(_) => m
    case Nearest(_) => m
  }

  function AfterAll(m: map<int, nat>, ops: seq<Op>): map<int, nat> {
    if ops == [] then m else Then(AfterAll(m, ops[..|ops| - 1]), ops[|ops| - 1])
  }

  /** Exactly the operations that change the map splay. */
  predicate Splays(m: map<int, nat>, op: Op) {
    match op
    case Insert(key, _) => key !in m
    case Remove(key) => key in m
    case Find(_) => false
    case Nearest(_) => false
  }

  ghost predicate AllSplay(m: map<int, nat>, ops: seq<Op>) {
    forall k :: 0 <= k < |ops| ==> Splays(AfterAll(m, ops[..k]), ops[k])
  }

  /** One operation on a tree that has at most `n` nodes before and after. */
  method Do(tree: Tree, op: Op, ghost n: nat)
    requires tree.Valid() && tree.nodeCount < n
    modifies tree, Nodes(tree.t)
    ensures tree.Valid() && tree.Contents() == Then(old(tree.Contents()), op)
    ensures fresh(Nodes(tree.t) - old(Nodes(tree.t))) && tree.nodeCount <= old(tree.nodeCount) + 1
    ensures Covered(tree.rotations - old(tree.rotations), old(tree.t), tree.t, 8 * Log2(n) + 1)
    ensures Splays(old(tree.Contents()), op) ==>
      tree.comparisonCount - old(tree.comparisonCount) <= 2 * (tree.rotations - old(tree.rotations))
  {
    ghost var m, count := tree.Contents(), tree.nodeCount;
    ThenIs(m, op);
    Bounds(count, n);
    hide *;
    match op {
      case Insert(key, record) =>
        var inserted, path := tree.TreeInsert(key, record);
        CoveredMore(tree.rotations - old(tree.rotations), old(tree.t), tree.t,
          if inserted then 8 * Log2(tree.nodeCount) + 1 else 0, 8 * Log2(n) + 1);
      case Remove(key) =>
        var r := tree.TreeRemove(key);
        CoveredMore(tree.rotations - old(tree.rotations), old(tree.t), tree.t,
          if key in m then 6 * Log2(count) + 1 else 0, 8 * Log2(n) + 1);
      case Find(key) =>
        var r := tree.TreeFind(key);
        CoveredNone(tree.t);
        CoveredMore(0, tree.t, tree.t, 0, 8 * Log2(n) + 1);
      case Nearest(key) =>
        var r := tree.TreeFindNearest(key);
        CoveredNone(tree.t);
        CoveredMore(0, tree.t, tree.t, 0, 8 * Log2(n) + 1);
    }
  }

  lemma ThenIs(m: map<int, nat>, op: Op)
    ensures match op
      case Insert(key, record) =>
        Then(m, op) == (if key in m then m else m[key := record]) && (Splays(m, op) <==> key !in m)
      case Remove(key) => Then(m, op) == m - {key} && (Splays(m, op) <==> key in m)
      case Find(_) => Then(m, op) == m && !Splays(m, op)
      case Nearest(_) => Then(m, op) == m && !Splays(m, op)
  {
  }

  lemma Bounds(count: nat, n: nat)
    requires count < n
    ensures Log2(count) <= Log2(n) && Log2(count + 1) <= Log2(n)
  {
    hide Log2;
    Log2Mono(count, n);
    Log2Mono(count + 1, n);
  }

  /** What `k` operations may cost in rotations, on trees of up to `n` nodes. */
  function Bound(k: nat, n: nat): nat {
    k * (8 * Log2(n) + 1)
  }

  /** Any sequence of operations: each one that splays is paid for with about eight times the logarithm of the
      number of nodes, so that all rotations are; and so are the comparisons, if all of them splay. */
  method Run(tree: Tree, ops: seq<Op>)
    requires tree.Valid()
    modifies tree, Nodes(tree.t)
    ensures tree.Valid() && tree.Contents() == AfterAll(old(tree.Contents()), ops)
    ensures Covered(tree.rotations - old(tree.rotations), old(tree.t), tree.t,
      Bound(|ops|, old(tree.nodeCount) + |ops|))
    ensures AllSplay(old(tree.Contents()), ops) ==>
      tree.comparisonCount - old(tree.comparisonCount) <= 2 * (tree.rotations - old(tree.rotations))
  {
    hide *;
    ghost var m, t0, n := tree.Contents(), tree.t, tree.nodeCount + |ops|;
    CoveredNone(t0);
    RunNone(m, ops, n);
    for k := 0 to |ops|
      invariant tree.Valid() && tree.Contents() == AfterAll(m, ops[..k]) && tree.nodeCount <= old(tree.nodeCount) + k
      invariant fresh(Nodes(tree.t) - old(Nodes(tree.t)))
      invariant Covered(tree.rotations - old(tree.rotations), t0, tree.t, Bound(k, n))
      invariant AllSplay(m, ops[..k]) ==>
        tree.comparisonCount - old(tree.comparisonCount) <= 2 * (tree.rotations - old(tree.rotations))
    {
      ghost var before, r, N := tree.t, tree.rotations, Nodes(tree.t);
      label L:
      Do(tree, ops[k], n);
      assert fresh@L(Nodes(tree.t) - N);
      assert forall x :: x in Nodes(tree.t) && x !in N ==> !old@L(allocated(x)) && fresh(x);
      RunStep(m, ops, k, n);
      CoveredOn(r - old(tree.rotations), tree.rotations - r, t0, before, tree.t, Bound(k, n), 8 * Log2(n) + 1);
    }
    assert ops[..|ops|] == ops;
  }

  lemma RunNone(m: map<int, nat>, ops: seq<Op>, n: nat)
    ensures AfterAll(m, ops[..0]) == m && Bound(0, n) == 0
  {
  }

  lemma RunStep(m: map<int, nat>, ops: seq<Op>, k: nat, n: nat)
    requires k < |ops|
    ensures AfterAll(m, ops[..k + 1]) == Then(AfterAll(m, ops[..k]), ops[k])
    ensures AllSplay(m, ops[..k + 1]) ==> AllSplay(m, ops[..k]) && Splays(AfterAll(m, ops[..k]), ops[k])
    ensures Bound(k + 1, n) == Bound(k, n) + (8 * Log2(n) + 1)
  {
    hide Log2, Then, Splays, AllSplay;
    assert ops[..k + 1][..k] == ops[..k] && ops[..k + 1][k] == ops[k];
    if AllSplay(m, ops[..k + 1]) { AllSplayBefore(m, ops, k); }
  }

  lemma AllSplayBefore(m: map<int, nat>, ops: seq<Op>, k: nat)
    requires k < |ops| && AllSplay(m, ops[..k + 1])
    ensures AllSplay(m, ops[..k]) && Splays(AfterAll(m, ops[..k]), ops[k])
  {
    hide Then, Splays;
    forall j | 0 <= j <= k
      ensures Splays(AfterAll(m, ops[..j]), ops[j])
    {
      assert ops[..k + 1][..j] == ops[..j] && ops[..k + 1][j] == ops[j];
    }
    forall j | 0 <= j < k
      ensures ops[..k][..j] == ops[..j] && ops[..k][j] == ops[j]
    {
    }
  }

  /** From the empty tree: N operations take at most N (8 log N + 1) rotations, and twice as many comparisons if all
      of them splay. */
  method RunNew(ops: seq<Op>) returns (tree: Tree)
    ensures tree.Valid() && tree.Contents() == AfterAll(map[], ops)
    ensures tree.rotations <= Bound(|ops|, |ops|)
    ensures AllSplay(map[], ops) ==> tree.comparisonCount <= 2 * Bound(|ops|, |ops|)
  {
    hide *;
    tree := new Tree();
    NoNodes();
    tree.CountIsSize();
    Run(tree, ops);
    NothingStored(tree.rotations, tree.t, Bound(|ops|, |ops|));
  }

  lemma NoNodes()
    ensures Nodes(Leaf) == {}
  {
  }

  lemma NothingStored(d: nat, after: Shape, bound: nat)
    requires Covered(d, Leaf, after, bound)
    ensures d <= bound
  {
  }

  // ----- Searches are not paid for

  /** All the way to the left, without right children. */
  ghost predicate LeftSpine(t: Shape) {
    t.Leaf? || (t.r.Leaf? && LeftSpine(t.l))
  }

  /** The path to a hole with nothing behind it ends right of the root, if that has no right child. */
  lemma {:induction false} LastHole(path: Path, u: Shape)
    requires After(path) == [] && path.Down?
    ensures Plug(path, u).Bin?
    ensures Plug(path, u).r.Leaf? ==> u.Leaf? && path == Down(OnRight(Plug(path, u).l, Plug(path, u).x), Top)
    decreases path
  {
    match path
    case Down(OnRight(s, p), up) => if up.Down? { LastHole(up, Bin(s, p, u)); }
    case Down(OnLeft(p, s), up) =>
  }

  /** A key larger than all others is put on top of a spine. */
  lemma SpineGrows(t: Shape, path: Path, c: Cells, z: Node, key: int)
    requires LeftSpine(t) && At(t, path, Leaf, c, key) && forall n :: n in InOrder(t) ==> n in c && c[n].key < key
    ensures SplayUp(path, Leaf, z, Leaf) == Bin(t, z, Leaf)
  {
    PlugInOrder(path, Leaf);
    NoneAfter(InOrder(t), Before(path), After(path), c, key);
    if path.Down? { LastHole(path, Leaf); }
  }

  lemma NoneAfter(s: seq<Node>, b: seq<Node>, u: seq<Node>, c: Cells, key: int)
    requires s == b + [] + u && KeysAbove(u, c, key) && forall n :: n in s ==> n in c && c[n].key < key
    ensures u == []
  {
    if u != [] { Member(s, b, u, 0); }
  }

  lemma Member(s: seq<Node>, b: seq<Node>, u: seq<Node>, i: nat)
    requires s == b + [] + u && i < |u|
    ensures u[i] in s
  {
    assert s[|b| + i] == u[i];
  }

  /** A search for the first key, or for one before it, goes all the way down. */
  lemma {:induction false} SpineCost(t: Shape, c: Cells, key: int)
    requires LeftSpine(t) && Sorted(InOrder(t), c)
    requires forall i :: 0 <= i < |InOrder(t)| ==> InOrder(t)[i] in c && key <= c[InOrder(t)[i]].key
    ensures Comparisons(t, c, key) >= 2 * |InOrder(t)| - 1
    ensures (forall i :: 0 <= i < |InOrder(t)| ==> key < c[InOrder(t)[i]].key) ==>
      Comparisons(t, c, key) == 2 * |InOrder(t)|
  {
    if t.Bin? {
      var s, l := InOrder(t), InOrder(t.l);
      assert s == l + [t.x];
      assert s[|l|] == t.x;
      assert forall i :: 0 <= i < |l| ==> l[i] == s[i];
      SpineCost(t.l, c, key);
      if l != [] { assert c[s[0]].key < c[s[|l|]].key; }
    }
  }

  /** The keys from 0 to `n` - 1. */
  ghost function FirstKeys(n: nat): (m: map<int, nat>)
    ensures forall key :: key in m <==> 0 <= key < n
  {
    if n == 0 then map[] else FirstKeys(n - 1)[n - 1 := 0]
  }

  lemma FirstKeysOn(n: nat)
    ensures FirstKeys(0) == map[] && n !in FirstKeys(n) && FirstKeys(n)[n := 0] == FirstKeys(n + 1)
  {
  }

  lemma KeysUpTo(s: seq<Node>, c: Cells, n: nat)
    requires Sorted(s, c) && Dict(s, c) == FirstKeys(n)
    ensures forall x :: x in s ==> x in c && 0 <= c[x].key < n
  {
    hide Dict;
    DictLookup(s, c);
  }

  lemma KeysOf(tree: Tree, n: nat)
    requires tree.Valid() && tree.Contents() == FirstKeys(n)
    ensures forall x :: x in InOrder(tree.t) ==> x in tree.Stored() && 0 <= tree.Stored()[x].key < n
    ensures Sorted(InOrder(tree.t), tree.Stored()) && |InOrder(tree.t)| == tree.nodeCount
  {
    hide FirstKeys;
    KeysUpTo(InOrder(tree.t), tree.Stored(), n);
  }

  lemma SpineEmpty()
    ensures LeftSpine(Leaf)
  {
  }

  lemma SpineNow(t: Shape, z: Node)
    ensures LeftSpine(t) ==> LeftSpine(Bin(t, z, Leaf))
  {
  }

  /** The keys 0 to n - 1, put in in this order, make a spine. */
  method Spine(tree: Tree, n: nat)
    requires tree.Valid() && tree.t == Leaf && tree.Contents() == FirstKeys(0) && tree.nodeCount == 0
    modifies tree
    ensures tree.Valid() && LeftSpine(tree.t) && tree.Contents() == FirstKeys(n) && tree.nodeCount == n
    ensures fresh(Nodes(tree.t))
  {
    hide *;
    NoNodes();
    SpineEmpty();
    for k := 0 to n
      invariant tree.Valid() && fresh(Nodes(tree.t)) && LeftSpine(tree.t)
      invariant tree.Contents() == FirstKeys(k) && tree.nodeCount == k
    {
      ghost var N := Nodes(tree.t);
      label L:
      PutLast(tree, k);
      assert fresh@L(Nodes(tree.t) - N);
      assert forall x :: x in Nodes(tree.t) && x !in N ==> !old@L(allocated(x)) && fresh(x);
    }
  }

  /** A key larger than all others is put in. */
  method PutLast(tree: Tree, k: nat)
    requires tree.Valid() && LeftSpine(tree.t) && tree.Contents() == FirstKeys(k)
    modifies tree, Nodes(tree.t)
    ensures tree.Valid() && LeftSpine(tree.t) && tree.Contents() == FirstKeys(k + 1)
    ensures fresh(Nodes(tree.t) - old(Nodes(tree.t))) && tree.nodeCount == old(tree.nodeCount) + 1
  {
    hide *;
    ghost var before, c := tree.t, tree.Stored();
    KeysOf(tree, k);
    FirstKeysOn(k);
    var inserted, path := tree.TreeInsert(k, 0);
    SpineGrows(before, path, c, tree.root, k);
    SpineNow(before, tree.root);
  }

  /** On the first of the keys, or before it, and without a splay. */
  ghost predicate Idles(op: Op, n: nat) {
    op.key <= 0 && !Splays(FirstKeys(n), op)
  }

  lemma IdlesIs(op: Op, n: nat)
    requires Idles(op, n) && n > 0
    ensures match op
      case Insert(key, _) => key <= 0 && key in FirstKeys(n)
      case Remove(key) => key < 0 && key !in FirstKeys(n) && FirstKeys(n) - {key} == FirstKeys(n)
      case Find(key) => key <= 0
      case Nearest(key) => key <= 0
  {
  }

  lemma SpineSearch(tree: Tree, n: nat, key: int)
    requires tree.Valid() && LeftSpine(tree.t) && tree.Contents() == FirstKeys(n) && tree.nodeCount == n && key <= 0
    ensures Comparisons(tree.t, tree.Stored(), key) >= 2 * n - 1
    ensures key < 0 ==> Comparisons(tree.t, tree.Stored(), key) == 2 * n
  {
    hide *;
    KeysOf(tree, n);
    SpineCost(tree.t, tree.Stored(), key);
  }

  /** It looks at every key, and leaves the tree as it is. */
  method Idle(tree: Tree, op: Op, n: nat)
    requires n > 0 && Idles(op, n)
    requires tree.Valid() && LeftSpine(tree.t) && tree.Contents() == FirstKeys(n) && tree.nodeCount == n
    modifies tree, Nodes(tree.t)
    ensures tree.Valid() && tree.t == old(tree.t) && tree.Contents() == FirstKeys(n) && tree.nodeCount == n
    ensures tree.comparisonCount >= old(tree.comparisonCount) + n
  {
    IdlesIs(op, n);
    hide *;
    SpineSearch(tree, n, op.key);
    match op {
      case Insert(key, record) => var inserted, path := tree.TreeInsert(key, record);
      case Remove(key) => var r := tree.TreeRemove(key);
      case Find(key) => var r := tree.TreeFind(key);
      case Nearest(key) => var r := tree.TreeFindNearest(key);
    }
  }

  lemma OneMore(k: nat, n: nat)
    ensures 0 * n == 0 && (k + 1) * n == k * n + n
  {
  }

  /** Each of these operations looks at all `n` keys, and does so again as often as it is repeated: no bound of the
      kind above holds for any operation that does not splay. */
  method IdlingCosts(n: nat, times: nat, op: Op) returns (tree: Tree)
    requires n > 0 && Idles(op, n)
    ensures tree.Valid() && tree.Contents() == FirstKeys(n) && tree.comparisonCount >= times * n
  {
    hide *;
    tree := new Tree();
    tree.CountIsSize();
    FirstKeysOn(0);
    label L:
    Spine(tree, n);
    assert fresh@L(Nodes(tree.t));
    assert forall x :: x in Nodes(tree.t) ==> !old@L(allocated(x)) && fresh(x);
    OneMore(0, n);
    for k := 0 to times
      invariant tree.Valid() && tree.nodeCount == n && tree.comparisonCount >= k * n
      invariant LeftSpine(tree.t) && tree.Contents() == FirstKeys(n) && fresh(tree) && fresh(Nodes(tree.t))
    {
      Idle(tree, op, n);
      OneMore(k, n);
    }
  }
}
