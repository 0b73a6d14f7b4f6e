/** How the pointers of a tree change when a node is taken out (replace and tree_remove of stree.c). */
module Removal {
  import opened TreeShape
  import opened Rotations
  import opened SplaySpec

  /** The assignments of replace. */
  ghost function Replaced(c: Cells, u: Node, v: Node?, p: Node?): Cells
    requires (p != null ==> p in c) && (v != null ==> v in c)
  {
    Reparented(Rehung(c, p, u, v), v, p)
  }

  lemma LinkKeys(c: Cells, n: Node, v: Cell)
    requires n in c && v.key == c[n].key && v.record == c[n].record
    ensures SameKeys(c, c[n := v])
  {
  }

  lemma ReplacedKeys(c: Cells, u: Node, v: Node?, p: Node?)
    requires (p != null ==> p in c) && (v != null ==> v in c)
    ensures SameKeys(c, Replaced(c, u, v, p))
  {
    var d := Rehung(c, p, u, v);
    assert SameKeys(c, d) by {
      if p != null {
        LinkKeys(c, p, c[p].(left := v));
        LinkKeys(c, p, c[p].(right := v));
      }
    }
    if v != null { LinkKeys(d, v, d[v].(parent := p)); }
  }

  /** `s` has one child only, `only`. */
  ghost predicate OneChild(s: Shape, only: Shape) {
    s.Bin? && ((s.l == Leaf && s.r == only) || (s.r == Leaf && s.l == only))
  }

  /** Replacing a node that has one child by that child takes just this node out. */
  lemma SpliceOut(path: Path, s: Shape, only: Shape, c: Cells)
    requires OneChild(s, only) && Linked(Plug(path, s), c)
    ensures s.x in c && (ParentOf(path) != null ==> ParentOf(path) in c) && (Root(only) != null ==> Root(only) in c)
    ensures Agree(Plug(path, only), null, Replaced(c, s.x, Root(only), ParentOf(path)))
    ensures Distinct(Plug(path, only)) && Nodes(Plug(path, only)) == c.Keys - {s.x}
  {
    Unplug(path, s, c);
    OneChildFacts(s, only, ParentOf(path), c);
    PlugNodes(path, s);
    PlugNodes(path, only);
    hide OneChild, Linked, Nodes, PathNodes, Plug, Distinct, PathDistinct;
    AgreeNodes(only, s.x, c);
    SpliceAgree(path, s.x, only, c);
  }

  lemma OneChildFacts(s: Shape, only: Shape, p: Node?, c: Cells)
    requires OneChild(s, only) && Agree(s, p, c) && Distinct(s)
    ensures s.Bin? && s.x in c && Agree(only, s.x, c) && Distinct(only)
    ensures s.x !in Nodes(only) && Nodes(s) == Nodes(only) + {s.x} && (Root(only) != null ==> Root(only) in Nodes(only))
  {
  }

  lemma SpliceAgree(path: Path, x: Node, only: Shape, c: Cells)
    requires PathAgree(path, x, c) && Agree(only, x, c) && PathDistinct(path) && Distinct(only)
    requires PathNodes(path) !! Nodes(only) && x !in PathNodes(path) && x !in Nodes(only)
    requires Root(only) != null ==> Root(only) in c
    ensures ParentOf(path) != null ==> ParentOf(path) in c
    ensures Agree(Plug(path, only), null, Replaced(c, x, Root(only), ParentOf(path)))
  {
    var p := ParentOf(path);
    RehangAgree(path, x, Root(only), c);
    PathAgreeNodes(path, x, c);
    AgreeNodes(only, x, c);
    var d := Rehung(c, p, x, Root(only));
    var e := Reparented(d, Root(only), p);
    AgreeFrame(only, x, c, d);
    ReparentAgree(only, x, p, d);
    PathAgreeFrame(path, Root(only), d, e);
    PlugAgree(path, only, e);
  }

  // ----- The successor takes the place of the root

  /** `y->right = r; r->parent = y`, and the same on the left. */
  ghost function RightUnder(c: Cells, y: Node, r: Node): Cells
    requires y in c && r in c
  {
    Reparented(c[y := c[y].(right := r)], r, y)
  }

  ghost function LeftUnder(c: Cells, y: Node, l: Node): Cells
    requires y in c && l in c
  {
    Reparented(c[y := c[y].(left := l)], l, y)
  }

  lemma RightUnderAgree(L: Shape, z: Node, R: Shape, y: Node, c: Cells)
    requires Agree(L, z, c) && Agree(R, z, c) && R.Bin? && Distinct(R) && y in c
    requires y !in Nodes(L) && y !in Nodes(R) && Nodes(L) !! Nodes(R)
    ensures R.x in c && R.x != y
    ensures var d := RightUnder(c, y, R.x); Agree(L, z, d) && Agree(R, y, d) && d[y].right == R.x
  {
    AgreeNodes(L, z, c);
    AgreeNodes(R, z, c);
    var d := c[y := c[y].(right := R.x)];
    AgreeFrame(R, z, c, d);
    ReparentAgree(R, z, y, d);
    AgreeFrame(L, z, c, RightUnder(c, y, R.x));
  }

  lemma UnderKeys(c: Cells, y: Node, n: Node)
    requires y in c && n in c
    ensures SameKeys(c, RightUnder(c, y, n)) && SameKeys(c, LeftUnder(c, y, n)) && SameKeys(c, Reparented(c, y, null))
  {
    LinkKeys(c, y, c[y].(parent := null));
    LinkKeys(c, y, c[y].(right := n));
    LinkKeys(c, y, c[y].(left := n));
    var d, e := c[y := c[y].(right := n)], c[y := c[y].(left := n)];
    LinkKeys(d, n, d[n].(parent := y));
    LinkKeys(e, n, e[n].(parent := y));
  }

  /** With its right subtree in place, `y` becomes the root with `L` on its left. */
  lemma Crown(L: Shape, z: Node, R: Shape, y: Node, c: Cells)
    requires Agree(L, z, c) && Agree(R, y, c) && L.Bin? && Distinct(L) && y in c && c[y].right == Root(R)
    requires y !in Nodes(L) && y !in Nodes(R) && Nodes(L) !! Nodes(R)
    ensures L.x in c && L.x != y
    ensures var d := LeftUnder(Reparented(c, y, null), y, L.x); Agree(Bin(L, y, R), null, d)
  {
    AgreeNodes(L, z, c);
    AgreeNodes(R, y, c);
    assert L.x in Nodes(L) && Root(L) == L.x;
    var d := Reparented(c, y, null);
    var e := d[y := d[y].(left := L.x)];
    var f := LeftUnder(d, y, L.x);
    CrownCells(c, y, L.x);
    hide *;
    AgreeFrame(L, z, c, e);
    ReparentAgree(L, z, y, e);
    AgreeFrame(R, y, c, f);
    RootAgrees(L, y, R, f);
  }

  lemma CrownCells(c: Cells, y: Node, l: Node)
    requires y in c && l in c && l != y
    ensures var d := Reparented(c, y, null); var e, f := d[y := d[y].(left := l)], LeftUnder(d, y, l);
      && f == Reparented(e, l, y) && e.Keys == f.Keys == c.Keys
      && (forall n :: n in c && n != y ==> e[n] == c[n])
      && (forall n :: n in c && n != y && n != l ==> f[n] == c[n])
      && f[y] == c[y].(parent := null, left := l)
  {
  }

  lemma RootAgrees(L: Shape, y: Node, R: Shape, c: Cells)
    requires y in c && c[y].left == Root(L) && c[y].right == Root(R) && c[y].parent == null
    requires Agree(L, y, c) && Agree(R, y, c)
    ensures Agree(Bin(L, y, R), null, c)
  {
  }

  /** Only the nodes of the tree matter. */
  lemma Trimmed(t: Shape, c: Cells, d: Cells)
    requires Agree(t, null, c) && Distinct(t) && d.Keys == Nodes(t)
    requires forall n :: n in d ==> n in c && d[n] == c[n]
    ensures Linked(t, d)
  {
    AgreeFrame(t, null, c, d);
  }

  // ----- Paths that continue

  ghost function Append(q: Path, base: Path): Path {
    if q.Top? then base else Down(q.f, Append(q.up, base))
  }

  lemma {:induction false} AppendPlug(q: Path, base: Path, s: Shape)
    ensures Plug(Append(q, base), s) == Plug(base, Plug(q, s))
  {
    match q
    case Top =>
    case Down(OnLeft(p, sib), up) => AppendPlug(up, base, Bin(s, p, sib));
    case Down(OnRight(sib, p), up) => AppendPlug(up, base, Bin(sib, p, s));
  }

  /** Taking the first node of the right subtree to the root, and the root out, keeps the order of the rest. */
  lemma SuccessorOrder(L: Shape, z: Node, q: Path, y: Node, D: Shape)
    requires Before(q) == []
    ensures InOrder(Bin(L, y, Plug(q, D))) == InOrder(L) + InOrder(Plug(q, Bin(Leaf, y, D)))
  {
    PlugInOrder(q, D);
    PlugInOrder(q, Bin(Leaf, y, D));
    assert InOrder(Bin(Leaf, y, D)) == [y] + InOrder(D);
    assert InOrder(Bin(L, y, Plug(q, D))) == InOrder(L) + [y] + InOrder(Plug(q, D));
    hide InOrder, Plug, Before, After;
    Shift(InOrder(L), y, InOrder(D), After(q));
  }

  lemma Shift(l: seq<Node>, y: Node, d: seq<Node>, u: seq<Node>)
    ensures l + [y] + ([] + d + u) == l + ([] + ([y] + d) + u)
  {
    assert [] + d + u == d + u;
    assert [] + ([y] + d) + u == [y] + (d + u);
  }

  /** The entries that are left when a node is taken out of the order. */
  lemma RemovedEntries(s: seq<Node>, z: Node, u: seq<Node>, c: Cells, d: Cells)
    requires Sorted(s + [z] + u, c) && AgreeOn(s + u, c, d)
    ensures z in c && c[z].key in Dict(s + [z] + u, c) && Dict(s + [z] + u, c)[c[z].key] == c[z].record
    ensures Sorted(s + u, d) && Dict(s + u, d) == Dict(s + [z] + u, c) - {c[z].key}
  {
    DictInsert(s, z, u, c);
    SortedSame(s + u, c, d);
    DictSame(s + u, c, d);
  }

  /** The root `z` is out of use: its left subtree is `L`, and `y` has the right subtree `R` but not yet the
      root's place. */
  ghost predicate RootGone(L: Shape, z: Node, R: Shape, y: Node, c: Cells) {
    && Agree(L, z, c) && Agree(R, y, c) && y in c && c[y].right == Root(R)
    && z in c && z != y && c[z].parent == null && c[z].left == Root(L)
    && Distinct(Bin(L, y, R)) && c.Keys == Nodes(Bin(L, y, R)) + {z} && z !in Nodes(Bin(L, y, R))
  }

  /** If the successor is the right child, nothing more needs to be done before it is put on top. */
  lemma Successor(L: Shape, z: Node, q: Path, y: Node, D: Shape, c: Cells)
    requires Linked(Bin(L, z, Plug(q, Bin(Leaf, y, D))), c)
    ensures y in c && (c[y].parent == z <==> q.Top?)
    ensures q.Top? ==> RootGone(L, z, Plug(q, D), y, c)
    ensures Nodes(Bin(L, y, Plug(q, D))) == c.Keys - {z}
  {
    var base := Down(OnRight(L, z), Top);
    AppendPlug(q, base, Bin(Leaf, y, D));
    Unplug(Append(q, base), Bin(Leaf, y, D), c);
    PlugNodes(q, Bin(Leaf, y, D));
    PlugNodes(q, D);
    assert q.Down? ==> q.f.p in PathNodes(q);
  }

  lemma BroughtUp(L: Shape, z: Node, q: Path, y: Node, D: Shape, c: Cells)
    requires Linked(Bin(L, z, Plug(q, Bin(Leaf, y, D))), c) && q.Down?
    ensures y in c && ParentOf(q) in c && c[y].parent == ParentOf(q) && c[y].right == Root(D)
    ensures Root(D) != null ==> Root(D) in c
    ensures var d := Replaced(c, y, Root(D), ParentOf(q)); BringsUp(L, z, Plug(q, D), y, c, d)
  {
    var base := Down(OnRight(L, z), Top);
    var s := Bin(Leaf, y, D);
    AppendPlug(q, base, s);
    AppendPlug(q, base, D);
    Unplug(Append(q, base), s, c);
    AgreeNodes(D, y, c);
    SpliceOut(Append(q, base), s, D, c);
    ReplacedKeys(c, y, Root(D), ParentOf(q));
    PlugRoot(q, D, D);
    hide Replaced, Linked, PathAgree, PathDistinct, SameKeys;
    RightSide(L, z, Plug(q, D), y, c, Replaced(c, y, Root(D), ParentOf(q)));
  }

  ghost predicate BringsUp(L: Shape, z: Node, R: Shape, y: Node, c: Cells, d: Cells) {
    && y in d && z in d && d[z].right != null && d[z].right in d && y != z
    && RootGone(L, z, R, y, RightUnder(d, y, d[z].right)) && SameKeys(c, RightUnder(d, y, d[z].right))
  }

  lemma RightSide(L: Shape, z: Node, R: Shape, y: Node, c: Cells, d: Cells)
    requires Agree(Bin(L, z, R), null, d) && Distinct(Bin(L, z, R)) && Nodes(Bin(L, z, R)) == c.Keys - {y}
    requires R.Bin? && y in c && SameKeys(c, d)
    ensures BringsUp(L, z, R, y, c, d)
  {
    RightUnderAgree(L, z, R, y, d);
    UnderKeys(d, y, d[z].right);
  }

  /** The root's place for `y`, with `l` on its left. */
  ghost function Crowning(c: Cells, y: Node, l: Node): Cells
    requires y in c && l in c
  {
    LeftUnder(Reparented(c, y, null), y, l)
  }

  lemma Crowned(L: Shape, z: Node, R: Shape, y: Node, c: Cells)
    requires RootGone(L, z, R, y, c) && L.Bin?
    ensures y in c && z in c && L.x in c && y != z && c[z].parent == null && c[z].left == L.x
    ensures Nodes(Bin(L, y, R)) <= c.Keys && Distinct(Bin(L, y, R))
    ensures Agree(Bin(L, y, R), null, Crowning(c, y, L.x)) && SameKeys(c, Crowning(c, y, L.x))
  {
    Crown(L, z, R, y, c);
    UnderKeys(c, y, L.x);
    UnderKeys(Reparented(c, y, null), y, L.x);
  }

  lemma RemovedSearch(L: Shape, z: Node, R: Shape, t: Shape, c: Cells, e: Cells, d: Cells, m: map<int, nat>, n: nat)
    requires SearchTree(Bin(L, z, R), c, m, n) && InOrder(t) == InOrder(L) + InOrder(R)
    requires SameKeys(c, e) && d.Keys == Nodes(t) <= e.Keys && forall x :: x in d ==> d[x] == e[x]
    ensures z in c && c[z].key in m && m[c[z].key] == c[z].record
    ensures 0 < n && SearchTree(t, d, m - {c[z].key}, n - 1)
  {
    RemainingAgree(t, c, e, d);
    var s, u := InOrder(L), InOrder(R);
    assert InOrder(Bin(L, z, R)) == s + [z] + u;
    hide InOrder, Nodes, Dict, Sorted, AgreeOn;
    RemovedEntries(s, z, u, c, d);
  }

  lemma RemainingAgree(t: Shape, c: Cells, e: Cells, d: Cells)
    requires SameKeys(c, e) && d.Keys == Nodes(t) <= e.Keys && forall x :: x in d ==> d[x] == e[x]
    ensures AgreeOn(InOrder(t), c, d)
  {
    InOrderNodes(t);
  }
}
