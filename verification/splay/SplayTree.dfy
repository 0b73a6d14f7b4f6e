/** The splay tree of stree.c: nodes with parent pointers, updated in place. */
module SplayTree {
  import opened TreeShape
  import opened Rotations
  import opened SplaySpec
  import opened Removal
  import opened SplayCost

  const NULL: nat := 0

  class Tree {
    var root: Node?
    var nodeCount: nat
    var comparisonCount: nat
    ghost var t: Shape
    /** How often right_rotate and left_rotate have run. */
    ghost var rotations: nat

    ghost function Stored(): Cells
      reads this`t, Nodes(t)
    {
      CellsOf(Nodes(t))
    }

    /** The pointers form the tree `t`, without sharing and with parents that match the children. */
    ghost predicate Ok()
      reads this`t, this`root, Nodes(t)
    {
      Linked(t, Stored()) && root == Root(t)
    }

    ghost predicate Valid()
      reads this`t, this`root, this`nodeCount, Nodes(t)
    {
      Ok() && Sorted(InOrder(t), Stored()) && nodeCount == |InOrder(t)|
    }

    /** `n->parent = p`, unless `n` is NULL. */
    static method Reparent(n: Node?, p: Node?, ghost S: set<Node>)
      requires n != null ==> n in S
      modifies if n == null then {} else {n}
      ensures CellsOf(S) == Reparented(old(CellsOf(S)), n, p)
    {
      if n != null {
        SetParent(n, p, S);
      }
    }

    /** The pointer down to `x`, which is the root or a child pointer, is changed to `y`. */
    method Rehang(x: Node, y: Node?, ghost p: Node?, ghost S: set<Node>)
      requires x in S && x.parent == p && (p != null ==> p in S)
      modifies this`root, S
      ensures CellsOf(S) == Rehung(old(CellsOf(S)), p, x, y)
      ensures root == if p == null then y else old(root)
    {
      if x.parent == null {
        root := y;
      } else if x == x.parent.left {
        SetLeft(x.parent, y, S);
      } else {
        SetRight(x.parent, y, S);
      }
    }

    method TakeInnerRight(x: Node, y: Node, ghost S: set<Node>)
      requires {x, y} <= S && x != y && (y.right != null ==> y.right in S)
      requires y.right != y && y.right != x
      modifies S
      ensures CellsOf(S) == InnerRight(old(CellsOf(S)), x, y) && x.parent == old(x.parent)
    {
      SetLeft(x, y.right, S);
      Reparent(y.right, x, S);
      SetParent(y, x.parent, S);
    }

    method DescendRight(x: Node, y: Node, ghost p: Node?, ghost S: set<Node>)
      requires {x, y} <= S && x != y && x.parent == p && (p != null ==> p in S && p != x)
      modifies this`root, S
      ensures CellsOf(S) == OuterRight(old(CellsOf(S)), x, y, p)
      ensures root == if p == null then y else old(root)
    {
      Rehang(x, y, p, S);
      SetRight(y, x, S);
      SetParent(x, y, S);
    }

    /** The assignments of right_rotate, on a node with a left child. */
    method RightRotate(x: Node, ghost S: set<Node>)
      requires CanRotateRight(CellsOf(S), x)
      modifies this`root, this`rotations, S
      ensures CellsOf(S) == RotatedRight(old(CellsOf(S)), x) && rotations == old(rotations) + 1
      ensures root == if old(x.parent) == null then old(x.left) else old(root)
    {
      hide *;
      ghost var c := CellsOf(S);
      TouchedRight(c, x);
      FieldsOf(x, S);
      var y := x.left;
      FieldsOf(y, S);
      TakeInnerRight(x, y, S);
      DescendRight(x, y, c[x].parent, S);
      RotatedRightIs(c, x);
      rotations := rotations + 1;
    }

    method TakeInnerLeft(x: Node, y: Node, ghost S: set<Node>)
      requires {x, y} <= S && x != y && (y.left != null ==> y.left in S)
      requires y.left != y && y.left != x
      modifies S
      ensures CellsOf(S) == InnerLeft(old(CellsOf(S)), x, y) && x.parent == old(x.parent)
    {
      SetRight(x, y.left, S);
      Reparent(y.left, x, S);
      SetParent(y, x.parent, S);
    }

    method DescendLeft(x: Node, y: Node, ghost p: Node?, ghost S: set<Node>)
      requires {x, y} <= S && x != y && x.parent == p && (p != null ==> p in S && p != x)
      modifies this`root, S
      ensures CellsOf(S) == OuterLeft(old(CellsOf(S)), x, y, p)
      ensures root == if p == null then y else old(root)
    {
      Rehang(x, y, p, S);
      SetLeft(y, x, S);
      SetParent(x, y, S);
    }

    /** The assignments of left_rotate, on a node with a right child. */
    method LeftRotate(x: Node, ghost S: set<Node>)
      requires CanRotateLeft(CellsOf(S), x)
      modifies this`root, this`rotations, S
      ensures CellsOf(S) == RotatedLeft(old(CellsOf(S)), x) && rotations == old(rotations) + 1
      ensures root == if old(x.parent) == null then old(x.right) else old(root)
    {
      hide *;
      ghost var c := CellsOf(S);
      TouchedLeft(c, x);
      FieldsOf(x, S);
      var y := x.right;
      FieldsOf(y, S);
      TakeInnerLeft(x, y, S);
      DescendLeft(x, y, c[x].parent, S);
      RotatedLeftIs(c, x);
      rotations := rotations + 1;
    }

    lemma OkParts()
      requires Ok()
      ensures Linked(t, Stored()) && root == Root(t) && Stored() == CellsOf(Nodes(t))
    {
    }

    lemma OkFrom()
      requires Linked(t, CellsOf(Nodes(t))) && root == Root(t)
      ensures Ok()
    {
    }

    /** The shape the pointers of `S` have now. */
    ghost method Reshape(u: Shape, S: set<Node>)
      requires Linked(u, CellsOf(S)) && Nodes(u) == S && root == Root(u)
      modifies this`t
      ensures Ok() && t == u && Stored() == CellsOf(S)
    {
      t := u;
    }

    // ----- Splaying

    /** right_rotate turns (A y B) x C into A y (B x C). */
    method Lift(x: Node, ghost path: Path, ghost A: Shape, ghost y: Node, ghost B: Shape, ghost C: Shape)
      requires Ok() && t == Plug(path, Bin(Bin(A, y, B), x, C))
      modifies this`root, this`t, this`rotations, Nodes(t)
      ensures Ok() && t == Plug(path, Bin(A, y, Bin(B, x, C)))
      ensures Nodes(t) == old(Nodes(t)) && SameKeys(old(Stored()), Stored())
      ensures rotations == old(rotations) + 1
    {
      hide *;
      OkParts();
      ghost var S := Nodes(t);
      Lifting(path, A, y, B, x, C, CellsOf(S));
      TouchedRight(CellsOf(S), x);
      FieldsOf(x, S);
      RightRotate(x, S);
      Reshape(Plug(path, Bin(A, y, Bin(B, x, C))), S);
    }

    /** left_rotate turns A x (B y C) into (A x B) y C. */
    method LiftLeft(x: Node, ghost path: Path, ghost A: Shape, ghost B: Shape, ghost y: Node, ghost C: Shape)
      requires Ok() && t == Plug(path, Bin(A, x, Bin(B, y, C)))
      modifies this`root, this`t, this`rotations, Nodes(t)
      ensures Ok() && t == Plug(path, Bin(Bin(A, x, B), y, C))
      ensures Nodes(t) == old(Nodes(t)) && SameKeys(old(Stored()), Stored())
      ensures rotations == old(rotations) + 1
    {
      hide *;
      OkParts();
      ghost var S := Nodes(t);
      LiftingLeft(path, A, x, B, y, C, CellsOf(S));
      TouchedLeft(CellsOf(S), x);
      FieldsOf(x, S);
      LeftRotate(x, S);
      Reshape(Plug(path, Bin(Bin(A, x, B), y, C)), S);
    }

    /** splay: the loop ends because the way up from `x` gets shorter each time round. */
    method Splay(x: Node, ghost path: Path, ghost a: Shape, ghost b: Shape)
      requires Ok() && t == Plug(path, Bin(a, x, b))
      modifies this`root, this`t, this`rotations, Nodes(t)
      ensures Ok() && t == SplayUp(path, a, x, b)
      ensures Nodes(t) == old(Nodes(t)) && SameKeys(old(Stored()), Stored())
      ensures rotations == old(rotations) + Length(path)
    {
      hide *;
      ghost var p, l, r, c := path, a, b, Stored();
      ParentIn(path, a, x, b);
      SameKeysTrans(c, c, c);
      while x.parent != null
        invariant Ok() && t == Plug(p, Bin(l, x, r)) && SplayUp(p, l, x, r) == SplayUp(path, a, x, b)
        invariant Nodes(t) == old(Nodes(t)) && SameKeys(c, Stored())
        invariant x.parent == ParentOf(p) && rotations + Length(p) == old(rotations) + Length(path)
        decreases Length(p)
      {
        AtTop(p);
        ghost var d := Stored();
        if x.parent.parent == null {
          p, l, r := Zig(x, p, l, r);
        } else {
          p, l, r := ZigZigOrZag(x, p, l, r);
        }
        SameKeysTrans(c, d, Stored());
      }
      AtTop(p);
      SplayTop(l, x, r);
    }

    method Zig(x: Node, ghost path: Path, ghost a: Shape, ghost b: Shape)
      returns (ghost p: Path, ghost l: Shape, ghost r: Shape)
      requires Ok() && t == Plug(path, Bin(a, x, b)) && x.parent == ParentOf(path) && path.Down?
      requires x.parent != null && x.parent.parent == null
      modifies this`root, this`t, this`rotations, Nodes(t)
      ensures Ok() && t == Plug(p, Bin(l, x, r)) && SplayUp(p, l, x, r) == SplayUp(path, a, x, b)
      ensures Nodes(t) == old(Nodes(t)) && SameKeys(old(Stored()), Stored())
      ensures rotations + Length(p) == old(rotations) + Length(path)
      ensures x.parent == ParentOf(p) && Length(p) < Length(path)
    {
      ParentAbove(path, a, x, b, Stored());
      ghost var f := path.f;
      p := Top;
      hide Linked, Nodes;
      if x.parent.left == x {
        Lift(x.parent, Top, a, x, b, f.sib);
        l, r := a, Bin(b, f.p, f.sib);
      } else {
        LiftLeft(x.parent, Top, f.sib, a, x, b);
        l, r := Bin(f.sib, f.p, a), b;
      }
      ParentIs(p, l, x, r, Stored());
    }

    method ZigZigOrZag(x: Node, ghost path: Path, ghost a: Shape, ghost b: Shape)
      returns (ghost p: Path, ghost l: Shape, ghost r: Shape)
      requires Ok() && t == Plug(path, Bin(a, x, b)) && x.parent == ParentOf(path) && path.Down?
      requires x.parent != null && x.parent.parent != null
      modifies this`root, this`t, this`rotations, Nodes(t)
      ensures Ok() && t == Plug(p, Bin(l, x, r)) && SplayUp(p, l, x, r) == SplayUp(path, a, x, b)
      ensures Nodes(t) == old(Nodes(t)) && SameKeys(old(Stored()), Stored())
      ensures rotations + Length(p) == old(rotations) + Length(path)
      ensures x.parent == ParentOf(p) && Length(p) < Length(path)
    {
      ParentAbove(path, a, x, b, Stored());
      GrandparentAbove(path, a, x, b, Stored());
      ghost var f, g := path.f, path.up.f;
      p := path.up.up;
      hide Linked, Nodes;
      if x.parent.left == x && x.parent.parent.left == x.parent {
        l, r := a, Bin(b, f.p, Bin(f.sib, g.p, g.sib));
        ZigZigRight(x, path, a, b);
      } else if x.parent.right == x && x.parent.parent.right == x.parent {
        l, r := Bin(Bin(g.sib, g.p, f.sib), f.p, a), b;
        ZigZigLeft(x, path, a, b);
      } else if x.parent.left == x && x.parent.parent.right == x.parent {
        l, r := Bin(g.sib, g.p, a), Bin(b, f.p, f.sib);
        ZigZagRightLeft(x, path, a, b);
      } else {
        l, r := Bin(f.sib, f.p, a), Bin(b, g.p, g.sib);
        ZigZagLeftRight(x, path, a, b);
      }
      ParentIs(p, l, x, r, Stored());
    }

    method ZigZigRight(x: Node, ghost path: Path, ghost a: Shape, ghost b: Shape)
      requires Ok() && t == Plug(path, Bin(a, x, b)) && x.parent != null && x.parent == ParentOf(path)
      requires path.Down? && path.up.Down? && path.f.OnLeft? && path.up.f.OnLeft? && x.parent.parent == path.up.f.p
      modifies this`root, this`t, this`rotations, Nodes(t)
      ensures var f, g := path.f, path.up.f;
        Ok() && t == Plug(path.up.up, Bin(a, x, Bin(b, f.p, Bin(f.sib, g.p, g.sib))))
      ensures Nodes(t) == old(Nodes(t)) && SameKeys(old(Stored()), Stored())
      ensures rotations == old(rotations) + 2
    {
      ghost var f, g, up := path.f, path.up.f, path.up.up;
      hide Linked, Nodes;
      Lift(x.parent.parent, up, Bin(a, x, b), f.p, f.sib, g.sib);
      ParentIn(Down(OnLeft(f.p, Bin(f.sib, g.p, g.sib)), up), a, x, b);
      Lift(x.parent, up, a, x, b, Bin(f.sib, g.p, g.sib));
    }

    method ZigZigLeft(x: Node, ghost path: Path, ghost a: Shape, ghost b: Shape)
      requires Ok() && t == Plug(path, Bin(a, x, b)) && x.parent != null && x.parent == ParentOf(path)
      requires path.Down? && path.up.Down? && path.f.OnRight? && path.up.f.OnRight? && x.parent.parent == path.up.f.p
      modifies this`root, this`t, this`rotations, Nodes(t)
      ensures var f, g := path.f, path.up.f;
        Ok() && t == Plug(path.up.up, Bin(Bin(Bin(g.sib, g.p, f.sib), f.p, a), x, b))
      ensures Nodes(t) == old(Nodes(t)) && SameKeys(old(Stored()), Stored())
      ensures rotations == old(rotations) + 2
    {
      ghost var f, g, up := path.f, path.up.f, path.up.up;
      hide Linked, Nodes;
      LiftLeft(x.parent.parent, up, g.sib, f.sib, f.p, Bin(a, x, b));
      ParentIn(Down(OnRight(Bin(g.sib, g.p, f.sib), f.p), up), a, x, b);
      LiftLeft(x.parent, up, Bin(g.sib, g.p, f.sib), a, x, b);
    }

    method ZigZagRightLeft(x: Node, ghost path: Path, ghost a: Shape, ghost b: Shape)
      requires Ok() && t == Plug(path, Bin(a, x, b)) && x.parent != null && x.parent == ParentOf(path)
      requires path.Down? && path.up.Down? && path.f.OnLeft? && path.up.f.OnRight? && x.parent.parent == path.up.f.p
      modifies this`root, this`t, this`rotations, Nodes(t)
      ensures var f, g := path.f, path.up.f;
        Ok() && t == Plug(path.up.up, Bin(Bin(g.sib, g.p, a), x, Bin(b, f.p, f.sib)))
      ensures Nodes(t) == old(Nodes(t)) && SameKeys(old(Stored()), Stored())
      ensures rotations == old(rotations) + 2
    {
      ghost var f, g, up := path.f, path.up.f, path.up.up;
      hide Linked, Nodes;
      Lift(x.parent, path.up, a, x, b, f.sib);
      ParentIn(path.up, a, x, Bin(b, f.p, f.sib));
      LiftLeft(x.parent, up, g.sib, a, x, Bin(b, f.p, f.sib));
    }

    method ZigZagLeftRight(x: Node, ghost path: Path, ghost a: Shape, ghost b: Shape)
      requires Ok() && t == Plug(path, Bin(a, x, b)) && x.parent != null && x.parent == ParentOf(path)
      requires path.Down? && path.up.Down? && path.f.OnRight? && path.up.f.OnLeft? && x.parent.parent == path.up.f.p
      modifies this`root, this`t, this`rotations, Nodes(t)
      ensures var f, g := path.f, path.up.f;
        Ok() && t == Plug(path.up.up, Bin(Bin(f.sib, f.p, a), x, Bin(b, g.p, g.sib)))
      ensures Nodes(t) == old(Nodes(t)) && SameKeys(old(Stored()), Stored())
      ensures rotations == old(rotations) + 2
    {
      ghost var f, g, up := path.f, path.up.f, path.up.up;
      hide Linked, Nodes;
      LiftLeft(x.parent, path.up, f.sib, a, x, b);
      ParentIn(path.up, Bin(f.sib, f.p, a), x, b);
      Lift(x.parent, up, Bin(f.sib, f.p, a), x, b, g.sib);
    }

    lemma ParentIn(path: Path, a: Shape, x: Node, b: Shape)
      requires Ok() && t == Plug(path, Bin(a, x, b))
      ensures x in Nodes(t) && x.parent == ParentOf(path)
    {
      ParentIs(path, a, x, b, Stored());
    }

    // ----- The dictionary

    /** The entries of the tree. */
    ghost function Contents(): map<int, nat>
      requires Valid()
      reads this`t, this`root, this`nodeCount, Nodes(t)
    {
      Dict(InOrder(t), Stored())
    }

    /** The tree is a search tree of `n` nodes whose entries are `m`. */
    ghost predicate Holds(m: map<int, nat>, n: nat)
      reads this`t, this`root, Nodes(t)
    {
      Ok() && SearchTree(t, Stored(), m, n)
    }

    lemma Parts()
      requires Valid()
      ensures Holds(Contents(), nodeCount)
    {
    }

    /** node_count is the number of keys. */
    lemma CountIsSize()
      requires Valid()
      ensures nodeCount == |Contents()|
    {
      DictSize(InOrder(t), Stored());
    }

    lemma HoldsParts(m: map<int, nat>, n: nat)
      requires Holds(m, n)
      ensures Ok() && Linked(t, Stored()) && SearchTree(t, Stored(), m, n) && root == Root(t)
      ensures Stored() == CellsOf(Nodes(t))
    {
    }

    lemma HoldsFrom(m: map<int, nat>, n: nat)
      requires Linked(t, CellsOf(Nodes(t))) && SearchTree(t, CellsOf(Nodes(t)), m, n) && root == Root(t)
      ensures Holds(m, n)
    {
    }

    lemma Whole(m: map<int, nat>, n: nat)
      requires Holds(m, n) && nodeCount == n
      ensures Valid() && Contents() == m
    {
    }

    /** tree_new. */
    constructor ()
      ensures Valid() && Contents() == map[] && t == Leaf && comparisonCount == rotations == 0
    {
      root := null;
      nodeCount, comparisonCount, rotations := 0, 0, 0;
      t := Leaf;
    }

    /** What a search for `key` that has reached `z` knows. */
    ghost predicate Searching(path: Path, s: Shape, z: Node?, key: int)
      reads this`t, Nodes(t)
    {
      At(t, path, s, Stored(), key) && z == Root(s)
    }

    /** tree_find. The record pointer 0 is NULL. */
    method TreeFind(key: int) returns (r: nat)
      requires Valid()
      modifies this`comparisonCount
      ensures Valid() && Contents() == old(Contents()) && Stored() == old(Stored())
      ensures comparisonCount == old(comparisonCount) + Comparisons(t, Stored(), key)
      ensures r == if key in Contents() then Contents()[key] else NULL
    {
      hide *;
      var z := root;
      ghost var path, s, m, c := Top, t, Contents(), Stored();
      SearchStarts(key);
      while z != null
        invariant Stored() == c
        invariant Valid() && Contents() == m && Searching(path, s, z, key)
        invariant comparisonCount + Comparisons(s, c, key) == old(comparisonCount) + Comparisons(t, c, key)
        decreases s
      {
        SearchStep(path, s, z, key);
        comparisonCount := comparisonCount + 1;
        if key == z.key {
          SearchHit(path, s, z, key);
          return z.record;
        }
        comparisonCount := comparisonCount + 1;
        if key > z.key {
          z, path, s := z.right, Down(OnRight(s.l, s.x), path), s.r;
        } else {
          z, path, s := z.left, Down(OnLeft(s.x, s.r), path), s.l;
        }
      }
      SearchMiss(path, s, key);
      return NULL;
    }

    lemma SearchStarts(key: int)
      requires Valid()
      ensures Searching(Top, t, root, key)
    {
      hide Sorted;
    }

    /** A node on the way: its fields, and where the search goes from it. */
    lemma SearchStep(path: Path, s: Shape, z: Node, key: int)
      requires Valid() && Searching(path, s, z, key)
      ensures s.Bin? && s.x == z && z in Nodes(t)
      ensures key > z.key ==> Searching(Down(OnRight(s.l, z), path), s.r, z.right, key)
      ensures key < z.key ==> Searching(Down(OnLeft(z, s.r), path), s.l, z.left, key)
      ensures Comparisons(s, Stored(), key)
           == if key == z.key then 1 else 2 + Comparisons(if key > z.key then s.r else s.l, Stored(), key)
    {
      hide Dict, Sorted, At, Linked, Nodes;
      SearchAt(path, s, z, key);
      NodeHere(path, s);
      if key > z.key { GoRight(t, path, s.l, z, s.r, Stored(), key); }
      if key < z.key { GoLeft(t, path, s.l, z, s.r, Stored(), key); }
    }

    lemma SearchAt(path: Path, s: Shape, z: Node?, key: int)
      requires Searching(path, s, z, key)
      ensures t == Plug(path, s) && z == Root(s)
    {
    }

    lemma SearchHit(path: Path, s: Shape, z: Node, key: int)
      requires Valid() && Searching(path, s, z, key) && s.Bin? && s.x == z && z in Nodes(t) && key == z.key
      ensures t == Plug(path, Bin(s.l, z, s.r)) && key in Contents() && Contents()[key] == z.record
    {
      hide Dict, Sorted, Linked, Nodes;
      Found(t, path, s.l, z, s.r, Stored());
    }

    lemma SearchMiss(path: Path, s: Shape, key: int)
      requires Valid() && Searching(path, s, null, key)
      ensures s == Leaf && At(t, path, Leaf, Stored(), key) && key !in Contents()
      ensures Comparisons(s, Stored(), key) == 0
    {
      hide Dict, Sorted, Linked, Nodes;
      NotFound(t, path, Stored(), key);
    }

    /** The fields of the root of a subtree. */
    lemma NodeHere(path: Path, s: Shape)
      requires Ok() && t == Plug(path, s) && s.Bin?
      ensures s.x in Nodes(t) && s.x.left == Root(s.l) && s.x.right == Root(s.r) && s.x.parent == ParentOf(path)
      ensures s.x.left != null ==> s.x.left in Nodes(t)
      ensures s.x.right != null ==> s.x.right in Nodes(t)
    {
      Unplug(path, s, Stored());
      RootsIn(path, s.l);
      RootsIn(path, s.r);
      PlugNodes(path, s);
    }

    /** tree_find_nearest: the record of the largest key that is at most `key`, or NULL if there is none. */
    method TreeFindNearest(key: int) returns (r: nat)
      requires Valid()
      modifies this`comparisonCount
      ensures Valid() && Contents() == old(Contents()) && Stored() == old(Stored())
      ensures comparisonCount == old(comparisonCount) + Comparisons(t, Stored(), key)
      ensures NearestRecord(Contents(), key, r)
    {
      hide *;
      var z := root;
      var n: Node? := null;
      ghost var path, s, m, c := Top, t, Contents(), Stored();
      SearchStarts(key);
      TurnsNowhere();
      while z != null
        invariant Stored() == c
        invariant Valid() && Contents() == m && Searching(path, s, z, key) && n == TurnedAt(path)
        invariant comparisonCount + Comparisons(s, c, key) == old(comparisonCount) + Comparisons(t, c, key)
        decreases s
      {
        SearchStep(path, s, z, key);
        comparisonCount := comparisonCount + 1;
        if key == z.key {
          SearchHit(path, s, z, key);
          NearestHere(Contents(), key);
          return z.record;
        }
        comparisonCount := comparisonCount + 1;
        TurnsAt(path, s, z, n, key);
        if key > z.key {
          if n == null || n.key < z.key {
            n := z;
          }
          z, path, s := z.right, Down(OnRight(s.l, s.x), path), s.r;
        } else {
          z, path, s := z.left, Down(OnLeft(s.x, s.r), path), s.l;
        }
      }
      SearchMiss(path, s, key);
      NearestTurn(path, n, key);
      r := if n != null then n.record else NULL;
    }

    lemma TurnsNowhere()
      ensures TurnedAt(Top) == null
    {
    }

    lemma TurnsAt(path: Path, s: Shape, z: Node, n: Node?, key: int)
      requires Valid() && Searching(path, s, z, key) && s.Bin? && s.x == z && n == TurnedAt(path)
      ensures n != null ==> n.key < z.key
      ensures TurnedAt(Down(OnRight(s.l, z), path)) == z && TurnedAt(Down(OnLeft(z, s.r), path)) == n
    {
      hide Dict, Sorted, Linked, Nodes, InOrder, At;
      SearchAt(path, s, z, key);
      if n != null { LastTurn(path, s.l, z, s.r, Stored()); }
    }

    lemma NearestTurn(path: Path, n: Node?, key: int)
      requires Valid() && At(t, path, Leaf, Stored(), key) && n == TurnedAt(path)
      ensures NULL == 0 && NearestRecord(Contents(), key, if n != null then n.record else 0)
    {
      hide Dict, Sorted, Linked, Nodes, InOrder, At, NearestRecord;
      NearestBefore(t, path, Stored(), key);
    }

    // ----- Insertion

    /** tree_insert: false, and nothing changes, if the key is already there; otherwise the new node is
        splayed to the root. */
    method TreeInsert(key: int, record: nat) returns (inserted: bool, ghost path: Path)
      requires Valid()
      modifies this, Nodes(t)
      ensures Valid() && fresh(Nodes(t) - old(Nodes(t)))
      ensures (inserted <==> key !in old(Contents())) && nodeCount == old(nodeCount) + if inserted then 1 else 0
      ensures if inserted then Contents() == old(Contents())[key := record] && root != null && root.key == key
              else t == old(t) && Contents() == old(Contents())
      ensures inserted ==> At(old(t), path, Leaf, old(Stored()), key) && t == SplayUp(path, Leaf, root, Leaf)
      ensures Covered(rotations - old(rotations), old(t), t, if inserted then 8 * Log2(nodeCount) + 1 else 0)
      ensures comparisonCount - old(comparisonCount)
           == if inserted then 2 * (rotations - old(rotations)) else old(Comparisons(t, Stored(), key))
    {
      hide *;
      ghost var m, n, c := Contents(), nodeCount, Stored();
      CoveredNone(t);
      var found, p;
      found, p, path := SeekPlace(key);
      inserted := !found;
      Parts();
      if inserted {
        InsertAt(p, path, key, record, m, n);
        OneNew(Nodes(t), old(Nodes(t)), root);
        nodeCount := nodeCount + 1;
        Whole(m[key := record], n + 1);
      }
    }

    method InsertAt(p: Node?, ghost path: Path, key: int, record: nat, ghost m: map<int, nat>, ghost n: nat)
      requires Holds(m, n) && At(t, path, Leaf, Stored(), key) && p == ParentOf(path)
      modifies this`root, this`t, this`rotations, Nodes(t)
      ensures Holds(m[key := record], n + 1) && root != null && root.key == key
      ensures fresh(root) && Nodes(t) == old(Nodes(t)) + {root} && t == SplayUp(path, Leaf, root, Leaf)
      ensures rotations == old(rotations) + Length(path) && Covered(Length(path), old(t), t, 8 * Log2(n + 1) + 1)
    {
      hide *;
      HoldsParts(m, n);
      ghost var S, c, before := Nodes(t), Stored(), t;
      HoleAt(t, path, c, key);
      var z := Attach(p, path, key, record, S);
      Adopt(z, path, key, record, S, c, m, n);
      SplayAt(z, path, Leaf, Leaf, m[key := record], n + 1);
      HoldsParts(m[key := record], n + 1);
      NodesCounted(t, Stored(), m[key := record], n + 1);
      InsertCovered(path, z, before, t, n + 1);
    }

    lemma OneNew(after: set<Node>, before: set<Node>, z: Node)
      requires after == before + {z}
      ensures after - before <= {z}
    {
    }

    /** The search of tree_insert: the last node visited, below which the key is missing. */
    method SeekPlace(key: int) returns (found: bool, p: Node?, ghost path: Path)
      requires Valid()
      modifies this`comparisonCount
      ensures Valid() && Contents() == old(Contents()) && (found <==> key in Contents()) && Stored() == old(Stored())
      ensures !found ==> At(t, path, Leaf, Stored(), key) && p == ParentOf(path)
      ensures comparisonCount == old(comparisonCount) + 2 * Length(path) + if found then 1 else 0
      ensures comparisonCount == old(comparisonCount) + Comparisons(t, Stored(), key)
    {
      hide *;
      var z := root;
      p := null;
      path := Top;
      ghost var s, m, c := t, Contents(), Stored();
      SearchStarts(key);
      Ends();
      while z != null
        invariant Stored() == c
        invariant Valid() && Contents() == m && Searching(path, s, z, key) && p == ParentOf(path)
        invariant comparisonCount == old(comparisonCount) + 2 * Length(path)
        invariant comparisonCount + Comparisons(s, c, key) == old(comparisonCount) + Comparisons(t, c, key)
        decreases s
      {
        SearchStep(path, s, z, key);
        p := z;
        comparisonCount := comparisonCount + 1;
        if key == z.key {
          SearchHit(path, s, z, key);
          return true, p, path;
        }
        comparisonCount := comparisonCount + 1;
        Deeper(path, z, s.l, s.r);
        if key > z.key {
          z, path, s := z.right, Down(OnRight(s.l, s.x), path), s.r;
        } else {
          z, path, s := z.left, Down(OnLeft(s.x, s.r), path), s.l;
        }
      }
      SearchMiss(path, s, key);
      found := false;
    }

    lemma Ends()
      ensures Length(Top) == 0 && ParentOf(Top) == null
    {
    }

    lemma Deeper(path: Path, z: Node, l: Shape, r: Shape)
      ensures Length(Down(OnRight(l, z), path)) == Length(Down(OnLeft(z, r), path)) == Length(path) + 1
      ensures ParentOf(Down(OnRight(l, z), path)) == ParentOf(Down(OnLeft(z, r), path)) == z
    {
    }

    /** The new node is made, and hung below `p` on the side its key belongs to. */
    method Attach(p: Node?, ghost path: Path, key: int, record: nat, ghost S: set<Node>) returns (z: Node)
      requires Ok() && At(t, path, Leaf, Stored(), key) && p == ParentOf(path) && S == Nodes(t)
      modifies this`root, S
      ensures fresh(z) && z.key == key && IsAttached(path, z, old(CellsOf(S)), CellsOf(S + {z}), key, record)
      ensures root == if p == null then z else old(root)
    {
      ghost var c := CellsOf(S);
      SideOf(t, path, c, key);
      hide At, Linked, Plug, IsAttached, Nodes;
      z := new Node(key, record, p);
      Hang(p, z, path, S, c);
    }

    /** The tree with the new leaf. */
    ghost method Adopt(z: Node, path: Path, key: int, record: nat, S: set<Node>, c: Cells, m: map<int, nat>, n: nat)
      requires Linked(t, c) && SearchTree(t, c, m, n) && At(t, path, Leaf, c, key)
      requires c.Keys == S && IsAttached(path, z, c, CellsOf(S + {z}), key, record)
      requires root == if path.Top? then z else Root(t)
      modifies this`t
      ensures Holds(m[key := record], n + 1) && t == Plug(path, Bin(Leaf, z, Leaf)) && Nodes(t) == S + {z}
    {
      hide *;
      HoleAt(t, path, c, key);
      AttachedLinked(path, z, c, CellsOf(S + {z}), key, record, m, n);
      AttachedRoot(path, z);
      t := Plug(path, Bin(Leaf, z, Leaf));
      HoldsFrom(m[key := record], n + 1);
    }

    method Hang(p: Node?, z: Node, ghost path: Path, ghost S: set<Node>, ghost c: Cells)
      requires z !in S && CellsOf(S) == c && z.left == z.right == null && z.parent == p == ParentOf(path)
      requires path.Down? ==> path.f.p in c && (path.f.OnRight? <==> c[path.f.p].key < z.key)
      modifies this`root, S
      ensures IsAttached(path, z, c, CellsOf(S + {z}), old(z.key), old(z.record))
      ensures root == if p == null then z else old(root)
    {
      if p == null {
        root := z;
      } else if p.key < z.key {
        p.right := z;
      } else {
        p.left := z;
      }
    }

    /** Splaying in a search tree: the entries stay, and `z` is the root. */
    method SplayAt(z: Node, ghost path: Path, ghost a: Shape, ghost b: Shape, ghost m: map<int, nat>, ghost n: nat)
      requires Holds(m, n) && t == Plug(path, Bin(a, z, b))
      modifies this`root, this`t, this`rotations, Nodes(t)
      ensures Holds(m, n) && root == z && t == SplayUp(path, a, z, b) && rotations == old(rotations) + Length(path)
      ensures Nodes(t) == old(Nodes(t)) && z in Nodes(t) && z.key == old(z.key) && z.record == old(z.record)
    {
      ghost var s, c := t, Stored();
      ParentIn(path, a, z, b);
      hide SearchTree, Linked, Plug, Nodes;
      Splay(z, path, a, b);
      SplayedSearch(path, a, z, b, c, Stored(), m, n);
    }

    // ----- Removal

    /** tree_remove: the record of `key`, or NULL if there is none; the entry is gone and the others stay. */
    method TreeRemove(key: int) returns (r: nat)
      requires Valid()
      modifies this, Nodes(t)
      ensures Valid() && Nodes(t) <= old(Nodes(t))
      ensures r == if key in old(Contents()) then old(Contents())[key] else NULL
      ensures Contents() == old(Contents()) - {key}
      ensures nodeCount == old(nodeCount) - if key in old(Contents()) then 1 else 0
      ensures Covered(rotations - old(rotations), old(t), t,
        if key in old(Contents()) then 6 * Log2(old(nodeCount)) + 1 else 0)
      ensures key in old(Contents()) ==> comparisonCount - old(comparisonCount) == rotations - old(rotations)
      ensures key !in old(Contents()) ==>
        t == old(t) && 2 * (comparisonCount - old(comparisonCount)) == old(Comparisons(t, Stored(), key))
    {
      hide *;
      ghost var m, n := Contents(), nodeCount;
      CoveredNone(t);
      var z, path, a, b := Seek(key);
      r := NULL;
      NullIsZero(m, key);
      Parts();
      if z != null {
        r := RemoveAt(z, path, a, b, m, n);
        nodeCount := nodeCount - 1;
        Whole(m - {key}, n - 1);
      }
    }

    lemma NullIsZero(m: map<int, nat>, key: int)
      ensures NULL == 0
      ensures key !in m ==> m - {key} == m
    {
    }

    /** The search of tree_remove: the node with the key, or NULL. */
    method Seek(key: int) returns (z: Node?, ghost path: Path, ghost a: Shape, ghost b: Shape)
      requires Valid()
      modifies this`comparisonCount
      ensures Valid() && Contents() == old(Contents()) && comparisonCount == old(comparisonCount) + Length(path)
      ensures z == null <==> key !in Contents()
      ensures z != null ==> t == Plug(path, Bin(a, z, b)) && z in Nodes(t) && z.key == key
      ensures z == null ==> 2 * Length(path) == old(Comparisons(t, Stored(), key))
    {
      hide *;
      z := root;
      path := Top;
      ghost var s, m, c := t, Contents(), Stored();
      SearchStarts(key);
      Ends();
      while z != null && z.key != key
        invariant Valid() && Contents() == m && Searching(path, s, z, key)
        invariant comparisonCount == old(comparisonCount) + Length(path) && Stored() == c
        invariant 2 * Length(path) + Comparisons(s, c, key) == Comparisons(t, c, key)
        decreases s
      {
        SearchStep(path, s, z, key);
        comparisonCount := comparisonCount + 1;
        Deeper(path, z, s.l, s.r);
        if key > z.key {
          z, path, s := z.right, Down(OnRight(s.l, s.x), path), s.r;
        } else {
          z, path, s := z.left, Down(OnLeft(s.x, s.r), path), s.l;
        }
      }
      a, b := Leaf, Leaf;
      if z == null {
        SearchMiss(path, s, key);
      } else {
        SearchStep(path, s, z, key);
        SearchHit(path, s, z, key);
        a, b := s.l, s.r;
      }
    }

    /** The node is splayed to the root and taken out there. */
    method RemoveAt(z: Node, ghost path: Path, ghost a: Shape, ghost b: Shape, ghost m: map<int, nat>, ghost n: nat)
      returns (r: nat)
      requires Holds(m, n) && t == Plug(path, Bin(a, z, b))
      modifies this`root, this`t, this`rotations, Nodes(t)
      ensures 0 < n && Holds(m - {old(z.key)}, n - 1) && Nodes(t) <= old(Nodes(t))
      ensures rotations == old(rotations) + Length(path) && Covered(Length(path), old(t), t, 6 * Log2(n) + 1)
      ensures old(z.key) in m && r == m[old(z.key)]
    {
      hide *;
      HoldsParts(m, n);
      SplayAt(z, path, a, b, m, n);
      HoldsParts(m, n);
      ghost var s, c := t, Stored();
      ghost var S := Nodes(t);
      FieldsOf(z, S);
      assert s == Bin(s.l, z, s.r);
      Unroot(z, s.l, s.r, S);
      OkParts();
      KeepCells(S, Nodes(t));
      RemovedSearch(s.l, z, s.r, t, c, CellsOf(S), Stored(), m, n);
      HoldsFrom(m - {c[z].key}, n - 1);
      KeyKept(c, CellsOf(S), z);
      FieldsOf(z, S);
      NodesCounted(s, c, m, n);
      RemoveCovered(path, a, z, b, old(t), s, t, n);
      r := z.record;
    }

    /** replace. */
    method Replace(u: Node, v: Node?, ghost p: Node?, ghost S: set<Node>)
      requires u in S && u.parent == p && (p != null ==> p in S) && (v != null ==> v in S)
      modifies this`root, S
      ensures CellsOf(S) == Replaced(old(CellsOf(S)), u, v, p)
      ensures root == if p == null then v else old(root)
    {
      Rehang(u, v, p, S);
      assert u.parent == p;
      Reparent(v, u.parent, S);
    }

    /** subtree_minimum: the node without a left child that comes first in the subtree. */
    method SubtreeMinimum(u: Node, ghost base: Path, ghost R: Shape)
      returns (y: Node, ghost q: Path, ghost D: Shape)
      requires Ok() && t == Plug(base, R) && Root(R) == u
      ensures y in Nodes(R) && InOrder(R) != [] && InOrder(R)[0] == y
      ensures R == Plug(q, Bin(Leaf, y, D)) && Before(q) == []
    {
      y := u;
      q := Top;
      ghost var s := R;
      AppendPlug(q, base, s);
      NodeHere(Append(q, base), s);
      while y.left != null
        invariant Ok() && t == Plug(base, R) && R == Plug(q, s) && Root(s) == y && Before(q) == []
        invariant y.left == Root(s.l)
        decreases s
      {
        y, q, s := y.left, Down(OnLeft(s.x, s.r), q), s.l;
        AppendPlug(q, base, s);
        NodeHere(Append(q, base), s);
      }
      D := s.r;
      PlugNodes(q, s);
      PlugInOrder(q, s);
    }

    /** tree_remove on the root: with one child at most, the other takes its place; otherwise its successor does. */
    method Unroot(z: Node, ghost L: Shape, ghost R: Shape, ghost S: set<Node>)
      requires Ok() && t == Bin(L, z, R) && S == Nodes(t)
      modifies this`root, this`t, S
      ensures Ok() && InOrder(t) == InOrder(L) + InOrder(R) && Nodes(t) == S - {z}
      ensures Potential(t) <= Potential(Bin(L, z, R))
      ensures SameKeys(old(CellsOf(S)), CellsOf(S))
    {
      NodeHere(Top, t);
      OneLeft(L, z, R);
      if z.left == null {
        UnrootOne(z, z.right, R, S);
      } else if z.right == null {
        UnrootOne(z, z.left, L, S);
      } else {
        UnrootBoth(z, L, R, S);
      }
    }

    method UnrootOne(z: Node, v: Node?, ghost only: Shape, ghost S: set<Node>)
      requires Ok() && OneChild(t, only) && Root(t) == z && Root(only) == v && S == Nodes(t)
      modifies this`root, this`t, S
      ensures Ok() && t == only && Nodes(t) == S - {z}
      ensures SameKeys(old(CellsOf(S)), CellsOf(S))
    {
      hide *;
      OkParts();
      ghost var c := CellsOf(S);
      OneChildRoot(t, only);
      SpliceOut(Top, t, only, c);
      ReplacedKeys(c, z, v, null);
      ParentIs(Top, t.l, z, t.r, c);
      FieldsOf(z, S);
      Replace(z, v, null, S);
      t := only;
      KeepCells(S, Nodes(t));
      Trimmed(t, CellsOf(S), CellsOf(Nodes(t)));
      OkFrom();
    }

    method UnrootBoth(z: Node, ghost L: Shape, ghost R: Shape, ghost S: set<Node>)
      requires Ok() && t == Bin(L, z, R) && S == Nodes(t) && L.Bin? && R.Bin?
      modifies this`root, this`t, S
      ensures Ok() && InOrder(t) == InOrder(L) + InOrder(R) && Nodes(t) == S - {z}
      ensures Potential(t) <= Potential(Bin(L, z, R))
      ensures SameKeys(old(CellsOf(S)), CellsOf(S))
    {
      hide *;
      OkParts();
      ghost var base := Down(OnRight(L, z), Top);
      UnderRoot(L, z, R);
      NodeHere(Top, t);
      var y, q, D := SubtreeMinimum(z.right, base, R);
      Successor(L, z, q, y, D, CellsOf(S));
      SuccessorOrder(L, z, q, y, D);
      SuccessorOnTop(L, z, q, y, D);
      FieldsOf(y, S);
      if y.parent != z {
        BringUp(z, y, L, q, D, S);
      }
      SameKeysTrans(old(CellsOf(S)), CellsOf(S), CellsOf(S));
      ghost var c := CellsOf(S);
      PutOnTop(z, y, L, Plug(q, D), S);
      SameKeysTrans(old(CellsOf(S)), c, CellsOf(S));
    }

    /** The successor is taken out of the right subtree, and gets that subtree as its own. */
    method BringUp(z: Node, y: Node, ghost L: Shape, ghost q: Path, ghost D: Shape, ghost S: set<Node>)
      requires Ok() && t == Bin(L, z, Plug(q, Bin(Leaf, y, D))) && S == Nodes(t) && q.Down?
      modifies this`root, S
      ensures RootGone(L, z, Plug(q, D), y, CellsOf(S)) && root == old(root)
      ensures SameKeys(old(CellsOf(S)), CellsOf(S))
    {
      hide *;
      OkParts();
      ghost var c := CellsOf(S);
      BroughtUp(L, z, q, y, D, c);
      FieldsOf(y, S);
      ghost var p := ParentOf(q);
      Replace(y, y.right, p, S);
      BringsUpParts(L, z, Plug(q, D), y, c, CellsOf(S));
      FieldsOf(z, S);
      ghost var d := CellsOf(S);
      SetRight(y, z.right, S);
      FieldsOf(y, S);
      SetParent(y.right, y, S);
      RightUnderIs(d, y, d[z].right);
    }

    /** `y` gets the place of the root, and its left subtree. */
    method PutOnTop(z: Node, y: Node, ghost L: Shape, ghost R: Shape, ghost S: set<Node>)
      requires RootGone(L, z, R, y, CellsOf(S)) && L.Bin?
      modifies this`root, this`t, S
      ensures Ok() && t == Bin(L, y, R) && SameKeys(old(CellsOf(S)), CellsOf(S))
    {
      hide *;
      ghost var c := CellsOf(S);
      Crowned(L, z, R, y, c);
      FieldsOf(z, S);
      SubtreeOf(L, y, R);
      TakePlace(z, y, L.x, S);
      t := Bin(L, y, R);
      KeepCells(S, Nodes(t));
      Trimmed(t, CellsOf(S), CellsOf(Nodes(t)));
      OkFrom();
    }

    method TakePlace(z: Node, y: Node, ghost l: Node, ghost S: set<Node>)
      requires {z, y, l} <= S && y != z && z.parent == null && z.left == l
      modifies this`root, S
      ensures root == y && CellsOf(S) == Crowning(old(CellsOf(S)), y, l)
    {
      Replace(z, y, null, S);
      assert z.left == CellsOf(S)[z].left;
      SetLeft(y, z.left, S);
      SetParent(y.left, y, S);
    }
  }

  lemma NodesCounted(t: Shape, c: Cells, m: map<int, nat>, n: nat)
    requires SearchTree(t, c, m, n)
    ensures |InOrder(t)| == n
  {
  }

  lemma SplayedSearch(path: Path, a: Shape, z: Node, b: Shape, c: Cells, d: Cells, m: map<int, nat>, n: nat)
    requires SearchTree(Plug(path, Bin(a, z, b)), c, m, n) && SameKeys(c, d)
    ensures SearchTree(SplayUp(path, a, z, b), d, m, n)
  {
    SplayInOrder(path, a, z, b);
    var s := InOrder(Plug(path, Bin(a, z, b)));
    SameKeysAgree(s, c, d);
    SortedSame(s, c, d);
    DictSame(s, c, d);
  }

  /** The side of the hole follows from the keys. */
  lemma SideOf(t: Shape, path: Path, c: Cells, key: int)
    requires At(t, path, Leaf, c, key) && Linked(t, c)
    ensures path.Down? ==> path.f.p in c && (path.f.OnRight? <==> c[path.f.p].key < key)
  {
    if path.Down? {
      match path.f
      case OnLeft(p, s) => assert After(path)[0] == p;
      case OnRight(s, p) => assert Before(path)[|Before(path)| - 1] == p;
    }
  }

  /** The pointers after a new leaf `z` has been hung at the end of `path`. */
  ghost predicate IsAttached(path: Path, z: Node, c: Cells, d: Cells, key: int, record: nat) {
    && z !in c && d.Keys == c.Keys + {z}
    && d[z] == Cell(null, null, ParentOf(path), key, record)
    && (forall n :: n in c && n != ParentOf(path) ==> d[n] == c[n])
    && (path.Down? ==> path.f.p in c)
    && (path.Down? ==> d[path.f.p] == (if path.f.OnLeft? then c[path.f.p].(left := z) else c[path.f.p].(right := z)))
  }

  lemma AttachedLinked(path: Path, z: Node, c: Cells, d: Cells, key: int, record: nat, m: map<int, nat>, n: nat)
    requires Linked(Plug(path, Leaf), c) && SearchTree(Plug(path, Leaf), c, m, n)
    requires At(Plug(path, Leaf), path, Leaf, c, key) && IsAttached(path, z, c, d, key, record)
    ensures Linked(Plug(path, Bin(Leaf, z, Leaf)), d) && Nodes(Plug(path, Bin(Leaf, z, Leaf))) == c.Keys + {z}
    ensures SearchTree(Plug(path, Bin(Leaf, z, Leaf)), d, m[key := record], n + 1)
  {
    AttachedAgree(path, z, c, d, key, record);
    AttachedOrder(path, z);
    hide Linked, Plug, InOrder, Dict, Sorted, Before, After;
    AttachedEntries(Before(path), z, After(path), c, d, key, record);
  }

  lemma AttachedRoot(path: Path, z: Node)
    ensures Root(Plug(path, Bin(Leaf, z, Leaf))) == if path.Top? then z else Root(Plug(path, Leaf))
  {
    if path.Down? { PlugRoot(path, Bin(Leaf, z, Leaf), Leaf); }
  }

  lemma AttachedOrder(path: Path, z: Node)
    ensures InOrder(Plug(path, Leaf)) == Before(path) + After(path)
    ensures InOrder(Plug(path, Bin(Leaf, z, Leaf))) == Before(path) + [z] + After(path)
    ensures Nodes(Plug(path, Bin(Leaf, z, Leaf))) == Nodes(Plug(path, Leaf)) + {z}
  {
    PlugNodes(path, Leaf);
    PlugNodes(path, Bin(Leaf, z, Leaf));
    PlugInOrder(path, Leaf);
    PlugInOrder(path, Bin(Leaf, z, Leaf));
    assert Before(path) + [] + After(path) == Before(path) + After(path);
    assert InOrder(Bin(Leaf, z, Leaf)) == [z];
  }

  /** A node with a new key, put between the smaller and the larger ones, adds its entry. */
  lemma AttachedEntries(b: seq<Node>, z: Node, u: seq<Node>, c: Cells, d: Cells, key: int, record: nat)
    requires Sorted(b + u, c) && d.Keys == c.Keys + {z} && z !in c
    requires forall n :: n in c ==> d[n].key == c[n].key && d[n].record == c[n].record
    requires d[z].key == key && d[z].record == record && KeysBelow(b, c, key) && KeysAbove(u, c, key)
    ensures Sorted(b + [z] + u, d) && Dict(b + [z] + u, d) == Dict(b + u, c)[key := record]
  {
    AttachedKeys(b + u, z, c, d);
    SortedSame(b + u, c, d);
    DictSame(b + u, c, d);
    assert KeysBelow(b, d, key) && KeysAbove(u, d, key);
    hide Sorted, Dict, AgreeOn;
    SortedInsert(b, z, u, d);
    DictInsert(b, z, u, d);
  }

  lemma AttachedKeys(s: seq<Node>, z: Node, c: Cells, d: Cells)
    requires Sorted(s, c) && d.Keys == c.Keys + {z} && z !in c
    requires forall n :: n in c ==> d[n].key == c[n].key && d[n].record == c[n].record
    ensures AgreeOn(s, c, d)
  {
  }

  lemma AttachedAgree(path: Path, z: Node, c: Cells, d: Cells, key: int, record: nat)
    requires Linked(Plug(path, Leaf), c) && IsAttached(path, z, c, d, key, record)
    ensures Linked(Plug(path, Bin(Leaf, z, Leaf)), d)
  {
    Unplug(path, Leaf, c);
    if path.Down? {
      var p, up := path.f.p, path.up;
      AgreeFrame(path.f.sib, p, c, d);
      PathAgreeFrame(up, p, c, d);
    }
    Replug(path, Bin(Leaf, z, Leaf), d);
  }

  /** `x` has a left child, and the nodes a rotation touches are different and in the tree. */
  ghost predicate CanRotateRight(c: Cells, x: Node) {
    && x in c && c[x].left != null && c[x].left in c
    && Apart(c, x, c[x].left, c[c[x].left].right, c[x].parent)
  }

  ghost predicate CanRotateLeft(c: Cells, x: Node) {
    && x in c && c[x].right != null && c[x].right in c
    && Apart(c, x, c[x].right, c[c[x].right].left, c[x].parent)
  }

  lemma AtTop(p: Path)
    ensures (ParentOf(p) == null <==> p.Top?) && Length(Top) == 0
  {
  }

  lemma UnderRoot(L: Shape, z: Node, R: Shape)
    ensures Plug(Top, Bin(L, z, R)) == Plug(Down(OnRight(L, z), Top), R) == Bin(L, z, R)
    ensures R.Bin? ==> Root(R) == R.x
  {
  }

  lemma HoleAt(t: Shape, path: Path, c: Cells, key: int)
    requires At(t, path, Leaf, c, key)
    ensures t == Plug(path, Leaf) && (path.Top? <==> ParentOf(path) == null)
  {
  }

  lemma KeyKept(c: Cells, d: Cells, z: Node)
    requires SameKeys(c, d) && z in c
    ensures z in d && d[z].key == c[z].key && d[z].record == c[z].record
  {
  }

  lemma KeepCells(S: set<Node>, N: set<Node>)
    requires N <= S
    ensures forall n :: n in CellsOf(N) ==> n in CellsOf(S) && CellsOf(N)[n] == CellsOf(S)[n]
  {
  }

  lemma SubtreeOf(L: Shape, y: Node, R: Shape)
    ensures Root(Bin(L, y, R)) == y && (L.Bin? ==> Root(L) == L.x)
  {
  }

  lemma OneChildRoot(t: Shape, only: Shape)
    requires OneChild(t, only)
    ensures t.Bin? && Root(t) == t.x && Plug(Top, t) == t && Plug(Top, only) == only && ParentOf(Top) == null
    ensures t == Plug(Top, Bin(t.l, t.x, t.r))
  {
  }

  lemma BringsUpParts(L: Shape, z: Node, R: Shape, y: Node, c: Cells, d: Cells)
    requires BringsUp(L, z, R, y, c, d)
    ensures y in d && z in d && d[z].right != null && d[z].right in d && y != z
    ensures RootGone(L, z, R, y, RightUnder(d, y, d[z].right)) && SameKeys(c, RightUnder(d, y, d[z].right))
  {
  }

  lemma RightUnderIs(c: Cells, y: Node, r: Node)
    requires y in c && r in c
    ensures var d := c[y := c[y].(right := r)]; RightUnder(c, y, r) == d[r := d[r].(parent := y)]
  {
  }

  lemma FieldsOf(n: Node, S: set<Node>)
    requires n in S
    ensures CellsOf(S)[n] == Cell(n.left, n.right, n.parent, n.key, n.record)
  {
  }

  lemma RotatedRightIs(c: Cells, x: Node)
    requires CanRotateRight(c, x)
    ensures RotatedRight(c, x) == OuterRight(InnerRight(c, x, c[x].left), x, c[x].left, c[x].parent)
  {
  }

  lemma TouchedRight(c: Cells, x: Node)
    requires CanRotateRight(c, x)
    ensures x in c && c[x].left != null && c[x].left in c && c[x].left != x && c[x].parent != x
    ensures c[x].parent != null ==> c[x].parent in c
    ensures var b := c[c[x].left].right; b != c[x].left && b != x && (b != null ==> b in c)
  {
  }

  lemma RightKeys(c: Cells, x: Node, y: Node, b: Node?, p: Node?)
    requires Apart(c, x, y, b, p) && c[x].left == y && c[y].right == b && c[x].parent == p
    ensures SameKeys(c, RotatedRight(c, x))
  {
    RightCells(c, x, y, b, p);
    hide RotatedRight;
  }

  lemma RotatedLeftIs(c: Cells, x: Node)
    requires CanRotateLeft(c, x)
    ensures RotatedLeft(c, x) == OuterLeft(InnerLeft(c, x, c[x].right), x, c[x].right, c[x].parent)
  {
  }

  lemma TouchedLeft(c: Cells, x: Node)
    requires CanRotateLeft(c, x)
    ensures x in c && c[x].right != null && c[x].right in c && c[x].right != x && c[x].parent != x
    ensures c[x].parent != null ==> c[x].parent in c
    ensures var b := c[c[x].right].left; b != c[x].right && b != x && (b != null ==> b in c)
  {
  }

  lemma LeftKeys(c: Cells, x: Node, y: Node, b: Node?, p: Node?)
    requires Apart(c, x, y, b, p) && c[x].right == y && c[y].left == b && c[x].parent == p
    ensures SameKeys(c, RotatedLeft(c, x))
  {
    LeftCells(c, x, y, b, p);
    hide RotatedLeft;
  }

  lemma Lifting(path: Path, A: Shape, y: Node, B: Shape, x: Node, C: Shape, c: Cells)
    requires Linked(Plug(path, Bin(Bin(A, y, B), x, C)), c)
    ensures CanRotateRight(c, x) && Linked(Plug(path, Bin(A, y, Bin(B, x, C))), RotatedRight(c, x))
    ensures Nodes(Plug(path, Bin(A, y, Bin(B, x, C)))) == c.Keys && SameKeys(c, RotatedRight(c, x))
    ensures Root(Plug(path, Bin(A, y, Bin(B, x, C))))
         == if c[x].parent == null then c[x].left else Root(Plug(path, Bin(Bin(A, y, B), x, C)))
  {
    RotateRight(path, A, y, B, x, C, c);
    RightKeys(c, x, y, Root(B), ParentOf(path));
    hide RotatedRight, Agree, Distinct, SameKeys;
    if path.Down? { PlugRoot(path, Bin(Bin(A, y, B), x, C), Bin(A, y, Bin(B, x, C))); }
  }

  lemma LiftingLeft(path: Path, A: Shape, x: Node, B: Shape, y: Node, C: Shape, c: Cells)
    requires Linked(Plug(path, Bin(A, x, Bin(B, y, C))), c)
    ensures CanRotateLeft(c, x) && Linked(Plug(path, Bin(Bin(A, x, B), y, C)), RotatedLeft(c, x))
    ensures Nodes(Plug(path, Bin(Bin(A, x, B), y, C))) == c.Keys && SameKeys(c, RotatedLeft(c, x))
    ensures Root(Plug(path, Bin(Bin(A, x, B), y, C)))
         == if c[x].parent == null then c[x].right else Root(Plug(path, Bin(A, x, Bin(B, y, C))))
  {
    RotateLeft(path, A, x, B, y, C, c);
    LeftKeys(c, x, y, Root(B), ParentOf(path));
    hide RotatedLeft, Agree, Distinct, SameKeys;
    if path.Down? { PlugRoot(path, Bin(A, x, Bin(B, y, C)), Bin(Bin(A, x, B), y, C)); }
  }

  /** The parent pointer of a node is the one its place in the tree says. */
  lemma ParentIs(path: Path, a: Shape, x: Node, b: Shape, c: Cells)
    requires Linked(Plug(path, Bin(a, x, b)), c)
    ensures x in c && c[x].parent == ParentOf(path)
  {
    Unplug(path, Bin(a, x, b), c);
  }

  /** ... and so is the parent's, and the side of each can be read off the child pointers. */
  lemma ParentAbove(path: Path, a: Shape, x: Node, b: Shape, c: Cells)
    requires Linked(Plug(path, Bin(a, x, b)), c) && path.Down?
    ensures x in c && c[x].parent == path.f.p && path.f.p in c
    ensures c[path.f.p].left == x <==> path.f.OnLeft?
    ensures c[path.f.p].right == x <==> path.f.OnRight?
    ensures c[path.f.p].parent == ParentOf(path.up)
  {
    Unplug(path, Bin(a, x, b), c);
    RootsIn(path, path.f.sib);
  }

  lemma SplayTop(a: Shape, x: Node, b: Shape)
    ensures SplayUp(Top, a, x, b) == Plug(Top, Bin(a, x, b))
  {
  }

  lemma GrandparentAbove(path: Path, a: Shape, x: Node, b: Shape, c: Cells)
    requires Linked(Plug(path, Bin(a, x, b)), c) && path.Down? && path.up.Down?
    ensures path.f.p in c && path.up.f.p in c && c[path.f.p].parent == path.up.f.p
    ensures c[path.up.f.p].left == path.f.p <==> path.up.f.OnLeft?
    ensures c[path.up.f.p].right == path.f.p <==> path.up.f.OnRight?
  {
    match path.f
    case OnLeft(p, s) => ParentAbove(path.up, Bin(a, x, b), p, s, c);
    case OnRight(s, p) => ParentAbove(path.up, s, p, Bin(a, x, b), c);
  }
}
