/** The two rotations of stree.c on the stored pointers, and what they do to the shape. */
module Rotations {
  import opened TreeShape

  /** The first assignments of right_rotate: `x` takes over the inner subtree of its child `y`. */
  ghost function InnerRight(c: Cells, x: Node, y: Node): Cells
    requires x in c && y in c && (c[y].right != null ==> c[y].right in c)
  {
    var c1 := c[x := c[x].(left := c[y].right)];
    var c2 := Reparented(c1, c[y].right, x);
    c2[y := c2[y].(parent := c[x].parent)]
  }

  /** The other ones: `y` takes the place of `x`, and `x` becomes its child. */
  ghost function OuterRight(c: Cells, x: Node, y: Node, p: Node?): Cells
    requires x in c && y in c && (p != null ==> p in c)
  {
    var c4 := Rehung(c, p, x, y);
    var c5 := c4[y := c4[y].(right := x)];
    c5[x := c5[x].(parent := y)]
  }

  /** The first assignments of left_rotate: `x` takes over the inner subtree of its child `y`. */
  ghost function InnerLeft(c: Cells, x: Node, y: Node): Cells
    requires x in c && y in c && (c[y].left != null ==> c[y].left in c)
  {
    var c1 := c[x := c[x].(right := c[y].left)];
    var c2 := Reparented(c1, c[y].left, x);
    c2[y := c2[y].(parent := c[x].parent)]
  }

  /** The other ones: `y` takes the place of `x`, and `x` becomes its child. */
  ghost function OuterLeft(c: Cells, x: Node, y: Node, p: Node?): Cells
    requires x in c && y in c && (p != null ==> p in c)
  {
    var c4 := Rehung(c, p, x, y);
    var c5 := c4[y := c4[y].(left := x)];
    c5[x := c5[x].(parent := y)]
  }

  /** The assignments of right_rotate, in order; `x` has a left child. */
  ghost function RotatedRight(c: Cells, x: Node): Cells
    requires x in c && c[x].left != null && c[x].left in c
    requires c[c[x].left].right != null ==> c[c[x].left].right in c
    requires c[x].parent != null ==> c[x].parent in c
  {
    var y := c[x].left;
    OuterRight(InnerRight(c, x, y), x, y, c[x].parent)
  }

  /** The assignments of left_rotate, in order; `x` has a right child. */
  ghost function RotatedLeft(c: Cells, x: Node): Cells
    requires x in c && c[x].right != null && c[x].right in c
    requires c[c[x].right].left != null ==> c[c[x].right].left in c
    requires c[x].parent != null ==> c[x].parent in c
  {
    var y := c[x].right;
    OuterLeft(InnerLeft(c, x, y), x, y, c[x].parent)
  }

  /** `t` is a tree without sharing, and the pointers agree with it. */
  ghost predicate Linked(t: Shape, c: Cells) {
    Agree(t, null, c) && Distinct(t) && c.Keys == Nodes(t)
  }

  lemma Unplug(path: Path, t: Shape, c: Cells)
    requires Linked(Plug(path, t), c)
    ensures PathAgree(path, Root(t), c) && Agree(t, ParentOf(path), c)
    ensures PathDistinct(path) && Distinct(t) && PathNodes(path) !! Nodes(t)
    ensures c.Keys == PathNodes(path) + Nodes(t)
  {
    PlugAgree(path, t, c);
    PlugNodes(path, t);
  }

  lemma Replug(path: Path, t: Shape, c: Cells)
    requires PathAgree(path, Root(t), c) && Agree(t, ParentOf(path), c)
    requires PathDistinct(path) && Distinct(t) && PathNodes(path) !! Nodes(t)
    requires c.Keys == PathNodes(path) + Nodes(t)
    ensures Linked(Plug(path, t), c)
  {
    PlugAgree(path, t, c);
    PlugNodes(path, t);
  }

  lemma RootsIn(path: Path, t: Shape)
    ensures Root(t) != null ==> Root(t) in Nodes(t)
    ensures ParentOf(path) != null ==> ParentOf(path) in PathNodes(path)
  {
  }

  /** The nodes of a rotation are different, and all but `p` and `b` exist. */
  ghost predicate Apart(c: Cells, x: Node, y: Node, b: Node?, p: Node?) {
    && x in c && y in c && (b != null ==> b in c) && (p != null ==> p in c)
    && x != y && b != x && b != y && p != x && p != y && (b == null || b != p)
  }

  /** What a rotation of `y` above `x` leaves alone. */
  ghost predicate OthersKept(c: Cells, d: Cells, x: Node, y: Node, b: Node?, p: Node?)
    requires Apart(c, x, y, b, p)
  {
    && d.Keys == c.Keys
    && (forall n :: n in c && n != x && n != y && n != b && n != p ==> d[n] == c[n])
    && (b != null ==> d[b] == Reparented(c, b, x)[b])
    && (p != null ==> d[p] == Rehung(c, p, x, y)[p])
  }

  lemma RightCells(c: Cells, x: Node, y: Node, b: Node?, p: Node?)
    requires Apart(c, x, y, b, p) && c[x].left == y && c[y].right == b && c[x].parent == p
    ensures var d := RotatedRight(c, x);
      && OthersKept(c, d, x, y, b, p)
      && d[x] == c[x].(left := b, parent := y) && d[y] == c[y].(right := x, parent := p)
  {
  }

  lemma LeftCells(c: Cells, x: Node, y: Node, b: Node?, p: Node?)
    requires Apart(c, x, y, b, p) && c[x].right == y && c[y].left == b && c[x].parent == p
    ensures var d := RotatedLeft(c, x);
      && OthersKept(c, d, x, y, b, p)
      && d[x] == c[x].(right := b, parent := y) && d[y] == c[y].(left := x, parent := p)
  {
  }

  /** The three subtrees, the two nodes and the rest of the tree have no node in common. */
  ghost predicate Pieces(path: Path, A: Shape, B: Shape, C: Shape, x: Node, y: Node) {
    && PathDistinct(path) && Distinct(A) && Distinct(B) && Distinct(C)
    && AllApart(Nodes(A), Nodes(B), Nodes(C), PathNodes(path), x, y)
  }

  ghost function AllNodes(path: Path, A: Shape, B: Shape, C: Shape, x: Node, y: Node): set<Node> {
    PathNodes(path) + Nodes(A) + Nodes(B) + Nodes(C) + {x, y}
  }

  /** The two orders in which the pieces can be put together, by the sets of their nodes. */
  lemma PiecesOfSets(a: set<Node>, b: set<Node>, c: set<Node>, p: set<Node>, x: Node, y: Node)
    ensures p + (a + {y} + b + {x} + c) == p + a + b + c + {x, y} == p + (a + {x} + (b + {y} + c))
    ensures (a !! b && y !in a && y !in b && x !in a + {y} + b && x !in c && a + {y} + b !! c &&
             p !! a + {y} + b + {x} + c)
         <==> AllApart(a, b, c, p, x, y)
    ensures (b !! c && y !in b && y !in c && x !in b + {y} + c && x !in a && a !! b + {y} + c &&
             p !! a + {x} + (b + {y} + c))
         <==> AllApart(a, b, c, p, x, y)
  {
  }

  ghost predicate AllApart(a: set<Node>, b: set<Node>, c: set<Node>, p: set<Node>, x: Node, y: Node) {
    && x != y && x !in a + b + c + p && y !in a + b + c + p
    && a !! b && a !! c && b !! c && a !! p && b !! p && c !! p
  }

  /** The pieces of (A y B) x C. */
  lemma LeftHeavy(path: Path, A: Shape, y: Node, B: Shape, x: Node, C: Shape, c: Cells)
    ensures var t := Bin(Bin(A, y, B), x, C);
      Linked(Plug(path, t), c) <==>
        && Pieces(path, A, B, C, x, y) && c.Keys == AllNodes(path, A, B, C, x, y)
        && PathAgree(path, x, c) && Agree(t, ParentOf(path), c)
  {
    var t := Bin(Bin(A, y, B), x, C);
    PlugAgree(path, t, c);
    PlugNodes(path, t);
    LeftPieces(path, A, B, C, x, y);
    hide Pieces, AllNodes, PathAgree, Agree, Distinct, Nodes, Plug, PathNodes, PathDistinct;
  }

  lemma LeftPieces(path: Path, A: Shape, B: Shape, C: Shape, x: Node, y: Node)
    ensures var t := Bin(Bin(A, y, B), x, C);
      && PathNodes(path) + Nodes(t) == AllNodes(path, A, B, C, x, y)
      && (PathDistinct(path) && Distinct(t) && PathNodes(path) !! Nodes(t) <==> Pieces(path, A, B, C, x, y))
  {
    hide AllApart;
    PiecesOfSets(Nodes(A), Nodes(B), Nodes(C), PathNodes(path), x, y);
    assert Nodes(Bin(A, y, B)) == Nodes(A) + {y} + Nodes(B);
  }

  /** The pieces of A x (B y C). */
  lemma RightHeavy(path: Path, A: Shape, x: Node, B: Shape, y: Node, C: Shape, c: Cells)
    ensures var t := Bin(A, x, Bin(B, y, C));
      Linked(Plug(path, t), c) <==>
        && Pieces(path, A, B, C, x, y) && c.Keys == AllNodes(path, A, B, C, x, y)
        && PathAgree(path, x, c) && Agree(t, ParentOf(path), c)
  {
    var t := Bin(A, x, Bin(B, y, C));
    PlugAgree(path, t, c);
    PlugNodes(path, t);
    RightPieces(path, A, B, C, x, y);
    hide Pieces, AllNodes, PathAgree, Agree, Distinct, Nodes, Plug, PathNodes, PathDistinct;
  }

  lemma RightPieces(path: Path, A: Shape, B: Shape, C: Shape, x: Node, y: Node)
    ensures var t := Bin(A, x, Bin(B, y, C));
      && PathNodes(path) + Nodes(t) == AllNodes(path, A, B, C, x, y)
      && (PathDistinct(path) && Distinct(t) && PathNodes(path) !! Nodes(t) <==> Pieces(path, A, B, C, x, y))
  {
    hide AllApart;
    PiecesOfSets(Nodes(A), Nodes(B), Nodes(C), PathNodes(path), x, y);
    assert Nodes(Bin(B, y, C)) == Nodes(B) + {y} + Nodes(C);
  }

  /** The parts of the tree around a rotation still agree with the pointers. */
  lemma PartsAgree(path: Path, A: Shape, B: Shape, C: Shape, x: Node, y: Node, c: Cells, d: Cells, a: Node, e: Node)
    requires Apart(c, x, y, Root(B), ParentOf(path)) && OthersKept(c, d, x, y, Root(B), ParentOf(path))
    requires PathAgree(path, x, c) && Agree(A, a, c) && Agree(B, y, c) && Agree(C, e, c)
    requires Pieces(path, A, B, C, x, y)
    ensures Agree(A, a, d) && Agree(B, x, d) && Agree(C, e, d) && PathAgree(path, y, d)
  {
    hide Agree, PathAgree, Nodes, PathNodes;
    RootsIn(path, B);
    KeptAgree(A, a, c, d, x, y, Root(B), ParentOf(path));
    KeptAgree(C, e, c, d, x, y, Root(B), ParentOf(path));
    MovedAgree(B, c, d, x, y, ParentOf(path));
    AboveAgree(path, c, d, x, y, Root(B));
  }

  lemma KeptAgree(t: Shape, a: Node, c: Cells, d: Cells, x: Node, y: Node, b: Node?, p: Node?)
    requires Apart(c, x, y, b, p) && OthersKept(c, d, x, y, b, p) && Agree(t, a, c)
    requires x !in Nodes(t) && y !in Nodes(t) && (b != null ==> b !in Nodes(t)) && (p != null ==> p !in Nodes(t))
    ensures Agree(t, a, d)
  {
    hide Agree;
    AgreeNodes(t, a, c);
    AgreeFrame(t, a, c, d);
  }

  lemma MovedAgree(t: Shape, c: Cells, d: Cells, x: Node, y: Node, p: Node?)
    requires Apart(c, x, y, Root(t), p) && OthersKept(c, d, x, y, Root(t), p) && Agree(t, y, c) && Distinct(t)
    requires x !in Nodes(t) && y !in Nodes(t) && (p != null ==> p !in Nodes(t))
    ensures Agree(t, x, d)
  {
    hide Agree;
    AgreeNodes(t, y, c);
    ReparentAgree(t, y, x, c);
    AgreeFrame(t, x, Reparented(c, Root(t), x), d);
  }

  lemma AboveAgree(path: Path, c: Cells, d: Cells, x: Node, y: Node, b: Node?)
    requires Apart(c, x, y, b, ParentOf(path)) && OthersKept(c, d, x, y, b, ParentOf(path))
    requires PathAgree(path, x, c) && PathDistinct(path)
    requires x !in PathNodes(path) && y !in PathNodes(path) && (b != null ==> b !in PathNodes(path))
    ensures PathAgree(path, y, d)
  {
    hide PathAgree;
    PathAgreeNodes(path, x, c);
    RehangAgree(path, x, y, c);
    PathAgreeFrame(path, y, Rehung(c, ParentOf(path), x, y), d);
  }

  lemma PiecesApart(path: Path, A: Shape, B: Shape, C: Shape, x: Node, y: Node, c: Cells)
    requires Pieces(path, A, B, C, x, y) && c.Keys == AllNodes(path, A, B, C, x, y)
    ensures Apart(c, x, y, Root(B), ParentOf(path))
  {
    RootsIn(path, B);
  }

  /** right_rotate turns (A y B) x C into A y (B x C), wherever it is in the tree. */
  lemma RotateRight(path: Path, A: Shape, y: Node, B: Shape, x: Node, C: Shape, c: Cells)
    requires Linked(Plug(path, Bin(Bin(A, y, B), x, C)), c)
    ensures Apart(c, x, y, Root(B), ParentOf(path))
    ensures c[x].left == y && c[y].right == Root(B) && c[x].parent == ParentOf(path)
    ensures Linked(Plug(path, Bin(A, y, Bin(B, x, C))), RotatedRight(c, x))
  {
    hide RotatedRight, Linked, PathAgree, AllNodes, Nodes, PathNodes, Distinct, PathDistinct;
    LeftHeavy(path, A, y, B, x, C, c);
    PiecesApart(path, A, B, C, x, y, c);
    RightCells(c, x, y, Root(B), ParentOf(path));
    var d := RotatedRight(c, x);
    hide Apart;
    PartsAgree(path, A, B, C, x, y, c, d, y, x);
    PiecesSwap(path, A, B, C, x, y);
    RightHeavy(path, A, y, B, x, C, d);
  }

  lemma PiecesSwap(path: Path, A: Shape, B: Shape, C: Shape, x: Node, y: Node)
    requires Pieces(path, A, B, C, x, y)
    ensures Pieces(path, A, B, C, y, x) && AllNodes(path, A, B, C, x, y) == AllNodes(path, A, B, C, y, x)
  {
  }

  /** left_rotate turns A x (B y C) into (A x B) y C. */
  lemma RotateLeft(path: Path, A: Shape, x: Node, B: Shape, y: Node, C: Shape, c: Cells)
    requires Linked(Plug(path, Bin(A, x, Bin(B, y, C))), c)
    ensures Apart(c, x, y, Root(B), ParentOf(path))
    ensures c[x].right == y && c[y].left == Root(B) && c[x].parent == ParentOf(path)
    ensures Linked(Plug(path, Bin(Bin(A, x, B), y, C)), RotatedLeft(c, x))
  {
    hide RotatedLeft, Linked, PathAgree, AllNodes, Nodes, PathNodes, Distinct, PathDistinct;
    RightHeavy(path, A, x, B, y, C, c);
    PiecesApart(path, A, B, C, x, y, c);
    LeftCells(c, x, y, Root(B), ParentOf(path));
    var d := RotatedLeft(c, x);
    hide Apart;
    PartsAgree(path, A, B, C, x, y, c, d, x, y);
    PiecesSwap(path, A, B, C, x, y);
    LeftHeavy(path, A, x, B, y, C, d);
  }
}
