/** The shape of a binary tree of nodes with parent pointers (stree.c), and what it means for the
    pointers stored in the nodes to agree with it. */
module TreeShape {

  /** node_t. A record pointer is a number; 0 is NULL. */
  class Node {
    var left: Node?
    var right: Node?
    var parent: Node?
    var key: int
    var record: nat

    constructor (key: int, record: nat, parent: Node?)
      ensures this.key == key && this.record == record && this.parent == parent
      ensures left == null && right == null
    {
      this.key, this.record, this.parent := key, record, parent;
      left, right := null, null;
    }
  }

  datatype Cell = Cell(left: Node?, right: Node?, parent: Node?, key: int, record: nat)

  type Cells = map<Node, Cell>

  /** The fields of the nodes of `S`. */
  ghost function CellsOf(S: set<Node>): (c: Cells)
    reads S
    ensures c.Keys == S
  {
    map n | n in S :: Cell(n.left, n.right, n.parent, n.key, n.record)
  }

  method SetLeft(n: Node, v: Node?, ghost S: set<Node>)
    requires n in S
    modifies n`left
    ensures CellsOf(S) == old(CellsOf(S))[n := old(CellsOf(S))[n].(left := v)]
  {
    n.left := v;
  }

  method SetRight(n: Node, v: Node?, ghost S: set<Node>)
    requires n in S
    modifies n`right
    ensures CellsOf(S) == old(CellsOf(S))[n := old(CellsOf(S))[n].(right := v)]
  {
    n.right := v;
  }

  method SetParent(n: Node, v: Node?, ghost S: set<Node>)
    requires n in S
    modifies n`parent
    ensures CellsOf(S) == old(CellsOf(S))[n := old(CellsOf(S))[n].(parent := v)]
  {
    n.parent := v;
  }

  datatype Shape = Leaf | Bin(l: Shape, x: Node, r: Shape)

  /** One step down: the hole is the left child of `p` (OnLeft) or the right child (OnRight). */
  datatype Frame = OnLeft(p: Node, sib: Shape) | OnRight(sib: Shape, p: Node)

  /** A tree with a hole; the innermost frame comes first. */
  datatype Path = Top | Down(f: Frame, up: Path)

  ghost function Root(t: Shape): Node? {
    if t.Leaf? then null else t.x
  }

  ghost function ParentOf(path: Path): Node? {
    if path.Top? then null else path.f.p
  }

  ghost function Nodes(t: Shape): set<Node> {
    match t
    case Leaf => {}
    case Bin(l, x, r) => Nodes(l) + {x} + Nodes(r)
  }

  ghost function InOrder(t: Shape): seq<Node> {
    match t
    case Leaf => []
    case Bin(l, x, r) => InOrder(l) + [x] + InOrder(r)
  }

  /** No node occurs twice. */
  ghost predicate Distinct(t: Shape) {
    match t
    case Leaf => true
    case Bin(l, x, r) => Distinct(l) && Distinct(r) && x !in Nodes(l) && x !in Nodes(r) && Nodes(l) !! Nodes(r)
  }

  /** The pointers of the nodes of `t` are those of the shape, and the root's parent is `p`. */
  ghost predicate Agree(t: Shape, p: Node?, c: Cells) {
    match t
    case Leaf => true
    case Bin(l, x, r) =>
      && x in c && c[x].left == Root(l) && c[x].right == Root(r) && c[x].parent == p
      && Agree(l, x, c) && Agree(r, x, c)
  }

  // ----- Trees with a hole

  ghost function Plug(path: Path, t: Shape): Shape {
    match path
    case Top => t
    case Down(OnLeft(p, sib), up) => Plug(up, Bin(t, p, sib))
    case Down(OnRight(sib, p), up) => Plug(up, Bin(sib, p, t))
  }

  ghost function PathNodes(path: Path): set<Node> {
    match path
    case Top => {}
    case Down(f, up) => {f.p} + Nodes(f.sib) + PathNodes(up)
  }

  ghost predicate PathDistinct(path: Path) {
    match path
    case Top => true
    case Down(f, up) =>
      && Distinct(f.sib) && PathDistinct(up)
      && f.p !in Nodes(f.sib) && f.p !in PathNodes(up) && Nodes(f.sib) !! PathNodes(up)
  }

  /** The nodes before and after the hole. */
  ghost function Before(path: Path): seq<Node> {
    match path
    case Top => []
    case Down(OnLeft(p, sib), up) => Before(up)
    case Down(OnRight(sib, p), up) => Before(up) + InOrder(sib) + [p]
  }

  ghost function After(path: Path): seq<Node> {
    match path
    case Top => []
    case Down(OnLeft(p, sib), up) => [p] + InOrder(sib) + After(up)
    case Down(OnRight(sib, p), up) => After(up)
  }

  /** The pointers on the way up agree with the path when the hole holds `h`. */
  ghost predicate PathAgree(path: Path, h: Node?, c: Cells) {
    match path
    case Top => true
    case Down(f, up) =>
      && f.p in c && c[f.p].parent == ParentOf(up)
      && (if f.OnLeft? then c[f.p].left == h && c[f.p].right == Root(f.sib)
          else c[f.p].right == h && c[f.p].left == Root(f.sib))
      && Agree(f.sib, f.p, c) && PathAgree(up, f.p, c)
  }

  lemma {:induction false} PlugAgree(path: Path, t: Shape, c: Cells)
    ensures Agree(Plug(path, t), null, c) <==> PathAgree(path, Root(t), c) && Agree(t, ParentOf(path), c)
  {
    match path
    case Top =>
    case Down(OnLeft(p, sib), up) => PlugAgree(up, Bin(t, p, sib), c);
    case Down(OnRight(sib, p), up) => PlugAgree(up, Bin(sib, p, t), c);
  }

  lemma {:induction false} PlugNodes(path: Path, t: Shape)
    ensures Nodes(Plug(path, t)) == PathNodes(path) + Nodes(t)
    ensures Distinct(Plug(path, t)) <==> PathDistinct(path) && Distinct(t) && PathNodes(path) !! Nodes(t)
  {
    match path
    case Top =>
    case Down(OnLeft(p, sib), up) => PlugNodes(up, Bin(t, p, sib));
    case Down(OnRight(sib, p), up) => PlugNodes(up, Bin(sib, p, t));
  }

  lemma {:induction false} PlugInOrder(path: Path, t: Shape)
    ensures InOrder(Plug(path, t)) == Before(path) + InOrder(t) + After(path)
  {
    match path
    case Top =>
    case Down(OnLeft(p, sib), up) =>
      PlugInOrder(up, Bin(t, p, sib));
      Regroup(Before(up), InOrder(t), [p], InOrder(sib), After(up));
    case Down(OnRight(sib, p), up) =>
      PlugInOrder(up, Bin(sib, p, t));
      Regroup(Before(up), InOrder(sib), [p], InOrder(t), After(up));
  }

  lemma Regroup<T>(a: seq<T>, b: seq<T>, m: seq<T>, d: seq<T>, e: seq<T>)
    ensures a + (b + m + d) + e == a + b + (m + d + e)
    ensures a + (b + m + d) + e == (a + b + m) + d + e
  {
  }

  lemma {:induction false} PlugRoot(path: Path, t: Shape, s: Shape)
    requires path.Down?
    ensures Root(Plug(path, t)) == Root(Plug(path, s)) != null
  {
    match path
    case Down(OnLeft(p, sib), up) => if up.Down? { PlugRoot(up, Bin(t, p, sib), Bin(s, p, sib)); }
    case Down(OnRight(sib, p), up) => if up.Down? { PlugRoot(up, Bin(sib, p, t), Bin(sib, p, s)); }
  }

  // ----- Frames

  lemma {:induction false} AgreeFrame(t: Shape, p: Node?, c: Cells, d: Cells)
    requires Agree(t, p, c) && forall n :: n in Nodes(t) ==> n in c && n in d && d[n] == c[n]
    ensures Agree(t, p, d)
  {
    match t
    case Leaf =>
    case Bin(l, x, r) =>
      AgreeFrame(l, x, c, d);
      AgreeFrame(r, x, c, d);
  }

  lemma {:induction false} PathAgreeFrame(path: Path, h: Node?, c: Cells, d: Cells)
    requires PathAgree(path, h, c) && forall n :: n in PathNodes(path) ==> n in c && n in d && d[n] == c[n]
    ensures PathAgree(path, h, d)
  {
    match path
    case Top =>
    case Down(f, up) =>
      AgreeFrame(f.sib, f.p, c, d);
      PathAgreeFrame(up, f.p, c, d);
  }

  /** The root of `t` gets a new parent. */
  ghost function Reparented(c: Cells, n: Node?, p: Node?): Cells
    requires n != null ==> n in c
  {
    if n == null then c else c[n := c[n].(parent := p)]
  }

  lemma ReparentAgree(t: Shape, p: Node?, q: Node?, c: Cells)
    requires Agree(t, p, c) && Distinct(t) && (Root(t) != null ==> Root(t) in c)
    ensures Agree(t, q, Reparented(c, Root(t), q))
  {
    if t.Bin? {
      var d := Reparented(c, Root(t), q);
      AgreeNodes(t, p, c);
      AgreeFrame(t.l, t.x, c, d);
      AgreeFrame(t.r, t.x, c, d);
    }
  }

  lemma {:induction false} AgreeNodes(t: Shape, p: Node?, c: Cells)
    requires Agree(t, p, c)
    ensures forall n :: n in Nodes(t) ==> n in c
  {
    match t
    case Leaf =>
    case Bin(l, x, r) =>
      AgreeNodes(l, x, c);
      AgreeNodes(r, x, c);
  }

  lemma {:induction false} PathAgreeNodes(path: Path, h: Node?, c: Cells)
    requires PathAgree(path, h, c)
    ensures forall n :: n in PathNodes(path) ==> n in c
  {
    match path
    case Top =>
    case Down(f, up) =>
      AgreeNodes(f.sib, f.p, c);
      PathAgreeNodes(up, f.p, c);
  }

  /** The child pointer above the hole, which is `from` now, becomes `to`: the three-way test on the
      parent of `from` in the rotations and in replace. */
  ghost function Rehung(c: Cells, p: Node?, from: Node, to: Node?): Cells
    requires p != null ==> p in c
  {
    if p == null then c
    else if c[p].left == from then c[p := c[p].(left := to)]
    else c[p := c[p].(right := to)]
  }

  lemma RehangAgree(path: Path, from: Node, to: Node?, c: Cells)
    requires PathAgree(path, from, c) && PathDistinct(path) && from !in PathNodes(path)
    ensures ParentOf(path) != null ==> ParentOf(path) in c
    ensures PathAgree(path, to, Rehung(c, ParentOf(path), from, to))
  {
    if path.Down? {
      var p, up := path.f.p, path.up;
      var d := Rehung(c, p, from, to);
      AgreeNodes(path.f.sib, p, c);
      PathAgreeNodes(up, p, c);
      AgreeFrame(path.f.sib, p, c, d);
      PathAgreeFrame(up, p, c, d);
    }
  }
}
