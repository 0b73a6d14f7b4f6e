/** What splaying costs: the rotations of one splay are paid for by the drop of a potential, the sum over all
    nodes of the binary logarithms of their subtree sizes. */
module SplayCost {
  import opened Arithmetic
  import opened TreeShape
  import opened SplaySpec

  // ----- Logarithms, rounded down

  /** How often `n` can be halved. */
  function Halvings(n: nat): nat {
    if n <= 1 then 0 else 1 + Halvings(n / 2)
  }

  function Log2(n: nat): nat {
    Halvings(n)
  }

  lemma {:induction false} Log2AtLeast(n: nat, k: nat)
    requires n > 0
    ensures Log2(n) >= k <==> n >= Pow2(k)
    decreases n
  {
    if k > 0 {
      assert Pow2(k) == 2 * Pow2(k - 1);
      if n > 1 { Log2AtLeast(n / 2, k - 1); }
    }
  }

  lemma Log2Mono(a: nat, b: nat)
    requires a <= b
    ensures Log2(a) <= Log2(b)
  {
    if a > 0 {
      hide Log2;
      Log2AtLeast(a, Log2(a));
      Log2AtLeast(b, Log2(a));
    }
  }

  /** Two numbers with equal logarithms add up to one with a larger logarithm. */
  lemma Log2Sum(a: nat, b: nat, k: nat)
    requires a > 0 && b > 0 && Log2(a) >= k && Log2(b) >= k
    ensures Log2(a + b) > k
  {
    hide Log2;
    Log2AtLeast(a, k);
    Log2AtLeast(b, k);
    Log2AtLeast(a + b, k + 1);
  }

  // ----- The potential

  ghost function Size(t: Shape): nat {
    match t
    case Leaf => 0
    case Bin(l, x, r) => Size(l) + 1 + Size(r)
  }

  ghost function Potential(t: Shape): nat {
    match t
    case Leaf => 0
    case Bin(l, x, r) => Potential(l) + Potential(r) + Log2(Size(t))
  }

  lemma {:induction false} SizeInOrder(t: Shape)
    ensures Size(t) == |InOrder(t)|
  {
    match t
    case Leaf =>
    case Bin(l, x, r) =>
      SizeInOrder(l);
      SizeInOrder(r);
  }

  /** Two rotations at `x`: its subtree has `x` nodes and its parent's `p`, out of `n`; afterwards the subtrees of
      the two nodes below it have `p2` and `g2`. Either way two disjoint subtrees lie below the grandparent. */
  lemma RankStep(x: nat, p: nat, n: nat, p2: nat, g2: nat)
    requires 1 <= x <= p <= n && 1 <= g2 <= n && 1 <= p2 <= n && (x + g2 <= n || p2 + g2 <= n)
    ensures Log2(p2) + Log2(g2) + 1 <= Log2(x) + Log2(p) + 3 * (Log2(n) - Log2(x))
  {
    hide *;
    Log2Mono(x, p);
    Log2Mono(p, n);
    Log2Mono(p2, n);
    Log2Mono(g2, n);
    if x + g2 <= n { OneIsBelow(x, g2, n); } else { OneIsBelow(p2, g2, n); }
    RankSums(Log2(x), Log2(p), Log2(n), Log2(p2), Log2(g2));
  }

  lemma RankSums(x: nat, p: nat, n: nat, p2: nat, g2: nat)
    requires x <= p <= n && p2 <= n && g2 <= n && (x == n ==> p2 < n || g2 < n)
    ensures p2 + g2 + 1 <= x + p + 3 * (n - x)
  {
  }

  lemma OneIsBelow(a: nat, b: nat, n: nat)
    requires a > 0 && b > 0 && a + b <= n
    ensures Log2(a) < Log2(n) || Log2(b) < Log2(n)
  {
    hide *;
    Log2Mono(a + b, n);
    if Log2(a) >= Log2(n) && Log2(b) >= Log2(n) { Log2Sum(a, b, Log2(n)); }
  }

  /** A subtree is replaced by one of the same size: nothing above it counts differently. */
  lemma {:induction false} SameAbove(path: Path, t: Shape, u: Shape)
    requires Size(t) == Size(u)
    ensures Size(Plug(path, t)) == Size(Plug(path, u))
    ensures Potential(Plug(path, t)) + Potential(u) == Potential(Plug(path, u)) + Potential(t)
  {
    match path
    case Top =>
    case Down(OnLeft(p, s), up) => SameAbove(up, Bin(t, p, s), Bin(u, p, s));
    case Down(OnRight(s, p), up) => SameAbove(up, Bin(s, p, t), Bin(s, p, u));
  }

  lemma Peel(l: Shape, x: Node, r: Shape)
    ensures Size(Bin(l, x, r)) == Size(l) + 1 + Size(r)
    ensures Potential(Bin(l, x, r)) == Potential(l) + Potential(r) + Log2(Size(Bin(l, x, r)))
  {
  }

  lemma PotentialSums(before: nat, after: nat, p: nat, x: nat, n: nat, p2: nat, g2: nat, all: nat, all2: nat)
    requires p2 + g2 + 1 <= x + p + 3 * (n - x) && before + p2 + g2 == after + x + p && all + after == all2 + before
    ensures 2 + 2 * all2 + 6 * x <= 2 * all + 6 * n
  {
  }

  /** Two rotations turn `before` into `after`, somewhere in the tree, and are paid for. */
  ghost predicate Paid(up: Path, before: Shape, after: Shape, sub: Shape) {
    && Size(Plug(up, before)) == Size(Plug(up, after))
    && 2 + 2 * Potential(Plug(up, after)) + 6 * Log2(Size(sub))
         <= 2 * Potential(Plug(up, before)) + 6 * Log2(Size(after))
  }

  /** Only the ranks of three nodes change, and that of the topmost stays. */
  lemma TurnPays(up: Path, before: Shape, after: Shape, sub: Shape, p: nat, p2: nat, g2: nat)
    requires 1 <= Size(sub) <= p <= Size(before) == Size(after) && 1 <= p2 <= Size(after) && 1 <= g2 <= Size(after)
    requires Size(sub) + g2 <= Size(after) || p2 + g2 <= Size(after)
    requires Potential(before) + Log2(p2) + Log2(g2) == Potential(after) + Log2(Size(sub)) + Log2(p)
    ensures Paid(up, before, after, sub)
  {
    hide Log2;
    RankStep(Size(sub), p, Size(after), p2, g2);
    SameAbove(up, before, after);
    PotentialSums(Potential(before), Potential(after), Log2(p), Log2(Size(sub)), Log2(Size(after)), Log2(p2), Log2(g2),
      Potential(Plug(up, before)), Potential(Plug(up, after)));
  }

  lemma ZigZigRight(up: Path, a: Shape, x: Node, b: Shape, p: Node, s: Shape, g: Node, u: Shape)
    ensures Paid(up, Bin(Bin(Bin(a, x, b), p, s), g, u), Bin(a, x, Bin(b, p, Bin(s, g, u))), Bin(a, x, b))
  {
    hide Log2;
    Peel(a, x, b);
    Peel(Bin(a, x, b), p, s);
    Peel(Bin(Bin(a, x, b), p, s), g, u);
    Peel(s, g, u);
    Peel(b, p, Bin(s, g, u));
    Peel(a, x, Bin(b, p, Bin(s, g, u)));
    TurnPays(up, Bin(Bin(Bin(a, x, b), p, s), g, u), Bin(a, x, Bin(b, p, Bin(s, g, u))), Bin(a, x, b),
      Size(Bin(Bin(a, x, b), p, s)), Size(Bin(b, p, Bin(s, g, u))), Size(Bin(s, g, u)));
  }

  lemma ZigZigLeft(up: Path, a: Shape, x: Node, b: Shape, p: Node, s: Shape, g: Node, u: Shape)
    ensures Paid(up, Bin(u, g, Bin(s, p, Bin(a, x, b))), Bin(Bin(Bin(u, g, s), p, a), x, b), Bin(a, x, b))
  {
    hide Log2;
    Peel(a, x, b);
    Peel(s, p, Bin(a, x, b));
    Peel(u, g, Bin(s, p, Bin(a, x, b)));
    Peel(u, g, s);
    Peel(Bin(u, g, s), p, a);
    Peel(Bin(Bin(u, g, s), p, a), x, b);
    TurnPays(up, Bin(u, g, Bin(s, p, Bin(a, x, b))), Bin(Bin(Bin(u, g, s), p, a), x, b), Bin(a, x, b),
      Size(Bin(s, p, Bin(a, x, b))), Size(Bin(Bin(u, g, s), p, a)), Size(Bin(u, g, s)));
  }

  lemma ZigZagRightLeft(up: Path, a: Shape, x: Node, b: Shape, p: Node, s: Shape, g: Node, u: Shape)
    ensures Paid(up, Bin(u, g, Bin(Bin(a, x, b), p, s)), Bin(Bin(u, g, a), x, Bin(b, p, s)), Bin(a, x, b))
  {
    hide Log2;
    Peel(a, x, b);
    Peel(Bin(a, x, b), p, s);
    Peel(u, g, Bin(Bin(a, x, b), p, s));
    Peel(u, g, a);
    Peel(b, p, s);
    Peel(Bin(u, g, a), x, Bin(b, p, s));
    TurnPays(up, Bin(u, g, Bin(Bin(a, x, b), p, s)), Bin(Bin(u, g, a), x, Bin(b, p, s)), Bin(a, x, b),
      Size(Bin(Bin(a, x, b), p, s)), Size(Bin(b, p, s)), Size(Bin(u, g, a)));
  }

  lemma ZigZagLeftRight(up: Path, a: Shape, x: Node, b: Shape, p: Node, s: Shape, g: Node, u: Shape)
    ensures Paid(up, Bin(Bin(s, p, Bin(a, x, b)), g, u), Bin(Bin(s, p, a), x, Bin(b, g, u)), Bin(a, x, b))
  {
    hide Log2;
    Peel(a, x, b);
    Peel(s, p, Bin(a, x, b));
    Peel(Bin(s, p, Bin(a, x, b)), g, u);
    Peel(b, g, u);
    Peel(s, p, a);
    Peel(Bin(s, p, a), x, Bin(b, g, u));
    TurnPays(up, Bin(Bin(s, p, Bin(a, x, b)), g, u), Bin(Bin(s, p, a), x, Bin(b, g, u)), Bin(a, x, b),
      Size(Bin(s, p, Bin(a, x, b))), Size(Bin(s, p, a)), Size(Bin(b, g, u)));
  }

  /** A single rotation at the root. */
  lemma SingleTurn(a: Shape, x: Node, b: Shape, p: Node, s: Shape)
    ensures Potential(Bin(a, x, Bin(b, p, s))) + Log2(Size(Bin(a, x, b)))
         <= Potential(Bin(Bin(a, x, b), p, s)) + Log2(Size(Bin(Bin(a, x, b), p, s)))
  {
    hide Log2;
    Peel(a, x, b);
    Peel(Bin(a, x, b), p, s);
    Peel(b, p, s);
    Peel(a, x, Bin(b, p, s));
    Log2Mono(Size(Bin(b, p, s)), Size(Bin(Bin(a, x, b), p, s)));
  }

  lemma SingleTurnMirrored(a: Shape, x: Node, b: Shape, p: Node, s: Shape)
    ensures Potential(Bin(Bin(s, p, a), x, b)) + Log2(Size(Bin(a, x, b)))
         <= Potential(Bin(s, p, Bin(a, x, b))) + Log2(Size(Bin(s, p, Bin(a, x, b))))
  {
    hide Log2;
    Peel(a, x, b);
    Peel(s, p, Bin(a, x, b));
    Peel(s, p, a);
    Peel(Bin(s, p, a), x, b);
    Log2Mono(Size(Bin(s, p, a)), Size(Bin(s, p, Bin(a, x, b))));
  }

  /** The rotations of one splay: their number, which is the depth of the node, is covered by the potential that
      is set free and the logarithm of the size of the tree. */
  ghost predicate Pays(path: Path, a: Shape, x: Node, b: Shape) {
    Length(path) + 2 * Potential(SplayUp(path, a, x, b)) + 6 * Log2(Size(Bin(a, x, b)))
      <= 2 * Potential(Plug(path, Bin(a, x, b))) + 6 * Log2(Size(Plug(path, Bin(a, x, b)))) + 1
  }

  lemma PaysNothing(a: Shape, x: Node, b: Shape)
    ensures Pays(Top, a, x, b)
  {
    hide Log2;
  }

  lemma PaysOnce(path: Path, a: Shape, x: Node, b: Shape)
    requires path.Down? && path.up.Top?
    ensures Pays(path, a, x, b)
  {
    match path
    case Down(OnLeft(p, s), Top) =>
      OneTurnLeft(a, x, b, p, s);
      SingleTurn(a, x, b, p, s);
      Log2Mono(Size(Bin(a, x, b)), Size(Bin(Bin(a, x, b), p, s)));
      hide Log2, Plug, SplayUp;
    case Down(OnRight(s, p), Top) =>
      OneTurnRight(a, x, b, p, s);
      SingleTurnMirrored(a, x, b, p, s);
      Log2Mono(Size(Bin(a, x, b)), Size(Bin(s, p, Bin(a, x, b))));
      hide Log2, Plug, SplayUp;
  }

  lemma OneTurnLeft(a: Shape, x: Node, b: Shape, p: Node, s: Shape)
    ensures var path := Down(OnLeft(p, s), Top);
      && Length(path) == 1 && Plug(path, Bin(a, x, b)) == Bin(Bin(a, x, b), p, s)
      && SplayUp(path, a, x, b) == Bin(a, x, Bin(b, p, s))
  {
    assert Plug(Top, Bin(Bin(a, x, b), p, s)) == Bin(Bin(a, x, b), p, s) && Length(Top) == 0;
  }

  lemma OneTurnRight(a: Shape, x: Node, b: Shape, p: Node, s: Shape)
    ensures var path := Down(OnRight(s, p), Top);
      && Length(path) == 1 && Plug(path, Bin(a, x, b)) == Bin(s, p, Bin(a, x, b))
      && SplayUp(path, a, x, b) == Bin(Bin(s, p, a), x, b)
  {
    assert Plug(Top, Bin(s, p, Bin(a, x, b))) == Bin(s, p, Bin(a, x, b)) && Length(Top) == 0;
  }

  lemma PaysOn(path: Path, a: Shape, x: Node, b: Shape, up: Path, l: Shape, r: Shape, before: Shape)
    requires Length(path) == Length(up) + 2 && SplayUp(path, a, x, b) == SplayUp(up, l, x, r)
    requires Plug(path, Bin(a, x, b)) == Plug(up, before)
    requires Paid(up, before, Bin(l, x, r), Bin(a, x, b)) && Pays(up, l, x, r)
    ensures Pays(path, a, x, b)
  {
    hide Log2;
  }

  lemma {:induction false} SplayPays(path: Path, a: Shape, x: Node, b: Shape)
    ensures Pays(path, a, x, b)
  {
    hide Log2, Pays, Paid;
    match path
    case Top => PaysNothing(a, x, b);
    case Down(_, Top) => PaysOnce(path, a, x, b);
    case Down(OnLeft(p, s), Down(OnLeft(g, u), up)) =>
      SplayPays(up, a, x, Bin(b, p, Bin(s, g, u)));
      ZigZigRight(up, a, x, b, p, s, g, u);
      PaysOn(path, a, x, b, up, a, Bin(b, p, Bin(s, g, u)), Bin(Bin(Bin(a, x, b), p, s), g, u));
    case Down(OnRight(s, p), Down(OnRight(u, g), up)) =>
      SplayPays(up, Bin(Bin(u, g, s), p, a), x, b);
      ZigZigLeft(up, a, x, b, p, s, g, u);
      PaysOn(path, a, x, b, up, Bin(Bin(u, g, s), p, a), b, Bin(u, g, Bin(s, p, Bin(a, x, b))));
    case Down(OnLeft(p, s), Down(OnRight(u, g), up)) =>
      SplayPays(up, Bin(u, g, a), x, Bin(b, p, s));
      ZigZagRightLeft(up, a, x, b, p, s, g, u);
      PaysOn(path, a, x, b, up, Bin(u, g, a), Bin(b, p, s), Bin(u, g, Bin(Bin(a, x, b), p, s)));
    case Down(OnRight(s, p), Down(OnLeft(g, u), up)) =>
      SplayPays(up, Bin(s, p, a), x, Bin(b, g, u));
      ZigZagLeftRight(up, a, x, b, p, s, g, u);
      PaysOn(path, a, x, b, up, Bin(s, p, a), Bin(b, g, u), Bin(Bin(s, p, Bin(a, x, b)), g, u));
  }

  // ----- Searching

  /** The keys that a search looks at: two comparisons at each node it passes, one where it ends. */
  ghost function Comparisons(t: Shape, c: Cells, key: int): nat {
    match t
    case Leaf => 0
    case Bin(l, x, r) =>
      if x !in c then 0
      else if key == c[x].key then 1
      else 2 + Comparisons(if key > c[x].key then r else l, c, key)
  }

  // ----- Insertion and removal

  /** One more node below: the sizes on the way up grow by one, and all their logarithms together by no more than
      that of the whole. */
  lemma {:induction false} Grows(path: Path, t: Shape, u: Shape)
    requires Size(u) == Size(t) + 1
    ensures Size(Plug(path, u)) == Size(Plug(path, t)) + 1
    ensures Potential(Plug(path, u)) + Potential(t) + Log2(Size(u))
         <= Potential(Plug(path, t)) + Potential(u) + Log2(Size(Plug(path, u)))
  {
    hide Log2;
    match path
    case Top =>
    case Down(OnLeft(p, s), up) =>
      Grows(up, Bin(t, p, s), Bin(u, p, s));
      Log2Mono(Size(u), Size(Bin(t, p, s)));
    case Down(OnRight(s, p), up) =>
      Grows(up, Bin(s, p, t), Bin(s, p, u));
      Log2Mono(Size(u), Size(Bin(s, p, t)));
  }

  lemma {:induction false} Shrinks(path: Path, t: Shape, u: Shape)
    requires Size(u) <= Size(t) && Potential(u) <= Potential(t)
    ensures Size(Plug(path, u)) <= Size(Plug(path, t)) && Potential(Plug(path, u)) <= Potential(Plug(path, t))
  {
    hide Log2;
    match path
    case Top =>
    case Down(OnLeft(p, s), up) =>
      Log2Mono(Size(Bin(u, p, s)), Size(Bin(t, p, s)));
      Shrinks(up, Bin(t, p, s), Bin(u, p, s));
    case Down(OnRight(s, p), up) =>
      Log2Mono(Size(Bin(s, p, u)), Size(Bin(s, p, t)));
      Shrinks(up, Bin(s, p, t), Bin(s, p, u));
  }

  /** A new leaf is hung at the end of `path` and splayed to the root. */
  lemma InsertPays(path: Path, z: Node)
    ensures var before, after := Plug(path, Leaf), SplayUp(path, Leaf, z, Leaf);
      && Size(after) == Size(before) + 1
      && Length(path) + 2 * Potential(after) <= 2 * Potential(before) + 8 * Log2(Size(after)) + 1
  {
    var leaf := Bin(Leaf, z, Leaf);
    SplayPays(path, Leaf, z, Leaf);
    SplaySize(path, Leaf, z, Leaf);
    Grows(path, Leaf, leaf);
    Peel(Leaf, z, Leaf);
    assert Potential(leaf) == Log2(1) == 0;
    hide Log2;
  }

  /** `d` rotations are covered by `bound` and the potential that is set free. */
  ghost predicate Covered(d: int, before: Shape, after: Shape, bound: nat) {
    0 <= d && d + 2 * Potential(after) <= 2 * Potential(before) + bound
  }

  lemma CoveredNone(t: Shape)
    ensures Covered(0, t, t, 0)
  {
  }

  lemma CoveredMore(d: int, before: Shape, after: Shape, bound: nat, more: nat)
    requires Covered(d, before, after, bound) && bound <= more
    ensures Covered(d, before, after, more)
  {
  }

  lemma CoveredOn(d: int, e: int, a: Shape, b: Shape, c: Shape, x: nat, y: nat)
    requires Covered(d, a, b, x) && Covered(e, b, c, y)
    ensures Covered(d + e, a, c, x + y)
  {
  }

  lemma InsertCovered(path: Path, z: Node, before: Shape, after: Shape, n: nat)
    requires before == Plug(path, Leaf) && after == SplayUp(path, Leaf, z, Leaf) && |InOrder(after)| == n
    ensures Covered(Length(path), before, after, 8 * Log2(n) + 1)
  {
    InsertPays(path, z);
    SizeInOrder(after);
    hide Log2;
  }

  lemma RemoveCovered(path: Path, a: Shape, z: Node, b: Shape, before: Shape, top: Shape, after: Shape, n: nat)
    requires before == Plug(path, Bin(a, z, b)) && top == SplayUp(path, a, z, b) && |InOrder(top)| == n
    requires Potential(after) <= Potential(top)
    ensures Covered(Length(path), before, after, 6 * Log2(n) + 1)
  {
    SplayPays(path, a, z, b);
    SplaySize(path, a, z, b);
    SizeInOrder(top);
    hide Log2;
  }

  lemma SplaySize(path: Path, a: Shape, x: Node, b: Shape)
    ensures Size(SplayUp(path, a, x, b)) == Size(Plug(path, Bin(a, x, b)))
  {
    SplayInOrder(path, a, x, b);
    SizeInOrder(SplayUp(path, a, x, b));
    SizeInOrder(Plug(path, Bin(a, x, b)));
  }

  /** Taking out the root sets potential free: one subtree takes its place, ... */
  lemma OneLeft(l: Shape, z: Node, r: Shape)
    ensures Potential(l) <= Potential(Bin(l, z, r)) && Potential(r) <= Potential(Bin(l, z, r))
  {
    hide Log2;
    Peel(l, z, r);
  }

  /** ... or the successor does, which has no left child. */
  lemma SuccessorOnTop(l: Shape, z: Node, q: Path, y: Node, d: Shape)
    ensures Potential(Bin(l, y, Plug(q, d))) <= Potential(Bin(l, z, Plug(q, Bin(Leaf, y, d))))
  {
    hide Log2;
    Peel(Leaf, y, d);
    Shrinks(q, Bin(Leaf, y, d), d);
    Peel(l, y, Plug(q, d));
    Peel(l, z, Plug(q, Bin(Leaf, y, d)));
    Log2Mono(Size(Bin(l, y, Plug(q, d))), Size(Bin(l, z, Plug(q, Bin(Leaf, y, d)))));
  }
}
