/** The size classes of the segregated lists (get_index in mm.c). */
module SizeClasses {
  import opened HeapWords
  import opened Arithmetic

  const LIST_NUMBER: nat := 14

  /** `dsize << k`. */
  function Shifted(k: nat): (b: nat)
    ensures b >= 16
  {
    if k == 0 then DSIZE else 2 * Shifted(k - 1)
  }

  /** The lower bound in bytes of class k + 1. */
  function Bound(k: nat): (b: nat)
    ensures b >= 16
  {
    Shifted(k)
  }

  lemma {:induction false} BoundIs(k: nat)
    ensures Bound(k) == 16 * Pow2(k)
  {
    if k == 0 {
      Pow2Is1();
    } else {
      BoundIs(k - 1);
      Pow2Step(k - 1);
    }
  }

  /** The first class from `j` on whose upper bound is above `asize`; the last class has no upper bound. */
  function ClassFrom(asize: nat, j: nat): (r: nat)
    requires 1 <= j < LIST_NUMBER
    ensures j <= r < LIST_NUMBER
    decreases LIST_NUMBER - j
  {
    if j + 1 == LIST_NUMBER || asize < Bound(j) then j else ClassFrom(asize, j + 1)
  }

  function IndexOf(asize: nat): (r: nat)
    ensures r < LIST_NUMBER
  {
    if asize <= MIN_BLOCK_SIZE then 0 else ClassFrom(asize, 1)
  }

  lemma {:induction false} BoundMonotone(i: nat, j: nat)
    requires i <= j
    ensures Bound(i) <= Bound(j)
    decreases j
  {
    if i < j { BoundMonotone(i, j - 1); }
  }

  lemma {:induction false} ClassMonotone(a: nat, b: nat, j: nat)
    requires a <= b && 1 <= j < LIST_NUMBER
    ensures ClassFrom(a, j) <= ClassFrom(b, j)
    decreases LIST_NUMBER - j
  {
    if j + 1 < LIST_NUMBER && Bound(j) <= a {
      ClassMonotone(a, b, j + 1);
    }
  }

  /** A larger block is never kept in a lower list. */
  lemma IndexMonotone(a: nat, b: nat)
    requires a <= b
    ensures IndexOf(a) <= IndexOf(b)
  {
    ClassMonotone(a, b, 1);
  }

  lemma {:induction false} ClassBounds(asize: nat, j: nat)
    requires 1 <= j < LIST_NUMBER && Bound(j - 1) <= asize
    ensures var r := ClassFrom(asize, j);
      r >= 1 && Bound(r - 1) <= asize && (r + 1 < LIST_NUMBER ==> asize < Bound(r))
    decreases LIST_NUMBER - j
  {
    hide Bound;
    if j + 1 < LIST_NUMBER && Bound(j) <= asize { ClassBounds(asize, j + 1); }
  }

  lemma InClass(asize: nat)
    requires asize > MIN_BLOCK_SIZE
    ensures var i := IndexOf(asize);
      1 <= i && Bound(i - 1) <= asize && (i + 1 < LIST_NUMBER ==> asize < Bound(i))
  {
    assert Bound(0) <= asize;
    hide Bound;
    ClassBounds(asize, 1);
  }

  /** The bounds of a class determine its number. */
  lemma IndexBetween(asize: nat, j: nat)
    requires asize > MIN_BLOCK_SIZE && 1 <= j < LIST_NUMBER
    ensures IndexOf(asize) == j
       <==> Bound(j - 1) <= asize && (j + 1 < LIST_NUMBER ==> asize < Bound(j))
  {
    hide IndexOf, Bound;
    InClass(asize);
    var i := IndexOf(asize);
    if i < j { BoundMonotone(i, j - 1); }
    if j < i { BoundMonotone(j, i - 1); }
  }

  /** Each size belongs to exactly one class: the sizes of class j are those from 16 * 2^(j - 1) to 16 * 2^j, that
      end excluded, and the last class has all that are larger. */
  lemma IndexExact(asize: nat, j: nat)
    requires asize > MIN_BLOCK_SIZE && 1 <= j < LIST_NUMBER
    ensures IndexOf(asize) == j
       <==> 16 * Pow2(j - 1) <= asize && (j + 1 < LIST_NUMBER ==> asize < 16 * Pow2(j))
  {
    hide *;
    IndexBetween(asize, j);
    BoundIs(j - 1);
    BoundIs(j);
  }

  /** The loop of get_index. The last `return 0` of the source is never reached. */
  method GetIndex(asize: nat) returns (index: nat)
    ensures index == IndexOf(asize)
  {
    index := 0;
    if asize <= MIN_BLOCK_SIZE {
      return;
    } else if asize >= Bound(LIST_NUMBER - 2) {
      IndexBetween(asize, LIST_NUMBER - 1);
      return LIST_NUMBER - 1;
    } else {
      var j := 1;
      while j < LIST_NUMBER - 1
        invariant 1 <= j <= LIST_NUMBER - 1
        invariant Bound(j - 1) <= asize
      {
        if asize >= Bound(j - 1) && asize < Bound(j) {
          IndexBetween(asize, j);
          return j;
        }
        j := j + 1;
      }
      assert false;
    }
  }
}
