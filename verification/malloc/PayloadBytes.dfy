/** The bytes of a payload: eight to a word, the lowest first. */
module PayloadBytes {
  import opened Arithmetic

  function ByteOf(w: nat, j: nat): nat {
    if j == 0 then w % 256 else ByteOf(w / 256, j - 1)
  }

  /** Byte `j` of a word is its bits 8 j to 8 j + 7. */
  lemma {:induction false} ByteOfIs(w: nat, j: nat)
    ensures ByteOf(w, j) == w / Pow2(8 * j) % 256
  {
    if j == 0 {
      Pow2Is1();
    } else {
      ByteOfIs(w / 256, j - 1);
      Pow2Of8(8 * (j - 1));
      hide Pow2;
      DividedTwice(w, 256, Pow2(8 * (j - 1)));
    }
  }

  lemma Pow2Of8(n: nat)
    ensures Pow2(n + 8) == 256 * Pow2(n)
  {
    Pow2Sum(8, n);
    assert Pow2(8) == 256;
  }

  /** The first `n` bytes determine a word that has no more. */
  lemma {:induction false} SameWord(v: nat, w: nat, n: nat)
    requires v < Pow2(8 * n) && w < Pow2(8 * n) && forall j: nat :: j < n ==> ByteOf(v, j) == ByteOf(w, j)
    ensures v == w
  {
    if n == 0 {
      Pow2Is1();
    } else {
      Pow2Of8(8 * (n - 1));
      hide Pow2;
      assert ByteOf(v, 0) == ByteOf(w, 0);
      forall j: nat | j < n - 1
        ensures ByteOf(v / 256, j) == ByteOf(w / 256, j)
      {
        assert ByteOf(v, j + 1) == ByteOf(w, j + 1);
      }
      SameWord(v / 256, w / 256, n - 1);
    }
  }

  /** Byte `k` of a sequence of words. */
  function ByteAt(s: seq<nat>, k: nat): nat
    requires k < 8 * |s|
  {
    ByteOf(s[k / 8], k % 8)
  }

  /** The low `r` bytes of `w` written over those of `v`. */
  function Splice(w: nat, v: nat, r: nat): nat {
    if r == 0 then v else w % 256 + 256 * Splice(w / 256, v / 256, r - 1)
  }

  /** The low 8 r bits are those of `w`, the bits above them those of `v`. */
  lemma {:induction false} SpliceIs(w: nat, v: nat, r: nat)
    ensures Splice(w, v, r) == v - v % Pow2(8 * r) + w % Pow2(8 * r)
  {
    if r == 0 {
      Pow2Is1();
    } else {
      SpliceIs(w / 256, v / 256, r - 1);
      Pow2Of8(8 * (r - 1));
      hide Pow2;
      var p := Pow2(8 * (r - 1));
      LowPart(w, p);
      LowPart(v, p);
    }
  }

  lemma LowPart(x: nat, p: nat)
    requires p > 0
    ensures x % (256 * p) == x % 256 + 256 * (x / 256 % p)
  {
    DividedTwice(x, 256, p);
  }

  lemma {:induction false} SpliceBytes(w: nat, v: nat, r: nat, j: nat)
    ensures ByteOf(Splice(w, v, r), j) == if j < r then ByteOf(w, j) else ByteOf(v, j)
  {
    if r > 0 {
      QuotientIs(Splice(w, v, r), Splice(w / 256, v / 256, r - 1), 256, w % 256);
      if j > 0 { SpliceBytes(w / 256, v / 256, r - 1, j - 1); }
    }
  }

  /** The words of `d` after mem_memcpy of `n` bytes of `s` over them: whole words, then a partial one. */
  function Copied(d: seq<nat>, s: seq<nat>, n: nat): seq<nat>
    requires n <= 8 * |d| && n <= 8 * |s|
  {
    var q, r := n / 8, n % 8;
    if r == 0 then s[..q] + d[q..] else s[..q] + [Splice(s[q], d[q], r)] + d[q + 1..]
  }

  /** The first `n` bytes are those of `s`, the others those of `d`. */
  lemma CopiedBytes(d: seq<nat>, s: seq<nat>, n: nat, k: nat)
    requires n <= 8 * |d| && n <= 8 * |s| && k < 8 * |d|
    ensures |Copied(d, s, n)| == |d|
    ensures k < n ==> ByteAt(Copied(d, s, n), k) == ByteAt(s, k)
    ensures k >= n ==> ByteAt(Copied(d, s, n), k) == ByteAt(d, k)
  {
    var q, r := n / 8, n % 8;
    if k / 8 == q && r != 0 {
      SpliceBytes(s[q], d[q], r, k % 8);
    }
  }

  /** `a` and `b` agree on their first `n` bytes, as far as both reach. */
  ghost predicate SameBytes(a: seq<nat>, b: seq<nat>, n: nat) {
    forall k: nat {:trigger ByteAt(a, k)} :: k < n && k < 8 * |a| && k < 8 * |b| ==> ByteAt(a, k) == ByteAt(b, k)
  }

  /** So the whole words among these bytes are equal. */
  lemma SameBytesWords(a: seq<nat>, b: seq<nat>, n: nat, k: nat)
    requires SameBytes(a, b, n) && 8 * k + 8 <= n && k < |a| && k < |b|
    requires a[k] < Pow2(64) && b[k] < Pow2(64)
    ensures a[k] == b[k]
  {
    hide Pow2, ByteOf;
    forall j: nat | j < 8
      ensures ByteOf(a[k], j) == ByteOf(b[k], j)
    {
      assert ByteAt(a, 8 * k + j) == ByteAt(b, 8 * k + j);
    }
    SameWord(a[k], b[k], 8);
  }

  lemma CopiedSame(d: seq<nat>, s: seq<nat>, size: nat, n: nat)
    requires n == (if size < 8 * |s| then size else 8 * |s|) && n <= 8 * |d|
    ensures |Copied(d, s, n)| == |d| && SameBytes(Copied(d, s, n), s, size)
  {
    hide ByteAt;
    CopiedLength(d, s, n);
    forall k: nat {:trigger ByteAt(Copied(d, s, n), k)} | k < size && k < 8 * |d| && k < 8 * |s|
      ensures ByteAt(Copied(d, s, n), k) == ByteAt(s, k)
    {
      CopiedBytes(d, s, n, k);
    }
  }

  lemma CopiedLength(d: seq<nat>, s: seq<nat>, n: nat)
    requires n <= 8 * |d| && n <= 8 * |s|
    ensures |Copied(d, s, n)| == |d|
  {
  }
}
