/** A row of cache lines with integer ranks, and how the ranks stand for a recency stack (csim1.c). */
module RankedRow {
  import opened RecencyStack

  datatype Line = Line(valid: bool, tag: nat, dirty: bool, rank: int)

  type Row = seq<Line>

  /** `pos` lists the lines in use, the one with the highest rank first; they hold `st`. */
  ghost predicate Placed(row: Row, st: Stack, pos: seq<nat>) {
    |pos| == |st| && Holding(row, st, pos) && Listed(row, pos) && Clean(row)
  }

  ghost predicate Holding(row: Row, st: Stack, pos: seq<nat>)
    requires |pos| == |st|
  {
    forall i :: 0 <= i < |pos| ==> pos[i] < |row| && row[pos[i]] == Line(true, st[i].tag, st[i].dirty, |row| - i)
  }

  ghost predicate Listed(row: Row, pos: seq<nat>) {
    forall j: nat :: j < |row| && row[j].valid ==> ListedAt(row, pos, j)
  }

  ghost predicate ListedAt(row: Row, pos: seq<nat>, j: nat)
    requires j < |row|
  {
    0 <= |row| - row[j].rank < |pos| && pos[|row| - row[j].rank] == j
  }

  ghost predicate Clean(row: Row) {
    forall j: nat :: j < |row| && !row[j].valid ==> !row[j].dirty
  }

  /** The ranks of the lines in use stand for the recency stack `st`. */
  ghost predicate Refines(row: Row, st: Stack) {
    NoRepeats(Tags(st)) && exists pos :: Placed(row, st, pos)
  }

  // ----- The three cases of an access

  ghost function HitRow(row: Row, i: nat, store: bool): Row
    requires i < |row|
  {
    seq(|row|, j requires 0 <= j < |row| =>
      if j == i then row[i].(rank := |row|, dirty := row[i].dirty || store)
      else if row[j].rank > row[i].rank then row[j].(rank := row[j].rank - 1)
      else row[j])
  }

  ghost function FillRow(row: Row, i: nat, tag: nat, store: bool): Row
    requires i < |row|
  {
    seq(|row|, j requires 0 <= j < |row| =>
      if j == i then Line(true, tag, row[i].dirty || store, |row|)
      else if row[j].valid then row[j].(rank := row[j].rank - 1)
      else row[j])
  }

  ghost function EvictRow(row: Row, i: nat, tag: nat, store: bool): Row
    requires i < |row|
  {
    seq(|row|, j requires 0 <= j < |row| =>
      if j == i then Line(row[i].valid, tag, store, |row|)
      else row[j].(rank := row[j].rank - 1))
  }

  // ----- Each case is a touch of the stack

  ghost function Below(n: nat): (r: set<nat>)
    ensures |r| == n && forall j: nat :: j in r <==> j < n
  {
    if n == 0 then {} else Below(n - 1) + {n - 1}
  }

  ghost function Members(s: seq<nat>): (r: set<nat>)
    requires NoRepeats(s)
    ensures |r| == |s| && forall x :: x in r <==> x in s
  {
    if s == [] then {} else
      assert s == s[..|s| - 1] + [s[|s| - 1]];
      Members(s[..|s| - 1]) + {s[|s| - 1]}
  }

  lemma Smaller(s: set<nat>, u: set<nat>)
    requires s <= u
    ensures |s| <= |u| && (|s| == |u| ==> s == u)
  {
    assert u == s + (u - s);
    assert |u| == |s| + |u - s|;
  }

  lemma PlacesDiffer(row: Row, st: Stack, pos: seq<nat>)
    requires Placed(row, st, pos)
    ensures NoRepeats(pos)
  {
    assert forall i :: 0 <= i < |pos| ==> row[pos[i]].rank == |row| - i;
  }

  /** The stack is full exactly when every line is in use. */
  lemma Full(row: Row, st: Stack, pos: seq<nat>)
    requires Placed(row, st, pos)
    ensures |st| <= |row|
    ensures |st| == |row| <==> forall j: nat :: j < |row| ==> row[j].valid
  {
    PlacesDiffer(row, st, pos);
    InUse(row, st, pos);
    assert forall x :: x in pos ==> x < |row|;
    assert |pos| == |st|;
    hide Placed, NoRepeats;
    AllInUse(row, pos);
  }

  lemma AllInUse(row: Row, pos: seq<nat>)
    requires NoRepeats(pos) && forall x :: x in pos ==> x < |row|
    requires forall j: nat :: j < |row| ==> (row[j].valid <==> j in pos)
    ensures |pos| <= |row|
    ensures |pos| == |row| <==> forall j: nat :: j < |row| ==> row[j].valid
  {
    var used, all := Members(pos), Below(|row|);
    hide Members, Below, NoRepeats;
    assert used <= all;
    Smaller(used, all);
    if forall j: nat :: j < |row| ==> row[j].valid {
      assert all == used;
    }
  }

  lemma InUse(row: Row, st: Stack, pos: seq<nat>)
    requires Placed(row, st, pos)
    ensures forall j: nat :: j < |row| ==> (row[j].valid <==> j in pos)
  {
  }

  lemma OnePlace(st: Stack, p: nat)
    requires NoRepeats(Tags(st)) && p < |st|
    ensures IndexOf(Tags(st), st[p].tag) == p
  {
    assert Tags(st)[p] == st[p].tag;
  }

  lemma TouchDistinct(st: Stack, E: nat, tag: nat, store: bool)
    requires NoRepeats(Tags(st))
    ensures NoRepeats(Tags(Touch(st, E, tag, store)))
  {
    TagsOfTouch(st, E, tag, store);
    FrontMembers(Tags(st), tag);
  }

  /** The search for a hit finds the line with the tag, if there is one. */
  lemma HitIsIn(row: Row, st: Stack, tag: nat)
    requires Refines(row, st)
    ensures tag in Tags(st) <==> exists j: nat :: j < |row| && row[j].valid && row[j].tag == tag
  {
    var pos :| Placed(row, st, pos);
    if tag in Tags(st) {
      var p := IndexOf(Tags(st), tag);
      assert row[pos[p]].tag == tag;
    }
    if j: nat :| j < |row| && row[j].valid && row[j].tag == tag {
      assert Tags(st)[|row| - row[j].rank] == tag;
    }
  }

  lemma HitPlaced(row: Row, st: Stack, pos: seq<nat>, p: nat, store: bool)
    requires Placed(row, st, pos) && p < |st|
    ensures pos[p] < |row|
    ensures Placed(HitRow(row, pos[p], store), [Entry(st[p].tag, st[p].dirty || store)] + Without(st, p),
                   [pos[p]] + Without(pos, p))
  {
    PlacedParts(row, st, pos);
    hide *;
    HitHolding(row, st, pos, p, store);
    HitListed(row, st, pos, p, store);
    HitClean(row, st, pos, p, store);
    var e := Entry(st[p].tag, st[p].dirty || store);
    PlacedBy(HitRow(row, pos[p], store), [e] + Without(st, p), [pos[p]] + Without(pos, p));
  }

  lemma PlacedParts(row: Row, st: Stack, pos: seq<nat>)
    requires Placed(row, st, pos)
    ensures |pos| == |st| && Holding(row, st, pos) && Listed(row, pos) && Clean(row)
  {
  }

  lemma PlacedBy(row: Row, st: Stack, pos: seq<nat>)
    requires |pos| == |st| && Holding(row, st, pos) && Listed(row, pos) && Clean(row)
    ensures Placed(row, st, pos)
  {
  }

  lemma HitClean(row: Row, st: Stack, pos: seq<nat>, p: nat, store: bool)
    requires |pos| == |st| && Holding(row, st, pos) && Clean(row) && p < |st|
    ensures pos[p] < |row| && Clean(HitRow(row, pos[p], store))
    ensures |Without(pos, p)| == |Without(st, p)|
  {
  }

  /** The member in place `i` once the one in place `p` has moved to the front. */
  ghost function Source(p: nat, i: nat): (h: nat)
    ensures h == p <==> i == 0
  {
    if i == 0 then p else if i - 1 < p then i - 1 else i
  }

  lemma FrontAt<T>(s: seq<T>, p: nat, x: T, i: nat)
    requires p < |s| && 0 < i < |s|
    ensures |[x] + Without(s, p)| == |s|
    ensures ([x] + Without(s, p))[i] == s[Source(p, i)]
  {
  }

  lemma HitHolding(row: Row, st: Stack, pos: seq<nat>, p: nat, store: bool)
    requires |pos| == |st| && Holding(row, st, pos) && p < |st|
    ensures pos[p] < |row|
    ensures Holding(HitRow(row, pos[p], store), [Entry(st[p].tag, st[p].dirty || store)] + Without(st, p),
                    [pos[p]] + Without(pos, p))
  {
    var E, out, order := |row|, HitRow(row, pos[p], store), [pos[p]] + Without(pos, p);
    var e := Entry(st[p].tag, st[p].dirty || store);
    var now := [e] + Without(st, p);
    assert out[pos[p]] == Line(true, st[p].tag, st[p].dirty || store, E);
    hide HitRow, Source;
    forall i | 0 <= i < |order|
      ensures order[i] < E && out[order[i]] == Line(true, now[i].tag, now[i].dirty, E - i)
    {
      if i > 0 {
        FrontAt(pos, p, pos[p], i);
        FrontAt(st, p, e, i);
        HitAt(row, st, pos, p, i, store);
      }
    }
  }

  lemma HitAt(row: Row, st: Stack, pos: seq<nat>, p: nat, i: nat, store: bool)
    requires |pos| == |st| && Holding(row, st, pos) && p < |st| && 0 < i < |st|
    ensures pos[p] < |row| && pos[Source(p, i)] < |row|
    ensures HitRow(row, pos[p], store)[pos[Source(p, i)]]
         == Line(true, st[Source(p, i)].tag, st[Source(p, i)].dirty, |row| - i)
  {
    assert row[pos[Source(p, i)]].rank != row[pos[p]].rank;
  }

  lemma HitListed(row: Row, st: Stack, pos: seq<nat>, p: nat, store: bool)
    requires |pos| == |st| && Holding(row, st, pos) && Listed(row, pos) && p < |st|
    ensures pos[p] < |row|
    ensures Listed(HitRow(row, pos[p], store), [pos[p]] + Without(pos, p))
  {
    assert pos[p] < |row|;
    hide *;
    HitValid(row, pos[p], store);
    forall j: nat | j < |row| && row[j].valid
      ensures ListedAt(HitRow(row, pos[p], store), [pos[p]] + Without(pos, p), j)
    {
      HitListedAt(row, st, pos, p, store, j);
      ListedHere(HitRow(row, pos[p], store), [pos[p]] + Without(pos, p), j);
    }
    ListedAll(HitRow(row, pos[p], store), [pos[p]] + Without(pos, p));
  }

  lemma HitValid(row: Row, i: nat, store: bool)
    requires i < |row|
    ensures |HitRow(row, i, store)| == |row|
    ensures forall j: nat :: j < |row| ==> HitRow(row, i, store)[j].valid == row[j].valid
  {
  }

  lemma ListedHere(row: Row, pos: seq<nat>, j: nat)
    requires j < |row| && 0 <= |row| - row[j].rank < |pos| && pos[|row| - row[j].rank] == j
    ensures ListedAt(row, pos, j)
  {
  }

  lemma ListedAll(row: Row, pos: seq<nat>)
    requires forall j: nat :: j < |row| && row[j].valid ==> ListedAt(row, pos, j)
    ensures Listed(row, pos)
  {
  }

  lemma HitListedAt(row: Row, st: Stack, pos: seq<nat>, p: nat, store: bool, j: nat)
    requires |pos| == |st| && Holding(row, st, pos) && Listed(row, pos) && p < |st| && j < |row| && row[j].valid
    ensures pos[p] < |row|
    ensures var r := |row| - HitRow(row, pos[p], store)[j].rank;
      0 <= r < |[pos[p]] + Without(pos, p)| && ([pos[p]] + Without(pos, p))[r] == j
  {
    hide *;
    RankAt(row, st, pos, p);
    PlaceAt(row, pos, j);
    RankAfterHit(row, pos[p], store, j);
    var h := |row| - row[j].rank;
    WithoutAt(pos, p, h);
  }

  lemma RankAt(row: Row, st: Stack, pos: seq<nat>, p: nat)
    requires |pos| == |st| && Holding(row, st, pos) && p < |pos|
    ensures pos[p] < |row| && row[pos[p]].rank == |row| - p
  {
  }

  lemma PlaceAt(row: Row, pos: seq<nat>, j: nat)
    requires Listed(row, pos) && j < |row| && row[j].valid
    ensures 0 <= |row| - row[j].rank < |pos| && pos[|row| - row[j].rank] == j
  {
    assert ListedAt(row, pos, j);
  }

  lemma RankAfterHit(row: Row, i: nat, store: bool, j: nat)
    requires i < |row| && j < |row|
    ensures |HitRow(row, i, store)| == |row|
    ensures HitRow(row, i, store)[j].rank
         == if j == i then |row| else if row[j].rank > row[i].rank then row[j].rank - 1 else row[j].rank
  {
  }

  lemma WithoutAt(pos: seq<nat>, p: nat, h: nat)
    requires p < |pos| && h < |pos|
    ensures |[pos[p]] + Without(pos, p)| == |pos| && ([pos[p]] + Without(pos, p))[0] == pos[p]
    ensures h < p ==> ([pos[p]] + Without(pos, p))[h + 1] == pos[h]
    ensures h > p ==> ([pos[p]] + Without(pos, p))[h] == pos[h]
  {
  }

  lemma TouchHit(st: Stack, E: nat, p: nat, store: bool)
    requires NoRepeats(Tags(st)) && p < |st|
    ensures Touch(st, E, st[p].tag, store) == [Entry(st[p].tag, st[p].dirty || store)] + Without(st, p)
    ensures NoRepeats(Tags(Touch(st, E, st[p].tag, store)))
  {
    OnePlace(st, p);
    TouchDistinct(st, E, st[p].tag, store);
  }

  lemma HitRefines(row: Row, st: Stack, i: nat, store: bool)
    requires Refines(row, st) && i < |row| && row[i].valid
    ensures Refines(HitRow(row, i, store), Touch(st, |row|, row[i].tag, store))
  {
    hide *;
    var pos := PlacesOf(row, st);
    var p := PlaceOf(row, st, pos, i);
    TouchHit(st, |row|, p, store);
    HitPlaced(row, st, pos, p, store);
    RefinesBy(HitRow(row, i, store), Touch(st, |row|, row[i].tag, store), [pos[p]] + Without(pos, p));
  }

  lemma PlacesOf(row: Row, st: Stack) returns (pos: seq<nat>)
    requires Refines(row, st)
    ensures Placed(row, st, pos) && NoRepeats(Tags(st))
  {
    pos :| Placed(row, st, pos);
  }

  lemma RefinesBy(row: Row, st: Stack, pos: seq<nat>)
    requires Placed(row, st, pos) && NoRepeats(Tags(st))
    ensures Refines(row, st)
  {
    hide Placed, NoRepeats;
  }

  lemma PlaceOf(row: Row, st: Stack, pos: seq<nat>, i: nat) returns (p: nat)
    requires Placed(row, st, pos) && i < |row| && row[i].valid
    ensures p < |st| == |pos| && pos[p] == i && st[p].tag == row[i].tag
  {
    p := |row| - row[i].rank;
  }

  lemma FillPlaced(row: Row, st: Stack, pos: seq<nat>, i: nat, tag: nat, store: bool)
    requires Placed(row, st, pos) && i < |row| && !row[i].valid
    ensures Placed(FillRow(row, i, tag, store), [Entry(tag, store)] + st, [i] + pos)
  {
  }

  lemma FillRefines(row: Row, st: Stack, i: nat, tag: nat, store: bool)
    requires Refines(row, st) && i < |row| && !row[i].valid && tag !in Tags(st)
    ensures |st| < |row| && Refines(FillRow(row, i, tag, store), Touch(st, |row|, tag, store))
  {
    var pos :| Placed(row, st, pos);
    Full(row, st, pos);
    TouchDistinct(st, |row|, tag, store);
    FillPlaced(row, st, pos, i, tag, store);
  }

  /** A full set has a line of rank 1, and it holds the least recently used block. */
  lemma LastHasRankOne(row: Row, st: Stack)
    requires Refines(row, st) && forall j: nat :: j < |row| ==> row[j].valid
    ensures |st| == |row|
    ensures |row| > 0 ==> exists j: nat :: j < |row| && row[j].rank == 1
    ensures forall j: nat :: j < |row| && row[j].rank == 1 ==> st[|st| - 1] == Entry(row[j].tag, row[j].dirty)
  {
    var pos :| Placed(row, st, pos);
    hide NoRepeats, Tags;
    Full(row, st, pos);
    LastPlace(row, st, pos);
  }

  lemma LastPlace(row: Row, st: Stack, pos: seq<nat>)
    requires Placed(row, st, pos) && |st| == |row| && forall j: nat :: j < |row| ==> row[j].valid
    ensures |row| > 0 ==> pos[|row| - 1] < |row| && row[pos[|row| - 1]].rank == 1
    ensures forall j: nat :: j < |row| && row[j].rank == 1 ==> st[|st| - 1] == Entry(row[j].tag, row[j].dirty)
  {
    forall j: nat | j < |row| && row[j].rank == 1
      ensures st[|st| - 1] == Entry(row[j].tag, row[j].dirty)
    {
      assert pos[|row| - 1] == j;
    }
  }

  lemma EvictPlaced(row: Row, st: Stack, pos: seq<nat>, i: nat, tag: nat, store: bool)
    requires Placed(row, st, pos) && (forall j: nat :: j < |row| ==> row[j].valid) && |st| == |row|
    requires i < |row| && row[i].rank == 1
    ensures Placed(EvictRow(row, i, tag, store), [Entry(tag, store)] + st[..|st| - 1], [i] + pos[..|pos| - 1])
  {
  }

  lemma EvictRefines(row: Row, st: Stack, i: nat, tag: nat, store: bool)
    requires Refines(row, st) && (forall j: nat :: j < |row| ==> row[j].valid)
    requires i < |row| && row[i].rank == 1 && tag !in Tags(st)
    ensures Refines(EvictRow(row, i, tag, store), Touch(st, |row|, tag, store))
  {
    var pos :| Placed(row, st, pos);
    Full(row, st, pos);
    TouchDistinct(st, |row|, tag, store);
    assert ([Entry(tag, store)] + st)[..|row|] == [Entry(tag, store)] + st[..|st| - 1];
    EvictPlaced(row, st, pos, i, tag, store);
  }

  ghost predicate HasRank(row: Row, j: nat, r: int) {
    j < |row| && row[j].valid && row[j].rank == r
  }

  ghost predicate RankTaken(row: Row, r: int) {
    exists j: nat :: HasRank(row, j, r)
  }

  /** The ranks of the k lines in use are E - k + 1 .. E, each once, and no two lines hold the same block. */
  lemma RanksPermuted(row: Row, st: Stack)
    requires Refines(row, st)
    ensures |st| <= |row|
    ensures forall j: nat :: j < |row| && row[j].valid ==> |row| - |st| < row[j].rank <= |row|
    ensures forall j: nat, k: nat :: j < k < |row| && row[j].valid && row[k].valid ==>
              row[j].rank != row[k].rank && row[j].tag != row[k].tag
    ensures forall r :: |row| - |st| < r <= |row| ==> RankTaken(row, r)
  {
    var pos :| Placed(row, st, pos);
    Full(row, st, pos);
    forall j: nat, k: nat | j < k < |row| && row[j].valid && row[k].valid
      ensures row[j].rank != row[k].rank && row[j].tag != row[k].tag
    {
      TagsDiffer(row, st, pos, j, k);
    }
    forall r | |row| - |st| < r <= |row|
      ensures RankTaken(row, r)
    {
      assert HasRank(row, pos[|row| - r], r);
    }
  }

  lemma TagsDiffer(row: Row, st: Stack, pos: seq<nat>, j: nat, k: nat)
    requires Placed(row, st, pos) && NoRepeats(Tags(st)) && j < k < |row| && row[j].valid && row[k].valid
    ensures row[j].rank != row[k].rank && row[j].tag != row[k].tag
  {
    var h, i := |row| - row[j].rank, |row| - row[k].rank;
    assert pos[h] == j && pos[i] == k;
    assert Tags(st)[h] == row[j].tag && Tags(st)[i] == row[k].tag;
    hide Placed;
  }
}
