/** Anchors: the longest chain of unique k-grams that ascends on both texts. */
module Patience {
  import opened Arithmetic
  import opened Alignment
  import opened Blocks
  import Sorting

  // --- grams that occur once -------------------------------------------------------------

  function Gram(text: string, i: int, k: int): string
    requires 0 <= i && 0 <= k && i + k <= |text|
  {
    text[i..i + k]
  }

  /** How often `g` occurs among the k-grams starting from `lo` up to `n`. */
  function Count(text: string, lo: int, n: int, k: int, g: string): nat
    requires 0 <= lo && 0 < k && (n > lo ==> n - 1 + k <= |text|)
    decreases n - lo
  {
    if n <= lo then 0 else Count(text, lo, n - 1, k, g) + (if Gram(text, n - 1, k) == g then 1 else 0)
  }

  /** The gram at `i` occurs nowhere else in the range. */
  ghost predicate OccursOnce(text: string, lo: int, n: int, k: int, i: int) {
    && 0 <= lo <= i < n && 0 < k && n - 1 + k <= |text|
    && forall i' {:trigger Gram(text, i', k)} :: lo <= i' < n && Gram(text, i', k) == Gram(text, i, k) ==> i' == i
  }

  lemma {:induction false} CountPositive(text: string, lo: int, n: int, k: int, i: int)
    requires 0 <= lo <= i < n && 0 < k && n - 1 + k <= |text|
    ensures Count(text, lo, n, k, Gram(text, i, k)) >= 1
    decreases n
  {
    if i < n - 1 { CountPositive(text, lo, n - 1, k, i); }
  }

  lemma {:induction false} CountZero(text: string, lo: int, n: int, k: int, g: string)
    requires 0 <= lo && 0 < k && (n > lo ==> n - 1 + k <= |text|)
    requires forall i :: lo <= i < n ==> Gram(text, i, k) != g
    ensures Count(text, lo, n, k, g) == 0
    decreases n - lo
  {
    if n > lo { CountZero(text, lo, n - 1, k, g); }
  }

  /** A gram that is not the last occurs once when it does before the last, and is not the last. */
  lemma OnceBefore(text: string, lo: int, n: int, k: int, i: int)
    requires 0 <= lo <= i < n - 1 && 0 < k && n - 1 + k <= |text|
    ensures OccursOnce(text, lo, n, k, i)
       <==> OccursOnce(text, lo, n - 1, k, i) && Gram(text, n - 1, k) != Gram(text, i, k)
  {
  }

  lemma {:induction false} CountOne(text: string, lo: int, n: int, k: int, i: int)
    requires 0 <= lo <= i < n && 0 < k && n - 1 + k <= |text|
    ensures Count(text, lo, n, k, Gram(text, i, k)) == 1 <==> OccursOnce(text, lo, n, k, i)
    decreases n
  {
    var g := Gram(text, i, k);
    if i == n - 1 {
      if OccursOnce(text, lo, n, k, i) {
        CountZero(text, lo, n - 1, k, g);
      } else {
        var i' :| lo <= i' < n && Gram(text, i', k) == g && i' != i;
        CountPositive(text, lo, n - 1, k, i');
      }
    } else {
      CountOne(text, lo, n - 1, k, i);
      CountPositive(text, lo, n - 1, k, i);
      OnceBefore(text, lo, n, k, i);
    }
  }

  /** `at` sends exactly the grams occurring once in `lo..hi` to where they start. */
  ghost predicate IsUniqueIndex(at: map<string, int>, text: string, lo: int, hi: int, k: int) {
    && (forall g :: g in at ==> OccursOnce(text, lo, hi - k + 1, k, at[g]) && Gram(text, at[g], k) == g)
    && (forall i :: OccursOnce(text, lo, hi - k + 1, k, i) ==> Gram(text, i, k) in at)
  }

  method CountGrams(text: string, lo: int, hi: int, k: int) returns (counts: map<string, nat>)
    requires 0 <= lo <= hi <= |text| && 0 < k
    ensures forall g :: (if g in counts then counts[g] else 0) == Count(text, lo, hi - k + 1, k, g)
  {
    counts := map[];
    var i := lo;
    while i < hi - k + 1
      invariant lo <= i <= Max(lo, hi - k + 1)
      invariant forall g :: (if g in counts then counts[g] else 0) == Count(text, lo, i, k, g)
    {
      var g := Gram(text, i, k);
      counts := counts[g := (if g in counts then counts[g] else 0) + 1];
      i := i + 1;
    }
  }

  method UniqueGrams(text: string, lo: int, hi: int, k: int) returns (at: map<string, int>)
    requires 0 <= lo <= hi <= |text| && 0 < k
    ensures IsUniqueIndex(at, text, lo, hi, k)
  {
    var counts := CountGrams(text, lo, hi, k);
    at := map[];
    var i, n := lo, hi - k + 1;
    while i < n
      invariant lo <= i <= Max(lo, n) && IsIndexUpTo(at, text, lo, n, k, i)
    {
      var g := Gram(text, i, k);
      IndexStep(at, text, lo, n, k, i);
      if g in counts && counts[g] == 1 {
        at := at[g := i];
      }
      i := i + 1;
    }
  }

  /** The grams starting before `i` that occur once among those starting before `n`. */
  ghost predicate IsIndexUpTo(at: map<string, int>, text: string, lo: int, n: int, k: int, i: int) {
    && (forall g :: g in at ==> lo <= at[g] < i && OccursOnce(text, lo, n, k, at[g]) && Gram(text, at[g], k) == g)
    && (forall i' :: lo <= i' < i && OccursOnce(text, lo, n, k, i') ==> Gram(text, i', k) in at)
  }

  lemma {:induction false} IndexStep(at: map<string, int>, text: string, lo: int, n: int, k: int, i: int)
    requires 0 <= lo <= i < n && 0 < k && n - 1 + k <= |text| && IsIndexUpTo(at, text, lo, n, k, i)
    ensures var g := Gram(text, i, k);
            if Count(text, lo, n, k, g)
                 == 1 then IsIndexUpTo(at[g := i], text, lo, n, k, i + 1) else IsIndexUpTo(at, text, lo, n, k, i + 1)
  {
    CountOne(text, lo, n, k, i);
  }

  // --- the pairs -----------------------------------------------------------------------------

  datatype Pair = Pair(i: int, j: int)

  /** The same gram, occurring once in each range. */
  ghost predicate IsUniquePair(a: string, b: string, r: Range, k: int, p: Pair) {
    && OccursOnce(a, r.i0, r.i1 - k + 1, k, p.i) && OccursOnce(b, r.j0, r.j1 - k + 1, k, p.j)
    && Gram(a, p.i, k) == Gram(b, p.j, k)
  }

  ghost predicate Ascends(pairs: seq<Pair>) {
    forall p, q :: 0 <= p < q < |pairs| ==> pairs[p].i < pairs[q].i
  }

  /** The pairs of unique grams, in order on the first text. */
  ghost predicate IsPairList(a: string, b: string, r: Range, k: int, pairs: seq<Pair>) {
    Ascends(pairs) && forall p :: p in pairs <==> IsUniquePair(a, b, r, k, p)
  }

  /** There is one such list at most. */
  ghost function PairsOf(a: string, b: string, r: Range, k: int): seq<Pair> {
    if exists pairs :: IsPairList(a, b, r, k, pairs) then
      var pairs :| IsPairList(a, b, r, k, pairs);
      pairs
    else []
  }

  lemma AscendsApart(x: seq<Pair>)
    requires Ascends(x) && |x| > 0
    ensures Ascends(x[..|x| - 1])
    ensures forall p :: p in x[..|x| - 1] <==> p in x && p.i < x[|x| - 1].i
  {
    var n := |x| - 1;
    forall p | p in x && p.i < x[n].i
      ensures p in x[..n]
    {
      var m :| 0 <= m < |x| && x[m] == p;
      assert x[..n][m] == p;
    }
  }

  lemma LastIsGreatest(x: seq<Pair>)
    requires Ascends(x) && |x| > 0
    ensures forall p :: p in x ==> p == x[|x| - 1] || p.i < x[|x| - 1].i
  {
  }

  lemma NonEmptyHas<T>(y: seq<T>)
    ensures |y| > 0 ==> exists p :: p in y
  {
    if |y| > 0 { assert y[0] in y; }
  }

  /** Two ascending lists of the same pairs are one list. */
  lemma {:induction false} AscendingIsUnique(x: seq<Pair>, y: seq<Pair>)
    requires Ascends(x) && Ascends(y) && forall p :: p in x <==> p in y
    ensures x == y
    decreases |x|
  {
    NonEmptyHas(y);
    if |x| > 0 {
      assert x[|x| - 1] in y;
      var m, n := |x| - 1, |y| - 1;
      assert y[n] in x;
      LastIsGreatest(x);
      LastIsGreatest(y);
      AscendsApart(x);
      AscendsApart(y);
      AscendingIsUnique(x[..m], y[..n]);
      assert x == x[..m] + [x[m]] && y == y[..n] + [y[n]];
    }
  }

  lemma PairListIs(a: string, b: string, r: Range, k: int, pairs: seq<Pair>)
    requires IsPairList(a, b, r, k, pairs)
    ensures pairs == PairsOf(a, b, r, k)
  {
    AscendingIsUnique(pairs, PairsOf(a, b, r, k));
  }

  /** The pairs of the list that start before `n`. */
  ghost predicate IsPairListUpTo(a: string, b: string, r: Range, k: int, pairs: seq<Pair>, n: int) {
    Ascends(pairs) && forall p :: p in pairs <==> p.i < n && IsUniquePair(a, b, r, k, p)
  }

  /** Every pair of unique grams, in order on the first text. */
  method UniquePairs(a: string, b: string, r: Range, k: int) returns (pairs: seq<Pair>)
    requires IsRange(a, b, r) && 0 < k
    ensures Ascends(pairs) && pairs == PairsOf(a, b, r, k)
    ensures forall p :: p in pairs <==> IsUniquePair(a, b, r, k, p)
  {
    var inA := UniqueGrams(a, r.i0, r.i1, k);
    var inB := UniqueGrams(b, r.j0, r.j1, k);
    pairs := [];
    var i, n := r.i0, r.i1 - k + 1;
    while i < n
      invariant r.i0 <= i <= Max(r.i0, n) && IsPairListUpTo(a, b, r, k, pairs, i)
    {
      var g := Gram(a, i, k);
      PairAt(a, b, r, k, inA, inB, i);
      if g in inA && g in inB {
        OnePairMore(a, b, r, k, pairs, Pair(i, inB[g]));
        pairs := pairs + [Pair(i, inB[g])];
      } else {
        NoPairMore(a, b, r, k, pairs, i);
      }
      i := i + 1;
    }
    PairListIs(a, b, r, k, pairs);
  }

  lemma OnePairMore(a: string, b: string, r: Range, k: int, pairs: seq<Pair>, own: Pair)
    requires IsPairListUpTo(a, b, r, k, pairs, own.i) && IsUniquePair(a, b, r, k, own)
    requires forall p: Pair :: p.i == own.i && IsUniquePair(a, b, r, k, p) ==> p == own
    ensures IsPairListUpTo(a, b, r, k, pairs + [own], own.i + 1)
  {
  }

  lemma NoPairMore(a: string, b: string, r: Range, k: int, pairs: seq<Pair>, i: int)
    requires IsPairListUpTo(a, b, r, k, pairs, i)
    requires forall p: Pair :: p.i == i ==> !IsUniquePair(a, b, r, k, p)
    ensures IsPairListUpTo(a, b, r, k, pairs, i + 1)
  {
  }

  lemma {:induction false} PairAt(
      a: string, b: string, r: Range, k: int, inA: map<string, int>, inB: map<string, int>, i: int)
    requires IsRange(a, b, r) && 0 < k && r.i0 <= i < r.i1 - k + 1
    requires IsUniqueIndex(inA, a, r.i0, r.i1, k) && IsUniqueIndex(inB, b, r.j0, r.j1, k)
    ensures var g := Gram(a, i, k);
            forall p: Pair :: p.i == i ==> (IsUniquePair(a, b, r, k, p) <==> g in inA && g in inB && p.j == inB[g])
  {
    var g := Gram(a, i, k);
    if g in inA { assert OccursOnce(a, r.i0, r.i1 - k + 1, k, inA[g]); }
    if g in inB { assert OccursOnce(b, r.j0, r.j1 - k + 1, k, inB[g]); }
  }

  // --- the longest chain ---------------------------------------------------------------------

  /** Positions in `pairs` along which both texts ascend. */
  ghost predicate IsChain(pairs: seq<Pair>, at: seq<int>) {
    && (forall m :: 0 <= m < |at| ==> 0 <= at[m] < |pairs|)
    && (forall m, n :: 0 <= m < n < |at| ==> at[m] < at[n] && pairs[at[m]].j < pairs[at[n]].j)
  }

  // --- which longest chain --------------------------------------------------------------------

  /** How many pairs a longest chain that ends at pair `i` has before it. */
  function Depth(pairs: seq<Pair>, i: nat): nat
    requires i < |pairs|
    decreases i, i + 1
  {
    DepthUpTo(pairs, i, i)
  }

  /** The same, over the pairs before the `n`th alone. */
  function DepthUpTo(pairs: seq<Pair>, i: nat, n: nat): nat
    requires n <= i < |pairs|
    decreases i, n
  {
    if n == 0 then 0
    else Max(DepthUpTo(pairs, i, n - 1), if pairs[n - 1].j < pairs[i].j then Depth(pairs, n - 1) + 1 else 0)
  }

  /** The last pair of the first `n` with this depth, or -1. */
  function Latest(pairs: seq<Pair>, n: nat, depth: int): (p: int)
    requires n <= |pairs|
    ensures -1 <= p < n && (p >= 0 ==> Depth(pairs, p) == depth)
  {
    if n == 0 then -1 else if Depth(pairs, n - 1) == depth then n - 1 else Latest(pairs, n - 1, depth)
  }

  /** How many depths there are among the first `n` pairs. */
  function Depths(pairs: seq<Pair>, n: nat): nat
    requires n <= |pairs|
  {
    if n == 0 then 0 else Max(Depths(pairs, n - 1), Depth(pairs, n - 1) + 1)
  }

  /** The chain to pair `p`: each pair is preceded by the last before it of the depth before its own. */
  function ChainTo(pairs: seq<Pair>, p: int): (at: seq<int>)
    requires -1 <= p < |pairs|
    ensures forall m :: 0 <= m < |at| ==> 0 <= at[m] < |pairs|
    decreases p
  {
    if p == -1 then [] else ChainTo(pairs, Latest(pairs, p, Depth(pairs, p) - 1)) + [p]
  }

  /** Of the longest chains the one that ends at the last pair of the greatest depth. */
  function Chosen(pairs: seq<Pair>): (at: seq<int>)
    ensures forall m :: 0 <= m < |at| ==> 0 <= at[m] < |pairs|
  {
    ChainTo(pairs, Latest(pairs, |pairs|, Depths(pairs, |pairs|) - 1))
  }

  /** Pair `p` does not let pair `i` be deeper. */
  predicate IsShallow(pairs: seq<Pair>, p: nat, i: nat, depth: nat)
    requires p < |pairs| && i < |pairs|
  {
    pairs[p].j < pairs[i].j ==> Depth(pairs, p) < depth
  }

  lemma {:induction false} DepthAtMost(pairs: seq<Pair>, i: nat, n: nat, depth: nat)
    requires n <= i < |pairs|
    requires forall p: nat {:trigger IsShallow(pairs, p, i, depth)} :: p < n ==> IsShallow(pairs, p, i, depth)
    ensures DepthUpTo(pairs, i, n) <= depth
  {
    if n > 0 {
      DepthAtMost(pairs, i, n - 1, depth);
      assert IsShallow(pairs, n - 1, i, depth);
      OneMoreDeep(pairs, i, n);
    }
  }

  lemma OneMoreDeep(pairs: seq<Pair>, i: nat, n: nat)
    requires 0 < n <= i < |pairs|
    ensures DepthUpTo(pairs, i, n)
         == Max(DepthUpTo(pairs, i, n - 1), if pairs[n - 1].j < pairs[i].j then Depth(pairs, n - 1) + 1 else 0)
  {
  }

  lemma {:induction false} DepthAtLeast(pairs: seq<Pair>, i: nat, n: nat, p: nat)
    requires p < n <= i < |pairs| && pairs[p].j < pairs[i].j
    ensures DepthUpTo(pairs, i, n) >= Depth(pairs, p) + 1
  {
    OneMoreDeep(pairs, i, n);
    if p < n - 1 { DepthAtLeast(pairs, i, n - 1, p); }
  }

  /** The first position of `tails` not below `j`. */
  method BisectLeft(tails: seq<int>, j: int) returns (position: nat)
    requires Sorting.Ascending(tails)
    ensures position <= |tails|
    ensures forall l :: 0 <= l < position ==> tails[l] < j
    ensures forall l :: position <= l < |tails| ==> j <= tails[l]
  {
    var low, high := 0, |tails|;
    while low < high
      invariant 0 <= low <= high <= |tails|
      invariant forall l :: 0 <= l < low ==> tails[l] < j
      invariant forall l :: high <= l < |tails| ==> j <= tails[l]
    {
      var middle := (low + high) / 2;
      if tails[middle] < j { low := middle + 1; } else { high := middle; }
    }
    position := low;
  }

  /** The piles after the first `n` pairs: `level[p]` is the pile pair `p` was laid on. */
  datatype Piles = Piles(tails: seq<int>, tailIndex: seq<int>, previous: seq<int>, level: seq<nat>)

  ghost predicate Laid(pairs: seq<Pair>, s: Piles, p: int) {
    && 0 <= p < |s.level| <= |pairs| && |s.previous| == |s.level|
    && s.level[p] < |s.tails| && s.tails[s.level[p]] <= pairs[p].j
    && (if s.level[p] == 0 then s.previous[p] == -1
        else 0 <= s.previous[p] < p && s.level[s.previous[p]] == s.level[p] - 1 && pairs[s.previous[p]].j < pairs[p].j)
  }

  ghost predicate ArePiles(pairs: seq<Pair>, s: Piles, n: nat) {
    && n <= |pairs| && |s.level| == |s.previous| == n && |s.tails| == |s.tailIndex|
    && Sorting.Ascending(s.tails)
    && (forall l :: 0 <= l < |s.tails| ==>
          && 0 <= s.tailIndex[l] < n && pairs[s.tailIndex[l]].j == s.tails[l] && s.level[s.tailIndex[l]] == l)
    && (forall p :: 0 <= p < n ==> Laid(pairs, s, p))
    && (forall p, q {:trigger s.level[p],
         s.level[q]} :: 0 <= p < q < n && pairs[p].j < pairs[q].j ==> s.level[p] < s.level[q])
  }

  function Lay(pairs: seq<Pair>, s: Piles, n: nat, position: nat): Piles
    requires n < |pairs| && position <= |s.tails| == |s.tailIndex|
  {
    var j := pairs[n].j;
    Piles(
      if position == |s.tails| then s.tails + [j] else s.tails[position := j],
      if position == |s.tails| then s.tailIndex + [n] else s.tailIndex[position := n],
      s.previous + [if position == 0 then -1 else s.tailIndex[position - 1]],
      s.level + [position])
  }

  /** What laying pair `n` on pile `position` needs of the piles. */
  ghost predicate Fits(pairs: seq<Pair>, s: Piles, n: nat, position: nat) {
    && ArePiles(pairs, s, n) && n < |pairs| && position <= |s.tails|
    && (forall l :: 0 <= l < position ==> s.tails[l] < pairs[n].j)
    && (forall l :: position <= l < |s.tails| ==> pairs[n].j <= s.tails[l])
  }

  lemma {:induction false} LayTails(pairs: seq<Pair>, s: Piles, n: nat, position: nat)
    requires Fits(pairs, s, n, position)
    ensures var s' := Lay(pairs, s, n, position);
            && Sorting.Ascending(s'.tails)
            && forall l :: 0 <= l < |s'.tails| ==>
                 0 <= s'.tailIndex[l] < n + 1 && pairs[s'.tailIndex[l]].j == s'.tails[l]
                 && s'.level[s'.tailIndex[l]] == l
  {
  }

  lemma {:induction false} LayLaid(pairs: seq<Pair>, s: Piles, n: nat, position: nat, p: nat)
    requires Fits(pairs, s, n, position) && p <= n
    ensures Laid(pairs, Lay(pairs, s, n, position), p)
  {
    if p < n {
      assert Laid(pairs, s, p);
    }
  }

  lemma {:induction false} LayRises(pairs: seq<Pair>, s: Piles, n: nat, position: nat, p: nat, q: nat)
    requires Fits(pairs, s, n, position) && p < q <= n && pairs[p].j < pairs[q].j
    ensures Lay(pairs, s, n, position).level[p] < Lay(pairs, s, n, position).level[q]
  {
    assert Laid(pairs, s, p);
    if q < n { assert s.level[p] < s.level[q]; }
  }

  lemma {:induction false} LayKeeps(pairs: seq<Pair>, s: Piles, n: nat, position: nat)
    requires Fits(pairs, s, n, position)
    ensures ArePiles(pairs, Lay(pairs, s, n, position), n + 1)
  {
    LayTails(pairs, s, n, position);
    forall p | 0 <= p < n + 1
      ensures Laid(pairs, Lay(pairs, s, n, position), p)
    {
      LayLaid(pairs, s, n, position, p);
    }
    forall p, q | 0 <= p < q < n + 1 && pairs[p].j < pairs[q].j
      ensures Lay(pairs, s, n, position).level[p] < Lay(pairs, s, n, position).level[q]
    {
      LayRises(pairs, s, n, position, p, q);
    }
  }

  /** The piles are the depths: each shows the last pair of its depth, and each pair points back to
      the last before it on the pile before. */
  ghost predicate AreDepths(pairs: seq<Pair>, s: Piles, n: nat)
    requires ArePiles(pairs, s, n)
  {
    && |s.tails| == Depths(pairs, n)
    && (forall l: nat :: l < |s.tails| ==> s.tailIndex[l] == Latest(pairs, n, l))
    && (forall p: nat :: p < n ==> IsBack(pairs, s, p))
  }

  ghost predicate IsBack(pairs: seq<Pair>, s: Piles, p: nat)
    requires p < |pairs| && p < |s.level| == |s.previous|
  {
    s.level[p] == Depth(pairs, p) && s.previous[p] == Latest(pairs, p, Depth(pairs, p) - 1)
  }

  /** The pile a pair is laid on is its depth. */
  lemma {:induction false} LaidAtDepth(pairs: seq<Pair>, s: Piles, n: nat, position: nat)
    requires Fits(pairs, s, n, position) && AreDepths(pairs, s, n)
    ensures Depth(pairs, n) == position
  {
    forall p: nat | p < n
      ensures IsShallow(pairs, p, n, position)
    {
      assert Laid(pairs, s, p) && IsBack(pairs, s, p);
    }
    DepthAtMost(pairs, n, n, position);
    if position > 0 {
      var p: nat := s.tailIndex[position - 1];
      assert IsBack(pairs, s, p);
      DepthAtLeast(pairs, n, n, p);
    }
  }

  lemma {:induction false} NoneOfDepth(pairs: seq<Pair>, n: nat, depth: int)
    requires n <= |pairs| && depth < 0
    ensures Latest(pairs, n, depth) == -1
  {
  }

  /** Laying one pair more keeps the piles the depths. */
  lemma {:induction false} LayDepths(pairs: seq<Pair>, s: Piles, n: nat, position: nat)
    requires Fits(pairs, s, n, position) && AreDepths(pairs, s, n)
    ensures ArePiles(pairs, Lay(pairs, s, n, position), n + 1)
    ensures AreDepths(pairs, Lay(pairs, s, n, position), n + 1)
  {
    LayKeeps(pairs, s, n, position);
    LaidAtDepth(pairs, s, n, position);
    NoneOfDepth(pairs, n, -1);
    var s' := Lay(pairs, s, n, position);
    forall p: nat | p < n + 1
      ensures IsBack(pairs, s', p)
    {
      if p < n { assert IsBack(pairs, s, p); }
    }
    ShowsLatest(pairs, s, n, position);
  }

  lemma ShowsLatest(pairs: seq<Pair>, s: Piles, n: nat, position: nat)
    requires ArePiles(pairs, s, n) && n < |pairs| && position <= |s.tails| && AreDepths(pairs, s, n)
    requires Depth(pairs, n) == position
    ensures var s' := Lay(pairs, s, n, position);
            && |s'.tails| == Depths(pairs, n + 1)
            && forall l: nat :: l < |s'.tails| ==> s'.tailIndex[l] == Latest(pairs, n + 1, l)
  {
  }

  /** Piles rise along any chain, so no chain has more pairs than there are piles. */
  lemma {:induction false} ChainRises(pairs: seq<Pair>, s: Piles, at: seq<int>, m: nat)
    requires ArePiles(pairs, s, |pairs|) && IsChain(pairs, at) && m < |at|
    ensures m <= s.level[at[m]] < |s.tails|
    decreases m
  {
    assert Laid(pairs, s, at[m]);
    if m > 0 {
      ChainRises(pairs, s, at, m - 1);
      assert s.level[at[m - 1]] < s.level[at[m]];
    }
  }

  /** No chain of the pairs is longer than `at`. */
  ghost predicate IsLongestChain(pairs: seq<Pair>, at: seq<int>) {
    IsChain(pairs, at) && forall other :: IsChain(pairs, other) ==> |other| <= |at|
  }

  /** Patience sorting with back-pointers. */
  method LongestChain(pairs: seq<Pair>) returns (chain: seq<Pair>, ghost at: seq<int>)
    ensures at == Chosen(pairs)
    ensures IsLongestChain(pairs, at) && |chain| == |at| && forall m :: 0 <= m < |at| ==> chain[m] == pairs[at[m]]
    ensures forall m :: 0 <= m < |chain| ==> chain[m] in pairs
    ensures forall m, n :: 0 <= m < n < |chain| ==> chain[m].j < chain[n].j
    ensures forall other :: IsChain(pairs, other) ==> |other| <= |chain|
  {
    var s := Piles([], [], [], []);
    for n := 0 to |pairs|
      invariant ArePiles(pairs, s, n) && AreDepths(pairs, s, n)
    {
      var position := BisectLeft(s.tails, pairs[n].j);
      LayDepths(pairs, s, n, position);
      s := Lay(pairs, s, n, position);
    }
    forall other | IsChain(pairs, other)
      ensures |other| <= |s.tails|
    {
      if |other| > 0 { ChainRises(pairs, s, other, |other| - 1); }
    }
    chain, at := Trace(pairs, s);
  }

  /** The pair the last pile shows, or -1. */
  function LastShown(s: Piles): int {
    if |s.tailIndex| > 0 then s.tailIndex[|s.tailIndex| - 1] else -1
  }

  /** Traced back to `index`: the rest of the chain chosen, and its pairs. */
  ghost predicate IsTraced(pairs: seq<Pair>, s: Piles, index: int, chain: seq<Pair>, at: seq<int>)
    requires ArePiles(pairs, s, |pairs|)
  {
    && -1 <= index < |pairs| && ChainTo(pairs, index) + at == Chosen(pairs)
    && IsChain(pairs, at) && |chain| == |at| && (forall m :: 0 <= m < |at| ==> chain[m] == pairs[at[m]])
    && |at| == |s.tails| - (if index == -1 then 0 else s.level[index] + 1)
    && (index != -1 && |at| > 0 ==> index < at[0] && pairs[index].j < pairs[at[0]].j)
  }

  /** Follow the back-pointers from the last pile. */
  method Trace(pairs: seq<Pair>, s: Piles) returns (chain: seq<Pair>, ghost at: seq<int>)
    requires ArePiles(pairs, s, |pairs|) && AreDepths(pairs, s, |pairs|)
    ensures IsChain(pairs, at) && |at| == |s.tails| && at == Chosen(pairs)
    ensures |chain| == |at| && forall m :: 0 <= m < |at| ==> chain[m] == pairs[at[m]]
    ensures |chain| == |s.tails| && forall m :: 0 <= m < |chain| ==> chain[m] in pairs
  {
    chain, at := [], [];
    var index := LastShown(s);
    LastPile(pairs, s);
    while index != -1
      invariant IsTraced(pairs, s, index, chain, at)
      decreases index
    {
      OneBack(pairs, s, index, chain, at);
      chain, at := [pairs[index]] + chain, [index] + at;
      index := s.previous[index];
    }
    assert ChainTo(pairs, -1) + at == at;
  }

  /** The chain chosen ends at the pair the last pile shows. */
  lemma LastPile(pairs: seq<Pair>, s: Piles)
    requires ArePiles(pairs, s, |pairs|) && AreDepths(pairs, s, |pairs|)
    ensures IsTraced(pairs, s, LastShown(s), [], [])
  {
    NoneOfDepth(pairs, |pairs|, -1);
    assert ChainTo(pairs, LastShown(s)) + [] == ChainTo(pairs, LastShown(s));
  }

  /** One pair back along the chain. */
  lemma OneBack(pairs: seq<Pair>, s: Piles, index: nat, chain: seq<Pair>, at: seq<int>)
    requires ArePiles(pairs, s, |pairs|) && AreDepths(pairs, s, |pairs|)
    requires IsTraced(pairs, s, index, chain, at)
    ensures -1 <= s.previous[index] < index
    ensures IsTraced(pairs, s, s.previous[index], [pairs[index]] + chain, [index] + at)
  {
    assert Laid(pairs, s, index) && IsBack(pairs, s, index);
    PrependChain(pairs, index, at);
    ChainBack(pairs, index, at);
  }

  lemma ChainBack(pairs: seq<Pair>, index: nat, at: seq<int>)
    requires index < |pairs|
    ensures ChainTo(pairs, Latest(pairs, index, Depth(pairs, index) - 1)) + ([index] + at)
         == ChainTo(pairs, index) + at
  {
    var earlier := ChainTo(pairs, Latest(pairs, index, Depth(pairs, index) - 1));
    assert ChainTo(pairs, index) == earlier + [index];
    Regroup(earlier, [index], at);
  }

  lemma Regroup(a: seq<int>, b: seq<int>, c: seq<int>)
    ensures a + b + c == a + (b + c)
  {
  }

  lemma {:induction false} PrependChain(pairs: seq<Pair>, index: int, at: seq<int>)
    requires IsChain(pairs, at) && 0 <= index < |pairs|
    requires |at| > 0 ==> index < at[0] && pairs[index].j < pairs[at[0]].j
    ensures IsChain(pairs, [index] + at)
  {
    var longer := [index] + at;
    forall m, n | 0 <= m < n < |longer|
      ensures longer[m] < longer[n] && pairs[longer[m]].j < pairs[longer[n]].j
    {
      if m > 0 { assert at[m - 1] < at[n - 1]; }
      else if n > 1 { assert at[0] < at[n - 1]; }
    }
  }

  // --- for every range ---------------------------------------------------------------------------

  lemma {:induction false} PairsUpTo(a: string, b: string, r: Range, k: int, n: int) returns (pairs: seq<Pair>)
    requires r.i0 <= n
    ensures IsPairListUpTo(a, b, r, k, pairs, n)
    decreases n - r.i0
  {
    if n == r.i0 {
      pairs := [];
    } else {
      pairs := PairsUpTo(a, b, r, k, n - 1);
      if p: Pair :| p.i == n - 1 && IsUniquePair(a, b, r, k, p) {
        OnePairAt(a, b, r, k, p);
        OnePairMore(a, b, r, k, pairs, p);
        pairs := pairs + [p];
      } else {
        NoPairMore(a, b, r, k, pairs, n - 1);
      }
    }
  }

  /** A gram that occurs once has one place on the other text. */
  lemma OnePairAt(a: string, b: string, r: Range, k: int, p: Pair)
    requires IsUniquePair(a, b, r, k, p)
    ensures forall q: Pair :: q.i == p.i && IsUniquePair(a, b, r, k, q) ==> q == p
  {
    forall q: Pair | q.i == p.i && IsUniquePair(a, b, r, k, q)
      ensures q == p
    {
      assert Gram(b, q.j, k) == Gram(b, p.j, k);
    }
  }

  lemma {:induction false} PairsAreListed(a: string, b: string, r: Range, k: int)
    requires IsRange(a, b, r)
    ensures IsPairList(a, b, r, k, PairsOf(a, b, r, k))
  {
    var pairs := PairsUpTo(a, b, r, k, Max(r.i0, r.i1 - k + 1));
    assert IsPairList(a, b, r, k, pairs);
  }

  lemma {:induction false} PositionIn(tails: seq<int>, j: int) returns (position: nat)
    requires Sorting.Ascending(tails)
    ensures position <= |tails| && (forall l :: 0 <= l < position ==> tails[l] < j)
    ensures forall l :: position <= l < |tails| ==> j <= tails[l]
  {
    position := 0;
    while position < |tails| && tails[position] < j
      invariant position <= |tails| && forall l :: 0 <= l < position ==> tails[l] < j
    {
      position := position + 1;
    }
  }

  /** The piles after the first `n` pairs. */
  lemma {:induction false} PilesOf(pairs: seq<Pair>, n: nat) returns (s: Piles)
    requires n <= |pairs|
    ensures ArePiles(pairs, s, n) && AreDepths(pairs, s, n)
  {
    if n == 0 {
      s := Piles([], [], [], []);
    } else {
      s := PilesOf(pairs, n - 1);
      var position := PositionIn(s.tails, pairs[n - 1].j);
      LayDepths(pairs, s, n - 1, position);
      s := Lay(pairs, s, n - 1, position);
    }
  }

  lemma {:induction false} TraceBack(pairs: seq<Pair>, s: Piles, index: int, chain: seq<Pair>, at: seq<int>)
    requires ArePiles(pairs, s, |pairs|) && AreDepths(pairs, s, |pairs|) && IsTraced(pairs, s, index, chain, at)
    ensures IsChain(pairs, Chosen(pairs)) && |Chosen(pairs)| == |s.tails|
    decreases index
  {
    if index == -1 {
      assert ChainTo(pairs, -1) + at == at;
    } else {
      OneBack(pairs, s, index, chain, at);
      TraceBack(pairs, s, s.previous[index], [pairs[index]] + chain, [index] + at);
    }
  }

  /** The chain chosen is a longest. */
  lemma {:induction false} ChosenIsLongest(pairs: seq<Pair>)
    ensures IsLongestChain(pairs, Chosen(pairs))
  {
    var s := PilesOf(pairs, |pairs|);
    LastPile(pairs, s);
    TraceBack(pairs, s, LastShown(s), [], []);
    forall other | IsChain(pairs, other)
      ensures |other| <= |s.tails|
    {
      if |other| > 0 { ChainRises(pairs, s, other, |other| - 1); }
    }
  }
}
