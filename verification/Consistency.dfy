/** Which anchors are kept, by counting diagonals: no median and no sorting. */
module Consistency {
  import opened Arithmetic
  import opened Alignment
  import opened Blocks
  import opened Anchors
  import opened Patience
  import opened Pixels
  import Sorting

  /** How many of the numbers are at most `v`. */
  function CountAtMost(ds: seq<int>, v: int): nat {
    if |ds| == 0 then 0 else CountAtMost(ds[..|ds| - 1], v) + if ds[|ds| - 1] <= v then 1 else 0
  }

  lemma {:induction false} CountJoins(x: seq<int>, y: seq<int>, v: int)
    ensures CountAtMost(x + y, v) == CountAtMost(x, v) + CountAtMost(y, v)
  {
    if |y| == 0 {
      assert x + y == x;
    } else {
      CountJoins(x, y[..|y| - 1], v);
      assert (x + y)[..|x + y| - 1] == x + y[..|y| - 1];
    }
  }

  lemma CountOne(d: int, v: int)
    ensures CountAtMost([d], v) == if d <= v then 1 else 0
  {
    assert [d][..0] == [];
  }

  lemma {:induction false} CountInserted(x: int, ds: seq<int>, v: int)
    requires Sorting.IsSorted(ds, Sorting.IntLeq)
    ensures CountAtMost(Sorting.Insert(x, ds, Sorting.IntLeq), v) == CountAtMost(ds, v) + if x <= v then 1 else 0
  {
    CountOne(x, v);
    if |ds| > 0 {
      assert ds == [ds[0]] + ds[1..];
      if x <= ds[0] {
        CountJoins([x], ds, v);
      } else {
        CountInserted(x, ds[1..], v);
        CountJoins([ds[0]], Sorting.Insert(x, ds[1..], Sorting.IntLeq), v);
        CountJoins([ds[0]], ds[1..], v);
      }
    }
  }

  lemma {:induction false} CountSorted(ds: seq<int>, v: int)
    ensures CountAtMost(Sorting.Sort(ds, Sorting.IntLeq), v) == CountAtMost(ds, v)
  {
    if |ds| > 0 {
      CountSorted(ds[1..], v);
      CountInserted(ds[0], Sorting.Sort(ds[1..], Sorting.IntLeq), v);
      CountFirst(ds, v);
    }
  }

  lemma CountFirst(ds: seq<int>, v: int)
    requires |ds| > 0
    ensures CountAtMost(ds, v) == CountAtMost(ds[1..], v) + if ds[0] <= v then 1 else 0
  {
    assert ds == [ds[0]] + ds[1..];
    CountJoins([ds[0]], ds[1..], v);
    CountOne(ds[0], v);
  }

  lemma {:induction false} CountAll(ds: seq<int>, v: int)
    ensures CountAtMost(ds, v) <= |ds|
    ensures (forall k :: 0 <= k < |ds| ==> ds[k] <= v) ==> CountAtMost(ds, v) == |ds|
    ensures (forall k :: 0 <= k < |ds| ==> ds[k] > v) ==> CountAtMost(ds, v) == 0
  {
    if |ds| > 0 { CountAll(ds[..|ds| - 1], v); }
  }

  /** The number at `h` of a sorted list is at most `v` exactly when more than `h` numbers are. */
  lemma {:induction false} RankDecides(ds: seq<int>, h: nat, v: int)
    requires Sorting.IsSorted(ds, Sorting.IntLeq) && h < |ds|
    ensures ds[h] <= v <==> CountAtMost(ds, v) > h
  {
    if ds[h] <= v {
      Halved(ds, h + 1, v);
      FrontIsAtMost(ds, h, v);
    } else {
      Halved(ds, h, v);
      BackIsPast(ds, h, v);
      CountAll(ds[..h], v);
    }
  }

  lemma Halved(ds: seq<int>, h: nat, v: int)
    requires h <= |ds|
    ensures CountAtMost(ds, v) == CountAtMost(ds[..h], v) + CountAtMost(ds[h..], v)
  {
    assert ds == ds[..h] + ds[h..];
    CountJoins(ds[..h], ds[h..], v);
  }

  lemma FrontIsAtMost(ds: seq<int>, h: nat, v: int)
    requires Sorting.IsSorted(ds, Sorting.IntLeq) && h < |ds| && ds[h] <= v
    ensures CountAtMost(ds[..h + 1], v) == h + 1
  {
    var front := ds[..h + 1];
    forall k | 0 <= k < |front|
      ensures front[k] <= v
    {
      if k < h { assert Sorting.IntLeq(ds[k], ds[h]); }
    }
    CountAll(front, v);
  }

  lemma BackIsPast(ds: seq<int>, h: nat, v: int)
    requires Sorting.IsSorted(ds, Sorting.IntLeq) && h < |ds| && ds[h] > v
    ensures CountAtMost(ds[h..], v) == 0
  {
    var back := ds[h..];
    forall k | 0 <= k < |back|
      ensures back[k] > v
    {
      if k > 0 { assert Sorting.IntLeq(ds[h], ds[h + k]); }
    }
    CountAll(back, v);
  }

  /** The anchors within `reach` of `index`. */
  ghost function Near(bs: seq<Block>, index: nat, reach: int): set<int> {
    set k | k in Interval(0, |bs|) && index - reach <= k <= index + reach
  }

  /** Those of them whose diagonal is at most `v`. */
  function NearAtMost(bs: seq<Block>, index: nat, reach: int, v: int): set<int> {
    set k | 0 <= k < |bs| && index - reach <= k <= index + reach && bs[k].i - bs[k].j <= v
  }

  function Between(bs: seq<Block>, lo: int, hi: int, v: int): set<int> {
    set k | 0 <= k < |bs| && lo <= k < hi && bs[k].i - bs[k].j <= v
  }

  lemma {:induction false} CountIsSize(bs: seq<Block>, lo: nat, hi: nat, v: int)
    requires lo <= hi <= |bs|
    ensures CountAtMost(Diagonals(bs)[lo..hi], v) == |Between(bs, lo, hi, v)|
    decreases hi
  {
    var ds := Diagonals(bs);
    if lo == hi {
      assert ds[lo..hi] == [] && Between(bs, lo, hi, v) == {};
    } else {
      CountIsSize(bs, lo, hi - 1, v);
      assert ds[lo..hi][..hi - 1 - lo] == ds[lo..hi - 1];
      OneMoreBetween(bs, lo, hi, v);
    }
  }

  lemma OneMoreBetween(bs: seq<Block>, lo: nat, hi: nat, v: int)
    requires lo < hi <= |bs|
    ensures |Between(bs, lo, hi, v)|
         == |Between(bs, lo, hi - 1, v)| + if bs[hi - 1].i - bs[hi - 1].j <= v then 1 else 0
  {
    if bs[hi - 1].i - bs[hi - 1].j <= v {
      assert Between(bs, lo, hi, v) == Between(bs, lo, hi - 1, v) + {hi - 1};
    } else {
      assert Between(bs, lo, hi, v) == Between(bs, lo, hi - 1, v);
    }
  }

  lemma NearIsInterval(bs: seq<Block>, index: nat, reach: nat)
    requires index < |bs|
    ensures |Near(bs, index, reach)| == Min(|bs|, index + reach + 1) - Max(0, index - reach)
  {
    var lo, hi := Max(0, index - reach), Min(|bs|, index + reach + 1);
    IntervalSize(lo, hi);
    assert Near(bs, index, reach) == Interval(lo, hi);
  }

  /** More than half of the anchors around have a diagonal of at most `v`. */
  ghost predicate IsMajority(bs: seq<Block>, index: nat, reach: int, v: int) {
    |NearAtMost(bs, index, reach, v)| > |Near(bs, index, reach)| / 2
  }

  /** The median diagonal is at most `v` exactly when more than half of those around are. */
  lemma {:induction false} MedianByMajority(bs: seq<Block>, index: nat, reach: nat, v: int)
    requires index < |bs|
    ensures MedianAround(bs, index, reach) <= v <==> IsMajority(bs, index, reach, v)
  {
    var lo, hi := Max(0, index - reach), Min(|bs|, index + reach + 1);
    var window := Diagonals(bs)[lo..hi];
    NearIsInterval(bs, index, reach);
    MiddleDecides(window, v);
    CountIsSize(bs, lo, hi, v);
    assert Between(bs, lo, hi, v) == NearAtMost(bs, index, reach, v);
  }

  /** The middle of the sorted numbers is at most `v` exactly when more than half of them are. */
  lemma MiddleDecides(window: seq<int>, v: int)
    requires |window| > 0
    ensures Sorting.Sort(window, Sorting.IntLeq)[|window| / 2] <= v <==> CountAtMost(window, v) > |window| / 2
  {
    CountSorted(window, v);
    RankDecides(Sorting.Sort(window, Sorting.IntLeq), |window| / 2, v);
  }

  /** Most of the anchors around number `k` have a diagonal no more than the tolerance past its own,
      and not most of them one further before it. */
  ghost predicate IsAmongMost(bs: seq<Block>, k: int, reach: int, tolerance: int) {
    && 0 <= k < |bs|
    && IsMajority(bs, k, reach, bs[k].i - bs[k].j + tolerance)
    && !IsMajority(bs, k, reach, bs[k].i - bs[k].j - tolerance - 1)
  }

  /** An anchor is kept exactly when more than half of those around it have a diagonal no more than
      the tolerance past its own, and at most half one that is further before it. */
  lemma {:induction false} KeptByMajority(bs: seq<Block>, index: nat, policy: Policy)
    requires index < |bs| && policy.Positive()
    ensures Agrees(bs, index, policy)
       <==> IsAmongMost(bs, index, policy.anchorNeighbours, policy.anchorOffsetTolerance)
  {
    MedianParts(bs, index, policy.anchorNeighbours);
    WithinOfMiddle(bs, index, policy.anchorNeighbours, policy.anchorOffsetTolerance,
      MedianAround(bs, index, policy.anchorNeighbours));
  }

  /** The diagonal parts those that more than half around are at most from those they are not. */
  ghost predicate Parts(bs: seq<Block>, index: nat, reach: int, middle: int) {
    forall v :: IsMajority(bs, index, reach, v) <==> middle <= v
  }

  lemma MedianParts(bs: seq<Block>, index: nat, reach: nat)
    requires index < |bs|
    ensures Parts(bs, index, reach, MedianAround(bs, index, reach))
  {
    forall v
      ensures IsMajority(bs, index, reach, v) <==> MedianAround(bs, index, reach) <= v
    {
      MedianByMajority(bs, index, reach, v);
    }
  }

  lemma WithinOfMiddle(bs: seq<Block>, index: nat, reach: int, tolerance: int, middle: int)
    requires index < |bs| && Parts(bs, index, reach, middle)
    ensures IsAmongMost(bs, index, reach, tolerance)
       <==> -tolerance <= bs[index].i - bs[index].j - middle <= tolerance
  {
  }

  /** For each anchor whether it is among most of those around it. */
  ghost function Verdicts(bs: seq<Block>, policy: Policy): (vs: seq<bool>)
    ensures |vs| == |bs|
  {
    seq(|bs|, k => IsAmongMost(bs, k, policy.anchorNeighbours, policy.anchorOffsetTolerance))
  }

  lemma VerdictIs(bs: seq<Block>, policy: Policy, k: nat)
    requires k < |bs|
    ensures Verdicts(bs, policy)[k] <==> IsAmongMost(bs, k, policy.anchorNeighbours, policy.anchorOffsetTolerance)
  {
  }

  /** The blocks with a true verdict among the first `n`. */
  function Passed(bs: seq<Block>, vs: seq<bool>, n: nat): seq<Block>
    requires n <= |bs| == |vs|
  {
    if n == 0 then [] else Passed(bs, vs, n - 1) + if vs[n - 1] then [bs[n - 1]] else []
  }

  /** What is kept of the first `n` is what has passed of them. */
  ghost predicate HavePassed(bs: seq<Block>, n: nat, policy: Policy)
    requires n <= |bs| && policy.Positive()
  {
    KeptUpTo(bs, n, policy) == Passed(bs, Verdicts(bs, policy), n)
  }

  lemma {:induction false} KeptHavePassed(bs: seq<Block>, policy: Policy)
    requires policy.Positive()
    ensures HavePassed(bs, |bs|, policy)
  {
    var n := 0;
    while n < |bs|
      invariant 0 <= n <= |bs| && HavePassed(bs, n, policy)
    {
      PassOneMore(bs, n, policy);
      n := n + 1;
    }
  }

  lemma {:induction false} PassOneMore(bs: seq<Block>, n: nat, policy: Policy)
    requires n < |bs| && policy.Positive() && HavePassed(bs, n, policy)
    ensures HavePassed(bs, n + 1, policy)
  {
    KeptOneMore(bs, n, policy);
  }

  lemma {:induction false} KeptOneMore(bs: seq<Block>, n: nat, policy: Policy)
    requires n < |bs| && policy.Positive()
    ensures KeptUpTo(bs, n + 1, policy)
         == KeptUpTo(bs, n, policy) + if Verdicts(bs, policy)[n] then [bs[n]] else []
  {
    KeptNext(bs, n, policy);
    KeptByMajority(bs, n, policy);
    VerdictIs(bs, policy, n);
  }

  lemma {:induction false} PassedAre(bs: seq<Block>, vs: seq<bool>, n: nat, m: Block)
    requires n <= |bs| == |vs|
    ensures m in Passed(bs, vs, n) <==> exists k :: 0 <= k < n && bs[k] == m && vs[k]
  {
    if n > 0 { PassedAre(bs, vs, n - 1, m); }
  }

  lemma {:induction false} AllPassed(bs: seq<Block>, vs: seq<bool>, n: nat)
    requires n <= |bs| == |vs| && forall k :: 0 <= k < |vs| ==> vs[k]
    ensures Passed(bs, vs, n) == bs[..n]
  {
    if n > 0 { AllPassed(bs, vs, n - 1); }
  }

  /** A range is split at its raw anchors that are among most of those around them, and no others. */
  lemma {:induction false} AnchorsAreAmongMost(a: string, b: string, r: Range, policy: Policy, m: Block)
    requires policy.Positive()
    ensures var raw := RawAnchors(a, b, r, policy.anchorCharacters);
            m in AnchorsOf(a, b, r, policy)
            <==> exists k :: IsAmongMost(raw, k, policy.anchorNeighbours, policy.anchorOffsetTolerance) && raw[k] == m
  {
    var raw := RawAnchors(a, b, r, policy.anchorCharacters);
    KeptHavePassed(raw, policy);
    PassedAre(raw, Verdicts(raw, policy), |raw|, m);
    forall k: nat | k < |raw|
      ensures Verdicts(raw, policy)[k]
         <==> IsAmongMost(raw, k, policy.anchorNeighbours, policy.anchorOffsetTolerance)
    {
      VerdictIs(raw, policy, k);
    }
  }

  /** The diagonals differ by no more than the tolerance. */
  ghost predicate AreClose(bs: seq<Block>, tolerance: int) {
    forall x, y :: 0 <= x < |bs| && 0 <= y < |bs| ==> IsWithin(bs, x, y, tolerance)
  }

  predicate IsWithin(bs: seq<Block>, x: int, y: int, tolerance: int)
    requires 0 <= x < |bs| && 0 <= y < |bs|
  {
    (bs[x].i - bs[x].j) - (bs[y].i - bs[y].j) <= tolerance
  }

  /** All the anchors around are no more than the tolerance past it, and none is further before it. */
  lemma CloseMajority(bs: seq<Block>, index: nat, reach: nat, tolerance: int)
    requires index < |bs| && AreClose(bs, tolerance)
    ensures var d := bs[index].i - bs[index].j;
            IsMajority(bs, index, reach, d + tolerance) && !IsMajority(bs, index, reach, d - tolerance - 1)
  {
    var d := bs[index].i - bs[index].j;
    NearIsInterval(bs, index, reach);
    forall k | 0 <= k < |bs|
      ensures d - tolerance <= bs[k].i - bs[k].j <= d + tolerance
    {
      assert IsWithin(bs, k, index, tolerance) && IsWithin(bs, index, k, tolerance);
    }
    assert NearAtMost(bs, index, reach, d + tolerance) == Near(bs, index, reach);
    assert NearAtMost(bs, index, reach, d - tolerance - 1) == {};
  }

  lemma CloseVerdict(bs: seq<Block>, policy: Policy, k: nat)
    requires k < |bs| && policy.Positive() && AreClose(bs, policy.anchorOffsetTolerance)
    ensures Verdicts(bs, policy)[k]
  {
    CloseMajority(bs, k, policy.anchorNeighbours, policy.anchorOffsetTolerance);
    VerdictIs(bs, policy, k);
  }

  /** Anchors whose diagonals are all close are all kept. */
  lemma {:induction false} CloseAreKept(bs: seq<Block>, policy: Policy)
    requires policy.Positive() && AreClose(bs, policy.anchorOffsetTolerance)
    ensures KeptUpTo(bs, |bs|, policy) == bs
  {
    KeptHavePassed(bs, policy);
    var vs := Verdicts(bs, policy);
    forall k | 0 <= k < |vs|
      ensures vs[k]
    {
      CloseVerdict(bs, policy, k);
    }
    AllPassed(bs, vs, |bs|);
    assert bs[..|bs|] == bs;
  }

  /** A text against itself loses no anchor. */
  lemma {:induction false} OwnAnchorsAreKept(a: string, r: Range, policy: Policy)
    requires IsRange(a, a, r) && IsSquare(r) && policy.Positive()
    ensures AnchorsOf(a, a, r, policy) == RawAnchors(a, a, r, policy.anchorCharacters)
  {
    var raw := RawAnchors(a, a, r, policy.anchorCharacters);
    RawAnchorsAre(a, a, r, policy.anchorCharacters);
    CloseAreKept(raw, policy);
  }
}
