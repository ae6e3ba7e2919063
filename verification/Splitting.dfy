/** A range split at ordered blocks: the gaps between them, and what they leave to search. */
module Splitting {
  import opened Alignment
  import opened Blocks
  import opened Anchors
  import Arithmetic

  // --- the ranges between blocks -------------------------------------------------------------

  /** Gap `x` of an ordered block list in `r`: before block `x`, or after the last. */
  function Gap(bs: seq<Block>, r: Range, x: nat): Range
    requires x <= |bs|
  {
    Range(
      if x == 0 then r.i0 else bs[x - 1].i + bs[x - 1].size,
      if x == |bs| then r.i1 else bs[x].i,
      if x == 0 then r.j0 else bs[x - 1].j + bs[x - 1].size,
      if x == |bs| then r.j1 else bs[x].j)
  }

  function Gaps(bs: seq<Block>, r: Range): (gs: seq<Range>)
    ensures |gs| == |bs| + 1 && forall x :: 0 <= x <= |bs| ==> gs[x] == Gap(bs, r, x)
  {
    seq(|bs| + 1, x requires 0 <= x <= |bs| => Gap(bs, r, x))
  }

  lemma {:induction false} GapsInside(a: string, b: string, r: Range, bs: seq<Block>)
    requires IsRange(a, b, r) && AreAnchors(a, b, r, bs)
    ensures AllInside(bs, Gaps(bs, r), r)
  {
    var gs := Gaps(bs, r);
    forall x | 0 <= x < |gs|
      ensures Inside(gs[x], r)
    {
      if 0 < x < |bs| { assert Before(BlockRange(bs[x - 1]), BlockRange(bs[x])); }
    }
  }

  lemma {:induction false} GapsApart(a: string, b: string, r: Range, bs: seq<Block>, x: nat, y: nat)
    requires AreAnchors(a, b, r, bs) && x < y <= |bs|
    ensures Apart(Gap(bs, r, x), Gap(bs, r, y))
  {
    if x < y - 1 { assert Before(BlockRange(bs[x]), BlockRange(bs[y - 1])); }
  }

  lemma {:induction false} BlockApartFromGap(a: string, b: string, r: Range, bs: seq<Block>, x: nat, y: nat)
    requires AreAnchors(a, b, r, bs) && x < |bs| && y <= |bs|
    ensures Apart(BlockRange(bs[x]), Gap(bs, r, y))
  {
    if y < x { assert Before(BlockRange(bs[y]), BlockRange(bs[x])); }
    if x < y - 1 { assert Before(BlockRange(bs[x]), BlockRange(bs[y - 1])); }
  }

  /** Ordered blocks and the gaps between them split the range. */
  lemma {:induction false} AnchorsSplit(a: string, b: string, r: Range, bs: seq<Block>)
    requires IsRange(a, b, r) && AreAnchors(a, b, r, bs)
    ensures IsSplit(bs, Gaps(bs, r)) && AllInside(bs, Gaps(bs, r), r)
  {
    var gs := Gaps(bs, r);
    GapsInside(a, b, r, bs);
    forall x, y | 0 <= x < y < |bs|
      ensures Apart(BlockRange(bs[x]), BlockRange(bs[y]))
    {
      assert Before(BlockRange(bs[x]), BlockRange(bs[y]));
    }
    forall x, y | 0 <= x < y < |gs|
      ensures Apart(gs[x], gs[y])
    {
      GapsApart(a, b, r, bs, x, y);
    }
    forall x, y | 0 <= x < |bs| && 0 <= y < |gs|
      ensures Apart(BlockRange(bs[x]), gs[y])
    {
      BlockApartFromGap(a, b, r, bs, x, y);
    }
  }

  /** Each block takes at least one character off what remains. */
  lemma {:induction false} GapsRemain(a: string, b: string, r: Range, bs: seq<Block>, n: nat)
    requires IsRange(a, b, r) && AreAnchors(a, b, r, bs) && n <= |bs|
    requires forall x :: 0 <= x < |Gaps(bs, r)| ==> Gaps(bs, r)[x].i0 <= Gaps(bs, r)[x].i1
    ensures Remaining(Gaps(bs, r)[..n + 1]) <= Gap(bs, r, n).i1 - r.i0 - n
    decreases n
  {
    OneGapMore(Gaps(bs, r), n);
    if n > 0 {
      GapsRemain(a, b, r, bs, n - 1);
    }
  }

  lemma OneGapMore(gs: seq<Range>, n: nat)
    requires n < |gs| && forall x :: 0 <= x < |gs| ==> gs[x].i0 <= gs[x].i1
    ensures Remaining(gs[..n + 1]) == Remaining(gs[..n]) + gs[n].i1 - gs[n].i0
  {
    assert gs[..n + 1][..n] == gs[..n];
  }

  // --- one turn of the work list -----------------------------------------------------------------

  /** Every position of the range is in a block or a gap. */
  lemma {:induction false} GapsCover(a: string, b: string, r: Range, bs: seq<Block>, p: int)
    requires AreAnchors(a, b, r, bs) && r.i0 <= p < r.i1
    ensures InBlock(bs, p) || InRange(Gaps(bs, r), p)
  {
    var x := 0;
    while x < |bs| && bs[x].i + bs[x].size <= p
      invariant 0 <= x <= |bs| && Gap(bs, r, x).i0 <= p
    {
      x := x + 1;
    }
    assert Gaps(bs, r)[x] == Gap(bs, r, x) && Gap(bs, r, x) in Gaps(bs, r);
    if x < |bs| { assert bs[x] in bs; }
  }

  lemma GapBounded(r: Range, bs: seq<Block>, x: nat)
    requires x <= |bs|
    ensures IsBounded(bs, r, Gap(bs, r, x))
  {
    var g := Gap(bs, r, x);
    if x > 0 { assert bs[x - 1] in bs && EndsAt(bs, g.i0, g.j0); }
    if x < |bs| { assert bs[x] in bs && StartsAt(bs, g.i1, g.j1); }
  }

  lemma {:induction false} GapsAllCover(a: string, b: string, r: Range, bs: seq<Block>)
    requires AreAnchors(a, b, r, bs)
    ensures Covers(bs, Gaps(bs, r), r)
  {
    var gs := Gaps(bs, r);
    forall g | g in gs
      ensures IsBounded(bs, r, g)
    {
      var x :| 0 <= x < |gs| && gs[x] == g;
      GapBounded(r, bs, x);
    }
    forall p | r.i0 <= p < r.i1
      ensures InBlock(bs, p) || InRange(gs, p)
    {
      GapsCover(a, b, r, bs, p);
    }
  }

  /** Anchors and the gaps between them. */
  lemma {:induction false} AnchorTurn(a: string, b: string, r: Range, policy: Policy, bs: seq<Block>)
    requires IsRange(a, b, r) && AreAnchors(a, b, r, bs)
    ensures IsTurn(a, b, r, policy, bs, [], Gaps(bs, r))
  {
    AnchorsSplit(a, b, r, bs);
    GapsAllCover(a, b, r, bs);
    assert [] + Gaps(bs, r) == Gaps(bs, r);
  }

  /** A split leaves less of the witness to search. */
  lemma {:induction false} AnchorsShrink(a: string, b: string, work: seq<Range>, more: seq<Block>)
    requires |work| > 0 && AllRanges(a, b, work) && |more| > 0 && AreAnchors(a, b, work[|work| - 1], more)
    ensures AllRanges(a, b, work[..|work| - 1] + Gaps(more, work[|work| - 1]))
    ensures Remaining(work[..|work| - 1] + Gaps(more, work[|work| - 1])) + |more| <= Remaining(work)
  {
    var m := |work| - 1;
    var r := work[m];
    var parts := Gaps(more, r);
    AnchorsSplit(a, b, r, more);
    GapsRemain(a, b, r, more, |more|);
    assert parts[..|more| + 1] == parts;
    RemainingConcat(work[..m], parts);
  }

  lemma GapsAreRanges(a: string, b: string, r: Range, bs: seq<Block>)
    requires IsRange(a, b, r) && AreAnchors(a, b, r, bs)
    ensures AllRanges(a, b, Gaps(bs, r))
  {
    GapsInside(a, b, r, bs);
    forall x | 0 <= x < |Gaps(bs, r)|
      ensures IsRange(a, b, Gaps(bs, r)[x])
    {
      assert Inside(Gaps(bs, r)[x], r);
    }
  }

  // --- the size of a range ---------------------------------------------------------------------------

  function Everything(a: string, b: string): Range {
    Range(0, |a|, 0, |b|)
  }

  /** The range is small enough to be matched directly. */
  predicate IsSmall(r: Range, policy: Policy) {
    (r.i1 - r.i0) * (r.j1 - r.j0) <= policy.directAlignmentMaxPairs
  }

  predicate IsDirect(a: string, b: string, policy: Policy) {
    |a| * |b| <= policy.directAlignmentMaxPairs
  }

  /** What reading a range's grams is charged. */
  function GramCharge(r: Range, policy: Policy): int {
    (r.i1 - r.i0 + r.j1 - r.j0) * policy.anchorCharacters
  }

  lemma GramsWithin(a: string, b: string, r: Range, policy: Policy)
    requires IsRange(a, b, r) && policy.Positive()
    ensures 0 <= GramCharge(r, policy) <= (|a| + |b|) * policy.anchorCharacters
  {
    Arithmetic.MultiplyMonotone(0, r.i1 - r.i0 + r.j1 - r.j0, policy.anchorCharacters);
    Arithmetic.MultiplyMonotone(r.i1 - r.i0 + r.j1 - r.j0, |a| + |b|, policy.anchorCharacters);
  }
}
