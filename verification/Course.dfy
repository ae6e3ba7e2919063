/** How two texts are matched, as a recursion over their ranges: the blocks found, the work charged
    for them, and whether every large range on the way is split. */
module Course {
  import opened Alignment
  import opened Blocks
  import opened Anchors
  import opened Splitting
  import Arithmetic

  /** What matching comes to: its blocks, its charge, and whether no range is refused for its size. */
  datatype Course = Course(blocks: multiset<Block>, charge: nat, splits: bool)

  const NOWHERE := Course(multiset{}, 0, true)

  function Then(x: Course, y: Course): Course {
    Course(x.blocks + y.blocks, x.charge + y.charge, x.splits && y.splits)
  }

  /** The range is too large to be matched directly, and has anchors to be split at. */
  ghost predicate IsDivided(a: string, b: string, r: Range, policy: Policy)
    requires policy.Positive()
  {
    !IsEmptyRange(r) && !IsSmall(r, policy) && |AnchorsOf(a, b, r, policy)| > 0
  }

  lemma GapWithin(a: string, b: string, r: Range, bs: seq<Block>, x: nat)
    requires IsRange(a, b, r) && AreAnchors(a, b, r, bs) && |bs| > 0 && x <= |bs|
    ensures IsRange(a, b, Gap(bs, r, x))
    ensures Gap(bs, r, x).i1 - Gap(bs, r, x).i0 < r.i1 - r.i0
  {
    GapsAreRanges(a, b, r, bs);
    assert Gaps(bs, r)[x] == Gap(bs, r, x);
    var m := bs[if x > 0 then x - 1 else x];
    assert AllRuns(a, b, bs) && m.size > 0;
  }

  /** One range: a step; then, unless it is empty or small, its grams; and its anchors with the gaps
      between them when it has any, its direct blocks when it has none. A large range without any is
      not split. */
  ghost function CourseOf(a: string, b: string, r: Range, policy: Policy): Course
    requires IsRange(a, b, r) && policy.Positive()
    decreases r.i1 - r.i0, 1, 0
  {
    GramsWithin(a, b, r, policy);
    AnchorsAre(a, b, r, policy);
    var direct := multiset(Direct(a, b, r, policy));
    if IsEmptyRange(r) then Course(multiset{}, 1, true)
    else if IsSmall(r, policy) then Course(direct, 1 + DirectCharge(a, b, r, policy), true)
    else if IsDivided(a, b, r, policy) then
      var bs := AnchorsOf(a, b, r, policy);
      Then(Course(multiset(bs), 1 + GramCharge(r, policy), true), CourseOfGaps(a, b, r, policy, bs, |bs| + 1))
    else
      Course(direct, 1 + GramCharge(r, policy) + DirectCharge(a, b, r, policy), Pairs(r) <= policy.maxAlignmentPairs)
  }

  /** The first `n` gaps of a range split at `bs`. */
  ghost function CourseOfGaps(a: string, b: string, r: Range, policy: Policy, bs: seq<Block>, n: nat): Course
    requires IsRange(a, b, r) && policy.Positive() && AreAnchors(a, b, r, bs) && 0 < |bs| && n <= |bs| + 1
    decreases r.i1 - r.i0, 0, n
  {
    if n == 0 then NOWHERE
    else
      GapWithin(a, b, r, bs, n - 1);
      Then(CourseOfGaps(a, b, r, policy, bs, n - 1), CourseOf(a, b, Gap(bs, r, n - 1), policy))
  }

  /** Ranges still to match, one after another. */
  ghost function CourseOfAll(a: string, b: string, work: seq<Range>, policy: Policy): Course
    requires AllRanges(a, b, work) && policy.Positive()
  {
    if |work| == 0 then NOWHERE
    else Then(CourseOfAll(a, b, work[..|work| - 1], policy), CourseOf(a, b, work[|work| - 1], policy))
  }

  lemma OneRangeMore(a: string, b: string, rest: seq<Range>, g: Range, policy: Policy)
    requires AllRanges(a, b, rest) && IsRange(a, b, g) && policy.Positive() && AllRanges(a, b, rest + [g])
    ensures CourseOfAll(a, b, rest + [g], policy)
         == Then(CourseOfAll(a, b, rest, policy), CourseOf(a, b, g, policy))
  {
    assert (rest + [g])[..|rest|] == rest;
  }

  lemma OneGapMore(a: string, b: string, r: Range, policy: Policy, bs: seq<Block>, n: nat)
    requires IsRange(a, b, r) && policy.Positive() && AreAnchors(a, b, r, bs) && 0 < |bs| && 0 < n <= |bs| + 1
    ensures IsRange(a, b, Gap(bs, r, n - 1))
    ensures CourseOfGaps(a, b, r, policy, bs, n)
         == Then(CourseOfGaps(a, b, r, policy, bs, n - 1), CourseOf(a, b, Gap(bs, r, n - 1), policy))
  {
    GapWithin(a, b, r, bs, n - 1);
  }

  lemma ThenNext(x: Course, y: Course, z: Course)
    ensures Then(Then(x, y), z) == Then(x, Then(y, z))
  {
  }

  lemma FewerGaps(a: string, b: string, rest: seq<Range>, gs: seq<Range>, n: nat)
    requires 0 < n <= |gs| && AllRanges(a, b, rest + gs[..n])
    ensures rest + gs[..n] == rest + gs[..n - 1] + [gs[n - 1]]
    ensures AllRanges(a, b, rest + gs[..n - 1]) && IsRange(a, b, gs[n - 1])
  {
    var list := rest + gs[..n];
    assert list[|list| - 1] == gs[n - 1];
    var fewer := rest + gs[..n - 1];
    forall x | 0 <= x < |fewer|
      ensures IsRange(a, b, fewer[x])
    {
      assert list[x] == fewer[x];
    }
  }

  /** The gaps of a range on the work list come to what they come to in the range. */
  lemma {:induction false} GapsOnTheList(
    a: string, b: string, rest: seq<Range>, r: Range, policy: Policy, bs: seq<Block>, n: nat)
    requires AllRanges(a, b, rest) && IsRange(a, b, r) && policy.Positive()
    requires AreAnchors(a, b, r, bs) && 0 < |bs| && n <= |bs| + 1 && AllRanges(a, b, rest + Gaps(bs, r)[..n])
    ensures CourseOfAll(a, b, rest + Gaps(bs, r)[..n], policy)
         == Then(CourseOfAll(a, b, rest, policy), CourseOfGaps(a, b, r, policy, bs, n))
  {
    var gs := Gaps(bs, r);
    if n == 0 {
      NoGapOn(a, b, rest, r, policy, bs);
    } else {
      FewerGaps(a, b, rest, gs, n);
      GapsOnTheList(a, b, rest, r, policy, bs, n - 1);
      OneGapOn(a, b, rest, r, policy, bs, n);
    }
  }

  lemma NoGapOn(a: string, b: string, rest: seq<Range>, r: Range, policy: Policy, bs: seq<Block>)
    requires AllRanges(a, b, rest) && IsRange(a, b, r) && policy.Positive() && AreAnchors(a, b, r, bs) && 0 < |bs|
    ensures AllRanges(a, b, rest + Gaps(bs, r)[..0])
    ensures CourseOfAll(a, b, rest + Gaps(bs, r)[..0], policy)
         == Then(CourseOfAll(a, b, rest, policy), CourseOfGaps(a, b, r, policy, bs, 0))
  {
    assert rest + Gaps(bs, r)[..0] == rest;
  }

  lemma OneGapOn(a: string, b: string, rest: seq<Range>, r: Range, policy: Policy, bs: seq<Block>, n: nat)
    requires AllRanges(a, b, rest) && IsRange(a, b, r) && policy.Positive()
    requires AreAnchors(a, b, r, bs) && 0 < |bs| && 0 < n <= |bs| + 1
    requires var gs := Gaps(bs, r);
             && rest + gs[..n] == rest + gs[..n - 1] + [gs[n - 1]]
             && AllRanges(a, b, rest + gs[..n]) && AllRanges(a, b, rest + gs[..n - 1])
             && CourseOfAll(a, b, rest + gs[..n - 1], policy)
                == Then(CourseOfAll(a, b, rest, policy), CourseOfGaps(a, b, r, policy, bs, n - 1))
    ensures CourseOfAll(a, b, rest + Gaps(bs, r)[..n], policy)
         == Then(CourseOfAll(a, b, rest, policy), CourseOfGaps(a, b, r, policy, bs, n))
  {
    var gs := Gaps(bs, r);
    OneGapMore(a, b, r, policy, bs, n);
    OneRangeMore(a, b, rest + gs[..n - 1], gs[n - 1], policy);
    ThenNext(CourseOfAll(a, b, rest, policy), CourseOfGaps(a, b, r, policy, bs, n - 1),
      CourseOf(a, b, gs[n - 1], policy));
  }

  /** What was found and charged, with what is on the work list, comes to the whole. */
  ghost predicate Leads(a: string, b: string, policy: Policy, blocks: seq<Block>, paid: int, work: seq<Range>)
    requires policy.Positive() && AllRanges(a, b, work)
  {
    paid >= 0 && Then(Course(multiset(blocks), paid, true), CourseOfAll(a, b, work, policy))
      == CourseOf(a, b, Everything(a, b), policy)
  }

  lemma LeadsAtFirst(a: string, b: string, policy: Policy)
    requires policy.Positive()
    ensures Leads(a, b, policy, [], 0, [Everything(a, b)])
  {
    assert [Everything(a, b)][..0] == [];
  }

  lemma MoreFound(blocks: seq<Block>, paid: nat, more: seq<Block>, charge: nat)
    ensures Course(multiset(blocks + more), paid + charge, true)
         == Then(Course(multiset(blocks), paid, true), Course(multiset(more), charge, true))
  {
  }

  /** A range matched as a whole. */
  lemma {:induction false} LeadsPastRange(
    a: string, b: string, policy: Policy, blocks: seq<Block>, paid: int, work: seq<Range>, more: seq<Block>)
    requires policy.Positive() && AllRanges(a, b, work) && |work| > 0 && Leads(a, b, policy, blocks, paid, work)
    requires var c := CourseOf(a, b, work[|work| - 1], policy); c.splits && multiset(more) == c.blocks
    ensures var c := CourseOf(a, b, work[|work| - 1], policy);
            Leads(a, b, policy, blocks + more, paid + c.charge, work[..|work| - 1])
  {
    var rest, c := work[..|work| - 1], CourseOf(a, b, work[|work| - 1], policy);
    MoreFound(blocks, paid, more, c.charge);
    Swapped(Course(multiset(blocks), paid, true), CourseOfAll(a, b, rest, policy), c);
  }

  /** With nothing left on the work list, all that the texts come to is found and charged. */
  lemma LeadsToTheEnd(a: string, b: string, policy: Policy, blocks: seq<Block>, paid: int)
    requires policy.Positive() && Leads(a, b, policy, blocks, paid, [])
    ensures paid >= 0 && CourseOf(a, b, Everything(a, b), policy) == Course(multiset(blocks), paid, true)
  {
    ThenNowhere(Course(multiset(blocks), paid, true));
  }

  lemma ThenNowhere(x: Course)
    ensures Then(x, NOWHERE) == x
  {
  }

  lemma Swapped(x: Course, y: Course, z: Course)
    ensures Then(Then(x, z), y) == Then(x, Then(y, z))
  {
  }

  /** A range split at its anchors. */
  lemma {:induction false} LeadsIntoGaps(
    a: string, b: string, policy: Policy, blocks: seq<Block>, paid: int, work: seq<Range>, bs: seq<Block>)
    requires policy.Positive() && AllRanges(a, b, work) && |work| > 0 && Leads(a, b, policy, blocks, paid, work)
    requires var r := work[|work| - 1];
             && IsDivided(a, b, r, policy) && bs == AnchorsOf(a, b, r, policy) && AreAnchors(a, b, r, bs)
             && AllRanges(a, b, work[..|work| - 1] + Gaps(bs, r))
    ensures var r := work[|work| - 1];
            Leads(a, b, policy, blocks + bs, paid + 1 + GramCharge(r, policy), work[..|work| - 1] + Gaps(bs, r))
  {
    var rest, r := work[..|work| - 1], work[|work| - 1];
    SplitOnTheList(a, b, rest, r, policy, bs);
    LastOnTheList(a, b, work, policy);
    MoreFound(blocks, paid, bs, 1 + GramCharge(r, policy));
    ThenNext(Course(multiset(blocks), paid, true), Course(multiset(bs), 1 + GramCharge(r, policy), true),
      CourseOfAll(a, b, rest + Gaps(bs, r), policy));
  }

  /** Anchors taken and their gaps put on the work list come to what the range on it did. */
  lemma SplitOnTheList(a: string, b: string, rest: seq<Range>, r: Range, policy: Policy, bs: seq<Block>)
    requires AllRanges(a, b, rest) && IsRange(a, b, r) && policy.Positive()
    requires IsDivided(a, b, r, policy) && bs == AnchorsOf(a, b, r, policy) && AreAnchors(a, b, r, bs)
    requires AllRanges(a, b, rest + Gaps(bs, r))
    ensures GramCharge(r, policy) >= 0
    ensures Then(Course(multiset(bs), 1 + GramCharge(r, policy), true), CourseOfAll(a, b, rest + Gaps(bs, r), policy))
         == Then(CourseOfAll(a, b, rest, policy), CourseOf(a, b, r, policy))
  {
    DividedCourse(a, b, r, policy);
    var own, parts := Course(multiset(bs), 1 + GramCharge(r, policy), true),
      CourseOfGaps(a, b, r, policy, bs, |bs| + 1);
    AllGapsOnTheList(a, b, rest, r, policy, bs);
    Moved(own, CourseOfAll(a, b, rest, policy), parts);
  }

  lemma AllGapsOnTheList(a: string, b: string, rest: seq<Range>, r: Range, policy: Policy, bs: seq<Block>)
    requires AllRanges(a, b, rest) && IsRange(a, b, r) && policy.Positive()
    requires AreAnchors(a, b, r, bs) && 0 < |bs| && AllRanges(a, b, rest + Gaps(bs, r))
    ensures CourseOfAll(a, b, rest + Gaps(bs, r), policy)
         == Then(CourseOfAll(a, b, rest, policy), CourseOfGaps(a, b, r, policy, bs, |bs| + 1))
  {
    assert Gaps(bs, r)[..|bs| + 1] == Gaps(bs, r);
    GapsOnTheList(a, b, rest, r, policy, bs, |bs| + 1);
  }

  lemma LastOnTheList(a: string, b: string, work: seq<Range>, policy: Policy)
    requires AllRanges(a, b, work) && policy.Positive() && |work| > 0
    ensures CourseOfAll(a, b, work, policy)
         == Then(CourseOfAll(a, b, work[..|work| - 1], policy), CourseOf(a, b, work[|work| - 1], policy))
  {
  }

  lemma DividedCourse(a: string, b: string, r: Range, policy: Policy)
    requires IsRange(a, b, r) && policy.Positive() && IsDivided(a, b, r, policy)
    ensures GramCharge(r, policy) >= 0 && AreAnchors(a, b, r, AnchorsOf(a, b, r, policy))
    ensures var bs := AnchorsOf(a, b, r, policy);
            CourseOf(a, b, r, policy)
            == Then(Course(multiset(bs), 1 + GramCharge(r, policy), true), CourseOfGaps(a, b, r, policy, bs, |bs| + 1))
  {
    GramsWithin(a, b, r, policy);
    AnchorsAre(a, b, r, policy);
  }

  lemma Moved(own: Course, rest: Course, parts: Course)
    ensures Then(own, Then(rest, parts)) == Then(rest, Then(own, parts))
  {
  }

  /** A turn never charges more than the whole. */
  lemma WithinTheWhole(
    a: string, b: string, policy: Policy, blocks: seq<Block>, paid: int, work: seq<Range>, charge: int)
    requires policy.Positive() && AllRanges(a, b, work) && |work| > 0 && Leads(a, b, policy, blocks, paid, work)
    requires charge <= CourseOf(a, b, work[|work| - 1], policy).charge
    ensures paid + charge <= CourseOf(a, b, Everything(a, b), policy).charge
    ensures !CourseOf(a, b, work[|work| - 1], policy).splits ==> !CourseOf(a, b, Everything(a, b), policy).splits
  {
  }

  // --- when every large range is split --------------------------------------------------------------

  /** No range of the two texts is past the bound. */
  ghost predicate AllWithinBound(a: string, b: string, policy: Policy) {
    forall r :: IsRange(a, b, r) ==> Pairs(r) <= policy.maxAlignmentPairs
  }

  /** Texts with no more pairs than the bound have no range past it. */
  lemma FewPairs(a: string, b: string, policy: Policy)
    requires |a| * |b| <= policy.maxAlignmentPairs
    ensures AllWithinBound(a, b, policy)
  {
    forall r | IsRange(a, b, r)
      ensures Pairs(r) <= policy.maxAlignmentPairs
    {
      PairsWithin(a, b, r);
    }
  }

  /** So every range that has to be is split. */
  lemma {:induction false} BoundSplits(a: string, b: string, r: Range, policy: Policy)
    requires IsRange(a, b, r) && policy.Positive() && AllWithinBound(a, b, policy)
    ensures CourseOf(a, b, r, policy).splits
    decreases r.i1 - r.i0
  {
    if IsDivided(a, b, r, policy) {
      var bs := AnchorsOf(a, b, r, policy);
      DividedCourse(a, b, r, policy);
      forall x: nat | x <= |bs|
        ensures GapSplits(a, b, r, policy, bs, x)
      {
        GapWithin(a, b, r, bs, x);
        BoundSplits(a, b, Gap(bs, r, x), policy);
      }
      AllGapsSplit(a, b, r, policy, bs, |bs| + 1);
    }
  }

  ghost predicate GapSplits(a: string, b: string, r: Range, policy: Policy, bs: seq<Block>, x: nat)
    requires policy.Positive() && x <= |bs|
  {
    IsRange(a, b, Gap(bs, r, x)) && CourseOf(a, b, Gap(bs, r, x), policy).splits
  }

  lemma {:induction false} AllGapsSplit(a: string, b: string, r: Range, policy: Policy, bs: seq<Block>, n: nat)
    requires IsRange(a, b, r) && policy.Positive() && AreAnchors(a, b, r, bs) && 0 < |bs| && n <= |bs| + 1
    requires forall x: nat :: x <= |bs| ==> GapSplits(a, b, r, policy, bs, x)
    ensures CourseOfGaps(a, b, r, policy, bs, n).splits
  {
    if n > 0 {
      AllGapsSplit(a, b, r, policy, bs, n - 1);
      OneGapSplits(a, b, r, policy, bs, n);
    }
  }

  lemma OneGapSplits(a: string, b: string, r: Range, policy: Policy, bs: seq<Block>, n: nat)
    requires IsRange(a, b, r) && policy.Positive() && AreAnchors(a, b, r, bs) && 0 < |bs| && 0 < n <= |bs| + 1
    requires CourseOfGaps(a, b, r, policy, bs, n - 1).splits && GapSplits(a, b, r, policy, bs, n - 1)
    ensures CourseOfGaps(a, b, r, policy, bs, n).splits
  {
    OneGapMore(a, b, r, policy, bs, n);
  }

  lemma FewPairsSplit(a: string, b: string, policy: Policy)
    requires policy.Positive() && |a| * |b| <= policy.maxAlignmentPairs
    ensures CourseOf(a, b, Everything(a, b), policy).splits
  {
    FewPairs(a, b, policy);
    BoundSplits(a, b, Everything(a, b), policy);
  }

  /** Texts matched directly: a step, and the direct matching unless either is empty. */
  lemma DirectCourse(a: string, b: string, policy: Policy)
    requires policy.Positive() && IsDirect(a, b, policy)
    ensures var r, c := Everything(a, b), CourseOf(a, b, Everything(a, b), policy);
            && c.splits && c.blocks == multiset(Direct(a, b, r, policy))
            && c.charge == 1 + if a == "" || b == "" then 0 else DirectCharge(a, b, r, policy)
  {
    SmallTexts(a, b, policy);
    SmallCourse(a, b, Everything(a, b), policy);
  }

  lemma SmallTexts(a: string, b: string, policy: Policy)
    requires IsDirect(a, b, policy)
    ensures IsSmall(Everything(a, b), policy) && (IsEmptyRange(Everything(a, b)) <==> a == "" || b == "")
  {
  }

  lemma SmallCourse(a: string, b: string, r: Range, policy: Policy)
    requires IsRange(a, b, r) && policy.Positive() && IsSmall(r, policy)
    ensures CourseOf(a, b, r, policy)
         == Course(multiset(Direct(a, b, r, policy)), 1 + if IsEmptyRange(r) then 0 else DirectCharge(a, b, r, policy),
              true)
  {
    if IsEmptyRange(r) { assert Direct(a, b, r, policy) == []; }
  }

  /** Texts too large to be matched directly keep every anchor of the whole as a block. */
  lemma {:induction false} AnchorsAreBlocks(a: string, b: string, policy: Policy, m: Block)
    requires policy.Positive() && |a| * |b| > policy.directAlignmentMaxPairs
    requires m in AnchorsOf(a, b, Everything(a, b), policy)
    ensures m in CourseOf(a, b, Everything(a, b), policy).blocks
  {
    WholeIsDivided(a, b, policy, m);
    DividedKeeps(a, b, Everything(a, b), policy, m);
  }

  lemma WholeIsDivided(a: string, b: string, policy: Policy, m: Block)
    requires policy.Positive() && |a| * |b| > policy.directAlignmentMaxPairs
    requires m in AnchorsOf(a, b, Everything(a, b), policy)
    ensures IsDivided(a, b, Everything(a, b), policy)
  {
    LargeIsFilled(a, b, policy);
  }

  lemma LargeIsFilled(a: string, b: string, policy: Policy)
    requires policy.Positive() && |a| * |b| > policy.directAlignmentMaxPairs
    ensures !IsEmptyRange(Everything(a, b)) && !IsSmall(Everything(a, b), policy)
  {
    assert |a| == 0 || |b| == 0 ==> |a| * |b| == 0;
    WholeIs(a, b, policy);
  }

  lemma DividedKeeps(a: string, b: string, r: Range, policy: Policy, m: Block)
    requires IsRange(a, b, r) && policy.Positive() && IsDivided(a, b, r, policy) && m in AnchorsOf(a, b, r, policy)
    ensures m in CourseOf(a, b, r, policy).blocks
  {
    DividedCourse(a, b, r, policy);
  }

  // --- texts that share no character ------------------------------------------------------------------

  predicate AreUnrelated(a: string, b: string) {
    forall i, j :: 0 <= i < |a| && 0 <= j < |b| ==> a[i] != b[j]
  }

  lemma NoRun(a: string, b: string, m: Block)
    requires AreUnrelated(a, b) && IsRun(a, b, m)
    ensures m.size == 0
  {
    if m.size > 0 { RunAgrees(a, b, m, 0); }
  }

  lemma {:induction false} NoAnchor(a: string, b: string, r: Range, policy: Policy)
    requires AreUnrelated(a, b) && IsRange(a, b, r) && policy.Positive()
    ensures AnchorsOf(a, b, r, policy) == []
  {
    AnchorsAre(a, b, r, policy);
    var bs := AnchorsOf(a, b, r, policy);
    if |bs| > 0 { NoRun(a, b, bs[0]); }
  }

  /** Direct matching finds nothing and compares every pair once. */
  lemma {:induction false} NothingDirect(a: string, b: string, policy: Policy)
    requires AreUnrelated(a, b) && policy.Positive() && a != "" && b != ""
    ensures Direct(a, b, Everything(a, b), policy) == []
    ensures DirectCharge(a, b, Everything(a, b), policy) == 1 + |a| * |b|
  {
    var r, none := Everything(a, b), Block(0, 0, 0);
    NothingIsLongest(a, b, BandLow(r, policy), BandHigh(r, policy));
    BandAnswerIs(a, b, r, policy, none);
  }

  lemma {:induction false} NothingIsLongest(a: string, b: string, low: int, high: int)
    requires AreUnrelated(a, b)
    ensures UnbandedAnswers(a, b, Everything(a, b), low, high)
    ensures AnswersBand(a, b, Everything(a, b), low, high, Block(0, 0, 0))
  {
    var r, none := Everything(a, b), Block(0, 0, 0);
    forall m: Block | IsRun(a, b, m)
      ensures m.size == 0
    {
      NoRun(a, b, m);
    }
    assert IsEarliestLongest(a, b, r, none);
  }

  lemma {:induction false} LargeCourse(a: string, b: string, r: Range, policy: Policy)
    requires IsRange(a, b, r) && policy.Positive() && !IsEmptyRange(r) && !IsSmall(r, policy)
    requires AnchorsOf(a, b, r, policy) == []
    ensures CourseOf(a, b, r, policy)
         == Course(multiset(Direct(a, b, r, policy)), 1 + GramCharge(r, policy) + DirectCharge(a, b, r, policy),
              Pairs(r) <= policy.maxAlignmentPairs)
  {
  }

  lemma WholeIs(a: string, b: string, policy: Policy)
    ensures var r := Everything(a, b);
            && Pairs(r) == |a| * |b| && (IsSmall(r, policy) <==> |a| * |b| <= policy.directAlignmentMaxPairs)
            && GramCharge(r, policy) == (|a| + |b|) * policy.anchorCharacters
  {
  }

  lemma {:induction false} UnrelatedSmall(a: string, b: string, policy: Policy)
    requires AreUnrelated(a, b) && policy.Positive() && a != "" && b != ""
    requires |a| * |b| <= policy.directAlignmentMaxPairs
    ensures var c := CourseOf(a, b, Everything(a, b), policy);
            c.blocks == multiset{} && c.splits && c.charge == 2 + |a| * |b|
  {
    WholeIs(a, b, policy);
    NothingDirect(a, b, policy);
    SmallCourse(a, b, Everything(a, b), policy);
  }

  lemma {:induction false} UnrelatedLarge(a: string, b: string, policy: Policy)
    requires AreUnrelated(a, b) && policy.Positive() && a != "" && b != ""
    requires |a| * |b| > policy.directAlignmentMaxPairs
    ensures var c := CourseOf(a, b, Everything(a, b), policy);
            && c.blocks == multiset{} && (c.splits <==> |a| * |b| <= policy.maxAlignmentPairs)
            && c.charge == 2 + |a| * |b| + (|a| + |b|) * policy.anchorCharacters
  {
    WholeIs(a, b, policy);
    NoAnchor(a, b, Everything(a, b), policy);
    NothingDirect(a, b, policy);
    LargeCourse(a, b, Everything(a, b), policy);
  }

  /** Texts that share no character have no block. With no more pairs than direct matching takes they
      are charged two steps and a comparison for each pair; with more, the characters of their grams
      besides; and with more than the bound as well, they are refused for size. */
  lemma {:induction false} UnrelatedCourse(a: string, b: string, policy: Policy)
    requires AreUnrelated(a, b) && policy.Positive() && a != "" && b != ""
    ensures var c, pairs := CourseOf(a, b, Everything(a, b), policy), |a| * |b|;
            && c.blocks == multiset{}
            && (c.splits <==> pairs <= policy.directAlignmentMaxPairs || pairs <= policy.maxAlignmentPairs)
            && (pairs <= policy.directAlignmentMaxPairs ==> c.charge == 2 + pairs)
            && (pairs > policy.directAlignmentMaxPairs ==>
                  c.charge == 2 + pairs + (|a| + |b|) * policy.anchorCharacters)
  {
    if |a| * |b| <= policy.directAlignmentMaxPairs {
      UnrelatedSmall(a, b, policy);
    } else {
      UnrelatedLarge(a, b, policy);
    }
  }
}
