/** The whole alignment: anchors split large ranges, direct search matches the rest. */
module Matching {
  import opened Alignment
  import opened Blocks
  import opened Anchors
  import opened Splitting
  import opened Course
  import opened Patience
  import Arithmetic
  import Sorting

  // --- the final order ---------------------------------------------------------------------------

  predicate BlockLeq(m: Block, n: Block) {
    m.i < n.i || (m.i == n.i && (m.j < n.j || (m.j == n.j && m.size <= n.size)))
  }

  /** Blocks apart from one another, once sorted, ascend on both texts. */
  lemma {:induction false} SortAscends(a: string, b: string, bs: seq<Block>, sorted: seq<Block>)
    requires ApartBlocks(bs) && AllRuns(a, b, bs)
    requires multiset(sorted) == multiset(bs) && Sorting.IsSorted(sorted, BlockLeq)
    ensures IsAscending(sorted) && AllRuns(a, b, sorted)
  {
    Sorting.SameElements(sorted, bs);
    forall x, y | 0 <= x < y < |bs|
      ensures bs[x] != bs[y]
    {
      assert Apart(BlockRange(bs[x]), BlockRange(bs[y]));
    }
    Sorting.DistinctStays(sorted, bs);
    forall x | 0 <= x < |sorted|
      ensures sorted[x].size > 0 && IsRun(a, b, sorted[x])
    {
      assert sorted[x] in bs;
    }
    forall x, y | 0 <= x < y < |sorted|
      ensures Before(BlockRange(sorted[x]), BlockRange(sorted[y]))
    {
      assert sorted[x] in bs && sorted[y] in bs && BlockLeq(sorted[x], sorted[y]);
      var u :| 0 <= u < |bs| && bs[u] == sorted[x];
      var v :| 0 <= v < |bs| && bs[v] == sorted[y];
      if u < v { assert Apart(BlockRange(bs[u]), BlockRange(bs[v])); }
         else { assert Apart(BlockRange(bs[v]), BlockRange(bs[u])); }
    }
  }

  // --- the block list ------------------------------------------------------------------------------

  /** Every gap of an ordered block list is short. */
  ghost predicate SmallGaps(bs: seq<Block>, r: Range, minBlock: int) {
    forall x {:trigger Gap(bs, r, x)} :: 0 <= x <= |bs| ==> Gap(bs, r, x).i1 - Gap(bs, r, x).i0 < minBlock
  }

  /** No gap has a run of the minimum length in its own band. */
  ghost predicate GapsExhausted(a: string, b: string, bs: seq<Block>, policy: Policy) {
    forall x {:trigger Gap(bs, Everything(a, b), x)} :: 0 <= x <= |bs| ==>
      IsExhausted(a, b, Gap(bs, Everything(a, b), x), policy)
  }

  ghost predicate OnDiagonal(bs: seq<Block>) {
    forall x :: 0 <= x < |bs| ==> bs[x].i == bs[x].j
  }

  ghost predicate AllAtLeast(bs: seq<Block>, minBlock: int) {
    forall x :: 0 <= x < |bs| ==> bs[x].size >= minBlock
  }


  /** What a measured alignment promises: the blocks the recursion over the texts comes to, genuine
      runs in strict order on both texts, with nothing long enough left between them; for texts
      matched directly, those of direct matching; and for a text against itself, runs on the main
      diagonal with only short gaps between them. */
  ghost predicate IsAlignment(a: string, b: string, policy: Policy, bs: seq<Block>)
    requires policy.Positive()
  {
    && multiset(bs) == CourseOf(a, b, Everything(a, b), policy).blocks
    && IsAscending(bs) && AllRuns(a, b, bs) && GapsExhausted(a, b, bs, policy)
    && (a == b ==> OnDiagonal(bs) && SmallGaps(bs, Everything(a, b), policy.minBlockCharacters))
    && (IsDirect(a, b, policy) ==>
          && AllAtLeast(bs, policy.minBlockCharacters)
          && multiset(bs) == multiset(Direct(a, b, Everything(a, b), policy)))
    && (a == b && IsDirect(a, b, policy) ==> SelfAligned(bs, [], Everything(a, b), policy.minBlockCharacters))
  }

  /** Where a gap of positive length starts and ends, a range given up starts and ends. */
  lemma {:induction false} GapIsGiven(
    a: string, b: string, policy: Policy, bs: seq<Block>, given: seq<Range>, sorted: seq<Block>, x: nat)
    requires SearchState(a, b, Everything(a, b), policy, bs, given, [])
    requires multiset(sorted) == multiset(bs) && IsAscending(sorted) && AllRuns(a, b, sorted) && x <= |sorted|
    ensures var g := Gap(sorted, Everything(a, b), x); g.i0 < g.i1 ==> g in given
  {
    var g := Gap(sorted, Everything(a, b), x);
    Sorting.SameElements(sorted, bs);
    if g.i0 < g.i1 {
      assert given + [] == given;
      GapStartFree(a, b, sorted, x);
      FreeOf(bs, sorted, g);
      assert InBlock(bs, g.i0) || InRange(given, g.i0);
      var z :| z in given && z.i0 <= g.i0 < z.i1;
      assert IsBounded(bs, Everything(a, b), z);
      SameStart(a, b, bs, sorted, x, z);
      SameEnd(a, b, bs, sorted, x, z);
    }
  }

  /** No block holds the gap's first position. */
  lemma FreeOf(bs: seq<Block>, sorted: seq<Block>, g: Range)
    requires forall m :: m in bs <==> m in sorted
    requires forall y :: 0 <= y < |sorted| ==> sorted[y].i + sorted[y].size <= g.i0 || g.i0 < sorted[y].i
    ensures !InBlock(bs, g.i0)
  {
    forall m | m in bs
      ensures !(m.i <= g.i0 < m.i + m.size)
    {
      assert m in sorted;
      var y :| 0 <= y < |sorted| && sorted[y] == m;
    }
  }

  /** Blocks before a gap end by its start, and those after it start at its end or later. */
  lemma {:induction false} GapStartFree(a: string, b: string, sorted: seq<Block>, x: nat)
    requires IsAscending(sorted) && AllRuns(a, b, sorted) && x <= |sorted|
    ensures var g := Gap(sorted, Everything(a, b), x);
            forall y :: 0 <= y < |sorted| ==>
              && (y < x ==> sorted[y].i + sorted[y].size <= g.i0) && (y >= x ==> g.i1 <= sorted[y].i)
              && (sorted[y].i + sorted[y].size == g.i0 && x > 0 ==> y == x - 1 || y >= x)
  {
    forall y | 0 <= y < |sorted|
      ensures y < x ==> sorted[y].i + sorted[y].size <= Gap(sorted, Everything(a, b), x).i0
      ensures y >= x ==> Gap(sorted, Everything(a, b), x).i1 <= sorted[y].i
      ensures y < x - 1 ==> sorted[y].i + sorted[y].size < Gap(sorted, Everything(a, b), x).i0
    {
      if y < x - 1 { assert Before(BlockRange(sorted[y]), BlockRange(sorted[x - 1])); }
      if x < y { assert Before(BlockRange(sorted[x]), BlockRange(sorted[y])); }
    }
  }

  lemma {:induction false} SameStart(a: string, b: string, bs: seq<Block>, sorted: seq<Block>, x: nat, z: Range)
    requires IsAscending(sorted) && AllRuns(a, b, sorted) && x <= |sorted| && (forall m :: m in bs <==> m in sorted)
    requires IsBounded(bs, Everything(a, b), z) && forall m :: m in bs ==> Apart(BlockRange(m), z)
    requires var g := Gap(sorted, Everything(a, b), x); g.i0 < g.i1 && z.i0 <= g.i0 < z.i1
    ensures var g := Gap(sorted, Everything(a, b), x); z.i0 == g.i0 && z.j0 == g.j0
  {
    var g := Gap(sorted, Everything(a, b), x);
    GapStartFree(a, b, sorted, x);
    if x > 0 {
      assert sorted[x - 1] in bs;
      assert Apart(BlockRange(sorted[x - 1]), z);
    }
    if EndsAt(bs, z.i0, z.j0) {
      var m :| m in bs && m.i + m.size == z.i0 && m.j + m.size == z.j0;
      assert m in sorted;
      var y :| 0 <= y < |sorted| && sorted[y] == m;
    }
  }

  lemma {:induction false} SameEnd(a: string, b: string, bs: seq<Block>, sorted: seq<Block>, x: nat, z: Range)
    requires IsAscending(sorted) && AllRuns(a, b, sorted) && x <= |sorted| && (forall m :: m in bs <==> m in sorted)
    requires IsBounded(bs, Everything(a, b), z) && forall m :: m in bs ==> Apart(BlockRange(m), z)
    requires var g := Gap(sorted, Everything(a, b), x); g.i0 < g.i1 && z.i0 <= g.i0 < z.i1
    ensures var g := Gap(sorted, Everything(a, b), x); z.i1 == g.i1 && z.j1 == g.j1
  {
    var g := Gap(sorted, Everything(a, b), x);
    GapStartFree(a, b, sorted, x);
    if x < |sorted| {
      assert sorted[x] in bs;
      assert Apart(BlockRange(sorted[x]), z);
    }
    if StartsAt(bs, z.i1, z.j1) {
      var m :| m in bs && m.i == z.i1 && m.j == z.j1;
      assert m in sorted;
      var y: nat :| y < |sorted| && sorted[y] == m;
      if x < |sorted| { StartsRise(a, b, sorted, x, y); }
    }
  }

  lemma StartsRise(a: string, b: string, sorted: seq<Block>, x: nat, y: nat)
    requires IsAscending(sorted) && AllRuns(a, b, sorted) && x < |sorted| && y < |sorted|
    ensures x < y ==> sorted[x].i < sorted[y].i
  {
    if x < y { assert Before(BlockRange(sorted[x]), BlockRange(sorted[y])); }
  }

  /** A gap with nothing long enough left to find is short when a text meets itself. */
  lemma {:induction false} GapIsShort(a: string, bs: seq<Block>, policy: Policy, x: nat)
    requires policy.Positive() && IsAscending(bs) && AllRuns(a, a, bs) && OnDiagonal(bs) && x <= |bs|
    requires GapsExhausted(a, a, bs, policy)
    ensures var g := Gap(bs, Everything(a, a), x); g.i1 - g.i0 < policy.minBlockCharacters
  {
    var g := Gap(bs, Everything(a, a), x);
    assert IsExhausted(a, a, g, policy);
    if 0 < x < |bs| { assert Before(BlockRange(bs[x - 1]), BlockRange(bs[x])); }
    if !IsEmptyRange(g) {
      WholeInBand(a, g, policy);
    }
  }

  // --- the loop ------------------------------------------------------------------------------------

  ghost predicate AllSquare(rs: seq<Range>) {
    forall g :: g in rs ==> IsSquare(g)
  }

  /** Texts small enough are matched directly, in one turn. */
  ghost predicate DirectTurn(a: string, b: string, policy: Policy, bs: seq<Block>, work: seq<Range>)
    requires policy.Positive()
  {
    || (bs == [] && work == [Everything(a, b)])
    || (&& work == [] && (forall m :: m in bs ==> m.size >= policy.minBlockCharacters)
        && multiset(bs) == multiset(Direct(a, b, Everything(a, b), policy))
        && (a == b ==> SelfAligned(bs, [], Everything(a, b), policy.minBlockCharacters)))
  }

  ghost predicate LoopState(a: string, b: string, policy: Policy, bs: seq<Block>, given: seq<Range>, work: seq<Range>)
    requires policy.Positive()
  {
    && SearchState(a, b, Everything(a, b), policy, bs, given, work) && AllRanges(a, b, work)
    && (a == b ==> OnDiagonal(bs) && AllSquare(given + work))
    && (IsDirect(a, b, policy) ==> DirectTurn(a, b, policy, bs, work))
  }

  lemma {:induction false} StartState(a: string, b: string, policy: Policy)
    requires policy.Positive()
    ensures LoopState(a, b, policy, [], [], [Everything(a, b)])
  {
    DirectStart(a, b, Everything(a, b), policy);
  }

  /** One turn on the last range, whichever it is. */
  lemma {:induction false} TakeTurn(
    a: string, b: string, policy: Policy, bs: seq<Block>, given: seq<Range>, work: seq<Range>,
    more: seq<Block>, gone: seq<Range>, parts: seq<Range>)
    requires policy.Positive() && LoopState(a, b, policy, bs, given, work) && |work| > 0
    requires IsTurn(a, b, work[|work| - 1], policy, more, gone, parts) && AllRanges(a, b, parts)
    requires a == b ==> OnDiagonal(more) && AllSquare(gone + parts)
    requires IsDirect(a, b, policy) ==> DirectTurn(a, b, policy, bs + more, work[..|work| - 1] + parts)
    ensures LoopState(a, b, policy, bs + more, given + gone, work[..|work| - 1] + parts)
  {
    Forward(a, b, Everything(a, b), policy, bs, given, work);
    SearchTurn(a, b, Everything(a, b), policy, bs, given, work, more, gone, parts);
    var rest := work[..|work| - 1];
    assert AllRanges(a, b, rest + parts);
    if a == b {
      forall g | g in (given + gone) + (rest + parts)
        ensures IsSquare(g)
      {
        assert g in given + work || g in gone + parts;
      }
    }
  }

  lemma {:induction false} DropStep(
      a: string, b: string, policy: Policy, bs: seq<Block>, given: seq<Range>, work: seq<Range>)
    requires policy.Positive() && LoopState(a, b, policy, bs, given, work) && |work| > 0
    requires IsEmptyRange(work[|work| - 1])
    ensures LoopState(a, b, policy, bs, given + [work[|work| - 1]], work[..|work| - 1])
    ensures Remaining(work[..|work| - 1]) <= Remaining(work)
  {
    var r, rest := work[|work| - 1], work[..|work| - 1];
    GiveUpTurn(a, b, r, policy);
    assert bs + [] == bs && rest + [] == rest && [r] + [] == [r];
    assert r in given + work;
    if IsDirect(a, b, policy) {
      assert Direct(a, b, r, policy) == [];
      assert rest == [];
    }
    TakeTurn(a, b, policy, bs, given, work, [], [r], []);
  }

  /** Direct matching of the last range. */
  lemma {:induction false} DirectStep(
    a: string, b: string, policy: Policy, bs: seq<Block>, given: seq<Range>, work: seq<Range>, more: seq<Block>,
      gone: seq<Range>)
    requires policy.Positive() && LoopState(a, b, policy, bs, given, work) && |work| > 0
    requires var r := work[|work| - 1];
             && !IsEmptyRange(r) && DirectState(a, b, r, policy, more, gone, [])
             && multiset(more) == multiset(Direct(a, b, r, policy))
    ensures LoopState(a, b, policy, bs + more, given + gone, work[..|work| - 1])
    ensures Remaining(work[..|work| - 1]) < Remaining(work)
  {
    var r, rest := work[|work| - 1], work[..|work| - 1];
    assert rest + [] == rest && gone + [] == gone && r in given + work;
    if a == b {
      SquaresFromBlocks(a, r, policy, more, gone);
    }
    if IsDirect(a, b, policy) {
      assert bs == [] && rest == [] && bs + more == more;
    }
    TakeTurn(a, b, policy, bs, given, work, more, gone, []);
  }

  /** Direct blocks of a square range of a text against itself are on the diagonal, and so is what
      is between them. */
  lemma {:induction false} SquaresFromBlocks(a: string, r: Range, policy: Policy, more: seq<Block>, gone: seq<Range>)
    requires IsSquare(r) && DirectState(a, a, r, policy, more, gone, []) && !IsEmptyRange(r)
    ensures OnDiagonal(more) && AllSquare(gone)
  {
    assert gone + [] == gone;
    forall g | g in gone
      ensures IsSquare(g)
    {
      assert IsBounded(more, r, g);
    }
  }

  /** Gaps between blocks on the main diagonal of a square range are square. */
  lemma GapsAreSquare(r: Range, bs: seq<Block>)
    requires IsSquare(r) && OnDiagonal(bs)
    ensures AllSquare(Gaps(bs, r))
  {
    forall g | g in Gaps(bs, r)
      ensures IsSquare(g)
    {
      var x :| 0 <= x <= |bs| && Gaps(bs, r)[x] == g;
    }
  }

  /** Texts matched directly never come to anchors. */
  lemma NotDirect(a: string, b: string, policy: Policy, bs: seq<Block>, work: seq<Range>)
    requires policy.Positive() && |work| > 0 && !IsSmall(work[|work| - 1], policy)
    requires IsDirect(a, b, policy) ==> DirectTurn(a, b, policy, bs, work)
    ensures !IsDirect(a, b, policy)
  {
  }

  /** Anchors of the last range. */
  lemma {:induction false} AnchorStep(
    a: string, b: string, policy: Policy, bs: seq<Block>, given: seq<Range>, work: seq<Range>, more: seq<Block>)
    requires policy.Positive() && LoopState(a, b, policy, bs, given, work) && |work| > 0 && |more| > 0
    requires AreAnchors(a, b, work[|work| - 1], more) && !IsSmall(work[|work| - 1], policy)
    ensures LoopState(a, b, policy, bs + more, given, work[..|work| - 1] + Gaps(more, work[|work| - 1]))
    ensures AllRanges(a, b, work[..|work| - 1] + Gaps(more, work[|work| - 1]))
    ensures Remaining(work[..|work| - 1] + Gaps(more, work[|work| - 1])) + |more| <= Remaining(work)
  {
    var r := work[|work| - 1];
    var parts := Gaps(more, r);
    NotDirect(a, b, policy, bs, work);
    AnchorTurn(a, b, r, policy, more);
    AnchorsShrink(a, b, work, more);
    GapsAreRanges(a, b, r, more);
    NothingGone(given, parts);
    LastOfAll(given, work);
    if a == b {
      GapsAreSquare(r, more);
    }
    TakeTurn(a, b, policy, bs, given, work, more, [], parts);
  }

  lemma NothingGone(given: seq<Range>, parts: seq<Range>)
    ensures given + [] == given && [] + parts == parts
  {
  }

  lemma LastOfAll(given: seq<Range>, work: seq<Range>)
    requires |work| > 0
    ensures work[|work| - 1] in given + work
  {
  }

  /** The consistent anchors of a range too large to match directly; none for a small one. */
  method FindAnchors(a: string, b: string, r: Range, policy: Policy, budget: WorkBudget)
    returns (found: Outcome<seq<Block>>)
    requires IsRange(a, b, r) && policy.Positive() && budget.Valid() && budget.left >= 0
    modifies budget
    ensures budget.Valid() && budget.left <= old(budget.left)
    ensures found == NotMeasured(WorkBound) <==> budget.left < 0
    ensures found == NotMeasured(SizeBound) ==>
              && budget.left >= 0 && !IsSmall(r, policy) && Pairs(r) > policy.maxAlignmentPairs
              && AnchorsOf(a, b, r, policy) == []
    ensures IsSmall(r, policy) ==> found == Measured([]) && budget.charged == old(budget.charged)
    ensures budget.charged <= old(budget.charged) + GramCharge(r, policy)
    ensures found.Measured? && !IsSmall(r, policy) ==>
              && found.value == AnchorsOf(a, b, r, policy)
              && (found.value == [] ==> Pairs(r) <= policy.maxAlignmentPairs)
              && budget.charged == old(budget.charged) + GramCharge(r, policy)
    ensures found.Measured? ==> AreAnchors(a, b, r, found.value)
  {
    GramsWithin(a, b, r, policy);
    if IsSmall(r, policy) { return Measured([]); }
    var ok := budget.Spend(GramCharge(r, policy));
    if !ok { return NotMeasured(WorkBound); }
    var raw := AnchorBlocks(a, b, r, policy.anchorCharacters);
    var anchors := ConsistentAnchors(a, b, r, raw, policy);
    if anchors == [] && Pairs(r) > policy.maxAlignmentPairs { return NotMeasured(SizeBound); }
    found := Measured(anchors);
  }

  /** A range that anchors did not split: dropped when it is empty, matched directly otherwise. */
  ghost predicate IsFlatTurn(
    a: string, b: string, r: Range, policy: Policy, more: seq<Block>, gone: seq<Range>)
    requires policy.Positive()
  {
    if IsEmptyRange(r) then more == [] && gone == [r]
    else DirectState(a, b, r, policy, more, gone, []) && multiset(more) == multiset(Direct(a, b, r, policy))
  }

  /** What an undivided range comes to. */
  lemma FlatCourse(a: string, b: string, r: Range, policy: Policy, more: seq<Block>, gone: seq<Range>)
    requires IsRange(a, b, r) && policy.Positive() && !IsDivided(a, b, r, policy)
    ensures IsFlatTurn(a, b, r, policy, more, gone) ==> multiset(more) == CourseOf(a, b, r, policy).blocks
    ensures CourseOf(a, b, r, policy).charge == FlatCharge(a, b, r, policy)
    ensures CourseOf(a, b, r, policy).splits
       <==> IsEmptyRange(r) || IsSmall(r, policy) || Pairs(r) <= policy.maxAlignmentPairs
  {
  }

  ghost function FlatCharge(a: string, b: string, r: Range, policy: Policy): int
    requires policy.Positive()
  {
    1 + if IsEmptyRange(r) then 0
        else DirectCharge(a, b, r, policy) + if IsSmall(r, policy) then 0 else GramCharge(r, policy)
  }

  lemma {:induction false} FlatStep(
    a: string, b: string, policy: Policy, bs: seq<Block>, given: seq<Range>, work: seq<Range>, more: seq<Block>,
      gone: seq<Range>)
    requires policy.Positive() && LoopState(a, b, policy, bs, given, work) && |work| > 0
    requires IsFlatTurn(a, b, work[|work| - 1], policy, more, gone)
    ensures LoopState(a, b, policy, bs + more, given + gone, work[..|work| - 1])
    ensures Remaining(work[..|work| - 1]) <= Remaining(work)
  {
    if IsEmptyRange(work[|work| - 1]) {
      DropStep(a, b, policy, bs, given, work);
      assert bs + [] == bs;
    } else {
      DirectStep(a, b, policy, bs, given, work, more, gone);
    }
  }

  /** What one turn is charged at most, whatever range it takes. */
  function TurnBound(a: string, b: string, policy: Policy): nat
    requires policy.Positive()
  {
    GramsWithin(a, b, Everything(a, b), policy);
    1 + GramCharge(Everything(a, b), policy) + Looks(|a|, LookBound(a, b))
  }

  /** A budget that refuses no two texts of these lengths for work. */
  function EnoughSteps(a: string, b: string, policy: Policy): nat
    requires policy.Positive()
  {
    Pay(2 * |a| + 1, TurnBound(a, b, policy))
  }

  lemma TurnWithinBound(a: string, b: string, r: Range, policy: Policy)
    requires IsRange(a, b, r) && policy.Positive()
    ensures 1 + GramCharge(r, policy) + DirectCharge(a, b, r, policy) <= TurnBound(a, b, policy)
  {
    DirectChargeBound(a, b, r, policy);
    LooksRise(r.i1 - r.i0, |a|, LookBound(a, b));
    Arithmetic.MultiplyMonotone(r.i1 - r.i0 + r.j1 - r.j0, |a| + |b|, policy.anchorCharacters);
  }

  /** Turns still to take at most: two for each character, one for each range. */
  function TurnsLeft(work: seq<Range>): nat
    requires forall x :: 0 <= x < |work| ==> work[x].i0 <= work[x].i1
  {
    2 * Remaining(work) + |work|
  }

  /** What no turn is charged more than, and what all turns together are not. */
  datatype Limit = Limit(turn: nat, whole: int)

  function Pay(turns: nat, each: nat): nat {
    Arithmetic.ProductWithin(0, turns, each, each);
    turns * each
  }

  ghost predicate IsLimit(a: string, b: string, policy: Policy, limit: Limit)
    requires policy.Positive()
  {
    && limit.whole == Pay(2 * |a| + 1, limit.turn)
    && forall r {:trigger IsWithinTurn(a, b, r, policy, limit)} ::
         IsRange(a, b, r) ==> IsWithinTurn(a, b, r, policy, limit)
  }

  ghost predicate IsWithinTurn(a: string, b: string, r: Range, policy: Policy, limit: Limit)
    requires policy.Positive()
  {
    1 + GramCharge(r, policy) + DirectCharge(a, b, r, policy) <= limit.turn
  }

  /** The bounds in the two lengths are such. */
  lemma BoundsLimit(a: string, b: string, policy: Policy)
    requires policy.Positive()
    ensures IsLimit(a, b, policy, Limit(TurnBound(a, b, policy), EnoughSteps(a, b, policy)))
  {
    forall r | IsRange(a, b, r)
      ensures IsWithinTurn(a, b, r, policy, Limit(TurnBound(a, b, policy), EnoughSteps(a, b, policy)))
    {
      TurnWithinBound(a, b, r, policy);
    }
  }

  /** What was charged leaves enough for the turns still to take. */
  predicate LeavesEnough(work: seq<Range>, limit: Limit, paid: int)
    requires forall x :: 0 <= x < |work| ==> work[x].i0 <= work[x].i1
  {
    paid + Pay(TurnsLeft(work), limit.turn) <= limit.whole
  }

  lemma TurnLeavesEnough(work: seq<Range>, next: seq<Range>, limit: Limit, paid: int, charge: int)
    requires forall x :: 0 <= x < |work| ==> work[x].i0 <= work[x].i1
    requires forall x :: 0 <= x < |next| ==> next[x].i0 <= next[x].i1
    requires LeavesEnough(work, limit, paid) && charge <= limit.turn && TurnsLeft(next) < TurnsLeft(work)
    ensures LeavesEnough(next, limit, paid + charge)
  {
    OneFewer(TurnsLeft(work), TurnsLeft(next), limit.turn);
  }

  /** One turn fewer to pay for. */
  lemma OneFewer(turns: nat, next: nat, each: nat)
    requires next < turns
    ensures Pay(next, each) + each <= Pay(turns, each)
  {
    Arithmetic.MultiplyMonotone(next + 1, turns, each);
  }

  lemma StartsWithEnough(a: string, b: string, policy: Policy, limit: Limit)
    requires policy.Positive() && IsLimit(a, b, policy, limit)
    ensures LeavesEnough([Everything(a, b)], limit, 0)
  {
    var work := [Everything(a, b)];
    assert work[..0] == [] && Remaining(work) == |a|;
    assert TurnsLeft(work) == 2 * |a| + 1;
  }

  /** The charge of one turn, whatever range it takes. */
  lemma OneTurn(a: string, b: string, policy: Policy, work: seq<Range>, limit: Limit, paid: int, charge: int)
    requires policy.Positive() && IsLimit(a, b, policy, limit) && AllRanges(a, b, work) && |work| > 0
    requires LeavesEnough(work, limit, paid)
    requires var r := work[|work| - 1]; charge <= 1 + GramCharge(r, policy) + DirectCharge(a, b, r, policy)
    ensures charge <= limit.turn && paid + charge <= limit.whole
  {
    assert IsWithinTurn(a, b, work[|work| - 1], policy, limit);
    TurnLeavesEnough(work, [], limit, paid, charge);
  }

  /** What the turn on a range came to: its refusal, its anchors, or a range matched as a whole. */
  ghost predicate IsTaken(
    a: string, b: string, r: Range, policy: Policy, taken: Outcome<seq<Block>>, gone: seq<Range>, charge: int)
    requires policy.Positive()
  {
    match taken
    case NotMeasured(WorkBound) => true
    case NotMeasured(SizeBound) =>
      !IsDivided(a, b, r, policy) && !IsEmptyRange(r) && !IsSmall(r, policy) && Pairs(r) > policy.maxAlignmentPairs
    case Measured(more) =>
      if IsDivided(a, b, r, policy)
      then more == AnchorsOf(a, b, r, policy) && gone == [] && charge == 1 + GramCharge(r, policy)
      else
        && IsFlatTurn(a, b, r, policy, more, gone) && charge == FlatCharge(a, b, r, policy)
        && (IsEmptyRange(r) || IsSmall(r, policy) || Pairs(r) <= policy.maxAlignmentPairs)
  }

  /** No turn is charged more than its grams or its own recursion. */
  ghost predicate IsWithin(a: string, b: string, r: Range, policy: Policy, charge: int)
    requires policy.Positive()
  {
    charge <= if IsDivided(a, b, r, policy) then 1 + GramCharge(r, policy) else FlatCharge(a, b, r, policy)
  }

  /** One range off the work list: nothing when it is empty, its direct blocks when it is small or
      has no consistent anchor, and its anchors otherwise. */
  method TakeRange(a: string, b: string, r: Range, policy: Policy, budget: WorkBudget)
    returns (taken: Outcome<seq<Block>>, anchored: bool, ghost gone: seq<Range>)
    requires IsRange(a, b, r) && policy.Positive() && budget.Valid() && budget.left >= 0
    modifies budget
    ensures budget.Valid() && budget.left <= old(budget.left)
    ensures taken == NotMeasured(WorkBound) <==> budget.left < 0
    ensures taken.Measured? ==> (anchored <==> IsDivided(a, b, r, policy))
    ensures IsTaken(a, b, r, policy, taken, gone, budget.charged - old(budget.charged))
    ensures IsWithin(a, b, r, policy, budget.charged - old(budget.charged))
  {
    GramsWithin(a, b, r, policy);
    anchored, gone := false, [];
    var ok := budget.Spend(1);
    if !ok { return NotMeasured(WorkBound), false, []; }
    budget.done := budget.done + 1;
    if r.i0 >= r.i1 || r.j0 >= r.j1 { return Measured([]), false, [r]; }
    taken := FindAnchors(a, b, r, policy, budget);
    if taken.NotMeasured? { return; }
    if taken.value == [] {
      taken, gone := DirectBlocks(a, b, r, policy, budget);
    } else {
      anchored := true;
    }
  }

  /** Where the work list stands: the search is sound and complete, what was found and charged with
      what is left comes to the whole, and the turns left are paid for. */
  ghost predicate IsUnderWay(
    a: string, b: string, policy: Policy, blocks: seq<Block>, given: seq<Range>, work: seq<Range>, paid: int,
    limit: Limit)
    requires policy.Positive()
  {
    && LoopState(a, b, policy, blocks, given, work)
    && Leads(a, b, policy, blocks, paid, work) && LeavesEnough(work, limit, paid)
  }

  lemma UnderWayAtFirst(a: string, b: string, policy: Policy, limit: Limit)
    requires policy.Positive() && IsLimit(a, b, policy, limit)
    ensures IsUnderWay(a, b, policy, [], [], [Everything(a, b)], 0, limit)
  {
    StartState(a, b, policy);
    LeadsAtFirst(a, b, policy);
    StartsWithEnough(a, b, policy, limit);
  }

  /** A turn's charge, within the whole and within the bound on any turn. */
  lemma {:induction false} TurnIsWithin(
    a: string, b: string, policy: Policy, blocks: seq<Block>, given: seq<Range>, work: seq<Range>, paid: int,
    limit: Limit, charge: int)
    requires policy.Positive() && |work| > 0 && IsUnderWay(a, b, policy, blocks, given, work, paid, limit)
    requires IsLimit(a, b, policy, limit)
    requires IsWithin(a, b, work[|work| - 1], policy, charge)
    ensures charge <= limit.turn && paid + charge <= limit.whole
    ensures paid + charge <= CourseOf(a, b, Everything(a, b), policy).charge
  {
    var r := work[|work| - 1];
    GramsWithin(a, b, r, policy);
    OneTurn(a, b, policy, work, limit, paid, charge);
    TurnWithinCourse(a, b, r, policy, charge);
    WithinTheWhole(a, b, policy, blocks, paid, work, charge);
  }

  lemma TurnWithinCourse(a: string, b: string, r: Range, policy: Policy, charge: int)
    requires policy.Positive() && IsRange(a, b, r) && IsWithin(a, b, r, policy, charge)
    ensures charge <= CourseOf(a, b, r, policy).charge
  {
    if IsDivided(a, b, r, policy) {
      DividedCourse(a, b, r, policy);
    } else {
      FlatCourse(a, b, r, policy, [], []);
    }
  }

  /** The range at the end of the work list split at its anchors. */
  lemma {:induction false} SplitTurn(
    a: string, b: string, policy: Policy, blocks: seq<Block>, given: seq<Range>, work: seq<Range>, paid: int,
    limit: Limit)
    requires policy.Positive() && |work| > 0 && IsUnderWay(a, b, policy, blocks, given, work, paid, limit)
    requires IsLimit(a, b, policy, limit)
    requires IsDivided(a, b, work[|work| - 1], policy)
    ensures var r := work[|work| - 1];
            var bs := AnchorsOf(a, b, r, policy);
            var next := work[..|work| - 1] + Gaps(bs, r);
            && AllRanges(a, b, work) && AllRanges(a, b, next) && Remaining(next) < Remaining(work)
            && IsUnderWay(a, b, policy, blocks + bs, given + [], next, paid + 1 + GramCharge(r, policy), limit)
  {
    var r := work[|work| - 1];
    var bs := AnchorsOf(a, b, r, policy);
    assert given + [] == given;
    AnchorsAre(a, b, r, policy);
    AnchorStep(a, b, policy, blocks, given, work, bs);
    LeadsIntoGaps(a, b, policy, blocks, paid, work, bs);
    TurnIsWithin(a, b, policy, blocks, given, work, paid, limit, 1 + GramCharge(r, policy));
    TurnLeavesEnough(work, work[..|work| - 1] + Gaps(bs, r), limit, paid, 1 + GramCharge(r, policy));
  }

  /** The range at the end of the work list matched as a whole. */
  lemma {:induction false} WholeTurn(
    a: string, b: string, policy: Policy, blocks: seq<Block>, given: seq<Range>, work: seq<Range>, paid: int,
    limit: Limit, more: seq<Block>, gone: seq<Range>)
    requires policy.Positive() && |work| > 0 && IsUnderWay(a, b, policy, blocks, given, work, paid, limit)
    requires IsLimit(a, b, policy, limit)
    requires var r := work[|work| - 1];
             && !IsDivided(a, b, r, policy) && IsFlatTurn(a, b, r, policy, more, gone)
             && (IsEmptyRange(r) || IsSmall(r, policy) || Pairs(r) <= policy.maxAlignmentPairs)
    ensures var r, rest := work[|work| - 1], work[..|work| - 1];
            && AllRanges(a, b, work) && AllRanges(a, b, rest) && Remaining(rest) <= Remaining(work)
            && IsUnderWay(a, b, policy, blocks + more, given + gone, rest, paid + FlatCharge(a, b, r, policy), limit)
  {
    var r := work[|work| - 1];
    FlatStep(a, b, policy, blocks, given, work, more, gone);
    FlatCourse(a, b, r, policy, more, gone);
    LeadsPastRange(a, b, policy, blocks, paid, work, more);
    TurnIsWithin(a, b, policy, blocks, given, work, paid, limit, FlatCharge(a, b, r, policy));
    TurnLeavesEnough(work, work[..|work| - 1], limit, paid, FlatCharge(a, b, r, policy));
  }

  /** A range refused for its size is one the recursion does not split. */
  lemma {:induction false} RefusedTurn(
    a: string, b: string, policy: Policy, blocks: seq<Block>, given: seq<Range>, work: seq<Range>, paid: int,
    limit: Limit)
    requires policy.Positive() && |work| > 0 && IsUnderWay(a, b, policy, blocks, given, work, paid, limit)
    requires IsLimit(a, b, policy, limit)
    requires var r := work[|work| - 1];
             !IsDivided(a, b, r, policy) && !IsEmptyRange(r) && !IsSmall(r, policy)
             && Pairs(r) > policy.maxAlignmentPairs
    ensures !CourseOf(a, b, Everything(a, b), policy).splits
  {
    FlatCourse(a, b, work[|work| - 1], policy, [], []);
    WithinTheWhole(a, b, policy, blocks, paid, work, 0);
  }

  /** What a turn leaves: its charge within the whole, and a refusal only where nothing splits. */
  ghost predicate IsTurnOver(
    a: string, b: string, policy: Policy, taken: Outcome<seq<Block>>, paid: int, limit: Limit)
    requires policy.Positive()
  {
    && paid <= limit.whole && paid <= CourseOf(a, b, Everything(a, b), policy).charge
    && (taken == NotMeasured(SizeBound) ==> !CourseOf(a, b, Everything(a, b), policy).splits)
  }

  lemma {:induction false} TurnIsOver(
    a: string, b: string, policy: Policy, blocks: seq<Block>, given: seq<Range>, work: seq<Range>, paid: int,
    limit: Limit, taken: Outcome<seq<Block>>, gone: seq<Range>, charge: int)
    requires policy.Positive() && |work| > 0 && IsUnderWay(a, b, policy, blocks, given, work, paid, limit)
    requires IsLimit(a, b, policy, limit)
    requires IsTaken(a, b, work[|work| - 1], policy, taken, gone, charge)
             && IsWithin(a, b, work[|work| - 1], policy, charge)
    ensures IsTurnOver(a, b, policy, taken, paid + charge, limit)
  {
    TurnIsWithin(a, b, policy, blocks, given, work, paid, limit, charge);
    if taken == NotMeasured(SizeBound) { RefusedTurn(a, b, policy, blocks, given, work, paid, limit); }
  }

  /** One turn: the last range off the work list, and its gaps on it when it is split. */
  method NextTurn(
      a: string, b: string, policy: Policy, ghost blocks: seq<Block>, ghost given: seq<Range>, work: seq<Range>,
      ghost paid: int, ghost limit: Limit, budget: WorkBudget)
    returns (taken: Outcome<seq<Block>>, next: seq<Range>, ghost gone: seq<Range>, ghost charge: int)
    requires policy.Positive() && |work| > 0 && IsUnderWay(a, b, policy, blocks, given, work, paid, limit)
    requires IsLimit(a, b, policy, limit)
    requires budget.Valid() && budget.left >= 0
    modifies budget
    ensures budget.Valid() && budget.left <= old(budget.left)
    ensures taken == NotMeasured(WorkBound) <==> budget.left < 0
    ensures charge == budget.charged - old(budget.charged)
    ensures IsTurnOver(a, b, policy, taken, paid + charge, limit)
    ensures taken.Measured? ==>
              GoesOn(a, b, policy, blocks + taken.value, given + gone, work,
                paid + charge, limit, next)
  {
    var r, anchored := work[|work| - 1], false;
    taken, anchored, gone := TakeRange(a, b, r, policy, budget);
    next := work[..|work| - 1];
    if taken.Measured? && anchored { next := next + Gaps(taken.value, r); }
    charge := budget.charged - old(budget.charged);
    TurnIsOver(a, b, policy, blocks, given, work, paid, limit, taken, gone, charge);
    if taken.Measured? { TurnGoesOn(a, b, policy, blocks, given, work, paid, limit, taken.value, gone, charge, next); }
  }

  /** The work list goes on from what a turn took. */
  ghost predicate GoesOn(
    a: string, b: string, policy: Policy, blocks: seq<Block>, given: seq<Range>, work: seq<Range>, paid: int,
    limit: Limit, next: seq<Range>)
    requires policy.Positive()
  {
    && IsUnderWay(a, b, policy, blocks, given, next, paid, limit) && AllRanges(a, b, work) && AllRanges(a, b, next)
    && (Remaining(next) < Remaining(work) || (Remaining(next) <= Remaining(work) && |next| < |work|))
  }

  lemma {:induction false} TurnGoesOn(
    a: string, b: string, policy: Policy, blocks: seq<Block>, given: seq<Range>, work: seq<Range>, paid: int,
    limit: Limit, more: seq<Block>, gone: seq<Range>, charge: int, next: seq<Range>)
    requires policy.Positive() && |work| > 0 && IsUnderWay(a, b, policy, blocks, given, work, paid, limit)
    requires IsLimit(a, b, policy, limit) && IsTaken(a, b, work[|work| - 1], policy, Measured(more), gone, charge)
    requires var r, rest := work[|work| - 1], work[..|work| - 1];
             next == if IsDivided(a, b, r, policy) then rest + Gaps(more, r) else rest
    ensures GoesOn(a, b, policy, blocks + more, given + gone, work, paid + charge, limit, next)
  {
    if IsDivided(a, b, work[|work| - 1], policy) {
      SplitTurn(a, b, policy, blocks, given, work, paid, limit);
    } else {
      WholeTurn(a, b, policy, blocks, given, work, paid, limit, more, gone);
    }
  }

  /** The work list from the whole of both texts until nothing is left on it. */
  method MatchAll(a: string, b: string, policy: Policy, budget: WorkBudget, ghost limit: Limit)
    returns (found: Outcome<seq<Block>>, ghost given: seq<Range>)
    requires policy.Positive() && budget.Valid() && budget.left >= 0 && IsLimit(a, b, policy, limit)
    modifies budget
    ensures budget.Valid() && budget.left <= old(budget.left)
    ensures found == NotMeasured(WorkBound) <==> budget.left < 0
    ensures found == NotMeasured(SizeBound) ==> !CourseOf(a, b, Everything(a, b), policy).splits
    ensures found.Measured? ==>
              IsUnderWay(a, b, policy, found.value, given, [], budget.charged - old(budget.charged), limit)
    ensures budget.charged - old(budget.charged) <= limit.whole
    ensures budget.charged - old(budget.charged) <= CourseOf(a, b, Everything(a, b), policy).charge
  {
    var blocks: seq<Block> := [];
    var work := [Range(0, |a|, 0, |b|)];
    given := [];
    UnderWayAtFirst(a, b, policy, limit);
    while |work| > 0
      invariant budget.Valid() && 0 <= budget.left <= old(budget.left)
      invariant IsUnderWay(a, b, policy, blocks, given, work, budget.charged - old(budget.charged), limit)
      decreases Remaining(work), |work|
    {
      var taken, next, gone, charge :=
        NextTurn(a, b, policy, blocks, given, work, budget.charged - old(budget.charged), limit, budget);
      if taken.NotMeasured? { return taken, given; }
      blocks, given, work := blocks + taken.value, given + gone, next;
    }
    ListIsEmpty(a, b, policy, blocks, given, work, budget.charged - old(budget.charged), limit);
    found := Measured(blocks);
  }

  lemma ListIsEmpty(
    a: string, b: string, policy: Policy, blocks: seq<Block>, given: seq<Range>, work: seq<Range>, paid: int,
    limit: Limit)
    requires policy.Positive() && IsUnderWay(a, b, policy, blocks, given, work, paid, limit) && |work| == 0
    ensures IsUnderWay(a, b, policy, blocks, given, [], paid, limit)
    ensures paid <= limit.whole && paid <= CourseOf(a, b, Everything(a, b), policy).charge
  {
    assert work == [];
    NothingLeft(a, b, policy, blocks, given, paid, limit);
  }

  /** With nothing left on the work list all that the texts come to is found and charged. */
  lemma NothingLeft(
    a: string, b: string, policy: Policy, blocks: seq<Block>, given: seq<Range>, paid: int, limit: Limit)
    requires policy.Positive() && IsUnderWay(a, b, policy, blocks, given, [], paid, limit)
    ensures paid >= 0 && CourseOf(a, b, Everything(a, b), policy) == Course(multiset(blocks), paid, true)
  {
    LeadsToTheEnd(a, b, policy, blocks, paid);
  }

  /** Ordered, non-overlapping matching blocks of two texts, or why there are none: texts too long, a
      large range nothing splits, or too little work left. */
  method MatchingBlocks(a: string, b: string, policy: Policy, budget: WorkBudget) returns (found: Outcome<seq<Block>>)
    requires policy.Positive() && budget.Valid() && budget.left >= 0
    modifies budget
    ensures budget.Valid() && budget.left <= old(budget.left)
    ensures found.Measured? ==> IsAlignment(a, b, policy, found.value)
    ensures IsMeasuredWhenDue(a, b, policy, found, old(budget.left), budget.left)
  {
    if |a| > policy.maxCharacters || |b| > policy.maxCharacters { return NotMeasured(SizeBound); }
    ghost var given;
    ghost var limit := Limit(TurnBound(a, b, policy), EnoughSteps(a, b, policy));
    BoundsLimit(a, b, policy);
    found, given := MatchAll(a, b, policy, budget, limit);
    if found.Measured? {
      NothingLeft(a, b, policy, found.value, given, budget.charged - old(budget.charged), limit);
    }
    MatchIsDue(found, CourseOf(a, b, Everything(a, b), policy), EnoughSteps(a, b, policy), old(budget.left),
      budget.left);
    if found.NotMeasured? { return; }
    var sorted := Sorting.Sort(found.value, BlockLeq);
    Finished(a, b, policy, found.value, given, sorted, budget.charged - old(budget.charged), limit);
    found := Measured(sorted);
  }

  /** When matching that comes to `course` is measured, and which bound refuses it, by the work left
      before and after. */
  predicate IsDue<T>(found: Outcome<T>, tooLong: bool, course: Course, enough: int, before: int, after: int) {
    && (found.Measured? <==> !tooLong && course.splits && before >= course.charge)
    && (found == NotMeasured(WorkBound) <==> after < 0)
    && (tooLong ==> found == NotMeasured(SizeBound))
    && (found == NotMeasured(SizeBound) ==> tooLong || !course.splits)
    && (before >= enough ==> found != NotMeasured(WorkBound))
    && (found.Measured? ==> before - after == course.charge)
  }

  /** An alignment is measured exactly when neither text is too long, every large range that matching
      comes to is split, and the budget covers what the recursion over the texts is charged. */
  ghost predicate IsMeasuredWhenDue<T>(
    a: string, b: string, policy: Policy, found: Outcome<T>, before: int, after: int)
    requires policy.Positive()
  {
    IsDue(found, |a| > policy.maxCharacters || |b| > policy.maxCharacters, CourseOf(a, b, Everything(a, b), policy),
      EnoughSteps(a, b, policy), before, after)
  }

  lemma MatchIsDue(found: Outcome<seq<Block>>, course: Course, enough: int, before: int, after: int)
    requires found == NotMeasured(WorkBound) <==> after < 0
    requires found == NotMeasured(SizeBound) ==> !course.splits
    requires before - after <= course.charge && before - after <= enough
    requires found.Measured? ==> course.splits && before - after == course.charge
    ensures IsDue(found, false, course, enough, before, after)
  {
    match found {
    case Measured(_) =>
    case NotMeasured(reason) => assert reason == SizeBound || reason == WorkBound;
    }
  }

  lemma {:induction false} Finished(
      a: string, b: string, policy: Policy, blocks: seq<Block>, given: seq<Range>, sorted: seq<Block>, paid: int,
      limit: Limit)
    requires policy.Positive() && IsUnderWay(a, b, policy, blocks, given, [], paid, limit)
    requires multiset(sorted) == multiset(blocks) && Sorting.IsSorted(sorted, BlockLeq)
    ensures IsAlignment(a, b, policy, sorted)
  {
    NothingLeft(a, b, policy, blocks, given, paid, limit);
    SortAscends(a, b, blocks, sorted);
    Sorting.SameElements(sorted, blocks);
    forall x | 0 <= x <= |sorted|
      ensures IsExhausted(a, b, Gap(sorted, Everything(a, b), x), policy)
    {
      GapIsGiven(a, b, policy, blocks, given, sorted, x);
    }
    if a == b {
      forall x | 0 <= x < |sorted|
        ensures sorted[x].i == sorted[x].j
      {
        assert sorted[x] in blocks;
      }
      forall x | 0 <= x <= |sorted|
        ensures var g := Gap(sorted, Everything(a, b), x); g.i1 - g.i0 < policy.minBlockCharacters
      {
        GapIsShort(a, sorted, policy, x);
      }
    }
    if IsDirect(a, b, policy) {
      SmallFinish(a, b, policy, blocks, sorted);
    }
  }

  lemma {:induction false} SmallFinish(a: string, b: string, policy: Policy, blocks: seq<Block>, sorted: seq<Block>)
    requires policy.Positive() && DirectTurn(a, b, policy, blocks, []) && multiset(sorted) == multiset(blocks)
    ensures AllAtLeast(sorted, policy.minBlockCharacters)
    ensures multiset(sorted) == multiset(Direct(a, b, Everything(a, b), policy))
    ensures a == b ==> SelfAligned(sorted, [], Everything(a, b), policy.minBlockCharacters)
  {
    Sorting.SameElements(sorted, blocks);
    forall x | 0 <= x < |sorted|
      ensures sorted[x].size >= policy.minBlockCharacters
    {
      assert sorted[x] in blocks;
    }
    if |blocks| <= 1 { assert |sorted| == |multiset(sorted)| == |multiset(blocks)| == |blocks|; }
  }
}
