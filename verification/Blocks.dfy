/** Blocks that never overlap or cross, kept through work lists that split ranges. */
module Blocks {
  import opened Arithmetic
  import opened Alignment

  predicate Before(r: Range, s: Range) {
    r.i1 <= s.i0 && r.j1 <= s.j0
  }

  /** One of the two lies wholly before the other, on both texts. */
  predicate Apart(r: Range, s: Range) {
    Before(r, s) || Before(s, r)
  }

  lemma ApartInside(r: Range, s: Range, r': Range, s': Range)
    requires Apart(r, s) && Inside(r', r) && Inside(s', s)
    ensures Apart(r', s')
  {
  }

  ghost predicate ApartBlocks(bs: seq<Block>) {
    forall x, y {:trigger Apart(BlockRange(bs[x]), BlockRange(bs[y]))} ::
      0 <= x < y < |bs| ==> Apart(BlockRange(bs[x]), BlockRange(bs[y]))
  }

  ghost predicate ApartRanges(rs: seq<Range>) {
    forall x, y {:trigger Apart(rs[x], rs[y])} :: 0 <= x < y < |rs| ==> Apart(rs[x], rs[y])
  }

  ghost predicate ApartFrom(bs: seq<Block>, rs: seq<Range>) {
    forall x, y {:trigger Apart(BlockRange(bs[x]), rs[y])} ::
      0 <= x < |bs| && 0 <= y < |rs| ==> Apart(BlockRange(bs[x]), rs[y])
  }

  /** Blocks found and ranges still to search: nothing overlaps or crosses anything. */
  ghost predicate IsSplit(bs: seq<Block>, work: seq<Range>) {
    ApartBlocks(bs) && ApartRanges(work) && ApartFrom(bs, work)
  }

  ghost predicate AllInside(bs: seq<Block>, rs: seq<Range>, outer: Range) {
    && (forall x :: 0 <= x < |bs| ==> Inside(BlockRange(bs[x]), outer))
    && (forall x :: 0 <= x < |rs| ==> Inside(rs[x], outer))
  }

  ghost predicate AllRuns(a: string, b: string, bs: seq<Block>) {
    forall x :: 0 <= x < |bs| ==> bs[x].size > 0 && IsRun(a, b, bs[x])
  }

  /** Replacing the last range by a split of it keeps everything apart. */
  lemma {:induction false} SplitLast(bs: seq<Block>, work: seq<Range>, more: seq<Block>, parts: seq<Range>)
    requires |work| > 0 && IsSplit(bs, work)
    requires IsSplit(more, parts) && AllInside(more, parts, work[|work| - 1])
    requires forall x :: 0 <= x < |bs| ==> bs[x].size >= 0
    requires forall x :: 0 <= x < |work| ==> work[x].i0 <= work[x].i1 && work[x].j0 <= work[x].j1
    ensures IsSplit(bs + more, work[..|work| - 1] + parts)
  {
    var n := |work| - 1;
    var r := work[n];
    var bs', work' := bs + more, work[..n] + parts;
    forall x, y | 0 <= x < y < |bs'|
      ensures Apart(BlockRange(bs'[x]), BlockRange(bs'[y]))
    {
      if y < |bs| {
        assert Apart(BlockRange(bs[x]), BlockRange(bs[y]));
      } else if |bs| <= x {
        assert Apart(BlockRange(more[x - |bs|]), BlockRange(more[y - |bs|]));
      } else {
        assert Apart(BlockRange(bs[x]), work[n]);
        ApartInside(BlockRange(bs[x]), r, BlockRange(bs[x]), BlockRange(more[y - |bs|]));
      }
    }
    forall x, y | 0 <= x < y < |work'|
      ensures Apart(work'[x], work'[y])
    {
      if y < n {
        assert Apart(work[x], work[y]);
      } else if n <= x {
        assert Apart(parts[x - n], parts[y - n]);
      } else {
        assert Apart(work[x], work[n]);
        ApartInside(work[x], r, work[x], parts[y - n]);
      }
    }
    forall x, y | 0 <= x < |bs'| && 0 <= y < |work'|
      ensures Apart(BlockRange(bs'[x]), work'[y])
    {
      if x < |bs| && y < n {
        assert Apart(BlockRange(bs[x]), work[y]);
      } else if x < |bs| {
        assert Apart(BlockRange(bs[x]), work[n]);
        ApartInside(BlockRange(bs[x]), r, BlockRange(bs[x]), parts[y - n]);
      } else if y < n {
        assert Apart(work[y], work[n]);
        ApartInside(work[y], r, work[y], BlockRange(more[x - |bs|]));
      } else {
        assert Apart(BlockRange(more[x - |bs|]), parts[y - n]);
      }
    }
  }

  // --- the measure both work lists go down by -------------------------------------------

  /** Witness characters still in ranges to search. */
  function Remaining(work: seq<Range>): (n: nat)
    requires forall x :: 0 <= x < |work| ==> work[x].i0 <= work[x].i1
  {
    if |work| == 0 then 0
    else Remaining(work[..|work| - 1]) + work[|work| - 1].i1 - work[|work| - 1].i0
  }

  lemma {:induction false} RemainingConcat(work: seq<Range>, more: seq<Range>)
    requires forall x :: 0 <= x < |work| ==> work[x].i0 <= work[x].i1
    requires forall x :: 0 <= x < |more| ==> more[x].i0 <= more[x].i1
    ensures Remaining(work + more) == Remaining(work) + Remaining(more)
    decreases |more|
  {
    if |more| == 0 {
      assert work + more == work;
    } else {
      var n := |more| - 1;
      RemainingConcat(work, more[..n]);
      assert (work + more)[..|work + more| - 1] == work + more[..n];
    }
  }

  // --- the policy ----------------------------------------------------------------------------

  datatype Policy = Policy(
    maxUnreadCharacters: int,
    minBlockCharacters: int,
    anchorCharacters: int,
    anchorNeighbours: int,
    anchorOffsetTolerance: int,
    bandSlack: int,
    directAlignmentMaxPairs: int,
    maxAlignmentPairs: int,
    maxCharacters: int)
  {
    predicate Positive() {
      && maxUnreadCharacters > 0 && minBlockCharacters > 0 && anchorCharacters > 0 && anchorNeighbours > 0
      && anchorOffsetTolerance > 0 && bandSlack > 0 && directAlignmentMaxPairs > 0 && maxAlignmentPairs > 0
      && maxCharacters > 0
    }
  }

  // --- direct alignment ------------------------------------------------------------------------

  /** The same stretch of both texts. */
  predicate IsSquare(r: Range) {
    r.i0 == r.j0 && r.i1 == r.j1
  }

  ghost predicate IsEmptyRange(r: Range) {
    r.i0 >= r.i1 || r.j0 >= r.j1
  }

  /** What direct alignment of a text against itself has found so far. */
  ghost predicate SelfAligned(blocks: seq<Block>, work: seq<Range>, r: Range, minBlock: int) {
    || (blocks == [] && work == [r])
    || (&& (blocks == if r.i1 - r.i0 >= minBlock then [Block(r.i0, r.j0, r.i1 - r.i0)] else [])
        && forall x :: 0 <= x < |work| ==> IsEmptyRange(work[x]))
  }

  // --- one search: blocks found, ranges given up, ranges still to look at ---------------------------

  /** The diagonals a range's direct search keeps to. */
  function BandLow(r: Range, policy: Policy): int {
    Min(r.i0 - r.j0, r.i1 - r.j1) - policy.bandSlack
  }

  function BandHigh(r: Range, policy: Policy): int {
    Max(r.i0 - r.j0, r.i1 - r.j1) + policy.bandSlack
  }

  /** A diagonal lies between those of the range's two corners. */
  predicate IsBetweenCorners(r: Range, d: int) {
    r.i0 - r.j0 <= d <= r.i1 - r.j1 || r.i1 - r.j1 <= d <= r.i0 - r.j0
  }

  /** The band is the diagonals within the slack of one between the corners. */
  lemma BandIs(r: Range, policy: Policy, d: int)
    requires policy.Positive()
    ensures BandLow(r, policy) <= d <= BandHigh(r, policy)
       <==> exists c :: IsBetweenCorners(r, c) && -policy.bandSlack <= d - c <= policy.bandSlack
  {
    var low, high := BandLow(r, policy) + policy.bandSlack, BandHigh(r, policy) - policy.bandSlack;
    if BandLow(r, policy) <= d <= BandHigh(r, policy) {
      var c := if d < low then low else if d > high then high else d;
      assert IsBetweenCorners(r, c) && -policy.bandSlack <= d - c <= policy.bandSlack;
    }
  }

  /** Nothing is left to find in the range: it is empty, or no run in its band has the minimum
      length. */
  ghost predicate IsExhausted(a: string, b: string, r: Range, policy: Policy) {
    || IsEmptyRange(r)
    || forall n :: IsRunIn(a, b, r, BandLow(r, policy), BandHigh(r, policy), n) ==> n.size < policy.minBlockCharacters
  }

  ghost predicate AllExhausted(a: string, b: string, given: seq<Range>, policy: Policy) {
    forall g :: g in given ==> IsExhausted(a, b, g, policy)
  }

  ghost predicate EndsAt(bs: seq<Block>, i: int, j: int) {
    exists m :: m in bs && m.i + m.size == i && m.j + m.size == j
  }

  ghost predicate StartsAt(bs: seq<Block>, i: int, j: int) {
    exists m :: m in bs && m.i == i && m.j == j
  }

  /** Each corner of `g` is a corner of the outer range or of a block. */
  ghost predicate IsBounded(bs: seq<Block>, outer: Range, g: Range) {
    && ((g.i0 == outer.i0 && g.j0 == outer.j0) || EndsAt(bs, g.i0, g.j0))
    && ((g.i1 == outer.i1 && g.j1 == outer.j1) || StartsAt(bs, g.i1, g.j1))
  }

  ghost predicate InBlock(bs: seq<Block>, p: int) {
    exists m :: m in bs && m.i <= p < m.i + m.size
  }

  ghost predicate InRange(rs: seq<Range>, p: int) {
    exists g :: g in rs && g.i0 <= p < g.i1
  }

  /** Every position of the outer range is in a block or in a range that reaches from block to
      block. */
  ghost predicate Covers(bs: seq<Block>, rs: seq<Range>, outer: Range) {
    && (forall g :: g in rs ==> IsBounded(bs, outer, g))
    && forall p :: outer.i0 <= p < outer.i1 ==> InBlock(bs, p) || InRange(rs, p)
  }

  ghost predicate ClearOf(bs: seq<Block>, rs: seq<Range>) {
    forall m, g {:trigger Apart(BlockRange(m), g)} :: m in bs && g in rs ==> Apart(BlockRange(m), g)
  }

  ghost predicate CrossApart(rs: seq<Range>, work: seq<Range>) {
    forall g, w {:trigger Apart(g, w)} :: g in rs && w in work ==> Apart(g, w)
  }

  /** Genuine blocks of the outer range, apart from one another and from every range; the ranges
      given up are exhausted; and blocks and ranges leave nothing out. */
  ghost predicate SearchState(
    a: string, b: string, outer: Range, policy: Policy, bs: seq<Block>, given: seq<Range>, work: seq<Range>)
  {
    && IsSplit(bs, work) && AllInside(bs, given + work, outer) && AllRuns(a, b, bs)
    && ClearOf(bs, given) && CrossApart(given, work)
    && Covers(bs, given + work, outer) && AllExhausted(a, b, given, policy)
  }

  /** What one turn makes of a range: blocks, ranges given up, and ranges to look at later. */
  ghost predicate IsTurn(
    a: string, b: string, r: Range, policy: Policy, more: seq<Block>, gone: seq<Range>, parts: seq<Range>)
  {
    SearchState(a, b, r, policy, more, gone, parts)
  }

  lemma {:induction false} CoverTurn(
    bs: seq<Block>, given: seq<Range>, work: seq<Range>, outer: Range, more: seq<Block>, gone: seq<Range>,
      parts: seq<Range>)
    requires |work| > 0 && Covers(bs, given + work, outer) && Covers(more, gone + parts, work[|work| - 1])
    ensures Covers(bs + more, (given + gone) + (work[..|work| - 1] + parts), outer)
  {
    var n := |work| - 1;
    var r := work[n];
    var all, all' := given + work, (given + gone) + (work[..n] + parts);
    assert work == work[..n] + [r];
    assert forall g :: g in all ==> g == r || g in all';
    forall g | g in all'
      ensures IsBounded(bs + more, outer, g)
    {
      BoundedStill(bs, more, outer, r, g);
    }
    forall p | outer.i0 <= p < outer.i1
      ensures InBlock(bs + more, p) || InRange(all', p)
    {
      if InBlock(bs, p) {
        var m :| m in bs && m.i <= p < m.i + m.size;
        assert m in bs + more;
      } else {
        var g :| g in all && g.i0 <= p < g.i1;
        if g == r {
          InTurn(more, gone, parts, r, p);
          if InBlock(more, p) {
            var m :| m in more && m.i <= p < m.i + m.size;
            assert m in bs + more;
          } else {
            var h :| h in gone + parts && h.i0 <= p < h.i1;
            assert h in all';
          }
        }
      }
    }
  }

  lemma InTurn(more: seq<Block>, gone: seq<Range>, parts: seq<Range>, r: Range, p: int)
    requires Covers(more, gone + parts, r) && r.i0 <= p < r.i1
    ensures InBlock(more, p) || InRange(gone + parts, p)
  {
  }

  /** A range bounded inside a range that is bounded, or bounded already. */
  lemma {:induction false} BoundedStill(bs: seq<Block>, more: seq<Block>, outer: Range, r: Range, g: Range)
    requires IsBounded(bs, outer, g) || (IsBounded(bs, outer, r) && IsBounded(more, r, g))
    ensures IsBounded(bs + more, outer, g)
  {
    EndsStill(bs, more, g.i0, g.j0);
    EndsStill(bs, more, g.i1, g.j1);
  }

  lemma EndsStill(bs: seq<Block>, more: seq<Block>, i: int, j: int)
    ensures EndsAt(bs, i, j) || EndsAt(more, i, j) ==> EndsAt(bs + more, i, j)
    ensures StartsAt(bs, i, j) || StartsAt(more, i, j) ==> StartsAt(bs + more, i, j)
  {
    if m :| m in bs && m.i + m.size == i && m.j + m.size == j { assert m in bs + more; }
    if m :| m in more && m.i + m.size == i && m.j + m.size == j { assert m in bs + more; }
    if m :| m in bs && m.i == i && m.j == j { assert m in bs + more; }
    if m :| m in more && m.i == i && m.j == j { assert m in bs + more; }
  }

  lemma {:induction false} ApartTurn(
    bs: seq<Block>, given: seq<Range>, work: seq<Range>, more: seq<Block>, gone: seq<Range>, parts: seq<Range>)
    requires |work| > 0 && IsSplit(bs, work) && ClearOf(bs, given) && CrossApart(given, work)
    requires AllInside(more, gone + parts, work[|work| - 1]) && ClearOf(more, gone) && CrossApart(gone, parts)
    requires AllForward(bs, given + work)
    ensures ClearOf(bs + more, given + gone) && CrossApart(given + gone, work[..|work| - 1] + parts)
  {
    var n := |work| - 1;
    var r := work[n];
    forall m, g | m in bs + more && g in given + gone
      ensures Apart(BlockRange(m), g)
    {
      if m in bs && g in given {
        assert Apart(BlockRange(m), g);
      } else if m in bs {
        SplitApart(bs, work, m, r);
        GoneInside(more, gone, parts, r, g);
        ApartInside(BlockRange(m), r, BlockRange(m), g);
      } else if g in given {
        assert Apart(g, r);
        MoreInside(more, gone, parts, r, m);
        ApartInside(g, r, g, BlockRange(m));
      } else {
        assert Apart(BlockRange(m), g);
      }
    }
    forall g, w | g in given + gone && w in work[..n] + parts
      ensures Apart(g, w)
    {
      if g in given && w in work[..n] {
        assert Apart(g, w);
      } else if g in given {
        assert Apart(g, r);
        GoneInside(more, gone, parts, r, w);
        ApartInside(g, r, g, w);
      } else if w in work[..n] {
        GoneInside(more, gone, parts, r, g);
        RestApart(work, w);
        ApartInside(w, r, w, g);
      } else {
        assert Apart(g, w);
      }
    }
  }

  /** Ranges and blocks run forwards. */
  ghost predicate AllForward(bs: seq<Block>, rs: seq<Range>) {
    && (forall m :: m in bs ==> m.size >= 0)
    && forall g :: g in rs ==> g.i0 <= g.i1 && g.j0 <= g.j1
  }

  lemma SplitApart(bs: seq<Block>, work: seq<Range>, m: Block, r: Range)
    requires IsSplit(bs, work) && m in bs && r in work
    ensures Apart(BlockRange(m), r)
  {
    var x :| 0 <= x < |bs| && bs[x] == m;
    var y :| 0 <= y < |work| && work[y] == r;
    assert Apart(BlockRange(bs[x]), work[y]);
  }

  lemma RestApart(work: seq<Range>, w: Range)
    requires ApartRanges(work) && |work| > 0 && w in work[..|work| - 1]
    ensures Apart(w, work[|work| - 1])
  {
    var y :| 0 <= y < |work| - 1 && work[y] == w;
    assert Apart(work[y], work[|work| - 1]);
  }

  lemma GoneInside(more: seq<Block>, gone: seq<Range>, parts: seq<Range>, r: Range, g: Range)
    requires AllInside(more, gone + parts, r) && (g in gone || g in parts)
    ensures Inside(g, r)
  {
    assert g in gone + parts;
    var x :| 0 <= x < |gone + parts| && (gone + parts)[x] == g;
  }

  lemma MoreInside(more: seq<Block>, gone: seq<Range>, parts: seq<Range>, r: Range, m: Block)
    requires AllInside(more, gone + parts, r) && m in more
    ensures Inside(BlockRange(m), r)
  {
    var x :| 0 <= x < |more| && more[x] == m;
  }

  lemma {:induction false} InsideTurn(
    outer: Range, bs: seq<Block>, given: seq<Range>, work: seq<Range>, more: seq<Block>, gone: seq<Range>,
      parts: seq<Range>)
    requires |work| > 0 && AllInside(bs, given + work, outer) && AllInside(more, gone + parts, work[|work| - 1])
    ensures AllInside(bs + more, (given + gone) + (work[..|work| - 1] + parts), outer)
  {
    var r := work[|work| - 1];
    GoneInside(bs, given, work, outer, r);
    var all := (given + gone) + (work[..|work| - 1] + parts);
    forall x | 0 <= x < |all|
      ensures Inside(all[x], outer)
    {
      var g := all[x];
      assert g in given || g in work || g in gone || g in parts;
      if g in given || g in work { GoneInside(bs, given, work, outer, g); }
         else { GoneInside(more, gone, parts, r, g); }
    }
    forall x | 0 <= x < |bs + more|
      ensures Inside(BlockRange((bs + more)[x]), outer)
    {
      if x >= |bs| { MoreInside(more, gone, parts, r, (bs + more)[x]); }
    }
  }

  /** One turn on the last range keeps the search: what the turn found is added, what it gave up
      stays given up, and its parts are looked at next. */
  lemma {:induction false} SearchTurn(
    a: string, b: string, outer: Range, policy: Policy, bs: seq<Block>, given: seq<Range>, work: seq<Range>,
    more: seq<Block>, gone: seq<Range>, parts: seq<Range>)
    requires |work| > 0 && SearchState(a, b, outer, policy, bs, given, work)
    requires IsTurn(a, b, work[|work| - 1], policy, more, gone, parts)
    requires AllForward(bs, given + work)
    ensures SearchState(a, b, outer, policy, bs + more, given + gone, work[..|work| - 1] + parts)
  {
    CoverTurn(bs, given, work, outer, more, gone, parts);
    InsideTurn(outer, bs, given, work, more, gone, parts);
    ApartTurn(bs, given, work, more, gone, parts);
    PartsInside(more, gone, parts, work[|work| - 1]);
    SplitLast(bs, work, more, parts);
  }

  lemma PartsInside(more: seq<Block>, gone: seq<Range>, parts: seq<Range>, r: Range)
    requires AllInside(more, gone + parts, r)
    ensures AllInside(more, parts, r)
  {
    forall x | 0 <= x < |parts|
      ensures Inside(parts[x], r)
    {
      GoneInside(more, gone, parts, r, parts[x]);
    }
  }

  lemma Forward(
    a: string, b: string, outer: Range, policy: Policy, bs: seq<Block>, given: seq<Range>, work: seq<Range>)
    requires SearchState(a, b, outer, policy, bs, given, work)
    ensures AllForward(bs, given + work)
    ensures forall x :: 0 <= x < |work| ==> Inside(work[x], outer)
  {
    forall x | 0 <= x < |work|
      ensures Inside(work[x], outer)
    {
      assert work[x] == (given + work)[|given| + x];
    }
  }

  // --- the turns ------------------------------------------------------------------------------------

  /** Giving up an exhausted range. */
  lemma {:induction false} GiveUpTurn(a: string, b: string, r: Range, policy: Policy)
    requires IsRange(a, b, r) && IsExhausted(a, b, r, policy)
    ensures IsTurn(a, b, r, policy, [], [r], [])
  {
    assert [r] + [] == [r];
    forall p | r.i0 <= p < r.i1
      ensures InRange([r], p)
    {
      assert r in [r];
    }
  }

  lemma {:induction false} BisectCovers(r: Range, m: Block)
    requires m.size > 0 && Inside(BlockRange(m), r)
    ensures Covers([m], Halves(r, m), r)
  {
    var left, right := Halves(r, m)[0], Halves(r, m)[1];
    var parts := [left, right];
    forall p | r.i0 <= p < r.i1
      ensures InBlock([m], p) || InRange(parts, p)
    {
      assert m in [m] && left in parts && right in parts;
      assert p < m.i ==> left.i0 <= p < left.i1;
      assert m.i + m.size <= p ==> right.i0 <= p < right.i1;
    }
    assert m in [m];
    assert EndsAt([m], right.i0, right.j0) && StartsAt([m], left.i1, left.j1);
  }

  lemma BisectSplit(r: Range, m: Block)
    requires m.size > 0 && Inside(BlockRange(m), r)
    ensures IsSplit([m], Halves(r, m)) && AllInside([m], Halves(r, m), r)
  {
    var left, right := Halves(r, m)[0], Halves(r, m)[1];
    assert Apart(left, right) && Apart(BlockRange(m), left) && Apart(BlockRange(m), right);
  }

  /** The block found and the ranges either side of it. */
  lemma {:induction false} BisectTurn(a: string, b: string, r: Range, policy: Policy, m: Block)
    requires IsRange(a, b, r) && m.size > 0 && IsRun(a, b, m) && Inside(BlockRange(m), r)
    ensures IsTurn(a, b, r, policy, [m], [], Halves(r, m))
  {
    BisectCovers(r, m);
    BisectSplit(r, m);
    assert [] + Halves(r, m) == Halves(r, m);
  }

  function Halves(r: Range, m: Block): seq<Range> {
    [Range(r.i0, m.i, r.j0, m.j), Range(m.i + m.size, r.i1, m.j + m.size, r.j1)]
  }

  lemma {:induction false} HalvesShrink(work: seq<Range>, m: Block)
    requires |work| > 0 && m.size > 0 && Inside(BlockRange(m), work[|work| - 1])
    requires forall x :: 0 <= x < |work| ==> work[x].i0 <= work[x].i1
    ensures Remaining(work[..|work| - 1] + Halves(work[|work| - 1], m)) < Remaining(work)
  {
    var r := work[|work| - 1];
    var parts := Halves(r, m);
    RemainingConcat(work[..|work| - 1], parts);
    assert parts[..1] == [parts[0]] && [parts[0]][..0] == [];
    assert Remaining(parts) == Remaining([parts[0]]) + parts[1].i1 - parts[1].i0;
  }

  /** The whole of a square range of a text against itself is its longest run. */
  lemma {:induction false} WholeIsLongest(a: string, r: Range, low: int, high: int, m: Block)
    requires IsRange(a, a, r) && IsSquare(r) && low <= 0 <= high && !IsEmptyRange(r)
    requires m.size > 0 ==> IsRunIn(a, a, r, low, high, m)
    requires forall n :: IsRunIn(a, a, r, low, high, n) ==> n.size <= m.size
    ensures m == Block(r.i0, r.j0, r.i1 - r.i0)
  {
    assert IsRunIn(a, a, r, low, high, Block(r.i0, r.j0, r.i1 - r.i0));
  }

  // --- the search as a recursion -------------------------------------------------------------------------

  /** The run that answers the search of a range's own band. */
  ghost function BandAnswer(a: string, b: string, r: Range, policy: Policy): Block {
    if exists m :: AnswersBand(a, b, r, BandLow(r, policy), BandHigh(r, policy), m) then
      var m :| AnswersBand(a, b, r, BandLow(r, policy), BandHigh(r, policy), m);
      m
    else Block(r.i0, r.j0, 0)
  }

  /** Direct matching by its definition: the longest run of the range, if it is long enough, and
      the same on either side of it. */
  ghost function Direct(a: string, b: string, r: Range, policy: Policy): seq<Block>
    requires policy.Positive()
    decreases r.i1 - r.i0
  {
    var m := BandAnswer(a, b, r, policy);
    if IsEmptyRange(r) || m.size < policy.minBlockCharacters || !Inside(BlockRange(m), r) then []
    else Direct(a, b, Halves(r, m)[0], policy) + [m] + Direct(a, b, Halves(r, m)[1], policy)
  }

  ghost function DirectAll(a: string, b: string, work: seq<Range>, policy: Policy): multiset<Block>
    requires policy.Positive()
  {
    if |work| == 0 then multiset{}
    else DirectAll(a, b, work[..|work| - 1], policy) + multiset(Direct(a, b, work[|work| - 1], policy))
  }

  /** What looking at one range is charged: a step, and the search of its band unless it is empty. */
  ghost function RangeCharge(a: string, b: string, r: Range, policy: Policy): (charge: nat)
    ensures charge >= 1
  {
    if IsEmptyRange(r) then 1
    else
      PairsCounted(r);
      1 + BandCharge(a, b, r, BandLow(r, policy), BandHigh(r, policy))
  }

  lemma PairsCounted(r: Range)
    requires !IsEmptyRange(r)
    ensures Pairs(r) >= 0
  {
  }

  /** What direct matching is charged, by the same recursion. */
  ghost function DirectCharge(a: string, b: string, r: Range, policy: Policy): nat
    requires policy.Positive()
    decreases r.i1 - r.i0
  {
    var m := BandAnswer(a, b, r, policy);
    RangeCharge(a, b, r, policy)
    + if IsEmptyRange(r) || m.size < policy.minBlockCharacters || !Inside(BlockRange(m), r) then 0
      else DirectCharge(a, b, Halves(r, m)[0], policy) + DirectCharge(a, b, Halves(r, m)[1], policy)
  }

  /** What looking at one range of the texts is charged at most. */
  function LookBound(a: string, b: string): nat {
    1 + |a| * |b| + (|a| + |b|) * |a|
  }

  lemma {:induction false} RangeChargeBound(a: string, b: string, r: Range, policy: Policy)
    requires IsRange(a, b, r) && policy.Positive()
    ensures RangeCharge(a, b, r, policy) <= LookBound(a, b)
  {
    Arithmetic.MultiplyMonotone(0, |a|, |b|);
    Arithmetic.MultiplyMonotone(0, |a| + |b|, |a|);
    if !IsEmptyRange(r) {
      PairsWithin(a, b, r);
      BandWithin(a, b, r, BandLow(r, policy), BandHigh(r, policy));
    }
  }

  lemma BandWithin(a: string, b: string, r: Range, low: int, high: int)
    requires IsRange(a, b, r) && !IsEmptyRange(r)
    ensures BandPairs(r, FirstDiagonal(r, low), BandEnd(r, low, high)) <= (|a| + |b|) * |a|
  {
    var first, end := FirstDiagonal(r, low), BandEnd(r, low, high);
    BandPairsWithin(r, first, end);
    Arithmetic.ProductWithin(end - first, |a| + |b|, r.i1 - r.i0, |a|);
  }

  lemma PairsWithin(a: string, b: string, r: Range)
    requires IsRange(a, b, r)
    ensures Pairs(r) <= |a| * |b|
  {
    Arithmetic.ProductWithin(r.i1 - r.i0, |a|, r.j1 - r.j0, |b|);
  }

  /** No range of the texts is charged more for a look at it. */
  ghost predicate IsLook(a: string, b: string, policy: Policy, look: nat) {
    forall r {:trigger IsLookAt(a, b, r, policy, look)} :: IsRange(a, b, r) ==> IsLookAt(a, b, r, policy, look)
  }

  ghost predicate IsLookAt(a: string, b: string, r: Range, policy: Policy, look: nat) {
    RangeCharge(a, b, r, policy) <= look
  }

  /** Two looks for each character, and one. */
  function Looks(width: nat, look: nat): nat {
    Arithmetic.ProductWithin(0, 2 * width + 1, look, look);
    (2 * width + 1) * look
  }

  lemma OneLook(width: nat, look: nat)
    ensures look <= Looks(width, look)
  {
    Arithmetic.MultiplyMonotone(1, 2 * width + 1, look);
  }

  lemma LooksRise(x: nat, y: nat, look: nat)
    requires x <= y
    ensures Looks(x, look) <= Looks(y, look)
  {
    Arithmetic.MultiplyMonotone(2 * x + 1, 2 * y + 1, look);
  }

  lemma ThreeLooks(x: nat, y: nat, width: nat, look: nat)
    requires x + y + 1 <= width
    ensures look + Looks(x, look) + Looks(y, look) <= Looks(width, look)
  {
    Arithmetic.MultiplyMonotone(1 + (2 * x + 1) + (2 * y + 1), 2 * width + 1, look);
  }

  /** Each look at a range gives it up or takes a character of it. */
  lemma {:induction false} DirectLooks(a: string, b: string, r: Range, policy: Policy, look: nat)
    requires IsRange(a, b, r) && policy.Positive() && IsLook(a, b, policy, look)
    ensures DirectCharge(a, b, r, policy) <= Looks(r.i1 - r.i0, look)
    decreases r.i1 - r.i0
  {
    var m := BandAnswer(a, b, r, policy);
    if !IsEmptyRange(r) && m.size >= policy.minBlockCharacters && Inside(BlockRange(m), r) {
      var left, right := Halves(r, m)[0], Halves(r, m)[1];
      HalvesFit(a, b, r, m);
      DirectLooks(a, b, left, policy, look);
      DirectLooks(a, b, right, policy, look);
      assert IsLookAt(a, b, r, policy, look);
      ChargeOfHalves(a, b, r, policy, m, left, right);
      OneAndTwo(DirectCharge(a, b, r, policy), RangeCharge(a, b, r, policy), DirectCharge(a, b, left, policy),
        DirectCharge(a, b, right, policy), left.i1 - left.i0, right.i1 - right.i0, r.i1 - r.i0, look);
    } else {
      LookOfOne(a, b, r, policy, look);
    }
  }

  lemma HalvesFit(a: string, b: string, r: Range, m: Block)
    requires IsRange(a, b, r) && m.size > 0 && Inside(BlockRange(m), r)
    ensures var left, right := Halves(r, m)[0], Halves(r, m)[1];
            && IsRange(a, b, left) && IsRange(a, b, right)
            && (left.i1 - left.i0) + (right.i1 - right.i0) + 1 <= r.i1 - r.i0
  {
  }

  /** A look at a range given up. */
  lemma LookOfOne(a: string, b: string, r: Range, policy: Policy, look: nat)
    requires IsRange(a, b, r) && policy.Positive() && IsLook(a, b, policy, look)
    requires var m := BandAnswer(a, b, r, policy);
             IsEmptyRange(r) || m.size < policy.minBlockCharacters || !Inside(BlockRange(m), r)
    ensures DirectCharge(a, b, r, policy) <= Looks(r.i1 - r.i0, look)
  {
    assert IsLookAt(a, b, r, policy, look);
    OneLook(r.i1 - r.i0, look);
    DirectChargeIs(a, b, r, policy);
  }

  /** A look at a range and those at its halves. */
  lemma OneAndTwo(whole: nat, own: nat, x: nat, y: nat, left: nat, right: nat, width: nat, look: nat)
    requires whole == own + x + y && own <= look && left + right + 1 <= width
    requires x <= Looks(left, look) && y <= Looks(right, look)
    ensures whole <= Looks(width, look)
  {
    ThreeLooks(left, right, width, look);
  }

  lemma ChargeOfHalves(a: string, b: string, r: Range, policy: Policy, m: Block, left: Range, right: Range)
    requires policy.Positive() && m == BandAnswer(a, b, r, policy) && Halves(r, m) == [left, right]
    requires !IsEmptyRange(r) && m.size >= policy.minBlockCharacters && Inside(BlockRange(m), r)
    ensures DirectCharge(a, b, r, policy)
         == RangeCharge(a, b, r, policy) + DirectCharge(a, b, left, policy) + DirectCharge(a, b, right, policy)
  {
    DirectChargeIs(a, b, r, policy);
  }

  lemma DirectChargeIs(a: string, b: string, r: Range, policy: Policy)
    requires policy.Positive()
    ensures var m := BandAnswer(a, b, r, policy);
            DirectCharge(a, b, r, policy) == RangeCharge(a, b, r, policy)
              + if IsEmptyRange(r) || m.size < policy.minBlockCharacters || !Inside(BlockRange(m), r) then 0
                else DirectCharge(a, b, Halves(r, m)[0], policy) + DirectCharge(a, b, Halves(r, m)[1], policy)
  {
  }

  /** Direct matching is charged at most two looks for each character of its range, and one. */
  lemma {:induction false} DirectChargeBound(a: string, b: string, r: Range, policy: Policy)
    requires IsRange(a, b, r) && policy.Positive()
    ensures DirectCharge(a, b, r, policy) <= Looks(r.i1 - r.i0, LookBound(a, b))
  {
    forall q | IsRange(a, b, q)
      ensures IsLookAt(a, b, q, policy, LookBound(a, b))
    {
      RangeChargeBound(a, b, q, policy);
    }
    DirectLooks(a, b, r, policy, LookBound(a, b));
  }

  ghost function ChargeAll(a: string, b: string, work: seq<Range>, policy: Policy): nat
    requires policy.Positive()
  {
    if |work| == 0 then 0
    else ChargeAll(a, b, work[..|work| - 1], policy) + DirectCharge(a, b, work[|work| - 1], policy)
  }

  lemma ChargeNone(a: string, b: string, work: seq<Range>, policy: Policy)
    requires policy.Positive() && |work| > 0
    requires var q := work[|work| - 1]; IsEmptyRange(q) || BandAnswer(a, b, q, policy).size < policy.minBlockCharacters
    ensures ChargeAll(a, b, work, policy)
         == ChargeAll(a, b, work[..|work| - 1], policy) + RangeCharge(a, b, work[|work| - 1], policy)
  {
  }

  lemma {:induction false} ChargeSplit(a: string, b: string, work: seq<Range>, policy: Policy, m: Block)
    requires policy.Positive() && |work| > 0
    requires var q := work[|work| - 1];
             && !IsEmptyRange(q) && m == BandAnswer(a, b, q, policy) && m.size >= policy.minBlockCharacters
             && Inside(BlockRange(m), q)
    ensures ChargeAll(a, b, work, policy)
         == RangeCharge(a, b, work[|work| - 1], policy)
            + ChargeAll(a, b, work[..|work| - 1] + Halves(work[|work| - 1], m), policy)
  {
    var q, rest := work[|work| - 1], work[..|work| - 1];
    var next := rest + Halves(q, m);
    assert next[..|next| - 1] == rest + [Halves(q, m)[0]] && (rest + [Halves(q, m)[0]])[..|rest|] == rest;
  }

  /** The answer found is the definition's. */
  lemma BandAnswerIs(a: string, b: string, r: Range, policy: Policy, m: Block)
    requires IsRange(a, b, r) && AnswersBand(a, b, r, BandLow(r, policy), BandHigh(r, policy), m)
    ensures BandAnswer(a, b, r, policy) == m
  {
    AnswerIsUnique(a, b, r, BandLow(r, policy), BandHigh(r, policy), m, BandAnswer(a, b, r, policy));
  }

  /** A range popped with nothing to find in it. */
  lemma DirectNone(a: string, b: string, work: seq<Range>, policy: Policy)
    requires policy.Positive() && |work| > 0
    requires var q := work[|work| - 1]; IsEmptyRange(q) || BandAnswer(a, b, q, policy).size < policy.minBlockCharacters
    ensures DirectAll(a, b, work, policy) == DirectAll(a, b, work[..|work| - 1], policy)
  {
    assert Direct(a, b, work[|work| - 1], policy) == [];
    assert multiset(Direct(a, b, work[|work| - 1], policy)) == multiset{};
  }

  /** A range popped, its block taken and its halves pushed. */
  lemma {:induction false} DirectSplit(a: string, b: string, work: seq<Range>, policy: Policy, m: Block)
    requires policy.Positive() && |work| > 0
    requires var q := work[|work| - 1];
             && !IsEmptyRange(q) && m == BandAnswer(a, b, q, policy) && m.size >= policy.minBlockCharacters
             && Inside(BlockRange(m), q)
    ensures DirectAll(a, b, work, policy)
         == multiset{m} + DirectAll(a, b, work[..|work| - 1] + Halves(work[|work| - 1], m), policy)
  {
    var q, rest := work[|work| - 1], work[..|work| - 1];
    var left, right := Halves(q, m)[0], Halves(q, m)[1];
    var next := rest + Halves(q, m);
    assert next[..|next| - 1] == rest + [left] && (rest + [left])[..|rest|] == rest;
    var l, r := Direct(a, b, left, policy), Direct(a, b, right, policy);
    assert Direct(a, b, q, policy) == l + [m] + r;
    assert multiset(l + [m] + r) == multiset(l) + multiset{m} + multiset(r);
  }

  /** What the direct search of `r` keeps. */
  ghost predicate DirectState(
    a: string, b: string, r: Range, policy: Policy, blocks: seq<Block>, given: seq<Range>, work: seq<Range>)
  {
    && SearchState(a, b, r, policy, blocks, given, work)
    && (forall m :: m in blocks ==> m.size >= policy.minBlockCharacters)
    && (a == b && IsSquare(r) ==> SelfAligned(blocks, work, r, policy.minBlockCharacters))
  }

  lemma {:induction false} DirectStart(a: string, b: string, r: Range, policy: Policy)
    requires IsRange(a, b, r)
    ensures DirectState(a, b, r, policy, [], [], [r])
  {
    assert [] + [r] == [r];
    forall p | r.i0 <= p < r.i1
      ensures InRange([r], p)
    {
      assert r in [r];
    }
  }

  lemma {:induction false} DirectDrop(
    a: string, b: string, r: Range, policy: Policy, blocks: seq<Block>, given: seq<Range>, work: seq<Range>)
    requires IsRange(a, b, r) && policy.Positive() && DirectState(a, b, r, policy, blocks, given, work) && |work| > 0
    requires forall x :: 0 <= x < |work| ==> work[x].i0 <= work[x].i1
    requires IsExhausted(a, b, work[|work| - 1], policy)
    ensures DirectState(a, b, r, policy, blocks, given + [work[|work| - 1]], work[..|work| - 1])
    ensures Remaining(work[..|work| - 1]) <= Remaining(work)
  {
    Forward(a, b, r, policy, blocks, given, work);
    var q := work[|work| - 1];
    assert Inside(q, r);
    GiveUpTurn(a, b, q, policy);
    SearchTurn(a, b, r, policy, blocks, given, work, [], [q], []);
    assert blocks + [] == blocks && work[..|work| - 1] + [] == work[..|work| - 1];
    if a == b && IsSquare(r) && work == [r] && !IsEmptyRange(q) {
      WholeInBand(a, q, policy);
    }
  }

  /** The whole of a square range of a text against itself is a run in its band. */
  lemma WholeInBand(a: string, r: Range, policy: Policy)
    requires IsRange(a, a, r) && IsSquare(r) && policy.Positive()
    ensures IsRunIn(a, a, r, BandLow(r, policy), BandHigh(r, policy), Block(r.i0, r.j0, r.i1 - r.i0))
  {
  }

  lemma {:induction false} DirectTake(
    a: string, b: string, r: Range, policy: Policy, blocks: seq<Block>, given: seq<Range>, work: seq<Range>, m: Block)
    requires IsRange(a, b, r) && policy.Positive() && DirectState(a, b, r, policy, blocks, given, work) && |work| > 0
    requires forall x :: 0 <= x < |work| ==> work[x].i0 <= work[x].i1
    requires var q := work[|work| - 1];
             && !IsEmptyRange(q) && m.size >= policy.minBlockCharacters
             && IsRunIn(a, b, q, BandLow(q, policy), BandHigh(q, policy), m)
             && forall n :: IsRunIn(a, b, q, BandLow(q, policy), BandHigh(q, policy), n) ==> n.size <= m.size
    ensures var next := work[..|work| - 1] + Halves(work[|work| - 1], m);
            && DirectState(a, b, r, policy, blocks + [m], given, next)
            && (forall x :: 0 <= x < |next| ==> next[x].i0 <= next[x].i1) && Remaining(next) < Remaining(work)
  {
    Forward(a, b, r, policy, blocks, given, work);
    var q := work[|work| - 1];
    assert Inside(q, r);
    BisectTurn(a, b, q, policy, m);
    SearchTurn(a, b, r, policy, blocks, given, work, [m], [], Halves(q, m));
    assert given + [] == given;
    HalvesShrink(work, m);
    if a == b && IsSquare(r) {
      SelfTake(a, r, policy, blocks, work, m);
    }
  }

  lemma {:induction false} SelfTake(a: string, r: Range, policy: Policy, blocks: seq<Block>, work: seq<Range>, m: Block)
    requires IsRange(a, a, r) && policy.Positive() && |work| > 0 && IsSquare(r)
    requires SelfAligned(blocks, work, r, policy.minBlockCharacters)
    requires var q := work[|work| - 1];
             && !IsEmptyRange(q) && m.size >= policy.minBlockCharacters
             && IsRunIn(a, a, q, BandLow(q, policy), BandHigh(q, policy), m)
             && forall n :: IsRunIn(a, a, q, BandLow(q, policy), BandHigh(q, policy), n) ==> n.size <= m.size
    ensures SelfAligned(blocks + [m], work[..|work| - 1] + Halves(work[|work| - 1], m), r, policy.minBlockCharacters)
  {
    var q := work[|work| - 1];
    WholeIsLongest(a, q, BandLow(q, policy), BandHigh(q, policy), m);
  }

  /** The direct search against its definition: what it still owes is what its ranges come to. */
  ghost predicate DirectLoop(
    a: string, b: string, r: Range, policy: Policy, blocks: seq<Block>, given: seq<Range>, work: seq<Range>)
    requires policy.Positive()
  {
    && IsRange(a, b, r) && DirectState(a, b, r, policy, blocks, given, work)
    && Owes(a, b, r, policy, blocks, work) && AllRanges(a, b, work)
  }

  ghost predicate AllRanges(a: string, b: string, work: seq<Range>) {
    forall x :: 0 <= x < |work| ==> IsRange(a, b, work[x])
  }

  ghost predicate Owes(a: string, b: string, r: Range, policy: Policy, blocks: seq<Block>, work: seq<Range>)
    requires policy.Positive()
  {
    multiset(blocks) + DirectAll(a, b, work, policy) == multiset(Direct(a, b, r, policy))
  }

  lemma {:induction false} OwesTake(
    a: string, b: string, r: Range, policy: Policy, blocks: seq<Block>, work: seq<Range>, m: Block)
    requires policy.Positive() && |work| > 0 && Owes(a, b, r, policy, blocks, work)
    requires var q := work[|work| - 1];
             && !IsEmptyRange(q) && m == BandAnswer(a, b, q, policy) && m.size >= policy.minBlockCharacters
             && Inside(BlockRange(m), q)
    ensures Owes(a, b, r, policy, blocks + [m], work[..|work| - 1] + Halves(work[|work| - 1], m))
  {
    DirectSplit(a, b, work, policy, m);
    assert multiset(blocks + [m]) == multiset(blocks) + multiset{m};
  }

  lemma HalvesAreRanges(a: string, b: string, work: seq<Range>, m: Block)
    requires |work| > 0 && AllRanges(a, b, work) && m.size > 0 && Inside(BlockRange(m), work[|work| - 1])
    ensures AllRanges(a, b, work[..|work| - 1] + Halves(work[|work| - 1], m))
  {
    var next := work[..|work| - 1] + Halves(work[|work| - 1], m);
    forall x | 0 <= x < |next|
      ensures IsRange(a, b, next[x])
    {
      if x < |work| - 1 { assert next[x] == work[x]; }
    }
  }

  lemma LoopStart(a: string, b: string, r: Range, policy: Policy)
    requires IsRange(a, b, r) && policy.Positive()
    ensures DirectLoop(a, b, r, policy, [], [], [r])
  {
    DirectStart(a, b, r, policy);
    assert [r][..0] == [];
  }

  lemma {:induction false} LoopDrop(
    a: string, b: string, r: Range, policy: Policy, blocks: seq<Block>, given: seq<Range>, work: seq<Range>)
    requires policy.Positive() && DirectLoop(a, b, r, policy, blocks, given, work) && |work| > 0
    requires IsBarren(a, b, work[|work| - 1], policy)
    ensures DirectLoop(a, b, r, policy, blocks, given + [work[|work| - 1]], work[..|work| - 1])
    ensures Remaining(work[..|work| - 1]) <= Remaining(work)
  {
    DirectDrop(a, b, r, policy, blocks, given, work);
    DirectNone(a, b, work, policy);
  }

  lemma {:induction false} LoopTake(
    a: string, b: string, r: Range, policy: Policy, blocks: seq<Block>, given: seq<Range>, work: seq<Range>, m: Block)
    requires policy.Positive() && DirectLoop(a, b, r, policy, blocks, given, work) && |work| > 0
    requires IsTaken(a, b, work[|work| - 1], policy, m)
    ensures var next := work[..|work| - 1] + Halves(work[|work| - 1], m);
            && DirectLoop(a, b, r, policy, blocks + [m], given, next)
            && (forall x :: 0 <= x < |next| ==> next[x].i0 <= next[x].i1) && Remaining(next) < Remaining(work)
  {
    OwesTake(a, b, r, policy, blocks, work, m);
    HalvesAreRanges(a, b, work, m);
    DirectTake(a, b, r, policy, blocks, given, work, m);
  }

  /** There is nothing long enough to find in the range, by the search and by the definition. */
  ghost predicate IsBarren(a: string, b: string, q: Range, policy: Policy) {
    && IsExhausted(a, b, q, policy)
    && (IsEmptyRange(q) || BandAnswer(a, b, q, policy).size < policy.minBlockCharacters)
  }

  /** The run the definition takes from the range: long enough, and longest in the band. */
  ghost predicate IsTaken(a: string, b: string, q: Range, policy: Policy, m: Block) {
    && !IsEmptyRange(q) && m == BandAnswer(a, b, q, policy) && m.size >= policy.minBlockCharacters
    && IsRunIn(a, b, q, BandLow(q, policy), BandHigh(q, policy), m)
    && forall n :: IsRunIn(a, b, q, BandLow(q, policy), BandHigh(q, policy), n) ==> n.size <= m.size
  }

  /** The longest run in a range's own band, charged. */
  method SearchBand(a: string, b: string, q: Range, policy: Policy, budget: WorkBudget) returns (m: Outcome<Block>)
    requires IsRange(a, b, q) && policy.Positive() && budget.Valid() && budget.left >= 0 && !IsEmptyRange(q)
    modifies budget
    ensures budget.Valid() && budget.left <= old(budget.left)
    ensures (m.Measured? <==> budget.left >= 0) && (m.NotMeasured? ==> m.reason == WorkBound)
    ensures m.Measured? ==> budget.done - old(budget.done) == budget.charged - old(budget.charged)
    ensures 1 + budget.charged <= old(budget.charged) + RangeCharge(a, b, q, policy)
    ensures m.Measured? ==> 1 + budget.charged == old(budget.charged) + RangeCharge(a, b, q, policy)
    ensures m.Measured? ==> AnswersSearch(a, b, q, policy, m.value)
  {
    m := LongestInBand(a, b, q, BandLow(q, policy), BandHigh(q, policy), budget);
    if m.NotMeasured? { return; }
    BandAnswerIs(a, b, q, policy, m.value);
  }

  /** The longest run of the range's band, as the definition takes it. */
  ghost predicate AnswersSearch(a: string, b: string, q: Range, policy: Policy, m: Block) {
    && m == BandAnswer(a, b, q, policy)
    && (m.size > 0 ==> IsRunIn(a, b, q, BandLow(q, policy), BandHigh(q, policy), m))
    && forall n :: IsRunIn(a, b, q, BandLow(q, policy), BandHigh(q, policy), n) ==> n.size <= m.size
  }

  /** One range off the work list: its longest run in its own band, charged; nothing, at no further
      charge, in an empty range. */
  method SearchRange(a: string, b: string, q: Range, policy: Policy, budget: WorkBudget) returns (m: Outcome<Block>)
    requires IsRange(a, b, q) && policy.Positive() && budget.Valid() && budget.left >= 0
    modifies budget
    ensures budget.Valid() && budget.left <= old(budget.left)
    ensures (m.Measured? <==> budget.left >= 0) && (m.NotMeasured? ==> m.reason == WorkBound)
    ensures m.Measured? ==> budget.done - old(budget.done) == budget.charged - old(budget.charged)
    ensures budget.charged <= old(budget.charged) + RangeCharge(a, b, q, policy)
    ensures m.Measured? ==> budget.charged == old(budget.charged) + RangeCharge(a, b, q, policy)
    ensures m.Measured? && m.value.size < policy.minBlockCharacters ==> IsBarren(a, b, q, policy)
    ensures m.Measured? && m.value.size >= policy.minBlockCharacters ==> IsTaken(a, b, q, policy, m.value)
  {
    var ok := budget.Spend(1);
    if !ok { return NotMeasured(WorkBound); }
    budget.done := budget.done + 1;
    if q.i0 >= q.i1 || q.j0 >= q.j1 {
      EmptyIsBarren(a, b, q, policy);
      return Measured(Block(q.i0, q.j0, 0));
    }
    m := SearchBand(a, b, q, policy, budget);
    if m.Measured? { AnswerDecides(a, b, q, policy, m.value); }
  }

  lemma EmptyIsBarren(a: string, b: string, q: Range, policy: Policy)
    requires IsEmptyRange(q)
    ensures IsBarren(a, b, q, policy) && RangeCharge(a, b, q, policy) == 1
  {
  }

  /** The answer is taken, or nothing long enough is left. */
  lemma AnswerDecides(a: string, b: string, q: Range, policy: Policy, m: Block)
    requires policy.Positive() && !IsEmptyRange(q) && AnswersSearch(a, b, q, policy, m)
    ensures if m.size < policy.minBlockCharacters then IsBarren(a, b, q, policy) else IsTaken(a, b, q, policy, m)
  {
  }

  /** Matching blocks of at least the minimum, longest first, either side of each in turn: those
      of the recursive definition. The ranges given up are kept: with the blocks they leave nothing
      of the range out, and none of them has a run of the minimum length in its band. */
  method DirectBlocks(a: string, b: string, r: Range, policy: Policy, budget: WorkBudget)
    returns (found: Outcome<seq<Block>>, ghost given: seq<Range>)
    requires IsRange(a, b, r) && policy.Positive() && budget.Valid() && budget.left >= 0
    modifies budget
    ensures budget.Valid() && budget.left <= old(budget.left) && (found.Measured? <==> budget.left >= 0)
    ensures found.NotMeasured? ==> found.reason == WorkBound
    ensures found.Measured? ==> DirectState(a, b, r, policy, found.value, given, [])
    ensures found.Measured? ==> multiset(found.value) == multiset(Direct(a, b, r, policy))
    ensures found.Measured? ==> budget.done - old(budget.done) == budget.charged - old(budget.charged)
    ensures budget.charged <= old(budget.charged) + DirectCharge(a, b, r, policy)
    ensures found.Measured? ==> budget.charged == old(budget.charged) + DirectCharge(a, b, r, policy)
  {
    var blocks: seq<Block> := [];
    var work := [r];
    given := [];
    LoopStart(a, b, r, policy);
    assert work[..0] == [];
    while |work| > 0
      invariant budget.Valid() && 0 <= budget.left <= old(budget.left)
      invariant budget.done - old(budget.done) == budget.charged - old(budget.charged)
      invariant DirectLoop(a, b, r, policy, blocks, given, work)
      invariant budget.charged + ChargeAll(a, b, work, policy) == old(budget.charged) + DirectCharge(a, b, r, policy)
      decreases Remaining(work), |work|
    {
      var q := work[|work| - 1];
      var longest := SearchRange(a, b, q, policy, budget);
      if longest.NotMeasured? { return NotMeasured(longest.reason), given; }
      var m := longest.value;
      if m.size < policy.minBlockCharacters {
        LoopDrop(a, b, r, policy, blocks, given, work);
        ChargeNone(a, b, work, policy);
        given, work := given + [q], work[..|work| - 1];
      } else {
        LoopTake(a, b, r, policy, blocks, given, work, m);
        ChargeSplit(a, b, work, policy, m);
        blocks, work := blocks + [m], work[..|work| - 1] + Halves(q, m);
      }
    }
    assert work == [];
    found := Measured(blocks);
  }
}
