/** How much of one witness text a reading accounts for, over an alignment of the two. */
module Coverage {
  import opened Arithmetic
  import opened Alignment
  import opened Blocks
  import opened Anchors
  import opened Splitting
  import opened Course
  import opened Matching

  /** The one mark `[[?]]` becomes: a private-use character no witness text holds. */
  const UNREADABLE := '\U{E000}'

  datatype TextCoverage = TextCoverage(
    witnessCharacters: int,
    matchedCharacters: int,
    unreadRun: int,
    unreadCharacters: int,
    position: seq<int>)

  // --- one gap's ledger -------------------------------------------------------------------------

  function CountMarks(s: string): (n: nat)
    ensures n <= |s|
    ensures n > 0 <==> UNREADABLE in s
  {
    if |s| == 0 then 0
    else
      assert s == [s[0]] + s[1..];
      CountMarks(s[1..]) + (if s[0] == UNREADABLE then 1 else 0)
  }

  /** What the reading opposite a gap accounts for: a threshold per mark, or one character
      each up to the threshold. */
  function Credit(opposite: string, threshold: int): int {
    if CountMarks(opposite) > 0 then CountMarks(opposite) * threshold else Min(|opposite|, threshold)
  }

  function Unread(reading: string, g: Range, threshold: int): (n: nat)
    requires 0 <= g.j0 <= g.j1 <= |reading|
  {
    Max(0, g.i1 - g.i0 - Credit(reading[g.j0..g.j1], threshold))
  }

  /** Some credit is never negative, and a marked gap earns at least the threshold. */
  lemma {:induction false} CreditBounds(opposite: string, threshold: int)
    requires threshold > 0
    ensures Credit(opposite, threshold) >= 0
    ensures Credit(opposite, threshold) >= Min(|opposite|, threshold)
  {
    var n := CountMarks(opposite);
    if n > 0 { assert n * threshold >= threshold; }
  }

  // --- what a gap leaves, by its lengths and its marks --------------------------------------------

  /** The positions of `s` that hold a mark. */
  function MarksIn(s: string): set<int> {
    set p | 0 <= p < |s| && s[p] == UNREADABLE
  }

  lemma {:induction false} CountLast(s: string)
    requires |s| > 0
    ensures CountMarks(s) == CountMarks(s[..|s| - 1]) + if s[|s| - 1] == UNREADABLE then 1 else 0
  {
    if |s| > 1 {
      CountLast(s[1..]);
      assert s[1..][..|s| - 2] == s[..|s| - 1][1..];
    }
  }

  lemma {:induction false} MarksAreCounted(s: string)
    ensures CountMarks(s) == |MarksIn(s)|
  {
    if |s| == 0 {
      assert MarksIn(s) == {};
    } else {
      var n := |s| - 1;
      MarksAreCounted(s[..n]);
      CountLast(s);
      MarksLast(s);
    }
  }

  lemma MarksLast(s: string)
    requires |s| > 0
    ensures |MarksIn(s)| == |MarksIn(s[..|s| - 1])| + if s[|s| - 1] == UNREADABLE then 1 else 0
  {
    var n := |s| - 1;
    if s[n] == UNREADABLE {
      assert MarksIn(s) == MarksIn(s[..n]) + {n};
    } else {
      assert MarksIn(s) == MarksIn(s[..n]);
    }
  }

  /** Opposite no mark a gap leaves what neither a character opposite nor the threshold covers;
      opposite marks it leaves what they do not, each for the threshold. */
  lemma {:induction false} GapLeaves(reading: string, g: Range, threshold: int)
    requires 0 <= g.j0 <= g.j1 <= |reading|
    ensures var marks := |MarksIn(reading[g.j0..g.j1])|;
            Unread(reading, g, threshold)
            == Max(0, g.i1 - g.i0 - if marks == 0 then Min(g.j1 - g.j0, threshold) else marks * threshold)
  {
    MarksAreCounted(reading[g.j0..g.j1]);
  }

  // --- the ledger over all gaps -------------------------------------------------------------------

  function Whole(witnessText: string, reading: string): Range {
    Range(0, |witnessText|, 0, |reading|)
  }

  ghost predicate IsBlockList(witnessText: string, reading: string, bs: seq<Block>) {
    IsAscending(bs) && AllRuns(witnessText, reading, bs)
  }

  lemma {:induction false} GapInside(witnessText: string, reading: string, bs: seq<Block>, x: nat)
    requires IsBlockList(witnessText, reading, bs) && x <= |bs|
    ensures Inside(Gap(bs, Whole(witnessText, reading), x), Whole(witnessText, reading))
  {
    if 0 < x < |bs| { assert Before(BlockRange(bs[x - 1]), BlockRange(bs[x])); }
  }

  // --- positions -------------------------------------------------------------------------------------

  /** Up to `n` the map is nondecreasing, starts at or after the text's start, and stays at
      or before `limit`. */
  ghost predicate IsMap(position: seq<int>, n: int, limit: int) {
    && 0 <= n <= |position|
    && (forall p :: 0 <= p < n ==> 0 <= position[p] <= limit)
    && (forall p, q :: 0 <= p <= q < n ==> position[p] <= position[q])
  }

  /** The reading offset opposite the witness offset `t` of a gap: its share of the way. */
  function Opposite(g: Range, t: int): int
    requires g.i0 <= t < g.i1
  {
    g.j0 + (t - g.i0) * (g.j1 - g.j0) / (g.i1 - g.i0)
  }

  ghost predicate SpreadsGap(position: seq<int>, g: Range) {
    && 0 <= g.i0 && g.i1 <= |position|
    && forall t :: g.i0 <= t < g.i1 ==> IsAcross(g, t, position[t])
  }

  /** As far along the reading opposite as the offset is along the gap, in whole characters. */
  predicate IsAcross(g: Range, t: int, p: int) {
    (p - g.j0) * (g.i1 - g.i0) <= (t - g.i0) * (g.j1 - g.j0) < (p - g.j0 + 1) * (g.i1 - g.i0)
  }

  lemma OppositeIs(g: Range, t: int, p: int)
    requires g.i0 <= t < g.i1
    ensures p == Opposite(g, t) <==> IsAcross(g, t, p)
  {
    var x, d := (t - g.i0) * (g.j1 - g.j0), g.i1 - g.i0;
    QuotientIs(x, d, p - g.j0);
  }

  /** The offsets of the first `x` gaps are spread over the reading opposite. */
  ghost predicate SpreadsGaps(position: seq<int>, bs: seq<Block>, r: Range, x: int) {
    forall y {:trigger Gap(bs, r, y)} :: 0 <= y < x <= |bs| + 1 ==> SpreadsGap(position, Gap(bs, r, y))
  }

  /** The matched characters of the first `x` blocks are sent to their partners. */
  ghost predicate MapsBlocks(position: seq<int>, bs: seq<Block>, x: int) {
    forall y :: 0 <= y < x <= |bs| ==> MapsBlock(position, bs[y])
  }

  ghost predicate MapsBlock(position: seq<int>, m: Block) {
    && 0 <= m.i && m.i + m.size <= |position|
    && forall t :: m.i <= t < m.i + m.size ==> position[t] == t - m.i + m.j
  }

  lemma {:induction false} Spread(offset: int, gapR: int, gapW: int)
    requires 0 <= offset < gapW && gapR >= 0
    ensures 0 <= offset * gapR / gapW <= gapR
    ensures offset > 0 ==> (offset - 1) * gapR / gapW <= offset * gapR / gapW
  {
    MultiplyMonotone(0, offset, gapR);
    MultiplyMonotone(offset, gapW, gapR);
    DivideMonotone(0, offset * gapR, gapW);
    DivideMonotone(offset * gapR, gapR * gapW, gapW);
    DivideIs(gapR * gapW, gapW, gapR);
    if offset > 0 {
      MultiplyMonotone(offset - 1, offset, gapR);
      DivideMonotone((offset - 1) * gapR, offset * gapR, gapW);
    }
  }

  /** Spread a gap's witness offsets over the reading opposite. */
  method FillGap(before: seq<int>, g: Range) returns (position: seq<int>)
    requires 0 <= g.i0 <= g.i1 <= |before| && 0 <= g.j0 <= g.j1 && IsMap(before, g.i0, g.j0)
    ensures |position| == |before| && position[..g.i0] == before[..g.i0] && IsMap(position, g.i1, g.j1)
    ensures SpreadsGap(position, g)
  {
    position := before;
    for offset := 0 to g.i1 - g.i0
      invariant |position| == |before| && position[..g.i0] == before[..g.i0]
      invariant IsMap(position, g.i0 + offset, g.j1)
      invariant forall t :: g.i0 <= t < g.i0 + offset ==> position[t] == Opposite(g, t)
      invariant offset == 0 ==> IsMap(position, g.i0, g.j0)
    {
      Spread(offset, g.j1 - g.j0, g.i1 - g.i0);
      if offset > 0 { assert position[g.i0 + offset - 1] == Opposite(g, g.i0 + offset - 1); }
      position := position[g.i0 + offset := g.j0 + offset * (g.j1 - g.j0) / (g.i1 - g.i0)];
    }
    forall t | g.i0 <= t < g.i1
      ensures IsAcross(g, t, position[t])
    {
      OppositeIs(g, t, position[t]);
    }
  }

  /** Send a block's witness offsets to their partners. */
  method FillBlock(before: seq<int>, m: Block) returns (position: seq<int>)
    requires 0 <= m.i && 0 <= m.size && m.i + m.size <= |before| && 0 <= m.j && IsMap(before, m.i, m.j)
    ensures |position| == |before| && position[..m.i] == before[..m.i]
    ensures IsMap(position, m.i + m.size, m.j + m.size) && MapsBlock(position, m)
  {
    position := before;
    for offset := 0 to m.size
      invariant |position| == |before| && position[..m.i] == before[..m.i]
      invariant IsMap(position, m.i + offset, m.j + offset)
      invariant forall t :: m.i <= t < m.i + offset ==> position[t] == t - m.i + m.j
    {
      position := position[m.i + offset := m.j + offset];
    }
  }

  lemma {:induction false} MapsStay(before: seq<int>, after: seq<int>, bs: seq<Block>, x: int, n: int)
    requires MapsBlocks(before, bs, x) && |before| == |after| && 0 <= n <= |before| && before[..n] == after[..n]
    requires forall y :: 0 <= y < x <= |bs| ==> bs[y].i + bs[y].size <= n
    ensures MapsBlocks(after, bs, x)
  {
    forall y | 0 <= y < x <= |bs|
      ensures MapsBlock(after, bs[y])
    {
      assert MapsBlock(before, bs[y]);
      assert forall t :: 0 <= t < n ==> before[t] == before[..n][t] && after[t] == after[..n][t];
    }
  }

  lemma {:induction false} SpreadsStay(before: seq<int>, after: seq<int>, bs: seq<Block>, r: Range, x: int, n: int)
    requires SpreadsGaps(before, bs, r, x) && |before| == |after| && 0 <= n <= |before| && before[..n] == after[..n]
    requires forall y {:trigger Gap(bs, r, y)} :: 0 <= y < x <= |bs| + 1 ==> Gap(bs, r, y).i1 <= n
    ensures SpreadsGaps(after, bs, r, x)
  {
    forall y | 0 <= y < x <= |bs| + 1
      ensures SpreadsGap(after, Gap(bs, r, y))
    {
      assert SpreadsGap(before, Gap(bs, r, y));
      assert forall t :: 0 <= t < n ==> before[t] == before[..n][t] && after[t] == after[..n][t];
    }
  }

  // --- the totals ----------------------------------------------------------------------------------

  /** The characters of the first `x` blocks. */
  function MatchedIn(bs: seq<Block>, x: nat): int
    requires x <= |bs|
  {
    if x == 0 then 0 else MatchedIn(bs, x - 1) + bs[x - 1].size
  }

  /** Gap `x`, and the reading opposite it. */
  ghost function GapAt(witnessText: string, reading: string, bs: seq<Block>, x: nat): (g: Range)
    requires IsBlockList(witnessText, reading, bs) && x <= |bs|
    ensures 0 <= g.i0 <= g.i1 <= |witnessText| && 0 <= g.j0 <= g.j1 <= |reading|
  {
    GapInside(witnessText, reading, bs, x);
    Gap(bs, Whole(witnessText, reading), x)
  }

  /** The longest run left unread by the first `x` gaps. */
  ghost function LongestUnread(witnessText: string, reading: string, bs: seq<Block>, threshold: int, x: nat): int
    requires IsBlockList(witnessText, reading, bs) && x <= |bs| + 1
  {
    if x == 0 then 0
    else Max(LongestUnread(witnessText, reading, bs, threshold, x - 1),
             Unread(reading, GapAt(witnessText, reading, bs, x - 1), threshold))
  }

  /** The unread characters of the first `x` gaps. */
  ghost function TotalUnread(witnessText: string, reading: string, bs: seq<Block>, threshold: int, x: nat): int
    requires IsBlockList(witnessText, reading, bs) && x <= |bs| + 1
  {
    if x == 0 then 0
    else TotalUnread(witnessText, reading, bs, threshold, x - 1)
         + Unread(reading, GapAt(witnessText, reading, bs, x - 1), threshold)
  }

  /** The characters of a gap that the reading opposite accounts for. */
  function Credited(reading: string, g: Range, threshold: int): int
    requires 0 <= g.j0 <= g.j1 <= |reading|
  {
    Min(g.i1 - g.i0, Credit(reading[g.j0..g.j1], threshold))
  }

  /** The credited characters of the first `x` gaps. */
  ghost function TotalCredited(witnessText: string, reading: string, bs: seq<Block>, threshold: int, x: nat): int
    requires IsBlockList(witnessText, reading, bs) && x <= |bs| + 1
  {
    if x == 0 then 0
    else TotalCredited(witnessText, reading, bs, threshold, x - 1)
         + Credited(reading, GapAt(witnessText, reading, bs, x - 1), threshold)
  }

  /** Matched, credited and unread characters account for the text once, up to each gap's start and
      up to its end. */
  lemma {:induction false} AllAccounted(witnessText: string, reading: string, bs: seq<Block>, threshold: int, x: nat)
    requires threshold > 0 && IsBlockList(witnessText, reading, bs) && x <= |bs|
    ensures MatchedIn(bs, x) + TotalCredited(witnessText, reading, bs, threshold, x)
            + TotalUnread(witnessText, reading, bs, threshold, x) == GapAt(witnessText, reading, bs, x).i0
    ensures MatchedIn(bs, x) + TotalCredited(witnessText, reading, bs, threshold, x + 1)
            + TotalUnread(witnessText, reading, bs, threshold, x + 1) == GapAt(witnessText, reading, bs, x).i1
  {
    if x > 0 { AllAccounted(witnessText, reading, bs, threshold, x - 1); }
    GapAccounted(reading, GapAt(witnessText, reading, bs, x), threshold);
  }

  /** Opposite a reading without a mark, no gap is credited more than the characters opposite. */
  lemma {:induction false} CreditIsOpposite(
    witnessText: string, reading: string, bs: seq<Block>, threshold: int, x: nat)
    requires IsBlockList(witnessText, reading, bs) && x <= |bs| && UNREADABLE !in reading
    ensures MatchedIn(bs, x) + TotalCredited(witnessText, reading, bs, threshold, x)
            <= GapAt(witnessText, reading, bs, x).j0
    ensures MatchedIn(bs, x) + TotalCredited(witnessText, reading, bs, threshold, x + 1)
            <= GapAt(witnessText, reading, bs, x).j1
  {
    if x > 0 { CreditIsOpposite(witnessText, reading, bs, threshold, x - 1); }
    CreditWithin(reading, GapAt(witnessText, reading, bs, x), threshold);
  }

  lemma CreditWithin(reading: string, g: Range, threshold: int)
    requires 0 <= g.j0 <= g.j1 <= |reading| && UNREADABLE !in reading
    ensures Credited(reading, g, threshold) <= g.j1 - g.j0
  {
    assert UNREADABLE !in reading[g.j0..g.j1];
  }

  /** A reading without a mark leaves at least as much unread as it is shorter. */
  lemma {:induction false} ShorterLeavesUnread(
    c: TextCoverage, witnessText: string, reading: string, bs: seq<Block>, threshold: int)
    requires IsBlockList(witnessText, reading, bs) && IsCoverage(c, witnessText, reading, bs, threshold)
    requires UNREADABLE !in reading
    ensures c.unreadCharacters >= |witnessText| - |reading|
  {
    CreditIsOpposite(witnessText, reading, bs, threshold, |bs|);
  }

  /** What gap `x` leaves unread. */
  ghost function UnreadAt(witnessText: string, reading: string, bs: seq<Block>, threshold: int, x: nat): nat
    requires IsBlockList(witnessText, reading, bs) && x <= |bs|
  {
    Unread(reading, GapAt(witnessText, reading, bs, x), threshold)
  }

  /** The first `x` gaps' longest unread run is no shorter than gap `y`'s. */
  ghost predicate IsNoLonger(
    witnessText: string, reading: string, bs: seq<Block>, threshold: int, x: nat, y: nat)
    requires IsBlockList(witnessText, reading, bs) && y < x <= |bs| + 1
  {
    UnreadAt(witnessText, reading, bs, threshold, y) <= LongestUnread(witnessText, reading, bs, threshold, x)
  }

  /** No gap leaves a longer run unread than the longest. */
  lemma {:induction false} NoneIsLonger(
    witnessText: string, reading: string, bs: seq<Block>, threshold: int, x: nat, y: nat)
    requires IsBlockList(witnessText, reading, bs) && y < x <= |bs| + 1
    ensures IsNoLonger(witnessText, reading, bs, threshold, x, y)
  {
    if y < x - 1 {
      NoneIsLonger(witnessText, reading, bs, threshold, x - 1, y);
      StillNoLonger(witnessText, reading, bs, threshold, x, y);
    } else {
      LastIsNoLonger(witnessText, reading, bs, threshold, x);
    }
  }

  lemma StillNoLonger(witnessText: string, reading: string, bs: seq<Block>, threshold: int, x: nat, y: nat)
    requires IsBlockList(witnessText, reading, bs) && y < x - 1 <= |bs|
    requires IsNoLonger(witnessText, reading, bs, threshold, x - 1, y)
    ensures IsNoLonger(witnessText, reading, bs, threshold, x, y)
  {
    LongestNext(witnessText, reading, bs, threshold, x);
  }

  lemma LastIsNoLonger(witnessText: string, reading: string, bs: seq<Block>, threshold: int, x: nat)
    requires IsBlockList(witnessText, reading, bs) && 0 < x <= |bs| + 1
    ensures IsNoLonger(witnessText, reading, bs, threshold, x, x - 1)
  {
    LongestNext(witnessText, reading, bs, threshold, x);
  }

  lemma LongestNext(witnessText: string, reading: string, bs: seq<Block>, threshold: int, x: nat)
    requires IsBlockList(witnessText, reading, bs) && 0 < x <= |bs| + 1
    ensures LongestUnread(witnessText, reading, bs, threshold, x)
              >= LongestUnread(witnessText, reading, bs, threshold, x - 1)
    ensures LongestUnread(witnessText, reading, bs, threshold, x)
              >= UnreadAt(witnessText, reading, bs, threshold, x - 1)
  {
  }

  /** The longest unread run is what some gap leaves. */
  lemma {:induction false} LongestIsAGaps(
    witnessText: string, reading: string, bs: seq<Block>, threshold: int, x: nat) returns (y: nat)
    requires IsBlockList(witnessText, reading, bs) && 0 < x <= |bs| + 1
    ensures y < x
    ensures UnreadAt(witnessText, reading, bs, threshold, y) == LongestUnread(witnessText, reading, bs, threshold, x)
  {
    y := x - 1;
    if x > 1 {
      var z := LongestIsAGaps(witnessText, reading, bs, threshold, x - 1);
      var last := UnreadAt(witnessText, reading, bs, threshold, y);
      if last < LongestUnread(witnessText, reading, bs, threshold, x - 1) { y := z; }
    }
  }

  /** What a gap credits and leaves unread is its length. */
  lemma GapAccounted(reading: string, g: Range, threshold: int)
    requires threshold > 0 && 0 <= g.j0 <= g.j1 <= |reading| && g.i0 <= g.i1
    ensures Credited(reading, g, threshold) + Unread(reading, g, threshold) == g.i1 - g.i0
  {
    CreditBounds(reading[g.j0..g.j1], threshold);
  }

  lemma {:induction false} TotalsAreOrdered(
      witnessText: string, reading: string, bs: seq<Block>, threshold: int, x: nat)
    requires threshold > 0 && IsBlockList(witnessText, reading, bs) && x <= |bs| + 1
    ensures 0 <= LongestUnread(witnessText, reading, bs, threshold, x) <= TotalUnread(witnessText, reading, bs,
              threshold, x)
    ensures 0 <= TotalCredited(witnessText, reading, bs, threshold, x)
  {
    if x > 0 {
      TotalsAreOrdered(witnessText, reading, bs, threshold, x - 1);
      var g := GapAt(witnessText, reading, bs, x - 1);
      CreditBounds(reading[g.j0..g.j1], threshold);
    }
  }

  /** Texts of one length, blocks on the main diagonal, and no gap past the threshold. */
  ghost predicate IsTight(bs: seq<Block>, witnessText: string, reading: string, threshold: int) {
    |witnessText| == |reading| && OnDiagonal(bs) && SmallGaps(bs, Whole(witnessText, reading), threshold + 1)
  }

  /** A short gap on the main diagonal leaves nothing unread, marked or not. */
  lemma {:induction false} ShortGapIsRead(reading: string, g: Range, threshold: int)
    requires 0 <= g.j0 <= g.j1 <= |reading| && threshold > 0
    requires g.i1 - g.i0 == g.j1 - g.j0 <= threshold
    ensures Unread(reading, g, threshold) == 0
  {
    CreditBounds(reading[g.j0..g.j1], threshold);
  }

  lemma {:induction false} TightGapIsRead(witnessText: string, reading: string, bs: seq<Block>, threshold: int, x: nat)
    requires threshold > 0 && IsBlockList(witnessText, reading, bs) && x <= |bs|
    requires IsTight(bs, witnessText, reading, threshold)
    ensures Unread(reading, GapAt(witnessText, reading, bs, x), threshold) == 0
  {
    assert Gap(bs, Whole(witnessText, reading), x).i1 - Gap(bs, Whole(witnessText, reading), x).i0 < threshold + 1;
    ShortGapIsRead(reading, GapAt(witnessText, reading, bs, x), threshold);
  }

  ghost predicate NothingUnread(witnessText: string, reading: string, bs: seq<Block>, threshold: int)
    requires IsBlockList(witnessText, reading, bs)
  {
    forall y: nat {:trigger GapAt(witnessText, reading, bs, y)} :: y <= |bs| ==>
      Unread(reading, GapAt(witnessText, reading, bs, y), threshold) == 0
  }

  lemma {:induction false} NothingInTotal(witnessText: string, reading: string, bs: seq<Block>, threshold: int, x: nat)
    requires IsBlockList(witnessText, reading, bs) && x <= |bs| + 1
    requires NothingUnread(witnessText, reading, bs, threshold)
    ensures TotalUnread(witnessText, reading, bs, threshold, x) == 0
  {
    if x > 0 { NothingInTotal(witnessText, reading, bs, threshold, x - 1); }
  }

  lemma {:induction false} TightIsRead(witnessText: string, reading: string, bs: seq<Block>, threshold: int)
    requires threshold > 0 && IsBlockList(witnessText, reading, bs)
    requires IsTight(bs, witnessText, reading, threshold)
    ensures TotalUnread(witnessText, reading, bs, threshold, |bs| + 1) == 0
  {
    forall y: nat | y <= |bs|
      ensures Unread(reading, GapAt(witnessText, reading, bs, y), threshold) == 0
    {
      TightGapIsRead(witnessText, reading, bs, threshold, y);
    }
    NothingInTotal(witnessText, reading, bs, threshold, |bs| + 1);
  }

  // --- the ledger ------------------------------------------------------------------------------------

  /** The counts after `gaps` gaps and `blocks` blocks. */
  ghost predicate Tallies(
    c: TextCoverage, witnessText: string, reading: string, bs: seq<Block>, threshold: int, gaps: nat, blocks: nat)
    requires IsBlockList(witnessText, reading, bs) && gaps <= |bs| + 1 && blocks <= |bs|
  {
    && c.witnessCharacters == |witnessText| && |c.position| == |witnessText| + 1
    && c.matchedCharacters == MatchedIn(bs, blocks)
    && c.unreadCharacters == TotalUnread(witnessText, reading, bs, threshold, gaps)
    && c.unreadRun == LongestUnread(witnessText, reading, bs, threshold, gaps)
  }

  /** What the ledger keeps after `x` gaps and the blocks between them. */
  ghost predicate IsLedger(
      c: TextCoverage, witnessText: string, reading: string, bs: seq<Block>, threshold: int, x: nat)
    requires IsBlockList(witnessText, reading, bs) && x <= |bs|
  {
    var g := GapAt(witnessText, reading, bs, x);
    && Tallies(c, witnessText, reading, bs, threshold, x, x) && IsMap(c.position, g.i0, g.j0)
    && MapsBlocks(c.position, bs, x) && SpreadsGaps(c.position, bs, Whole(witnessText, reading), x)
  }

  /** What it keeps once gap `x` is taken. */
  ghost predicate IsLedgerPastGap(
    c: TextCoverage, witnessText: string, reading: string, bs: seq<Block>, threshold: int, x: nat)
    requires IsBlockList(witnessText, reading, bs) && x <= |bs|
  {
    var g := GapAt(witnessText, reading, bs, x);
    && Tallies(c, witnessText, reading, bs, threshold, x + 1, x) && IsMap(c.position, g.i1, g.j1)
    && MapsBlocks(c.position, bs, x) && SpreadsGaps(c.position, bs, Whole(witnessText, reading), x + 1)
  }

  /** A coverage that accounts for every witness character once: matched by a block, credited or
      unread in a gap; with a sound position map. */
  ghost predicate IsCoverage(c: TextCoverage, witnessText: string, reading: string, bs: seq<Block>, threshold: int)
    requires IsBlockList(witnessText, reading, bs)
  {
    && Tallies(c, witnessText, reading, bs, threshold, |bs| + 1, |bs|)
    && c.matchedCharacters + TotalCredited(witnessText, reading, bs, threshold, |bs| + 1) + c.unreadCharacters
         == |witnessText|
    && 0 <= c.unreadRun <= c.unreadCharacters && 0 <= TotalCredited(witnessText, reading, bs, threshold, |bs| + 1)
    && IsMap(c.position, |witnessText| + 1, |reading|) && c.position[|witnessText|] == |reading|
    && MapsBlocks(c.position, bs, |bs|) && SpreadsGaps(c.position, bs, Whole(witnessText, reading), |bs| + 1)
  }

  /** Every position a block holds is sent to an equal character. */
  lemma {:induction false} MatchedCharactersAgree(
    c: TextCoverage, witnessText: string, reading: string, bs: seq<Block>, threshold: int, y: nat, t: int)
    requires IsBlockList(witnessText, reading, bs) && IsCoverage(c, witnessText, reading, bs, threshold)
    requires y < |bs| && bs[y].i <= t < bs[y].i + bs[y].size
    ensures 0 <= t < |witnessText| && 0 <= c.position[t] < |reading| && witnessText[t] == reading[c.position[t]]
  {
    var m := bs[y];
    assert MapsBlock(c.position, m);
    assert witnessText[m.i..m.i + m.size][t - m.i] == reading[m.j..m.j + m.size][t - m.i];
  }

  lemma {:induction false} EarlierBlocksEnd(witnessText: string, reading: string, bs: seq<Block>, x: nat)
    requires IsBlockList(witnessText, reading, bs) && x <= |bs|
    ensures forall y :: 0 <= y < x ==> bs[y].i + bs[y].size <= Gap(bs, Whole(witnessText, reading), x).i0
  {
    forall y | 0 <= y < x
      ensures bs[y].i + bs[y].size <= Gap(bs, Whole(witnessText, reading), x).i0
    {
      if y < x - 1 { assert Before(BlockRange(bs[y]), BlockRange(bs[x - 1])); }
    }
  }

  lemma {:induction false} EarlierGapsEnd(witnessText: string, reading: string, bs: seq<Block>, x: nat)
    requires IsBlockList(witnessText, reading, bs) && x <= |bs|
    ensures forall y {:trigger Gap(bs, Whole(witnessText, reading), y)} :: 0 <= y < x ==>
              Gap(bs, Whole(witnessText, reading), y).i1 <= Gap(bs, Whole(witnessText, reading), x).i0
  {
    EarlierBlocksEnd(witnessText, reading, bs, x);
  }

  /** Positions written past the gaps and blocks taken leave theirs as they were. */
  lemma {:induction false} PositionsStay(
    witnessText: string, reading: string, bs: seq<Block>, before: seq<int>, after: seq<int>, x: nat, gaps: nat, n: int)
    requires IsBlockList(witnessText, reading, bs) && x <= |bs| && x <= gaps <= x + 1
    requires MapsBlocks(before, bs, x) && SpreadsGaps(before, bs, Whole(witnessText, reading), gaps)
    requires |before| == |after| && 0 <= n <= |before| && before[..n] == after[..n]
    requires var g := GapAt(witnessText, reading, bs, x); g.i0 <= n && (gaps == x + 1 ==> g.i1 <= n)
    ensures MapsBlocks(after, bs, x) && SpreadsGaps(after, bs, Whole(witnessText, reading), gaps)
  {
    EarlierBlocksEnd(witnessText, reading, bs, x);
    EarlierGapsEnd(witnessText, reading, bs, x);
    MapsStay(before, after, bs, x, n);
    SpreadsStay(before, after, bs, Whole(witnessText, reading), gaps, n);
  }

  lemma {:induction false} PositionsPastGap(
    witnessText: string, reading: string, bs: seq<Block>, before: seq<int>, after: seq<int>, x: nat)
    requires IsBlockList(witnessText, reading, bs) && x <= |bs| && |before| == |after| == |witnessText| + 1
    requires MapsBlocks(before, bs, x) && SpreadsGaps(before, bs, Whole(witnessText, reading), x)
    requires var g := GapAt(witnessText, reading, bs, x); before[..g.i0] == after[..g.i0] && SpreadsGap(after, g)
    ensures MapsBlocks(after, bs, x) && SpreadsGaps(after, bs, Whole(witnessText, reading), x + 1)
  {
    var r := Whole(witnessText, reading);
    PositionsStay(witnessText, reading, bs, before, after, x, x, GapAt(witnessText, reading, bs, x).i0);
    forall y | 0 <= y < x + 1
      ensures SpreadsGap(after, Gap(bs, r, y))
    {
      if y < x { assert SpreadsGap(after, Gap(bs, r, y)); }
    }
  }

  lemma {:induction false} PositionsPastBlock(
    witnessText: string, reading: string, bs: seq<Block>, before: seq<int>, after: seq<int>, x: nat)
    requires IsBlockList(witnessText, reading, bs) && x < |bs| && |before| == |after| == |witnessText| + 1
    requires MapsBlocks(before, bs, x) && SpreadsGaps(before, bs, Whole(witnessText, reading), x + 1)
    requires 0 <= bs[x].i <= |before| && before[..bs[x].i] == after[..bs[x].i] && MapsBlock(after, bs[x])
    ensures MapsBlocks(after, bs, x + 1) && SpreadsGaps(after, bs, Whole(witnessText, reading), x + 1)
  {
    GapInside(witnessText, reading, bs, x);
    PositionsStay(witnessText, reading, bs, before, after, x, x + 1, bs[x].i);
    forall y | 0 <= y < x + 1
      ensures MapsBlock(after, bs[y])
    {
      if y < x { assert MapsBlock(after, bs[y]); }
    }
  }

  lemma TalliesPastGap(
    c: TextCoverage, after: TextCoverage, witnessText: string, reading: string, bs: seq<Block>, threshold: int, x: nat)
    requires IsBlockList(witnessText, reading, bs) && x <= |bs|
    requires Tallies(c, witnessText, reading, bs, threshold, x, x) && |after.position| == |c.position|
    requires var unread := Unread(reading, GapAt(witnessText, reading, bs, x), threshold);
             after == c.(unreadRun := Max(c.unreadRun, unread), unreadCharacters := c.unreadCharacters + unread,
               position := after.position)
    ensures Tallies(after, witnessText, reading, bs, threshold, x + 1, x)
  {
  }

  /** One gap: what it leaves unread, and where its offsets go. */
  method TakeGap(c: TextCoverage, witnessText: string, reading: string, bs: seq<Block>, threshold: int, x: nat)
    returns (after: TextCoverage)
    requires threshold > 0 && IsBlockList(witnessText, reading, bs) && x <= |bs|
    requires IsLedger(c, witnessText, reading, bs, threshold, x)
    ensures IsLedgerPastGap(after, witnessText, reading, bs, threshold, x)
  {
    var g := Gap(bs, Whole(witnessText, reading), x);
    GapInside(witnessText, reading, bs, x);
    var opposite := reading[g.j0..g.j1];
    var unread := Max(0, g.i1 - g.i0 - Credit(opposite, threshold));
    var position := FillGap(c.position, g);
    PositionsPastGap(witnessText, reading, bs, c.position, position, x);
    after := c.(unreadRun := Max(c.unreadRun, unread), unreadCharacters := c.unreadCharacters + unread,
               position := position);
    TalliesPastGap(c, after, witnessText, reading, bs, threshold, x);
  }

  /** The block after a gap. */
  method TakeBlock(c: TextCoverage, witnessText: string, reading: string, bs: seq<Block>, threshold: int, x: nat)
    returns (after: TextCoverage)
    requires IsBlockList(witnessText, reading, bs) && x < |bs|
    requires IsLedgerPastGap(c, witnessText, reading, bs, threshold, x)
    ensures IsLedger(after, witnessText, reading, bs, threshold, x + 1)
  {
    var m := bs[x];
    var position := FillBlock(c.position, m);
    PositionsPastBlock(witnessText, reading, bs, c.position, position, x);
    after := c.(matchedCharacters := c.matchedCharacters + m.size, position := position);
  }

  /** Run the ledger over an ordered block list. */
  method Ledger(witnessText: string, reading: string, blocks: seq<Block>, threshold: int) returns (c: TextCoverage)
    requires threshold > 0 && IsBlockList(witnessText, reading, blocks)
    ensures IsCoverage(c, witnessText, reading, blocks, threshold)
    ensures UNREADABLE !in reading ==> c.unreadCharacters >= |witnessText| - |reading|
    ensures IsTight(blocks, witnessText, reading, threshold) ==> c.unreadCharacters == 0
  {
    c := TextCoverage(|witnessText|, 0, 0, 0, seq(|witnessText| + 1, p => 0));
    for x := 0 to |blocks|
      invariant IsLedger(c, witnessText, reading, blocks, threshold, x)
    {
      c := TakeGap(c, witnessText, reading, blocks, threshold, x);
      c := TakeBlock(c, witnessText, reading, blocks, threshold, x);
    }
    c := TakeGap(c, witnessText, reading, blocks, threshold, |blocks|);
    LastPosition(c, witnessText, reading, blocks, threshold);
    c := c.(position := c.position[|witnessText| := |reading|]);
    if UNREADABLE !in reading { ShorterLeavesUnread(c, witnessText, reading, blocks, threshold); }
    if IsTight(blocks, witnessText, reading, threshold) {
      TightIsRead(witnessText, reading, blocks, threshold);
    }
  }

  /** Align a witness text with a reading and count what is unread. */
  method Cover(witnessText: string, reading: string, policy: Policy, budget: WorkBudget)
    returns (found: Outcome<TextCoverage>, ghost bs: seq<Block>)
    requires policy.Positive() && budget.Valid() && budget.left >= 0
    modifies budget
    ensures budget.Valid() && budget.left <= old(budget.left)
    ensures IsMeasuredWhenDue(witnessText, reading, policy, found, old(budget.left), budget.left)
    ensures found.Measured? ==> IsAlignment(witnessText, reading, policy, bs)
    ensures found.Measured? ==> IsCoverage(found.value, witnessText, reading, bs, policy.maxUnreadCharacters)
    ensures found.Measured? && UNREADABLE !in reading
            ==> found.value.unreadCharacters >= |witnessText| - |reading|
    ensures found.Measured? && witnessText == reading && policy.maxUnreadCharacters >= policy.minBlockCharacters - 1
            ==> found.value.unreadCharacters == 0
  {
    var aligned := MatchingBlocks(witnessText, reading, policy, budget);
    bs := [];
    if aligned.NotMeasured? { return NotMeasured(aligned.reason), []; }
    bs := aligned.value;
    var c := Ledger(witnessText, reading, aligned.value, policy.maxUnreadCharacters);
    if witnessText == reading && policy.maxUnreadCharacters >= policy.minBlockCharacters - 1 {
      OwnTextIsTight(witnessText, policy, bs);
    }
    found := Measured(c);
  }

  lemma OwnTextIsTight(t: string, policy: Policy, bs: seq<Block>)
    requires policy.Positive() && IsAlignment(t, t, policy, bs)
             && policy.maxUnreadCharacters >= policy.minBlockCharacters - 1
    ensures IsTight(bs, t, t, policy.maxUnreadCharacters)
  {
    forall x | 0 <= x <= |bs|
      ensures var g := Gap(bs, Whole(t, t), x); g.i1 - g.i0 < policy.maxUnreadCharacters + 1
    {
      assert Gap(bs, Whole(t, t), x) == Gap(bs, Everything(t, t), x);
    }
  }

  lemma ClosedMap(position: seq<int>, n: nat, limit: nat)
    requires |position| == n + 1 && IsMap(position, n, limit)
    ensures var closed := position[n := limit]; closed[..n] == position[..n] && IsMap(closed, n + 1, limit)
  {
  }

  /** Every gap and block taken: closing the position map closes the ledger. */
  lemma {:induction false} LastPosition(
      c: TextCoverage, witnessText: string, reading: string, bs: seq<Block>, threshold: int)
    requires threshold > 0 && IsBlockList(witnessText, reading, bs)
    requires IsLedgerPastGap(c, witnessText, reading, bs, threshold, |bs|)
    ensures IsCoverage(c.(position := c.position[|witnessText| := |reading|]), witnessText, reading, bs, threshold)
  {
    AllAccounted(witnessText, reading, bs, threshold, |bs|);
    TotalsAreOrdered(witnessText, reading, bs, threshold, |bs| + 1);
    var position := c.position[|witnessText| := |reading|];
    ClosedMap(c.position, |witnessText|, |reading|);
    PositionsStay(witnessText, reading, bs, c.position, position, |bs|, |bs| + 1, |witnessText|);
  }

  /** A mark-free text small enough to be aligned directly is wholly read against itself exactly
      when it has the minimum block length or is no longer than the threshold. */
  lemma {:induction false} ShortTextAgainstItself(t: string, policy: Policy, bs: seq<Block>)
    requires policy.Positive() && IsAlignment(t, t, policy, bs) && UNREADABLE !in t
    requires IsDirect(t, t, policy)
    ensures TotalUnread(t, t, bs, policy.maxUnreadCharacters, |bs| + 1) == 0
       <==> |t| >= policy.minBlockCharacters || |t| <= policy.maxUnreadCharacters
  {
    var threshold, r := policy.maxUnreadCharacters, Whole(t, t);
    assert TotalUnread(t, t, bs, threshold, 1) == Unread(t, Gap(bs, r, 0), threshold);
    if |t| >= policy.minBlockCharacters {
      assert bs == [Block(0, 0, |t|)];
      ShortGapIsRead(t, Gap(bs, r, 0), threshold);
      ShortGapIsRead(t, Gap(bs, r, 1), threshold);
    } else {
      assert bs == [] && t[0..|t|] == t;
    }
  }

  /** Three characters against themselves, with blocks of at least four and one character credited a
      gap: the one alignment there is leaves two of them unread. */
  lemma {:induction false} OwnTextLeftUnread(policy: Policy, bs: seq<Block>)
    requires policy.Positive() && policy.minBlockCharacters == 4 && policy.maxUnreadCharacters == 1
    requires policy.directAlignmentMaxPairs >= 9
    ensures IsAlignment("Ana", "Ana", policy, bs) <==> bs == []
    ensures TotalUnread("Ana", "Ana", [], 1, 1) == 2
  {
    NothingDirect("Ana", policy);
    NothingAligned("Ana", policy, bs);
    AllUnread("Ana");
  }

  /** A text shorter than the minimum block has no direct block against itself. */
  lemma NothingDirect(t: string, policy: Policy)
    requires policy.Positive() && |t| < policy.minBlockCharacters
    ensures Direct(t, t, Everything(t, t), policy) == []
  {
    assert BandAnswer(t, t, Everything(t, t), policy).size < policy.minBlockCharacters
           || !Inside(BlockRange(BandAnswer(t, t, Everything(t, t), policy)), Everything(t, t));
  }

  lemma NothingAligned(t: string, policy: Policy, bs: seq<Block>)
    requires policy.Positive() && |t| < policy.minBlockCharacters && IsDirect(t, t, policy)
    requires Direct(t, t, Everything(t, t), policy) == []
    ensures IsAlignment(t, t, policy, bs) <==> bs == []
  {
    DirectCourse(t, t, policy);
    if bs == [] {
      WholeGap(t, t, policy);
    }
  }

  /** With no block the one gap is the whole of both texts. */
  lemma WholeGap(a: string, b: string, policy: Policy)
    requires policy.Positive() && (|a| < policy.minBlockCharacters || |b| < policy.minBlockCharacters)
    ensures GapsExhausted(a, b, [], policy)
  {
  }

  lemma AllUnread(t: string)
    requires t == "Ana"
    ensures TotalUnread(t, t, [], 1, 1) == 2
  {
    assert t[0..3] == t && CountMarks(t) == 0;
    assert TotalUnread(t, t, [], 1, 1) == Unread(t, GapAt(t, t, [], 0), 1);
  }
}
