/** Blocks from the anchor chain, and the anchors whose offset agrees with their neighbours'. */
module Anchors {
  import opened Arithmetic
  import opened Alignment
  import opened Blocks
  import opened Patience
  import Sorting

  /** Blocks strictly in order on both texts. */
  ghost predicate IsAscending(bs: seq<Block>) {
    forall x, y {:trigger Before(BlockRange(bs[x]), BlockRange(bs[y]))} ::
      0 <= x < y < |bs| ==> Before(BlockRange(bs[x]), BlockRange(bs[y]))
  }

  /** Ordered genuine blocks of the range; on the main diagonal when a text meets itself. */
  ghost predicate AreAnchors(a: string, b: string, r: Range, bs: seq<Block>) {
    && IsAscending(bs) && AllRuns(a, b, bs) && AllInside(bs, [], r)
    && (a == b && IsSquare(r) ==> forall x :: 0 <= x < |bs| ==> bs[x].i == bs[x].j)
  }

  lemma RunAgrees(a: string, b: string, m: Block, t: nat)
    requires IsRun(a, b, m) && t < m.size
    ensures a[m.i + t] == b[m.j + t]
  {
    var u, v := a[m.i..m.i + m.size], b[m.j..m.j + m.size];
    assert u[t] == a[m.i + t] && v[t] == b[m.j + t];
  }

  /** Runs on one diagonal that touch or overlap make one run. */
  lemma {:induction false} MergeRuns(a: string, b: string, m: Block, n: Block)
    requires IsRun(a, b, m) && IsRun(a, b, n) && m.i - m.j == n.i - n.j && m.i <= n.i <= m.i + m.size
    ensures IsRun(a, b, Block(m.i, m.j, Max(m.size, n.i + n.size - m.i)))
  {
    var size := Max(m.size, n.i + n.size - m.i);
    var u, v := a[m.i..m.i + size], b[m.j..m.j + size];
    forall t | 0 <= t < size
      ensures u[t] == v[t]
    {
      if t < m.size {
        RunAgrees(a, b, m, t);
      } else {
        RunAgrees(a, b, n, m.i + t - n.i);
      }
      assert u[t] == a[m.i + t] && v[t] == b[m.j + t];
    }
  }

  /** A pair of the chain, as a block of `k` characters. */
  function PairBlock(p: Pair, k: int): Block {
    Block(p.i, p.j, k)
  }

  /** A chain of runs inside the range, ascending on both texts. */
  ghost predicate IsRunChain(a: string, b: string, r: Range, k: int, chain: seq<Pair>) {
    && k > 0
    && (forall x :: 0 <= x < |chain| ==>
          IsRun(a, b,
          PairBlock(chain[x], k)) && Inside(BlockRange(PairBlock(chain[x], k)), r))
    && (forall x, y :: 0 <= x < y < |chain| ==> chain[x].i < chain[y].i && chain[x].j < chain[y].j)
    && (a == b && IsSquare(r) ==> forall x :: 0 <= x < |chain| ==> chain[x].i == chain[x].j)
  }

  /** Blocks built from the chain up to `c`: the last starts at or before the last pair used. */
  ghost predicate IsBuilt(a: string, b: string, r: Range, k: int, chain: seq<Pair>, c: int, bs: seq<Block>) {
    && AreAnchors(a, b, r, bs) && 0 <= c <= |chain|
    && (c > 0 ==> |bs| > 0 && bs[|bs| - 1].i <= chain[c - 1].i && bs[|bs| - 1].j <= chain[c - 1].j)
    && (c == 0 ==> bs == [])
  }

  function TakePair(bs: seq<Block>, p: Pair, k: int): seq<Block> {
    if |bs| == 0 then [PairBlock(p, k)]
    else
      var m := bs[|bs| - 1];
      if p.i - p.j == m.i - m.j && p.i <= m.i + m.size then
        bs[..|bs| - 1] + [Block(m.i, m.j, Max(m.size, p.i + k - m.i))]
      else if p.i < m.i + m.size || p.j < m.j + m.size then bs
      else bs + [PairBlock(p, k)]
  }

  lemma {:induction false} WidenLast(a: string, b: string, r: Range, bs: seq<Block>, size: int)
    requires AreAnchors(a, b, r, bs) && |bs| > 0
    requires var m := bs[|bs| - 1];
             size > 0 && IsRun(a, b, Block(m.i, m.j, size))
             && Inside(BlockRange(Block(m.i, m.j, size)), r)
    ensures var m := bs[|bs| - 1]; AreAnchors(a, b, r, bs[..|bs| - 1] + [Block(m.i, m.j, size)])
  {
    var n := |bs| - 1;
    var bs' := bs[..n] + [Block(bs[n].i, bs[n].j, size)];
    forall x, y | 0 <= x < y < |bs'|
      ensures Before(BlockRange(bs'[x]), BlockRange(bs'[y]))
    {
      assert Before(BlockRange(bs[x]), BlockRange(bs[y]));
    }
  }

  lemma {:induction false} AppendBlock(a: string, b: string, r: Range, bs: seq<Block>, m: Block)
    requires AreAnchors(a, b, r, bs) && m.size > 0 && IsRun(a, b, m) && Inside(BlockRange(m), r)
    requires |bs| > 0 ==> Before(BlockRange(bs[|bs| - 1]), BlockRange(m))
    requires a == b && IsSquare(r) ==> m.i == m.j
    ensures AreAnchors(a, b, r, bs + [m])
  {
    var n := |bs| - 1;
    var bs' := bs + [m];
    forall x, y | 0 <= x < y < |bs'|
      ensures Before(BlockRange(bs'[x]), BlockRange(bs'[y]))
    {
      if y <= n { assert Before(BlockRange(bs[x]), BlockRange(bs[y])); }
      else if x < n { assert Before(BlockRange(bs[x]), BlockRange(bs[n])); }
    }
  }

  /** A pair on the last block's diagonal, touching it, widens it. */
  lemma {:induction false} WidenByPair(a: string, b: string, r: Range, k: int, bs: seq<Block>, p: Pair)
    requires k > 0 && AreAnchors(a, b, r, bs) && |bs| > 0
    requires IsRun(a, b, PairBlock(p, k)) && Inside(BlockRange(PairBlock(p, k)), r)
    requires var m := bs[|bs| - 1]; p.i - p.j == m.i - m.j && m.i <= p.i <= m.i + m.size
    ensures var m := bs[|bs| - 1]; AreAnchors(a, b, r, bs[..|bs| - 1] + [Block(m.i, m.j, Max(m.size, p.i + k - m.i))])
  {
    var m := bs[|bs| - 1];
    MergeRuns(a, b, m, PairBlock(p, k));
    WidenLast(a, b, r, bs, Max(m.size, p.i + k - m.i));
  }

  lemma RunsRise(a: string, b: string, r: Range, k: int, chain: seq<Pair>, c: int)
    requires IsRunChain(a, b, r, k, chain) && 0 < c < |chain|
    ensures chain[c - 1].i < chain[c].i && chain[c - 1].j < chain[c].j
  {
  }

  lemma FirstBlock(a: string, b: string, r: Range, n: Block)
    requires n.size > 0 && IsRun(a, b, n) && Inside(BlockRange(n), r) && (a == b && IsSquare(r) ==> n.i == n.j)
    ensures AreAnchors(a, b, r, [n])
  {
    AppendBlock(a, b, r, [], n);
    assert [] + [n] == [n];
  }

  lemma {:induction false} TakePairKeeps(
      a: string, b: string, r: Range, k: int, chain: seq<Pair>, c: int, bs: seq<Block>)
    requires IsRunChain(a, b, r, k, chain) && IsBuilt(a, b, r, k, chain, c, bs) && c < |chain|
    ensures IsBuilt(a, b, r, k, chain, c + 1, TakePair(bs, chain[c], k))
  {
    var p := chain[c];
    var n := PairBlock(p, k);
    if |bs| == 0 {
      FirstBlock(a, b, r, n);
    } else {
      var m := bs[|bs| - 1];
      RunsRise(a, b, r, k, chain, c);
      if p.i - p.j == m.i - m.j && p.i <= m.i + m.size {
        WidenByPair(a, b, r, k, bs, p);
      } else if !(p.i < m.i + m.size || p.j < m.j + m.size) {
        AppendBlock(a, b, r, bs, n);
      }
    }
  }

  // --- what the blocks make of the chain ------------------------------------------------------------

  /** The pair's `k` characters lie in the block. */
  predicate Holds(m: Block, p: Pair, k: int) {
    p.i - p.j == m.i - m.j && m.i <= p.i && p.i + k <= m.i + m.size
  }

  /** The pair is on another diagonal and starts inside the block on one of the texts. */
  predicate Crosses(m: Block, p: Pair) {
    p.i - p.j != m.i - m.j && m.i <= p.i && m.j <= p.j && (p.i < m.i + m.size || p.j < m.j + m.size)
  }

  /** The pair lies in a block, or is skipped for crossing one that starts no later. */
  ghost predicate IsPlaced(bs: seq<Block>, p: Pair, k: int) {
    exists m :: m in bs && (Holds(m, p, k) || Crosses(m, p))
  }

  /** The block starts where a pair of the chain starts and ends where one ends. */
  ghost predicate FromPairs(chain: seq<Pair>, m: Block, k: int) {
    && (exists p :: p in chain && p.i == m.i && p.j == m.j)
    && (exists p :: p in chain && p.i + k == m.i + m.size && p.j + k == m.j + m.size)
  }

  ghost predicate AllFromPairs(bs: seq<Block>, chain: seq<Pair>, k: int) {
    forall m {:trigger FromPairs(chain, m, k)} :: m in bs ==> FromPairs(chain, m, k)
  }

  ghost predicate AllPlaced(bs: seq<Block>, chain: seq<Pair>, k: int) {
    forall p {:trigger IsPlaced(bs, p, k)} :: p in chain ==> IsPlaced(bs, p, k)
  }

  /** The blocks start and end at pairs of the chain, and every pair is in one or skipped for one. */
  ghost predicate AreMadeOf(bs: seq<Block>, chain: seq<Pair>, k: int) {
    AllFromPairs(bs, chain, k) && AllPlaced(bs, chain, k)
  }

  ghost predicate HasGrown(more: seq<Block>, m: Block) {
    exists n :: n in more && n.i == m.i && n.j == m.j && m.size <= n.size
  }

  /** Every block is still there, perhaps longer. */
  ghost predicate HaveGrown(bs: seq<Block>, more: seq<Block>) {
    forall m {:trigger HasGrown(more, m)} :: m in bs ==> HasGrown(more, m)
  }

  lemma InMore<T>(s: seq<T>, x: T)
    ensures x in s + [x] && forall y :: y in s + [x] <==> y in s || y == x
  {
  }

  lemma FromMorePairs(chain: seq<Pair>, p: Pair, m: Block, k: int)
    requires FromPairs(chain, m, k)
    ensures FromPairs(chain + [p], m, k)
  {
    InMore(chain, p);
    var s :| s in chain && s.i == m.i && s.j == m.j;
    var e :| e in chain && e.i + k == m.i + m.size && e.j + k == m.j + m.size;
    assert s in chain + [p] && e in chain + [p];
  }

  lemma AllFromMorePairs(bs: seq<Block>, chain: seq<Pair>, p: Pair, k: int)
    requires AllFromPairs(bs, chain, k)
    ensures AllFromPairs(bs, chain + [p], k)
  {
    forall m | m in bs
      ensures FromPairs(chain + [p], m, k)
    {
      assert FromPairs(chain, m, k);
      FromMorePairs(chain, p, m, k);
    }
  }

  lemma PlacedStill(bs: seq<Block>, more: seq<Block>, p: Pair, k: int)
    requires IsPlaced(bs, p, k) && HaveGrown(bs, more)
    ensures IsPlaced(more, p, k)
  {
    var m :| m in bs && (Holds(m, p, k) || Crosses(m, p));
    assert HasGrown(more, m);
    var n :| n in more && n.i == m.i && n.j == m.j && m.size <= n.size;
    assert Holds(n, p, k) || Crosses(n, p);
  }

  /** The chain so far stays placed, and so is one pair more. */
  lemma PlacedWithOne(bs: seq<Block>, more: seq<Block>, chain: seq<Pair>, p: Pair, k: int)
    requires AllPlaced(bs, chain, k) && HaveGrown(bs, more) && IsPlaced(more, p, k)
    ensures AllPlaced(more, chain + [p], k)
  {
    InMore(chain, p);
    forall q | q in chain + [p]
      ensures IsPlaced(more, q, k)
    {
      if q in chain {
        assert IsPlaced(bs, q, k);
        PlacedStill(bs, more, q, k);
      }
    }
  }

  lemma GrownByOne(bs: seq<Block>, own: Block)
    ensures HaveGrown(bs, bs + [own]) && HaveGrown(bs, bs)
  {
    InMore(bs, own);
    forall m | m in bs
      ensures HasGrown(bs + [own], m) && HasGrown(bs, m)
    {
      assert m in bs + [own];
    }
  }

  lemma GrownByWidening(bs: seq<Block>, size: int)
    requires |bs| > 0 && bs[|bs| - 1].size <= size
    ensures var m := bs[|bs| - 1]; HaveGrown(bs, bs[..|bs| - 1] + [Block(m.i, m.j, size)])
  {
    var n := |bs| - 1;
    var wide := Block(bs[n].i, bs[n].j, size);
    var more := bs[..n] + [wide];
    InMore(bs[..n], wide);
    InMore(bs[..n], bs[n]);
    assert bs == bs[..n] + [bs[n]];
    forall m | m in bs
      ensures HasGrown(more, m)
    {
      if m in bs[..n] { assert m in more; } else { assert wide in more; }
    }
  }

  /** A block that starts where one did and ends where the new pair does. */
  lemma WideFromPairs(chain: seq<Pair>, p: Pair, m: Block, wide: Block, k: int)
    requires FromPairs(chain, m, k) && wide.i == m.i && wide.j == m.j
    requires p.i + k == wide.i + wide.size && p.j + k == wide.j + wide.size
    ensures FromPairs(chain + [p], wide, k)
  {
    InMore(chain, p);
    var s :| s in chain && s.i == m.i && s.j == m.j;
    assert s in chain + [p] && p in chain + [p];
  }

  /** The last block widened to the pair's end. */
  lemma {:induction false} WidenMade(bs: seq<Block>, chain: seq<Pair>, p: Pair, k: int)
    requires AreMadeOf(bs, chain, k) && |bs| > 0 && k > 0
    requires var m := bs[|bs| - 1]; p.i - p.j == m.i - m.j && m.i <= p.i && m.i + m.size <= p.i + k
    ensures var m := bs[|bs| - 1]; AreMadeOf(bs[..|bs| - 1] + [Block(m.i, m.j, p.i + k - m.i)], chain + [p], k)
  {
    var n := |bs| - 1;
    var m := bs[n];
    var wide := Block(m.i, m.j, p.i + k - m.i);
    var more := bs[..n] + [wide];
    InMore(bs[..n], wide);
    assert m in bs && FromPairs(chain, m, k);
    WideFromPairs(chain, p, m, wide, k);
    AllFromMorePairs(bs, chain, p, k);
    forall b | b in more
      ensures FromPairs(chain + [p], b, k)
    {
      assert b in bs[..n] ==> b in bs && FromPairs(chain + [p], b, k);
    }
    GrownByWidening(bs, wide.size);
    assert wide in more && Holds(wide, p, k);
    PlacedWithOne(bs, more, chain, p, k);
  }

  /** A pair appended as a block of its own. */
  lemma {:induction false} AppendMade(bs: seq<Block>, chain: seq<Pair>, p: Pair, k: int)
    requires AreMadeOf(bs, chain, k) && k > 0
    ensures AreMadeOf(bs + [PairBlock(p, k)], chain + [p], k)
  {
    var own := PairBlock(p, k);
    InMore(bs, own);
    InMore(chain, p);
    AllFromMorePairs(bs, chain, p, k);
    assert p in chain + [p];
    forall b | b in bs + [own]
      ensures FromPairs(chain + [p], b, k)
    {
      assert b in bs ==> FromPairs(chain + [p], b, k);
    }
    GrownByOne(bs, own);
    assert own in bs + [own] && Holds(own, p, k);
    PlacedWithOne(bs, bs + [own], chain, p, k);
  }

  /** A pair skipped for crossing a block. */
  lemma {:induction false} SkipMade(bs: seq<Block>, chain: seq<Pair>, p: Pair, k: int, m: Block)
    requires AreMadeOf(bs, chain, k) && m in bs && Crosses(m, p)
    ensures AreMadeOf(bs, chain + [p], k)
  {
    AllFromMorePairs(bs, chain, p, k);
    GrownByOne(bs, m);
    PlacedWithOne(bs, bs, chain, p, k);
  }

  /** Every block ends before a pair further along the chain ends. */
  lemma EndsEarlier(chain: seq<Pair>, c: nat, m: Block, k: int)
    requires c < |chain| && FromPairs(chain[..c], m, k)
    requires forall x, y :: 0 <= x < y < |chain| ==> chain[x].i < chain[y].i && chain[x].j < chain[y].j
    ensures m.i + m.size < chain[c].i + k
  {
    var e :| e in chain[..c] && e.i + k == m.i + m.size && e.j + k == m.j + m.size;
    var x :| 0 <= x < c && chain[..c][x] == e;
    assert chain[x].i < chain[c].i;
  }

  lemma {:induction false} TakeMade(bs: seq<Block>, used: seq<Pair>, p: Pair, k: int)
    requires AreMadeOf(bs, used, k) && k > 0
    requires |bs| > 0 ==> var m := bs[|bs| - 1]; m.i <= p.i && m.j <= p.j && m.i + m.size <= p.i + k
    ensures AreMadeOf(TakePair(bs, p, k), used + [p], k)
  {
    if |bs| == 0 {
      AppendMade(bs, used, p, k);
      assert bs + [PairBlock(p, k)] == [PairBlock(p, k)];
    } else {
      var m := bs[|bs| - 1];
      if p.i - p.j == m.i - m.j && p.i <= m.i + m.size {
        WidenMade(bs, used, p, k);
      } else if p.i < m.i + m.size || p.j < m.j + m.size {
        SkipMade(bs, used, p, k, m);
      } else {
        AppendMade(bs, used, p, k);
      }
    }
  }

  lemma {:induction false} TakePairMade(
    a: string, b: string, r: Range, k: int, chain: seq<Pair>, c: int, bs: seq<Block>)
    requires IsRunChain(a, b, r, k, chain) && IsBuilt(a, b, r, k, chain, c, bs) && c < |chain|
    requires AreMadeOf(bs, chain[..c], k)
    ensures AreMadeOf(TakePair(bs, chain[c], k), chain[..c + 1], k)
  {
    assert chain[..c + 1] == chain[..c] + [chain[c]];
    if |bs| > 0 {
      var m := bs[|bs| - 1];
      assert m in bs && FromPairs(chain[..c], m, k);
      assert chain[c - 1].i < chain[c].i && chain[c - 1].j < chain[c].j;
      EndsEarlier(chain, c, m, k);
    }
    TakeMade(bs, chain[..c], chain[c], k);
  }

  /** The first `n` pairs of the chain, each taken into the blocks before it. */
  function MergedUpTo(chain: seq<Pair>, n: nat, k: int): seq<Block>
    requires n <= |chain|
  {
    if n == 0 then [] else TakePair(MergedUpTo(chain, n - 1, k), chain[n - 1], k)
  }

  /** The blocks the first `c` pairs are merged into. */
  ghost predicate IsMerged(a: string, b: string, r: Range, k: int, chain: seq<Pair>, c: nat, bs: seq<Block>)
    requires c <= |chain|
  {
    bs == MergedUpTo(chain, c, k) && IsBuilt(a, b, r, k, chain, c, bs) && AreMadeOf(bs, chain[..c], k)
  }

  lemma NoneMerged(a: string, b: string, r: Range, k: int, chain: seq<Pair>)
    ensures IsMerged(a, b, r, k, chain, 0, [])
  {
  }

  lemma OneMerged(a: string, b: string, r: Range, k: int, chain: seq<Pair>, c: nat, bs: seq<Block>)
    requires IsRunChain(a, b, r, k, chain) && c < |chain| && IsMerged(a, b, r, k, chain, c, bs)
    ensures IsMerged(a, b, r, k, chain, c + 1, TakePair(bs, chain[c], k))
  {
    TakePairKeeps(a, b, r, k, chain, c, bs);
    TakePairMade(a, b, r, k, chain, c, bs);
  }

  lemma AllMerged(a: string, b: string, r: Range, k: int, chain: seq<Pair>, bs: seq<Block>)
    requires IsMerged(a, b, r, k, chain, |chain|, bs)
    ensures AreAnchors(a, b, r, bs) && AreMadeOf(bs, chain, k) && bs == MergedUpTo(chain, |chain|, k)
  {
    assert chain[..|chain|] == chain;
  }

  /** Merge same-diagonal neighbours and skip pairs that would overlap. */
  method MergeChain(a: string, b: string, r: Range, k: int, chain: seq<Pair>) returns (bs: seq<Block>)
    requires IsRunChain(a, b, r, k, chain)
    ensures AreAnchors(a, b, r, bs) && AreMadeOf(bs, chain, k) && bs == MergedUpTo(chain, |chain|, k)
  {
    bs := [];
    NoneMerged(a, b, r, k, chain);
    for c := 0 to |chain|
      invariant IsMerged(a, b, r, k, chain, c, bs)
    {
      OneMerged(a, b, r, k, chain, c, bs);
      bs := TakePair(bs, chain[c], k);
    }
    AllMerged(a, b, r, k, chain, bs);
  }

  /** The chain of unique grams meets what merging needs. */
  lemma {:induction false} UniqueChain(
      a: string, b: string, r: Range, k: int, pairs: seq<Pair>, at: seq<int>, chain: seq<Pair>)
    requires IsRange(a, b, r) && k > 0 && Ascends(pairs) && IsChain(pairs, at)
    requires forall p :: p in pairs ==> IsUniquePair(a, b, r, k, p)
    requires |chain| == |at| && forall m :: 0 <= m < |at| ==> chain[m] == pairs[at[m]]
    ensures IsRunChain(a, b, r, k, chain)
  {
    forall x | 0 <= x < |chain|
      ensures IsRun(a, b, PairBlock(chain[x], k)) && Inside(BlockRange(PairBlock(chain[x], k)), r)
      ensures a == b && IsSquare(r) ==> chain[x].i == chain[x].j
    {
      assert chain[x] in pairs;
      assert IsUniquePair(a, b, r, k, chain[x]);
    }
  }

  /** The pairs at the positions of a chain. */
  function Picked(pairs: seq<Pair>, at: seq<int>): (chain: seq<Pair>)
    requires forall m :: 0 <= m < |at| ==> 0 <= at[m] < |pairs|
    ensures |chain| == |at| && forall m :: 0 <= m < |at| ==> chain[m] == pairs[at[m]]
  {
    seq(|at|, m requires 0 <= m < |at| => pairs[at[m]])
  }

  /** Ordered runs made of a longest chain of the range's unique pairs, those in order on the first
      text. */
  ghost predicate IsAnchoring(
    a: string, b: string, r: Range, k: int, bs: seq<Block>, pairs: seq<Pair>, at: seq<int>)
  {
    && IsPairList(a, b, r, k, pairs) && IsLongestChain(pairs, at)
    && AreAnchors(a, b, r, bs) && AreMadeOf(bs, Picked(pairs, at), k)
  }

  /** The blocks a range's unique pairs come to: of their longest chains the one chosen, merged. */
  ghost function RawAnchors(a: string, b: string, r: Range, k: int): seq<Block> {
    var pairs := PairsOf(a, b, r, k);
    var chain := Picked(pairs, Chosen(pairs));
    MergedUpTo(chain, |chain|, k)
  }

  /** The anchors of a range: the longest chain of k-grams unique on both sides, merged. */
  method AnchorBlocks(a: string, b: string, r: Range, k: int) returns (bs: seq<Block>)
    requires IsRange(a, b, r) && k > 0
    ensures bs == RawAnchors(a, b, r, k)
    ensures IsAnchoring(a, b, r, k, bs, PairsOf(a, b, r, k), Chosen(PairsOf(a, b, r, k)))
  {
    var found := UniquePairs(a, b, r, k);
    var chain;
    ghost var at;
    chain, at := LongestChain(found);
    UniqueChain(a, b, r, k, found, at, chain);
    assert chain == Picked(found, at);
    bs := MergeChain(a, b, r, k, chain);
  }

  lemma {:induction false} MergedIsBuilt(a: string, b: string, r: Range, k: int, chain: seq<Pair>)
    requires IsRunChain(a, b, r, k, chain)
    ensures AreAnchors(a, b, r, MergedUpTo(chain, |chain|, k)) && AreMadeOf(MergedUpTo(chain, |chain|, k), chain, k)
  {
    var bs: seq<Block> := [];
    var c := 0;
    NoneMerged(a, b, r, k, chain);
    while c < |chain|
      invariant 0 <= c <= |chain| && IsMerged(a, b, r, k, chain, c, bs)
    {
      OneMerged(a, b, r, k, chain, c, bs);
      bs := TakePair(bs, chain[c], k);
      c := c + 1;
    }
    AllMerged(a, b, r, k, chain, bs);
  }

  /** Whatever the range, its blocks are made of a longest chain of its unique pairs. */
  lemma {:induction false} RawAnchorsAre(a: string, b: string, r: Range, k: int)
    requires IsRange(a, b, r) && k > 0
    ensures IsAnchoring(a, b, r, k, RawAnchors(a, b, r, k), PairsOf(a, b, r, k), Chosen(PairsOf(a, b, r, k)))
  {
    var pairs := PairsOf(a, b, r, k);
    var chain := Picked(pairs, Chosen(pairs));
    PairsAreListed(a, b, r, k);
    ChosenIsLongest(pairs);
    UniqueChain(a, b, r, k, pairs, Chosen(pairs), chain);
    MergedIsBuilt(a, b, r, k, chain);
  }

  // --- consistency ---------------------------------------------------------------------------------

  function Diagonals(bs: seq<Block>): (ds: seq<int>)
    ensures |ds| == |bs|
  {
    seq(|bs|, x requires 0 <= x < |bs| => bs[x].i - bs[x].j)
  }

  /** The median diagonal of the anchors within `reach` of `index`, itself included. */
  function MedianAround(bs: seq<Block>, index: nat, reach: nat): int
    requires index < |bs|
  {
    var window := Sorting.Sort(Diagonals(bs)[Max(0, index - reach)..Min(|bs|, index + reach + 1)], Sorting.IntLeq);
    window[|window| / 2]
  }

  predicate Agrees(bs: seq<Block>, index: nat, policy: Policy)
    requires index < |bs| && policy.anchorNeighbours >= 0
  {
    var off := bs[index].i - bs[index].j - MedianAround(bs, index, policy.anchorNeighbours);
    -policy.anchorOffsetTolerance <= off <= policy.anchorOffsetTolerance
  }

  /** The anchors among the first `n` whose offset agrees. */
  function KeptUpTo(bs: seq<Block>, n: nat, policy: Policy): seq<Block>
    requires n <= |bs| && policy.anchorNeighbours >= 0
  {
    if n == 0 then []
    else KeptUpTo(bs, n - 1, policy) + (if Agrees(bs, n - 1, policy) then [bs[n - 1]] else [])
  }

  /** The anchors a range is split at: those that agree with their neighbours. */
  ghost function AnchorsOf(a: string, b: string, r: Range, policy: Policy): seq<Block>
    requires policy.Positive()
  {
    var raw := RawAnchors(a, b, r, policy.anchorCharacters);
    KeptUpTo(raw, |raw|, policy)
  }

  ghost predicate AllBefore(kept: seq<Block>, bs: seq<Block>, n: int) {
    forall x, y {:trigger Before(BlockRange(kept[x]), BlockRange(bs[y]))} ::
      0 <= x < |kept| && 0 <= n <= y < |bs| ==> Before(BlockRange(kept[x]), BlockRange(bs[y]))
  }

  /** Dropping anchors keeps the rest ordered. */
  method ConsistentAnchors(a: string, b: string, r: Range, bs: seq<Block>, policy: Policy) returns (kept: seq<Block>)
    requires AreAnchors(a, b, r, bs) && policy.Positive()
    ensures AreAnchors(a, b, r, kept)
    ensures kept == KeptUpTo(bs, |bs|, policy)
  {
    kept := [];
    for index := 0 to |bs|
      invariant AreAnchors(a, b, r, kept) && AllBefore(kept, bs, index)
      invariant kept == KeptUpTo(bs, index, policy)
    {
      KeepNext(a, b, r, bs, kept, index);
      KeptNext(bs, index, policy);
      if Agrees(bs, index, policy) {
        kept := kept + [bs[index]];
      }
    }
  }

  lemma KeptNext(bs: seq<Block>, index: nat, policy: Policy)
    requires index < |bs| && policy.anchorNeighbours >= 0
    ensures KeptUpTo(bs, index + 1, policy)
         == KeptUpTo(bs, index, policy) + if Agrees(bs, index, policy) then [bs[index]] else []
  {
  }

  lemma {:induction false} KeepNext(a: string, b: string, r: Range, bs: seq<Block>, kept: seq<Block>, index: nat)
    requires AreAnchors(a, b, r, bs) && AreAnchors(a, b, r, kept) && index < |bs| && AllBefore(kept, bs, index)
    ensures AllBefore(kept, bs, index + 1)
    ensures AreAnchors(a, b, r, kept + [bs[index]]) && AllBefore(kept + [bs[index]], bs, index + 1)
  {
    if |kept| > 0 { assert Before(BlockRange(kept[|kept| - 1]), BlockRange(bs[index])); }
    AppendBlock(a, b, r, kept, bs[index]);
    var more := kept + [bs[index]];
    forall x, y | 0 <= x < |more| && index + 1 <= y < |bs|
      ensures Before(BlockRange(more[x]), BlockRange(bs[y]))
    {
      if x < |kept| { assert Before(BlockRange(kept[x]), BlockRange(bs[y])); }
      else { assert Before(BlockRange(bs[index]), BlockRange(bs[y])); }
    }
    forall x, y | 0 <= x < |kept| && index + 1 <= y < |bs|
      ensures Before(BlockRange(kept[x]), BlockRange(bs[y]))
    {
      assert Before(BlockRange(more[x]), BlockRange(bs[y]));
    }
  }

  lemma {:induction false} KeptAreAnchors(a: string, b: string, r: Range, bs: seq<Block>, policy: Policy)
    requires AreAnchors(a, b, r, bs) && policy.Positive()
    ensures AreAnchors(a, b, r, KeptUpTo(bs, |bs|, policy))
  {
    var kept: seq<Block> := [];
    var index := 0;
    while index < |bs|
      invariant 0 <= index <= |bs| && AreAnchors(a, b, r, kept) && AllBefore(kept, bs, index)
      invariant kept == KeptUpTo(bs, index, policy)
    {
      KeepNext(a, b, r, bs, kept, index);
      KeptNext(bs, index, policy);
      if Agrees(bs, index, policy) { kept := kept + [bs[index]]; }
      index := index + 1;
    }
  }

  /** Whatever the range, what it is split at are ordered runs inside it. */
  lemma {:induction false} AnchorsAre(a: string, b: string, r: Range, policy: Policy)
    requires IsRange(a, b, r) && policy.Positive()
    ensures AreAnchors(a, b, r, AnchorsOf(a, b, r, policy))
  {
    RawAnchorsAre(a, b, r, policy.anchorCharacters);
    KeptAreAnchors(a, b, r, RawAnchors(a, b, r, policy.anchorCharacters), policy);
  }
}
