/** Longest common runs inside a band of diagonals, under a budget of work. */
module Alignment {
  import opened Arithmetic

  /** `a[i..i + size]` and `b[j..j + size]`. */
  datatype Block = Block(i: int, j: int, size: int)

  /** `a[i0..i1]` against `b[j0..j1]`. */
  datatype Range = Range(i0: int, i1: int, j0: int, j1: int)

  datatype Reason = SizeBound | WorkBound
  datatype Outcome<T> = Measured(value: T) | NotMeasured(reason: Reason)

  function BlockRange(m: Block): Range {
    Range(m.i, m.i + m.size, m.j, m.j + m.size)
  }

  ghost predicate IsRange(a: string, b: string, r: Range) {
    0 <= r.i0 <= r.i1 <= |a| && 0 <= r.j0 <= r.j1 <= |b|
  }

  ghost predicate Inside(r: Range, outer: Range) {
    outer.i0 <= r.i0 <= r.i1 <= outer.i1 && outer.j0 <= r.j0 <= r.j1 <= outer.j1
  }

  /** The two texts agree on the block. */
  ghost predicate IsRun(a: string, b: string, m: Block) {
    && 0 <= m.i && 0 <= m.j && 0 <= m.size && m.i + m.size <= |a| && m.j + m.size <= |b|
    && a[m.i..m.i + m.size] == b[m.j..m.j + m.size]
  }

  /** A genuine run of `a` and `b` inside `r` on a diagonal from `low` to `high`. */
  ghost predicate IsRunIn(a: string, b: string, r: Range, low: int, high: int, m: Block) {
    IsRun(a, b, m) && Inside(BlockRange(m), r) && low <= m.i - m.j <= high
  }

  // --- the budget ---------------------------------------------------------------------------

  /** The work one page's alignment may do. `left` is what the source keeps; the ghost
      fields count what was charged and what was done. */
  class WorkBudget {
    var left: int
    ghost const steps: int
    ghost var charged: int
    ghost var done: int

    /** Work is charged before it is done, and never done past the budget. */
    ghost predicate Valid()
      reads this
    {
      0 <= done <= charged && done <= steps && left == steps - charged
    }

    constructor (steps: int)
      requires steps >= 0
      ensures Valid() && left == steps && charged == 0 && done == 0
    {
      left := steps;
      this.steps := steps;
      charged, done := 0, 0;
    }

    method Spend(steps: int) returns (ok: bool)
      requires Valid() && steps >= 0
      modifies this
      ensures Valid() && left == old(left) - steps && done == old(done) && charged == old(charged) + steps
      ensures ok <==> left >= 0
    {
      left := left - steps;
      charged := charged + steps;
      ok := left >= 0;
    }
  }

  // --- the longest run of a range -----------------------------------------------------------

  /** The length of the run that ends with `a[x]` and `b[y]`, not reaching before the range. */
  function Ending(a: string, b: string, r: Range, x: int, y: int): (n: nat)
    requires IsRange(a, b, r) && x < r.i1 && y < r.j1
    ensures n <= x - r.i0 + 1 || n == 0
    ensures n <= y - r.j0 + 1 || n == 0
    decreases x - r.i0
  {
    if x < r.i0 || y < r.j0 || a[x] != b[y] then 0 else Ending(a, b, r, x - 1, y - 1) + 1
  }

  lemma OneLonger(text: string, i: nat, n: nat)
    requires 0 < n && i + n <= |text|
    ensures text[i..i + n] == text[i..i + (n - 1)] + [text[i + n - 1]]
  {
  }

  /** A run one equal pair longer. */
  lemma RunOneLonger(a: string, b: string, i: nat, j: nat, n: nat)
    requires 0 < n && i + n <= |a| && j + n <= |b|
    requires IsRun(a, b, Block(i, j, n - 1)) && a[i + n - 1] == b[j + n - 1]
    ensures IsRun(a, b, Block(i, j, n))
  {
    OneLonger(a, i, n);
    OneLonger(b, j, n);
  }

  lemma {:induction false} EndingIsRun(a: string, b: string, r: Range, x: int, y: int)
    requires IsRange(a, b, r) && r.i0 <= x < r.i1 && r.j0 <= y < r.j1
    ensures var n := Ending(a, b, r, x, y); IsRunIn(a, b, r, x - y, x - y, Block(x - n + 1, y - n + 1, n))
    decreases x - r.i0
  {
    var n := Ending(a, b, r, x, y);
    if n > 1 {
      EndingIsRun(a, b, r, x - 1, y - 1);
    }
    if n > 0 {
      assert n == 1 ==> a[x..x] == b[y..y];
      RunOneLonger(a, b, x - n + 1, y - n + 1, n);
    }
  }

  /** No run inside the range is longer than the run ending where it ends. */
  lemma {:induction false} RunAtMostEnding(a: string, b: string, r: Range, m: Block)
    requires IsRange(a, b, r) && IsRun(a, b, m) && Inside(BlockRange(m), r) && m.size > 0
    ensures m.size <= Ending(a, b, r, m.i + m.size - 1, m.j + m.size - 1)
    decreases m.size
  {
    var x, y := m.i + m.size - 1, m.j + m.size - 1;
    assert a[m.i..m.i + m.size][m.size - 1] == a[x] && b[m.j..m.j + m.size][m.size - 1] == b[y];
    if m.size > 1 {
      var shorter := Block(m.i, m.j, m.size - 1);
      assert a[m.i..m.i + m.size][..m.size - 1] == a[m.i..m.i + shorter.size];
      assert b[m.j..m.j + m.size][..m.size - 1] == b[m.j..m.j + shorter.size];
      RunAtMostEnding(a, b, r, shorter);
    }
  }

  /** The run ending at `(u, v)` is no longer than `size`. */
  ghost predicate EndsWithin(a: string, b: string, r: Range, u: int, v: int, size: int)
    requires IsRange(a, b, r)
  {
    u < r.i1 && v < r.j1 ==> Ending(a, b, r, u, v) <= size
  }

  /** No run ending before `(x, y)`, row by row, is longer than `size`. */
  ghost predicate NoLonger(a: string, b: string, r: Range, size: int, x: int, y: int)
    requires IsRange(a, b, r)
  {
    forall u, v ::
      r.i0 <= u < r.i1 && r.j0 <= v < r.j1 && (u < x || (u == x && v < y)) ==> EndsWithin(a, b, r, u, v, size)
  }

  /** `row` holds the run lengths ending at text position `x`, one per column. */
  ghost predicate IsRow(a: string, b: string, r: Range, x: int, row: seq<nat>)
    requires IsRange(a, b, r) && x < r.i1
  {
    |row| <= r.j1 - r.j0 && forall c :: 0 <= c < |row| ==> row[c] == Ending(a, b, r, x, r.j0 + c)
  }

  /** A run of the range no shorter than any run looked at so far; empty when none was. */
  ghost predicate IsBest(a: string, b: string, r: Range, x: int, y: int, m: Block)
    requires IsRange(a, b, r)
  {
    && m.size >= 0
    && (m.size == 0 ==> m == Block(r.i0, r.j0, 0))
    && (m.size > 0 ==> IsRun(a, b, m) && Inside(BlockRange(m), r))
    && NoLonger(a, b, r, m.size, x, y) && IsFirst(a, b, r, m)
  }

  /** Every run of the range that ends before this one, row by row, is shorter. */
  ghost predicate IsFirst(a: string, b: string, r: Range, m: Block)
    requires IsRange(a, b, r)
  {
    m.size > 0 ==> NoLonger(a, b, r, m.size - 1, m.i + m.size - 1, m.j + m.size - 1)
  }

  /** The run of length `k` ending with `a[x]` and `b[y]`, if it is longer. */
  function Better(m: Block, x: int, y: int, k: int): Block {
    if k > m.size then Block(x - k + 1, y - k + 1, k) else m
  }

  lemma {:induction false} BestStep(a: string, b: string, r: Range, x: int, y: int, m: Block)
    requires IsRange(a, b, r) && r.i0 <= x < r.i1 && r.j0 <= y < r.j1 && IsBest(a, b, r, x, y, m)
    ensures var k := Ending(a, b, r, x, y);
            IsBest(a, b, r, x, y + 1, Better(m, x, y, k))
  {
    EndingIsRun(a, b, r, x, y);
    var k := Ending(a, b, r, x, y);
    if k > m.size {
      NoLongerWeaken(a, b, r, m.size, k - 1, x, y);
    }
    NoLongerNext(a, b, r, m.size, x, y);
  }

  lemma {:induction false} NoLongerWeaken(a: string, b: string, r: Range, size: int, larger: int, x: int, y: int)
    requires IsRange(a, b, r) && NoLonger(a, b, r, size, x, y) && size <= larger
    ensures NoLonger(a, b, r, larger, x, y)
  {
    forall u, v | r.i0 <= u < r.i1 && r.j0 <= v < r.j1 && (u < x || (u == x && v < y))
      ensures EndsWithin(a, b, r, u, v, larger)
    {
      assert EndsWithin(a, b, r, u, v, size);
    }
  }

  lemma {:induction false} NoLongerNext(a: string, b: string, r: Range, size: int, x: int, y: int)
    requires IsRange(a, b, r) && r.i0 <= x < r.i1 && r.j0 <= y < r.j1 && NoLonger(a, b, r, size, x, y)
    ensures NoLonger(a, b, r, Max(size, Ending(a, b, r, x, y)), x, y + 1)
  {
    var larger := Max(size, Ending(a, b, r, x, y));
    forall u, v | r.i0 <= u < r.i1 && r.j0 <= v < r.j1 && (u < x || (u == x && v < y + 1))
      ensures EndsWithin(a, b, r, u, v, larger)
    {
      assert (u != x || v != y) ==> EndsWithin(a, b, r, u, v, size);
    }
  }

  /** One cell more of a row, from the cell diagonally before it. */
  lemma {:induction false} RowStep(
      a: string, b: string, r: Range, x: int, y: int, before: seq<nat>, row: seq<nat>, k: nat)
    requires IsRange(a, b, r) && r.i0 <= x < r.i1 && r.j0 <= y < r.j1
    requires IsRow(a, b, r, x - 1, before) && |before| == r.j1 - r.j0 && IsRow(a, b, r, x, row) && |row| == y - r.j0
    requires k == if a[x] != b[y] then 0 else (if y == r.j0 then 0 else before[y - 1 - r.j0]) + 1
    ensures k == Ending(a, b, r, x, y) && IsRow(a, b, r, x, row + [k])
  {
  }

  /** One row of run lengths from the row before it. */
  method NextRow(a: string, b: string, r: Range, x: int, before: seq<nat>, best: Block)
    returns (row: seq<nat>, m: Block, ghost compared: nat)
    requires IsRange(a, b, r) && r.i0 <= x < r.i1
    requires IsRow(a, b, r, x - 1, before) && |before| == r.j1 - r.j0
    requires IsBest(a, b, r, x, r.j0, best)
    ensures IsRow(a, b, r, x, row) && |row| == r.j1 - r.j0 == compared
    ensures IsBest(a, b, r, x + 1, r.j0, m)
  {
    row, m, compared := [], best, 0;
    for y := r.j0 to r.j1
      invariant |row| == y - r.j0 == compared && IsRow(a, b, r, x, row)
      invariant IsBest(a, b, r, x, y, m)
    {
      var k: nat := if a[x] != b[y] then 0 else (if y == r.j0 then 0 else before[y - 1 - r.j0]) + 1;
      compared := compared + 1;
      RowStep(a, b, r, x, y, before, row, k);
      BestStep(a, b, r, x, y, m);
      m := Better(m, x, y, k);
      row := row + [k];
    }
  }

  /** A longest run of the range: the earliest on the first text, and of those the earliest on the
      second; nothing, at the range's start, when the texts have no character in common. */
  ghost predicate IsEarliestLongest(a: string, b: string, r: Range, m: Block) {
    && m.size >= 0 && (if m.size == 0 then m == Block(r.i0, r.j0, 0) else IsRun(a, b, m) && Inside(BlockRange(m), r))
    && forall n :: IsRun(a, b, n) && Inside(BlockRange(n), r) ==> ComesFirst(m, n)
  }

  /** `m` is longer than `n`, or as long and no later. */
  predicate ComesFirst(m: Block, n: Block) {
    n.size < m.size || (n.size == m.size && (n.size == 0 || m.i < n.i || (m.i == n.i && m.j <= n.j)))
  }

  lemma {:induction false} EarliestIsUnique(a: string, b: string, r: Range, m: Block, n: Block)
    requires IsRange(a, b, r) && IsEarliestLongest(a, b, r, m) && IsEarliestLongest(a, b, r, n)
    ensures m == n
  {
    if m.size > 0 { assert ComesFirst(n, m); }
    if n.size > 0 { assert ComesFirst(m, n); }
  }

  /** The longest common run of a range, comparing each pair of characters once. */
  method FindLongestMatch(a: string, b: string, r: Range) returns (m: Block, ghost compared: nat)
    requires IsRange(a, b, r)
    ensures compared == (r.i1 - r.i0) * (r.j1 - r.j0)
    ensures IsEarliestLongest(a, b, r, m)
  {
    m, compared := Block(r.i0, r.j0, 0), 0;
    var row: seq<nat> := seq(r.j1 - r.j0, c => 0);
    for x := r.i0 to r.i1
      invariant |row| == r.j1 - r.j0 && compared == (x - r.i0) * (r.j1 - r.j0)
      invariant x < r.i1 ==> IsRow(a, b, r, x - 1, row)
      invariant IsBest(a, b, r, x, r.j0, m)
    {
      ghost var inRow: nat;
      row, m, inRow := NextRow(a, b, r, x, row, m);
      OneMoreRow(x - r.i0, r.j1 - r.j0);
      compared := compared + inRow;
    }
    BestIsLongest(a, b, r, m);
  }

  lemma OneMoreRow(rows: int, width: int)
    ensures (rows + 1) * width == rows * width + width
  {
  }

  /** Every run looked at: of the longest the earliest on the first text is kept, and of those the
      earliest on the second. */
  lemma {:induction false} BestIsLongest(a: string, b: string, r: Range, m: Block)
    requires IsRange(a, b, r) && IsBest(a, b, r, r.i1, r.j0, m)
    ensures IsEarliestLongest(a, b, r, m)
  {
    forall n | IsRun(a, b, n) && Inside(BlockRange(n), r)
      ensures ComesFirst(m, n)
    {
      if n.size > 0 {
        RunAtMostEnding(a, b, r, n);
        var u, v := n.i + n.size - 1, n.j + n.size - 1;
        assert EndsWithin(a, b, r, u, v, m.size);
        if n.size == m.size {
          assert !EndsWithin(a, b, r, u, v, m.size - 1);
        }
      }
    }
  }

  /** No run ending on a diagonal before `diagonal`, or on it before `x`, is longer than `size`. */
  ghost predicate NoLongerInBand(a: string, b: string, r: Range, low: int, diagonal: int, x: int, size: int)
    requires IsRange(a, b, r)
  {
    forall u, v ::
      r.i0 <= u < r.i1 && r.j0 <= v < r.j1 && low <= u - v && (u - v < diagonal || (u - v == diagonal && u < x))
      ==> EndsWithin(a, b, r, u, v, size)
  }

  /** The longest run looked at on the band's diagonals so far. */
  ghost predicate IsBestInBand(a: string, b: string, r: Range, low: int, high: int, diagonal: int, x: int, m: Block)
    requires IsRange(a, b, r)
  {
    && m.size >= 0 && (if m.size == 0 then m == Block(r.i0, r.j0, 0) else IsRunIn(a, b, r, low, high, m))
    && NoLongerInBand(a, b, r, low, diagonal, x, m.size) && IsFirstInBand(a, b, r, low, m)
  }

  /** Every run of the band that ends on an earlier diagonal, or earlier on this one, is shorter. */
  ghost predicate IsFirstInBand(a: string, b: string, r: Range, low: int, m: Block)
    requires IsRange(a, b, r)
  {
    m.size > 0 ==> NoLongerInBand(a, b, r, low, m.i - m.j, m.i + m.size - 1, m.size - 1)
  }

  lemma {:induction false} BandStep(
      a: string, b: string, r: Range, low: int, high: int, diagonal: int, x: int, m: Block)
    requires IsRange(a, b, r) && low <= diagonal <= high && IsBestInBand(a, b, r, low, high, diagonal, x, m)
    requires r.i0 <= x < r.i1 && r.j0 <= x - diagonal < r.j1
    ensures var run := Ending(a, b, r, x, x - diagonal);
            IsBestInBand(a, b, r, low, high, diagonal, x + 1, Better(m, x, x - diagonal, run))
  {
    EndingIsRun(a, b, r, x, x - diagonal);
    var run := Ending(a, b, r, x, x - diagonal);
    if run > m.size {
      InBandWeaken(a, b, r, low, diagonal, x, m.size, run - 1);
    }
    InBandNext(a, b, r, low, diagonal, x, m.size);
  }

  lemma {:induction false} InBandWeaken(
      a: string, b: string, r: Range, low: int, diagonal: int, x: int, size: int, larger: int)
    requires IsRange(a, b, r) && NoLongerInBand(a, b, r, low, diagonal, x, size) && size <= larger
    ensures NoLongerInBand(a, b, r, low, diagonal, x, larger)
  {
    forall u, v | r.i0 <= u < r.i1 && r.j0 <= v < r.j1 && low <= u - v
    && (u - v < diagonal || (u - v == diagonal && u < x))
      ensures EndsWithin(a, b, r, u, v, larger)
    {
      assert EndsWithin(a, b, r, u, v, size);
    }
  }

  lemma {:induction false} InBandNext(a: string, b: string, r: Range, low: int, diagonal: int, x: int, size: int)
    requires IsRange(a, b, r) && NoLongerInBand(a, b, r, low, diagonal, x, size)
    requires r.i0 <= x < r.i1 && r.j0 <= x - diagonal < r.j1
    ensures NoLongerInBand(a, b, r, low, diagonal, x + 1, Max(size, Ending(a, b, r, x, x - diagonal)))
  {
    var larger := Max(size, Ending(a, b, r, x, x - diagonal));
    forall u, v | r.i0 <= u < r.i1 && r.j0 <= v < r.j1 && low <= u - v
    && (u - v < diagonal || (u - v == diagonal && u < x + 1))
      ensures EndsWithin(a, b, r, u, v, larger)
    {
      assert (u != x || v != x - diagonal) ==> EndsWithin(a, b, r, u, v, size);
    }
  }

  lemma {:induction false} DiagonalEnds(a: string, b: string, r: Range, low: int, high: int, diagonal: int, m: Block)
    requires IsRange(a, b, r)
    ensures IsBestInBand(a, b, r, low, high, diagonal, r.i0, m)
            ==> IsBestInBand(a, b, r, low, high, diagonal, Max(r.i0, r.j0 + diagonal), m)
    ensures var start, stop := Max(r.i0, r.j0 + diagonal), Min(r.i1, r.j1 + diagonal);
            IsBestInBand(a, b, r, low, high, diagonal, Max(start, stop), m)
            ==> IsBestInBand(a, b, r, low, high, diagonal + 1, r.i0, m)
  {
  }

  /** The length of the run ending just before `x` on a diagonal entered at `start`. */
  function RunBefore(a: string, b: string, r: Range, diagonal: int, start: int, x: int): nat
    requires IsRange(a, b, r) && start <= x <= Max(start, Min(r.i1, r.j1 + diagonal))
  {
    if x == start then 0 else Ending(a, b, r, x - 1, x - 1 - diagonal)
  }

  lemma {:induction false} RunGrows(a: string, b: string, r: Range, diagonal: int, start: int, x: int)
    requires IsRange(a, b, r) && start == Max(r.i0, r.j0 + diagonal) && start <= x < Min(r.i1, r.j1 + diagonal)
    ensures RunBefore(a, b, r, diagonal, start, x + 1)
         == if a[x] == b[x - diagonal] then RunBefore(a, b, r, diagonal, start, x) + 1 else 0
  {
  }

  /** Where the scan of a diagonal stands before position `x`. */
  ghost predicate IsScan(
      a: string, b: string, r: Range, low: int, high: int, diagonal: int, start: int, x: int, run: int, m: Block)
    requires IsRange(a, b, r)
  {
    && start <= x <= Max(start, Min(r.i1, r.j1 + diagonal)) && run == RunBefore(a, b, r, diagonal, start, x)
    && IsBestInBand(a, b, r, low, high, diagonal, x, m)
  }

  lemma {:induction false} ScanStep(
      a: string, b: string, r: Range, low: int, high: int, diagonal: int, start: int, x: int, run: int, m: Block)
    requires IsRange(a, b, r) && low <= diagonal <= high && start == Max(r.i0, r.j0 + diagonal)
             && x < Min(r.i1, r.j1 + diagonal)
    requires IsScan(a, b, r, low, high, diagonal, start, x, run, m)
    ensures var longer := if a[x] == b[x - diagonal] then run + 1 else 0;
            IsScan(a, b, r, low, high, diagonal, start, x + 1, longer, Better(m, x, x - diagonal, longer))
  {
    RunGrows(a, b, r, diagonal, start, x);
    BandStep(a, b, r, low, high, diagonal, x, m);
  }

  /** Scan one diagonal for a run longer than `best`. */
  method ScanDiagonal(
      a: string, b: string, r: Range, low: int, high: int, diagonal: int, best: Block, start: int, stop: int)
    returns (m: Block, ghost compared: nat)
    requires IsRange(a, b, r) && low <= diagonal <= high
    requires start == Max(r.i0, r.j0 + diagonal) && stop == Min(r.i1, r.j1 + diagonal)
    requires IsBestInBand(a, b, r, low, high, diagonal, r.i0, best)
    ensures compared == Max(0, stop - start)
    ensures IsBestInBand(a, b, r, low, high, diagonal + 1, r.i0, m)
  {
    m, compared := best, 0;
    var run := 0;
    DiagonalEnds(a, b, r, low, high, diagonal, m);
    for x := start to Max(start, stop)
      invariant compared == x - start && IsScan(a, b, r, low, high, diagonal, start, x, run, m)
    {
      compared := compared + 1;
      ScanStep(a, b, r, low, high, diagonal, start, x, run, m);
      run := if a[x] == b[x - diagonal] then run + 1 else 0;
      m := Better(m, x, x - diagonal, run);
    }
    DiagonalEnds(a, b, r, low, high, diagonal, m);
  }

  function Pairs(r: Range): int {
    (r.i1 - r.i0) * (r.j1 - r.j0)
  }

  /** The pairs on one diagonal of a range. */
  function DiagonalPairs(r: Range, diagonal: int): nat {
    Max(0, Min(r.i1, r.j1 + diagonal) - Max(r.i0, r.j0 + diagonal))
  }

  /** The pairs on the diagonals from `first` up to `n`. */
  function BandPairs(r: Range, first: int, n: int): nat
    decreases n - first
  {
    if n <= first then 0 else BandPairs(r, first, n - 1) + DiagonalPairs(r, n - 1)
  }

  lemma {:induction false} BandPairsRise(r: Range, first: int, n: int, end: int)
    requires n <= end
    ensures BandPairs(r, first, n) <= BandPairs(r, first, end)
    decreases end - n
  {
    if n < end { BandPairsRise(r, first, n, end - 1); }
  }

  /** No diagonal has more pairs than the range has rows. */
  lemma {:induction false} BandPairsWithin(r: Range, first: int, n: int)
    requires r.i0 <= r.i1 && first <= n
    ensures BandPairs(r, first, n) <= (n - first) * (r.i1 - r.i0)
    decreases n - first
  {
    if first < n {
      BandPairsWithin(r, first, n - 1);
      OneMoreRow(n - 1 - first, r.i1 - r.i0);
    }
  }

  /** A diagonal of the scan lies in the band, and its pairs are charged in its turn. */
  lemma InTheBand(r: Range, low: int, high: int, diagonal: int)
    requires FirstDiagonal(r, low) <= diagonal < BandEnd(r, low, high)
    ensures low <= diagonal <= high
    ensures var first := FirstDiagonal(r, low);
            BandPairs(r, first, diagonal) + DiagonalPairs(r, diagonal) == BandPairs(r, first, diagonal + 1)
            <= BandPairs(r, first, BandEnd(r, low, high))
  {
    BandPairsRise(r, FirstDiagonal(r, low), diagonal + 1, BandEnd(r, low, high));
  }

  function FirstDiagonal(r: Range, low: int): int {
    Max(low, r.i0 - r.j1 + 1)
  }

  /** One past the last diagonal of the band. */
  function BandEnd(r: Range, low: int, high: int): int {
    Max(FirstDiagonal(r, low), Min(high, r.i1 - 1 - r.j0) + 1)
  }

  /** The unbanded search finds nothing, or a run in the band. */
  ghost predicate UnbandedAnswers(a: string, b: string, r: Range, low: int, high: int) {
    exists m :: IsEarliestLongest(a, b, r, m) && (m.size == 0 || low <= m.i - m.j <= high)
  }

  /** A longest run of the band: on the lowest diagonal, and of those the earliest. */
  ghost predicate IsLowestLongest(a: string, b: string, r: Range, low: int, high: int, m: Block) {
    && m.size >= 0 && (if m.size == 0 then m == Block(r.i0, r.j0, 0) else IsRunIn(a, b, r, low, high, m))
    && forall n :: IsRunIn(a, b, r, low, high, n) ==> LiesLower(m, n)
  }

  /** `m` is longer than `n`, or as long and on a lower diagonal or no later on the same. */
  predicate LiesLower(m: Block, n: Block) {
    n.size < m.size
    || (n.size == m.size && (n.size == 0 || m.i - m.j < n.i - n.j || (m.i - m.j == n.i - n.j && m.i <= n.i)))
  }

  /** Which run answers the search of a band. */
  ghost predicate AnswersBand(a: string, b: string, r: Range, low: int, high: int, m: Block) {
    if UnbandedAnswers(a, b, r, low, high)
    then IsEarliestLongest(a, b, r, m)
    else IsLowestLongest(a, b, r, low, high, m)
  }

  /** One run at most answers. */
  lemma {:induction false} AnswerIsUnique(a: string, b: string, r: Range, low: int, high: int, m: Block, n: Block)
    requires IsRange(a, b, r) && AnswersBand(a, b, r, low, high, m) && AnswersBand(a, b, r, low, high, n)
    ensures m == n
  {
    if UnbandedAnswers(a, b, r, low, high) {
      EarliestIsUnique(a, b, r, m, n);
    } else {
      if m.size > 0 { assert LiesLower(n, m); }
      if n.size > 0 { assert LiesLower(m, n); }
    }
  }

  /** What answering the search of a band is charged: every pair of the range, and, unless the
      unbanded search answers, every pair on the band's diagonals. */
  ghost function BandCharge(a: string, b: string, r: Range, low: int, high: int): int {
    Pairs(r) + if UnbandedAnswers(a, b, r, low, high)
               then 0
               else BandPairs(r, FirstDiagonal(r, low), BandEnd(r, low, high))
  }

  /** The longest run whose diagonal lies in the band: an unbanded search first, then a scan
      of the band's diagonals when the unbanded answer falls outside it. */
  method LongestInBand(a: string, b: string, r: Range, low: int, high: int, budget: WorkBudget)
    returns (m: Outcome<Block>)
    requires IsRange(a, b, r) && budget.Valid() && budget.left >= 0
    modifies budget
    ensures budget.Valid() && budget.left <= old(budget.left)
    ensures m.Measured? <==> budget.left >= 0
    ensures m.NotMeasured? ==> m.reason == WorkBound
    ensures m.Measured? ==> AnswersBand(a, b, r, low, high, m.value)
    ensures budget.charged <= old(budget.charged) + BandCharge(a, b, r, low, high)
    ensures m.Measured? ==> budget.charged == old(budget.charged) + BandCharge(a, b, r, low, high)
    ensures m.Measured? ==> budget.done - old(budget.done) == budget.charged - old(budget.charged)
    ensures m.Measured? && m.value.size > 0 ==> IsRunIn(a, b, r, low, high, m.value)
    ensures m.Measured? ==> m.value.size >= 0 && forall n :: IsRunIn(a, b, r, low, high, n) ==> n.size <= m.value.size
  {
    var ok := budget.Spend(Pairs(r));
    if !ok { return NotMeasured(WorkBound); }
    var longest, compared := FindLongestMatch(a, b, r);
    budget.done := budget.done + compared;
    if longest.size == 0 || low <= longest.i - longest.j <= high {
      AnswerIsLongest(a, b, r, low, high, longest);
      return Measured(longest);
    }
    NotAnswered(a, b, r, low, high, longest);
    var best, scanned := ScanBand(a, b, r, low, high, budget);
    if !scanned { return NotMeasured(WorkBound); }
    BandIsCovered(a, b, r, low, high, best);
    m := Measured(best);
  }

  lemma {:induction false} AnswerIsLongest(a: string, b: string, r: Range, low: int, high: int, m: Block)
    requires IsRange(a, b, r) && IsEarliestLongest(a, b, r, m) && (m.size == 0 || low <= m.i - m.j <= high)
    ensures UnbandedAnswers(a, b, r, low, high)
    ensures forall n :: IsRunIn(a, b, r, low, high, n) ==> n.size <= m.size
  {
    forall n | IsRunIn(a, b, r, low, high, n)
      ensures n.size <= m.size
    {
      assert ComesFirst(m, n);
    }
  }

  lemma {:induction false} NotAnswered(a: string, b: string, r: Range, low: int, high: int, m: Block)
    requires IsRange(a, b, r) && IsEarliestLongest(a, b, r, m) && m.size > 0 && !(low <= m.i - m.j <= high)
    ensures !UnbandedAnswers(a, b, r, low, high)
  {
    forall n | IsEarliestLongest(a, b, r, n)
      ensures n == m
    {
      EarliestIsUnique(a, b, r, m, n);
    }
  }

  /** One diagonal, charged and then walked. */
  method ChargedDiagonal(
      a: string, b: string, r: Range, low: int, high: int, diagonal: int, best: Block, budget: WorkBudget)
    returns (m: Block, ok: bool)
    requires IsRange(a, b, r) && budget.Valid() && budget.left >= 0 && low <= diagonal <= high
    requires IsBestInBand(a, b, r, low, high, diagonal, r.i0, best)
    modifies budget
    ensures budget.Valid() && budget.left <= old(budget.left) && (ok <==> budget.left >= 0)
    ensures ok ==> IsBestInBand(a, b, r, low, high, diagonal + 1, r.i0, m)
    ensures budget.charged == old(budget.charged) + DiagonalPairs(r, diagonal)
    ensures ok ==> budget.done == old(budget.done) + DiagonalPairs(r, diagonal)
  {
    var start, stop := Max(r.i0, r.j0 + diagonal), Min(r.i1, r.j1 + diagonal);
    m := best;
    ok := budget.Spend(Max(0, stop - start));
    if !ok { return; }
    ghost var compared;
    m, compared := ScanDiagonal(a, b, r, low, high, diagonal, best, start, stop);
    budget.done := budget.done + compared;
  }

  /** The scan of the band's diagonals, each charged before it is walked. */
  method ScanBand(a: string, b: string, r: Range, low: int, high: int, budget: WorkBudget)
    returns (best: Block, ok: bool)
    requires IsRange(a, b, r) && budget.Valid() && budget.left >= 0
    modifies budget
    ensures budget.Valid() && budget.left <= old(budget.left) && (ok <==> budget.left >= 0)
    ensures ok ==> IsBestInBand(a, b, r, low, high, BandEnd(r, low, high), r.i0, best)
    ensures budget.charged <= old(budget.charged) + BandPairs(r, FirstDiagonal(r, low), BandEnd(r, low, high))
    ensures ok ==> budget.charged == old(budget.charged) + BandPairs(r, FirstDiagonal(r, low), BandEnd(r, low, high))
    ensures ok ==> budget.done - old(budget.done) == budget.charged - old(budget.charged)
  {
    best := Block(r.i0, r.j0, 0);
    var first := FirstDiagonal(r, low);
    for diagonal := first to BandEnd(r, low, high)
      invariant budget.Valid() && budget.left <= old(budget.left) && budget.left >= 0
      invariant budget.charged == old(budget.charged) + BandPairs(r, first, diagonal)
      invariant budget.done - old(budget.done) == budget.charged - old(budget.charged)
      invariant IsBestInBand(a, b, r, low, high, diagonal, r.i0, best)
    {
      InTheBand(r, low, high, diagonal);
      best, ok := ChargedDiagonal(a, b, r, low, high, diagonal, best, budget);
      if !ok { return; }
    }
    ok := true;
  }

  /** Diagonals outside the range hold no run, so the band is covered. */
  lemma {:induction false} BandIsCovered(a: string, b: string, r: Range, low: int, high: int, best: Block)
    requires IsRange(a, b, r) && IsBestInBand(a, b, r, low, high, BandEnd(r, low, high), r.i0, best)
    ensures IsLowestLongest(a, b, r, low, high, best)
    ensures forall n :: IsRunIn(a, b, r, low, high, n) ==> n.size <= best.size
  {
    forall n | IsRunIn(a, b, r, low, high, n)
      ensures n.size <= best.size && LiesLower(best, n)
    {
      if n.size > 0 {
        RunAtMostEnding(a, b, r, n);
        var u, v := n.i + n.size - 1, n.j + n.size - 1;
        assert EndsWithin(a, b, r, u, v, best.size);
        if n.size == best.size {
          assert !EndsWithin(a, b, r, u, v, best.size - 1);
        }
      }
    }
  }
}
