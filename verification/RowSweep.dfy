/** The scanline sweep that unites near runs: a forward pointer per pair of rows. */
module RowSweep {
  import opened DisjointSets
  import opened InkGraph

  /** Every near pair of runs, one from each range, is together. */
  ghost predicate Together(rep: seq<nat>, t: seq<Run>, radius: int, aLo: int, aHi: int, bLo: int, bHi: int) {
    && |rep| == |t| && 0 <= aLo <= aHi <= |t| && 0 <= bLo <= bHi <= |t|
    && forall i, j :: NearRuns(t, i, j, radius) && aLo <= i < aHi && bLo <= j < bHi ==> Tied(rep, i, j)
  }

  lemma {:induction false} TogetherStays(
      before: seq<nat>, after: seq<nat>, t: seq<Run>, radius: int, aLo: int, aHi: int, bLo: int, bHi: int)
    requires Together(before, t, radius, aLo, aHi, bLo, bHi) && Coarser(before, after)
    ensures Together(after, t, radius, aLo, aHi, bLo, bHi)
  {
  }

  lemma CoarserTransitive(a: seq<nat>, b: seq<nat>, c: seq<nat>)
    requires Coarser(a, b) && Coarser(b, c)
    ensures Coarser(a, c)
  {
  }

  /** The runs from `lo` to `hi` lie on one scanline. */
  ghost predicate IsRow(t: seq<Run>, lo: int, hi: int) {
    && 0 <= lo <= hi <= |t|
    && forall i :: lo <= i < hi ==> t[i].y == t[lo].y
  }

  method UniteNear(f: Forest, t: seq<Run>, radius: int, left: nat, right: nat)
    requires f.Valid() && IsTable(t) && radius >= 1 && Sound(f.rep, t, radius)
    requires left < |t| && right < |t| && Near(t[left], t[right], radius)
    modifies f`rep, f`rank, f`top, f.parent
    ensures f.Valid() && Sound(f.rep, t, radius)
    ensures Coarser(old(f.rep), f.rep) && Tied(f.rep, left, right)
  {
    MergeSound(f.rep, t, radius, left, right);
    MergedIsCoarser(f.rep, left, right);
    f.Union(left, right);
  }

  lemma PartOfRow(t: seq<Run>, lo: int, n: int, hi: int)
    requires IsRow(t, lo, hi) && lo <= n <= hi
    ensures IsRow(t, lo, n)
  {
  }

  /** One run joined to its neighbour, and so to every run near it on the scanline. */
  method JoinWithin(f: Forest, t: seq<Run>, lo: nat, right: nat, gapTolerance: int)
    requires f.Valid() && IsTable(t) && IsRow(t, lo, right + 1) && lo < right && gapTolerance >= 0
    requires Sound(f.rep, t, gapTolerance + 1) && Together(f.rep, t, gapTolerance + 1, lo, right, lo, right)
    modifies f`rep, f`rank, f`top, f.parent
    ensures f.Valid() && Sound(f.rep, t, gapTolerance + 1) && Coarser(old(f.rep), f.rep)
    ensures Together(f.rep, t, gapTolerance + 1, lo, right + 1, lo, right + 1)
  {
    ghost var before := f.rep;
    JoinNeighbour(f, t, lo, right, gapTolerance);
    WithinStep(before, f.rep, t, gapTolerance + 1, lo, right);
  }

  /** Neighbours on one scanline: the gap test on consecutive runs reaches every near pair. */
  method JoinWithinRow(f: Forest, t: seq<Run>, lo: nat, hi: nat, gapTolerance: int)
    requires f.Valid() && IsTable(t) && IsRow(t, lo, hi) && gapTolerance >= 0
    requires Sound(f.rep, t, gapTolerance + 1)
    modifies f`rep, f`rank, f`top, f.parent
    ensures f.Valid() && Sound(f.rep, t, gapTolerance + 1) && Coarser(old(f.rep), f.rep)
    ensures Together(f.rep, t, gapTolerance + 1, lo, hi, lo, hi)
  {
    var radius := gapTolerance + 1;
    if lo == hi { return; }
    for right := lo + 1 to hi
      invariant f.Valid() && Sound(f.rep, t, radius) && Coarser(old(f.rep), f.rep)
      invariant Together(f.rep, t, radius, lo, right, lo, right)
    {
      ghost var before := f.rep;
      PartOfRow(t, lo, right + 1, hi);
      JoinWithin(f, t, lo, right, gapTolerance);
      CoarserTransitive(old(f.rep), before, f.rep);
    }
  }

  /** The gap test on one run and the one before it. */
  method JoinNeighbour(f: Forest, t: seq<Run>, lo: nat, right: nat, gapTolerance: int)
    requires f.Valid() && IsTable(t) && IsRow(t, lo, right + 1) && lo < right && gapTolerance >= 0
    requires Sound(f.rep, t, gapTolerance + 1)
    modifies f`rep, f`rank, f`top, f.parent
    ensures f.Valid() && Sound(f.rep, t, gapTolerance + 1) && Coarser(old(f.rep), f.rep)
    ensures t[right].x0 - t[right - 1].x1 < gapTolerance + 1 ==> Tied(f.rep, right - 1, right)
  {
    var left := right - 1;
    assert Precedes(t[left], t[right]);
    if t[right].x0 - t[left].x1 <= gapTolerance {
      UniteNear(f, t, gapTolerance + 1, left, right);
    }
  }

  lemma {:induction false} WithinStep(before: seq<nat>, after: seq<nat>, t: seq<Run>, radius: int, lo: nat, right: nat)
    requires IsTable(t) && IsRow(t, lo, right + 1) && lo < right && Coarser(before, after)
    requires Together(before, t, radius, lo, right, lo, right)
    requires t[right].x0 - t[right - 1].x1 < radius ==> Tied(after, right - 1, right)
    ensures Together(after, t, radius, lo, right + 1, lo, right + 1)
  {
    TogetherStays(before, after, t, radius, lo, right, lo, right);
    forall i, j | NearRuns(t, i, j, radius) && lo <= i < right + 1 && lo <= j < right + 1
      ensures Tied(after, i, j)
    {
      var low := if i < j then i else j;
      if low < right - 1 && (i == right || j == right) {
        NearThroughNeighbour(t, low, right - 1, right, radius);
        assert NearRuns(t, low, right - 1, radius);
      }
    }
  }

  lemma {:induction false} NearThroughNeighbour(t: seq<Run>, i: nat, left: nat, right: nat, radius: int)
    requires IsTable(t) && i < left < right < |t| && Near(t[i], t[right], radius)
    requires t[i].y == t[left].y == t[right].y
    ensures Near(t[i], t[left], radius) && t[right].x0 - t[left].x1 < radius
  {
    assert Precedes(t[i], t[left]) && Precedes(t[left], t[right]);
  }

  /** The pointer has passed only runs too far left of run `left` to be near it. */
  ghost predicate Passed(t: seq<Run>, bLo: int, start: int, left: int, radius: int) {
    0 <= bLo <= start <= |t| && 0 <= left < |t| && forall j :: bLo <= j < start ==> t[j].x1 + radius <= t[left].x0
  }

  lemma {:induction false} PassedNext(t: seq<Run>, bLo: int, start: int, left: int, radius: int)
    requires IsTable(t) && Passed(t, bLo, start, left, radius) && left + 1 < |t| && t[left].y == t[left + 1].y
    ensures Passed(t, bLo, start, left + 1, radius)
  {
    assert Precedes(t[left], t[left + 1]);
  }

  lemma {:induction false} BetweenIsNear(t: seq<Run>, left: nat, start: nat, offset: nat, radius: int)
    requires IsTable(t) && left < |t| && start <= offset < |t| && t[start].y == t[offset].y
    requires -radius <= t[left].y - t[offset].y <= radius
    requires t[left].x0 < t[start].x1 + radius && t[offset].x0 < t[left].x1 + radius
    ensures Near(t[left], t[offset], radius)
  {
    if start < offset { assert Precedes(t[start], t[offset]); }
  }

  /** Run `left` is together with every run from `start` up to `offset`. */
  ghost predicate TiedRange(rep: seq<nat>, left: int, start: int, offset: int) {
    forall j :: start <= j < offset ==> Tied(rep, left, j)
  }

  lemma {:induction false} TiedRangeNext(before: seq<nat>, after: seq<nat>, left: int, start: int, offset: int)
    requires TiedRange(before, left, start, offset) && Coarser(before, after) && Tied(after, left, offset)
    ensures TiedRange(after, left, start, offset + 1)
  {
  }

  lemma {:induction false} RestIsFar(
      rep: seq<nat>, t: seq<Run>, left: nat, bLo: nat, start: nat, offset: nat, bHi: nat, radius: int)
    requires IsTable(t) && |rep| == |t| && left < |t| && start <= offset <= bHi <= |t| && IsRow(t, bLo, bHi)
    requires Passed(t, bLo, start, left, radius)
    requires TiedRange(rep, left, start, offset)
    requires offset < bHi ==> t[left].x1 + radius <= t[offset].x0
    ensures Together(rep, t, radius, left, left + 1, bLo, bHi)
  {
    forall j | offset <= j < bHi
      ensures !Near(t[left], t[j], radius)
    {
      if offset < j { assert Precedes(t[offset], t[j]); }
    }
  }

  /** One run against the earlier row, from the first run the pointer has not passed. */
  method JoinOne(f: Forest, t: seq<Run>, left: nat, start: nat, bLo: nat, bHi: nat, radius: int)
    requires f.Valid() && IsTable(t) && IsRow(t, bLo, bHi) && start <= bHi && left < |t| && radius >= 1
    requires bLo < bHi ==> -radius <= t[left].y - t[bLo].y <= radius
    requires Passed(t, bLo, start, left, radius)
    requires start < bHi ==> t[left].x0 < t[start].x1 + radius
    requires Sound(f.rep, t, radius)
    modifies f`rep, f`rank, f`top, f.parent
    ensures f.Valid() && Sound(f.rep, t, radius) && Coarser(old(f.rep), f.rep)
    ensures Together(f.rep, t, radius, left, left + 1, bLo, bHi)
  {
    var offset := start;
    while offset < bHi && t[offset].x0 < t[left].x1 + radius
      invariant f.Valid() && Sound(f.rep, t, radius) && Coarser(old(f.rep), f.rep)
      invariant start <= offset <= bHi && TiedRange(f.rep, left, start, offset)
    {
      assert t[start].y == t[bLo].y && t[offset].y == t[bLo].y;
      BetweenIsNear(t, left, start, offset, radius);
      ghost var sofar := f.rep;
      UniteNear(f, t, radius, left, offset);
      CoarserTransitive(old(f.rep), sofar, f.rep);
      TiedRangeNext(sofar, f.rep, left, start, offset);
      offset := offset + 1;
    }
    RestIsFar(f.rep, t, left, bLo, start, offset, bHi, radius);
  }

  lemma {:induction false} TogetherExtends(
      before: seq<nat>, after: seq<nat>, t: seq<Run>, radius: int, aLo: nat, left: nat, bLo: nat, bHi: nat)
    requires Coarser(before, after) && aLo <= left < |t|
    requires Together(before, t, radius, aLo, left, bLo, bHi)
    requires Together(after, t, radius, left, left + 1, bLo, bHi)
    ensures Together(after, t, radius, aLo, left + 1, bLo, bHi)
  {
    TogetherStays(before, after, t, radius, aLo, left, bLo, bHi);
  }

  /** Move the pointer past the runs too far left of run `left`. */
  method Advance(t: seq<Run>, bLo: nat, from: nat, left: nat, bHi: nat, radius: int) returns (start: nat)
    requires from <= bHi <= |t| && Passed(t, bLo, from, left, radius)
    ensures from <= start <= bHi && Passed(t, bLo, start, left, radius)
    ensures start < bHi ==> t[left].x0 < t[start].x1 + radius
  {
    start := from;
    while start < bHi && t[start].x1 + radius <= t[left].x0
      invariant from <= start <= bHi && Passed(t, bLo, start, left, radius)
    {
      start := start + 1;
    }
  }

  lemma RowIsClose(t: seq<Run>, aLo: nat, left: nat, aHi: nat, bLo: nat, bHi: nat, radius: int)
    requires IsRow(t, aLo, aHi) && IsRow(t, bLo, bHi) && aLo <= left < aHi
    requires bLo < bHi ==> -radius <= t[aLo].y - t[bLo].y <= radius
    ensures bLo < bHi ==> -radius <= t[left].y - t[bLo].y <= radius
  {
  }

  /** The sweep before run `left`: the forward pointer, and the near pairs joined so far. */
  ghost predicate IsSwept(
      rep: seq<nat>, t: seq<Run>, aLo: nat, left: nat, aHi: nat, start: nat, bLo: nat, bHi: nat, radius: int)
  {
    && left <= aHi <= |t| && start <= bHi && (left < aHi ==> Passed(t, bLo, start, left, radius))
    && Together(rep, t, radius, aLo, left, bLo, bHi)
  }

  lemma SweepStarts(rep: seq<nat>, t: seq<Run>, aLo: nat, aHi: nat, bLo: nat, bHi: nat, radius: int)
    requires |rep| == |t| && aLo <= aHi <= |t| && bLo <= bHi <= |t|
    ensures IsSwept(rep, t, aLo, aLo, aHi, bLo, bLo, bHi, radius)
  {
  }

  /** One run: the pointer moves up to it and its near pairs are joined. */
  method JoinNext(
      f: Forest, t: seq<Run>, ghost aLo: nat, left: nat, aHi: nat, from: nat, bLo: nat, bHi: nat, radius: int,
      ghost first: seq<nat>)
    returns (start: nat)
    requires f.Valid() && IsTable(t) && IsRow(t, aLo, aHi) && IsRow(t, bLo, bHi) && aLo <= left < aHi && radius >= 1
    requires bLo < bHi ==> -radius <= t[left].y - t[bLo].y <= radius
    requires Sound(f.rep, t, radius) && Coarser(first, f.rep)
    requires IsSwept(f.rep, t, aLo, left, aHi, from, bLo, bHi, radius)
    modifies f`rep, f`rank, f`top, f.parent
    ensures f.Valid() && Sound(f.rep, t, radius) && Coarser(first, f.rep)
    ensures IsSwept(f.rep, t, aLo, left + 1, aHi, start, bLo, bHi, radius)
  {
    start := Advance(t, bLo, from, left, bHi, radius);
    ghost var before := f.rep;
    JoinOne(f, t, left, start, bLo, bHi, radius);
    TogetherExtends(before, f.rep, t, radius, aLo, left, bLo, bHi);
    CoarserTransitive(first, before, f.rep);
    if left + 1 < aHi { PassedNext(t, bLo, start, left, radius); }
  }

  /** Two scanlines: one forward pointer over the earlier row finds every near pair. */
  method JoinRows(f: Forest, t: seq<Run>, aLo: nat, aHi: nat, bLo: nat, bHi: nat, radius: int)
    requires f.Valid() && IsTable(t) && IsRow(t, aLo, aHi) && IsRow(t, bLo, bHi) && radius >= 1
    requires aLo < aHi && bLo < bHi ==> -radius <= t[aLo].y - t[bLo].y <= radius
    requires Sound(f.rep, t, radius)
    modifies f`rep, f`rank, f`top, f.parent
    ensures f.Valid() && Sound(f.rep, t, radius) && Coarser(old(f.rep), f.rep)
    ensures Together(f.rep, t, radius, aLo, aHi, bLo, bHi)
  {
    var start, left := bLo, aLo;
    ghost var first := f.rep;
    SweepStarts(first, t, aLo, aHi, bLo, bHi, radius);
    while left < aHi
      invariant f.Valid()
      invariant Sound(f.rep, t, radius)
      invariant Coarser(first, f.rep)
      invariant aLo <= left && IsSwept(f.rep, t, aLo, left, aHi, start, bLo, bHi, radius)
    {
      RowIsClose(t, aLo, left, aHi, bLo, bHi, radius);
      start := JoinNext(f, t, aLo, left, aHi, start, bLo, bHi, radius, first);
      left := left + 1;
    }
  }

  // --- the whole table --------------------------------------------------------------------

  /** `spans[y]` is the range of the runs on scanline `y`, and no run is on another. */
  ghost predicate Indexes(spans: map<int, (nat, nat)>, t: seq<Run>) {
    && (forall y :: y in spans ==> spans[y].0 <= spans[y].1 <= |t|)
    && (forall y, i :: y in spans && spans[y].0 <= i < spans[y].1 ==> t[i].y == y)
    && (forall i :: 0 <= i < |t| ==> t[i].y in spans && spans[t[i].y].0 <= i < spans[t[i].y].1)
  }

  /** Near pairs on scanlines before `y` are together. */
  ghost predicate JoinedBefore(rep: seq<nat>, t: seq<Run>, radius: int, y: int) {
    && |rep| == |t|
    && forall i, j :: NearRuns(t, i, j, radius) && t[i].y < y && t[j].y < y ==> Tied(rep, i, j)
  }

  /** Near pairs of scanline `y` with scanlines from `y - radius` up to `y0` are together. */
  ghost predicate JoinedWith(rep: seq<nat>, t: seq<Run>, radius: int, y: int, y0: int) {
    && |rep| == |t|
    && forall i, j :: NearRuns(t, i, j, radius) && t[i].y == y && y - radius <= t[j].y < y0 ==> Tied(rep, i, j)
  }

  lemma {:induction false} JoinedStays(before: seq<nat>, after: seq<nat>, t: seq<Run>, radius: int, y: int, y0: int)
    requires Coarser(before, after)
    ensures JoinedBefore(before, t, radius, y) ==> JoinedBefore(after, t, radius, y)
    ensures JoinedWith(before, t, radius, y, y0) ==> JoinedWith(after, t, radius, y, y0)
  {
  }

  method JoinAll(f: Forest, t: seq<Run>, ys: seq<int>, spans: map<int, (nat, nat)>, gapTolerance: int)
    requires f.Valid() && IsTable(t) && Indexes(spans, t) && gapTolerance >= 0
    requires forall y :: y in spans <==> y in ys
    requires forall k, l :: 0 <= k < l < |ys| ==> ys[k] < ys[l]
    requires Sound(f.rep, t, gapTolerance + 1)
    modifies f`rep, f`rank, f`top, f.parent
    ensures f.Valid() && Sound(f.rep, t, gapTolerance + 1) && Complete(f.rep, t, gapTolerance + 1)
  {
    var radius := gapTolerance + 1;
    for k := 0 to |ys|
      invariant f.Valid() && Sound(f.rep, t, radius)
      invariant k < |ys| ==> JoinedBefore(f.rep, t, radius, ys[k])
      invariant k == |ys| > 0 ==> Complete(f.rep, t, radius)
    {
      var y := ys[k];
      assert y in spans;
      var (lo, hi) := spans[y];
      ghost var before := f.rep;
      JoinWithinRow(f, t, lo, hi, gapTolerance);
      JoinedStays(before, f.rep, t, radius, y, y);
      for previous := y - radius to y
        invariant f.Valid() && Sound(f.rep, t, radius)
        invariant JoinedBefore(f.rep, t, radius, y)
        invariant Together(f.rep, t, radius, lo, hi, lo, hi)
        invariant JoinedWith(f.rep, t, radius, y, previous)
      {
        if previous in spans && spans[previous].0 < spans[previous].1 {
          before := f.rep;
          var (bLo, bHi) := spans[previous];
          JoinRows(f, t, lo, hi, bLo, bHi, radius);
          JoinedStays(before, f.rep, t, radius, y, previous);
          TogetherStays(before, f.rep, t, radius, lo, hi, lo, hi);
          WithRow(f.rep, t, spans, radius, y, previous);
        } else {
          assert forall j :: 0 <= j < |t| ==> t[j].y != previous;
        }
      }
      RowDone(f.rep, t, ys, spans, radius, k);
    }
    if |t| > 0 { assert t[0].y in ys; }
  }

  lemma {:induction false} WithRow(
      rep: seq<nat>, t: seq<Run>, spans: map<int, (nat, nat)>, radius: int, y: int, previous: int)
    requires Indexes(spans, t) && y in spans && previous in spans
    requires JoinedWith(rep, t, radius, y, previous)
    requires Together(rep, t, radius, spans[y].0, spans[y].1, spans[previous].0, spans[previous].1)
    ensures JoinedWith(rep, t, radius, y, previous + 1)
  {
  }

  lemma {:induction false} RowDone(
      rep: seq<nat>, t: seq<Run>, ys: seq<int>, spans: map<int, (nat, nat)>, radius: int, k: nat)
    requires Indexes(spans, t) && (forall y :: y in spans <==> y in ys)
    requires forall k, l :: 0 <= k < l < |ys| ==> ys[k] < ys[l]
    requires k < |ys| && JoinedBefore(rep, t, radius, ys[k]) && JoinedWith(rep, t, radius, ys[k], ys[k])
    requires var s := spans[ys[k]]; Together(rep, t, radius, s.0, s.1, s.0, s.1)
    ensures k + 1 < |ys| ==> JoinedBefore(rep, t, radius, ys[k + 1])
    ensures k + 1 == |ys| ==> Complete(rep, t, radius)
  {
    var y := ys[k];
    forall i, j | NearRuns(t, i, j, radius) && t[i].y <= y && t[j].y <= y
      ensures Tied(rep, i, j)
    {
      if t[i].y < y && t[j].y == y { assert NearRuns(t, j, i, radius); }
    }
    forall i | 0 <= i < |t|
      ensures t[i].y <= y || (k + 1 < |ys| && ys[k + 1] <= t[i].y)
    {
      var m :| 0 <= m < |ys| && ys[m] == t[i].y;
    }
  }
}
