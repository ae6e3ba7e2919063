/** Connected components of an ink pixel set, labelled over scanline runs. */
module Components {
  import opened Pixels
  import opened DisjointSets
  import opened InkGraph
  import RowSweep
  import Sorting

  type Scanline = seq<(int, int)>

  datatype Error = NegativeTolerance
  datatype Result<T> = Ok(value: T) | Err(error: Error)

  // --- scanlines into runs ----------------------------------------------------------

  /** Half-open runs in ascending order, none empty, none overlapping. */
  ghost predicate IsScanline(runs: Scanline) {
    && (forall k :: 0 <= k < |runs| ==> runs[k].0 < runs[k].1)
    && (forall j, k :: 0 <= j < k < |runs| ==> runs[j].1 <= runs[k].0)
  }

  /** No two runs touch, so none could be longer. */
  ghost predicate IsMaximal(runs: Scanline) {
    IsScanline(runs) && forall j, k :: 0 <= j < k < |runs| ==> runs[j].1 < runs[k].0
  }

  ghost predicate InRuns(runs: Scanline, x: int) {
    exists k :: 0 <= k < |runs| && runs[k].0 <= x < runs[k].1
  }

  /** The first position at or after `from` holding `wanted`, or the length. */
  method Find(bits: seq<bool>, wanted: bool, from: nat) returns (at: nat)
    requires from <= |bits|
    ensures from <= at <= |bits|
    ensures forall x :: from <= x < at ==> bits[x] != wanted
    ensures at < |bits| ==> bits[at] == wanted
  {
    at := from;
    while at < |bits| && bits[at] != wanted
      invariant from <= at <= |bits|
      invariant forall x :: from <= x < at ==> bits[x] != wanted
    {
      at := at + 1;
    }
  }

  lemma {:induction false} AppendedRun(runs: Scanline, start: int, end: int)
    ensures forall x :: InRuns(runs + [(start, end)], x) <==> InRuns(runs, x) || start <= x < end
  {
    var longer := runs + [(start, end)];
    forall x
      ensures InRuns(longer, x) <==> InRuns(runs, x) || start <= x < end
    {
      if k :| 0 <= k < |runs| && runs[k].0 <= x < runs[k].1 { assert longer[k] == runs[k]; }
      assert longer[|runs|] == (start, end);
    }
  }

  /** A run past all the others keeps a scanline maximal. */
  lemma {:induction false} AppendMaximal(runs: Scanline, start: int, end: int)
    requires IsMaximal(runs) && start < end
    requires forall k :: 0 <= k < |runs| ==> runs[k].1 < start
    ensures IsMaximal(runs + [(start, end)])
  {
  }

  /** One translated scanline as maximal runs: exactly its set bits. */
  method RunsInRow(bits: seq<bool>) returns (runs: Scanline)
    ensures IsMaximal(runs)
    ensures forall x :: InRuns(runs, x) <==> 0 <= x < |bits| && bits[x]
  {
    runs := [];
    var start := Find(bits, true, 0);
    while start < |bits|
      invariant start <= |bits| && IsMaximal(runs)
      invariant start < |bits| ==> bits[start]
      invariant forall k :: 0 <= k < |runs| ==> runs[k].1 <= |bits| && (start < |bits| ==> runs[k].1 < start)
      invariant forall x :: InRuns(runs, x) <==> 0 <= x < start && bits[x]
      decreases |bits| - start
    {
      var end := Find(bits, false, start);
      AppendMaximal(runs, start, end);
      AppendedRun(runs, start, end);
      runs := runs + [(start, end)];
      start := Find(bits, true, end);
    }
  }

  /** The columns of one row, in any order and with repeats, as maximal runs. */
  method RunsOfColumn(unsorted: seq<int>) returns (runs: Scanline)
    requires |unsorted| > 0
    ensures IsMaximal(runs)
    ensures forall x :: InRuns(runs, x) <==> x in unsorted
  {
    var column := Sorting.Sort(unsorted, Sorting.IntLeq);
    Sorting.SameElements(column, unsorted);
    runs := RunsOfSorted(column);
  }

  method RunsOfSorted(column: seq<int>) returns (runs: Scanline)
    requires |column| > 0 && Sorting.IsSorted(column, Sorting.IntLeq)
    ensures IsMaximal(runs)
    ensures forall x :: InRuns(runs, x) <==> x in column
  {
    runs := [];
    var start, previous := column[0], column[0];
    for i := 1 to |column|
      invariant previous == column[i - 1] && IsOpenRun(runs, start, previous)
      invariant forall x :: InOpenRun(runs, start, previous, x) <==> x in column[..i]
    {
      var x := column[i];
      assert column[..i + 1] == column[..i] + [x];
      assert Sorting.IntLeq(column[i - 1], column[i]);
      OpenRunStep(runs, start, previous, x);
      if x > previous + 1 {
        runs := runs + [(start, previous + 1)];
        start := x;
      }
      previous := x;
    }
    assert column[..|column|] == column;
    CloseRun(runs, start, previous, previous);
    runs := runs + [(start, previous + 1)];
  }

  /** `runs` are closed and lie before the run still open from `start` to `previous`. */
  ghost predicate IsOpenRun(runs: Scanline, start: int, previous: int) {
    IsMaximal(runs) && start <= previous && forall k :: 0 <= k < |runs| ==> runs[k].1 < start
  }

  ghost predicate InOpenRun(runs: Scanline, start: int, previous: int, x: int) {
    InRuns(runs, x) || start <= x <= previous
  }

  lemma {:induction false} CloseRun(runs: Scanline, start: int, previous: int, next: int)
    requires IsOpenRun(runs, start, previous)
    ensures IsMaximal(runs + [(start, previous + 1)])
    ensures forall x :: InRuns(runs + [(start, previous + 1)], x) <==> InOpenRun(runs, start, previous, x)
    ensures next > previous + 1 ==> IsOpenRun(runs + [(start, previous + 1)], next, next)
  {
    AppendMaximal(runs, start, previous + 1);
    AppendedRun(runs, start, previous + 1);
  }

  /** Taking the next column, at or after the last, adds exactly that column. */
  lemma {:induction false} OpenRunStep(runs: Scanline, start: int, previous: int, x: int)
    requires IsOpenRun(runs, start, previous) && previous <= x
    ensures var (runs', start') := if x > previous + 1 then (runs + [(start, previous + 1)], x) else (runs, start);
            IsOpenRun(runs', start', x)
            && forall v :: InOpenRun(runs', start', x, v) <==> InOpenRun(runs, start, previous, v) || v == x
  {
    CloseRun(runs, start, previous, x);
  }

  ghost predicate IsRows(rows: map<int, Scanline>) {
    forall y :: y in rows ==> IsScanline(rows[y])
  }

  ghost function RowInk(runs: Scanline, y: int): set<Pixel> {
    set k, x | 0 <= k < |runs| && x in Interval(runs[k].0, runs[k].1) :: (x, y)
  }

  /** The pixels a page of runs holds. */
  ghost function Ink(rows: map<int, Scanline>): set<Pixel> {
    set y, p | y in rows && p in RowInk(rows[y], y) :: p
  }

  lemma {:induction false} InInk(rows: map<int, Scanline>, p: Pixel)
    ensures p in Ink(rows) <==> p.1 in rows && InRuns(rows[p.1], p.0)
  {
    if p.1 in rows && InRuns(rows[p.1], p.0) {
      var runs := rows[p.1];
      var k :| 0 <= k < |runs| && runs[k].0 <= p.0 < runs[k].1;
      assert p.0 in Interval(runs[k].0, runs[k].1);
      assert p in RowInk(runs, p.1);
    }
  }

  // --- a pixel set into rows of runs --------------------------------------------------

  function ByRow(pixels: seq<Pixel>): (columns: map<int, seq<int>>)
    ensures forall y :: y in columns ==> |columns[y]| > 0
    ensures forall p :: p in pixels <==> p.1 in columns && p.0 in columns[p.1]
  {
    if |pixels| == 0 then map[]
    else
      var n := |pixels| - 1;
      var (x, y) := pixels[n];
      var columns := ByRow(pixels[..n]);
      assert pixels == pixels[..n] + [pixels[n]];
      columns[y := (if y in columns then columns[y] else []) + [x]]
  }

  /** Maximal runs holding the pixels given, in whatever order and however often. */
  method InkRunsByRow(pixels: seq<Pixel>) returns (rows: map<int, Scanline>)
    ensures forall y :: y in rows ==> IsMaximal(rows[y])
    ensures forall p :: p in Ink(rows) <==> p in pixels
  {
    var columns := ByRow(pixels);
    var ys := Sorting.Elements(columns.Keys);
    rows := map[];
    for i := 0 to |ys|
      invariant forall y :: y in rows <==> y in ys[..i]
      invariant forall y :: y in rows ==> y in columns && IsMaximal(rows[y])
      invariant forall y, x :: y in rows ==> (InRuns(rows[y], x) <==> x in columns[y])
    {
      var runs := RunsOfColumn(columns[ys[i]]);
      rows := rows[ys[i] := runs];
      assert ys[..i + 1] == ys[..i] + [ys[i]];
    }
    assert ys[..|ys|] == ys;
    forall p: Pixel
      ensures p in Ink(rows) <==> p in pixels
    {
      InInk(rows, p);
      var x: int, y: int := p.0, p.1;
      assert y in columns.Keys <==> y in ys;
      assert p in pixels <==> y in columns && x in columns[y];
      assert p in Ink(rows) <==> y in rows && InRuns(rows[y], x);
    }
  }

  // --- the flat run table ----------------------------------------------------------------

  function RowRuns(y: int, runs: Scanline): (r: seq<Run>)
    ensures |r| == |runs| && forall k :: 0 <= k < |r| ==> r[k] == Run(y, runs[k].0, runs[k].1)
  {
    seq(|runs|, k requires 0 <= k < |runs| => Run(y, runs[k].0, runs[k].1))
  }

  /** `t` holds exactly the runs of the rows in `ys`. */
  ghost predicate HoldsRows(t: seq<Run>, rows: map<int, Scanline>, ys: seq<int>) {
    && (forall i :: 0 <= i < |t| ==> t[i].y in ys && t[i].y in rows && (t[i].x0, t[i].x1) in rows[t[i].y])
    && (forall y, k :: y in ys && y in rows && 0 <= k < |rows[y]| ==> Run(y, rows[y][k].0, rows[y][k].1) in t)
  }

  /** The runs of one more row keep the table's order. */
  lemma {:induction false} AppendOrdered(t: seq<Run>, y: int, runs: Scanline)
    requires IsTable(t) && IsScanline(runs) && forall k :: 0 <= k < |t| ==> t[k].y < y
    ensures IsTable(t + RowRuns(y, runs))
  {
    var more := t + RowRuns(y, runs);
    forall a, b | 0 <= a < b < |more|
      ensures Precedes(more[a], more[b])
    {
      if b < |t| { assert Precedes(t[a], t[b]); }
    }
  }

  lemma {:induction false} AppendIndexed(t: seq<Run>, spans: map<int, (nat, nat)>, y: int, runs: Scanline)
    requires RowSweep.Indexes(spans, t) && y !in spans
    ensures var more := t + RowRuns(y, runs); RowSweep.Indexes(spans[y := (|t|, |more|)], more)
  {
  }

  lemma {:induction false} AppendHeld(t: seq<Run>, rows: map<int, Scanline>, done: seq<int>, y: int)
    requires HoldsRows(t, rows, done) && y in rows
    ensures HoldsRows(t + RowRuns(y, rows[y]), rows, done + [y])
  {
    var added := RowRuns(y, rows[y]);
    var more := t + added;
    forall y', k | y' in done + [y] && y' in rows && 0 <= k < |rows[y']|
      ensures Run(y', rows[y'][k].0, rows[y'][k].1) in more
    {
      if y' == y { assert more[|t| + k] == added[k]; }
    }
  }

  lemma {:induction false} AppendRow(
      t: seq<Run>, spans: map<int, (nat, nat)>, rows: map<int, Scanline>, ys: seq<int>, i: nat)
    requires IsRows(rows) && Sorting.Ascending(ys) && i < |ys| && ys[i] in rows
    requires IsTable(t) && RowSweep.Indexes(spans, t) && HoldsRows(t, rows, ys[..i])
    requires forall y :: y in spans <==> y in ys[..i]
    ensures var more := t + RowRuns(ys[i], rows[ys[i]]);
            IsTable(more) && HoldsRows(more, rows, ys[..i + 1]) && RowSweep.Indexes(spans[ys[i] := (|t|, |more|)], more)
  {
    assert ys[..i + 1] == ys[..i] + [ys[i]];
    assert ys[i] !in ys[..i];
    AppendOrdered(t, ys[i], rows[ys[i]]);
    AppendIndexed(t, spans, ys[i], rows[ys[i]]);
    AppendHeld(t, rows, ys[..i], ys[i]);
  }

  method BuildTable(rows: map<int, Scanline>, ys: seq<int>) returns (t: seq<Run>, spans: map<int, (nat, nat)>)
    requires IsRows(rows) && Sorting.Ascending(ys)
    requires forall y :: y in ys <==> y in rows
    ensures IsTable(t) && RowSweep.Indexes(spans, t) && HoldsRows(t, rows, ys)
    ensures forall y :: y in spans <==> y in ys
  {
    t, spans := [], map[];
    for i := 0 to |ys|
      invariant IsTable(t) && RowSweep.Indexes(spans, t) && HoldsRows(t, rows, ys[..i])
      invariant forall y :: y in spans <==> y in ys[..i]
    {
      assert ys[i] in ys;
      AppendRow(t, spans, rows, ys, i);
      var lo := |t|;
      t := t + RowRuns(ys[i], rows[ys[i]]);
      spans := spans[ys[i] := (lo, |t|)];
      assert ys[..i + 1] == ys[..i] + [ys[i]];
    }
    assert ys[..|ys|] == ys;
  }

  /** The table covers exactly the page's ink. */
  lemma {:induction false} TableCover(t: seq<Run>, rows: map<int, Scanline>, ys: seq<int>)
    requires HoldsRows(t, rows, ys) && forall y :: y in ys <==> y in rows
    ensures Cover(t) == Ink(rows)
  {
    forall p
      ensures p in Cover(t) <==> p in Ink(rows)
    {
      InCover(t, p);
      InInk(rows, p);
      if p in Cover(t) {
        var i :| 0 <= i < |t| && t[i].Holds(p);
        var k :| 0 <= k < |rows[p.1]| && rows[p.1][k] == (t[i].x0, t[i].x1);
      }
      if p in Ink(rows) {
        var k :| 0 <= k < |rows[p.1]| && rows[p.1][k].0 <= p.0 < rows[p.1][k].1;
        var i :| 0 <= i < |t| && t[i] == Run(p.1, rows[p.1][k].0, rows[p.1][k].1);
        assert t[i].Holds(p);
      }
    }
  }
}
