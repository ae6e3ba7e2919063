/** Areas of unions of boxes by a slab-and-span sweep, against the sets of pixels covered. */
module Regions {
  import opened Arithmetic
  import opened Pixels
  import Sorting

  /** A box as the accounting admits one: it has an inside. */
  type Box = b: Bounds | b.w > 0 && b.h > 0 witness Bounds(0, 0, 1, 1)

  /** Half-open corners. */
  datatype Corners = Corners(x0: int, y0: int, x1: int, y1: int) {
    predicate Nonempty() {
      x0 < x1 && y0 < y1
    }

    ghost function Pixels(): set<Pixel> {
      Product(Interval(x0, x1), Interval(y0, y1))
    }
  }

  function CornersOf(b: Bounds): Corners {
    Corners(b.x, b.y, b.x + b.w, b.y + b.h)
  }

  function FromCorners(c: Corners): Bounds {
    Bounds(c.x0, c.y0, c.x1 - c.x0, c.y1 - c.y0)
  }

  function AllCorners(boxes: seq<Bounds>): (cs: seq<Corners>)
    ensures |cs| == |boxes| && forall i :: 0 <= i < |cs| ==> cs[i] == CornersOf(boxes[i])
  {
    seq(|boxes|, i requires 0 <= i < |boxes| => CornersOf(boxes[i]))
  }

  /** The pixels at least one of `cs` covers. */
  ghost function Cover(cs: seq<Corners>): (r: set<Pixel>)
    ensures forall p :: p in r <==> exists i :: 0 <= i < |cs| && p in cs[i].Pixels()
  {
    if |cs| == 0 then {}
    else
      var r := cs[0].Pixels() + Cover(cs[1..]);
      assert forall i :: 1 <= i < |cs| ==> cs[i] == cs[1..][i - 1];
      r
  }

  /** The pixels a region's boxes cover together. */
  ghost function Ink(boxes: seq<Bounds>): set<Pixel> {
    Cover(AllCorners(boxes))
  }

  // --- clipping --------------------------------------------------------------------

  function Meet(b: Corners, r: Corners): Corners {
    Corners(Max(b.x0, r.x0), Max(b.y0, r.y0), Min(b.x1, r.x1), Min(b.y1, r.y1))
  }

  function Clip(b: Corners, rs: seq<Corners>): (clipped: seq<Corners>)
    ensures forall i :: 0 <= i < |clipped| ==> clipped[i].Nonempty()
  {
    if |rs| == 0 then []
    else (if Meet(b, rs[0]).Nonempty() then [Meet(b, rs[0])] else []) + Clip(b, rs[1..])
  }

  lemma {:induction false} MeetPixels(b: Corners, r: Corners)
    ensures Meet(b, r).Pixels() == b.Pixels() * r.Pixels()
    ensures !Meet(b, r).Nonempty() ==> Meet(b, r).Pixels() == {}
  {
  }

  lemma {:induction false} CoverConcat(a: seq<Corners>, b: seq<Corners>)
    ensures Cover(a + b) == Cover(a) + Cover(b)
  {
    forall p
      ensures p in Cover(a + b) <==> p in Cover(a) || p in Cover(b)
    {
      if p in Cover(a) {
        var i :| 0 <= i < |a| && p in a[i].Pixels();
        assert (a + b)[i] == a[i];
      }
      if p in Cover(b) {
        var i :| 0 <= i < |b| && p in b[i].Pixels();
        assert (a + b)[|a| + i] == b[i];
      }
    }
  }

  lemma {:induction false} CoverOne(c: Corners)
    ensures Cover([c]) == c.Pixels()
  {
    assert [c][0] == c;
  }

  lemma {:induction false} ClipCover(b: Corners, rs: seq<Corners>)
    ensures Cover(Clip(b, rs)) == b.Pixels() * Cover(rs)
  {
    if |rs| > 0 {
      var first := if Meet(b, rs[0]).Nonempty() then [Meet(b, rs[0])] else [];
      ClipCover(b, rs[1..]);
      MeetPixels(b, rs[0]);
      CoverConcat(first, Clip(b, rs[1..]));
      CoverOne(Meet(b, rs[0]));
      assert Cover(first) == b.Pixels() * rs[0].Pixels();
      assert Cover(rs) == rs[0].Pixels() + Cover(rs[1..]);
    }
  }

  // --- one slab: the length of a union of sorted spans ---------------------------------

  type Span = (int, int)

  predicate SpanLeq(a: Span, b: Span) {
    a.0 < b.0 || (a.0 == b.0 && a.1 <= b.1)
  }

  ghost function Rows(spans: seq<Span>): (r: set<int>)
    ensures forall y :: y in r <==> exists i :: 0 <= i < |spans| && spans[i].0 <= y < spans[i].1
  {
    if |spans| == 0 then {}
    else
      var n := |spans| - 1;
      Rows(spans[..n]) + Interval(spans[n].0, spans[n].1)
  }

  /** The part of `rows` from `top` on is one solid run to `bottom`, and the part above it
      has been counted. */
  ghost predicate Swept(rows: set<int>, length: int, top: int, bottom: int) {
    && top < bottom
    && (forall y :: y in rows && y >= top <==> top <= y < bottom)
    && length == |Above(rows, top)|
  }

  ghost function Above(rows: set<int>, top: int): set<int> {
    set y | y in rows && y < top
  }

  lemma {:induction false} SweptTotal(rows: set<int>, length: int, top: int, bottom: int)
    requires Swept(rows, length, top, bottom)
    ensures |rows| == length + bottom - top
  {
    IntervalSize(top, bottom);
    assert rows == Above(rows, top) + Interval(top, bottom);
  }

  /** A span starting past the run closes it. */
  lemma {:induction false} SweepApart(rows: set<int>, length: int, top: int, bottom: int, a: int, b: int)
    requires Swept(rows, length, top, bottom) && bottom < a < b
    ensures Swept(rows + Interval(a, b), length + bottom - top, a, b)
  {
    SweptTotal(rows, length, top, bottom);
    assert Above(rows + Interval(a, b), a) == rows;
  }

  /** A span starting inside the run, or touching it, extends it. */
  lemma {:induction false} SweepJoined(rows: set<int>, length: int, top: int, bottom: int, a: int, b: int)
    requires Swept(rows, length, top, bottom) && top <= a <= bottom && a < b
    ensures Swept(rows + Interval(a, b), length, top, Max(bottom, b))
  {
    assert Above(rows + Interval(a, b), top) == Above(rows, top);
  }

  lemma {:induction false} RowsStep(spans: seq<Span>, n: nat)
    requires n < |spans|
    ensures Rows(spans[..n + 1]) == Rows(spans[..n]) + Interval(spans[n].0, spans[n].1)
  {
    assert spans[..n + 1][..n] == spans[..n];
  }

  lemma {:induction false} SweepFirst(spans: seq<Span>)
    requires |spans| > 0 && spans[0].0 < spans[0].1
    ensures Swept(Rows(spans[..1]), 0, spans[0].0, spans[0].1)
  {
    RowsStep(spans, 0);
    assert Above(Rows(spans[..1]), spans[0].0) == {};
  }

  /** One span more: it starts a new run or extends the current one. */
  lemma {:induction false} SweepNext(spans: seq<Span>, n: nat, length: int, top: int, bottom: int)
    requires n < |spans| && Swept(Rows(spans[..n]), length, top, bottom)
    requires top <= spans[n].0 < spans[n].1
    ensures if spans[n].0 > bottom then Swept(Rows(spans[..n + 1]), length + bottom - top, spans[n].0, spans[n].1)
            else Swept(Rows(spans[..n + 1]), length, top, Max(bottom, spans[n].1))
  {
    RowsStep(spans, n);
    if spans[n].0 > bottom {
      SweepApart(Rows(spans[..n]), length, top, bottom, spans[n].0, spans[n].1);
    } else {
      SweepJoined(Rows(spans[..n]), length, top, bottom, spans[n].0, spans[n].1);
    }
  }

  /** The length of the union of `spans`, sorted by start. */
  method SpanLength(spans: seq<Span>) returns (length: int)
    requires Sorting.IsSorted(spans, SpanLeq)
    requires forall i :: 0 <= i < |spans| ==> spans[i].0 < spans[i].1
    ensures length == |Rows(spans)|
  {
    length := 0;
    if |spans| == 0 { return; }
    var top, bottom := spans[0].0, spans[0].1;
    SweepFirst(spans);
    for n := 1 to |spans|
      invariant Swept(Rows(spans[..n]), length, top, bottom)
      invariant top <= spans[n - 1].0
    {
      assert SpanLeq(spans[n - 1], spans[n]);
      SweepNext(spans, n, length, top, bottom);
      if spans[n].0 > bottom {
        length := length + bottom - top;
        top, bottom := spans[n].0, spans[n].1;
      } else {
        bottom := Max(bottom, spans[n].1);
      }
    }
    assert spans[..|spans|] == spans;
    SweptTotal(Rows(spans), length, top, bottom);
    length := length + bottom - top;
  }

  // --- the sweep over slabs -----------------------------------------------------------

  /** The distinct vertical edges, ascending. */
  function Edges(cs: seq<Corners>): (xs: seq<int>)
    ensures Sorting.Ascending(xs)
    ensures forall v :: v in xs <==> exists i :: 0 <= i < |cs| && (v == cs[i].x0 || v == cs[i].x1)
  {
    if |cs| == 0 then []
    else
      var xs := Sorting.InsertDistinct(cs[0].x0, Sorting.InsertDistinct(cs[0].x1, Edges(cs[1..])));
      assert forall i :: 1 <= i < |cs| ==> cs[i] == cs[1..][i - 1];
      xs
  }

  function SpansOver(cs: seq<Corners>, x0: int, x1: int): seq<Span> {
    if |cs| == 0 then []
    else (if cs[0].x0 <= x0 && cs[0].x1 >= x1 then [(cs[0].y0, cs[0].y1)] else []) + SpansOver(cs[1..], x0, x1)
  }

  lemma {:induction false} SpansOverElements(cs: seq<Corners>, x0: int, x1: int, s: Span)
    ensures s in SpansOver(cs, x0, x1)
       <==> exists i :: 0 <= i < |cs| && cs[i].x0 <= x0 && cs[i].x1 >= x1 && s == (cs[i].y0, cs[i].y1)
  {
    if |cs| > 0 {
      SpansOverElements(cs[1..], x0, x1, s);
      assert forall i :: 1 <= i < |cs| ==> cs[i] == cs[1..][i - 1];
      assert forall i :: 0 <= i < |cs[1..]| ==> cs[1..][i] == cs[i + 1];
    }
  }

  ghost function Slab(cover: set<Pixel>, a: int, b: int): set<Pixel> {
    set p | p in cover && a <= p.0 < b
  }

  lemma NoneBetween(xs: seq<int>, k: nat, v: int)
    requires Sorting.Ascending(xs) && k + 1 < |xs| && v in xs
    ensures v <= xs[k] || xs[k + 1] <= v
  {
    var i :| 0 <= i < |xs| && xs[i] == v;
  }

  /** Between neighbouring edges a covered pixel lies in a corner pair that spans the slab. */
  lemma {:induction false} SlabIsSpanned(cs: seq<Corners>, xs: seq<int>, k: nat, spans: seq<Span>, x: int, y: int)
    requires xs == Edges(cs) && k + 1 < |xs|
    requires forall s :: s in SpansOver(cs, xs[k], xs[k + 1]) ==> s in spans
    requires (x, y) in Cover(cs) && xs[k] <= x < xs[k + 1]
    ensures y in Rows(spans)
  {
    var a, b := xs[k], xs[k + 1];
    var i :| 0 <= i < |cs| && (x, y) in cs[i].Pixels();
    SpansOverElements(cs, a, b, (cs[i].y0, cs[i].y1));
    assert cs[i].x0 in xs && cs[i].x1 in xs;
    NoneBetween(xs, k, cs[i].x0);
    NoneBetween(xs, k, cs[i].x1);
    assert (cs[i].y0, cs[i].y1) in spans;
  }

  lemma {:induction false} SpannedIsCovered(cs: seq<Corners>, a: int, b: int, spans: seq<Span>, x: int, y: int)
    requires forall s :: s in spans ==> s in SpansOver(cs, a, b)
    requires a <= x < b && y in Rows(spans)
    ensures (x, y) in Cover(cs)
  {
    var j :| 0 <= j < |spans| && spans[j].0 <= y < spans[j].1;
    assert spans[j] in spans;
    SpansOverElements(cs, a, b, spans[j]);
    var i :| 0 <= i < |cs| && cs[i].x0 <= a && cs[i].x1 >= b && spans[j] == (cs[i].y0, cs[i].y1);
    assert (x, y) in cs[i].Pixels();
  }

  /** Between neighbouring edges every column is covered alike. */
  lemma {:induction false} SlabIsProduct(cs: seq<Corners>, xs: seq<int>, k: nat, spans: seq<Span>)
    requires xs == Edges(cs) && k + 1 < |xs|
    requires forall s :: s in spans <==> s in SpansOver(cs, xs[k], xs[k + 1])
    ensures Slab(Cover(cs), xs[k], xs[k + 1]) == Product(Interval(xs[k], xs[k + 1]), Rows(spans))
  {
    var a, b := xs[k], xs[k + 1];
    var slab, product := Slab(Cover(cs), a, b), Product(Interval(a, b), Rows(spans));
    forall p | p in slab
      ensures p in product
    {
      SlabIsSpanned(cs, xs, k, spans, p.0, p.1);
    }
    forall p | p in product
      ensures p in slab
    {
      SpannedIsCovered(cs, a, b, spans, p.0, p.1);
    }
  }

  lemma ProductArea(slab: set<Pixel>, a: int, b: int, rows: set<int>)
    requires a <= b && slab == Product(Interval(a, b), rows)
    ensures |slab| == |rows| * (b - a)
  {
    StripSize(a, b, rows);
  }

  lemma {:induction false} SlabArea(cs: seq<Corners>, xs: seq<int>, k: nat, a: int, b: int, spans: seq<Span>)
    requires xs == Edges(cs) && k + 1 < |xs| && a == xs[k] && b == xs[k + 1]
    requires forall s :: s in spans <==> s in SpansOver(cs, a, b)
    ensures a < b && |Slab(Cover(cs), a, b)| == |Rows(spans)| * (b - a)
  {
    SlabIsProduct(cs, xs, k, spans);
    ProductArea(Slab(Cover(cs), a, b), a, b, Rows(spans));
  }

  lemma {:induction false} EdgesStart(xs: seq<int>, k: nat)
    requires Sorting.Ascending(xs) && k < |xs|
    ensures xs[0] <= xs[k]
  {
  }

  lemma {:induction false} SlabSplit(cover: set<Pixel>, a: int, b: int, c: int)
    requires a <= b <= c
    ensures |Slab(cover, a, c)| == |Slab(cover, a, b)| + |Slab(cover, b, c)|
  {
    assert Slab(cover, a, c) == Slab(cover, a, b) + Slab(cover, b, c);
    assert Slab(cover, a, b) !! Slab(cover, b, c);
  }

  lemma {:induction false} WholeSlab(cs: seq<Corners>, xs: seq<int>)
    requires xs == Edges(cs) && |xs| > 0
    ensures Slab(Cover(cs), xs[0], xs[|xs| - 1]) == Cover(cs)
  {
    forall p | p in Cover(cs)
      ensures xs[0] <= p.0 < xs[|xs| - 1]
    {
      var i :| 0 <= i < |cs| && p in cs[i].Pixels();
      assert cs[i].x0 in xs && cs[i].x1 in xs;
      var a :| 0 <= a < |xs| && xs[a] == cs[i].x0;
      var b :| 0 <= b < |xs| && xs[b] == cs[i].x1;
    }
  }

  /** The pixels covered between two neighbouring edges. */
  method MeasureSlab(cs: seq<Corners>, xs: seq<int>, k: nat) returns (area: int)
    requires xs == Edges(cs) && k + 1 < |xs|
    requires forall i :: 0 <= i < |cs| ==> cs[i].Nonempty()
    ensures xs[k] < xs[k + 1] && area == |Slab(Cover(cs), xs[k], xs[k + 1])|
  {
    var x0, x1 := xs[k], xs[k + 1];
    var unsorted := SpansOver(cs, x0, x1);
    var spans := Sorting.Sort(unsorted, SpanLeq);
    SpansNonempty(cs, x0, x1, spans);
    var length := SpanLength(spans);
    Sorting.SameElements(spans, unsorted);
    SlabArea(cs, xs, k, x0, x1, spans);
    area := length * (x1 - x0);
  }

  /** The area of `box` the union of `regions` covers: its pixels, each once. */
  method AreaInside(box: Bounds, regions: seq<Bounds>) returns (covered: int)
    ensures covered == |CornersOf(box).Pixels() * Ink(regions)|
  {
    var clipped := Clip(CornersOf(box), AllCorners(regions));
    ClipCover(CornersOf(box), AllCorners(regions));
    covered := 0;
    if |clipped| == 0 { return; }
    var xs := Edges(clipped);
    assert clipped[0].x0 in xs;
    assert Slab(Cover(clipped), xs[0], xs[0]) == {};
    for k := 0 to |xs| - 1
      invariant covered == |Slab(Cover(clipped), xs[0], xs[k])|
    {
      var slab := MeasureSlab(clipped, xs, k);
      EdgesStart(xs, k);
      SlabSplit(Cover(clipped), xs[0], xs[k], xs[k + 1]);
      covered := covered + slab;
    }
    WholeSlab(clipped, xs);
  }

  lemma {:induction false} SpansNonempty(cs: seq<Corners>, a: int, b: int, spans: seq<Span>)
    requires forall i :: 0 <= i < |cs| ==> cs[i].Nonempty()
    requires multiset(spans) == multiset(SpansOver(cs, a, b))
    ensures forall i :: 0 <= i < |spans| ==> spans[i].0 < spans[i].1
  {
    Sorting.SameElements(spans, SpansOver(cs, a, b));
    forall i | 0 <= i < |spans|
      ensures spans[i].0 < spans[i].1
    {
      assert spans[i] in spans;
      SpansOverElements(cs, a, b, spans[i]);
    }
  }

  // --- region area, shared area, inside ---------------------------------------------

  function Hull(cs: seq<Corners>): (h: Corners)
    requires |cs| > 0
    ensures forall i :: 0 <= i < |cs| ==>
              h.x0 <= cs[i].x0 && h.y0 <= cs[i].y0 && cs[i].x1 <= h.x1 && cs[i].y1 <= h.y1
  {
    if |cs| == 1 then cs[0]
    else
      var n := |cs| - 1;
      var h := Hull(cs[..n]);
      assert forall i :: 0 <= i < n ==> cs[i] == cs[..n][i];
      Corners(Min(h.x0, cs[n].x0), Min(h.y0, cs[n].y0), Max(h.x1, cs[n].x1), Max(h.y1, cs[n].y1))
  }

  lemma {:induction false} HullCovers(cs: seq<Corners>)
    requires |cs| > 0
    ensures Cover(cs) <= Hull(cs).Pixels()
  {
    forall p | p in Cover(cs)
      ensures p in Hull(cs).Pixels()
    {
      var i :| 0 <= i < |cs| && p in cs[i].Pixels();
    }
  }

  lemma {:induction false} HullHoldsInk(boxes: seq<Bounds>)
    requires |boxes| > 0
    ensures Hull(AllCorners(boxes)).Pixels() * Ink(boxes) == Ink(boxes)
  {
    HullCovers(AllCorners(boxes));
  }

  /** The ink of some boxes is the pixels that some box holds. */
  lemma {:induction false} InkIs(boxes: seq<Bounds>, p: Pixel)
    ensures p in Ink(boxes) <==> exists b :: b in boxes && b.x <= p.0 < b.x + b.w && b.y <= p.1 < b.y + b.h
  {
    var cs := AllCorners(boxes);
    if p in Ink(boxes) {
      var i :| 0 <= i < |cs| && p in cs[i].Pixels();
      assert boxes[i] in boxes;
    }
    if b :| b in boxes && b.x <= p.0 < b.x + b.w && b.y <= p.1 < b.y + b.h {
      var i :| 0 <= i < |boxes| && boxes[i] == b;
      assert p in cs[i].Pixels();
    }
  }

  /** How many pixels the boxes cover together. */
  method RegionArea(boxes: seq<Bounds>) returns (area: int)
    ensures area == |Ink(boxes)|
  {
    if |boxes| == 0 { return 0; }
    var hull := Hull(AllCorners(boxes));
    area := AreaInside(FromCorners(hull), boxes);
    assert CornersOf(FromCorners(hull)) == hull;
    HullHoldsInk(boxes);
  }

  lemma {:induction false} CoverStep(cs: seq<Corners>, n: nat)
    requires n < |cs|
    ensures Cover(cs[..n + 1]) == Cover(cs[..n]) + cs[n].Pixels()
  {
    assert cs[..n + 1] == cs[..n] + [cs[n]];
    CoverConcat(cs[..n], [cs[n]]);
    CoverOne(cs[n]);
  }

  /** `overlaps` with one box's overlaps against every box of `b` appended. */
  method AppendOverlaps(overlaps: seq<Bounds>, a: Corners, b: seq<Corners>) returns (more: seq<Bounds>)
    ensures Ink(more) == Ink(overlaps) + a.Pixels() * Cover(b)
  {
    more := overlaps;
    for j := 0 to |b|
      invariant Ink(more) == Ink(overlaps) + a.Pixels() * Cover(b[..j])
    {
      var meet := Meet(a, b[j]);
      MeetPixels(a, b[j]);
      CoverStep(b, j);
      if meet.Nonempty() {
        InkAppend(more, meet);
        more := more + [FromCorners(meet)];
      }
    }
    assert b[..|b|] == b;
  }

  /** The area both regions claim, as the union of their boxes' pairwise overlaps. */
  method SharedArea(region: seq<Bounds>, other: seq<Bounds>) returns (area: int)
    ensures area == |Ink(region) * Ink(other)|
  {
    var a, b := AllCorners(region), AllCorners(other);
    var overlaps: seq<Bounds> := [];
    for i := 0 to |a|
      invariant Ink(overlaps) == Cover(a[..i]) * Cover(b)
    {
      CoverStep(a, i);
      overlaps := AppendOverlaps(overlaps, a[i], b);
    }
    assert a[..|a|] == a;
    area := RegionArea(overlaps);
  }

  lemma {:induction false} InkAppend(boxes: seq<Bounds>, c: Corners)
    ensures Ink(boxes + [FromCorners(c)]) == Ink(boxes) + c.Pixels()
  {
    assert AllCorners(boxes + [FromCorners(c)]) == AllCorners(boxes) + [c];
    CoverConcat(AllCorners(boxes), [c]);
    CoverOne(c);
  }

  /** What two regions share never exceeds the smaller of them. */
  lemma {:induction false} SharedAtMostSmaller(region: seq<Bounds>, other: seq<Bounds>)
    ensures |Ink(region) * Ink(other)| <= Min(|Ink(region)|, |Ink(other)|)
  {
    SubsetSize(Ink(region) * Ink(other), Ink(region));
    SubsetSize(Ink(region) * Ink(other), Ink(other));
  }

  lemma {:induction false} BoxArea(box: Box)
    ensures |CornersOf(box).Pixels()| == box.w * box.h
  {
    var c := CornersOf(box);
    var columns, rows := Interval(c.x0, c.x1), Interval(c.y0, c.y1);
    IntervalSize(c.x0, c.x1);
    IntervalSize(c.y0, c.y1);
    ProductSize(columns, rows);
    assert |columns| == box.w && |rows| == box.h;
  }

  /** The sealed share of the box's pixels lies in the region. */
  ghost predicate LiesInside(box: Box, regions: seq<Bounds>, minShareBp: int) {
    |CornersOf(box).Pixels() * Ink(regions)| * BASIS_POINTS >= minShareBp * |CornersOf(box).Pixels()|
  }

  method IsInside(box: Box, regions: seq<Bounds>, minShareBp: int) returns (inside: bool)
    ensures inside <==> LiesInside(box, regions, minShareBp)
  {
    var covered := AreaInside(box, regions);
    BoxArea(box);
    inside := covered * BASIS_POINTS >= minShareBp * (box.w * box.h);
  }

  /** Only the pixels decide: the order of the boxes, their repetition and how a region is
      cut into boxes change no answer. */
  lemma {:induction false} OnlyPixelsMatter(box: Box, regions: seq<Bounds>, others: seq<Bounds>, minShareBp: int)
    requires forall b :: b in regions <==> b in others
    ensures Ink(regions) == Ink(others)
    ensures LiesInside(box, regions, minShareBp) <==> LiesInside(box, others, minShareBp)
  {
    InkWithin(regions, others);
    InkWithin(others, regions);
  }

  lemma {:induction false} InkWithin(regions: seq<Bounds>, others: seq<Bounds>)
    requires forall b :: b in regions ==> b in others
    ensures Ink(regions) <= Ink(others)
  {
    forall p | p in Ink(regions)
      ensures p in Ink(others)
    {
      var i :| 0 <= i < |regions| && p in AllCorners(regions)[i].Pixels();
      assert regions[i] in others;
      var j :| 0 <= j < |others| && others[j] == regions[i];
      assert p in AllCorners(others)[j].Pixels();
    }
  }

  // --- duplicate regions ---------------------------------------------------------------

  /** Two regions claim mostly the same ink. */
  ghost predicate MostlySame(region: seq<Bounds>, other: seq<Bounds>, maxShareBp: int) {
    |Ink(region) * Ink(other)| * BASIS_POINTS > maxShareBp * Min(|Ink(region)|, |Ink(other)|)
  }

  method IsDuplicate(region: seq<Bounds>, other: seq<Bounds>, maxShareBp: int) returns (held: bool)
    ensures held <==> region != [] && other != [] && MostlySame(region, other, maxShareBp)
  {
    if region == [] || other == [] { return false; }
    var shared := SharedArea(region, other);
    var one := RegionArea(region);
    var two := RegionArea(other);
    held := shared * BASIS_POINTS > maxShareBp * Min(one, two);
  }

  /** The share comparison, on the numbers alone. */
  lemma ShareComparison(shared: nat, smaller: nat, maxShareBp: int)
    requires shared <= smaller
    ensures smaller > 0 && shared == smaller && maxShareBp < BASIS_POINTS
            ==> shared * BASIS_POINTS > maxShareBp * smaller
    ensures maxShareBp >= BASIS_POINTS ==> shared * BASIS_POINTS <= maxShareBp * smaller
  {
    if maxShareBp >= BASIS_POINTS {
      assert maxShareBp * smaller >= BASIS_POINTS * smaller;
    } else if smaller > 0 {
      assert (BASIS_POINTS - maxShareBp) * smaller > 0;
    }
  }

  /** The rule is symmetric, holds any region lying inside another whatever boxes name it,
      and holds nothing once the admitted share is the whole. */
  lemma {:induction false} DuplicateLaws(region: seq<Bounds>, other: seq<Bounds>, maxShareBp: int)
    ensures MostlySame(region, other, maxShareBp) <==> MostlySame(other, region, maxShareBp)
    ensures Ink(region) != {} && Ink(region) <= Ink(other) && maxShareBp < BASIS_POINTS
            ==> MostlySame(region, other, maxShareBp)
    ensures maxShareBp >= BASIS_POINTS ==> !MostlySame(region, other, maxShareBp)
  {
    var a, b := Ink(region), Ink(other);
    SharedBothWays(a, b);
    SharedAtMostSmaller(region, other);
    if a <= b { SharedWhole(a, b); }
    ShareComparison(|a * b|, Min(|a|, |b|), maxShareBp);
  }

  lemma SharedBothWays(a: set<Pixel>, b: set<Pixel>)
    ensures a * b == b * a
  {
  }

  lemma SharedWhole(a: set<Pixel>, b: set<Pixel>)
    requires a <= b
    ensures a * b == a && |a| <= |b|
  {
    SubsetSize(a, b);
  }
}
