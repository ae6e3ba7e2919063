/** What one page's evidence is, said of the page alone: its counts as sizes of sets of places, and the
    inference as the one answer that meets its conditions. */
module PageEvidence {
  import opened Options
  import opened Arithmetic
  import opened Pixels
  import opened Background

  // --- counts as sets of places -------------------------------------------------------------------

  /** The places of a rectangle that hold a sample at or below a level. */
  ghost function DarkPlaces(
    rows: seq<seq<Sample>>, left: int, right: int, top: int, bottom: int, level: int)
    : set<Pixel>
  {
    set p | p in Product(Interval(left, right), Interval(top, bottom)) && IsDarkAt(rows, p, level)
  }

  predicate IsDarkAt(rows: seq<seq<Sample>>, p: Pixel, level: int) {
    0 <= p.1 < |rows| && 0 <= p.0 < |rows[p.1]| && rows[p.1][p.0] <= level
  }

  /** The places that hold one value. */
  ghost function PlacesOf(rows: seq<seq<Sample>>, width: int, height: int, v: int): set<Pixel> {
    set p | p in Product(Interval(0, width), Interval(0, height)) && Holds(rows, p, v)
  }

  predicate Holds(rows: seq<seq<Sample>>, p: Pixel, v: int) {
    0 <= p.1 < |rows| && 0 <= p.0 < |rows[p.1]| && rows[p.1][p.0] == v
  }

  /** One scanline from one column to another. */
  lemma {:induction false} RowPlaces(rows: seq<seq<Sample>>, y: int, left: int, right: int, level: int)
    requires 0 <= y < |rows| && 0 <= left <= right <= |rows[y]|
    ensures |DarkPlaces(rows, left, right, y, y + 1, level)| == AtOrBelow(rows[y][left..right], level)
    decreases right - left
  {
    var row := rows[y];
    if left == right {
      assert DarkPlaces(rows, left, right, y, y + 1, level) == {};
    } else {
      var x := right - 1;
      RowPlaces(rows, y, left, x, level);
      assert row[left..right][..x - left] == row[left..x];
      OnePlaceMore(rows, y, left, x, level);
    }
  }

  lemma OnePlaceMore(rows: seq<seq<Sample>>, y: int, left: int, x: int, level: int)
    requires 0 <= y < |rows| && 0 <= left <= x < |rows[y]|
    ensures |DarkPlaces(rows, left, x + 1, y, y + 1, level)|
         == |DarkPlaces(rows, left, x, y, y + 1, level)| + if rows[y][x] <= level then 1 else 0
  {
    var less, more := DarkPlaces(rows, left, x, y, y + 1, level), DarkPlaces(rows, left, x + 1, y, y + 1, level);
    var own: Pixel := (x, y);
    forall p: Pixel
      ensures p in more <==> p in less || (p == own && rows[y][x] <= level)
    {
      IsInRow(rows, y, left, x, level, p);
    }
    IsInRow(rows, y, left, x, level, own);
    if rows[y][x] <= level { OneMember(less, more, own); } else { assert more == less; }
  }

  lemma OneMember(less: set<Pixel>, more: set<Pixel>, own: Pixel)
    requires own !in less && forall p: Pixel :: p in more <==> p in less || p == own
    ensures |more| == |less| + 1
  {
    assert more == less + {own};
  }

  lemma IsInRow(rows: seq<seq<Sample>>, y: int, left: int, right: int, level: int, p: Pixel)
    ensures p in DarkPlaces(rows, left, right, y, y + 1, level)
       <==> p.1 == y && left <= p.0 < right && IsDarkAt(rows, p, level)
    ensures p in DarkPlaces(rows, left, right + 1, y, y + 1, level)
       <==> p.1 == y && left <= p.0 < right + 1 && IsDarkAt(rows, p, level)
  {
  }

  lemma OneRowMore(rows: seq<seq<Sample>>, left: int, right: int, top: int, y: int, level: int)
    requires top <= y
    ensures |DarkPlaces(rows, left, right, top, y + 1, level)|
         == |DarkPlaces(rows, left, right, top, y, level)| + |DarkPlaces(rows, left, right, y, y + 1, level)|
  {
    var above, own := DarkPlaces(rows, left, right, top, y, level), DarkPlaces(rows, left, right, y, y + 1, level);
    assert DarkPlaces(rows, left, right, top, y + 1, level) == above + own;
    assert above !! own;
  }

  /** The samples of some scanlines without their ends, counted at or below a level. */
  lemma {:induction false} InnerPlaces(
      rows: seq<seq<Sample>>, width: int, bandX: int, top: int, bottom: int, level: int)
    requires 0 <= top <= bottom <= |rows| && 0 <= 2 * bandX <= width
    requires forall y :: 0 <= y < |rows| ==> |rows[y]| == width
    ensures AtOrBelow(Inner(rows[top..bottom], bandX), level)
         == |DarkPlaces(rows, bandX, width - bandX, top, bottom, level)|
    decreases bottom - top
  {
    if top == bottom {
      assert DarkPlaces(rows, bandX, width - bandX, top, bottom, level) == {};
    } else {
      var y := bottom - 1;
      InnerPlaces(rows, width, bandX, top, y, level);
      InnerNext(rows, width, bandX, top, y, level);
    }
  }

  lemma {:induction false} InnerNext(
      rows: seq<seq<Sample>>, width: int, bandX: int, top: int, y: int, level: int)
    requires 0 <= top <= y < |rows| && 0 <= 2 * bandX <= width && IsWide(rows, bandX) && |rows[y]| == width
    requires AtOrBelow(Inner(rows[top..y], bandX), level)
          == |DarkPlaces(rows, bandX, width - bandX, top, y, level)|
    ensures AtOrBelow(Inner(rows[top..y + 1], bandX), level)
         == |DarkPlaces(rows, bandX, width - bandX, top, y + 1, level)|
  {
    InnerOneMore(rows, bandX, top, y, level);
    CutPlaces(rows, width, bandX, y, level);
    OneRowMore(rows, bandX, width - bandX, top, y, level);
  }

  lemma CutPlaces(rows: seq<seq<Sample>>, width: int, bandX: int, y: int, level: int)
    requires 0 <= y < |rows| && 0 <= 2 * bandX <= width == |rows[y]|
    ensures AtOrBelow(CutEnds(rows[y], bandX), level) == |DarkPlaces(rows, bandX, width - bandX, y, y + 1, level)|
  {
    RowPlaces(rows, y, bandX, width - bandX, level);
  }

  lemma {:induction false} FlatIsInner(rows: seq<seq<Sample>>)
    ensures Inner(rows, 0) == Flat(rows)
  {
    if |rows| > 0 { FlatIsInner(rows[..|rows| - 1]); }
  }

  /** A page's dark samples are its places at or below the level. */
  lemma {:induction false} DarkIsPlaces(rows: seq<seq<Sample>>, width: int, height: int, level: int)
    requires IsPage(rows, width, height)
    ensures AtOrBelow(Flat(rows), level) == |DarkPlaces(rows, 0, width, 0, height, level)|
  {
    assert rows[0..height] == rows;
    FlatIsInner(rows);
    InnerPlaces(rows, width, 0, 0, height, level);
  }

  /** Its interior's are those of the rectangle inside the band. */
  lemma {:induction false} InteriorIsPlaces(
      rows: seq<seq<Sample>>, width: int, height: int, policy: Policy, level: int)
    requires IsPage(rows, width, height) && HasInterior(policy, width, height)
    ensures AtOrBelow(Interior(rows, width, height, policy), level)
         == |DarkPlaces(rows, policy.bandX, width - policy.bandX, policy.bandY, height - policy.bandY, level)|
  {
    InnerPlaces(rows, width, policy.bandX, policy.bandY, height - policy.bandY, level);
  }

  /** How often a value occurs is how many places hold it. */
  lemma {:induction false} EqualIsPlaces(rows: seq<seq<Sample>>, width: int, height: int, v: int)
    requires IsPage(rows, width, height)
    ensures Equal(Flat(rows), v) == |PlacesOf(rows, width, height, v)|
  {
    var upTo, below := DarkPlaces(rows, 0, width, 0, height, v), DarkPlaces(rows, 0, width, 0, height, v - 1);
    DarkIsPlaces(rows, width, height, v);
    DarkIsPlaces(rows, width, height, v - 1);
    LevelUp(Flat(rows), v);
    forall p: Pixel
      ensures p in upTo <==> p in below || p in PlacesOf(rows, width, height, v)
      ensures !(p in below && p in PlacesOf(rows, width, height, v))
    {
      UpToIsBelowOr(rows, width, height, v, p);
    }
    assert upTo == below + PlacesOf(rows, width, height, v) && below !! PlacesOf(rows, width, height, v);
  }

  lemma UpToIsBelowOr(rows: seq<seq<Sample>>, width: int, height: int, v: int, p: Pixel)
    ensures p in PlacesOf(rows, width, height, v)
       <==> p in DarkPlaces(rows, 0, width, 0, height, v) && p !in DarkPlaces(rows, 0, width, 0, height, v - 1)
    ensures p in DarkPlaces(rows, 0, width, 0, height, v - 1) ==> p in DarkPlaces(rows, 0, width, 0, height, v)
  {
  }

  // --- the answer that meets its conditions ---------------------------------------------------------

  /** `q` is the whole part of `part` in basis points of `whole`. */
  predicate IsShare(q: int, part: int, whole: int) {
    q * whole <= part * 10_000 < (q + 1) * whole
  }

  /** The margin is the fraction of the distance in whole levels, and at least twenty. */
  predicate IsMargin(m: int, distance: int, bp: int) {
    && m >= 20
    && (m > 20 ==> m * 10_000 <= distance * bp < (m + 1) * 10_000)
    && (m == 20 ==> distance * bp < 21 * 10_000)
  }

  /** No more of the part than the bound, in whole basis points. */
  predicate IsWithin(part: int, whole: int, bound: int) {
    part * 10_000 < (bound + 1) * whole
  }

  /** The distribution is that of the counts at the level. */
  predicate IsMeasured(
    d: DarkDistribution, policy: Policy, darkMode: int, level: int, dark: int, inside: int, area: int, border: int)
  {
    && d.bandX == policy.bandX && d.bandY == policy.bandY && d.darkMode == darkMode
    && d.level == level && d.dark == dark && d.borderDark == dark - inside
    && IsShare(d.interiorDarkBp, inside, area) && IsShare(d.borderDarkBp, dark - inside, border)
  }

  /** The level is the midpoint of the modes, or the threshold where that is lower; never negative. */
  predicate IsLevel(level: int, darkMode: int, paper: int, margin: int) {
    var cap := if paper - margin < 0 then 0 else paper - margin;
    && level <= cap && 2 * level <= darkMode + paper
    && (level == cap || 2 * level + 1 >= darkMode + paper)
  }

  ghost predicate IsInteriorOf(e: Evidence, rows: seq<seq<Sample>>, width: int, height: int, policy: Policy)
    requires IsPage(rows, width, height)
  {
    && 0 < policy.bandX && 2 * policy.bandX < width && 0 < policy.bandY && 2 * policy.bandY < height
    && e.distribution.Some?
    && var d := e.distribution.value;
       var area := (width - 2 * policy.bandX) * (height - 2 * policy.bandY);
       var inside := AtOrBelow(Interior(rows, width, height, policy), d.level);
       && IsLevel(d.level, e.darkMode, e.background, e.inkMargin)
       && IsMeasured(d, policy, e.darkMode, d.level, AtOrBelow(Flat(rows), d.level), inside, area,
            width * height - area)
       && IsWithin(inside, area, policy.maxInteriorDarkBp)
  }

  /** The paper and dark modes stand either side of the mean, and the margin is of the distance
      between them. */
  ghost predicate IsOfModes(e: Evidence, mean: int, commonest: int, pixels: seq<Sample>, policy: Policy) {
    && 0 <= mean < 256 && mean * |pixels| <= Sum(pixels) < (mean + 1) * |pixels|
    && IsMode(pixels, mean, 256, e.background) && IsMode(pixels, 0, mean + 1, e.darkMode)
    && IsMode(pixels, 0, 256, commonest)
    && IsMargin(e.inkMargin, e.background - e.darkMode, policy.inkMarginBp)
  }

  /** No more than the admitted share of the page is at or below the floor under its paper. */
  predicate IsSettled(e: Evidence, pixels: seq<Sample>, policy: Policy) {
    |pixels| > 0 && e.background >= 20 && IsWithin(AtOrBelow(pixels, e.background - 20), |pixels|, policy.maxInkBp)
  }

  /** The evidence is the page's, by the branch its commonest value calls for. */
  ghost predicate IsEvidence(
    e: Evidence, mean: int, commonest: int, rows: seq<seq<Sample>>, width: int, height: int, policy: Policy)
  {
    && width > 0 && height > 0 && |rows| == height && (forall row :: row in rows ==> |row| == width)
    && IsOfModes(e, mean, commonest, Flat(rows), policy)
    && IsSettled(e, Flat(rows), policy)
    && if commonest * |Flat(rows)| < Sum(Flat(rows))
       then e.branch == InteriorMode && IsInteriorOf(e, rows, width, height, policy)
       else e.branch == Modal && e.distribution == None
  }

  lemma ShareIs(q: int, part: int, whole: int)
    requires whole > 0
    ensures Share(part, whole) == q <==> IsShare(q, part, whole)
  {
    QuotientIs(part * BASIS_POINTS, whole, q);
  }

  lemma WithinIs(part: int, whole: int, bound: int)
    requires whole > 0
    ensures Share(part, whole) <= bound <==> IsWithin(part, whole, bound)
  {
    var q := Share(part, whole);
    ShareIs(q, part, whole);
    if q <= bound { MultiplyMonotone(q + 1, bound + 1, whole); }
    else { MultiplyMonotone(bound + 1, q, whole); }
  }

  lemma MarginIs(m: int, paper: int, darkMode: int, bp: int)
    requires darkMode <= paper
    ensures DerivedInkMargin(paper, darkMode, bp) == Given(m) <==> IsMargin(m, paper - darkMode, bp)
  {
    var x := (paper - darkMode) * bp;
    var q := x / 10_000;
    assert q * 10_000 <= x < (q + 1) * 10_000;
  }

  lemma MeanIs(pixels: seq<Sample>, mean: int)
    requires |pixels| > 0
    ensures mean == Mean(pixels) <==> mean * |pixels| <= Sum(pixels) < (mean + 1) * |pixels|
  {
    QuotientIs(Sum(pixels), |pixels|, mean);
  }

  lemma LevelIs(pixels: seq<Sample>, level: int, margin: int)
    requires |pixels| > 0
    ensures level == DarkLevel(pixels, margin) <==> IsLevel(level, DarkMode(pixels), Paper(pixels), margin)
  {
  }

  lemma {:induction false} ModesAre(pixels: seq<Sample>, paper: int, dark: int, commonest: int)
    requires |pixels| > 0
    ensures paper == Paper(pixels) <==> IsMode(pixels, Mean(pixels), 256, paper)
    ensures dark == DarkMode(pixels) <==> IsMode(pixels, 0, Mean(pixels) + 1, dark)
    ensures commonest == Mode(pixels, 0, 256) <==> IsMode(pixels, 0, 256, commonest)
  {
    ModeIs(pixels, Mean(pixels), 256);
    ModeIs(pixels, 0, Mean(pixels) + 1);
    ModeIs(pixels, 0, 256);
    if IsMode(pixels, Mean(pixels), 256, paper) { ModeIsUnique(pixels, Mean(pixels), 256, paper); }
    if IsMode(pixels, 0, Mean(pixels) + 1, dark) { ModeIsUnique(pixels, 0, Mean(pixels) + 1, dark); }
    if IsMode(pixels, 0, 256, commonest) { ModeIsUnique(pixels, 0, 256, commonest); }
  }

  lemma MeasuredIs(
      d: DarkDistribution, policy: Policy, darkMode: int, level: int, dark: int, inside: int, area: int, border: int)
    requires area > 0 && border > 0
    ensures Distribution(policy, darkMode, level, dark, inside, area, border) == Some(d)
       <==> IsMeasured(d, policy, darkMode, level, dark, inside, area, border)
            && IsWithin(inside, area, policy.maxInteriorDarkBp)
  {
    ShareIs(d.interiorDarkBp, inside, area);
    ShareIs(d.borderDarkBp, dark - inside, border);
    WithinIs(inside, area, policy.maxInteriorDarkBp);
  }

  /** The evidence names the page's two modes and their margin. */
  predicate NamesModes(e: Evidence, pixels: seq<Sample>, policy: Policy) {
    && |pixels| > 0 && e.background == Paper(pixels) && e.darkMode == DarkMode(pixels)
    && e.inkMargin == Margin(pixels, policy)
  }

  lemma SettleIs(e: Evidence, f: Evidence, pixels: seq<Sample>, policy: Policy)
    requires |pixels| > 0 && 20 <= f.background < 256
    ensures Settle(f, pixels, policy) == Given(e) <==> e == f && IsSettled(e, pixels, policy)
  {
    WithinIs(AtOrBelow(pixels, f.background - 20), |pixels|, policy.maxInkBp);
  }

  lemma ModalIff(e: Evidence, pixels: seq<Sample>, policy: Policy)
    requires |pixels| > 0 && !IsMajorityInk(pixels)
    ensures ModalVerdict(pixels, policy) == Given(e)
       <==> NamesModes(e, pixels, policy) && IsSettled(e, pixels, policy) && e.branch == Modal && e.distribution == None
  {
    ModalIsPaper(pixels);
    var f := Evidence(Paper(pixels), Modal, None, DarkMode(pixels), Margin(pixels, policy));
    if f.background >= 20 { SettleIs(e, f, pixels, policy); }
  }

  lemma {:induction false} InteriorIff(
      e: Evidence, rows: seq<seq<Sample>>, width: int, height: int, policy: Policy)
    requires IsPage(rows, width, height) && |Flat(rows)| > 0
    ensures InteriorVerdict(rows, width, height, policy) == Given(e)
       <==> NamesModes(e, Flat(rows), policy) && IsSettled(e, Flat(rows), policy) && e.branch == InteriorMode
            && IsInteriorOf(e, rows, width, height, policy)
  {
    var pixels := Flat(rows);
    var margin := Margin(pixels, policy);
    var level := DarkLevel(pixels, margin);
    var found := DarkOf(rows, width, height, policy, DarkMode(pixels), level);
    var f := Evidence(Paper(pixels), InteriorMode, found, DarkMode(pixels), margin);
    if f.background >= 20 { SettleIs(e, f, pixels, policy); }
    if NamesModes(e, pixels, policy) { DistributionIs(e, rows, width, height, policy); }
  }

  lemma {:induction false} DistributionIs(
      e: Evidence, rows: seq<seq<Sample>>, width: int, height: int, policy: Policy)
    requires IsPage(rows, width, height) && NamesModes(e, Flat(rows), policy)
    ensures var level := DarkLevel(Flat(rows), e.inkMargin);
            && e.distribution.Some?
            && DarkOf(rows, width, height, policy, e.darkMode, level) == e.distribution
            <==> IsInteriorOf(e, rows, width, height, policy)
  {
    var pixels := Flat(rows);
    var level := DarkLevel(pixels, e.inkMargin);
    PageHasPixels(rows, width, height);
    if HasInterior(policy, width, height) && e.distribution.Some? {
      var d := e.distribution.value;
      LevelIs(pixels, d.level, e.inkMargin);
      InteriorLength(rows, width, height, policy);
      var interior := Interior(rows, width, height, policy);
      MeasuredIs(d, policy, e.darkMode, level, AtOrBelow(pixels, level), AtOrBelow(interior, level),
        |interior|, |pixels| - |interior|);
    }
  }

  /** Evidence is given exactly when it is the page's. */
  lemma {:induction false} GivenIff(
      e: Evidence, rows: seq<seq<Sample>>, width: int, height: int, policy: Policy)
    ensures Verdict(rows, width, height, policy) == Given(e)
       <==> exists mean, commonest :: IsEvidence(e, mean, commonest, rows, width, height, policy)
  {
    if IsPage(rows, width, height) {
      PageHasPixels(rows, width, height);
      var pixels := Flat(rows);
      forall mean, commonest
        ensures IsEvidence(e, mean, commonest, rows, width, height, policy) ==>
                  mean == Mean(pixels) && commonest == Mode(pixels, 0, 256)
      {
        MeanIs(pixels, mean);
        ModesAre(pixels, e.background, e.darkMode, commonest);
      }
      EvidenceIff(e, rows, width, height, policy);
    }
  }

  /** Of a page: with its own mean and its own commonest value. */
  lemma {:induction false} EvidenceIff(
      e: Evidence, rows: seq<seq<Sample>>, width: int, height: int, policy: Policy)
    requires IsPage(rows, width, height) && |Flat(rows)| == width * height > 0
    ensures Verdict(rows, width, height, policy) == Given(e)
       <==> IsEvidence(e, Mean(Flat(rows)), Mode(Flat(rows), 0, 256), rows, width, height, policy)
  {
    var pixels := Flat(rows);
    EvidenceSplits(e, rows, width, height, policy);
    if IsMajorityInk(pixels) { InteriorIff(e, rows, width, height, policy); } else { ModalIff(e, pixels, policy); }
  }

  lemma {:induction false} EvidenceSplits(
      e: Evidence, rows: seq<seq<Sample>>, width: int, height: int, policy: Policy)
    requires IsPage(rows, width, height) && |Flat(rows)| == width * height > 0
    ensures IsEvidence(e, Mean(Flat(rows)), Mode(Flat(rows), 0, 256), rows, width, height, policy)
       <==> NamesModes(e, Flat(rows), policy) && IsSettled(e, Flat(rows), policy)
            && if IsMajorityInk(Flat(rows))
               then e.branch == InteriorMode && IsInteriorOf(e, rows, width, height, policy)
               else e.branch == Modal && e.distribution == None
  {
    ModesNamed(e, Flat(rows), policy);
  }

  lemma ModesNamed(e: Evidence, pixels: seq<Sample>, policy: Policy)
    requires |pixels| > 0
    ensures IsOfModes(e, Mean(pixels), Mode(pixels, 0, 256), pixels, policy) <==> NamesModes(e, pixels, policy)
  {
    MeanIs(pixels, Mean(pixels));
    ModesAre(pixels, e.background, e.darkMode, Mode(pixels, 0, 256));
    MarginOfModes(e, pixels, policy);
  }

  lemma MarginOfModes(e: Evidence, pixels: seq<Sample>, policy: Policy)
    requires |pixels| > 0
    ensures e.background == Paper(pixels) && e.darkMode == DarkMode(pixels) ==>
              (e.inkMargin == Margin(pixels, policy)
               <==> IsMargin(e.inkMargin, e.background - e.darkMode, policy.inkMarginBp))
  {
    MarginIs(e.inkMargin, Paper(pixels), DarkMode(pixels), policy.inkMarginBp);
  }
}
