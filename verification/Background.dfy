/** One page's paper value, inferred from its own grey-level populations. */
module Background {
  import opened Options
  import opened Arithmetic

  type Sample = v: nat | v < 256

  const PRIMARY_MARGIN := 20

  /** The band is already in this page's pixels; the rest are basis points. */
  datatype Policy = Policy(bandX: int, bandY: int, inkMarginBp: int, maxInkBp: int, maxInteriorDarkBp: int)

  datatype DarkDistribution = DarkDistribution(
    bandX: int, bandY: int, darkMode: int, level: int, dark: int, borderDark: int, borderDarkBp: int,
      interiorDarkBp: int)

  datatype Branch = Modal | InteriorMode

  datatype Evidence = Evidence(background: int, branch: Branch, distribution: Option<DarkDistribution>,
    darkMode: int, inkMargin: int)

  datatype Refusal =
    | NoPixels | WrongShape | BadSample | NegativeMargin | BelowEverySample | ModesSwapped | MajorityInk
    | DarkerThanMargin | TooMuchInk

  datatype Result<T> = Given(value: T) | Refused(why: Refusal)

  // --- pixels ---------------------------------------------------------------------------------------

  function Flat(rows: seq<seq<Sample>>): seq<Sample> {
    if |rows| == 0 then [] else Flat(rows[..|rows| - 1]) + rows[|rows| - 1]
  }

  predicate IsPage(rows: seq<seq<Sample>>, width: int, height: int) {
    width > 0 && |rows| == height && height > 0 && forall y :: 0 <= y < |rows| ==> |rows[y]| == width
  }

  /** Pixels of one value. */
  function Equal(pixels: seq<Sample>, v: int): nat {
    if |pixels| == 0 then 0
    else Equal(pixels[..|pixels| - 1], v) + if pixels[|pixels| - 1] == v then 1 else 0
  }

  /** Pixels at or below a level. */
  function AtOrBelow(pixels: seq<Sample>, level: int): (n: nat)
    ensures n <= |pixels|
  {
    if |pixels| == 0 then 0
    else AtOrBelow(pixels[..|pixels| - 1], level) + if pixels[|pixels| - 1] <= level then 1 else 0
  }

  /** The samples below a value, added up. */
  function SumBelow(pixels: seq<Sample>, v: int): nat {
    if |pixels| == 0 then 0
    else SumBelow(pixels[..|pixels| - 1], v) + if pixels[|pixels| - 1] < v then pixels[|pixels| - 1] else 0
  }

  function Sum(pixels: seq<Sample>): (n: nat)
    ensures n <= 255 * |pixels|
  {
    if |pixels| == 0 then 0 else Sum(pixels[..|pixels| - 1]) + pixels[|pixels| - 1]
  }

  /** The first value of the range that the most pixels have. */
  ghost predicate IsMode(pixels: seq<Sample>, low: int, high: int, m: int) {
    && low <= m < high
    && (forall v :: low <= v < m ==> Equal(pixels, v) < Equal(pixels, m))
    && (forall v :: m <= v < high ==> Equal(pixels, v) <= Equal(pixels, m))
  }

  function Mode(pixels: seq<Sample>, low: int, high: int): (m: int)
    requires low < high
    ensures low <= m < high
    decreases high - low
  {
    if low + 1 == high then low
    else
      var m := Mode(pixels, low, high - 1);
      if Equal(pixels, high - 1) > Equal(pixels, m) then high - 1 else m
  }

  lemma {:induction false} ModeIs(pixels: seq<Sample>, low: int, high: int)
    requires low < high
    ensures IsMode(pixels, low, high, Mode(pixels, low, high))
    decreases high - low
  {
    if low + 1 < high {
      ModeIs(pixels, low, high - 1);
    }
  }

  lemma {:induction false} ModeIsUnique(pixels: seq<Sample>, low: int, high: int, m: int)
    requires IsMode(pixels, low, high, m)
    ensures m == Mode(pixels, low, high)
  {
    ModeIs(pixels, low, high);
  }

  lemma {:induction false} LevelUp(pixels: seq<Sample>, v: int)
    ensures AtOrBelow(pixels, v) == AtOrBelow(pixels, v - 1) + Equal(pixels, v)
  {
    if |pixels| > 0 {
      LevelUp(pixels[..|pixels| - 1], v);
    }
  }

  lemma {:induction false} SumUp(pixels: seq<Sample>, v: int)
    ensures SumBelow(pixels, v + 1) == SumBelow(pixels, v) + v * Equal(pixels, v)
  {
    if |pixels| > 0 {
      var rest := pixels[..|pixels| - 1];
      SumUp(rest, v);
      var n, n' := Equal(rest, v), Equal(pixels, v);
      assert n' == n || (n' == n + 1 && v * n' == v * n + v);
    }
  }

  lemma {:induction false} Ends(pixels: seq<Sample>)
    ensures AtOrBelow(pixels, -1) == 0 && SumBelow(pixels, 0) == 0
    ensures SumBelow(pixels, 256) == Sum(pixels) && AtOrBelow(pixels, 255) == |pixels|
  {
    if |pixels| > 0 {
      Ends(pixels[..|pixels| - 1]);
    }
  }

  lemma {:induction false} LevelsRise(pixels: seq<Sample>, low: int, high: int)
    requires low <= high
    ensures AtOrBelow(pixels, low) <= AtOrBelow(pixels, high)
  {
    if |pixels| > 0 {
      LevelsRise(pixels[..|pixels| - 1], low, high);
    }
  }

  lemma {:induction false} CountJoins(a: seq<Sample>, b: seq<Sample>, level: int)
    ensures AtOrBelow(a + b, level) == AtOrBelow(a, level) + AtOrBelow(b, level)
  {
    if |b| == 0 {
      assert a + b == a;
    } else {
      CountJoins(a, b[..|b| - 1], level);
      assert (a + b)[..|a| + |b| - 1] == a + b[..|b| - 1];
    }
  }

  lemma {:induction false} FlatLength(rows: seq<seq<Sample>>, width: int)
    requires forall y :: 0 <= y < |rows| ==> |rows[y]| == width
    ensures |Flat(rows)| == width * |rows|
  {
    if |rows| > 0 {
      FlatLength(rows[..|rows| - 1], width);
    }
  }

  lemma {:induction false} FlatJoins(a: seq<seq<Sample>>, b: seq<seq<Sample>>)
    ensures Flat(a + b) == Flat(a) + Flat(b)
  {
    if |b| == 0 {
      assert a + b == a;
    } else {
      FlatJoins(a, b[..|b| - 1]);
      assert (a + b)[..|a| + |b| - 1] == a + b[..|b| - 1];
    }
  }

  // --- the histogram --------------------------------------------------------------------------------

  ghost predicate Counts(histogram: seq<int>, pixels: seq<Sample>) {
    |histogram| == 256 && forall v :: 0 <= v < 256 ==> histogram[v] == Equal(pixels, v)
  }

  lemma CountOne(pixels: seq<Sample>, row: seq<Sample>, x: nat)
    requires x < |row|
    ensures forall v ::
              0 <= v < 256 ==> Equal(pixels + row[..x + 1], v) == Equal(pixels + row[..x], v) + if row[x]
                == v then 1 else 0
  {
    assert (pixels + row[..x + 1])[..|pixels| + x] == pixels + row[..x];
  }

  /** Add one scanline to the histogram. */
  method CountRow(histogram: array<int>, row: seq<Sample>, ghost pixels: seq<Sample>)
    requires Counts(histogram[..], pixels)
    modifies histogram
    ensures Counts(histogram[..], pixels + row)
  {
    assert pixels + row[..0] == pixels;
    for x := 0 to |row|
      invariant Counts(histogram[..], pixels + row[..x])
    {
      CountOne(pixels, row, x);
      histogram[row[x]] := histogram[row[x]] + 1;
    }
    assert row[..|row|] == row;
  }

  /** Count every sample of the page, unless a scanline has the wrong width. */
  method Histogram(rows: seq<seq<Sample>>, width: int) returns (histogram: array<int>, ok: bool)
    ensures fresh(histogram)
    ensures ok <==> forall y :: 0 <= y < |rows| ==> |rows[y]| == width
    ensures ok ==> Counts(histogram[..], Flat(rows))
  {
    histogram := new int[256](_ => 0);
    for y := 0 to |rows|
      invariant forall i :: 0 <= i < y ==> |rows[i]| == width
      invariant Counts(histogram[..], Flat(rows[..y]))
    {
      if |rows[y]| != width { return histogram, false; }
      assert rows[..y + 1][..y] == rows[..y];
      CountRow(histogram, rows[y], Flat(rows[..y]));
    }
    assert rows[..|rows|] == rows;
    ok := true;
  }

  /** `max` over a range, by count: the first of the greatest. */
  method Greatest(histogram: seq<int>, low: int, high: int, ghost pixels: seq<Sample>) returns (m: int)
    requires Counts(histogram, pixels) && 0 <= low < high <= 256
    ensures m == Mode(pixels, low, high)
  {
    m := low;
    for v := low + 1 to high
      invariant IsMode(pixels, low, v, m)
    {
      if histogram[v] > histogram[m] { m := v; }
    }
    ModeIsUnique(pixels, low, high, m);
  }

  method SumUpTo(histogram: seq<int>, level: int, ghost pixels: seq<Sample>) returns (n: int)
    requires Counts(histogram, pixels) && 0 <= level < 256
    ensures n == AtOrBelow(pixels, level)
  {
    n := 0;
    Ends(pixels);
    for v := 0 to level + 1
      invariant n == AtOrBelow(pixels, v - 1)
    {
      LevelUp(pixels, v);
      n := n + histogram[v];
    }
  }

  method WeightedSum(histogram: seq<int>, ghost pixels: seq<Sample>) returns (total: int)
    requires Counts(histogram, pixels)
    ensures total == Sum(pixels)
  {
    total := 0;
    Ends(pixels);
    for v := 0 to 256
      invariant total == SumBelow(pixels, v)
    {
      SumUp(pixels, v);
      total := total + v * histogram[v];
    }
  }

  // --- the arithmetic of one page -------------------------------------------------------------------

  function InkThreshold(background: int, margin: int): (r: Result<int>)
    ensures r.Given? <==> 0 <= background < 256 && 0 <= margin <= background
    ensures r.Given? ==> 0 <= r.value <= background
  {
    if !(0 <= background < 256) then Refused(BadSample)
    else if margin < 0 then Refused(NegativeMargin)
    else if background - margin < 0 then Refused(BelowEverySample)
    else Given(background - margin)
  }

  function DerivedInkMargin(paper: int, darkMode: int, inkMarginBp: int): Result<int> {
    if paper < darkMode then Refused(ModesSwapped)
    else Given(Max(PRIMARY_MARGIN, (paper - darkMode) * inkMarginBp / BASIS_POINTS))
  }

  function Mean(pixels: seq<Sample>): (mean: int)
    requires |pixels| > 0
    ensures 0 <= mean < 256
  {
    DivideMonotone(Sum(pixels), 255 * |pixels|, |pixels|);
    DivideMonotone(0, Sum(pixels), |pixels|);
    DivideIs(255 * |pixels|, |pixels|, 255);
    Sum(pixels) / |pixels|
  }

  /** The commonest value at or above the page's mean, and the commonest at or below it. */
  function Paper(pixels: seq<Sample>): (paper: int)
    requires |pixels| > 0
    ensures Mean(pixels) <= paper < 256
  {
    Mode(pixels, Mean(pixels), 256)
  }

  function DarkMode(pixels: seq<Sample>): (dark: int)
    requires |pixels| > 0
    ensures 0 <= dark <= Mean(pixels)
  {
    Mode(pixels, 0, Mean(pixels) + 1)
  }

  predicate IsWide(rows: seq<seq<Sample>>, bandX: int) {
    bandX >= 0 && forall y :: 0 <= y < |rows| ==> 2 * bandX <= |rows[y]|
  }

  function CutEnds(row: seq<Sample>, bandX: int): seq<Sample>
    requires 0 <= 2 * bandX <= |row|
  {
    row[bandX..|row| - bandX]
  }

  /** The samples of every scanline but its first and last `bandX`. */
  function Inner(rows: seq<seq<Sample>>, bandX: int): seq<Sample>
    requires IsWide(rows, bandX)
  {
    if |rows| == 0 then [] else Inner(rows[..|rows| - 1], bandX) + CutEnds(rows[|rows| - 1], bandX)
  }

  predicate HasInterior(policy: Policy, width: int, height: int) {
    policy.bandX > 0 && policy.bandY > 0 && 2 * policy.bandX < width && 2 * policy.bandY < height
  }

  /** The samples inside the border band. */
  function Interior(rows: seq<seq<Sample>>, width: int, height: int, policy: Policy): seq<Sample>
    requires IsPage(rows, width, height) && HasInterior(policy, width, height)
  {
    Inner(rows[policy.bandY..height - policy.bandY], policy.bandX)
  }

  /** A count in basis points of another, rounded down. */
  function Share(part: int, whole: int): int
    requires whole > 0
  {
    part * BASIS_POINTS / whole
  }

  // --- the dark distribution ------------------------------------------------------------------------

  /** Cutting both ends of one scanline loses at most what the ends hold. */
  lemma {:induction false} CutKeeps(row: seq<Sample>, bandX: int, level: int)
    requires 0 <= 2 * bandX <= |row|
    ensures 0 <= AtOrBelow(row, level) - AtOrBelow(CutEnds(row, bandX), level) <= |row| - |CutEnds(row, bandX)|
  {
    var left, right := row[..bandX], row[|row| - bandX..];
    ThreeParts(row, bandX, |row| - bandX);
    CountJoins(CutEnds(row, bandX), right, level);
    CountJoins(left, CutEnds(row, bandX) + right, level);
  }

  lemma {:induction false} InnerKeeps(rows: seq<seq<Sample>>, bandX: int, level: int)
    requires IsWide(rows, bandX)
    ensures 0 <= AtOrBelow(Flat(rows), level) - AtOrBelow(Inner(rows, bandX),
              level) <= |Flat(rows)| - |Inner(rows, bandX)|
  {
    if |rows| > 0 {
      var n := |rows| - 1;
      var whole, inner, cut := Flat(rows[..n]), Inner(rows[..n], bandX), CutEnds(rows[n], bandX);
      InnerKeeps(rows[..n], bandX, level);
      CutKeeps(rows[n], bandX, level);
      CountJoins(whole, rows[n], level);
      CountJoins(inner, cut, level);
    }
  }

  lemma {:induction false} InnerLength(rows: seq<seq<Sample>>, bandX: int, width: int)
    requires IsWide(rows, bandX) && forall y :: 0 <= y < |rows| ==> |rows[y]| == width
    ensures |Inner(rows, bandX)| == (width - 2 * bandX) * |rows|
  {
    if |rows| > 0 {
      InnerLength(rows[..|rows| - 1], bandX, width);
      assert (width - 2 * bandX) * (|rows| - 1) + (width - 2 * bandX) == (width - 2 * bandX) * |rows|;
    }
  }

  lemma ThreeParts<T>(s: seq<T>, b: nat, c: nat)
    requires b <= c <= |s|
    ensures s == s[..b] + (s[b..c] + s[c..])
  {
  }

  lemma SplitRows(top: seq<seq<Sample>>, middle: seq<seq<Sample>>, bottom: seq<seq<Sample>>)
    ensures Flat(top + (middle + bottom)) == Flat(top) + (Flat(middle) + Flat(bottom))
  {
    FlatJoins(middle, bottom);
    FlatJoins(top, middle + bottom);
  }

  /** The interior is part of the page and leaves a border. */
  lemma {:induction false} InteriorLength(rows: seq<seq<Sample>>, width: int, height: int, policy: Policy)
    requires IsPage(rows, width, height) && HasInterior(policy, width, height)
    ensures |Interior(rows, width, height, policy)| == (width - 2 * policy.bandX) * (height - 2 * policy.bandY)
    ensures 0 < |Interior(rows, width, height, policy)| < |Flat(rows)| == width * height
  {
    var middle := rows[policy.bandY..height - policy.bandY];
    FlatLength(rows, width);
    InnerLength(middle, policy.bandX, width);
    AreaSplits(width, height, policy.bandX, policy.bandY);
  }

  lemma AreaSplits(width: int, height: int, bandX: int, bandY: int)
    requires 0 < bandX && 0 < bandY && 2 * bandX < width && 2 * bandY < height
    ensures width * height - (width - 2 * bandX) * (height - 2 * bandY)
              == 2 * bandX * (height - 2 * bandY) + 2 * (bandY * width)
    ensures 0 < (width - 2 * bandX) * (height - 2 * bandY) < width * height
  {
    assert bandX * (height - 2 * bandY) > 0 && bandY * width > 0;
  }

  /** A page of three parts, of which the middle one loses no more dark samples than samples. */
  lemma {:induction false} PartsFit(
      top: seq<Sample>, middle: seq<Sample>, bottom: seq<Sample>, inner: seq<Sample>, level: int)
    requires 0 <= AtOrBelow(middle, level) - AtOrBelow(inner, level) <= |middle| - |inner|
    ensures 0 <= AtOrBelow(top + (middle + bottom), level) - AtOrBelow(inner,
              level) <= |top + (middle + bottom)| - |inner|
  {
    CountJoins(middle, bottom, level);
    CountJoins(top, middle + bottom, level);
  }

  /** What is dark outside the interior is not less than nothing and not more than the border. */
  lemma {:induction false} BorderFits(rows: seq<seq<Sample>>, width: int, height: int, policy: Policy, level: int)
    requires IsPage(rows, width, height) && HasInterior(policy, width, height)
    ensures 0 <= AtOrBelow(Flat(rows), level) - AtOrBelow(Interior(rows, width, height, policy), level)
              <= |Flat(rows)| - |Interior(rows, width, height, policy)|
  {
    var b := policy.bandY;
    var top, middle, bottom := rows[..b], rows[b..height - b], rows[height - b..];
    ThreeParts(rows, b, height - b);
    SplitRows(top, middle, bottom);
    InnerKeeps(middle, policy.bandX, level);
    assert Interior(rows, width, height, policy) == Inner(middle, policy.bandX);
    PartsFit(Flat(top), Flat(middle), Flat(bottom), Inner(middle, policy.bandX), level);
  }

  /** What the interior branch publishes from its two counts. */
  function Distribution(
      policy: Policy, darkMode: int, level: int, dark: int, inside: int, area: int, border: int)
    : Option<DarkDistribution>
    requires area > 0 && border > 0
  {
    if Share(inside, area) > policy.maxInteriorDarkBp then None
    else Some(DarkDistribution(policy.bandX, policy.bandY, darkMode, level, dark, dark - inside,
           Share(dark - inside, border), Share(inside, area)))
  }

  /** What the interior branch measures, unless there is no interior or it is itself dark. */
  function DarkOf(
      rows: seq<seq<Sample>>, width: int, height: int, policy: Policy, darkMode: int, level: int)
    : Option<DarkDistribution>
    requires IsPage(rows, width, height)
  {
    if !HasInterior(policy, width, height) then None
    else
      var interior := Interior(rows, width, height, policy);
      InteriorLength(rows, width, height, policy);
      Distribution(policy, darkMode, level, AtOrBelow(Flat(rows), level), AtOrBelow(interior, level),
        |interior|, |Flat(rows)| - |interior|)
  }

  lemma InnerOneMore(rows: seq<seq<Sample>>, bandX: int, low: nat, y: nat, level: int)
    requires low <= y < |rows| && IsWide(rows, bandX)
    ensures AtOrBelow(Inner(rows[low..y + 1], bandX), level)
              == AtOrBelow(Inner(rows[low..y], bandX), level) + AtOrBelow(CutEnds(rows[y], bandX), level)
  {
    assert rows[low..y + 1][..y - low] == rows[low..y];
    CountJoins(Inner(rows[low..y], bandX), CutEnds(rows[y], bandX), level);
  }

  method CountInterior(rows: seq<seq<Sample>>, width: int, height: int, policy: Policy, level: int)
    returns (inside: int)
    requires IsPage(rows, width, height) && HasInterior(policy, width, height)
    ensures inside == AtOrBelow(Interior(rows, width, height, policy), level)
  {
    var bandX, bandY := policy.bandX, policy.bandY;
    inside := 0;
    for y := bandY to height - bandY
      invariant inside == AtOrBelow(Inner(rows[bandY..y], bandX), level)
    {
      InnerOneMore(rows, bandX, bandY, y, level);
      inside := inside + AtOrBelow(CutEnds(rows[y], bandX), level);
    }
  }

  method MeasureDark(
      rows: seq<seq<Sample>>, width: int, height: int, policy: Policy, darkMode: int, level: int, dark: int)
    returns (distribution: Option<DarkDistribution>)
    requires IsPage(rows, width, height) && dark == AtOrBelow(Flat(rows), level)
    ensures distribution == DarkOf(rows, width, height, policy, darkMode, level)
  {
    if !HasInterior(policy, width, height) { return None; }
    var inside := CountInterior(rows, width, height, policy, level);
    InteriorLength(rows, width, height, policy);
    var area := (width - 2 * policy.bandX) * (height - 2 * policy.bandY);
    distribution := Distribution(policy, darkMode, level, dark, inside, area, width * height - area);
  }

  // --- the inference --------------------------------------------------------------------------------

  /** The share of the page at or below a level, in basis points. */
  function InkShare(pixels: seq<Sample>, level: int): int
    requires |pixels| > 0
  {
    Share(AtOrBelow(pixels, level), |pixels|)
  }

  /** Whichever branch found the value: refused when too much of the page is ink by it. */
  function Settle(evidence: Evidence, pixels: seq<Sample>, policy: Policy): Result<Evidence>
    requires |pixels| > 0
  {
    match InkThreshold(evidence.background, PRIMARY_MARGIN)
    case Refused(why) => Refused(why)
    case Given(threshold) =>
      if InkShare(pixels, threshold) > policy.maxInkBp then Refused(TooMuchInk)
      else Given(evidence)
  }

  /** The level below which the interior branch calls a sample dark. */
  function DarkLevel(pixels: seq<Sample>, margin: int): int
    requires |pixels| > 0
  {
    Min((DarkMode(pixels) + Paper(pixels)) / 2, Max(0, Paper(pixels) - margin))
  }

  lemma PageHasPixels(rows: seq<seq<Sample>>, width: int, height: int)
    requires IsPage(rows, width, height)
    ensures |Flat(rows)| == width * height > 0
  {
    FlatLength(rows, width);
  }

  /** The margin the page's own two modes give: they are never swapped. */
  function Margin(pixels: seq<Sample>, policy: Policy): int
    requires |pixels| > 0
  {
    DerivedInkMargin(Paper(pixels), DarkMode(pixels), policy.inkMarginBp).value
  }

  /** The branch for a page whose commonest value is darker than its mean. */
  function InteriorVerdict(rows: seq<seq<Sample>>, width: int, height: int, policy: Policy): Result<Evidence>
    requires IsPage(rows, width, height) && |Flat(rows)| > 0
  {
    var pixels := Flat(rows);
    var margin := Margin(pixels, policy);
    var distribution := DarkOf(rows, width, height, policy, DarkMode(pixels), DarkLevel(pixels, margin));
    if distribution.Some? && Paper(pixels) >= PRIMARY_MARGIN then
      Settle(Evidence(Paper(pixels), InteriorMode, distribution, DarkMode(pixels), margin), pixels, policy)
    else Refused(MajorityInk)
  }

  /** The branch for a page whose commonest value is taken as paper. */
  function ModalVerdict(pixels: seq<Sample>, policy: Policy): Result<Evidence>
    requires |pixels| > 0
  {
    var background := Mode(pixels, 0, 256);
    if background < PRIMARY_MARGIN then Refused(DarkerThanMargin)
    else Settle(Evidence(background, Modal, None, DarkMode(pixels), Margin(pixels, policy)), pixels, policy)
  }

  /** Whether the commonest value is darker than the page's mean. */
  predicate IsMajorityInk(pixels: seq<Sample>) {
    Mode(pixels, 0, 256) * |pixels| < Sum(pixels)
  }

  /** The inference, in terms of the page's pixels. */
  function Verdict(rows: seq<seq<Sample>>, width: int, height: int, policy: Policy): Result<Evidence> {
    if width <= 0 || height <= 0 then Refused(NoPixels)
    else if !IsPage(rows, width, height) then Refused(WrongShape)
    else
      PageHasPixels(rows, width, height);
      if IsMajorityInk(Flat(rows))
      then InteriorVerdict(rows, width, height, policy)
      else ModalVerdict(Flat(rows), policy)
  }

  method SettleEvidence(
      evidence: Evidence, histogram: seq<int>, counted: int, policy: Policy, ghost pixels: seq<Sample>)
    returns (r: Result<Evidence>)
    requires Counts(histogram, pixels) && |pixels| == counted > 0
    ensures r == Settle(evidence, pixels, policy)
  {
    var threshold := InkThreshold(evidence.background, PRIMARY_MARGIN);
    if threshold.Refused? { return Refused(threshold.why); }
    var ink := SumUpTo(histogram, threshold.value, pixels);
    r := if Share(ink, counted) > policy.maxInkBp then Refused(TooMuchInk) else Given(evidence);
  }

  method InferBackground(rows: seq<seq<Sample>>, width: int, height: int, policy: Policy) returns (r: Result<Evidence>)
    ensures r == Verdict(rows, width, height, policy)
  {
    if width <= 0 || height <= 0 { return Refused(NoPixels); }
    if |rows| != height { return Refused(WrongShape); }
    var table, ok := Histogram(rows, width);
    if !ok { return Refused(WrongShape); }
    PageHasPixels(rows, width, height);
    r := InferFrom(rows, width, height, policy, table[..], width * height);
  }

  /** The inference once the samples are counted. */
  method InferFrom(
      rows: seq<seq<Sample>>, width: int, height: int, policy: Policy, histogram: seq<int>, counted: int)
    returns (r: Result<Evidence>)
    requires IsPage(rows, width, height) && Counts(histogram, Flat(rows)) && counted == |Flat(rows)| > 0
    ensures r == Verdict(rows, width, height, policy)
  {
    ghost var pixels := Flat(rows);
    var background := Greatest(histogram, 0, 256, pixels);
    var total := WeightedSum(histogram, pixels);
    var mean := total / counted;
    assert mean == Mean(pixels);
    var paper := Greatest(histogram, mean, 256, pixels);
    var darkMode := Greatest(histogram, 0, mean + 1, pixels);
    var margin := DerivedInkMargin(paper, darkMode, policy.inkMarginBp).value;
    if background * counted < total {
      r := InteriorBranch(rows, width, height, policy, histogram, paper, darkMode, margin);
    } else if background < PRIMARY_MARGIN {
      r := Refused(DarkerThanMargin);
    } else {
      r := SettleEvidence(Evidence(background, Modal, None, darkMode, margin), histogram, counted, policy, pixels);
    }
  }

  method InteriorBranch(
      rows: seq<seq<Sample>>, width: int, height: int, policy: Policy, histogram: seq<int>, paper: int,
      darkMode: int, margin: int)
    returns (r: Result<Evidence>)
    requires IsPage(rows, width, height) && Counts(histogram, Flat(rows)) && |Flat(rows)| > 0
    requires paper == Paper(Flat(rows)) && darkMode == DarkMode(Flat(rows)) && margin == Margin(Flat(rows), policy)
    ensures r == InteriorVerdict(rows, width, height, policy)
  {
    ghost var pixels := Flat(rows);
    var level := Min((darkMode + paper) / 2, Max(0, paper - margin));
    var dark := SumUpTo(histogram, level, pixels);
    var distribution := MeasureDark(rows, width, height, policy, darkMode, level, dark);
    assert level == DarkLevel(pixels, margin);
    if distribution.None? || paper < PRIMARY_MARGIN { return Refused(MajorityInk); }
    PageHasPixels(rows, width, height);
    r := SettleEvidence(Evidence(paper, InteriorMode, distribution, darkMode, margin), histogram,
           width * height, policy, pixels);
  }

  // --- what every page's evidence promises ----------------------------------------------------------

  /** The commonest value, where it is no darker than the mean, is the paper mode. */
  lemma {:induction false} ModalIsPaper(pixels: seq<Sample>)
    requires |pixels| > 0 && !IsMajorityInk(pixels)
    ensures Mode(pixels, 0, 256) == Paper(pixels)
  {
    var m := Mode(pixels, 0, 256);
    DivideMonotone(Sum(pixels), m * |pixels|, |pixels|);
    DivideIs(m * |pixels|, |pixels|, m);
    ModeIs(pixels, 0, 256);
    ModeIsUnique(pixels, Mean(pixels), 256, m);
  }

  /** A margin of at most the whole distance between the modes never passes the darker one. */
  lemma {:induction false} MarginStaysWithin(paper: int, darkMode: int, bp: int)
    requires 0 <= darkMode <= paper && PRIMARY_MARGIN <= paper && bp <= BASIS_POINTS
    ensures var margin := DerivedInkMargin(paper, darkMode, bp);
            margin.Given? && PRIMARY_MARGIN <= margin.value <= paper
            && (margin.value > PRIMARY_MARGIN ==> margin.value <= paper - darkMode)
  {
    MultiplyMonotone(bp, BASIS_POINTS, paper - darkMode);
    DivideMonotone((paper - darkMode) * bp, (paper - darkMode) * BASIS_POINTS, BASIS_POINTS);
  }

  /** Evidence that names the page's paper mode, at a margin derived from the page's own two
      modes, with an admitted share of the page at or below the floor. */
  predicate OfThePage(e: Evidence, pixels: seq<Sample>, policy: Policy) {
    && |pixels| > 0
    && e.background == Paper(pixels) >= PRIMARY_MARGIN && e.darkMode == DarkMode(pixels)
    && DerivedInkMargin(e.background, e.darkMode, policy.inkMarginBp) == Given(e.inkMargin)
    && (e.branch == Modal <==> !IsMajorityInk(pixels))
    && (e.branch == Modal ==> e.background == Mode(pixels, 0, 256))
    && InkShare(pixels, e.background - PRIMARY_MARGIN) <= policy.maxInkBp
  }

  /** So is all evidence given, on either branch. */
  lemma {:induction false} EvidenceIsOfThePage(rows: seq<seq<Sample>>, width: int, height: int, policy: Policy)
    requires Verdict(rows, width, height, policy).Given?
    ensures IsPage(rows, width, height) && |Flat(rows)| == width * height > 0
    ensures OfThePage(Verdict(rows, width, height, policy).value, Flat(rows), policy)
  {
    PageHasPixels(rows, width, height);
    if IsMajorityInk(Flat(rows)) {
      InteriorIsOfThePage(rows, width, height, policy);
    } else {
      ModalIsOfThePage(Flat(rows), policy);
    }
  }

  lemma ModalIsOfThePage(pixels: seq<Sample>, policy: Policy)
    requires |pixels| > 0 && !IsMajorityInk(pixels) && ModalVerdict(pixels, policy).Given?
    ensures OfThePage(ModalVerdict(pixels, policy).value, pixels, policy)
  {
    ModalIsPaper(pixels);
  }

  lemma InteriorIsOfThePage(rows: seq<seq<Sample>>, width: int, height: int, policy: Policy)
    requires IsPage(rows, width, height) && |Flat(rows)| > 0 && IsMajorityInk(Flat(rows))
    requires InteriorVerdict(rows, width, height, policy).Given?
    ensures OfThePage(InteriorVerdict(rows, width, height, policy).value, Flat(rows), policy)
  {
  }

  lemma {:induction false} ThresholdOf(e: Evidence, pixels: seq<Sample>, policy: Policy)
    requires policy.inkMarginBp <= BASIS_POINTS && OfThePage(e, pixels, policy)
    ensures InkThreshold(e.background, e.inkMargin) == Given(e.background - e.inkMargin)
    ensures 0 <= e.background - e.inkMargin <= e.background - PRIMARY_MARGIN
    ensures InkShare(pixels, e.background - e.inkMargin) <= policy.maxInkBp
  {
    MarginStaysWithin(e.background, e.darkMode, policy.inkMarginBp);
    LevelsRise(pixels, e.background - e.inkMargin, e.background - PRIMARY_MARGIN);
    ShareRises(AtOrBelow(pixels, e.background - e.inkMargin), AtOrBelow(pixels, e.background - PRIMARY_MARGIN),
      |pixels|);
  }

  /** The threshold a page's ink is taken at is a sample, no higher than the floor under it, and
      leaves no more than the admitted share of the page as ink. */
  lemma {:induction false} ThresholdIsASample(rows: seq<seq<Sample>>, width: int, height: int, policy: Policy)
    requires policy.inkMarginBp <= BASIS_POINTS && Verdict(rows, width, height, policy).Given?
    ensures var e := Verdict(rows, width, height, policy).value;
            var threshold := InkThreshold(e.background, e.inkMargin);
            && threshold.Given? && 0 <= threshold.value <= e.background - PRIMARY_MARGIN
            && |Flat(rows)| > 0 && InkShare(Flat(rows), threshold.value) <= policy.maxInkBp
  {
    EvidenceIsOfThePage(rows, width, height, policy);
    ThresholdOf(Verdict(rows, width, height, policy).value, Flat(rows), policy);
  }

  /** The midpoint of the page's two modes. */
  function Midpoint(pixels: seq<Sample>): int
    requires |pixels| > 0
  {
    (DarkMode(pixels) + Paper(pixels)) / 2
  }

  /** What the loader's bound on the fraction buys: a margin of at most half the distance between
      the modes, so the interior is measured at the midpoint itself, and not at the lower ink
      threshold, exactly when the modes are at least 39 levels apart. */
  lemma {:induction false} MeasuredAtTheMidpoint(pixels: seq<Sample>, policy: Policy)
    requires |pixels| > 0 && policy.inkMarginBp <= BASIS_POINTS / 2 && Paper(pixels) >= PRIMARY_MARGIN
    ensures DarkLevel(pixels, Margin(pixels, policy)) == Midpoint(pixels) <==> Paper(pixels) - DarkMode(pixels) >= 39
    ensures Margin(pixels, policy) > PRIMARY_MARGIN ==>
              DarkLevel(pixels, Margin(pixels, policy)) == Midpoint(pixels)
  {
    HalfAtMost(Paper(pixels) - DarkMode(pixels), policy.inkMarginBp);
    MarginStaysWithin(Paper(pixels), DarkMode(pixels), policy.inkMarginBp);
  }

  lemma HalfAtMost(distance: int, bp: int)
    requires distance >= 0 && bp <= BASIS_POINTS / 2
    ensures 2 * (distance * bp / BASIS_POINTS) <= distance
  {
    MultiplyMonotone(bp, BASIS_POINTS / 2, distance);
    DivideMonotone(distance * bp, distance * (BASIS_POINTS / 2), BASIS_POINTS);
  }

  /** Past half the distance the threshold, not the midpoint, is the level measured at, where the
      margin reaches below the midpoint; the level never passes the threshold either way. */
  lemma {:induction false} MeasuredAtTheThreshold(pixels: seq<Sample>, policy: Policy)
    requires |pixels| > 0 && policy.inkMarginBp <= BASIS_POINTS && Paper(pixels) >= PRIMARY_MARGIN
    ensures 0 <= DarkLevel(pixels, Margin(pixels, policy)) <= Paper(pixels) - Margin(pixels, policy)
    ensures Paper(pixels) - Margin(pixels, policy) < Midpoint(pixels) ==>
              DarkLevel(pixels, Margin(pixels, policy)) == Paper(pixels) - Margin(pixels, policy)
  {
    MarginStaysWithin(Paper(pixels), DarkMode(pixels), policy.inkMarginBp);
  }

  /** What the interior branch publishes adds up, fits the page, and is all counted ink. */
  predicate AddsUp(e: Evidence, d: DarkDistribution, pixels: seq<Sample>, interior: seq<Sample>, policy: Policy) {
    var inside := AtOrBelow(interior, d.level);
    && d.borderDark + inside == d.dark == AtOrBelow(pixels, d.level)
    && 0 <= inside <= |interior| && 0 <= d.borderDark <= |pixels| - |interior|
    && 0 <= d.level <= e.background - e.inkMargin && d.dark <= AtOrBelow(pixels, e.background - e.inkMargin)
    && 0 <= d.borderDarkBp <= BASIS_POINTS && 0 <= d.interiorDarkBp <= BASIS_POINTS
    && d.interiorDarkBp <= policy.maxInteriorDarkBp && d.darkMode == e.darkMode
    && |pixels| > 0 && d.level == DarkLevel(pixels, e.inkMargin)
  }

  lemma {:induction false} DistributionAddsUp(
      e: Evidence, pixels: seq<Sample>, interior: seq<Sample>, policy: Policy, level: int)
    requires 0 < |interior| < |pixels| && OfThePage(e, pixels, policy) && policy.inkMarginBp <= BASIS_POINTS
    requires level == DarkLevel(pixels, e.inkMargin)
    requires 0 <= AtOrBelow(pixels, level) - AtOrBelow(interior, level) <= |pixels| - |interior|
    requires e.distribution == Distribution(policy, e.darkMode, level, AtOrBelow(pixels, level),
               AtOrBelow(interior, level), |interior|, |pixels| - |interior|)
    requires e.distribution.Some?
    ensures AddsUp(e, e.distribution.value, pixels, interior, policy)
  {
    MarginOf(e, pixels, policy);
    LevelWithin(e, pixels, level);
    LevelsRise(pixels, level, e.background - e.inkMargin);
    SharesOf(AtOrBelow(interior, level), |interior|, AtOrBelow(pixels, level) - AtOrBelow(interior, level),
      |pixels| - |interior|);
  }

  lemma MarginOf(e: Evidence, pixels: seq<Sample>, policy: Policy)
    requires policy.inkMarginBp <= BASIS_POINTS && OfThePage(e, pixels, policy)
    ensures PRIMARY_MARGIN <= e.inkMargin <= e.background
  {
    MarginStaysWithin(e.background, e.darkMode, policy.inkMarginBp);
  }

  lemma SharesOf(inside: int, area: int, outside: int, border: int)
    requires 0 <= inside <= area && area > 0 && 0 <= outside <= border && border > 0
    ensures 0 <= Share(inside, area) <= BASIS_POINTS && 0 <= Share(outside, border) <= BASIS_POINTS
  {
    ShareOf(inside, area);
    ShareOf(outside, border);
  }

  /** The level never passes the threshold. */
  lemma LevelWithin(e: Evidence, pixels: seq<Sample>, level: int)
    requires |pixels| > 0 && level == DarkLevel(pixels, e.inkMargin) && e.background == Paper(pixels)
    requires e.inkMargin <= e.background
    ensures 0 <= level <= e.background - e.inkMargin
  {
  }

  lemma {:induction false} DarkDistributionAddsUp(rows: seq<seq<Sample>>, width: int, height: int, policy: Policy)
    requires policy.inkMarginBp <= BASIS_POINTS && Verdict(rows, width, height, policy).Given?
    requires Verdict(rows, width, height, policy).value.branch == InteriorMode
    ensures var e := Verdict(rows, width, height, policy).value;
            && e.distribution.Some? && IsPage(rows, width, height) && HasInterior(policy, width, height)
            && AddsUp(e, e.distribution.value, Flat(rows), Interior(rows, width, height, policy), policy)
  {
    EvidenceIsOfThePage(rows, width, height, policy);
    var e := Verdict(rows, width, height, policy).value;
    var level := DarkLevel(Flat(rows), e.inkMargin);
    assert e.distribution == DarkOf(rows, width, height, policy, e.darkMode, level) && e.distribution.Some?;
    BorderFits(rows, width, height, policy, level);
    InteriorLength(rows, width, height, policy);
    DistributionAddsUp(e, Flat(rows), Interior(rows, width, height, policy), policy, level);
  }

  /** Under the loader's bound the published dark counts are taken at the midpoint of the page's two
      modes exactly when those are at least 39 levels apart. */
  lemma {:induction false} EvidenceIsMeasuredAtTheMidpoint(
      rows: seq<seq<Sample>>, width: int, height: int, policy: Policy)
    requires policy.inkMarginBp <= BASIS_POINTS / 2 && Verdict(rows, width, height, policy).Given?
    requires Verdict(rows, width, height, policy).value.branch == InteriorMode
    ensures var e := Verdict(rows, width, height, policy).value;
            && e.distribution.Some?
            && (e.distribution.value.level == (e.darkMode + e.background) / 2 <==> e.background - e.darkMode >= 39)
  {
    EvidenceIsOfThePage(rows, width, height, policy);
    DarkDistributionAddsUp(rows, width, height, policy);
    MeasuredAtTheMidpoint(Flat(rows), policy);
  }

  lemma ShareRises(part: int, more: int, whole: int)
    requires part <= more && whole > 0
    ensures Share(part, whole) <= Share(more, whole)
  {
    DivideMonotone(part * BASIS_POINTS, more * BASIS_POINTS, whole);
  }

  lemma ShareOf(part: int, whole: int)
    requires 0 <= part <= whole && whole > 0
    ensures 0 <= Share(part, whole) <= BASIS_POINTS
  {
    DivideMonotone(part * BASIS_POINTS, whole * BASIS_POINTS, whole);
    DivideIs(whole * BASIS_POINTS, whole, BASIS_POINTS);
    DivideMonotone(0, part * BASIS_POINTS, whole);
  }
}
