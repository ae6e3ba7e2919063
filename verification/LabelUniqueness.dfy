/** A page's labelling is determined by its pixels: not by run order, not by the unions' order. */
module LabelUniqueness {
  import opened Pixels
  import opened InkGraph
  import opened Labelling

  lemma {:induction false} TightIsUnique(a: Bounds, b: Bounds, pixels: set<Pixel>)
    requires IsTight(a, pixels) && IsTight(b, pixels)
    ensures a == b
  {
  }

  /** Components with the same pixels are described and ordered alike. */
  lemma {:induction false} SamePixelsSameKey(a: Labelled, b: Labelled)
    requires IsComponent(a) && IsComponent(b) && Cover(a.runs) == Cover(b.runs)
    ensures a.component == b.component && OrderKey(a) == OrderKey(b)
  {
    TightIsUnique(a.component.bounds, b.component.bounds, Cover(a.runs));
    FirstPixelInside(a);
    FirstPixelInside(b);
    FirstIsLeast(a, FirstPixel(b.runs));
    FirstIsLeast(b, FirstPixel(a.runs));
  }

  ghost predicate Matches(a: seq<Labelled>, k: int, b: seq<Labelled>, j: int) {
    0 <= k < |a| && 0 <= j < |b| && Cover(a[k].runs) == Cover(b[j].runs)
  }

  /** Every component of one labelling is a component of the other. */
  lemma {:induction false} MatchExists(a: seq<Labelled>, b: seq<Labelled>, ink: set<Pixel>, radius: int, k: nat)
    returns (j: nat)
    requires IsPartition(a, ink, radius) && IsPartition(b, ink, radius) && k < |a|
    ensures Matches(a, k, b, j)
  {
    FirstPixelInside(a[k]);
    var p := FirstPixel(a[k].runs);
    j := Holder(a, b, ink, radius, k, p);
    SameClass(a, b, ink, radius, k, j, p);
    SameClass(b, a, ink, radius, j, k, p);
  }

  /** The component of the other labelling that has the pixel. */
  lemma {:induction false} Holder(
      a: seq<Labelled>, b: seq<Labelled>, ink: set<Pixel>, radius: int, k: nat, p: Pixel) returns (j: nat)
    requires IsPartition(a, ink, radius) && IsPartition(b, ink, radius) && Contains(a, k, p)
    ensures Contains(b, j, p)
  {
    assert p in ink;
    j :| Contains(b, j, p);
  }

  lemma {:induction false} SameClass(
      a: seq<Labelled>, b: seq<Labelled>, ink: set<Pixel>, radius: int, k: nat, j: nat, p: Pixel)
    requires IsPartition(a, ink, radius) && IsPartition(b, ink, radius)
    requires Contains(a, k, p) && Contains(b, j, p)
    ensures Cover(a[k].runs) <= Cover(b[j].runs)
  {
    forall q | q in Cover(a[k].runs)
      ensures q in Cover(b[j].runs)
    {
      assert Contains(a, k, q);
      var i :| Contains(b, i, q);
    }
  }

  lemma {:induction false} OneMatch(
      a: seq<Labelled>, b: seq<Labelled>, ink: set<Pixel>, radius: int, k: nat, i: nat, j: nat)
    requires IsPartition(a, ink, radius) && radius >= 0 && Matches(a, k, b, j) && Matches(a, i, b, j)
    ensures k == i
  {
    FirstPixelInside(a[k]);
    var p := FirstPixel(a[k].runs);
    assert Contains(a, k, p) && Contains(a, i, p);
    LinkedStep(ink, radius, p, p);
  }

  lemma Later(a: seq<Labelled>, i: nat, b: seq<Labelled>, j: nat, k: nat)
    requires IsOrdered(a) && k <= i < |a| && IsOrdered(b) && k < j < |b|
    ensures KeyLeq(OrderKey(a[k]), OrderKey(a[i]))
    ensures KeyLeq(OrderKey(b[k]), OrderKey(b[j])) && OrderKey(b[k]) != OrderKey(b[j])
  {
    assert k < i ==> OrderLeq(a[k], a[i]);
    assert OrderLeq(b[k], b[j]);
  }

  lemma {:induction false} PrefixMatches(a: seq<Labelled>, b: seq<Labelled>, ink: set<Pixel>, radius: int, k: nat)
    requires IsPartition(a, ink, radius) && IsOrdered(a) && IsPartition(b, ink, radius) && IsOrdered(b)
    requires radius >= 0 && k < |a|
    ensures k < |b| && Matches(a, k, b, k)
    decreases k
  {
    var j := MatchExists(a, b, ink, radius, k);
    SamePixelsSameKey(a[k], b[j]);
    if j < k {
      PrefixMatches(a, b, ink, radius, j);
      OneMatch(a, b, ink, radius, k, j, j);
    } else if k < j {
      var i := MatchExists(b, a, ink, radius, k);
      SamePixelsSameKey(b[k], a[i]);
      if i < k {
        PrefixMatches(a, b, ink, radius, i);
        OneMatch(b, a, ink, radius, k, i, i);
      } else {
        Later(a, i, b, j, k);
      }
    }
  }

  /** Any two ordered labellings of one ink set list the same components in the same order. */
  lemma {:induction false} LabellingIsUnique(a: seq<Labelled>, b: seq<Labelled>, ink: set<Pixel>, radius: int)
    requires IsPartition(a, ink, radius) && IsOrdered(a) && IsPartition(b, ink, radius) && IsOrdered(b) && radius >= 0
    ensures |a| == |b|
    ensures forall k :: 0 <= k < |a| ==> a[k].component == b[k].component && Cover(a[k].runs) == Cover(b[k].runs)
  {
    if |a| > 0 { PrefixMatches(a, b, ink, radius, |a| - 1); }
    if |b| > 0 { PrefixMatches(b, a, ink, radius, |b| - 1); }
    forall k | 0 <= k < |a|
      ensures a[k].component == b[k].component && Cover(a[k].runs) == Cover(b[k].runs)
    {
      PrefixMatches(a, b, ink, radius, k);
      SamePixelsSameKey(a[k], b[k]);
    }
  }
}
