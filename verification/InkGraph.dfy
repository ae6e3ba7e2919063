/** Pixels linked by Chebyshev steps, and the run table that stands for them. */
module InkGraph {
  import opened Pixels
  import opened DisjointSets

  // --- links between pixels -----------------------------------------------------------

  predicate Step(p: Pixel, q: Pixel, radius: int) {
    -radius <= p.0 - q.0 <= radius && -radius <= p.1 - q.1 <= radius
  }

  ghost predicate IsChain(path: seq<Pixel>, ink: set<Pixel>, radius: int) {
    && |path| > 0
    && (forall k :: 0 <= k < |path| ==> path[k] in ink)
    && (forall k :: 0 <= k < |path| - 1 ==> Step(path[k], path[k + 1], radius))
  }

  /** A chain of ink pixels, each within `radius` of the next, joins `p` to `q`. */
  ghost predicate Linked(ink: set<Pixel>, radius: int, p: Pixel, q: Pixel) {
    exists path :: IsChain(path, ink, radius) && path[0] == p && path[|path| - 1] == q
  }

  lemma {:induction false} LinkedStep(ink: set<Pixel>, radius: int, p: Pixel, q: Pixel)
    requires p in ink && q in ink && Step(p, q, radius)
    ensures Linked(ink, radius, p, q)
  {
    var path := [p, q];
    assert IsChain(path, ink, radius);
  }

  lemma {:induction false} LinkedSymmetric(ink: set<Pixel>, radius: int, p: Pixel, q: Pixel)
    requires Linked(ink, radius, p, q)
    ensures Linked(ink, radius, q, p)
  {
    var path :| IsChain(path, ink, radius) && path[0] == p && path[|path| - 1] == q;
    var back := seq(|path|, k requires 0 <= k < |path| => path[|path| - 1 - k]);
    forall k | 0 <= k < |back| - 1
      ensures Step(back[k], back[k + 1], radius)
    {
      var j := |path| - 2 - k;
      assert Step(path[j], path[j + 1], radius);
    }
    assert IsChain(back, ink, radius);
  }

  lemma {:induction false} LinkedTransitive(ink: set<Pixel>, radius: int, p: Pixel, q: Pixel, r: Pixel)
    requires Linked(ink, radius, p, q) && Linked(ink, radius, q, r) && radius >= 0
    ensures Linked(ink, radius, p, r)
  {
    var a :| IsChain(a, ink, radius) && a[0] == p && a[|a| - 1] == q;
    var b :| IsChain(b, ink, radius) && b[0] == q && b[|b| - 1] == r;
    assert IsChain(a + b, ink, radius);
  }

  // --- runs -----------------------------------------------------------------------------

  /** One maximal stretch of ink on scanline `y`, half-open at `x1`. */
  datatype Run = Run(y: int, x0: int, x1: int) {
    predicate Holds(p: Pixel) {
      p.1 == y && x0 <= p.0 < x1
    }

    function Start(): Pixel {
      (x0, y)
    }
  }

  ghost function Cover(runs: seq<Run>): set<Pixel> {
    set k, x | 0 <= k < |runs| && x in Interval(runs[k].x0, runs[k].x1) :: (x, runs[k].y)
  }

  lemma {:induction false} InCover(runs: seq<Run>, p: Pixel)
    ensures p in Cover(runs) <==> exists k :: 0 <= k < |runs| && runs[k].Holds(p)
  {
    if k :| 0 <= k < |runs| && runs[k].Holds(p) {
      assert p.0 in Interval(runs[k].x0, runs[k].x1);
    }
  }

  predicate Precedes(a: Run, b: Run) {
    a.y < b.y || (a.y == b.y && a.x1 <= b.x0)
  }

  /** Runs in ascending order, none empty and none overlapping. */
  ghost predicate IsTable(t: seq<Run>) {
    && (forall i :: 0 <= i < |t| ==> t[i].x0 < t[i].x1)
    && (forall i, j {:trigger Precedes(t[i], t[j])} :: 0 <= i < j < |t| ==> Precedes(t[i], t[j]))
  }

  /** Two runs hold pixels within `radius` of one another. */
  predicate Near(a: Run, b: Run, radius: int) {
    && -radius <= a.y - b.y <= radius
    && a.x0 < b.x1 + radius && b.x0 < a.x1 + radius
  }

  lemma {:induction false} LinkedAlongRun(t: seq<Run>, i: nat, radius: int, x: int)
    requires i < |t| && radius >= 1 && t[i].x0 <= x < t[i].x1
    ensures Linked(Cover(t), radius, t[i].Start(), (x, t[i].y))
    decreases x - t[i].x0
  {
    InCover(t, (x, t[i].y));
    assert t[i].Holds((x, t[i].y));
    if x == t[i].x0 {
      LinkedStep(Cover(t), radius, t[i].Start(), (x, t[i].y));
    } else {
      LinkedAlongRun(t, i, radius, x - 1);
      var q := (x - 1, t[i].y);
      InCover(t, q);
      assert t[i].Holds(q);
      LinkedStep(Cover(t), radius, q, (x, t[i].y));
      LinkedTransitive(Cover(t), radius, t[i].Start(), q, (x, t[i].y));
    }
  }

  /** Near runs hold linked pixels, so their starts are linked. */
  lemma {:induction false} NearLinked(t: seq<Run>, i: nat, j: nat, radius: int)
    requires IsTable(t) && i < |t| && j < |t| && radius >= 1 && Near(t[i], t[j], radius)
    ensures Linked(Cover(t), radius, t[i].Start(), t[j].Start())
  {
    var a, b := t[i], t[j];
    var xa := if a.x1 <= b.x0 then a.x1 - 1 else if a.x0 < b.x0 then b.x0 else a.x0;
    var xb := if b.x1 <= a.x0 then b.x1 - 1 else if b.x0 < a.x0 then a.x0 else b.x0;
    var p, q := (xa, a.y), (xb, b.y);
    assert a.Holds(p) && b.Holds(q);
    InCover(t, p);
    InCover(t, q);
    LinkedAlongRun(t, i, radius, xa);
    LinkedAlongRun(t, j, radius, xb);
    LinkedStep(Cover(t), radius, p, q);
    LinkedSymmetric(Cover(t), radius, b.Start(), q);
    LinkedTransitive(Cover(t), radius, a.Start(), p, q);
    LinkedTransitive(Cover(t), radius, a.Start(), q, b.Start());
  }

  /** Pixels one step apart sit in near runs. */
  lemma {:induction false} StepNear(a: Run, b: Run, p: Pixel, q: Pixel, radius: int)
    requires a.Holds(p) && b.Holds(q) && Step(p, q, radius)
    ensures Near(a, b, radius)
  {
  }

  // --- what the representatives say about links --------------------------------------

  /** Runs `i` and `j` of the table are near. */
  predicate NearRuns(t: seq<Run>, i: int, j: int, radius: int) {
    0 <= i < |t| && 0 <= j < |t| && Near(t[i], t[j], radius)
  }

  /** Runs under one representative are linked. */
  ghost predicate Sound(rep: seq<nat>, t: seq<Run>, radius: int) {
    && |rep| == |t|
    && forall i, j :: Tied(rep, i, j) ==> Linked(Cover(t), radius, t[i].Start(), t[j].Start())
  }

  /** Near runs are under one representative. */
  ghost predicate Complete(rep: seq<nat>, t: seq<Run>, radius: int) {
    && |rep| == |t|
    && forall i, j :: NearRuns(t, i, j, radius) ==> Tied(rep, i, j)
  }

  lemma {:induction false} FreshSound(rep: seq<nat>, t: seq<Run>, radius: int)
    requires IsTable(t) && radius >= 1 && |rep| == |t| && forall i :: 0 <= i < |t| ==> rep[i] == i
    ensures Sound(rep, t, radius)
  {
    forall i, j | Tied(rep, i, j)
      ensures Linked(Cover(t), radius, t[i].Start(), t[j].Start())
    {
      LinkedAlongRun(t, i, radius, t[i].x0);
    }
  }

  /** Uniting two near runs keeps soundness. */
  lemma {:induction false} MergeSound(rep: seq<nat>, t: seq<Run>, radius: int, left: nat, right: nat)
    requires IsTable(t) && radius >= 1 && Sound(rep, t, radius)
    requires left < |t| && right < |t| && Near(t[left], t[right], radius)
    ensures Sound(Merged(rep, left, right), t, radius)
  {
    var ink, merged := Cover(t), Merged(rep, left, right);
    forall i, j | Tied(merged, i, j)
      ensures Linked(ink, radius, t[i].Start(), t[j].Start())
    {
      NearLinked(t, left, right, radius);
      if Tied(rep, i, j) {
      } else if Tied(rep, right, i) && Tied(rep, j, left) {
        Across(ink, radius, t[left].Start(), t[right].Start(), t[j].Start(), t[i].Start());
        LinkedSymmetric(ink, radius, t[j].Start(), t[i].Start());
      } else if Tied(rep, right, j) && Tied(rep, i, left) {
        Across(ink, radius, t[left].Start(), t[right].Start(), t[i].Start(), t[j].Start());
      }
    }
  }

  lemma {:induction false} Across(ink: set<Pixel>, radius: int, l: Pixel, r: Pixel, i: Pixel, j: Pixel)
    requires radius >= 0
    requires Linked(ink, radius, l, r) && Linked(ink, radius, i, l) && Linked(ink, radius, r, j)
    ensures Linked(ink, radius, i, j)
  {
    LinkedTransitive(ink, radius, i, l, r);
    LinkedTransitive(ink, radius, i, r, j);
  }

  lemma {:induction false} StartsLinked(t: seq<Run>, radius: int, i: nat, j: nat, p: Pixel, q: Pixel)
    requires radius >= 1 && i < |t| && j < |t| && t[i].Holds(p) && t[j].Holds(q)
    requires Linked(Cover(t), radius, t[i].Start(), t[j].Start())
    ensures Linked(Cover(t), radius, p, q)
  {
    LinkedAlongRun(t, i, radius, p.0);
    LinkedAlongRun(t, j, radius, q.0);
    LinkedSymmetric(Cover(t), radius, t[i].Start(), p);
    Across(Cover(t), radius, t[i].Start(), t[j].Start(), p, q);
  }

  /** Sound and complete representatives decide linkage, pixel by pixel. */
  lemma {:induction false} SameRepresentativeIffLinked(
      rep: seq<nat>, t: seq<Run>, radius: int, i: nat, j: nat, p: Pixel, q: Pixel)
    requires IsTable(t) && radius >= 1 && Sound(rep, t, radius) && Complete(rep, t, radius)
    requires i < |t| && j < |t| && t[i].Holds(p) && t[j].Holds(q)
    ensures Tied(rep, i, j) <==> Linked(Cover(t), radius, p, q)
  {
    if Tied(rep, i, j) {
      StartsLinked(t, radius, i, j, p, q);
    }
    if Linked(Cover(t), radius, p, q) {
      var path :| IsChain(path, Cover(t), radius) && path[0] == p && path[|path| - 1] == q;
      ChainKeepsRepresentative(rep, t, radius, path, i, j);
    }
  }

  lemma {:induction false} ChainKeepsRepresentative(
      rep: seq<nat>, t: seq<Run>, radius: int, path: seq<Pixel>, i: nat, j: nat)
    requires radius >= 0 && Complete(rep, t, radius) && IsChain(path, Cover(t), radius)
    requires i < |t| && j < |t| && t[i].Holds(path[0]) && t[j].Holds(path[|path| - 1])
    ensures Tied(rep, i, j)
    decreases |path|
  {
    if |path| == 1 {
      StepNear(t[i], t[j], path[0], path[0], radius);
      assert NearRuns(t, i, j, radius);
    } else {
      InCover(t, path[1]);
      var k :| 0 <= k < |t| && t[k].Holds(path[1]);
      StepNear(t[i], t[k], path[0], path[1], radius);
      assert NearRuns(t, i, k, radius);
      var rest := path[1..];
      forall m | 0 <= m < |rest| - 1
        ensures Step(rest[m], rest[m + 1], radius)
      {
        assert Step(path[m + 1], path[m + 2], radius);
      }
      ChainKeepsRepresentative(rep, t, radius, rest, k, j);
    }
  }
}
