/** Groups of runs under one representative, as ordered components. */
module Labelling {
  import opened Pixels
  import opened DisjointSets
  import opened InkGraph
  import opened Components
  import RowSweep
  import Sorting

  // --- grouping ----------------------------------------------------------------------------

  /** `groups` sorts the indices below `n` by representative, each group ascending. */
  ghost predicate IsGrouping(groups: seq<seq<nat>>, position: map<nat, nat>, rep: seq<nat>, n: nat) {
    && n <= |rep|
    && (forall g :: 0 <= g < |groups| ==> |groups[g]| > 0 && IsMembers(groups[g], n))
    && (forall i :: 0 <= i < n ==> rep[i] in position)
    && (forall r :: r in position ==> position[r] < |groups|)
    && (forall r, s :: r in position && s in position && position[r] == position[s] ==> r == s)
    && (forall g, i :: 0 <= g < |groups| && 0 <= i < n ==> (i in groups[g] <==> position[rep[i]] == g))
  }

  /** Indices below `n`, ascending. */
  ghost predicate IsMembers(group: seq<nat>, n: nat) {
    && (forall k :: 0 <= k < |group| ==> group[k] < n)
    && (forall k, l :: 0 <= k < l < |group| ==> group[k] < group[l])
  }

  lemma {:induction false} AddToGroup(groups: seq<seq<nat>>, position: map<nat, nat>, rep: seq<nat>, n: nat)
    requires IsGrouping(groups, position, rep, n) && n < |rep| && rep[n] in position
    ensures var g := position[rep[n]]; IsGrouping(groups[g := groups[g] + [n]], position, rep, n + 1)
  {
    var g := position[rep[n]];
    var groups' := groups[g := groups[g] + [n]];
    forall h | 0 <= h < |groups'|
      ensures |groups'[h]| > 0 && IsMembers(groups'[h], n + 1)
    {
      assert IsMembers(groups[h], n);
    }
    forall h, i | 0 <= h < |groups'| && 0 <= i < n + 1
      ensures i in groups'[h] <==> position[rep[i]] == h
    {
      assert IsMembers(groups[h], n);
      if i < n { assert i in groups[h] <==> position[rep[i]] == h; }
    }
  }

  lemma {:induction false} NewGroup(groups: seq<seq<nat>>, position: map<nat, nat>, rep: seq<nat>, n: nat)
    requires IsGrouping(groups, position, rep, n) && n < |rep| && rep[n] !in position
    ensures IsGrouping(groups + [[n]], position[rep[n] := |groups|], rep, n + 1)
  {
    var groups', position' := groups + [[n]], position[rep[n] := |groups|];
    forall h | 0 <= h < |groups'|
      ensures |groups'[h]| > 0 && IsMembers(groups'[h], n + 1)
    {
      if h < |groups| { assert IsMembers(groups[h], n); }
    }
    forall h, i | 0 <= h < |groups'| && 0 <= i < n + 1
      ensures i in groups'[h] <==> position'[rep[i]] == h
    {
      if h < |groups| { assert IsMembers(groups[h], n); }
      if i < n {
        assert rep[i] != rep[n];
        if h < |groups| { assert i in groups[h] <==> position[rep[i]] == h; }
      }
    }
  }

  method Group(f: Forest) returns (groups: seq<seq<nat>>, ghost position: map<nat, nat>)
    requires f.Valid()
    modifies f.parent
    ensures f.Valid() && IsGrouping(groups, position, f.rep, |f.rep|)
  {
    groups := [];
    var at: map<nat, nat> := map[];
    for n := 0 to f.parent.Length
      invariant f.Valid() && IsGrouping(groups, at, f.rep, n)
    {
      var root := f.Find(n);
      if root in at {
        AddToGroup(groups, at, f.rep, n);
        groups := groups[at[root] := groups[at[root]] + [n]];
      } else {
        NewGroup(groups, at, f.rep, n);
        groups, at := groups + [[n]], at[root := |groups|];
      }
    }
    position := at;
  }

  /** Two indices share a group exactly when they share a representative. */
  lemma {:induction false} SameGroupIffTied(
      groups: seq<seq<nat>>, position: map<nat, nat>, rep: seq<nat>, g: nat, h: nat, i: nat, j: nat)
    requires IsGrouping(groups, position, rep, |rep|) && g < |groups| && h < |groups|
    requires i in groups[g] && j in groups[h]
    ensures i < |rep| && j < |rep| && (g == h <==> Tied(rep, i, j))
  {
    assert IsMembers(groups[g], |rep|) && IsMembers(groups[h], |rep|);
    assert position[rep[i]] == g && position[rep[j]] == h;
  }

  // --- one component ---------------------------------------------------------------------

  datatype Component = Component(bounds: Bounds, pixelCount: int)
  datatype Labelled = Labelled(component: Component, runs: seq<Run>)

  function Members(t: seq<Run>, group: seq<nat>): (runs: seq<Run>)
    requires IsMembers(group, |t|)
    ensures |runs| == |group| && forall k :: 0 <= k < |group| ==> runs[k] == t[group[k]]
  {
    seq(|group|, k requires 0 <= k < |group| => t[group[k]])
  }

  lemma {:induction false} MembersTable(t: seq<Run>, group: seq<nat>)
    requires IsTable(t) && IsMembers(group, |t|)
    ensures IsTable(Members(t, group))
  {
    var runs := Members(t, group);
    forall a, b | 0 <= a < b < |runs|
      ensures Precedes(runs[a], runs[b])
    {
      assert Precedes(t[group[a]], t[group[b]]);
    }
  }

  function LeftEdge(runs: seq<Run>): (x: int)
    requires |runs| > 0
    ensures (forall k :: 0 <= k < |runs| ==> x <= runs[k].x0) && exists k :: 0 <= k < |runs| && x == runs[k].x0
  {
    if |runs| == 1 then runs[0].x0
    else
      var n := |runs| - 1;
      var x := LeftEdge(runs[..n]);
      assert forall k :: 0 <= k < n ==> runs[k] == runs[..n][k];
      if runs[n].x0 < x then runs[n].x0 else x
  }

  function RightEdge(runs: seq<Run>): (x: int)
    requires |runs| > 0
    ensures (forall k :: 0 <= k < |runs| ==> runs[k].x1 <= x) && exists k :: 0 <= k < |runs| && x == runs[k].x1
  {
    if |runs| == 1 then runs[0].x1
    else
      var n := |runs| - 1;
      var x := RightEdge(runs[..n]);
      assert forall k :: 0 <= k < n ==> runs[k] == runs[..n][k];
      if runs[n].x1 > x then runs[n].x1 else x
  }

  function TotalLength(runs: seq<Run>): int {
    if |runs| == 0 then 0
    else TotalLength(runs[..|runs| - 1]) + runs[|runs| - 1].x1 - runs[|runs| - 1].x0
  }

  predicate PixelLeq(p: Pixel, q: Pixel) {
    p.0 < q.0 || (p.0 == q.0 && p.1 <= q.1)
  }

  /** The least run start, by column and then row. */
  function FirstPixel(runs: seq<Run>): (p: Pixel)
    requires |runs| > 0
    ensures forall k :: 0 <= k < |runs| ==> PixelLeq(p, runs[k].Start())
    ensures exists k :: 0 <= k < |runs| && p == runs[k].Start()
  {
    if |runs| == 1 then runs[0].Start()
    else
      var n := |runs| - 1;
      var p := FirstPixel(runs[..n]);
      assert forall k :: 0 <= k < n ==> runs[k] == runs[..n][k];
      if PixelLeq(p, runs[n].Start()) then p else runs[n].Start()
  }

  function Describe(runs: seq<Run>): Labelled
    requires |runs| > 0
  {
    var x0, x1 := LeftEdge(runs), RightEdge(runs);
    var y0, y1 := runs[0].y, runs[|runs| - 1].y + 1;
    Labelled(Component(Bounds(x0, y0, x1 - x0, y1 - y0), TotalLength(runs)), runs)
  }

  /** `b` encloses `pixels` and each of its four sides touches one. */
  ghost predicate IsTight(b: Bounds, pixels: set<Pixel>) {
    && (forall p :: p in pixels ==> b.x <= p.0 < b.x + b.w && b.y <= p.1 < b.y + b.h)
    && (exists p :: p in pixels && p.0 == b.x) && (exists p :: p in pixels && p.0 == b.x + b.w - 1)
    && (exists p :: p in pixels && p.1 == b.y) && (exists p :: p in pixels && p.1 == b.y + b.h - 1)
  }

  lemma {:induction false} HeldPixel(runs: seq<Run>, k: nat, x: int)
    requires k < |runs| && runs[k].x0 <= x < runs[k].x1
    ensures (x, runs[k].y) in Cover(runs)
  {
    InCover(runs, (x, runs[k].y));
    assert runs[k].Holds((x, runs[k].y));
  }

  /** Reading the vertical bounds from the first and last run is enough: runs ascend. */
  lemma {:induction false} DescribeIsTight(runs: seq<Run>)
    requires IsTable(runs) && |runs| > 0
    ensures IsTight(Describe(runs).component.bounds, Cover(runs))
  {
    var n := |runs| - 1;
    forall p | p in Cover(runs)
      ensures LeftEdge(runs) <= p.0 < RightEdge(runs) && runs[0].y <= p.1 <= runs[n].y
    {
      InCover(runs, p);
      var k :| 0 <= k < |runs| && runs[k].Holds(p);
      if 0 < k { assert Precedes(runs[0], runs[k]); }
      if k < n { assert Precedes(runs[k], runs[n]); }
    }
    var l :| 0 <= l < |runs| && LeftEdge(runs) == runs[l].x0;
    HeldPixel(runs, l, runs[l].x0);
    var r :| 0 <= r < |runs| && RightEdge(runs) == runs[r].x1;
    HeldPixel(runs, r, runs[r].x1 - 1);
    HeldPixel(runs, 0, runs[0].x0);
    HeldPixel(runs, n, runs[n].x0);
  }

  lemma {:induction false} CoverStep(runs: seq<Run>)
    requires |runs| > 0
    ensures var n := |runs| - 1;
            Cover(runs) == Cover(runs[..n]) + Product(Interval(runs[n].x0, runs[n].x1), {runs[n].y})
  {
    var n := |runs| - 1;
    forall p
      ensures p in Cover(runs) <==> p in Cover(runs[..n]) || runs[n].Holds(p)
    {
      InCover(runs, p);
      InCover(runs[..n], p);
      if p in Cover(runs[..n]) {
        var k :| 0 <= k < n && runs[..n][k].Holds(p);
        assert runs[k].Holds(p);
      }
      if k :| 0 <= k < |runs| && runs[k].Holds(p) {
        if k < n { assert runs[..n][k].Holds(p); }
      }
    }
  }

  lemma {:induction false} LastRunApart(runs: seq<Run>, p: Pixel)
    requires IsTable(runs) && |runs| > 0 && p in Cover(runs[..|runs| - 1])
    ensures !runs[|runs| - 1].Holds(p)
  {
    var n := |runs| - 1;
    InCover(runs[..n], p);
    var k :| 0 <= k < n && runs[..n][k].Holds(p);
    assert Precedes(runs[k], runs[n]);
  }

  lemma {:induction false} InitIsTable(runs: seq<Run>)
    requires IsTable(runs) && |runs| > 0
    ensures IsTable(runs[..|runs| - 1])
  {
    var init := runs[..|runs| - 1];
    forall a, b | 0 <= a < b < |init|
      ensures Precedes(init[a], init[b])
    {
      assert Precedes(runs[a], runs[b]);
    }
  }

  lemma RunSize(run: Run)
    requires run.x0 < run.x1
    ensures |Product(Interval(run.x0, run.x1), {run.y})| == run.x1 - run.x0
  {
    StripSize(run.x0, run.x1, {run.y});
  }

  lemma UnionSize<T>(a: set<T>, b: set<T>, c: set<T>)
    requires c == a + b && a !! b
    ensures |c| == |a| + |b|
  {
  }

  /** The run lengths add up to the pixels covered. */
  lemma {:induction false} LengthIsCount(runs: seq<Run>)
    requires IsTable(runs)
    ensures TotalLength(runs) == |Cover(runs)|
  {
    if |runs| == 0 {
      assert Cover(runs) == {};
    } else {
      var n := |runs| - 1;
      var init, last := runs[..n], Product(Interval(runs[n].x0, runs[n].x1), {runs[n].y});
      InitIsTable(runs);
      LengthIsCount(init);
      CoverStep(runs);
      RunSize(runs[n]);
      forall p | p in Cover(init)
        ensures p !in last
      {
        LastRunApart(runs, p);
      }
      UnionSize(Cover(init), last, Cover(runs));
    }
  }

  // --- the order ------------------------------------------------------------------------------

  datatype Key = Key(top: int, left: int, firstX: int, firstY: int)

  predicate KeyLeq(a: Key, b: Key) {
    a.top < b.top || (a.top == b.top && (a.left < b.left || (a.left == b.left &&
      (a.firstX < b.firstX || (a.firstX == b.firstX && a.firstY <= b.firstY)))))
  }

  function OrderKey(l: Labelled): Key {
    if |l.runs| == 0 then Key(0, 0, 0, 0)
    else
      var first := FirstPixel(l.runs);
      Key(l.component.bounds.y, l.component.bounds.x, first.0, first.1)
  }

  predicate OrderLeq(a: Labelled, b: Labelled) {
    KeyLeq(OrderKey(a), OrderKey(b))
  }

  // --- what a labelling is ----------------------------------------------------------------------

  ghost predicate Contains(labels: seq<Labelled>, k: int, p: Pixel) {
    0 <= k < |labels| && p in Cover(labels[k].runs)
  }

  ghost predicate IsComponent(l: Labelled) {
    && |l.runs| > 0 && IsTable(l.runs)
    && IsTight(l.component.bounds, Cover(l.runs))
    && l.component.pixelCount == |Cover(l.runs)|
  }

  /** The components partition the ink, and two ink pixels share one exactly when a chain
      of ink joins them. */
  ghost predicate IsPartition(labels: seq<Labelled>, ink: set<Pixel>, radius: int) {
    && (forall p :: p in ink <==> exists k :: Contains(labels, k, p))
    && (forall k, l, p, q :: Contains(labels, k, p) && Contains(labels, l,
         q) ==> (k == l <==> Linked(ink, radius, p, q)))
    && (forall k :: 0 <= k < |labels| ==> IsComponent(labels[k]))
  }

  ghost predicate IsOrdered(labels: seq<Labelled>) {
    forall k, l ::
      0 <= k < l < |labels| ==> OrderLeq(labels[k], labels[l]) && OrderKey(labels[k]) != OrderKey(labels[l])
  }

  /** Some pixel of the one comes before every pixel of the other, by column and then row. */
  ghost predicate HasEarlierPixel(a: Labelled, b: Labelled) {
    exists p :: p in Cover(a.runs) && forall q :: q in Cover(b.runs) ==> p.0 < q.0 || (p.0 == q.0 && p.1 < q.1)
  }

  /** By top, then left, then first pixel. */
  ghost predicate StandsBefore(a: Labelled, b: Labelled) {
    var s, t := a.component.bounds, b.component.bounds;
    s.y < t.y || (s.y == t.y && (s.x < t.x || (s.x == t.x && HasEarlierPixel(a, b))))
  }

  ghost predicate StandInOrder(labels: seq<Labelled>) {
    forall k, l :: 0 <= k < l < |labels| ==> StandsBefore(labels[k], labels[l])
  }

  // --- from groups to the labelling --------------------------------------------------------------

  function DescribeAll(t: seq<Run>, groups: seq<seq<nat>>): (labels: seq<Labelled>)
    requires forall g :: 0 <= g < |groups| ==> |groups[g]| > 0 && IsMembers(groups[g], |t|)
    ensures |labels| == |groups|
    ensures forall g :: 0 <= g < |groups| ==> labels[g] == Describe(Members(t, groups[g]))
  {
    seq(|groups|, g requires 0 <= g < |groups| => Describe(Members(t, groups[g])))
  }

  lemma {:induction false} DescribedIsComponent(t: seq<Run>, group: seq<nat>)
    requires IsTable(t) && |group| > 0 && IsMembers(group, |t|)
    ensures IsComponent(Describe(Members(t, group)))
  {
    MembersTable(t, group);
    DescribeIsTight(Members(t, group));
    LengthIsCount(Members(t, group));
  }

  /** A pixel of a described group lies in one of the group's runs. */
  lemma {:induction false} MemberHolding(t: seq<Run>, group: seq<nat>, p: Pixel) returns (i: nat)
    requires IsMembers(group, |t|) && p in Cover(Members(t, group))
    ensures i < |t| && i in group && t[i].Holds(p)
  {
    InCover(Members(t, group), p);
    var k :| 0 <= k < |group| && Members(t, group)[k].Holds(p);
    i := group[k];
  }

  lemma {:induction false} HeldByMember(t: seq<Run>, group: seq<nat>, i: nat, p: Pixel)
    requires IsMembers(group, |t|) && i in group && t[i].Holds(p)
    ensures p in Cover(Members(t, group))
  {
    InCover(Members(t, group), p);
    var k :| 0 <= k < |group| && group[k] == i;
    assert Members(t, group)[k].Holds(p);
  }

  lemma {:induction false} GroupsPartition(
      t: seq<Run>, groups: seq<seq<nat>>, position: map<nat, nat>, rep: seq<nat>, radius: int)
    requires IsTable(t) && radius >= 1 && Sound(rep, t, radius) && Complete(rep, t, radius)
    requires IsGrouping(groups, position, rep, |t|)
    ensures IsPartition(DescribeAll(t, groups), Cover(t), radius)
  {
    var labels := DescribeAll(t, groups);
    forall p: Pixel
      ensures p in Cover(t) <==> exists k :: Contains(labels, k, p)
    {
      InCover(t, p);
      if k :| Contains(labels, k, p) {
        var i := MemberHolding(t, groups[k], p);
      }
      if i :| 0 <= i < |t| && t[i].Holds(p) {
        var g := position[rep[i]];
        assert i in groups[g];
        HeldByMember(t, groups[g], i, p);
        assert Contains(labels, g, p);
      }
    }
    forall k, l, p, q | Contains(labels, k, p) && Contains(labels, l, q)
      ensures k == l <==> Linked(Cover(t), radius, p, q)
    {
      var i := MemberHolding(t, groups[k], p);
      var j := MemberHolding(t, groups[l], q);
      SameGroupIffTied(groups, position, rep, k, l, i, j);
      SameRepresentativeIffLinked(rep, t, radius, i, j, p, q);
    }
    forall k | 0 <= k < |labels|
      ensures IsComponent(labels[k])
    {
      DescribedIsComponent(t, groups[k]);
    }
  }

  // --- sorting keeps the partition ----------------------------------------------------------------

  lemma {:induction false} FirstPixelInside(l: Labelled)
    requires IsComponent(l)
    ensures FirstPixel(l.runs) in Cover(l.runs)
  {
    var k :| 0 <= k < |l.runs| && FirstPixel(l.runs) == l.runs[k].Start();
    HeldPixel(l.runs, k, l.runs[k].x0);
  }

  /** The first pixel is the least of the component's pixels. */
  lemma {:induction false} FirstIsLeast(l: Labelled, p: Pixel)
    requires IsComponent(l) && p in Cover(l.runs)
    ensures PixelLeq(FirstPixel(l.runs), p)
  {
    InCover(l.runs, p);
    var k :| 0 <= k < |l.runs| && l.runs[k].Holds(p);
    assert PixelLeq(FirstPixel(l.runs), l.runs[k].Start());
  }

  /** The sort key orders components by their bounds, and by their first pixels where those start
      alike. */
  lemma {:induction false} OrderStands(a: Labelled, b: Labelled)
    requires IsComponent(a) && IsComponent(b) && OrderLeq(a, b) && OrderKey(a) != OrderKey(b)
    ensures StandsBefore(a, b)
  {
    FirstPixelInside(a);
    var p := FirstPixel(a.runs);
    forall q | q in Cover(b.runs)
      ensures PixelLeq(FirstPixel(b.runs), q)
    {
      FirstIsLeast(b, q);
    }
  }

  /** Components hold a pixel each and share none, so no two have one sort key. */
  lemma {:induction false} KeysDiffer(labels: seq<Labelled>, ink: set<Pixel>, radius: int, k: nat, l: nat)
    requires IsPartition(labels, ink, radius) && radius >= 0 && k < |labels| && l < |labels| && k != l
    ensures OrderKey(labels[k]) != OrderKey(labels[l]) && labels[k] != labels[l]
  {
    FirstPixelInside(labels[k]);
    FirstPixelInside(labels[l]);
    var p := FirstPixel(labels[k].runs);
    if p == FirstPixel(labels[l].runs) {
      assert Contains(labels, k, p) && Contains(labels, l, p);
      LinkedStep(ink, radius, p, p);
    }
  }

  lemma {:induction false} Carried(sorted: seq<Labelled>, labels: seq<Labelled>, k: int, p: Pixel) returns (k': nat)
    requires multiset(sorted) == multiset(labels) && Contains(sorted, k, p)
    ensures k' < |labels| && labels[k'] == sorted[k] && Contains(labels, k', p)
  {
    Sorting.SameElements(sorted, labels);
    assert sorted[k] in labels;
    k' :| 0 <= k' < |labels| && labels[k'] == sorted[k];
  }

  /** Reordering a partition keeps it one. */
  lemma {:induction false} ReorderKeepsPartition(
      sorted: seq<Labelled>, labels: seq<Labelled>, ink: set<Pixel>, radius: int)
    requires IsPartition(labels, ink, radius) && radius >= 0 && multiset(sorted) == multiset(labels)
    ensures IsPartition(sorted, ink, radius) && Sorting.Distinct(sorted)
  {
    forall k, l | 0 <= k < l < |labels|
      ensures labels[k] != labels[l]
    {
      KeysDiffer(labels, ink, radius, k, l);
    }
    Sorting.DistinctStays(sorted, labels);
    forall p: Pixel
      ensures p in ink <==> exists k :: Contains(sorted, k, p)
    {
      if k :| Contains(sorted, k, p) {
        var k' := Carried(sorted, labels, k, p);
      }
      if p in ink {
        var k' :| Contains(labels, k', p);
        var k := Carried(labels, sorted, k', p);
      }
    }
    forall k, l, p, q | Contains(sorted, k, p) && Contains(sorted, l, q)
      ensures k == l <==> Linked(ink, radius, p, q)
    {
      var k' := Carried(sorted, labels, k, p);
      var l' := Carried(sorted, labels, l, q);
      if k' != l' { KeysDiffer(labels, ink, radius, k', l'); }
    }
    Sorting.SameElements(sorted, labels);
    forall k | 0 <= k < |sorted|
      ensures IsComponent(sorted[k])
    {
      assert sorted[k] in labels;
    }
  }

  lemma {:induction false} SortKeepsPartition(
      sorted: seq<Labelled>, labels: seq<Labelled>, ink: set<Pixel>, radius: int)
    requires IsPartition(labels, ink, radius) && radius >= 0
    requires multiset(sorted) == multiset(labels) && Sorting.IsSorted(sorted, OrderLeq)
    ensures IsPartition(sorted, ink, radius) && IsOrdered(sorted) && StandInOrder(sorted)
  {
    ReorderKeepsPartition(sorted, labels, ink, radius);
    forall k, l | 0 <= k < l < |sorted|
      ensures OrderLeq(sorted[k], sorted[l]) && OrderKey(sorted[k]) != OrderKey(sorted[l])
      ensures StandsBefore(sorted[k], sorted[l])
    {
      KeysDiffer(sorted, ink, radius, k, l);
      OrderStands(sorted[k], sorted[l]);
    }
  }

  // --- the labelling ---------------------------------------------------------------------------------

  predicate IsInputRun(rows: map<int, Scanline>, run: Run) {
    run.y in rows && (run.x0, run.x1) in rows[run.y]
  }

  /** Every run a component keeps is one it was given. */
  ghost predicate FromRows(l: Labelled, rows: map<int, Scanline>) {
    forall i :: 0 <= i < |l.runs| ==> IsInputRun(rows, l.runs[i])
  }

  lemma {:induction false} DescribedFromRows(t: seq<Run>, rows: map<int, Scanline>, ys: seq<int>, group: seq<nat>)
    requires HoldsRows(t, rows, ys) && |group| > 0 && IsMembers(group, |t|)
    ensures FromRows(Describe(Members(t, group)), rows)
  {
    forall i | 0 <= i < |group|
      ensures IsInputRun(rows, Members(t, group)[i])
    {
      assert Members(t, group)[i] == t[group[i]];
    }
  }

  lemma {:induction false} LabelFromRows(
      t: seq<Run>, rows: map<int, Scanline>, ys: seq<int>, groups: seq<seq<nat>>, l: Labelled)
    requires HoldsRows(t, rows, ys)
    requires forall g :: 0 <= g < |groups| ==> |groups[g]| > 0 && IsMembers(groups[g], |t|)
    requires l in DescribeAll(t, groups)
    ensures FromRows(l, rows)
  {
    var labels := DescribeAll(t, groups);
    var g :| 0 <= g < |groups| && labels[g] == l;
    DescribedFromRows(t, rows, ys, groups[g]);
  }

  lemma {:induction false} OrderedFromRows(
      t: seq<Run>, rows: map<int, Scanline>, ys: seq<int>, groups: seq<seq<nat>>, sorted: seq<Labelled>)
    requires HoldsRows(t, rows, ys)
    requires forall g :: 0 <= g < |groups| ==> |groups[g]| > 0 && IsMembers(groups[g], |t|)
    requires multiset(sorted) == multiset(DescribeAll(t, groups))
    ensures forall k :: 0 <= k < |sorted| ==> FromRows(sorted[k], rows)
  {
    Sorting.SameElements(sorted, DescribeAll(t, groups));
    forall k | 0 <= k < |sorted|
      ensures FromRows(sorted[k], rows)
    {
      assert sorted[k] in sorted;
      LabelFromRows(t, rows, ys, groups, sorted[k]);
    }
  }

  /** The groups of a finished forest, described and put in order. */
  method OrderGroups(f: Forest, t: seq<Run>, ghost rows: map<int, Scanline>, ghost ys: seq<int>, radius: int)
    returns (sorted: seq<Labelled>)
    requires f.Valid() && IsTable(t) && radius >= 1 && Sound(f.rep, t, radius) && Complete(f.rep, t, radius)
    requires HoldsRows(t, rows, ys)
    modifies f.parent
    ensures IsPartition(sorted, Cover(t), radius) && IsOrdered(sorted) && StandInOrder(sorted)
    ensures forall k :: 0 <= k < |sorted| ==> FromRows(sorted[k], rows)
  {
    var groups, position := Group(f);
    var labels := DescribeAll(t, groups);
    GroupsPartition(t, groups, position, f.rep, radius);
    sorted := Sorting.Sort(labels, OrderLeq);
    SortKeepsPartition(sorted, labels, Cover(t), radius);
    OrderedFromRows(t, rows, ys, groups, sorted);
  }

  /** Label the runs: the result partitions the page's ink into its Chebyshev-connected
      components at `gapTolerance`, each tightly bounded and counted, in one strict order. */
  method LabelComponentRuns(rows: map<int, Scanline>, gapTolerance: int) returns (r: Result<seq<Labelled>>)
    requires IsRows(rows)
    ensures r.Ok? <==> gapTolerance >= 0
    ensures r.Ok? ==> IsPartition(r.value, Ink(rows), gapTolerance + 1) && IsOrdered(r.value) && StandInOrder(r.value)
    ensures r.Ok? ==> forall k :: 0 <= k < |r.value| ==> FromRows(r.value[k], rows)
  {
    if gapTolerance < 0 { return Err(NegativeTolerance); }
    var ys := Sorting.SortedSet(rows.Keys);
    var t, spans := BuildTable(rows, ys);
    TableCover(t, rows, ys);
    var f := new Forest(|t|);
    FreshSound(f.rep, t, gapTolerance + 1);
    RowSweep.JoinAll(f, t, ys, spans, gapTolerance);
    var sorted := OrderGroups(f, t, rows, ys, gapTolerance + 1);
    r := Ok(sorted);
  }

  /** `label_components`: the same partition straight from a pixel set. */
  method LabelComponents(pixels: seq<Pixel>, gapTolerance: int) returns (r: Result<seq<Labelled>>)
    ensures r.Ok? <==> gapTolerance >= 0
    ensures r.Ok? ==> IsPartition(r.value, (set p | p in pixels), gapTolerance + 1)
    ensures r.Ok? ==> IsOrdered(r.value) && StandInOrder(r.value)
  {
    var rows := InkRunsByRow(pixels);
    r := LabelComponentRuns(rows, gapTolerance);
    assert Ink(rows) == (set p | p in pixels);
  }

  // --- the counts ---------------------------------------------------------------------------------------

  function TotalCount(labels: seq<Labelled>): int {
    if |labels| == 0 then 0 else TotalCount(labels[..|labels| - 1]) + labels[|labels| - 1].component.pixelCount
  }

  ghost function CoverAll(labels: seq<Labelled>): (r: set<Pixel>)
    ensures forall p :: p in r <==> exists k :: Contains(labels, k, p)
  {
    if |labels| == 0 then {}
    else
      var n := |labels| - 1;
      var r := CoverAll(labels[..n]) + Cover(labels[n].runs);
      assert forall k, p :: k != n ==> (Contains(labels, k, p) <==> Contains(labels[..n], k, p));
      assert forall p :: p in Cover(labels[n].runs) <==> Contains(labels, n, p);
      r
  }

  lemma {:induction false} CountsAddUp(labels: seq<Labelled>, n: nat)
    requires n <= |labels| && forall k :: 0 <= k < |labels| ==> IsComponent(labels[k])
    requires AreDisjoint(labels)
    ensures TotalCount(labels[..n]) == |CoverAll(labels[..n])|
  {
    if n > 0 {
      CountsAddUp(labels, n - 1);
      OneLabelMore(labels, n);
      LastIsApart(labels, n);
      UnionSize(CoverAll(labels[..n - 1]), Cover(labels[n - 1].runs), CoverAll(labels[..n]));
    }
  }

  lemma OneLabelMore(labels: seq<Labelled>, n: nat)
    requires 0 < n <= |labels|
    ensures CoverAll(labels[..n]) == CoverAll(labels[..n - 1]) + Cover(labels[n - 1].runs)
    ensures TotalCount(labels[..n]) == TotalCount(labels[..n - 1]) + labels[n - 1].component.pixelCount
  {
    assert labels[..n][..n - 1] == labels[..n - 1];
  }

  ghost predicate AreDisjoint(labels: seq<Labelled>) {
    forall k, l, p :: Contains(labels, k, p) && Contains(labels, l, p) ==> k == l
  }

  lemma {:induction false} LastIsApart(labels: seq<Labelled>, n: nat)
    requires 0 < n <= |labels| && AreDisjoint(labels)
    ensures CoverAll(labels[..n - 1]) !! Cover(labels[n - 1].runs)
  {
    var init, last := labels[..n - 1], labels[n - 1];
    forall p | p in CoverAll(init) && p in Cover(last.runs)
      ensures false
    {
      var k :| Contains(init, k, p);
      assert Contains(labels, k, p) && Contains(labels, n - 1, p);
    }
  }

  /** The pixel counts sum to the ink. */
  lemma {:induction false} CountsSumToInk(labels: seq<Labelled>, ink: set<Pixel>, radius: int)
    requires IsPartition(labels, ink, radius) && radius >= 0
    ensures TotalCount(labels) == |ink|
  {
    forall k, l, p | Contains(labels, k, p) && Contains(labels, l, p)
      ensures k == l
    {
      assert p in ink;
      LinkedStep(ink, radius, p, p);
    }
    CountsAddUp(labels, |labels|);
    assert labels[..|labels|] == labels;
    assert CoverAll(labels) == ink;
  }
}
