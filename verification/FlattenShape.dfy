/** What every step of flattening keeps: the text only grows and stays well separated, marks
    close in the order they opened, and spans nest. */
module FlattenShape {
  import opened Arithmetic
  import opened Options
  import opened FlatText
  import opened Flatten

  // --- well separated text ---------------------------------------------------------------------

  /** The character at `k` is no white space, one space between two runs, or one of at most two
      newlines between two runs. */
  ghost predicate IsCleanAt(s: string, k: int)
    requires 0 <= k < |s|
  {
    IsBlankChar(s[k]) ==>
      && 0 < k < |s| - 1
      && (s[k] == ' ' || s[k] == '\n')
      && (s[k] == ' ' ==> !IsBlankChar(s[k - 1]) && !IsBlankChar(s[k + 1]))
      && (s[k] == '\n' ==> s[k - 1] != ' ' && s[k + 1] != ' ' && (s[k - 1] != '\n' || s[k + 1] != '\n'))
  }

  /** No separator at either end, no space beside other white space, no third newline. */
  ghost predicate IsClean(s: string) {
    forall k :: 0 <= k < |s| ==> IsCleanAt(s, k)
  }

  predicate IsSeparator(s: string) {
    s == "" || s == " " || s == "\n" || s == "\n\n"
  }

  lemma {:induction false} CleanAppend(s: string, separator: string, run: string)
    requires IsClean(s) && IsRun(run) && IsSeparator(separator) && (|s| == 0 ==> separator == "")
    ensures IsClean(s + separator + run)
  {
    var t := s + separator + run;
    forall k | 0 <= k < |t|
      ensures IsCleanAt(t, k)
    {
      if k < |s| {
        assert IsCleanAt(s, k) && t[k] == s[k];
        if IsBlankChar(s[k]) { assert t[k + 1] == s[k + 1]; }
      } else if k < |s| + |separator| {
        assert IsCleanAt(s, |s| - 1);
        assert t[k] == separator[k - |s|];
        assert t[|s| - 1] == s[|s| - 1] && t[|s| + |separator|] == run[0];
      } else {
        assert t[k] == run[k - |s| - |separator|];
      }
    }
  }

  // --- the builder's invariant ----------------------------------------------------------------------

  /** A mark opens no later than the marks inside it. */
  ghost predicate MarkBefore(outer: Mark, inner: Mark) {
    inner.start.Some? ==> outer.start.Some? && outer.start.value <= inner.start.value
  }

  ghost predicate IsGood(b: Builder) {
    && IsClean(b.text) && b.breaks <= 2
    && (forall m :: 0 <= m < |b.marks| ==> (b.marks[m].start.Some? ==> b.marks[m].start.value <= |b.text|))
    && (forall m, n {:trigger MarkBefore(b.marks[m],
         b.marks[n])} :: 0 <= m < n < |b.marks| ==> MarkBefore(b.marks[m], b.marks[n]))
  }

  ghost predicate MarkGrows(m: Mark, m': Mark, n: nat, n': nat) {
    && m.serial == m'.serial
    && (m.start.Some? ==> m'.start == m.start)
    && (m.start == None && m'.start == None ==> n == n')
    && (m.start == None && m'.start.Some? ==> n <= m'.start.value)
  }

  /** `after` is `b` with text appended: open marks stay, and a waiting one opens no earlier
      than where the text stood, as soon as any is written. */
  ghost predicate Grows(b: Builder, after: Builder) {
    && b.text <= after.text && |b.marks| == |after.marks| && b.begun <= after.begun
    && forall m :: 0 <= m < |b.marks| ==> MarkGrows(b.marks[m], after.marks[m], |b.text|, |after.text|)
  }

  lemma {:induction false} GrowsTransitive(a: Builder, b: Builder, c: Builder)
    requires Grows(a, b) && Grows(b, c)
    ensures Grows(a, c)
  {
    forall m | 0 <= m < |a.marks|
      ensures MarkGrows(a.marks[m], c.marks[m], |a.text|, |c.text|)
    {
      assert MarkGrows(a.marks[m], b.marks[m], |a.text|, |b.text|)
             && MarkGrows(b.marks[m], c.marks[m], |b.text|, |c.text|);
    }
  }

  lemma {:induction false} PutGrows(b: Builder, run: string)
    requires IsGood(b) && IsRun(run)
    ensures IsGood(Put(b, run)) && Grows(b, Put(b, run))
  {
    var after := Put(b, run);
    assert IsSeparator(Separator(b)) by { NewlineSeparators(b); }
    CleanAppend(b.text, Separator(b), run);
    forall m, n | 0 <= m < n < |after.marks|
      ensures MarkBefore(after.marks[m], after.marks[n])
    {
      assert MarkBefore(b.marks[m], b.marks[n]);
    }
  }

  lemma NewlineSeparators(b: Builder)
    requires b.breaks <= 2
    ensures IsSeparator(Separator(b))
  {
    assert Newlines(1) == "\n" && Newlines(2) == "\n\n";
  }

  lemma {:induction false} PutFromGrows(b: Builder, runs: seq<string>, i: nat)
    requires IsGood(b) && i <= |runs| && forall k :: 0 <= k < |runs| ==> IsRun(runs[k])
    ensures IsGood(PutFrom(b, runs, i)) && Grows(b, PutFrom(b, runs, i))
    decreases |runs| - i
  {
    if i < |runs| {
      var spaced := if i > 0 then b.(space := true) else b;
      assert forall m, n :: 0 <= m < n < |spaced.marks| ==> MarkBefore(b.marks[m], b.marks[n]);
      PutGrows(spaced, runs[i]);
      PutFromGrows(Put(spaced, runs[i]), runs, i + 1);
      GrowsTransitive(b, Put(spaced, runs[i]), PutFrom(b, runs, i));
    }
  }

  /** Changing only the pending separator keeps everything. */
  lemma {:induction false} PendingKeeps(b: Builder, after: Builder)
    requires IsGood(b) && after == b.(breaks := after.breaks, space := after.space) && after.breaks <= 2
    ensures IsGood(after) && Grows(b, after)
  {
    forall m, n | 0 <= m < n < |after.marks|
      ensures MarkBefore(after.marks[m], after.marks[n])
    {
      assert MarkBefore(b.marks[m], b.marks[n]);
    }
  }

  lemma {:induction false} AddGrows(b: Builder, s: string)
    requires IsGood(b)
    ensures IsGood(Add(b, s)) && Grows(b, Add(b, s))
  {
    if IsBlank(s) {
      PendingKeeps(b, Add(b, s));
    } else {
      var led := if IsBlankChar(s[0]) then b.(space := true) else b;
      var put := PutFrom(led, Runs(s), 0);
      PendingKeeps(b, led);
      PutFromGrows(led, Runs(s), 0);
      PendingKeeps(put, Add(b, s));
      GrowsTransitive(b, led, put);
      GrowsTransitive(b, put, Add(b, s));
    }
  }

  lemma {:induction false} BreakGrows(b: Builder, count: nat)
    requires IsGood(b) && count <= 2
    ensures IsGood(BreakLine(b, count)) && Grows(b, BreakLine(b, count))
  {
    PendingKeeps(b, BreakLine(b, count));
  }

  lemma {:induction false} AddTextGrows(b: Builder, s: string, insideLine: bool)
    requires IsGood(b)
    ensures IsGood(AddText(b, s, insideLine)) && Grows(b, AddText(b, s, insideLine))
  {
    if |s| > 0 && insideLine {
      AddGrows(b, s);
    } else if |s| > 0 && !IsBlank(s) {
      var broken := BreakLine(b, 1);
      BreakGrows(b, 1);
      AddGrows(broken, s);
      BreakGrows(Add(broken, s), 1);
      GrowsTransitive(b, broken, Add(broken, s));
      GrowsTransitive(b, Add(broken, s), AddText(b, s, insideLine));
    }
  }

  lemma {:induction false} BeginGood(b: Builder)
    requires IsGood(b)
    ensures IsGood(BeginMark(b))
  {
    var after := BeginMark(b);
    forall m, n | 0 <= m < n < |after.marks|
      ensures MarkBefore(after.marks[m], after.marks[n])
    {
      if n < |b.marks| { assert MarkBefore(b.marks[m], b.marks[n]); }
    }
  }

  // --- spans -----------------------------------------------------------------------------------------

  /** An open mark and a recorded span do not cross: a waiting mark has the span at its very
      place, an opened one lies after it or starts before it. */
  ghost predicate ClearOfMark(x: Span, m: Mark, length: nat) {
    match m.start
    case None => x.start == x.end == length
    case Some(p) => x.end <= p || p <= x.start
  }

  ghost predicate IsSpanOf(x: Span, b: Builder, after: Builder) {
    && |b.text| <= x.start <= x.end <= |after.text|
    && forall m :: 0 <= m < |after.marks| ==> ClearOfMark(x, after.marks[m], |after.text|)
  }

  /** A span recorded before another lies before it or inside it. */
  ghost predicate NestsIn(x: Span, y: Span) {
    x.end <= y.start || (y.start <= x.start && x.end <= y.end)
  }

  ghost predicate AllNest(spans: seq<Span>) {
    forall i, j {:trigger NestsIn(spans[i], spans[j])} :: 0 <= i < j < |spans| ==> NestsIn(spans[i], spans[j])
  }

  ghost predicate AllSpansOf(spans: seq<Span>, b: Builder, after: Builder) {
    forall i :: 0 <= i < |spans| ==> IsSpanOf(spans[i], b, after)
  }

  lemma {:induction false} SpansStay(spans: seq<Span>, b: Builder, middle: Builder, after: Builder)
    requires AllSpansOf(spans, b, middle) && Grows(middle, after)
    ensures AllSpansOf(spans, b, after)
  {
    forall i | 0 <= i < |spans|
      ensures IsSpanOf(spans[i], b, after)
    {
      assert IsSpanOf(spans[i], b, middle);
      forall m | 0 <= m < |after.marks|
        ensures ClearOfMark(spans[i], after.marks[m], |after.text|)
      {
        assert MarkGrows(middle.marks[m], after.marks[m], |middle.text|, |after.text|);
        assert ClearOfMark(spans[i], middle.marks[m], |middle.text|);
      }
    }
  }

  lemma {:induction false} NestAppend(a: seq<Span>, b: seq<Span>, start: Builder, middle: Builder, after: Builder)
    requires AllNest(a) && AllNest(b) && AllSpansOf(a, start, middle) && AllSpansOf(b, middle, after)
    ensures AllNest(a + b)
  {
    var c := a + b;
    forall i, j | 0 <= i < j < |c|
      ensures NestsIn(c[i], c[j])
    {
      if j < |a| { assert NestsIn(a[i], a[j]); }
      else if |a| <= i { assert NestsIn(b[i - |a|], b[j - |a|]); }
      else { assert IsSpanOf(a[i], start, middle) && IsSpanOf(b[j - |a|], middle, after); }
    }
  }

  lemma {:induction false} SpansFromEarlier(spans: seq<Span>, b: Builder, middle: Builder, after: Builder)
    requires AllSpansOf(spans, middle, after) && b.text <= middle.text
    ensures AllSpansOf(spans, b, after)
  {
    forall i | 0 <= i < |spans|
      ensures IsSpanOf(spans[i], b, after)
    {
      assert IsSpanOf(spans[i], middle, after);
    }
  }

  // --- the walk ------------------------------------------------------------------------------------------

  /** What a walk from `b` keeps. */
  ghost predicate IsSoundWalk(w: Walked, b: Builder) {
    match w
    case Failed(error) => error == DocumentTooDeep
    case Walked(after, spans, _) => IsGood(after) && Grows(b, after) && AllSpansOf(spans, b, after) && AllNest(spans)
  }

  lemma {:induction false} EnterGrows(b: Builder, c: Element, insideLine: bool)
    requires IsGood(b)
    ensures IsGood(Enter(b, c, insideLine)) && Enter(b, c, insideLine).text == b.text
    ensures !IsMarked(c) ==> Grows(b, Enter(b, c, insideLine))
    ensures IsMarked(c) ==> Enter(b, c, insideLine).marks == b.marks + [Mark(b.begun, None)]
  {
    var marked := if IsMarked(c) then BeginMark(b) else b;
    if IsMarked(c) { BeginGood(b); }
    if BreaksLine(c, insideLine) { BreakGrows(marked, 1); }
  }

  /** Popping the mark a child opened. */
  lemma {:induction false} CloseMark(b: Builder, entered: Builder, after: Builder, spans: seq<Span>, kind: string)
    requires IsGood(after) && Grows(entered, after) && AllSpansOf(spans, entered, after) && AllNest(spans)
    requires entered.text == b.text && entered.marks == b.marks + [Mark(b.begun, None)] && b.begun <= entered.begun
    ensures EndMark(after, b.begun).Some?
    ensures var (closed, start, end) := EndMark(after, b.begun).value;
            var all := spans + [Span(kind, start, end)];
            IsGood(closed) && Grows(b, closed) && AllSpansOf(all, b, closed) && AllNest(all)
  {
    var top := |b.marks|;
    assert MarkGrows(entered.marks[top], after.marks[top], |entered.text|, |after.text|);
    var (closed, start, end) := EndMark(after, b.begun).value;
    var y := Span(kind, start, end);
    var all := spans + [y];
    forall m, n | 0 <= m < n < |closed.marks|
      ensures MarkBefore(closed.marks[m], closed.marks[n])
    {
      assert MarkBefore(after.marks[m], after.marks[n]);
    }
    forall m | 0 <= m < |b.marks|
      ensures MarkGrows(b.marks[m], closed.marks[m], |b.text|, |closed.text|)
      ensures ClearOfMark(y, closed.marks[m], |closed.text|)
    {
      assert MarkGrows(entered.marks[m], after.marks[m], |entered.text|, |after.text|);
      assert MarkBefore(after.marks[m], after.marks[top]);
    }
    forall i | 0 <= i < |all|
      ensures IsSpanOf(all[i], b, closed)
    {
      if i < |spans| { assert IsSpanOf(spans[i], entered, after); }
    }
    forall i, j | 0 <= i < j < |all|
      ensures NestsIn(all[i], all[j])
    {
      if j < |spans| { assert NestsIn(spans[i], spans[j]); }
      else {
        assert IsSpanOf(spans[i], entered, after);
        assert ClearOfMark(spans[i], after.marks[top], |after.text|);
      }
    }
  }

  lemma {:induction false} LeaveSound(b: Builder, c: Element, insideLine: bool, inner: Walked)
    requires IsGood(b) && inner.Walked? && IsSoundWalk(inner, Enter(b, c, insideLine))
    ensures var left := Leave(inner, c, insideLine, b.begun); left.Walked? && IsSoundWalk(left, b)
  {
    EnterGrows(b, c, insideLine);
    var entered, after := Enter(b, c, insideLine), inner.builder;
    var broken := if BreaksLine(c, insideLine) then BreakLine(after, 1) else after;
    if BreaksLine(c, insideLine) {
      BreakGrows(after, 1);
      GrowsTransitive(entered, after, broken);
      SpansStay(inner.spans, entered, after, broken);
    }
    if IsMarked(c) {
      CloseMark(b, entered, broken, inner.spans, c.name);
    } else {
      GrowsTransitive(b, entered, broken);
      SpansFromEarlier(inner.spans, b, entered, broken);
    }
  }

  /** Whatever is walked from a sound builder: marks close in order, the text grows and stays
      clean, and the recorded spans nest. */
  lemma {:induction false} WalkIsSound(e: Element, b: Builder, insideLine: bool, depth: nat)
    requires IsGood(b)
    ensures IsSoundWalk(WalkElement(e, b, insideLine, depth), b)
    decreases e, 1
  {
    if depth <= MAX_DOCUMENT_DEPTH {
      var started := AddText(b, e.text, insideLine);
      AddTextGrows(b, e.text, insideLine);
      NodesAreSound(e.children, started, insideLine, depth);
      var w := WalkNodes(e.children, started, insideLine, depth);
      if w.Walked? {
        GrowsTransitive(b, started, w.builder);
        SpansFromEarlier(w.spans, b, started, w.builder);
      }
    }
  }

  lemma {:induction false} ChildIsSound(c: Element, b: Builder, insideLine: bool, depth: nat)
    requires IsGood(b)
    ensures IsSoundWalk(WalkChild(c, b, insideLine, depth), b)
    decreases c, 2
  {
    var entered := Enter(b, c, insideLine);
    EnterGrows(b, c, insideLine);
    WalkIsSound(c, entered, insideLine || BreaksLine(c, insideLine), depth + 1);
    var inner := WalkElement(c, entered, insideLine || BreaksLine(c, insideLine), depth + 1);
    if inner.Walked? {
      LeaveSound(b, c, insideLine, inner);
      var left := Leave(inner, c, insideLine, b.begun);
      AddTextGrows(left.builder, c.tail, insideLine);
      var after := AddText(left.builder, c.tail, insideLine);
      GrowsTransitive(b, left.builder, after);
      SpansStay(left.spans, b, left.builder, after);
    }
  }

  lemma {:induction false} NodesAreSound(nodes: Nodes, b: Builder, insideLine: bool, depth: nat)
    requires IsGood(b)
    ensures IsSoundWalk(WalkNodes(nodes, b, insideLine, depth), b)
    decreases nodes, 0
  {
    if nodes.Node? {
      ChildIsSound(nodes.first, b, insideLine, depth);
      var one := WalkChild(nodes.first, b, insideLine, depth);
      if one.Walked? {
        NodesAreSound(nodes.rest, one.builder, insideLine, depth);
        var rest := WalkNodes(nodes.rest, one.builder, insideLine, depth);
        if rest.Walked? {
          GrowsTransitive(b, one.builder, rest.builder);
          NestAppend(one.spans, rest.spans, b, one.builder, rest.builder);
          SpansStay(one.spans, b, one.builder, rest.builder);
          SpansFromEarlier(rest.spans, b, one.builder, rest.builder);
        }
      }
    }
  }

  // --- depth -----------------------------------------------------------------------------------------------

  /** How many levels of elements lie below `e`. */
  function Height(e: Element): nat
    decreases e, 1
  {
    NodesHeight(e.children)
  }

  function NodesHeight(nodes: Nodes): nat
    decreases nodes, 0
  {
    match nodes
    case End => 0
    case Node(c, rest) => Max(Height(c) + 1, NodesHeight(rest))
  }

  /** The walk is refused exactly when the subtree reaches past the depth bound. */
  lemma {:induction false} RefusedIffTooDeep(e: Element, b: Builder, insideLine: bool, depth: nat)
    requires IsGood(b)
    ensures WalkElement(e, b, insideLine, depth).Failed? <==> depth + Height(e) > 256
    decreases e, 1
  {
    if depth <= MAX_DOCUMENT_DEPTH {
      AddTextGrows(b, e.text, insideLine);
      NodesRefused(e.children, AddText(b, e.text, insideLine), insideLine, depth);
    }
  }

  /** A child is refused exactly when its subtree is: its own mark always closes. */
  lemma {:induction false} ChildRefused(c: Element, b: Builder, insideLine: bool, depth: nat)
    requires IsGood(b)
    ensures WalkChild(c, b, insideLine, depth).Failed?
       <==> WalkElement(c, Enter(b, c, insideLine), insideLine || BreaksLine(c, insideLine), depth + 1).Failed?
  {
    var inside := insideLine || BreaksLine(c, insideLine);
    EnterGrows(b, c, insideLine);
    WalkIsSound(c, Enter(b, c, insideLine), inside, depth + 1);
    var inner := WalkElement(c, Enter(b, c, insideLine), inside, depth + 1);
    if inner.Walked? { LeaveSound(b, c, insideLine, inner); }
  }

  lemma {:induction false} NodesRefused(nodes: Nodes, b: Builder, insideLine: bool, depth: nat)
    requires IsGood(b) && depth <= MAX_DOCUMENT_DEPTH
    ensures WalkNodes(nodes, b, insideLine, depth).Failed? <==> depth + NodesHeight(nodes) > MAX_DOCUMENT_DEPTH
    decreases nodes, 0
  {
    if nodes.Node? {
      var c := nodes.first;
      var entered, inside := Enter(b, c, insideLine), insideLine || BreaksLine(c, insideLine);
      EnterGrows(b, c, insideLine);
      RefusedIffTooDeep(c, entered, inside, depth + 1);
      ChildRefused(c, b, insideLine, depth);
      ChildIsSound(c, b, insideLine, depth);
      var one := WalkChild(c, b, insideLine, depth);
      if one.Walked? { NodesRefused(nodes.rest, one.builder, insideLine, depth); }
    }
  }

  // --- lines -----------------------------------------------------------------------------------------------

  /** The lines of a node list that are in no other line. */
  function OuterLines(nodes: Nodes): nat {
    match nodes
    case End => 0
    case Node(c, rest) => (if c.name == "Line" then 1 else OuterLines(c.children)) + OuterLines(rest)
  }

  /** A walk counts the lines that are in no other; inside a line there are none. */
  lemma {:induction false} CountsOuterLines(e: Element, b: Builder, insideLine: bool, depth: nat)
    ensures var w := WalkElement(e, b, insideLine, depth);
            w.Walked? ==> w.lines == if insideLine then 0 else OuterLines(e.children)
    decreases e, 1
  {
    NodesCountLines(e.children, AddText(b, e.text, insideLine), insideLine, depth);
  }

  lemma {:induction false} NodesCountLines(nodes: Nodes, b: Builder, insideLine: bool, depth: nat)
    ensures var w := WalkNodes(nodes, b, insideLine, depth);
            w.Walked? ==> w.lines == if insideLine then 0 else OuterLines(nodes)
    decreases nodes, 0
  {
    if nodes.Node? {
      var c := nodes.first;
      CountsOuterLines(c, Enter(b, c, insideLine), insideLine || BreaksLine(c, insideLine), depth + 1);
      var one := WalkChild(c, b, insideLine, depth);
      if one.Walked? { NodesCountLines(nodes.rest, one.builder, insideLine, depth); }
    }
  }
}
