/** Each recorded span holds exactly what its subtree alone would flatten to: a simulation
    between the document's builder and a fresh one. */
module FlattenAlone {
  import opened Options
  import opened FlatText
  import opened Flatten
  import opened FlattenShape

  /** `s` has walked on from the text `base` with its mark `at` open, and `f` has walked the
      same from nothing: before any character is written neither has text of its own, and
      from the first on both hold it, the document's behind its base and separator. When `owed`
      is not zero, so many newlines are owed where the mark opens, and so many are written. */
  ghost predicate Simulates(s: Builder, f: Builder, at: nat, base: string, owed: nat) {
    && |s.marks| == at + 1 + |f.marks|
    && base <= s.text && f.breaks <= 1
    && match s.marks[at].start
       case None =>
         && s.text == base && f.text == "" && f.breaks == 0 && !f.space
         && (owed > 0 ==> base == "" || s.breaks == owed)
       case Some(p) =>
         && |base| <= p <= |s.text| && s.text[p..] == f.text && f.text != ""
         && s.breaks == f.breaks && s.space == f.space
         && (owed > 0 ==> s.text[|base|..p] == Owed(base, owed))
  }

  /** What is written between a text and a section behind it. */
  function Owed(base: string, owed: nat): string {
    if base == "" then "" else Newlines(owed)
  }

  lemma NewParts(a: string, separator: string, run: string)
    ensures (a + separator + run)[|a + separator|..] == run
    ensures (a + separator + run)[|a|..|a + separator|] == separator
  {
  }

  lemma LaterParts(a: string, separator: string, run: string, n: nat, p: nat)
    requires n <= p <= |a|
    ensures (a + separator + run)[p..] == a[p..] + separator + run
    ensures (a + separator + run)[n..p] == a[n..p]
  {
  }

  /** The first run written under the mark. */
  lemma {:induction false} SimulateFirst(s: Builder, f: Builder, at: nat, base: string, owed: nat, run: string)
    requires |s.marks| == at + 1 + |f.marks| && s.marks[at].start == None && s.text == base && f.text == ""
    requires IsRun(run) && (owed > 0 ==> base == "" || s.breaks == owed)
    ensures Simulates(Put(s, run), Put(f, run), at, base, owed)
  {
    NewParts(base, Separator(s), run);
    assert Put(f, run).text == run;
  }

  /** One run more, once both hold some text. */
  lemma {:induction false} SimulateNext(s: Builder, f: Builder, at: nat, base: string, owed: nat, run: string)
    requires Simulates(s, f, at, base, owed) && s.marks[at].start.Some? && IsRun(run)
    ensures Simulates(Put(s, run), Put(f, run), at, base, owed)
  {
    LaterParts(s.text, Separator(s), run, |base|, s.marks[at].start.value);
  }

  lemma {:induction false} SimulatePut(
      s: Builder, f: Builder, at: nat, base: string, owed: nat, run: string, spaced: bool)
    requires Simulates(s, f, at, base, owed) && IsRun(run)
    ensures Simulates(Put(if spaced then s.(space := true) else s, run),
              Put(if spaced then f.(space := true) else f, run), at, base, owed)
  {
    var s0, f0 := if spaced then s.(space := true) else s, if spaced then f.(space := true) else f;
    if s.marks[at].start == None {
      SimulateFirst(s0, f0, at, base, owed, run);
    } else {
      SimulateNext(s0, f0, at, base, owed, run);
    }
  }

  lemma {:induction false} SimulatePutFrom(
      s: Builder, f: Builder, at: nat, base: string, owed: nat, runs: seq<string>, i: nat)
    requires Simulates(s, f, at, base, owed) && 0 < i <= |runs| && forall k :: 0 <= k < |runs| ==> IsRun(runs[k])
    ensures Simulates(PutFrom(s, runs, i), PutFrom(f, runs, i), at, base, owed)
    ensures s.marks[at].start.Some? ==> PutFrom(s, runs, i).marks[at].start.Some?
    decreases |runs| - i
  {
    if i < |runs| {
      SimulatePut(s, f, at, base, owed, runs[i], true);
      SimulatePutFrom(Put(s.(space := true), runs[i]), Put(f.(space := true), runs[i]), at, base, owed, runs, i + 1);
    }
  }

  lemma {:induction false} SimulateAdd(s: Builder, f: Builder, at: nat, base: string, owed: nat, t: string)
    requires Simulates(s, f, at, base, owed)
    ensures Simulates(Add(s, t), Add(f, t), at, base, owed)
  {
    if !IsBlank(t) {
      var runs, led := Runs(t), IsBlankChar(t[0]);
      SimulatePut(s, f, at, base, owed, runs[0], led);
      var s0, f0 := if led then s.(space := true) else s, if led then f.(space := true) else f;
      SimulatePutFrom(Put(s0, runs[0]), Put(f0, runs[0]), at, base, owed, runs, 1);
      assert PutFrom(s0, runs, 0) == PutFrom(Put(s0, runs[0]), runs, 1);
      assert PutFrom(f0, runs, 0) == PutFrom(Put(f0, runs[0]), runs, 1);
    }
  }

  lemma {:induction false} SimulateBreak(s: Builder, f: Builder, at: nat, base: string, owed: nat, count: nat)
    requires Simulates(s, f, at, base, owed) && count <= 1
    ensures Simulates(BreakLine(s, count), BreakLine(f, count), at, base, owed)
  {
  }

  lemma {:induction false} SimulateAddText(
      s: Builder, f: Builder, at: nat, base: string, owed: nat, t: string, insideLine: bool)
    requires Simulates(s, f, at, base, owed)
    ensures Simulates(AddText(s, t, insideLine), AddText(f, t, insideLine), at, base, owed)
  {
    if |t| > 0 && insideLine {
      SimulateAdd(s, f, at, base, owed, t);
    } else if |t| > 0 && !IsBlank(t) {
      SimulateBreak(s, f, at, base, owed, 1);
      SimulateAdd(BreakLine(s, 1), BreakLine(f, 1), at, base, owed, t);
      SimulateBreak(Add(BreakLine(s, 1), t), Add(BreakLine(f, 1), t), at, base, owed, 1);
    }
  }

  lemma {:induction false} SimulateEnter(
      s: Builder, f: Builder, at: nat, base: string, owed: nat, c: Element, insideLine: bool)
    requires Simulates(s, f, at, base, owed)
    ensures Simulates(Enter(s, c, insideLine), Enter(f, c, insideLine), at, base, owed)
  {
  }

  /** Two walks of one subtree, one from the document's builder and one from the fresh one. */
  ghost predicate WalksAlike(s: Walked, f: Walked, at: nat, base: string, owed: nat) {
    match (s, f)
    case (Walked(sb, _, sl), Walked(fb, _, fl)) => Simulates(sb, fb, at, base, owed) && sl == fl
    case (Failed(se), Failed(fe)) => se == fe
    case _ => false
  }

  /** What leaving a child comes to: its line broken, and its own mark, the last one, closed. */
  lemma {:induction false} LeaveIs(b: Builder, c: Element, insideLine: bool, inner: Walked)
    requires IsGood(b) && inner.Walked? && IsSoundWalk(inner, Enter(b, c, insideLine))
    ensures var left := Leave(inner, c, insideLine, b.begun);
            var broken := if BreaksLine(c, insideLine) then BreakLine(inner.builder, 1) else inner.builder;
            && left.Walked? && left.lines == inner.lines + (if BreaksLine(c, insideLine) then 1 else 0)
            && (IsMarked(c) ==> |broken.marks| == |b.marks| + 1)
            && left.builder == if IsMarked(c) then broken.(marks := broken.marks[..|b.marks|]) else broken
  {
    LeaveSound(b, c, insideLine, inner);
    EnterGrows(b, c, insideLine);
  }

  /** Closing the last mark of both, which is not the one compared from, keeps them alike. */
  lemma {:induction false} SimulateClose(s: Builder, f: Builder, at: nat, base: string, owed: nat)
    requires Simulates(s, f, at, base, owed) && |f.marks| > 0
    ensures Simulates(s.(marks := s.marks[..|s.marks| - 1]), f.(marks := f.marks[..|f.marks| - 1]), at, base, owed)
  {
  }

  /** Leaving a child closes the mark it opened in both builders. */
  lemma {:induction false} SimulateLeave(
      s: Builder, f: Builder, at: nat, base: string, owed: nat, c: Element, insideLine: bool, ws: Walked,
      wf: Walked)
    requires IsGood(s) && IsGood(f) && Simulates(s, f, at, base, owed)
    requires ws.Walked? && wf.Walked? && WalksAlike(ws, wf, at, base, owed)
    requires IsSoundWalk(ws, Enter(s, c, insideLine)) && IsSoundWalk(wf, Enter(f, c, insideLine))
    ensures WalksAlike(Leave(ws, c, insideLine, s.begun), Leave(wf, c, insideLine, f.begun), at, base, owed)
  {
    LeaveIs(s, c, insideLine, ws);
    LeaveIs(f, c, insideLine, wf);
    SimulateBreak(ws.builder, wf.builder, at, base, owed, 1);
    if IsMarked(c) {
      var bs := if BreaksLine(c, insideLine) then BreakLine(ws.builder, 1) else ws.builder;
      var bf := if BreaksLine(c, insideLine) then BreakLine(wf.builder, 1) else wf.builder;
      SimulateClose(bs, bf, at, base, owed);
    }
  }

  lemma {:induction false} SimulateElement(
      e: Element, s: Builder, f: Builder, at: nat, base: string, owed: nat, insideLine: bool, depth: nat)
    requires IsGood(s) && IsGood(f) && Simulates(s, f, at, base, owed)
    ensures WalksAlike(WalkElement(e, s, insideLine, depth), WalkElement(e, f, insideLine, depth), at, base, owed)
    decreases e, 1
  {
    SimulateAddText(s, f, at, base, owed, e.text, insideLine);
    AddTextGrows(s, e.text, insideLine);
    AddTextGrows(f, e.text, insideLine);
    SimulateNodes(e.children, AddText(s, e.text, insideLine), AddText(f, e.text, insideLine), at, base, owed,
      insideLine, depth);
  }

  lemma {:induction false} SimulateChild(
      c: Element, s: Builder, f: Builder, at: nat, base: string, owed: nat, insideLine: bool, depth: nat)
    requires IsGood(s) && IsGood(f) && Simulates(s, f, at, base, owed)
    ensures WalksAlike(WalkChild(c, s, insideLine, depth), WalkChild(c, f, insideLine, depth), at, base, owed)
    decreases c, 2
  {
    var es, ef, inside := Enter(s, c, insideLine), Enter(f, c, insideLine), insideLine || BreaksLine(c, insideLine);
    SimulateEnter(s, f, at, base, owed, c, insideLine);
    EnterGrows(s, c, insideLine);
    EnterGrows(f, c, insideLine);
    SimulateElement(c, es, ef, at, base, owed, inside, depth + 1);
    WalkIsSound(c, es, inside, depth + 1);
    WalkIsSound(c, ef, inside, depth + 1);
    var ws, wf := WalkElement(c, es, inside, depth + 1), WalkElement(c, ef, inside, depth + 1);
    if ws.Walked? {
      SimulateLeave(s, f, at, base, owed, c, insideLine, ws, wf);
      LeaveSound(s, c, insideLine, ws);
      LeaveSound(f, c, insideLine, wf);
      SimulateAddText(Leave(ws, c, insideLine, s.begun).builder, Leave(wf, c, insideLine, f.begun).builder, at,
        base, owed, c.tail, insideLine);
    }
  }

  lemma {:induction false} SimulateNodes(
      nodes: Nodes, s: Builder, f: Builder, at: nat, base: string, owed: nat, insideLine: bool, depth: nat)
    requires IsGood(s) && IsGood(f) && Simulates(s, f, at, base, owed)
    ensures WalksAlike(WalkNodes(nodes, s, insideLine, depth), WalkNodes(nodes, f, insideLine, depth), at, base, owed)
    decreases nodes, 0
  {
    if nodes.Node? {
      SimulateChild(nodes.first, s, f, at, base, owed, insideLine, depth);
      ChildIsSound(nodes.first, s, insideLine, depth);
      ChildIsSound(nodes.first, f, insideLine, depth);
      var os, of := WalkChild(nodes.first, s, insideLine, depth), WalkChild(nodes.first, f, insideLine, depth);
      if os.Walked? {
        SimulateNodes(nodes.rest, os.builder, of.builder, at, base, owed, insideLine, depth);
      }
    }
  }

  // --- the span of one subtree ------------------------------------------------------------------------

  /** The text `e` flattens to by itself. */
  function Alone(e: Element, insideLine: bool, depth: nat): Option<string> {
    match WalkElement(e, FRESH, insideLine, depth)
    case Failed(_) => None
    case Walked(b, _, _) => Some(b.text)
  }

  /** A subtree walked under a new mark, from any sound builder with any separator pending:
      the span its mark closes with holds exactly what the subtree alone flattens to. */
  lemma {:induction false} SpanIsAlone(e: Element, b: Builder, insideLine: bool, depth: nat)
    requires IsGood(b)
    ensures var w := WalkElement(e, BeginMark(b), insideLine, depth);
            w.Walked? <==> Alone(e, insideLine, depth).Some?
    ensures var w := WalkElement(e, BeginMark(b), insideLine, depth);
            w.Walked? ==>
              var closed := EndMark(w.builder, b.begun);
              closed.Some? && var (after, start, end) := closed.value;
              start <= end <= |after.text| && after.text == w.builder.text
              && after.text[start..end] == Alone(e, insideLine, depth).value
  {
    var s := BeginMark(b);
    BeginGood(b);
    SimulateElement(e, s, FRESH, |b.marks|, b.text, 0, insideLine, depth);
    WalkIsSound(e, s, insideLine, depth);
    var w := WalkElement(e, s, insideLine, depth);
    if w.Walked? {
      assert MarkGrows(s.marks[|b.marks|], w.builder.marks[|b.marks|], |s.text|, |w.builder.text|);
      CloseMark(b, s, w.builder, w.spans, "");
    }
  }

  // --- every marked element of a walk --------------------------------------------------------------------

  /** A marked element, with the line context its subtree is walked in. */
  datatype Marked = Marked(element: Element, insideLine: bool, depth: nat)

  /** The marked elements of a subtree, in the order their marks close. */
  function MarkedIn(e: Element, insideLine: bool, depth: nat): seq<Marked>
    decreases e, 1
  {
    MarkedInNodes(e.children, insideLine, depth)
  }

  function MarkedInChild(c: Element, insideLine: bool, depth: nat): seq<Marked>
    decreases c, 2
  {
    MarkedIn(c, insideLine || BreaksLine(c, insideLine), depth + 1)
    + if IsMarked(c) then [Marked(c, insideLine || BreaksLine(c, insideLine), depth + 1)] else []
  }

  function MarkedInNodes(nodes: Nodes, insideLine: bool, depth: nat): seq<Marked>
    decreases nodes, 0
  {
    match nodes
    case End => []
    case Node(c, rest) => MarkedInChild(c, insideLine, depth) + MarkedInNodes(rest, insideLine, depth)
  }

  /** Span `x` names `m`'s element and holds its own text. */
  ghost predicate Holds(x: Span, m: Marked, text: string) {
    && x.kind == m.element.name && x.start <= x.end <= |text|
    && Alone(m.element, m.insideLine, m.depth) == Some(text[x.start..x.end])
  }

  ghost predicate AllHold(spans: seq<Span>, marked: seq<Marked>, text: string) {
    |spans| == |marked| && forall i :: 0 <= i < |spans| ==> Holds(spans[i], marked[i], text)
  }

  lemma {:induction false} HoldsLater(spans: seq<Span>, marked: seq<Marked>, text: string, later: string)
    requires AllHold(spans, marked, text) && text <= later
    ensures AllHold(spans, marked, later)
  {
    forall i | 0 <= i < |spans|
      ensures Holds(spans[i], marked[i], later)
    {
      assert Holds(spans[i], marked[i], text);
      assert later[spans[i].start..spans[i].end] == text[spans[i].start..spans[i].end];
    }
  }

  lemma {:induction false} ElementSpansHold(e: Element, b: Builder, insideLine: bool, depth: nat)
    requires IsGood(b)
    ensures var w := WalkElement(e, b, insideLine, depth);
            w.Walked? ==> AllHold(w.spans, MarkedIn(e, insideLine, depth), w.builder.text)
    decreases e, 1
  {
    AddTextGrows(b, e.text, insideLine);
    NodesSpansHold(e.children, AddText(b, e.text, insideLine), insideLine, depth);
  }

  /** Closing a marked child adds its span, which holds its own text. */
  lemma {:induction false} LeaveSpansHold(c: Element, b: Builder, insideLine: bool, depth: nat)
    requires IsGood(b)
    requires var inside := insideLine || BreaksLine(c, insideLine);
             var inner := WalkElement(c, Enter(b, c, insideLine), inside, depth + 1);
             inner.Walked? && AllHold(inner.spans, MarkedIn(c, inside, depth + 1), inner.builder.text)
             && IsSoundWalk(inner, Enter(b, c, insideLine))
    ensures var inner := WalkElement(c, Enter(b, c, insideLine), insideLine || BreaksLine(c, insideLine), depth + 1);
            var left := Leave(inner, c, insideLine, b.begun);
            left.Walked? && AllHold(left.spans, MarkedInChild(c, insideLine, depth), left.builder.text)
  {
    var inside := insideLine || BreaksLine(c, insideLine);
    var inner := WalkElement(c, Enter(b, c, insideLine), inside, depth + 1);
    LeaveSound(b, c, insideLine, inner);
    if IsMarked(c) {
      assert c.name != "Line";
      SpanIsAlone(c, b, inside, depth + 1);
    }
  }

  lemma {:induction false} ChildSpansHold(c: Element, b: Builder, insideLine: bool, depth: nat)
    requires IsGood(b)
    ensures var w := WalkChild(c, b, insideLine, depth);
            w.Walked? ==> AllHold(w.spans, MarkedInChild(c, insideLine, depth), w.builder.text)
    decreases c, 2
  {
    var entered, inside := Enter(b, c, insideLine), insideLine || BreaksLine(c, insideLine);
    EnterGrows(b, c, insideLine);
    ElementSpansHold(c, entered, inside, depth + 1);
    WalkIsSound(c, entered, inside, depth + 1);
    var inner := WalkElement(c, entered, inside, depth + 1);
    if inner.Walked? {
      LeaveSound(b, c, insideLine, inner);
      LeaveSpansHold(c, b, insideLine, depth);
      var left := Leave(inner, c, insideLine, b.begun);
      AddTextGrows(left.builder, c.tail, insideLine);
      HoldsLater(left.spans, MarkedInChild(c, insideLine, depth), left.builder.text,
        AddText(left.builder, c.tail, insideLine).text);
    }
  }

  lemma {:induction false} NodesSpansHold(nodes: Nodes, b: Builder, insideLine: bool, depth: nat)
    requires IsGood(b)
    ensures var w := WalkNodes(nodes, b, insideLine, depth);
            w.Walked? ==> AllHold(w.spans, MarkedInNodes(nodes, insideLine, depth), w.builder.text)
    decreases nodes, 0
  {
    if nodes.Node? {
      ChildSpansHold(nodes.first, b, insideLine, depth);
      ChildIsSound(nodes.first, b, insideLine, depth);
      var one := WalkChild(nodes.first, b, insideLine, depth);
      if one.Walked? {
        NodesSpansHold(nodes.rest, one.builder, insideLine, depth);
        NodesAreSound(nodes.rest, one.builder, insideLine, depth);
        var rest := WalkNodes(nodes.rest, one.builder, insideLine, depth);
        if rest.Walked? {
          HoldsLater(one.spans, MarkedInChild(nodes.first, insideLine, depth), one.builder.text, rest.builder.text);
        }
      }
    }
  }
}
