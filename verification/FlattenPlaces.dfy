/** Where a marked span stands: behind exactly the characters before its element. */
module FlattenPlaces {
  import opened Options
  import opened FlatText
  import opened Flatten
  import opened FlattenShape
  import opened FlattenAlone
  import opened FlattenContent

  /** For each marked element below `e`, in the order their marks close, the characters before it,
      `before` those of the whole text before `e`. */
  function BeforesIn(e: Element, before: string): seq<string>
    decreases e, 1
  {
    BeforesInNodes(e.children, before + NonBlank(e.text))
  }

  function BeforesInChild(c: Element, before: string): seq<string>
    decreases c, 2
  {
    BeforesIn(c, before) + if IsMarked(c) then [before] else []
  }

  function BeforesInNodes(nodes: Nodes, before: string): seq<string>
    decreases nodes, 0
  {
    match nodes
    case End => []
    case Node(c, rest) => BeforesInChild(c, before) + BeforesInNodes(rest, before + NonBlank(TextOf(c) + c.tail))
  }

  /** The span starts behind exactly these characters: at one of its own if it has any, and right
      behind the last of them if it has none. */
  ghost predicate Stands(x: Span, before: string, text: string) {
    && x.start <= x.end <= |text| && NonBlank(text[..x.start]) == before
    && (if x.start == x.end then EndsInRun(text[..x.start]) else !IsBlankChar(text[x.start]))
  }

  /** Each span of a walk stands behind what was there at first and what the walk put before it. */
  ghost predicate AllStand(spans: seq<Span>, base: string, befores: seq<string>, text: string) {
    |spans| == |befores| && forall i :: 0 <= i < |spans| ==> Stands(spans[i], base + befores[i], text)
  }

  lemma StandsLater(x: Span, before: string, text: string, later: string)
    requires Stands(x, before, text) && text <= later
    ensures Stands(x, before, later)
  {
    assert later[..x.start] == text[..x.start];
  }

  lemma {:induction false} AllStandLater(
    spans: seq<Span>, base: string, befores: seq<string>, text: string, later: string)
    requires AllStand(spans, base, befores, text) && text <= later
    ensures AllStand(spans, base, befores, later)
  {
    forall i | 0 <= i < |spans|
      ensures Stands(spans[i], base + befores[i], later)
    {
      StandsLater(spans[i], base + befores[i], text, later);
    }
  }

  lemma SameBefore(x: string, z: string, y: string)
    requires x + y == z + y
    ensures x == z
  {
    assert |x| == |z|;
    assert x == (x + y)[..|x|] && z == (z + y)[..|z|];
  }

  lemma CleanEnds(text: string)
    requires IsClean(text)
    ensures EndsInRun(text) && (text != "" ==> !IsBlankChar(text[0]))
  {
    if text != "" { assert IsCleanAt(text, |text| - 1) && IsCleanAt(text, 0); }
  }

  /** A text that ends with what an element adds: what stands before it was there at first. */
  lemma BeforeWhatIsAdded(text: string, start: nat, base: string, own: string)
    requires start <= |text| && NonBlank(text) == base + NonBlank(own) && NonBlank(text[start..]) == NonBlank(own)
    ensures NonBlank(text[..start]) == base
  {
    assert text == text[..start] + text[start..];
    NonBlankJoin(text[..start], text[start..]);
    SameBefore(NonBlank(text[..start]), base, NonBlank(own));
  }

  /** The span a mark closes with stands behind what was written before it opened. */
  lemma {:induction false} ClosingStands(e: Element, b: Builder, insideLine: bool, depth: nat)
    requires IsGood(b)
    ensures var w := WalkElement(e, BeginMark(b), insideLine, depth);
            w.Walked? ==>
              var closed := EndMark(w.builder, b.begun);
              closed.Some? && var (after, start, end) := closed.value;
              start <= end && Stands(Span(e.name, start, end), NonBlank(b.text), after.text)
  {
    SpanIsAlone(e, b, insideLine, depth);
    BeginGood(b);
    WalkIsSound(e, BeginMark(b), insideLine, depth);
    WalkIsSound(e, FRESH, insideLine, depth);
    var w := WalkElement(e, BeginMark(b), insideLine, depth);
    if w.Walked? {
      ElementContent(e, BeginMark(b), insideLine, depth);
      ElementContent(e, FRESH, insideLine, depth);
      var (after, start, end) := EndMark(w.builder, b.begun).value;
      assert after.text[start..] == after.text[start..end];
      assert NonBlank(FRESH.text) + NonBlank(TextOf(e)) == NonBlank(TextOf(e));
      OwnText(after.text, start, NonBlank(b.text), TextOf(e));
    }
  }

  lemma OwnText(text: string, start: nat, base: string, all: string)
    requires start <= |text| && IsClean(text) && IsClean(text[start..])
    requires NonBlank(text) == base + NonBlank(all) && NonBlank(text[start..]) == NonBlank(all)
    ensures Stands(Span("", start, |text|), base, text)
  {
    BeforeWhatIsAdded(text, start, base, all);
    StartsOrEnds(text, start);
  }

  /** A clean text from which on another starts: at a character, or right behind the last. */
  lemma StartsOrEnds(text: string, start: nat)
    requires start <= |text| && IsClean(text) && IsClean(text[start..])
    ensures if start == |text| then EndsInRun(text[..start]) else !IsBlankChar(text[start])
  {
    CleanEnds(text);
    CleanEnds(text[start..]);
    if start == |text| { assert text[..start] == text; } else { assert text[start..][0] == text[start]; }
  }

  lemma {:induction false} ElementPlaces(
    e: Element, b: Builder, base: string, before: string, insideLine: bool, depth: nat)
    requires IsGood(b) && NonBlank(b.text) == base + before
    ensures var w := WalkElement(e, b, insideLine, depth);
            w.Walked? ==> AllStand(w.spans, base, BeforesIn(e, before), w.builder.text)
    decreases e, 1
  {
    AddTextGrows(b, e.text, insideLine);
    AddTextContent(b, e.text, insideLine);
    Regroup(base, before, NonBlank(e.text));
    NodesPlaces(e.children, AddText(b, e.text, insideLine), base, before + NonBlank(e.text), insideLine, depth);
  }

  /** Leaving a child adds the span its mark closes with. */
  lemma {:induction false} LeavePlaces(
    c: Element, b: Builder, base: string, before: string, insideLine: bool, depth: nat)
    requires IsGood(b) && NonBlank(b.text) == base + before
    requires var inner := WalkElement(c, Enter(b, c, insideLine), insideLine || BreaksLine(c, insideLine), depth + 1);
             && inner.Walked? && IsSoundWalk(inner, Enter(b, c, insideLine))
             && AllStand(inner.spans, base, BeforesIn(c, before), inner.builder.text)
    ensures var inner := WalkElement(c, Enter(b, c, insideLine), insideLine || BreaksLine(c, insideLine), depth + 1);
            var left := Leave(inner, c, insideLine, b.begun);
            left.Walked? && AllStand(left.spans, base, BeforesInChild(c, before), left.builder.text)
  {
    var inside := insideLine || BreaksLine(c, insideLine);
    var inner := WalkElement(c, Enter(b, c, insideLine), inside, depth + 1);
    LeaveSound(b, c, insideLine, inner);
    if IsMarked(c) {
      assert c.name != "Line";
      ClosingStands(c, b, inside, depth + 1);
    }
  }

  lemma {:induction false} ChildPlaces(
    c: Element, b: Builder, base: string, before: string, insideLine: bool, depth: nat)
    requires IsGood(b) && NonBlank(b.text) == base + before
    ensures var w := WalkChild(c, b, insideLine, depth);
            w.Walked? ==> AllStand(w.spans, base, BeforesInChild(c, before), w.builder.text)
    decreases c, 2
  {
    var inside := insideLine || BreaksLine(c, insideLine);
    EnterGrows(b, c, insideLine);
    ElementPlaces(c, Enter(b, c, insideLine), base, before, inside, depth + 1);
    WalkIsSound(c, Enter(b, c, insideLine), inside, depth + 1);
    var inner := WalkElement(c, Enter(b, c, insideLine), inside, depth + 1);
    if inner.Walked? {
      LeavePlaces(c, b, base, before, insideLine, depth);
      LeaveSound(b, c, insideLine, inner);
      var left := Leave(inner, c, insideLine, b.begun);
      AddTextGrows(left.builder, c.tail, insideLine);
      AllStandLater(left.spans, base, BeforesInChild(c, before), left.builder.text,
        AddText(left.builder, c.tail, insideLine).text);
    }
  }

  lemma AllStandJoin(x: seq<Span>, y: seq<Span>, base: string, p: seq<string>, q: seq<string>, text: string)
    requires AllStand(x, base, p, text) && AllStand(y, base, q, text)
    ensures AllStand(x + y, base, p + q, text)
  {
  }

  lemma {:induction false} NodesPlaces(
    nodes: Nodes, b: Builder, base: string, before: string, insideLine: bool, depth: nat)
    requires IsGood(b) && NonBlank(b.text) == base + before
    ensures var w := WalkNodes(nodes, b, insideLine, depth);
            w.Walked? ==> AllStand(w.spans, base, BeforesInNodes(nodes, before), w.builder.text)
    decreases nodes, 0
  {
    if nodes.Node? {
      var c := nodes.first;
      ChildPlaces(c, b, base, before, insideLine, depth);
      ChildContent(c, b, insideLine, depth);
      ChildIsSound(c, b, insideLine, depth);
      var one := WalkChild(c, b, insideLine, depth);
      if one.Walked? {
        var own := NonBlank(TextOf(c) + c.tail);
        Regroup(base, before, own);
        NodesPlaces(nodes.rest, one.builder, base, before + own, insideLine, depth);
        NodesAreSound(nodes.rest, one.builder, insideLine, depth);
        var rest := WalkNodes(nodes.rest, one.builder, insideLine, depth);
        if rest.Walked? {
          AllStandLater(one.spans, base, BeforesInChild(c, before), one.builder.text, rest.builder.text);
          AllStandJoin(one.spans, rest.spans, base, BeforesInChild(c, before),
            BeforesInNodes(nodes.rest, before + own), rest.builder.text);
        }
      }
    }
  }
}
