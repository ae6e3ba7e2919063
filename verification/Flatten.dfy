/** Walking one subtree of a document into the builder. */
module Flatten {
  import opened Options
  import opened FlatText

  datatype Element = Element(name: string, text: string, children: Nodes, tail: string)
  datatype Nodes = End | Node(first: Element, rest: Nodes)

  const MARKED_SPAN_KINDS: set<string> := {"Addition", "Deletion", "Illegible", "Gap", "InterlinearNote", "Description"}
  const MAX_DOCUMENT_DEPTH: nat := 256

  datatype Span = Span(kind: string, start: nat, end: nat)
  datatype Error = DocumentTooDeep | ClosedOutOfOrder

  datatype Walked = Walked(builder: Builder, spans: seq<Span>, lines: nat) | Failed(error: Error)

  function IsMarked(c: Element): bool {
    c.name in MARKED_SPAN_KINDS
  }

  /** A line inside a line continues it. */
  function BreaksLine(c: Element, insideLine: bool): bool {
    c.name == "Line" && !insideLine
  }

  /** The builder as a child's subtree finds it. */
  function Enter(b: Builder, c: Element, insideLine: bool): Builder {
    var marked := if IsMarked(c) then BeginMark(b) else b;
    if BreaksLine(c, insideLine) then BreakLine(marked, 1) else marked
  }

  /** What a child leaves once its subtree is walked: its line closed and its span recorded. */
  function Leave(w: Walked, c: Element, insideLine: bool, serial: nat): Walked
    requires w.Walked?
  {
    var broken := if BreaksLine(c, insideLine) then BreakLine(w.builder, 1) else w.builder;
    var lines := if BreaksLine(c, insideLine) then w.lines + 1 else w.lines;
    if IsMarked(c) then
      match EndMark(broken, serial)
      case None => Failed(ClosedOutOfOrder)
      case Some((closed, start, end)) => Walked(closed, w.spans + [Span(c.name, start, end)], lines)
    else Walked(broken, w.spans, lines)
  }

  function WalkElement(e: Element, b: Builder, insideLine: bool, depth: nat): Walked
    decreases e, 1
  {
    if depth > MAX_DOCUMENT_DEPTH then Failed(DocumentTooDeep)
    else WalkNodes(e.children, AddText(b, e.text, insideLine), insideLine, depth)
  }

  /** One child, its subtree and its tail. */
  function WalkChild(c: Element, b: Builder, insideLine: bool, depth: nat): Walked
    decreases c, 2
  {
    var inner := WalkElement(c, Enter(b, c, insideLine), insideLine || BreaksLine(c, insideLine), depth + 1);
    if inner.Failed? then inner
    else
      var left := Leave(inner, c, insideLine, b.begun);
      if left.Failed? then left
      else left.(builder := AddText(left.builder, c.tail, insideLine))
  }

  function Then(a: Walked, b: Walked): Walked
    requires a.Walked?
  {
    if b.Failed? then b else Walked(b.builder, a.spans + b.spans, a.lines + b.lines)
  }

  function WalkNodes(nodes: Nodes, b: Builder, insideLine: bool, depth: nat): Walked
    decreases nodes, 0
  {
    match nodes
    case End => Walked(b, [], 0)
    case Node(c, rest) =>
      var one := WalkChild(c, b, insideLine, depth);
      if one.Failed? then one
      else Then(one, WalkNodes(rest, one.builder, insideLine, depth))
  }

  // --- the walk as the source runs it -------------------------------------------------------------

  class SpanLog {
    var items: seq<Span>

    constructor ()
      ensures items == []
    {
      items := [];
    }
  }

  /** Flatten one subtree in document order, recording its spans; return its line count. */
  method Walk(e: Element, builder: TextBuilder, log: SpanLog, insideLine: bool, depth: nat)
    returns (lines: nat, failed: Option<Error>)
    requires builder.Valid()
    modifies builder, log
    ensures builder.Valid()
    ensures match WalkElement(e, old(builder.Value()), insideLine, depth)
            case Failed(error) => failed == Some(error)
            case Walked(after, spans, n) =>
              failed == None && builder.Value() == after && log.items == old(log.items) + spans && lines == n
    decreases e, 0
  {
    if depth > MAX_DOCUMENT_DEPTH { return 0, Some(DocumentTooDeep); }
    builder.DoAddText(e.text, insideLine);
    lines, failed := WalkAll(e.children, builder, log, insideLine, depth);
  }

  /** The children of one element in turn. */
  method WalkAll(all: Nodes, builder: TextBuilder, log: SpanLog, insideLine: bool, depth: nat)
    returns (lines: nat, failed: Option<Error>)
    requires builder.Valid()
    modifies builder, log
    ensures builder.Valid()
    ensures match WalkNodes(all, old(builder.Value()), insideLine, depth)
            case Failed(error) => failed == Some(error)
            case Walked(after, spans, n) =>
              failed == None && builder.Value() == after && log.items == old(log.items) + spans && lines == n
    decreases all, 2
  {
    lines, failed := 0, None;
    var nodes := all;
    ghost var start := builder.Value();
    ghost var spans: seq<Span> := [];
    NothingWalked(all, start, insideLine, depth);
    while nodes.Node?
      invariant builder.Valid() && log.items == old(log.items) + spans
      invariant nodes == all || nodes < all
      invariant Remains(all, start, nodes, Walked(builder.Value(), spans, lines), insideLine, depth)
      decreases nodes
    {
      var c := nodes.first;
      ghost var one := WalkChild(c, builder.Value(), insideLine, depth);
      RemainsNext(all, start, nodes, Walked(builder.Value(), spans, lines), insideLine, depth);
      var found, error := WalkOne(c, builder, log, insideLine, depth);
      if error != None { return lines, error; }
      Regroup(old(log.items), spans, one.spans);
      spans := spans + one.spans;
      lines := lines + found;
      nodes := nodes.rest;
    }
  }

  lemma Regroup<T>(a: seq<T>, b: seq<T>, c: seq<T>)
    ensures a + b + c == a + (b + c)
  {
  }

  lemma NothingWalked(all: Nodes, start: Builder, insideLine: bool, depth: nat)
    ensures Remains(all, start, all, Walked(start, [], 0), insideLine, depth)
  {
    var w := WalkNodes(all, start, insideLine, depth);
    if w.Walked? { assert [] + w.spans == w.spans; }
  }

  /** Walking all the children from `start` comes to what is walked so far and then the rest. */
  ghost predicate Remains(all: Nodes, start: Builder, nodes: Nodes, sofar: Walked, insideLine: bool, depth: nat) {
    sofar.Walked? && WalkNodes(all, start, insideLine, depth)
      == Then(sofar, WalkNodes(nodes, sofar.builder, insideLine, depth))
  }

  lemma RemainsNext(all: Nodes, start: Builder, nodes: Nodes, sofar: Walked, insideLine: bool, depth: nat)
    requires nodes.Node? && Remains(all, start, nodes, sofar, insideLine, depth)
    ensures var one := WalkChild(nodes.first, sofar.builder, insideLine, depth);
            if one.Failed? then WalkNodes(all, start, insideLine, depth) == one
            else Remains(all, start, nodes.rest, Then(sofar, one), insideLine, depth)
  {
    ThenNext(sofar, nodes, insideLine, depth);
  }

  /** Taking one child more into what has been walked. */
  lemma ThenNext(sofar: Walked, nodes: Nodes, insideLine: bool, depth: nat)
    requires sofar.Walked? && nodes.Node?
    ensures var one := WalkChild(nodes.first, sofar.builder, insideLine, depth);
            one.Walked? ==>
              Then(sofar, WalkNodes(nodes, sofar.builder, insideLine, depth))
              == Then(Then(sofar, one), WalkNodes(nodes.rest, one.builder, insideLine, depth))
  {
    var one := WalkChild(nodes.first, sofar.builder, insideLine, depth);
    if one.Walked? {
      var rest := WalkNodes(nodes.rest, one.builder, insideLine, depth);
      if rest.Walked? {
        Regroup(sofar.spans, one.spans, rest.spans);
      }
    }
  }

  /** One child of the walk: its mark, its line, its subtree, its span and its tail. */
  method WalkOne(c: Element, builder: TextBuilder, log: SpanLog, insideLine: bool, depth: nat)
    returns (lines: nat, failed: Option<Error>)
    requires builder.Valid()
    modifies builder, log
    ensures builder.Valid()
    ensures match WalkChild(c, old(builder.Value()), insideLine, depth)
            case Failed(error) => failed == Some(error)
            case Walked(after, spans, n) =>
              failed == None && builder.Value() == after && log.items == old(log.items) + spans && lines == n
    decreases c, 1
  {
    var isLine := c.name == "Line" && !insideLine;
    var serial: nat := builder.begun;
    if c.name in MARKED_SPAN_KINDS { serial := builder.DoBeginMark(); }
    if isLine { builder.DoBreakLine(1); }
    ghost var inner := WalkElement(c, builder.Value(), insideLine || isLine, depth + 1);
    lines, failed := Walk(c, builder, log, insideLine || isLine, depth + 1);
    if failed != None { return; }
    LeaveBehind(Walked(builder.Value(), inner.spans, lines), old(log.items), c, insideLine, serial);
    lines, failed := LeaveOne(c, builder, log, insideLine, serial, lines, log.items);
    if failed != None { return; }
    builder.DoAddText(c.tail, insideLine);
  }

  /** A child's line broken behind it, its mark closed and its span recorded. */
  method LeaveOne(
      c: Element, builder: TextBuilder, log: SpanLog, insideLine: bool, serial: nat, inner: nat,
      ghost spans: seq<Span>)
    returns (lines: nat, failed: Option<Error>)
    requires builder.Valid() && log.items == spans
    modifies builder, log
    ensures builder.Valid()
    ensures match Leave(Walked(old(builder.Value()), spans, inner), c, insideLine, serial)
            case Failed(error) => failed == Some(error)
            case Walked(after, all, n) =>
              failed == None && builder.Value() == after && log.items == all && lines == n
  {
    lines, failed := inner, None;
    if c.name == "Line" && !insideLine {
      lines := lines + 1;
      builder.DoBreakLine(1);
    }
    if c.name in MARKED_SPAN_KINDS {
      var span := builder.DoEndMark(serial);
      if span == None { return lines, Some(ClosedOutOfOrder); }
      log.items := log.items + [Span(c.name, span.value.0, span.value.1)];
    }
  }

  /** Leaving a child says the same of its own spans and of those with others before them. */
  lemma LeaveBehind(w: Walked, before: seq<Span>, c: Element, insideLine: bool, serial: nat)
    requires w.Walked?
    ensures var left := Leave(w, c, insideLine, serial);
            var all := Leave(w.(spans := before + w.spans), c, insideLine, serial);
            if left.Failed? then all == left else all == left.(spans := before + left.spans)
  {
  }
}
