/** What a flattened text is, without the builder: characters with the widest separator asked for
    between two of them, and nothing at either end. */
module FlattenLayout {
  import opened Arithmetic
  import opened Options
  import opened FlatText
  import opened Flatten

  /** A character that is written, white space, or a line break asked for. */
  datatype Piece = Ink(c: char) | Blank | Break(count: nat)

  /** The largest break asked for. */
  function Widest(gap: seq<Piece>): (n: nat)
    ensures forall p :: p in gap && p.Break? ==> p.count <= n
    ensures n > 0 ==> Break(n) in gap
  {
    if |gap| == 0 then 0
    else
      var rest, last := gap[..|gap| - 1], gap[|gap| - 1];
      if last.Break? then Max(Widest(rest), last.count) else Widest(rest)
  }

  /** What stands between two characters with these pieces between them. */
  function Between(gap: seq<Piece>): string {
    if Widest(gap) > 0 then Newlines(Widest(gap)) else if Blank in gap then " " else ""
  }

  predicate IsGap(ps: seq<Piece>) {
    forall p :: p in ps ==> !p.Ink?
  }

  /** The pieces after the last character. */
  function Trail(ps: seq<Piece>): (gap: seq<Piece>)
    ensures forall p :: p in gap ==> p in ps && !p.Ink?
  {
    if |ps| == 0 || ps[|ps| - 1].Ink? then [] else Trail(ps[..|ps| - 1]) + [ps[|ps| - 1]]
  }

  /** The pieces before the first character. */
  function Lead(ps: seq<Piece>): (gap: seq<Piece>)
    ensures forall p :: p in gap ==> p in ps && !p.Ink?
  {
    if |ps| == 0 || ps[0].Ink? then [] else [ps[0]] + Lead(ps[1..])
  }

  /** The characters in order, each behind what the pieces since the one before it come to. */
  function Layout(ps: seq<Piece>): string {
    if |ps| == 0 then ""
    else
      var rest, last := ps[..|ps| - 1], ps[|ps| - 1];
      if last.Ink? then Layout(rest) + (if Layout(rest) == "" then "" else Between(Trail(rest))) + [last.c]
      else Layout(rest)
  }

  /** Two layouts one after the other. */
  function Joined(a: string, gap: seq<Piece>, b: string): string {
    if a == "" then b else if b == "" then a else a + Between(gap) + b
  }

  lemma Assoc(a: seq<Piece>, b: seq<Piece>, c: seq<Piece>)
    ensures a + b + c == a + (b + c)
  {
  }

  lemma {:induction false} EmptyIffGap(ps: seq<Piece>)
    ensures Layout(ps) == "" <==> IsGap(ps)
  {
    if |ps| > 0 {
      EmptyIffGap(ps[..|ps| - 1]);
      GapNext(ps[..|ps| - 1], ps[|ps| - 1]);
      assert ps == ps[..|ps| - 1] + [ps[|ps| - 1]];
    }
  }

  lemma GapNext(ps: seq<Piece>, last: Piece)
    ensures IsGap(ps + [last]) <==> IsGap(ps) && !last.Ink?
  {
    assert forall p :: p in ps ==> p in ps + [last];
    assert last in ps + [last];
  }

  lemma {:induction false} TrailOfGap(ps: seq<Piece>)
    requires IsGap(ps)
    ensures Trail(ps) == ps
  {
    if |ps| > 0 {
      TrailOfGap(ps[..|ps| - 1]);
      assert ps == ps[..|ps| - 1] + [ps[|ps| - 1]];
    }
  }

  lemma {:induction false} LeadOfGap(ps: seq<Piece>)
    requires IsGap(ps)
    ensures Lead(ps) == ps
  {
    if |ps| > 0 {
      LeadOfGap(ps[1..]);
      assert ps == [ps[0]] + ps[1..];
    }
  }

  lemma {:induction false} TrailNext(ps: seq<Piece>, last: Piece)
    ensures Trail(ps + [last]) == if last.Ink? then [] else Trail(ps) + [last]
  {
    assert (ps + [last])[..|ps|] == ps;
  }

  lemma {:induction false} TrailJoin(a: seq<Piece>, b: seq<Piece>)
    ensures Trail(a + b) == if IsGap(b) then Trail(a) + b else Trail(b)
  {
    if |b| == 0 {
      assert a + b == a && Trail(a) + b == Trail(a);
    } else {
      var n := |b| - 1;
      assert b == b[..n] + [b[n]] && a + b == a + b[..n] + [b[n]];
      TrailJoin(a, b[..n]);
      TrailJoinNext(a, b[..n], b[n]);
    }
  }

  lemma {:induction false} TrailJoinNext(a: seq<Piece>, b: seq<Piece>, last: Piece)
    requires Trail(a + b) == if IsGap(b) then Trail(a) + b else Trail(b)
    ensures Trail(a + b + [last]) == if IsGap(b + [last]) then Trail(a) + (b + [last]) else Trail(b + [last])
  {
    TrailNext(a + b, last);
    TrailNext(b, last);
    GapNext(b, last);
    Assoc(Trail(a), b, [last]);
  }

  lemma {:induction false} LeadNext(b: seq<Piece>, last: Piece)
    ensures Lead(b + [last]) == if !IsGap(b) then Lead(b) else if last.Ink? then b else b + [last]
  {
    var all := b + [last];
    if |b| == 0 {
      assert all[1..] == [];
    } else {
      assert all[0] == b[0] && all[1..] == b[1..] + [last];
      LeadNext(b[1..], last);
      assert b == [b[0]] + b[1..];
    }
  }

  /** A layout one piece longer. */
  lemma {:induction false} LayoutNext(ps: seq<Piece>, last: Piece)
    ensures Layout(ps + [last])
         == if last.Ink? then Joined(Layout(ps), Trail(ps), [last.c]) else Layout(ps)
  {
    assert (ps + [last])[..|ps|] == ps;
  }

  lemma Regroup(a: string, b: string, c: string, d: string, e: string)
    ensures a + b + c + d + e == a + b + (c + d + e)
  {
  }

  /** A layout is made of the layouts of its parts, with what lies between them between them. */
  lemma {:induction false} LayoutJoin(a: seq<Piece>, b: seq<Piece>)
    ensures Layout(a + b) == Joined(Layout(a), Trail(a) + Lead(b), Layout(b))
  {
    if |b| == 0 {
      assert a + b == a;
    } else {
      var n := |b| - 1;
      assert b == b[..n] + [b[n]] && a + b == (a + b[..n]) + [b[n]];
      LayoutJoin(a, b[..n]);
      LayoutJoinNext(a, b[..n], b[n]);
    }
  }

  lemma {:induction false} LayoutJoinNext(a: seq<Piece>, b: seq<Piece>, last: Piece)
    requires Layout(a + b) == Joined(Layout(a), Trail(a) + Lead(b), Layout(b))
    ensures Layout(a + b + [last]) == Joined(Layout(a), Trail(a) + Lead(b + [last]), Layout(b + [last]))
  {
    LayoutNext(a + b, last);
    LayoutNext(b, last);
    LeadNext(b, last);
    EmptyIffGap(b);
    TrailJoin(a, b);
    if IsGap(b) {
      TrailOfGap(b);
      LeadOfGap(b);
    } else if last.Ink? && Layout(a) != "" {
      Regroup(Layout(a), Between(Trail(a) + Lead(b)), Layout(b), Between(Trail(b)), [last.c]);
    }
  }

  // --- the builder lays pieces out ------------------------------------------------------------------

  /** A text node's characters. */
  function Pieces(s: string): (ps: seq<Piece>)
    ensures |ps| == |s|
    ensures forall k :: 0 <= k < |s| ==> ps[k] == if IsBlankChar(s[k]) then Blank else Ink(s[k])
  {
    seq(|s|, k requires 0 <= k < |s| => if IsBlankChar(s[k]) then Blank else Ink(s[k]))
  }

  lemma PiecesJoin(a: string, b: string)
    ensures Pieces(a + b) == Pieces(a) + Pieces(b)
  {
  }

  /** A text without white space is written as it is. */
  lemma {:induction false} RunIsLaid(run: string)
    requires forall k :: 0 <= k < |run| ==> !IsBlankChar(run[k])
    ensures Layout(Pieces(run)) == run && Trail(Pieces(run)) == [] && Lead(Pieces(run)) == []
  {
    if |run| > 0 {
      var n := |run| - 1;
      RunIsLaid(run[..n]);
      assert run == run[..n] + [run[n]];
      PiecesJoin(run[..n], [run[n]]);
      OneInkMore(run[..n], run[n], Pieces(run[..n]));
    }
  }

  lemma OneInkMore(run: string, c: char, ps: seq<Piece>)
    requires Layout(ps) == run && Trail(ps) == [] && Lead(ps) == [] && !IsBlankChar(c)
    ensures Layout(ps + Pieces([c])) == run + [c] && Trail(ps + Pieces([c])) == [] && Lead(ps + Pieces([c])) == []
  {
    assert Pieces([c]) == [Ink(c)];
    LayoutNext(ps, Ink(c));
    TrailNext(ps, Ink(c));
    LeadNext(ps, Ink(c));
    EmptyIffGap(ps);
    assert Between([]) == "" && run + "" == run;
  }

  lemma {:induction false} WidestBlanks(gap: seq<Piece>, w: string)
    requires IsBlank(w)
    ensures Widest(gap + Pieces(w)) == Widest(gap)
  {
    if |w| == 0 {
      assert gap + Pieces(w) == gap;
    } else {
      var n := |w| - 1;
      WidestBlanks(gap, w[..n]);
      assert gap + Pieces(w) == (gap + Pieces(w[..n])) + [Blank];
    }
  }

  /** What is owed behind the text is what the pieces behind it come to. */
  ghost predicate Owes(b: Builder, gap: seq<Piece>) {
    b.text != "" ==> b.breaks == Widest(gap) && (b.breaks == 0 ==> (b.space <==> Blank in gap))
  }

  /** The builder has written these pieces, and owes what is behind the last character. */
  ghost predicate Lays(b: Builder, ps: seq<Piece>) {
    b.text == Layout(ps) && Owes(b, Trail(ps))
  }

  lemma {:induction false} LayoutRun(ps: seq<Piece>, run: string)
    requires IsRun(run)
    ensures Layout(ps + Pieces(run)) == Joined(Layout(ps), Trail(ps), run)
    ensures Trail(ps + Pieces(run)) == []
  {
    RunIsLaid(run);
    LayoutJoin(ps, Pieces(run));
    assert Trail(ps) + [] == Trail(ps);
    assert Pieces(run)[0].Ink?;
    TrailJoin(ps, Pieces(run));
  }

  lemma {:induction false} LayoutBlanks(ps: seq<Piece>, w: string)
    requires IsBlank(w)
    ensures Layout(ps + Pieces(w)) == Layout(ps) && Trail(ps + Pieces(w)) == Trail(ps) + Pieces(w)
  {
    LayoutJoin(ps, Pieces(w));
    EmptyIffGap(Pieces(w));
    TrailJoin(ps, Pieces(w));
  }

  lemma PutWrites(b: Builder, gap: seq<Piece>, run: string)
    requires Owes(b, gap) && IsRun(run)
    ensures Put(b, run).text == Joined(b.text, gap, run) && Owes(Put(b, run), [])
  {
  }

  lemma {:induction false} PutLays(b: Builder, ps: seq<Piece>, run: string)
    requires Lays(b, ps) && IsRun(run)
    ensures Lays(Put(b, run), ps + Pieces(run))
  {
    LayoutRun(ps, run);
    PutWrites(b, Trail(ps), run);
  }

  lemma {:induction false} BlankOwes(b: Builder, gap: seq<Piece>, w: string)
    requires Owes(b, gap) && |w| > 0 && IsBlank(w)
    ensures Owes(b.(space := true), gap + Pieces(w))
  {
    WidestBlanks(gap, w);
    assert (gap + Pieces(w))[|gap|] == Blank;
  }

  lemma {:induction false} BlankLays(b: Builder, ps: seq<Piece>, w: string)
    requires Lays(b, ps) && |w| > 0 && IsBlank(w)
    ensures Lays(b.(space := true), ps + Pieces(w))
    ensures b.text == "" ==> Lays(b, ps + Pieces(w))
  {
    LayoutBlanks(ps, w);
    BlankOwes(b, Trail(ps), w);
  }

  lemma {:induction false} BreakLays(b: Builder, ps: seq<Piece>, count: nat)
    requires Lays(b, ps) && count > 0
    ensures Lays(BreakLine(b, count), ps + [Break(count)])
  {
    LayoutNext(ps, Break(count));
    TrailNext(ps, Break(count));
  }

  lemma OneBlankMore(s: string, lead: string, run: string, rest: string)
    requires |s| > 0 && IsBlankChar(s[0]) && s[1..] == lead + run + rest && IsBlank(lead)
    ensures s == [s[0]] + lead + run + rest && IsBlank([s[0]] + lead)
  {
    assert s == [s[0]] + s[1..];
  }

  /** The first run of a text, and what is before and after it. */
  lemma {:induction false} FirstRunOf(s: string) returns (lead: string, run: string, rest: string)
    requires !IsBlank(s)
    ensures s == lead + run + rest && IsBlank(lead) && IsRun(run) && (rest == "" || IsBlankChar(rest[0]))
    ensures Runs(s) == [run] + Runs(rest)
    decreases |s|
  {
    if IsBlankChar(s[0]) {
      var rest1 := s[1..];
      lead, run, rest := FirstRunOf(rest1);
      OneBlankMore(s, lead, run, rest);
      lead := [s[0]] + lead;
    } else {
      var n := RunLength(s);
      lead, run, rest := "", s[..n], s[n..];
      RunIsWhole(s);
    }
  }

  lemma {:induction false} RunIsWhole(s: string)
    ensures RunLength(s) < |s| ==> IsBlankChar(s[RunLength(s)])
  {
    if |s| > 0 && !IsBlankChar(s[0]) { RunIsWhole(s[1..]); }
  }

  /** White space at the front of a text asks for a space. */
  function Led(b: Builder, s: string): Builder {
    if |s| > 0 && IsBlankChar(s[0]) then b.(space := true) else b
  }

  function Trailed(b: Builder, s: string): Builder {
    if |s| > 0 && IsBlankChar(s[|s| - 1]) then b.(space := true) else b
  }

  lemma {:induction false} LedLays(b: Builder, ps: seq<Piece>, lead: string, s: string)
    requires Lays(b, ps) && IsBlank(lead) && lead <= s && (|lead| == 0 ==> |s| > 0 && !IsBlankChar(s[0]))
    ensures Lays(Led(b, s), ps + Pieces(lead))
  {
    if |lead| > 0 {
      assert lead[0] == s[0];
      BlankLays(b, ps, lead);
    } else {
      assert ps + Pieces(lead) == ps;
    }
  }

  lemma PiecesBehind(ps: seq<Piece>, a: string, b: string)
    ensures ps + Pieces(a) + Pieces(b) == ps + Pieces(a + b)
  {
    PiecesJoin(a, b);
  }

  lemma StartsWithRun(s: string, lead: string, run: string, rest: string)
    requires s == lead + run + rest && IsRun(run)
    ensures lead <= s && (|lead| == 0 ==> |s| > 0 && !IsBlankChar(s[0]))
  {
    assert |lead| == 0 ==> s[0] == run[0];
  }

  lemma {:induction false} TakeRun(b: Builder, ps: seq<Piece>, s: string, lead: string, run: string, rest: string)
    requires Lays(b, ps) && s == lead + run + rest && IsBlank(lead) && IsRun(run)
    ensures Lays(Put(Led(b, s), run), ps + Pieces(lead + run))
  {
    StartsWithRun(s, lead, run, rest);
    LedLays(b, ps, lead, s);
    PutLays(Led(b, s), ps + Pieces(lead), run);
    PiecesBehind(ps, lead, run);
  }

  lemma FirstRunAt(runs: seq<string>, i: nat, run: string, rest: seq<string>)
    requires i <= |runs| && runs[i..] == [run] + rest
    ensures i < |runs| && runs[i] == run && runs[i + 1..] == rest
  {
    assert runs[i] == runs[i..][0] && runs[i + 1..] == runs[i..][1..];
  }

  /** Writing the next run: the rest of the text, behind it, is left to write. */
  lemma {:induction false} PutNext(
    b: Builder, s: string, runs: seq<string>, i: nat, lead: string, run: string, rest: string)
    requires i < |runs| && runs[i] == run && s == lead + run + rest && IsBlank(lead) && IsRun(run)
    requires i > 0 ==> s == "" || IsBlankChar(s[0])
    requires (rest == "" || IsBlankChar(rest[0])) && (i + 1 == |runs| ==> IsBlank(rest))
    ensures Trailed(PutFrom(Led(b, s), runs, i), s)
         == Trailed(PutFrom(Led(Put(Led(b, s), run), rest), runs, i + 1), rest)
  {
    assert s[|s| - 1] == if rest == "" then run[|run| - 1] else rest[|rest| - 1];
    SpaceOnce(Put(Led(b, s), run), rest, runs, i + 1);
  }

  /** Runs after the first are spaced anyway. */
  lemma SpaceOnce(b: Builder, rest: string, runs: seq<string>, i: nat)
    requires 0 < i <= |runs|
    ensures i < |runs| ==> PutFrom(Led(b, rest), runs, i) == PutFrom(b, runs, i)
  {
  }

  /** The runs of `s`, those of `runs` from `i` on, written one by one. */
  lemma {:induction false} PutRunsLays(b: Builder, ps: seq<Piece>, s: string, runs: seq<string>, i: nat)
    requires Lays(b, ps) && i <= |runs| && runs[i..] == Runs(s)
    requires i > 0 ==> s == "" || IsBlankChar(s[0])
    ensures Lays(Trailed(PutFrom(Led(b, s), runs, i), s), ps + Pieces(s))
    decreases |runs| - i
  {
    if IsBlank(s) {
      assert ps + Pieces("") == ps;
      if s != "" { BlankLays(b, ps, s); }
    } else {
      var lead, run, rest := FirstRunOf(s);
      FirstRunAt(runs, i, run, Runs(rest));
      TakeRun(b, ps, s, lead, run, rest);
      PutRunsLays(Put(Led(b, s), run), ps + Pieces(lead + run), rest, runs, i + 1);
      PutNext(b, s, runs, i, lead, run, rest);
      PiecesBehind(ps, lead + run, rest);
    }
  }

  lemma AddIs(b: Builder, s: string)
    requires !IsBlank(s)
    ensures Add(b, s) == Trailed(PutFrom(Led(b, s), Runs(s), 0), s)
  {
  }

  lemma {:induction false} AddLays(b: Builder, ps: seq<Piece>, s: string)
    requires Lays(b, ps)
    ensures Lays(Add(b, s), ps + Pieces(s))
  {
    if |s| == 0 {
      assert ps + Pieces(s) == ps;
    } else if IsBlank(s) {
      BlankLays(b, ps, s);
    } else {
      assert Runs(s)[0..] == Runs(s);
      PutRunsLays(b, ps, s, Runs(s), 0);
      AddIs(b, s);
    }
  }

  // --- elements -------------------------------------------------------------------------------------

  /** A text node: inside a line its characters, elsewhere the same between line breaks, unless it
      is blank. */
  function TextPieces(s: string, insideLine: bool): seq<Piece> {
    if insideLine then Pieces(s) else if IsBlank(s) then [] else [Break(1)] + Pieces(s) + [Break(1)]
  }

  /** What an element writes, in document order: a line that is in no other stands between breaks. */
  function ElementPieces(e: Element, insideLine: bool): seq<Piece>
    decreases e, 1
  {
    TextPieces(e.text, insideLine) + NodesPieces(e.children, insideLine)
  }

  function ChildPieces(c: Element, insideLine: bool): seq<Piece>
    decreases c, 3
  {
    (if BreaksLine(c, insideLine) then LinePieces(c) else ElementPieces(c, insideLine))
    + TextPieces(c.tail, insideLine)
  }

  function LinePieces(c: Element): seq<Piece>
    decreases c, 2
  {
    [Break(1)] + ElementPieces(c, true) + [Break(1)]
  }

  function NodesPieces(nodes: Nodes, insideLine: bool): seq<Piece>
    decreases nodes, 0
  {
    match nodes
    case End => []
    case Node(c, rest) => ChildPieces(c, insideLine) + NodesPieces(rest, insideLine)
  }

  lemma LayNothing(b: Builder, ps: seq<Piece>)
    ensures Lays(b, ps + []) == Lays(b, ps)
  {
    assert ps + [] == ps;
  }

  /** A text on a line of its own. */
  lemma {:induction false} LineLays(b: Builder, ps: seq<Piece>, s: string)
    requires Lays(b, ps)
    ensures Lays(BreakLine(Add(BreakLine(b, 1), s), 1), ps + ([Break(1)] + Pieces(s) + [Break(1)]))
  {
    BreakLays(b, ps, 1);
    AddLays(BreakLine(b, 1), ps + [Break(1)], s);
    BreakLays(Add(BreakLine(b, 1), s), ps + [Break(1)] + Pieces(s), 1);
    Assoc(ps, [Break(1)], Pieces(s));
    Assoc(ps, [Break(1)] + Pieces(s), [Break(1)]);
  }

  lemma {:induction false} AddTextLays(b: Builder, ps: seq<Piece>, s: string, insideLine: bool)
    requires Lays(b, ps)
    ensures Lays(AddText(b, s, insideLine), ps + TextPieces(s, insideLine))
  {
    if insideLine {
      AddLays(b, ps, s);
    } else if IsBlank(s) {
      LayNothing(b, ps);
    } else {
      LineLays(b, ps, s);
    }
  }

  /** Marks change nothing that is written or owed. */
  lemma MarksLay(b: Builder, after: Builder, ps: seq<Piece>)
    requires Lays(b, ps) && b.text == after.text && b.breaks == after.breaks && b.space == after.space
    ensures Lays(after, ps)
  {
  }

  /** Whatever a walk starts from, what it adds is laid out from the element's own pieces. */
  lemma {:induction false} ElementLays(e: Element, b: Builder, ps: seq<Piece>, insideLine: bool, depth: nat)
    requires Lays(b, ps)
    ensures var w := WalkElement(e, b, insideLine, depth);
            w.Walked? ==> Lays(w.builder, ps + ElementPieces(e, insideLine))
    decreases e, 1
  {
    AddTextLays(b, ps, e.text, insideLine);
    var text := TextPieces(e.text, insideLine);
    NodesLay(e.children, AddText(b, e.text, insideLine), ps + text, insideLine, depth);
    Assoc(ps, text, NodesPieces(e.children, insideLine));
  }

  /** The break a line asks for before and after it. */
  function LineBreak(c: Element, insideLine: bool): seq<Piece> {
    if BreaksLine(c, insideLine) then [Break(1)] else []
  }

  function Broken(b: Builder, c: Element, insideLine: bool): Builder {
    if BreaksLine(c, insideLine) then BreakLine(b, 1) else b
  }

  lemma {:induction false} BrokenLays(b: Builder, ps: seq<Piece>, c: Element, insideLine: bool)
    requires Lays(b, ps)
    ensures Lays(Broken(b, c, insideLine), ps + LineBreak(c, insideLine))
  {
    if BreaksLine(c, insideLine) {
      BreakLays(b, ps, 1);
    } else {
      LayNothing(b, ps);
    }
  }

  lemma {:induction false} EnterLays(b: Builder, ps: seq<Piece>, c: Element, insideLine: bool)
    requires Lays(b, ps)
    ensures Lays(Enter(b, c, insideLine), ps + LineBreak(c, insideLine))
  {
    var marked := if IsMarked(c) then BeginMark(b) else b;
    MarksLay(b, marked, ps);
    BrokenLays(marked, ps, c, insideLine);
  }

  lemma LeaveOwes(w: Walked, c: Element, insideLine: bool, serial: nat)
    requires w.Walked?
    ensures var left := Leave(w, c, insideLine, serial);
            var broken := Broken(w.builder, c, insideLine);
            left.Walked? ==>
              left.builder.text == broken.text && left.builder.breaks == broken.breaks
              && left.builder.space == broken.space
  {
  }

  lemma {:induction false} LeaveLays(w: Walked, ps: seq<Piece>, c: Element, insideLine: bool, serial: nat)
    requires w.Walked? && Lays(w.builder, ps)
    ensures var left := Leave(w, c, insideLine, serial);
            left.Walked? ==> Lays(left.builder, ps + LineBreak(c, insideLine))
  {
    BrokenLays(w.builder, ps, c, insideLine);
    LeaveOwes(w, c, insideLine, serial);
    var left := Leave(w, c, insideLine, serial);
    if left.Walked? {
      MarksLay(Broken(w.builder, c, insideLine), left.builder, ps + LineBreak(c, insideLine));
    }
  }

  lemma BetweenBreaks(ps: seq<Piece>, e: seq<Piece>, tail: seq<Piece>)
    ensures ps + [Break(1)] + e + [Break(1)] + tail == ps + ([Break(1)] + e + [Break(1)] + tail)
  {
    Assoc(ps, [Break(1)], e);
    Assoc(ps, [Break(1)] + e, [Break(1)]);
    Assoc(ps, [Break(1)] + e + [Break(1)], tail);
  }

  lemma BetweenNothing(ps: seq<Piece>, e: seq<Piece>, tail: seq<Piece>)
    ensures ps + [] + e + [] + tail == ps + (e + tail)
  {
    Assoc(ps, e, tail);
    assert ps + [] == ps && ps + e + [] == ps + e;
  }

  lemma ChildIs(ps: seq<Piece>, c: Element, insideLine: bool)
    ensures var line := LineBreak(c, insideLine);
            ps + line + ElementPieces(c, insideLine || BreaksLine(c, insideLine)) + line
            + TextPieces(c.tail, insideLine)
            == ps + ChildPieces(c, insideLine)
  {
    if BreaksLine(c, insideLine) {
      BetweenBreaks(ps, ElementPieces(c, true), TextPieces(c.tail, insideLine));
    } else {
      BetweenNothing(ps, ElementPieces(c, insideLine), TextPieces(c.tail, insideLine));
    }
  }

  lemma {:induction false} ChildLays(c: Element, b: Builder, ps: seq<Piece>, insideLine: bool, depth: nat)
    requires Lays(b, ps)
    ensures var w := WalkChild(c, b, insideLine, depth);
            w.Walked? ==> Lays(w.builder, ps + ChildPieces(c, insideLine))
    decreases c, 2
  {
    EnterLays(b, ps, c, insideLine);
    ElementLays(c, Enter(b, c, insideLine), ps + LineBreak(c, insideLine), insideLine || BreaksLine(c, insideLine),
      depth + 1);
    ChildFrom(c, b, ps, insideLine, depth);
  }

  /** Leaving a walked child and adding its tail. */
  lemma {:induction false} TailLays(w: Walked, ps: seq<Piece>, c: Element, insideLine: bool, serial: nat)
    requires w.Walked?
    requires Lays(w.builder,
               ps + LineBreak(c, insideLine) + ElementPieces(c, insideLine || BreaksLine(c, insideLine)))
    ensures var left := Leave(w, c, insideLine, serial);
            left.Walked? ==> Lays(AddText(left.builder, c.tail, insideLine), ps + ChildPieces(c, insideLine))
  {
    var walked := ps + LineBreak(c, insideLine) + ElementPieces(c, insideLine || BreaksLine(c, insideLine));
    LeaveLays(w, walked, c, insideLine, serial);
    var left := Leave(w, c, insideLine, serial);
    if left.Walked? { AddTextLays(left.builder, walked + LineBreak(c, insideLine), c.tail, insideLine); }
    ChildIs(ps, c, insideLine);
  }

  lemma {:induction false} ChildFrom(c: Element, b: Builder, ps: seq<Piece>, insideLine: bool, depth: nat)
    requires var inside := insideLine || BreaksLine(c, insideLine);
             var inner := WalkElement(c, Enter(b, c, insideLine), inside, depth + 1);
             inner.Walked? ==> Lays(inner.builder, ps + LineBreak(c, insideLine) + ElementPieces(c, inside))
    ensures var w := WalkChild(c, b, insideLine, depth);
            w.Walked? ==> Lays(w.builder, ps + ChildPieces(c, insideLine))
  {
    var inner := WalkElement(c, Enter(b, c, insideLine), insideLine || BreaksLine(c, insideLine), depth + 1);
    if inner.Walked? { TailLays(inner, ps, c, insideLine, b.begun); }
  }

  lemma {:induction false} NodesLay(nodes: Nodes, b: Builder, ps: seq<Piece>, insideLine: bool, depth: nat)
    requires Lays(b, ps)
    ensures var w := WalkNodes(nodes, b, insideLine, depth);
            w.Walked? ==> Lays(w.builder, ps + NodesPieces(nodes, insideLine))
    decreases nodes, 0
  {
    match nodes {
    case End => LayNothing(b, ps);
    case Node(c, rest) =>
      ChildLays(c, b, ps, insideLine, depth);
      var one := WalkChild(c, b, insideLine, depth);
      if one.Walked? {
        NodesLay(rest, one.builder, ps + ChildPieces(c, insideLine), insideLine, depth);
        Assoc(ps, ChildPieces(c, insideLine), NodesPieces(rest, insideLine));
      }
    }
  }

  /** What a subtree flattens to by itself is the layout of its pieces. */
  lemma {:induction false} AloneIsLaid(e: Element, insideLine: bool, depth: nat)
    ensures var w := WalkElement(e, FRESH, insideLine, depth);
            w.Walked? ==> w.builder.text == Layout(ElementPieces(e, insideLine))
  {
    ElementLays(e, FRESH, [], insideLine, depth);
    assert [] + ElementPieces(e, insideLine) == ElementPieces(e, insideLine);
  }

  // --- lines -------------------------------------------------------------------------------------------

  /** Characters and white space alone, no break. */
  predicate IsInline(ps: seq<Piece>) {
    forall p :: p in ps ==> !p.Break? && (p.Ink? ==> !IsBlankChar(p.c))
  }

  /** Nothing inside a line asks for a break. */
  lemma {:induction false} LineIsInline(e: Element)
    ensures IsInline(ElementPieces(e, true))
    decreases e, 1
  {
    NodesAreInline(e.children);
  }

  lemma {:induction false} NodesAreInline(nodes: Nodes)
    ensures IsInline(NodesPieces(nodes, true))
    decreases nodes, 0
  {
    if nodes.Node? {
      LineIsInline(nodes.first);
      NodesAreInline(nodes.rest);
    }
  }

  /** So a line is one line. */
  lemma {:induction false} InlineHasNoNewline(ps: seq<Piece>)
    requires IsInline(ps)
    ensures forall k :: 0 <= k < |Layout(ps)| ==> Layout(ps)[k] != '\n'
  {
    if |ps| > 0 {
      var rest, last := ps[..|ps| - 1], ps[|ps| - 1];
      InlineHasNoNewline(rest);
      InlineIsUnbroken(Trail(rest), rest);
    }
  }

  lemma InlineIsUnbroken(gap: seq<Piece>, ps: seq<Piece>)
    requires IsInline(ps) && forall p :: p in gap ==> p in ps
    ensures Widest(gap) == 0
  {
    assert Widest(gap) > 0 ==> Break(Widest(gap)) in ps;
  }

  lemma {:induction false} WidestJoin(a: seq<Piece>, b: seq<Piece>)
    ensures Widest(a + b) == Max(Widest(a), Widest(b))
  {
    if |b| == 0 {
      assert a + b == a;
    } else {
      WidestJoin(a, b[..|b| - 1]);
      assert (a + b)[..|a + b| - 1] == a + b[..|b| - 1];
    }
  }

  /** Text before a line, the breaks between them written. */
  function Behind(before: seq<Piece>): string {
    if Layout(before) == "" then "" else Layout(before) + Newlines(Max(Widest(Trail(before)), 1))
  }

  /** Text after a line, the breaks between them written. */
  function Ahead(after: seq<Piece>): string {
    if Layout(after) == "" then "" else Newlines(Max(1, Widest(Lead(after)))) + Layout(after)
  }

  lemma LineEnds(c: Element)
    requires Layout(ElementPieces(c, true)) != ""
    ensures Layout(LinePieces(c)) == Layout(ElementPieces(c, true))
    ensures Widest(Trail(LinePieces(c))) == 1 && Widest(Lead(LinePieces(c))) == 1
  {
    var ps := ElementPieces(c, true);
    LineIsInline(c);
    var led := [Break(1)] + ps;
    LayoutJoin([Break(1)], ps);
    EmptyIffGap([Break(1)]);
    EmptyIffGap(ps);
    LayoutNext(led, Break(1));
    TrailJoin([Break(1)], ps);
    TrailNext(led, Break(1));
    InlineIsUnbroken(Trail(ps), ps);
    WidestJoin(Trail(ps), [Break(1)]);
    LeadOfLine(ps);
  }

  lemma LeadOfLine(ps: seq<Piece>)
    requires IsInline(ps) && !IsGap(ps)
    ensures Widest(Lead([Break(1)] + ps + [Break(1)])) == 1
  {
    var led := [Break(1)] + ps;
    LeadNext(led, Break(1));
    assert exists p :: p in ps && p.Ink? && p in led;
    assert Lead(led) == [Break(1)] + Lead(ps) by { assert led[1..] == ps; }
    InlineIsUnbroken(Lead(ps), ps);
    WidestJoin([Break(1)], Lead(ps));
  }

  lemma TextBehind(before: seq<Piece>, gap: seq<Piece>, text: string)
    requires text != "" && Widest(gap) == 1
    ensures Joined(Layout(before), Trail(before) + gap, text) == Behind(before) + text
  {
    WidestJoin(Trail(before), gap);
  }

  lemma JoinBehind(before: seq<Piece>, line: seq<Piece>)
    requires Layout(line) != "" && Widest(Lead(line)) == 1
    ensures Layout(before + line) == Behind(before) + Layout(line)
  {
    LayoutJoin(before, line);
    TextBehind(before, Lead(line), Layout(line));
  }

  lemma TrailBehind(before: seq<Piece>, line: seq<Piece>)
    requires Layout(line) != ""
    ensures Trail(before + line) == Trail(line)
  {
    EmptyIffGap(line);
    TrailJoin(before, line);
  }

  lemma TextAhead(text: string, gap: seq<Piece>, after: seq<Piece>)
    requires text != "" && Widest(gap) == 1
    ensures Joined(text, gap + Lead(after), Layout(after)) == text + Ahead(after)
  {
    WidestJoin(gap, Lead(after));
    var n := Max(1, Widest(Lead(after)));
    assert text + Newlines(n) + Layout(after) == text + (Newlines(n) + Layout(after));
  }

  /** A line that holds a character, in no other line, stands alone: newlines between it and
      whatever is written before it, newlines between it and whatever is written after it, and none
      within it. */
  lemma {:induction false} LineStandsAlone(before: seq<Piece>, c: Element, after: seq<Piece>)
    requires Layout(ElementPieces(c, true)) != ""
    ensures Layout(before + LinePieces(c) + after) == Behind(before) + Layout(ElementPieces(c, true)) + Ahead(after)
    ensures forall k :: 0 <= k < |Layout(ElementPieces(c, true))| ==> Layout(ElementPieces(c, true))[k] != '\n'
  {
    LineIsInline(c);
    InlineHasNoNewline(ElementPieces(c, true));
    LineEnds(c);
    JoinBehind(before, LinePieces(c));
    TrailBehind(before, LinePieces(c));
    LayoutJoin(before + LinePieces(c), after);
    TextAhead(Layout(before + LinePieces(c)), Trail(LinePieces(c)), after);
  }

  /** A line below the node list that is in no other line. */
  ghost predicate IsOuterLine(nodes: Nodes, line: Element) {
    match nodes
    case End => false
    case Node(c, rest) =>
      (if c.name == "Line" then c == line else IsOuterLine(c.children, line)) || IsOuterLine(rest, line)
  }

  lemma {:induction false} OuterLineAmong(nodes: Nodes, line: Element)
    returns (before: seq<Piece>, after: seq<Piece>)
    requires IsOuterLine(nodes, line)
    ensures NodesPieces(nodes, false) == before + LinePieces(line) + after
    decreases nodes
  {
    var c, rest := nodes.first, nodes.rest;
    var tail, others := TextPieces(c.tail, false), NodesPieces(rest, false);
    if c.name == "Line" && c == line {
      before, after := [], tail + others;
      Assoc(LinePieces(c), tail, others);
      assert before + LinePieces(c) == LinePieces(c);
      assert ChildPieces(c, false) == LinePieces(c) + tail;
    } else if c.name != "Line" && IsOuterLine(c.children, line) {
      var head, behind := OuterLineAmong(c.children, line);
      before, after := TextPieces(c.text, false) + head, behind + tail + others;
      ThreeWithin(TextPieces(c.text, false), head, LinePieces(line), behind, tail, others);
      assert ChildPieces(c, false) == TextPieces(c.text, false) + NodesPieces(c.children, false) + tail;
    } else {
      var head;
      head, after := OuterLineAmong(rest, line);
      before := ChildPieces(c, false) + head;
      Assoc(ChildPieces(c, false), head, LinePieces(line));
      Assoc(ChildPieces(c, false), head + LinePieces(line), after);
    }
  }

  lemma ThreeWithin(
    text: seq<Piece>, before: seq<Piece>, line: seq<Piece>, after: seq<Piece>, tail: seq<Piece>, rest: seq<Piece>)
    ensures text + (before + line + after) + tail + rest == text + before + line + (after + tail + rest)
  {
  }

  /** Every line of an element that is in no other and holds a character stands alone in the text. */
  lemma {:induction false} EveryLineStandsAlone(e: Element, line: Element)
    returns (before: seq<Piece>, after: seq<Piece>)
    requires IsOuterLine(e.children, line) && Layout(ElementPieces(line, true)) != ""
    ensures Layout(ElementPieces(e, false)) == Behind(before) + Layout(ElementPieces(line, true)) + Ahead(after)
    ensures ElementPieces(e, false) == before + LinePieces(line) + after
  {
    var head, text;
    head, after := OuterLineAmong(e.children, line);
    text := TextPieces(e.text, false);
    Assoc(text, head, LinePieces(line));
    Assoc(text, head + LinePieces(line), after);
    before := text + head;
    LineStandsAlone(before, line, after);
  }
}
