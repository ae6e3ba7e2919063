/** Flattening keeps every character of an element's text that is not white space, in order, and
    adds none. */
module FlattenContent {
  import opened Options
  import opened FlatText
  import opened Flatten

  /** The characters of `s` that are not white space, in order. */
  function NonBlank(s: string): string {
    if |s| == 0 then "" else NonBlank(s[..|s| - 1]) + if IsBlankChar(s[|s| - 1]) then "" else [s[|s| - 1]]
  }

  /** An element's text nodes, in document order; its tail is its parent's text. */
  function TextOf(e: Element): string {
    e.text + TextOfNodes(e.children)
  }

  function TextOfNodes(nodes: Nodes): string {
    match nodes
    case End => ""
    case Node(c, rest) => TextOf(c) + c.tail + TextOfNodes(rest)
  }

  lemma {:induction false} NonBlankJoin(a: string, b: string)
    ensures NonBlank(a + b) == NonBlank(a) + NonBlank(b)
  {
    if |b| == 0 {
      assert a + b == a;
    } else {
      NonBlankJoin(a, b[..|b| - 1]);
      LastOfBoth(a, b);
    }
  }

  lemma LastOfBoth(a: string, b: string)
    requires |b| > 0
    ensures (a + b)[..|a + b| - 1] == a + b[..|b| - 1] && (a + b)[|a + b| - 1] == b[|b| - 1]
  {
  }

  lemma {:induction false} BlankIsNothing(s: string)
    requires IsBlank(s)
    ensures NonBlank(s) == ""
  {
    if |s| > 0 { BlankIsNothing(s[..|s| - 1]); }
  }

  lemma {:induction false} RunIsItself(s: string)
    requires forall k :: 0 <= k < |s| ==> !IsBlankChar(s[k])
    ensures NonBlank(s) == s
  {
    if |s| > 0 {
      RunIsItself(s[..|s| - 1]);
      assert s == s[..|s| - 1] + [s[|s| - 1]];
    }
  }

  /** Runs one after another. */
  function Concat(runs: seq<string>): string {
    if |runs| == 0 then "" else runs[0] + Concat(runs[1..])
  }

  lemma RunsFrom(runs: seq<string>, i: nat)
    requires i < |runs|
    ensures runs[i..] == [runs[i]] + runs[i + 1..]
  {
  }

  lemma ConcatFirst(first: string, rest: seq<string>)
    ensures Concat([first] + rest) == first + Concat(rest)
  {
    assert ([first] + rest)[1..] == rest;
  }

  lemma FirstRun(s: string, n: nat)
    requires n <= |s| && (forall k :: 0 <= k < n ==> !IsBlankChar(s[k]))
    ensures NonBlank(s) == s[..n] + NonBlank(s[n..])
  {
    assert s == s[..n] + s[n..];
    NonBlankJoin(s[..n], s[n..]);
    RunIsItself(s[..n]);
  }

  lemma FirstBlank(s: string)
    requires |s| > 0 && IsBlankChar(s[0])
    ensures NonBlank(s) == NonBlank(s[1..])
  {
    assert s == s[..1] + s[1..];
    NonBlankJoin(s[..1], s[1..]);
    BlankIsNothing(s[..1]);
    assert "" + NonBlank(s[1..]) == NonBlank(s[1..]);
  }

  /** The runs of a text are its characters that are not white space. */
  lemma {:induction false} RunsHoldAll(s: string)
    ensures Concat(Runs(s)) == NonBlank(s)
    decreases |s|
  {
    if |s| == 0 {
    } else if IsBlankChar(s[0]) {
      FirstBlank(s);
      RunsHoldAll(s[1..]);
    } else {
      var n := RunLength(s);
      FirstRun(s, n);
      RunsHoldAll(s[n..]);
      ConcatFirst(s[..n], Runs(s[n..]));
    }
  }

  /** Writing a run adds its characters and white space. */
  lemma {:induction false} PutContent(b: Builder, run: string)
    requires IsRun(run)
    ensures NonBlank(Put(b, run).text) == NonBlank(b.text) + run
  {
    BlankIsNothing(Separator(b));
    NonBlankJoin(b.text, Separator(b));
    NonBlankJoin(b.text + Separator(b), run);
    RunIsItself(run);
    assert NonBlank(b.text) + "" == NonBlank(b.text);
  }

  lemma {:induction false} PutFromContent(b: Builder, runs: seq<string>, i: nat)
    requires i <= |runs| && forall k :: 0 <= k < |runs| ==> IsRun(runs[k])
    ensures NonBlank(PutFrom(b, runs, i).text) == NonBlank(b.text) + Concat(runs[i..])
    decreases |runs| - i
  {
    if i == |runs| {
      assert NonBlank(b.text) + "" == NonBlank(b.text);
    } else {
      var spaced := if i > 0 then b.(space := true) else b;
      PutContent(spaced, runs[i]);
      PutFromContent(Put(spaced, runs[i]), runs, i + 1);
      RunsFrom(runs, i);
      ConcatFirst(runs[i], runs[i + 1..]);
      Regroup(NonBlank(b.text), runs[i], Concat(runs[i + 1..]));
    }
  }

  lemma {:induction false} AddContent(b: Builder, s: string)
    ensures NonBlank(Add(b, s).text) == NonBlank(b.text) + NonBlank(s)
  {
    if IsBlank(s) {
      BlankIsNothing(s);
      assert NonBlank(b.text) + "" == NonBlank(b.text);
    } else {
      RunsHoldAll(s);
      assert Runs(s)[0..] == Runs(s);
      PutFromContent(if IsBlankChar(s[0]) then b.(space := true) else b, Runs(s), 0);
    }
  }

  lemma {:induction false} AddTextContent(b: Builder, s: string, insideLine: bool)
    ensures NonBlank(AddText(b, s, insideLine).text) == NonBlank(b.text) + NonBlank(s)
  {
    AddContent(b, s);
    AddContent(BreakLine(b, 1), s);
    if IsBlank(s) {
      BlankIsNothing(s);
      assert NonBlank(b.text) + "" == NonBlank(b.text);
    }
  }

  /** Whatever a walk starts from, it adds exactly the element's own characters that are not white
      space, every one of them and in document order. */
  lemma {:induction false} ElementContent(e: Element, b: Builder, insideLine: bool, depth: nat)
    ensures var w := WalkElement(e, b, insideLine, depth);
            w.Walked? ==> NonBlank(w.builder.text) == NonBlank(b.text) + NonBlank(TextOf(e))
    decreases e, 1
  {
    AddTextContent(b, e.text, insideLine);
    NodesContent(e.children, AddText(b, e.text, insideLine), insideLine, depth);
    NonBlankJoin(e.text, TextOfNodes(e.children));
    Regroup(NonBlank(b.text), NonBlank(e.text), NonBlank(TextOfNodes(e.children)));
  }

  lemma {:induction false} ChildContent(c: Element, b: Builder, insideLine: bool, depth: nat)
    ensures var w := WalkChild(c, b, insideLine, depth);
            w.Walked? ==> NonBlank(w.builder.text) == NonBlank(b.text) + NonBlank(TextOf(c) + c.tail)
    decreases c, 2
  {
    var inner := WalkElement(c, Enter(b, c, insideLine), insideLine || BreaksLine(c, insideLine), depth + 1);
    ElementContent(c, Enter(b, c, insideLine), insideLine || BreaksLine(c, insideLine), depth + 1);
    if inner.Walked? {
      var left := Leave(inner, c, insideLine, b.begun);
      if left.Walked? {
        LeaveWritesNothing(inner, c, insideLine, b.begun);
        AddTextContent(left.builder, c.tail, insideLine);
        NonBlankJoin(TextOf(c), c.tail);
        Regroup(NonBlank(b.text), NonBlank(TextOf(c)), NonBlank(c.tail));
      }
    }
  }

  lemma LeaveWritesNothing(w: Walked, c: Element, insideLine: bool, serial: nat)
    requires w.Walked?
    ensures var left := Leave(w, c, insideLine, serial); left.Walked? ==> left.builder.text == w.builder.text
  {
  }

  lemma {:induction false} NodesContent(nodes: Nodes, b: Builder, insideLine: bool, depth: nat)
    ensures var w := WalkNodes(nodes, b, insideLine, depth);
            w.Walked? ==> NonBlank(w.builder.text) == NonBlank(b.text) + NonBlank(TextOfNodes(nodes))
    decreases nodes, 0
  {
    match nodes {
    case End => assert NonBlank(b.text) + "" == NonBlank(b.text);
    case Node(c, rest) =>
      ChildContent(c, b, insideLine, depth);
      var one := WalkChild(c, b, insideLine, depth);
      if one.Walked? {
        NodesContent(rest, one.builder, insideLine, depth);
        NonBlankJoin(TextOf(c) + c.tail, TextOfNodes(rest));
        Regroup(NonBlank(b.text), NonBlank(TextOf(c) + c.tail), NonBlank(TextOfNodes(rest)));
      }
    }
  }

  // --- words ------------------------------------------------------------------------------------------

  /** The runs of one text and then of another that follows it at once, or behind white space. */
  function JoinRuns(a: seq<string>, b: seq<string>, apart: bool): seq<string> {
    if apart || |a| == 0 || |b| == 0 then a + b else a[..|a| - 1] + [a[|a| - 1] + b[0]] + b[1..]
  }

  lemma LengthOfRun(s: string, n: nat)
    requires n <= |s| && (forall k :: 0 <= k < n ==> !IsBlankChar(s[k])) && (n < |s| ==> IsBlankChar(s[n]))
    ensures RunLength(s) == n
  {
    if n > 0 {
      assert s[1..][..n - 1] == s[1..n];
      LengthOfRun(s[1..], n - 1);
    }
  }

  lemma RunEnds(s: string)
    ensures RunLength(s) < |s| ==> IsBlankChar(s[RunLength(s)])
  {
    if |s| > 0 && !IsBlankChar(s[0]) { RunEnds(s[1..]); }
  }

  /** White space between two texts keeps their runs apart; without it the last run of the one and
      the first of the other are one run. */
  lemma {:induction false} RunsOfBoth(x: string, y: string)
    requires x != "" && !IsBlankChar(x[|x| - 1])
    ensures Runs(x + y) == JoinRuns(Runs(x), Runs(y), y == "" || IsBlankChar(y[0]))
    decreases |x|
  {
    RunEnds(x);
    RunEnds(y);
    if IsBlankChar(x[0]) {
      assert (x + y)[1..] == x[1..] + y;
      RunsOfBoth(x[1..], y);
    } else if RunLength(x) < |x| {
      var n := RunLength(x);
      LengthOfRun(x + y, n);
      assert (x + y)[..n] == x[..n] && (x + y)[n..] == x[n..] + y;
      RunsOfBoth(x[n..], y);
      JoinedBehind(x[..n], Runs(x[n..]), Runs(y), y == "" || IsBlankChar(y[0]));
    } else {
      RunAlone(x);
      OneRunJoins(x, y);
    }
  }

  lemma JoinedBehind(first: string, a: seq<string>, b: seq<string>, apart: bool)
    requires |a| > 0
    ensures [first] + JoinRuns(a, b, apart) == JoinRuns([first] + a, b, apart)
  {
    if apart || |b| == 0 {
      Regroup([first], a, b);
    } else {
      var n := |a|;
      assert ([first] + a)[..n] == [first] + a[..n - 1] && ([first] + a)[n] == a[n - 1];
      Regroup([first], a[..n - 1] + [a[n - 1] + b[0]], b[1..]);
      Regroup([first], a[..n - 1], [a[n - 1] + b[0]]);
    }
  }

  lemma RunAlone(x: string)
    requires IsRun(x)
    ensures Runs(x) == [x]
  {
    LengthOfRun(x, |x|);
    assert x[..|x|] == x && x[|x|..] == "" && Runs("") == [];
  }

  /** A run, and a text right behind it. */
  lemma OneRun(x: string, y: string)
    requires IsRun(x)
    ensures Runs(x + y) == [x + y[..RunLength(y)]] + Runs(y[RunLength(y)..])
  {
    var m := RunLength(y);
    RunGoesOn(x, y);
    FirstRunIs(x + y);
    CutBehind(x, y, m);
  }

  /** A run and what of the text behind it goes on with it. */
  lemma RunGoesOn(x: string, y: string)
    requires IsRun(x)
    ensures RunLength(x + y) == |x| + RunLength(y)
  {
    var m := RunLength(y);
    RunEnds(y);
    forall k | 0 <= k < |x| + m
      ensures !IsBlankChar((x + y)[k])
    {
      assert (x + y)[k] == if k < |x| then x[k] else y[k - |x|];
    }
    LengthOfRun(x + y, |x| + m);
  }

  lemma FirstRunIs(s: string)
    requires |s| > 0 && RunLength(s) > 0
    ensures Runs(s) == [s[..RunLength(s)]] + Runs(s[RunLength(s)..])
  {
  }

  lemma CutBehind(x: string, y: string, m: nat)
    requires m <= |y|
    ensures (x + y)[..|x| + m] == x + y[..m] && (x + y)[|x| + m..] == y[m..]
  {
  }

  lemma JoinOne(x: string, first: string, rest: seq<string>)
    ensures JoinRuns([x], [first] + rest, false) == [x + first] + rest
  {
    assert ([first] + rest)[1..] == rest && [x][..0] == [];
  }

  lemma OneRunJoins(x: string, y: string)
    requires IsRun(x)
    ensures Runs(x + y) == JoinRuns([x], Runs(y), y == "" || IsBlankChar(y[0]))
  {
    OneRun(x, y);
    var m := RunLength(y);
    if y == "" || IsBlankChar(y[0]) {
      assert x + y[..0] == x && y[0..] == y;
    } else {
      JoinOne(x, y[..m], Runs(y[m..]));
    }
  }

  lemma {:induction false} BlankHasNoRuns(sep: string, y: string)
    requires IsBlank(sep)
    ensures Runs(sep + y) == Runs(y)
  {
    if |sep| > 0 {
      assert (sep + y)[1..] == sep[1..] + y;
      BlankHasNoRuns(sep[1..], y);
    } else {
      assert sep + y == y;
    }
  }

  /** The text ends in a character, if it has any. */
  predicate EndsInRun(text: string) {
    text == "" || !IsBlankChar(text[|text| - 1])
  }

  /** A run behind a text and its separator. */
  lemma {:induction false} RunBehind(text: string, separator: string, run: string)
    requires EndsInRun(text) && IsBlank(separator) && IsRun(run) && (text == "" ==> separator == "")
    ensures Runs(text + separator + run) == JoinRuns(Runs(text), [run], text == "" || separator != "")
  {
    RunAlone(run);
    BlankHasNoRuns(separator, run);
    Regroup(text, separator, run);
    if text != "" {
      RunsOfBoth(text, separator + run);
    } else {
      assert "" + (separator + run) == separator + run;
    }
  }

  lemma {:induction false} PutRuns(b: Builder, run: string)
    requires EndsInRun(b.text) && IsRun(run)
    ensures Runs(Put(b, run).text) == JoinRuns(Runs(b.text), [run], b.text == "" || Separator(b) != "")
    ensures EndsInRun(Put(b, run).text) && Put(b, run).text != ""
  {
    RunBehind(b.text, Separator(b), run);
  }

  lemma PutApart(b: Builder, run: string)
    requires EndsInRun(b.text) && b.text != "" && IsRun(run)
    ensures var next := Put(b.(space := true), run);
            Runs(next.text) == Runs(b.text) + [run] && EndsInRun(next.text) && next.text != ""
  {
    PutRuns(b.(space := true), run);
  }

  lemma {:induction false} PutFromRuns(b: Builder, runs: seq<string>, i: nat)
    requires EndsInRun(b.text) && b.text != "" && 0 < i <= |runs| && forall k :: 0 <= k < |runs| ==> IsRun(runs[k])
    ensures Runs(PutFrom(b, runs, i).text) == Runs(b.text) + runs[i..]
    decreases |runs| - i
  {
    if i < |runs| {
      var next := Put(b.(space := true), runs[i]);
      PutApart(b, runs[i]);
      PutFromRuns(next, runs, i + 1);
      RunsFrom(runs, i);
      Regroup(Runs(b.text), [runs[i]], runs[i + 1..]);
    }
  }

  /** Added text comes behind white space: one is owed, or the text starts with some. */
  predicate ComesApart(b: Builder, s: string) {
    b.text == "" || Separator(b) != "" || s == "" || IsBlankChar(s[0])
  }

  /** Adding text adds its words: as they are when anything comes between, the first one joined to
      the last one written when nothing does. */
  lemma {:induction false} AddRuns(b: Builder, s: string)
    requires EndsInRun(b.text)
    ensures Runs(Add(b, s).text) == JoinRuns(Runs(b.text), Runs(s), ComesApart(b, s))
  {
    if !IsBlank(s) {
      var led := if IsBlankChar(s[0]) then b.(space := true) else b;
      PutAllRuns(led, Runs(s));
    }
  }

  lemma {:induction false} PutAllRuns(b: Builder, runs: seq<string>)
    requires EndsInRun(b.text) && |runs| > 0 && forall k :: 0 <= k < |runs| ==> IsRun(runs[k])
    ensures Runs(PutFrom(b, runs, 0).text) == JoinRuns(Runs(b.text), runs, b.text == "" || Separator(b) != "")
  {
    PutRuns(b, runs[0]);
    PutFromRuns(Put(b, runs[0]), runs, 1);
    assert PutFrom(b, runs, 0) == PutFrom(Put(b, runs[0]), runs, 1);
    FirstThenRest(Runs(b.text), runs, b.text == "" || Separator(b) != "");
  }

  lemma FirstThenRest(a: seq<string>, runs: seq<string>, apart: bool)
    requires |runs| > 0
    ensures JoinRuns(a, [runs[0]], apart) + runs[1..] == JoinRuns(a, runs, apart)
  {
    RunsFrom(runs, 0);
    Regroup(a, [runs[0]], runs[1..]);
    assert [runs[0]][1..] == [];
  }
}
