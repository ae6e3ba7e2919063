/** Which elements of a subtree are marked, one record each in the order they close, and which are its
    lines in no other line: both by where they stand. */
module MarkedPlaces {
  import opened Options
  import opened FlatText
  import opened Flatten
  import opened FlattenShape
  import opened FlattenAlone
  import opened TreePlaces

  predicate IsMarkKind(name: string) {
    || name == "Addition" || name == "Deletion" || name == "Illegible"
    || name == "Gap" || name == "InterlinearNote" || name == "Description"
  }

  predicate IsMarkedAt(nodes: Nodes, path: Path) {
    ElementAt(nodes, path).Some? && IsMarkKind(ElementAt(nodes, path).value.name)
  }

  /** The first way's element ends before the second's: what is in it first, then itself. */
  predicate ClosesBefore(p: Path, q: Path) {
    |p| > 0 && (|q| == 0 || p[0] < q[0] || (p[0] == q[0] && ClosesBefore(p[1..], q[1..])))
  }

  predicate IsLineAt(nodes: Nodes, path: Path) {
    ElementAt(nodes, path).Some? && ElementAt(nodes, path).value.name == "Line"
  }

  /** Some element on the way, the last included, is a line. */
  predicate InLine(nodes: Nodes, path: Path) {
    exists k :: 0 < k <= |path| && IsLineAt(nodes, path[..k])
  }

  /** The record is of the element there: whether it is inside a line, and how deep. */
  predicate IsRecordOf(m: Marked, nodes: Nodes, path: Path, insideLine: bool, depth: nat) {
    && |path| > 0 && ElementAt(nodes, path) == Some(m.element)
    && (m.insideLine <==> insideLine || InLine(nodes, path)) && m.depth == depth + |path|
  }

  ghost predicate AllAreRecords(
    nodes: Nodes, marked: seq<Marked>, places: seq<Path>, insideLine: bool, depth: nat)
  {
    && |places| == |marked|
    && forall i :: 0 <= i < |places| ==> IsRecordOf(marked[i], nodes, places[i], insideLine, depth)
  }

  ghost predicate Close(places: seq<Path>) {
    forall i, j :: 0 <= i < j < |places| ==> ClosesBefore(places[i], places[j])
  }

  /** The records are of the elements of the six kinds, one for each place, in closing order. */
  ghost predicate AreMarked(nodes: Nodes, marked: seq<Marked>, places: seq<Path>, insideLine: bool, depth: nat) {
    && AllAreRecords(nodes, marked, places, insideLine, depth) && Close(places)
    && forall path: Path :: path in places <==> IsMarkedAt(nodes, path)
  }

  lemma InLineBelow(c: Element, rest: Nodes, p: Path)
    requires |p| > 0
    ensures InLine(Node(c, rest), [0] + p) <==> c.name == "Line" || InLine(c.children, p)
  {
    var nodes, q := Node(c, rest), [0] + p;
    AtOwn(c, rest);
    assert q[..1] == [0];
    forall k | 0 < k <= |p|
      ensures IsLineAt(nodes, q[..k + 1]) <==> IsLineAt(c.children, p[..k])
    {
      assert q[..k + 1] == [0] + p[..k];
      AtBelow(c, rest, p[..k]);
    }
    if c.name == "Line" { assert IsLineAt(nodes, q[..1]); }
    if InLine(c.children, p) {
      var k :| 0 < k <= |p| && IsLineAt(c.children, p[..k]);
      assert IsLineAt(nodes, q[..k + 1]);
    }
    if InLine(nodes, q) {
      var k :| 0 < k <= |q| && IsLineAt(nodes, q[..k]);
      if k > 1 {
        var m := k - 1;
        assert IsLineAt(nodes, q[..m + 1]) && IsLineAt(c.children, p[..m]);
      }
    }
  }

  lemma InLineBeside(c: Element, rest: Nodes, p: Path)
    requires |p| > 0
    ensures InLine(Node(c, rest), [p[0] + 1] + p[1..]) <==> InLine(rest, p)
  {
    var nodes, q := Node(c, rest), [p[0] + 1] + p[1..];
    forall k | 0 < k <= |p|
      ensures IsLineAt(nodes, q[..k]) <==> IsLineAt(rest, p[..k])
    {
      assert q[..k] == [p[..k][0] + 1] + p[..k][1..];
      AtBeside(c, rest, p[..k]);
    }
  }

  lemma InLineOwn(c: Element, rest: Nodes)
    ensures InLine(Node(c, rest), [0]) <==> c.name == "Line"
  {
    AtOwn(c, rest);
    assert [0][..1] == [0];
  }

  lemma {:induction false} RecordsBelow(
      c: Element, rest: Nodes, marked: seq<Marked>, places: seq<Path>, insideLine: bool, depth: nat)
    requires AllAreRecords(c.children, marked, places, insideLine || BreaksLine(c, insideLine), depth + 1)
    requires Close(places)
    ensures AllAreRecords(Node(c, rest), marked, Below(places), insideLine, depth) && Close(Below(places))
  {
    forall i | 0 <= i < |places|
      ensures IsRecordOf(marked[i], Node(c, rest), Below(places)[i], insideLine, depth)
    {
      assert IsRecordOf(marked[i], c.children, places[i], insideLine || BreaksLine(c, insideLine), depth + 1);
      AtBelow(c, rest, places[i]);
      InLineBelow(c, rest, places[i]);
    }
    forall i, j | 0 <= i < j < |places|
      ensures ClosesBefore(Below(places)[i], Below(places)[j])
    {
      assert ClosesBefore(places[i], places[j]);
      assert ([0] + places[i])[1..] == places[i] && ([0] + places[j])[1..] == places[j];
    }
  }

  lemma {:induction false} RecordsBeside(
      c: Element, rest: Nodes, marked: seq<Marked>, places: seq<Path>, insideLine: bool, depth: nat)
    requires AllAreRecords(rest, marked, places, insideLine, depth) && Close(places) && AllWays(places)
    ensures AllAreRecords(Node(c, rest), marked, Beside(places), insideLine, depth) && Close(Beside(places))
  {
    forall i | 0 <= i < |places|
      ensures IsRecordOf(marked[i], Node(c, rest), Beside(places)[i], insideLine, depth)
    {
      assert IsRecordOf(marked[i], rest, places[i], insideLine, depth);
      AtBeside(c, rest, places[i]);
      InLineBeside(c, rest, places[i]);
    }
    forall i, j | 0 <= i < j < |places|
      ensures ClosesBefore(Beside(places)[i], Beside(places)[j])
    {
      assert ClosesBefore(places[i], places[j]);
      var x, y := Beside(places)[i], Beside(places)[j];
      assert x[1..] == places[i][1..] && y[1..] == places[j][1..];
    }
  }

  lemma RecordOwn(c: Element, rest: Nodes, insideLine: bool, depth: nat)
    ensures IsRecordOf(
              Marked(c, insideLine || BreaksLine(c, insideLine), depth + 1), Node(c, rest), [0], insideLine, depth)
  {
    AtOwn(c, rest);
    InLineOwn(c, rest);
  }

  lemma RecordsJoin(
      nodes: Nodes, x: seq<Marked>, p: seq<Path>, y: seq<Marked>, q: seq<Path>, insideLine: bool, depth: nat)
    requires AllAreRecords(nodes, x, p, insideLine, depth) && AllAreRecords(nodes, y, q, insideLine, depth)
    requires Close(p) && Close(q)
    requires forall i, j :: 0 <= i < |p| && 0 <= j < |q| ==> ClosesBefore(p[i], q[j])
    ensures AllAreRecords(nodes, x + y, p + q, insideLine, depth) && Close(p + q)
  {
  }

  lemma {:induction false} MarkedByPlace(nodes: Nodes, insideLine: bool, depth: nat) returns (places: seq<Path>)
    ensures AreMarked(nodes, MarkedInNodes(nodes, insideLine, depth), places, insideLine, depth)
  {
    match nodes
    case End => places := [];
    case Node(c, rest) =>
      var inner := MarkedByPlace(c.children, insideLine || BreaksLine(c, insideLine), depth + 1);
      var later := MarkedByPlace(rest, insideLine, depth);
      places := Below(inner) + OwnPlace(IsMarked(c)) + Beside(later);
      NodeMarked(c, rest, inner, later, insideLine, depth);
      forall path: Path
        ensures path in places <==> IsMarkedAt(nodes, path)
      {
        MarkedHere(c, rest, inner, later, path);
      }
  }

  lemma {:induction false} NodeMarked(
      c: Element, rest: Nodes, inner: seq<Path>, later: seq<Path>, insideLine: bool, depth: nat)
    requires var inside := insideLine || BreaksLine(c, insideLine);
             AllAreRecords(c.children, MarkedIn(c, inside, depth + 1), inner, inside, depth + 1) && Close(inner)
    requires AllAreRecords(rest, MarkedInNodes(rest, insideLine, depth), later, insideLine, depth) && Close(later)
    requires AllWays(inner) && AllWays(later)
    ensures var places := Below(inner) + OwnPlace(IsMarked(c)) + Beside(later);
            && AllAreRecords(Node(c, rest), MarkedInNodes(Node(c, rest), insideLine, depth), places, insideLine, depth)
            && Close(places)
  {
    var nodes, inside := Node(c, rest), insideLine || BreaksLine(c, insideLine);
    var own := if IsMarked(c) then [Marked(c, inside, depth + 1)] else [];
    RecordsBelow(c, rest, MarkedIn(c, inside, depth + 1), inner, insideLine, depth);
    RecordsBeside(c, rest, MarkedInNodes(rest, insideLine, depth), later, insideLine, depth);
    RecordOwn(c, rest, insideLine, depth);
    OwnBehindInner(inner, IsMarked(c));
    RecordsJoin(nodes, MarkedIn(c, inside, depth + 1), Below(inner), own, OwnPlace(IsMarked(c)), insideLine, depth);
    RecordsJoin(nodes, MarkedInChild(c, insideLine, depth), Below(inner) + OwnPlace(IsMarked(c)),
      MarkedInNodes(rest, insideLine, depth), Beside(later), insideLine, depth);
  }

  lemma OwnBehindInner(inner: seq<Path>, own: bool)
    requires AllWays(inner)
    ensures forall i, j :: 0 <= i < |inner| && 0 <= j < |OwnPlace(own)| ==>
              ClosesBefore(Below(inner)[i], OwnPlace(own)[j])
  {
    forall i | 0 <= i < |inner|
      ensures ClosesBefore([0] + inner[i], [0])
    {
      assert ([0] + inner[i])[1..] == inner[i] && [0][1..] == [];
    }
  }

  lemma MarkedHere(c: Element, rest: Nodes, inner: seq<Path>, later: seq<Path>, path: Path)
    requires AllWays(inner) && AllWays(later)
    requires |path| > 1 ==> (path[1..] in inner <==> IsMarkedAt(c.children, path[1..]))
    requires |path| > 0 && path[0] > 0 ==>
               ([path[0] - 1] + path[1..] in later <==> IsMarkedAt(rest, [path[0] - 1] + path[1..]))
    ensures path in Below(inner) + OwnPlace(IsMarked(c)) + Beside(later) <==> IsMarkedAt(Node(c, rest), path)
  {
    NodePlaces(IsMarked(c), inner, later, path);
  }

  // --- lines in no other line -------------------------------------------------------------------------

  predicate IsOuterLineAt(nodes: Nodes, path: Path) {
    IsLineAt(nodes, path) && |path| > 0 && !InLine(nodes, path[..|path| - 1])
  }

  /** The count is the number of these places, each listed once. */
  ghost predicate AreOuterLines(nodes: Nodes, count: nat, places: seq<Path>) {
    && |places| == count && AllWays(places)
    && (forall i, j :: 0 <= i < j < |places| ==> StartsBefore(places[i], places[j]))
    && (forall path: Path :: path in places <==> IsOuterLineAt(nodes, path))
  }

  lemma {:induction false} LinesByPlace(nodes: Nodes) returns (places: seq<Path>)
    ensures AreOuterLines(nodes, OuterLines(nodes), places)
  {
    match nodes
    case End => places := [];
    case Node(c, rest) =>
      var own := c.name == "Line";
      var inner: seq<Path> := [];
      if !own { inner := LinesByPlace(c.children); }
      var later := LinesByPlace(rest);
      places := OwnPlace(own) + Below(inner) + Beside(later);
      Ascend(own, inner, later);
      forall path: Path
        ensures path in places <==> IsOuterLineAt(nodes, path)
      {
        LineHere(c, rest, inner, later, path);
      }
  }

  lemma Ascend(own: bool, inner: seq<Path>, later: seq<Path>)
    requires AllWays(inner) && AllWays(later)
    requires forall i, j :: 0 <= i < j < |inner| ==> StartsBefore(inner[i], inner[j])
    requires forall i, j :: 0 <= i < j < |later| ==> StartsBefore(later[i], later[j])
    ensures var places := OwnPlace(own) + Below(inner) + Beside(later);
            AllWays(places) && forall i, j :: 0 <= i < j < |places| ==> StartsBefore(places[i], places[j])
  {
    var p, q := Below(inner), Beside(later);
    forall i, j | 0 <= i < j < |p|
      ensures StartsBefore(p[i], p[j])
    {
      assert p[i][1..] == inner[i] && p[j][1..] == inner[j];
    }
    forall i, j | 0 <= i < j < |q|
      ensures StartsBefore(q[i], q[j])
    {
      assert StartsBefore(later[i], later[j]);
      assert q[i][1..] == later[i][1..] && q[j][1..] == later[j][1..];
    }
  }

  lemma LineHere(c: Element, rest: Nodes, inner: seq<Path>, later: seq<Path>, path: Path)
    requires AllWays(inner) && AllWays(later)
    requires |path| > 1 ==> (path[1..] in inner <==> c.name != "Line" && IsOuterLineAt(c.children, path[1..]))
    requires |path| > 0 && path[0] > 0 ==>
               ([path[0] - 1] + path[1..] in later <==> IsOuterLineAt(rest, [path[0] - 1] + path[1..]))
    ensures path in OwnPlace(c.name == "Line") + Below(inner) + Beside(later) <==> IsOuterLineAt(Node(c, rest), path)
  {
    NodePlaces(c.name == "Line", inner, later, path);
    if |path| > 0 { OuterLineSplits(c, rest, path); }
  }

  lemma {:induction false} OuterLineSplits(c: Element, rest: Nodes, path: Path)
    requires |path| > 0
    ensures IsOuterLineAt(Node(c, rest), path) <==>
              if path[0] > 0 then IsOuterLineAt(rest, [path[0] - 1] + path[1..])
              else if |path| == 1 then c.name == "Line"
              else c.name != "Line" && IsOuterLineAt(c.children, path[1..])
  {
    WayIs(path);
    AtOwn(c, rest);
    var nodes, above := Node(c, rest), path[..|path| - 1];
    if path[0] > 0 {
      var p := [path[0] - 1] + path[1..];
      AtBeside(c, rest, p);
      if |path| > 1 {
        var short := p[..|p| - 1];
        assert short[0] == path[0] - 1 && short[1..] == above[1..];
        assert above == [short[0] + 1] + short[1..];
        InLineBeside(c, rest, short);
      }
    } else if |path| > 1 {
      var p := path[1..];
      AtBelow(c, rest, p);
      assert above == [0] + p[..|p| - 1];
      if |p| > 1 { InLineBelow(c, rest, p[..|p| - 1]); } else { InLineOwn(c, rest); }
    }
  }
}
