/** Places in a tree of elements, in document order: which elements a page list and a section list
    hold, by where they stand. */
module TreePlaces {
  import opened Options
  import opened FlatText
  import opened Flatten

  /** The way to an element from a node list: which node, then which of its children, and so on. */
  type Path = seq<nat>

  /** The element the way leads to, if there is one. */
  function ElementAt(nodes: Nodes, path: Path): Option<Element> {
    if |path| == 0 then None
    else
      match nodes
      case End => None
      case Node(c, rest) =>
        if path[0] > 0 then ElementAt(rest, [path[0] - 1] + path[1..])
        else if |path| == 1 then Some(c)
        else ElementAt(c.children, path[1..])
  }

  /** The first way's element starts before the second's in the document. */
  predicate StartsBefore(p: Path, q: Path) {
    |q| > 0 && (|p| == 0 || p[0] < q[0] || (p[0] == q[0] && StartsBefore(p[1..], q[1..])))
  }

  /** The elements found stand at these places, each once, in document order. */
  ghost predicate Lists(nodes: Nodes, found: seq<Element>, places: seq<Path>) {
    && |places| == |found|
    && (forall i :: 0 <= i < |places| ==> |places[i]| > 0 && ElementAt(nodes, places[i]) == Some(found[i]))
    && (forall i, j :: 0 <= i < j < |places| ==> StartsBefore(places[i], places[j]))
  }

  predicate AllWays(places: seq<Path>) {
    forall i :: 0 <= i < |places| ==> |places[i]| > 0
  }

  /** Ways from the first node's children, and from the nodes after it. */
  function Below(places: seq<Path>): (ways: seq<Path>)
    ensures |ways| == |places| && forall i :: 0 <= i < |places| ==> ways[i] == [0] + places[i]
  {
    seq(|places|, i requires 0 <= i < |places| => [0] + places[i])
  }

  function Beside(places: seq<Path>): (ways: seq<Path>)
    requires AllWays(places)
    ensures |ways| == |places|
    ensures forall i :: 0 <= i < |places| ==> ways[i] == [places[i][0] + 1] + places[i][1..]
  {
    seq(|places|, i requires 0 <= i < |places| => [places[i][0] + 1] + places[i][1..])
  }

  lemma AtOwn(c: Element, rest: Nodes)
    ensures ElementAt(Node(c, rest), [0]) == Some(c)
  {
  }

  lemma AtBelow(c: Element, rest: Nodes, p: Path)
    requires |p| > 0
    ensures ElementAt(Node(c, rest), [0] + p) == ElementAt(c.children, p)
  {
    assert ([0] + p)[1..] == p;
  }

  lemma AtBeside(c: Element, rest: Nodes, p: Path)
    requires |p| > 0
    ensures ElementAt(Node(c, rest), [p[0] + 1] + p[1..]) == ElementAt(rest, p)
  {
    var q := [p[0] + 1] + p[1..];
    assert q[1..] == p[1..] && [q[0] - 1] + q[1..] == p;
  }

  lemma {:induction false} BelowLists(c: Element, rest: Nodes, found: seq<Element>, places: seq<Path>)
    requires Lists(c.children, found, places)
    ensures Lists(Node(c, rest), found, Below(places))
  {
    var ways := Below(places);
    forall i | 0 <= i < |ways|
      ensures ElementAt(Node(c, rest), ways[i]) == Some(found[i])
    {
      AtBelow(c, rest, places[i]);
    }
    forall i, j | 0 <= i < j < |ways|
      ensures StartsBefore(ways[i], ways[j])
    {
      assert ways[i][1..] == places[i] && ways[j][1..] == places[j];
    }
  }

  lemma {:induction false} BesideLists(c: Element, rest: Nodes, found: seq<Element>, places: seq<Path>)
    requires Lists(rest, found, places)
    ensures Lists(Node(c, rest), found, Beside(places))
  {
    var ways := Beside(places);
    forall i | 0 <= i < |ways|
      ensures ElementAt(Node(c, rest), ways[i]) == Some(found[i])
    {
      AtBeside(c, rest, places[i]);
    }
    forall i, j | 0 <= i < j < |ways|
      ensures StartsBefore(ways[i], ways[j])
    {
      assert StartsBefore(places[i], places[j]);
      assert ways[i][1..] == places[i][1..] && ways[j][1..] == places[j][1..];
    }
  }

  /** Every way of the one list starts before every way of the other. */
  ghost predicate AllBefore(x: seq<Path>, y: seq<Path>) {
    forall i, j :: 0 <= i < |x| && 0 <= j < |y| ==> StartsBefore(x[i], y[j])
  }

  lemma ListsJoin(nodes: Nodes, x: seq<Element>, p: seq<Path>, y: seq<Element>, q: seq<Path>)
    requires Lists(nodes, x, p) && Lists(nodes, y, q) && AllBefore(p, q)
    ensures Lists(nodes, x + y, p + q)
  {
  }

  function OwnPlace(own: bool): seq<Path> {
    if own then [[0]] else []
  }

  /** The first node if it is wanted, what is wanted below it, and what is beside it. */
  lemma {:induction false} NodeLists(
    c: Element, rest: Nodes, own: bool, inner: seq<Element>, innerPlaces: seq<Path>, later: seq<Element>,
    laterPlaces: seq<Path>)
    requires Lists(c.children, inner, innerPlaces) && Lists(rest, later, laterPlaces)
    ensures Lists(Node(c, rest), (if own then [c] else []) + inner + later,
              OwnPlace(own) + Below(innerPlaces) + Beside(laterPlaces))
  {
    var nodes := Node(c, rest);
    AtOwn(c, rest);
    BelowLists(c, rest, inner, innerPlaces);
    BesideLists(c, rest, later, laterPlaces);
    ListsJoin(nodes, if own then [c] else [], OwnPlace(own), inner, Below(innerPlaces));
    ListsJoin(nodes, (if own then [c] else []) + inner, OwnPlace(own) + Below(innerPlaces), later,
      Beside(laterPlaces));
  }

  /** Which ways the three parts hold. */
  lemma {:induction false} NodePlaces(own: bool, inner: seq<Path>, later: seq<Path>, path: Path)
    requires AllWays(inner) && AllWays(later)
    ensures path in OwnPlace(own) + Below(inner) + Beside(later) <==>
              || (path == [0] && own)
              || (|path| > 1 && path[0] == 0 && path[1..] in inner)
              || (|path| > 0 && path[0] > 0 && [path[0] - 1] + path[1..] in later)
  {
    BelowHolds(inner, path);
    BesideHolds(later, path);
  }

  lemma BelowHolds(inner: seq<Path>, path: Path)
    requires AllWays(inner)
    ensures path in Below(inner) <==> |path| > 1 && path[0] == 0 && path[1..] in inner
  {
    if path in Below(inner) {
      var i :| 0 <= i < |inner| && Below(inner)[i] == path;
      assert path[1..] == inner[i];
    }
    if |path| > 1 && path[0] == 0 && path[1..] in inner {
      var i :| 0 <= i < |inner| && inner[i] == path[1..];
      assert Below(inner)[i] == path;
    }
  }

  lemma BesideHolds(later: seq<Path>, path: Path)
    requires AllWays(later)
    ensures path in Beside(later) <==> |path| > 0 && path[0] > 0 && [path[0] - 1] + path[1..] in later
  {
    if path in Beside(later) {
      var i :| 0 <= i < |later| && Beside(later)[i] == path;
      assert [path[0] - 1] + path[1..] == later[i];
    }
    if |path| > 0 && path[0] > 0 && [path[0] - 1] + path[1..] in later {
      var i :| 0 <= i < |later| && later[i] == [path[0] - 1] + path[1..];
      assert Beside(later)[i] == path;
    }
  }

  // --- pages and their own sections -------------------------------------------------------------

  const PAGE_SECTIONS: seq<string> := ["Header", "Body", "Footer"]

  /** The pages below a node list, in document order. */
  function PagesIn(nodes: Nodes): seq<Element> {
    match nodes
    case End => []
    case Node(c, rest) => (if c.name == "Page" then [c] else []) + PagesIn(c.children) + PagesIn(rest)
  }

  /** The sections a node list owns: under no nested page and under no other section. */
  function OwnedIn(nodes: Nodes): seq<Element> {
    match nodes
    case End => []
    case Node(c, rest) => OwnedBy(c) + OwnedIn(rest)
  }

  function OwnedBy(c: Element): seq<Element> {
    if c.name == "Page" then []
    else if c.name in PAGE_SECTIONS then [c]
    else OwnedIn(c.children)
  }

  /** Whether a node list writes text outside every section it owns. */
  predicate OutsideIn(nodes: Nodes) {
    match nodes
    case End => false
    case Node(c, rest) => OutsideBy(c) || OutsideIn(rest)
  }

  predicate OutsideBy(c: Element) {
    || !IsBlank(c.tail)
    || (c.name != "Page" && c.name !in PAGE_SECTIONS && (!IsBlank(c.text) || OutsideIn(c.children)))
  }

  // --- the pages by their places ----------------------------------------------------------------

  predicate IsPageAt(nodes: Nodes, path: Path) {
    ElementAt(nodes, path).Some? && ElementAt(nodes, path).value.name == "Page"
  }

  /** The elements found are those named "Page", one for each place, in document order. */
  ghost predicate ArePages(nodes: Nodes, found: seq<Element>, places: seq<Path>) {
    Lists(nodes, found, places) && forall path: Path :: path in places <==> IsPageAt(nodes, path)
  }

  lemma {:induction false} PagesByPlace(nodes: Nodes) returns (places: seq<Path>)
    ensures ArePages(nodes, PagesIn(nodes), places)
  {
    match nodes
    case End => places := [];
    case Node(c, rest) =>
      var inner := PagesByPlace(c.children);
      var later := PagesByPlace(rest);
      var own := c.name == "Page";
      places := OwnPlace(own) + Below(inner) + Beside(later);
      NodeLists(c, rest, own, PagesIn(c.children), inner, PagesIn(rest), later);
      forall path: Path
        ensures path in places <==> IsPageAt(nodes, path)
      {
        PageHere(c, rest, inner, later, path);
      }
  }

  lemma PageHere(c: Element, rest: Nodes, inner: seq<Path>, later: seq<Path>, path: Path)
    requires AllWays(inner) && AllWays(later)
    requires |path| > 1 ==> (path[1..] in inner <==> IsPageAt(c.children, path[1..]))
    requires |path| > 0 && path[0] > 0 ==>
               ([path[0] - 1] + path[1..] in later <==> IsPageAt(rest, [path[0] - 1] + path[1..]))
    ensures path in OwnPlace(c.name == "Page") + Below(inner) + Beside(later) <==> IsPageAt(Node(c, rest), path)
  {
    NodePlaces(c.name == "Page", inner, later, path);
  }

  // --- a page's own sections by their places ----------------------------------------------------

  predicate EndsSearch(c: Element) {
    c.name == "Page" || IsSection(c)
  }

  predicate IsSection(c: Element) {
    c.name == "Header" || c.name == "Body" || c.name == "Footer"
  }

  /** No element on the way there is a page or a section. */
  predicate IsReached(nodes: Nodes, path: Path) {
    forall k :: 0 < k < |path| ==> !EndsAt(nodes, path[..k])
  }

  predicate EndsAt(nodes: Nodes, path: Path) {
    ElementAt(nodes, path).Some? && EndsSearch(ElementAt(nodes, path).value)
  }

  predicate IsOwnAt(nodes: Nodes, path: Path) {
    ElementAt(nodes, path).Some? && IsSection(ElementAt(nodes, path).value) && IsReached(nodes, path)
  }

  /** The elements found are the sections under no nested page and under no other section, one for
      each place, in document order. */
  ghost predicate AreOwned(nodes: Nodes, found: seq<Element>, places: seq<Path>) {
    Lists(nodes, found, places) && forall path: Path :: path in places <==> IsOwnAt(nodes, path)
  }

  /** Some character is none of the six of ASCII white space. */
  predicate HoldsText(s: string) {
    exists k :: 0 <= k < |s| && s[k] !in " \t\n\r\U{000B}\U{000C}"
  }

  lemma HoldsTextIs(s: string)
    ensures HoldsText(s) <==> !IsBlank(s)
  {
    forall k | 0 <= k < |s|
      ensures s[k] !in " \t\n\r\U{000B}\U{000C}" <==> !IsBlankChar(s[k])
    {
    }
  }

  /** The element there is reached, and its tail is not blank, or its own text is not and it is
      neither a page nor a section. */
  predicate IsOutsideAt(nodes: Nodes, path: Path) {
    && ElementAt(nodes, path).Some? && IsReached(nodes, path)
    && var c := ElementAt(nodes, path).value;
       HoldsText(c.tail) || (!EndsSearch(c) && HoldsText(c.text))
  }

  lemma ReachedBelow(c: Element, rest: Nodes, p: Path)
    requires |p| > 0
    ensures IsReached(Node(c, rest), [0] + p) <==> !EndsSearch(c) && IsReached(c.children, p)
  {
    var nodes, q := Node(c, rest), [0] + p;
    AtOwn(c, rest);
    assert q[..1] == [0];
    forall k | 0 < k < |p|
      ensures EndsAt(nodes, q[..k + 1]) <==> EndsAt(c.children, p[..k])
    {
      assert q[..k + 1] == [0] + p[..k];
      AtBelow(c, rest, p[..k]);
    }
    if IsReached(nodes, q) {
      assert !EndsAt(nodes, q[..1]);
      forall k | 0 < k < |p|
        ensures !EndsAt(c.children, p[..k])
      {
        assert !EndsAt(nodes, q[..k + 1]);
      }
    }
    if !EndsSearch(c) && IsReached(c.children, p) {
      forall k | 0 < k < |q|
        ensures !EndsAt(nodes, q[..k])
      {
        if k > 1 {
          var m := k - 1;
          assert EndsAt(nodes, q[..m + 1]) <==> EndsAt(c.children, p[..m]);
        }
      }
    }
  }

  lemma ReachedBeside(c: Element, rest: Nodes, p: Path)
    requires |p| > 0
    ensures IsReached(Node(c, rest), [p[0] + 1] + p[1..]) <==> IsReached(rest, p)
  {
    var nodes, q := Node(c, rest), [p[0] + 1] + p[1..];
    forall k | 0 < k < |p|
      ensures EndsAt(nodes, q[..k]) <==> EndsAt(rest, p[..k])
    {
      assert p[..k][1..] == p[1..k];
      assert q[..k] == [p[..k][0] + 1] + p[..k][1..];
      AtBeside(c, rest, p[..k]);
    }
  }

  lemma ReachedFirst(nodes: Nodes, path: Path)
    requires |path| <= 1
    ensures IsReached(nodes, path)
  {
  }

  /** Every way from a node list is to the first node, below it or beside it. */
  lemma WayIs(path: Path)
    requires |path| > 0
    ensures path[0] == 0 && |path| > 1 ==> path == [0] + path[1..]
    ensures path[0] == 0 && |path| == 1 ==> path == [0]
    ensures path[0] > 0 ==> path == [([path[0] - 1] + path[1..])[0] + 1] + ([path[0] - 1] + path[1..])[1..]
  {
    if path[0] > 0 {
      assert ([path[0] - 1] + path[1..])[1..] == path[1..];
    }
  }

  lemma {:induction false} OwnAtSplits(c: Element, rest: Nodes, path: Path)
    requires |path| > 0
    ensures IsOwnAt(Node(c, rest), path) <==>
              if path[0] > 0 then IsOwnAt(rest, [path[0] - 1] + path[1..])
              else if |path| == 1 then IsSection(c)
              else !EndsSearch(c) && IsOwnAt(c.children, path[1..])
  {
    WayIs(path);
    AtOwn(c, rest);
    ReachedFirst(Node(c, rest), [0]);
    if path[0] > 0 {
      AtBeside(c, rest, [path[0] - 1] + path[1..]);
      ReachedBeside(c, rest, [path[0] - 1] + path[1..]);
    } else if |path| > 1 {
      AtBelow(c, rest, path[1..]);
      ReachedBelow(c, rest, path[1..]);
    }
  }

  lemma {:induction false} OutsideAtSplits(c: Element, rest: Nodes, path: Path)
    requires |path| > 0
    ensures IsOutsideAt(Node(c, rest), path) <==>
              if path[0] > 0 then IsOutsideAt(rest, [path[0] - 1] + path[1..])
              else if |path| == 1 then HoldsText(c.tail) || (!EndsSearch(c) && HoldsText(c.text))
              else !EndsSearch(c) && IsOutsideAt(c.children, path[1..])
  {
    WayIs(path);
    AtOwn(c, rest);
    ReachedFirst(Node(c, rest), [0]);
    if path[0] > 0 {
      AtBeside(c, rest, [path[0] - 1] + path[1..]);
      ReachedBeside(c, rest, [path[0] - 1] + path[1..]);
    } else if |path| > 1 {
      AtBelow(c, rest, path[1..]);
      ReachedBelow(c, rest, path[1..]);
    }
  }

  lemma {:induction false} OwnedByPlace(nodes: Nodes) returns (places: seq<Path>)
    ensures AreOwned(nodes, OwnedIn(nodes), places)
  {
    match nodes
    case End => places := [];
    case Node(c, rest) =>
      var later := OwnedByPlace(rest);
      if EndsSearch(c) {
        places := OwnPlace(IsSection(c)) + Below([]) + Beside(later);
        NodeOwned(c, rest, [], [], later);
      } else {
        var inner := OwnedByPlace(c.children);
        places := OwnPlace(IsSection(c)) + Below(inner) + Beside(later);
        NodeOwned(c, rest, OwnedIn(c.children), inner, later);
      }
  }

  lemma {:induction false} NodeOwned(
    c: Element, rest: Nodes, below: seq<Element>, inner: seq<Path>, later: seq<Path>)
    requires AreOwned(rest, OwnedIn(rest), later)
    requires if EndsSearch(c) then below == [] && inner == []
             else below == OwnedIn(c.children) && AreOwned(c.children, below, inner)
    ensures AreOwned(Node(c, rest), OwnedIn(Node(c, rest)), OwnPlace(IsSection(c)) + Below(inner) + Beside(later))
  {
    NodeLists(c, rest, IsSection(c), below, inner, OwnedIn(rest), later);
    OwnedByIs(c);
    forall path: Path
      ensures path in OwnPlace(IsSection(c)) + Below(inner) + Beside(later) <==> IsOwnAt(Node(c, rest), path)
    {
      OwnHere(c, rest, inner, later, path);
    }
  }

  lemma OwnedByIs(c: Element)
    ensures OwnedBy(c) == (if IsSection(c) then [c] else []) + if EndsSearch(c) then [] else OwnedIn(c.children)
  {
  }

  lemma OwnHere(c: Element, rest: Nodes, inner: seq<Path>, later: seq<Path>, path: Path)
    requires AllWays(inner) && AllWays(later)
    requires |path| > 1 ==> (path[1..] in inner <==> !EndsSearch(c) && IsOwnAt(c.children, path[1..]))
    requires |path| > 0 && path[0] > 0 ==>
               ([path[0] - 1] + path[1..] in later <==> IsOwnAt(rest, [path[0] - 1] + path[1..]))
    ensures path in OwnPlace(IsSection(c)) + Below(inner) + Beside(later) <==> IsOwnAt(Node(c, rest), path)
  {
    NodePlaces(IsSection(c), inner, later, path);
    if |path| > 0 { OwnAtSplits(c, rest, path); }
  }

  /** Text lies outside the sections exactly when some place outside them holds text. */
  lemma {:induction false} OutsideByPlace(nodes: Nodes)
    ensures OutsideIn(nodes) <==> exists path: Path :: IsOutsideAt(nodes, path)
  {
    match nodes
    case End =>
    case Node(c, rest) =>
      OutsideByPlace(c.children);
      OutsideByPlace(rest);
      HoldsTextIs(c.tail);
      HoldsTextIs(c.text);
      if OutsideIn(nodes) { OutsideIsSomewhere(c, rest); }
      forall path: Path | IsOutsideAt(nodes, path)
        ensures OutsideIn(nodes)
      {
        OutsideAtSplits(c, rest, path);
      }
  }

  lemma {:induction false} OutsideIsSomewhere(c: Element, rest: Nodes)
    requires OutsideIn(Node(c, rest)) && (HoldsText(c.tail) <==> !IsBlank(c.tail))
    requires HoldsText(c.text) <==> !IsBlank(c.text)
    requires OutsideIn(c.children) <==> exists path: Path :: IsOutsideAt(c.children, path)
    requires OutsideIn(rest) <==> exists path: Path :: IsOutsideAt(rest, path)
    ensures exists path: Path :: IsOutsideAt(Node(c, rest), path)
  {
    if OutsideIn(rest) {
      var p: Path :| IsOutsideAt(rest, p);
      var q := [p[0] + 1] + p[1..];
      assert [q[0] - 1] + q[1..] == p;
      OutsideAtSplits(c, rest, q);
    } else if HoldsText(c.tail) || (!EndsSearch(c) && HoldsText(c.text)) {
      OutsideAtSplits(c, rest, [0]);
    } else {
      var p: Path :| IsOutsideAt(c.children, p);
      assert ([0] + p)[1..] == p;
      OutsideAtSplits(c, rest, [0] + p);
    }
  }
}
