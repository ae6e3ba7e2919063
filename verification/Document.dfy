/** A whole document: its pages, each page's own sections, and their flattened text. */
module Document {
  import opened Options
  import opened Arithmetic
  import opened FlatText
  import opened Flatten
  import opened FlattenShape
  import opened FlattenAlone
  import opened FlattenContent
  import opened FlattenLayout
  import opened FlattenPlaces
  import opened TreePlaces
  import opened SectionJobs
  import opened MarkedPlaces
  import Sorting

  // --- pages and their own sections -------------------------------------------------------------

  function ElementsOf(nodes: Nodes): seq<Element> {
    match nodes
    case End => []
    case Node(c, rest) => [c] + ElementsOf(rest)
  }

  // The same over a stack of elements still to visit, first to visit first.

  function OwnedByAll(stack: seq<Element>): seq<Element> {
    if |stack| == 0 then [] else OwnedBy(stack[0]) + OwnedByAll(stack[1..])
  }

  predicate OutsideByAll(stack: seq<Element>) {
    |stack| > 0 && (OutsideBy(stack[0]) || OutsideByAll(stack[1..]))
  }

  function NodesSize(nodes: Nodes): nat {
    match nodes
    case End => 0
    case Node(c, rest) => 1 + NodesSize(c.children) + NodesSize(rest)
  }

  function StackSize(stack: seq<Element>): nat {
    if |stack| == 0 then 0 else 1 + NodesSize(stack[0].children) + StackSize(stack[1..])
  }

  lemma {:induction false} PushOwned(nodes: Nodes, stack: seq<Element>)
    ensures OwnedByAll(ElementsOf(nodes) + stack) == OwnedIn(nodes) + OwnedByAll(stack)
  {
    match nodes
    case End =>
      assert ElementsOf(nodes) + stack == stack;
    case Node(c, rest) =>
      PushOwned(rest, stack);
      var all := ElementsOf(nodes) + stack;
      assert all[0] == c && all[1..] == ElementsOf(rest) + stack;
      assert OwnedBy(c) + (OwnedIn(rest) + OwnedByAll(stack)) == OwnedBy(c) + OwnedIn(rest) + OwnedByAll(stack);
  }

  lemma {:induction false} PushOutside(nodes: Nodes, stack: seq<Element>)
    ensures OutsideByAll(ElementsOf(nodes) + stack) <==> OutsideIn(nodes) || OutsideByAll(stack)
  {
    match nodes
    case End =>
      assert ElementsOf(nodes) + stack == stack;
    case Node(c, rest) =>
      PushOutside(rest, stack);
      var all := ElementsOf(nodes) + stack;
      assert all[0] == c && all[1..] == ElementsOf(rest) + stack;
  }

  lemma {:induction false} PushSize(nodes: Nodes, stack: seq<Element>)
    ensures StackSize(ElementsOf(nodes) + stack) == NodesSize(nodes) + StackSize(stack)
  {
    match nodes
    case End =>
      assert ElementsOf(nodes) + stack == stack;
    case Node(c, rest) =>
      PushSize(rest, stack);
      var all := ElementsOf(nodes) + stack;
      assert all[0] == c && all[1..] == ElementsOf(rest) + stack;
  }

  lemma {:induction false} PushChildren(nodes: Nodes, stack: seq<Element>)
    ensures OwnedByAll(ElementsOf(nodes) + stack) == OwnedIn(nodes) + OwnedByAll(stack)
    ensures OutsideByAll(ElementsOf(nodes) + stack) <==> OutsideIn(nodes) || OutsideByAll(stack)
    ensures StackSize(ElementsOf(nodes) + stack) == NodesSize(nodes) + StackSize(stack)
  {
    PushOwned(nodes, stack);
    PushOutside(nodes, stack);
    PushSize(nodes, stack);
  }

  /** One page's own sections in document order, and whether text lies outside them: an
      explicit stack, since a response may nest as deeply as it likes. */
  method PageSections(page: Element) returns (sections: seq<Element>, outside: bool, ghost places: seq<Path>)
    ensures sections == OwnedIn(page.children) && AreOwned(page.children, sections, places)
    ensures outside <==> !IsBlank(page.text) || OutsideIn(page.children)
    ensures outside <==> HasOutside(page)
  {
    places := OwnedByPlace(page.children);
    OutsideByPlace(page.children);
    HoldsTextIs(page.text);
    sections, outside := [], !IsBlank(page.text);
    var stack := ElementsOf(page.children);
    PushChildren(page.children, []);
    assert stack + [] == stack && OwnedIn(page.children) + [] == OwnedIn(page.children);
    while |stack| > 0
      invariant sections + OwnedByAll(stack) == OwnedIn(page.children)
      invariant outside || OutsideByAll(stack) <==> !IsBlank(page.text) || OutsideIn(page.children)
      decreases StackSize(stack)
    {
      var c, rest := stack[0], stack[1..];
      if !IsBlank(c.tail) { outside := true; }
      if c.name == "Page" {
        stack := rest;
      } else if c.name in PAGE_SECTIONS {
        sections, stack := sections + [c], rest;
      } else {
        if !IsBlank(c.text) { outside := true; }
        PushChildren(c.children, rest);
        stack := ElementsOf(c.children) + rest;
      }
    }
  }

  // --- the sections to walk, in order -----------------------------------------------------------------

  function MarkedInJobs(jobs: seq<Job>): seq<Marked> {
    if |jobs| == 0 then [] else MarkedInJobs(jobs[..|jobs| - 1]) + MarkedIn(jobs[|jobs| - 1].section, false, 1)
  }

  datatype Section = Section(page: nat, name: string, start: nat, end: nat, lines: nat)

  /** What a section's record says: its span holds what the section flattens to alone, which is the
      layout of its pieces, and its lines are those in no other line. */
  ghost predicate Records(s: Section, job: Job, text: string) {
    && s.page == job.page && s.name == job.section.name
    && s.start <= s.end <= |text|
    && match WalkElement(job.section, FRESH, false, 1)
       case Failed(_) => false
       case Walked(b, _, _) =>
         && text[s.start..s.end] == b.text == Layout(ElementPieces(job.section, false))
         && s.lines == OuterLines(job.section.children)
  }

  /** The records of the sections walked so far: each holds its own text, one after another. */
  ghost predicate AllRecord(sections: seq<Section>, jobs: seq<Job>, text: string) {
    && |sections| == |jobs|
    && (forall i :: 0 <= i < |jobs| ==> Records(sections[i], jobs[i], text))
    && (forall i, j :: 0 <= i < j < |jobs| ==> sections[i].end <= sections[j].start)
  }

  /** No section of `jobs` nests past the bound. */
  ghost predicate AllFit(jobs: seq<Job>) {
    forall i :: 0 <= i < |jobs| ==> 1 + Height(jobs[i].section) <= 256
  }

  ghost predicate DocumentState(b: Builder, spans: seq<Span>, sections: seq<Section>, jobs: seq<Job>) {
    && IsGood(b) && |b.marks| == 0
    && AllRecord(sections, jobs, b.text) && AllHold(spans, MarkedInJobs(jobs), b.text) && AllFit(jobs)
    && (forall i :: 0 <= i < |spans| ==> spans[i].end <= |b.text|) && AllNest(spans)
    && NonBlank(b.text) == TextOfJobs(jobs) && OnlyNewlinesOutside(sections, b.text)
    && AreSeparated(sections, b.text) && AllInPlace(spans, PlacesIn(jobs), sections, jobs, b.text)
  }

  /** The sections' characters that are not white space, one section after another. */
  function TextOfJobs(jobs: seq<Job>): string {
    if |jobs| == 0 then "" else TextOfJobs(jobs[..|jobs| - 1]) + NonBlank(TextOf(jobs[|jobs| - 1].section))
  }

  predicate InSection(sections: seq<Section>, k: int) {
    exists i :: 0 <= i < |sections| && sections[i].start <= k < sections[i].end
  }

  /** Outside the sections there are only newlines. */
  predicate OnlyNewlinesOutside(sections: seq<Section>, text: string) {
    forall k :: 0 <= k < |text| ==> text[k] == '\n' || InSection(sections, k)
  }

  // --- where the marked spans stand -----------------------------------------------------------------

  /** The section a marked element is in, and the section's characters before it. */
  datatype Place = Place(job: nat, before: string)

  function PlacesOf(e: Element, job: nat): (places: seq<Place>)
    ensures |places| == |BeforesIn(e, "")|
    ensures forall i :: 0 <= i < |places| ==> places[i] == Place(job, BeforesIn(e, "")[i])
  {
    seq(|BeforesIn(e, "")|, i requires 0 <= i < |BeforesIn(e, "")| => Place(job, BeforesIn(e, "")[i]))
  }

  /** The places of the marked elements, in the order their marks close. */
  function PlacesIn(jobs: seq<Job>): (places: seq<Place>)
    ensures forall p :: p in places ==> p.job < |jobs|
  {
    if |jobs| == 0 then []
    else PlacesIn(jobs[..|jobs| - 1]) + PlacesOf(jobs[|jobs| - 1].section, |jobs| - 1)
  }

  /** The span ends in its own section, and starts in it too, but for a span without a character
      that is before the first of a filled section which other text is before: that one stands
      where that text ends. */
  predicate IsInOwn(x: Span, before: string, s: Section) {
    && x.end <= s.end
    && (s.start <= x.start <==> !(x.start == x.end && before == "" && IsFilled(s) && s.start > 0))
  }

  /** The span stands behind the text of the sections before its own and its section's characters
      before its element. */
  ghost predicate IsInPlace(x: Span, p: Place, sections: seq<Section>, jobs: seq<Job>, text: string)
    requires p.job < |jobs| == |sections|
  {
    Stands(x, TextOfJobs(jobs[..p.job]) + p.before, text) && IsInOwn(x, p.before, sections[p.job])
  }

  ghost predicate AllInPlace(
    spans: seq<Span>, places: seq<Place>, sections: seq<Section>, jobs: seq<Job>, text: string)
  {
    && |spans| == |places| && |sections| == |jobs|
    && forall i :: 0 <= i < |spans| ==>
         places[i].job < |jobs| && IsInPlace(spans[i], places[i], sections, jobs, text)
  }

  /** Places in earlier sections stay. */
  lemma {:induction false} InPlaceLater(
    spans: seq<Span>, places: seq<Place>, sections: seq<Section>, jobs: seq<Job>, text: string,
    s: Section, job: Job, later: string)
    requires AllInPlace(spans, places, sections, jobs, text) && text <= later
    ensures AllInPlace(spans, places, sections + [s], jobs + [job], later)
  {
    forall i | 0 <= i < |spans|
      ensures IsInPlace(spans[i], places[i], sections + [s], jobs + [job], later)
    {
      var p := places[i];
      assert IsInPlace(spans[i], p, sections, jobs, text);
      assert (jobs + [job])[..p.job] == jobs[..p.job] && (sections + [s])[p.job] == sections[p.job];
      StandsLater(spans[i], TextOfJobs(jobs[..p.job]) + p.before, text, later);
    }
  }

  /** A span that starts among the newlines before its section holds nothing and has nothing of the
      section before it. */
  lemma {:induction false} BeforeItsSection(base: string, text: string, x: Span, before: string, start: nat)
    requires |base| <= x.start < start <= |text| && base <= text
    requires text[|base|..start] == Newlines(start - |base|)
    requires Stands(x, NonBlank(base) + before, text)
    ensures x.start == x.end && before == ""
  {
    assert text[x.start] == text[|base|..start][x.start - |base|] == '\n';
    var gap := text[|base|..x.start];
    assert text[..x.start] == base + gap;
    assert forall k :: 0 <= k < |gap| ==> gap[k] == text[|base|..start][k];
    NonBlankJoin(base, gap);
    BlankIsNothing(gap);
    assert NonBlank(base) + before == NonBlank(base);
    assert |before| == 0;
  }

  /** Behind newlines alone no text ends in a character. */
  lemma EndsInNewline(base: string, text: string, start: nat)
    requires |base| < start <= |text| && text[|base|..start] == Newlines(start - |base|)
    ensures !EndsInRun(text[..start])
  {
    assert text[..start][start - 1] == text[|base|..start][start - 1 - |base|] == '\n';
  }

  /** Past a section's first character there is more than was before the section. */
  lemma MoreThanBefore(base: string, text: string, start: nat, k: nat)
    requires base <= text && |base| <= start < k <= |text| && !IsBlankChar(text[start])
    ensures NonBlank(text[..k]) != NonBlank(base)
  {
    OneCharMore(text[..k], start);
    assert text[..k][..start] == text[..start] && text[..k][start] == text[start];
    NonBlankGrows(base, text, start);
  }

  lemma OneCharMore(text: string, k: nat)
    requires k < |text| && !IsBlankChar(text[k])
    ensures |NonBlank(text)| > |NonBlank(text[..k])|
  {
    assert text == text[..k] + (text[k..k + 1] + text[k + 1..]);
    NonBlankJoin(text[..k], text[k..k + 1] + text[k + 1..]);
    NonBlankJoin(text[k..k + 1], text[k + 1..]);
    assert text[k..k + 1][..0] == "";
  }

  lemma NonBlankGrows(base: string, text: string, k: nat)
    requires base <= text && |base| <= k <= |text|
    ensures |NonBlank(base)| <= |NonBlank(text[..k])|
  {
    assert text[..k] == base + text[|base|..k];
    NonBlankJoin(base, text[|base|..k]);
  }

  /** Where a span of a section just walked stands against the section's own. */
  lemma {:induction false} InOwn(b: Builder, after: Builder, s: Section, x: Span, before: string)
    requires IsAdded(b, after, s.start, s.end) && (b.text == "" || b.breaks > 0)
    requires s.start < s.end ==> !IsBlankChar(after.text[s.start])
    requires |b.text| <= x.start && Stands(x, NonBlank(b.text) + before, after.text)
    ensures IsInOwn(x, before, s)
  {
    if IsFilled(s) {
      if x.start < s.start {
        BeforeItsSection(b.text, after.text, x, before, s.start);
      } else if x.start == s.start {
        if s.start > 0 { EndsInNewline(b.text, after.text, s.start); }
      } else {
        MoreThanBefore(b.text, after.text, s.start, x.start);
        assert NonBlank(b.text) + "" == NonBlank(b.text);
      }
    }
  }

  /** The spans of a section just walked, in place behind all the others. */
  lemma {:induction false} FoundInPlace(
    b: Builder, after: Builder, found: seq<Span>, sections: seq<Section>, jobs: seq<Job>, job: Job, s: Section)
    requires |sections| == |jobs| && NonBlank(b.text) == TextOfJobs(jobs)
    requires IsAdded(b, after, s.start, s.end) && (b.text == "" || b.breaks > 0)
    requires s.start < s.end ==> !IsBlankChar(after.text[s.start])
    requires forall i :: 0 <= i < |found| ==> |b.text| <= found[i].start
    requires AllStand(found, TextOfJobs(jobs), BeforesIn(job.section, ""), after.text)
    ensures AllInPlace(found, PlacesOf(job.section, |jobs|), sections + [s], jobs + [job], after.text)
  {
    assert (jobs + [job])[..|jobs|] == jobs;
    forall i | 0 <= i < |found|
      ensures IsInPlace(found[i], PlacesOf(job.section, |jobs|)[i], sections + [s], jobs + [job], after.text)
    {
      InOwn(b, after, s, found[i], BeforesIn(job.section, "")[i]);
    }
  }

  lemma InPlaceJoin(
    x: seq<Span>, y: seq<Span>, p: seq<Place>, q: seq<Place>, sections: seq<Section>, jobs: seq<Job>, text: string)
    requires AllInPlace(x, p, sections, jobs, text) && AllInPlace(y, q, sections, jobs, text)
    ensures AllInPlace(x + y, p + q, sections, jobs, text)
  {
  }

  /** A section more on the document, and its spans. */
  lemma {:induction false} ExtendPlaces(
    b: Builder, after: Builder, spans: seq<Span>, found: seq<Span>, sections: seq<Section>, jobs: seq<Job>, job: Job,
    s: Section)
    requires AllInPlace(spans, PlacesIn(jobs), sections, jobs, b.text) && NonBlank(b.text) == TextOfJobs(jobs)
    requires IsGood(b) && IsAdded(b, after, s.start, s.end) && (b.text == "" || b.breaks > 0)
    requires Records(s, job, after.text)
    requires forall i :: 0 <= i < |found| ==> |b.text| <= found[i].start
    requires var w := WalkElement(job.section, BeginMark(b), false, 1);
             w.Walked? && w.spans == found && w.builder.text == after.text
    ensures AllInPlace(spans + found, PlacesIn(jobs + [job]), sections + [s], jobs + [job], after.text)
  {
    StartsAtCharacter(s, job, after.text);
    BeginGood(b);
    assert NonBlank(b.text) == TextOfJobs(jobs) + "";
    ElementPlaces(job.section, BeginMark(b), TextOfJobs(jobs), "", false, 1);
    FoundInPlace(b, after, found, sections, jobs, job, s);
    InPlaceLater(spans, PlacesIn(jobs), sections, jobs, b.text, s, job, after.text);
    assert (jobs + [job])[..|jobs|] == jobs;
    InPlaceJoin(spans, found, PlacesIn(jobs), PlacesOf(job.section, |jobs|), sections + [s], jobs + [job], after.text);
  }

  /** A filled section starts at a character. */
  lemma StartsAtCharacter(s: Section, job: Job, text: string)
    requires Records(s, job, text)
    ensures s.start < s.end ==> !IsBlankChar(text[s.start])
  {
    WalkIsSound(job.section, FRESH, false, 1);
    CleanEnds(text[s.start..s.end]);
    if s.start < s.end { assert text[s.start..s.end][0] == text[s.start]; }
  }

  const EMPTY_GAP := Element("Gap", "", End, "")
  const LINE_B := Element("Line", "b", End, "")

  /** The empty gap closes where the header's text ends. */
  lemma WalkTheGap(m: Builder)
    requires m == Builder("h", 1, false, [Mark(0, None)], 1)
    ensures WalkChild(EMPTY_GAP, m, false, 1) == Walked(m.(begun := 2), [Span("Gap", 1, 1)], 0)
  {
    var entered := Enter(m, EMPTY_GAP, false);
    assert WalkElement(EMPTY_GAP, entered, false, 2) == Walked(entered, [], 0);
  }

  /** The line opens the body's mark behind the line break. */
  lemma WalkTheLine(n: Builder)
    requires n == Builder("h", 1, false, [Mark(0, None)], 2)
    ensures WalkChild(LINE_B, n, false, 1) == Walked(Builder("h\nb", 1, false, [Mark(0, Some(2))], 2), [], 1)
  {
    RunAlone("b");
    var put := Put(n, "b");
    assert put == Builder("h\nb", 0, false, [Mark(0, Some(2))], 2);
    assert PutFrom(n, ["b"], 0) == put;
    assert Add(n, "b") == put && Enter(n, LINE_B, false) == n;
    assert WalkElement(LINE_B, n, true, 2) == Walked(put, [], 0);
  }

  const BEHIND_H := Builder("h", 1, false, [], 0)
  const GAP_THEN_B := Element("Body", "", Node(EMPTY_GAP, Node(LINE_B, End)), "")
  const AFTER_B := Builder("h\nb", 1, false, [Mark(0, Some(2))], 2)

  lemma WalkLast()
    ensures WalkNodes(Node(LINE_B, End), Builder("h", 1, false, [Mark(0, None)], 2), false, 1) == Walked(AFTER_B, [], 1)
  {
    WalkTheLine(Builder("h", 1, false, [Mark(0, None)], 2));
    assert WalkNodes(End, AFTER_B, false, 1) == Walked(AFTER_B, [], 0);
  }

  lemma WalkBoth(m: Builder)
    requires m == Builder("h", 1, false, [Mark(0, None)], 1)
    ensures WalkNodes(GAP_THEN_B.children, m, false, 1) == Walked(AFTER_B, [Span("Gap", 1, 1)], 1)
  {
    WalkTheGap(m);
    WalkLast();
  }

  /** Behind a header "h", a body of an empty gap and then a line "b": the gap stands at 1, the body
      from 2 to 3. */
  lemma {:induction false} AGapBeforeItsBody()
    ensures WalkElement(GAP_THEN_B, BeginMark(BEHIND_H), false, 1) == Walked(AFTER_B, [Span("Gap", 1, 1)], 1)
    ensures EndMark(AFTER_B, BEHIND_H.begun) == Some((AFTER_B.(marks := []), 2, 3))
  {
    WalkBoth(BeginMark(BEHIND_H));
  }

  // --- between the sections ---------------------------------------------------------------------------

  /** The section holds text. */
  predicate IsFilled(s: Section) {
    s.start < s.end
  }

  /** Two filled sections with none between them. */
  predicate AreNeighbours(sections: seq<Section>, i: int, j: int) {
    && 0 <= i < j < |sections| && IsFilled(sections[i]) && IsFilled(sections[j])
    && forall k :: i < k < j ==> !IsFilled(sections[k])
  }

  /** How many newlines part two neighbours: one on the same page, two across pages. */
  function Parting(s: Section, next: Section): nat {
    if s.page == next.page then 1 else 2
  }

  ghost predicate ArePartedAt(sections: seq<Section>, text: string, i: int, j: int)
    requires 0 <= i < |sections| && 0 <= j < |sections|
  {
    && sections[i].end <= sections[j].start <= |text|
    && text[sections[i].end..sections[j].start] == Newlines(Parting(sections[i], sections[j]))
  }

  /** Between neighbours stand exactly their newlines. */
  ghost predicate AreSeparated(sections: seq<Section>, text: string) {
    forall i, j {:trigger AreNeighbours(sections, i, j)} ::
      AreNeighbours(sections, i, j) ==> ArePartedAt(sections, text, i, j)
  }

  /** The last filled section. */
  predicate IsLast(sections: seq<Section>, i: int) {
    && 0 <= i < |sections| && IsFilled(sections[i])
    && forall k :: i < k < |sections| ==> !IsFilled(sections[k])
  }

  /** Section `i` is the last of the text so far, and so many newlines are owed behind it at least
      and at most before a section of this page. */
  ghost predicate EndsAt(b: Builder, sections: seq<Section>, page: nat, i: int, least: nat) {
    && IsLast(sections, i) && sections[i].end == |b.text| && sections[i].page <= page
    && (if sections[i].page == page then least <= b.breaks <= 1 else b.breaks == 2)
  }

  /** On this page, with no line break asked for yet. */
  ghost predicate IsOnPage(b: Builder, sections: seq<Section>, page: nat) {
    b.text != "" ==> exists i :: EndsAt(b, sections, page, i, 0)
  }

  /** A section of this page may follow. */
  ghost predicate IsDue(b: Builder, sections: seq<Section>, page: nat) {
    b.text != "" ==> exists i :: EndsAt(b, sections, page, i, 1)
  }

  /** A line break makes the next section of the page due. */
  lemma BreakIsDue(b: Builder, sections: seq<Section>, page: nat)
    requires IsOnPage(b, sections, page)
    ensures IsDue(BreakLine(b, 1), sections, page)
  {
    if b.text != "" {
      var i :| EndsAt(b, sections, page, i, 0);
      assert EndsAt(BreakLine(b, 1), sections, page, i, 1);
    }
  }

  /** Two line breaks turn the page. */
  lemma PageTurns(b: Builder, sections: seq<Section>, page: nat)
    requires IsOnPage(b, sections, page)
    ensures IsOnPage(BreakLine(b, 2), sections, page + 1)
  {
    if b.text != "" {
      var i :| EndsAt(b, sections, page, i, 0);
      assert EndsAt(BreakLine(b, 2), sections, page + 1, i, 0);
    }
  }

  /** What a section walked from `b` adds: nothing, or its own text behind the newlines owed. */
  ghost predicate IsAdded(b: Builder, after: Builder, start: nat, end: nat) {
    && b.text <= after.text && |b.text| <= start <= end == |after.text|
    && if start == end then after.text == b.text && (b.text != "" ==> after.breaks == b.breaks)
       else after.text[|b.text|..start] == Owed(b.text, b.breaks) && after.breaks <= 1
  }

  lemma LastMoves(sections: seq<Section>, i: int, s: Section)
    requires IsLast(sections, i)
    ensures !IsFilled(s) ==> IsLast(sections + [s], i)
    ensures IsFilled(s) ==> AreNeighbours(sections + [s], i, |sections|)
  {
    forall k | i < k < |sections|
      ensures !IsFilled((sections + [s])[k])
    {
      assert !IsFilled(sections[k]);
    }
  }

  /** The neighbour before a section is the last filled one before it. */
  lemma NeighbourIsLast(sections: seq<Section>, i: int, x: int, s: Section)
    requires IsLast(sections, i) && AreNeighbours(sections + [s], x, |sections|)
    ensures x == i
  {
    var all := sections + [s];
    assert IsFilled(all[x]) && all[x] == sections[x] && all[i] == sections[i];
  }

  lemma {:induction false} SeparatedBefore(sections: seq<Section>, s: Section, before: string, text: string)
    requires AreSeparated(sections, before) && before <= text
    ensures forall i, j {:trigger AreNeighbours(sections + [s], i, j)} ::
              AreNeighbours(sections + [s], i, j) && j < |sections| ==> ArePartedAt(sections + [s], text, i, j)
  {
    var all := sections + [s];
    forall i, j | AreNeighbours(all, i, j) && j < |sections|
      ensures ArePartedAt(all, text, i, j)
    {
      assert forall k :: i <= k <= j ==> all[k] == sections[k];
      assert AreNeighbours(sections, i, j);
      assert text[sections[i].end..sections[j].start] == before[sections[i].end..sections[j].start];
    }
  }

  /** One section more keeps its neighbour apart by exactly the newlines between their pages. */
  lemma {:induction false} SectionFollows(
    b: Builder, after: Builder, sections: seq<Section>, s: Section, page: nat)
    requires IsDue(b, sections, page) && AreSeparated(sections, b.text) && s.page == page
    requires IsAdded(b, after, s.start, s.end)
    requires b.text == "" ==> forall k :: 0 <= k < |sections| ==> !IsFilled(sections[k])
    ensures IsOnPage(after, sections + [s], page) && AreSeparated(sections + [s], after.text)
  {
    var all := sections + [s];
    SeparatedBefore(sections, s, b.text, after.text);
    if b.text != "" {
      var i :| EndsAt(b, sections, page, i, 1);
      LastMoves(sections, i, s);
      forall x | AreNeighbours(all, x, |sections|)
        ensures ArePartedAt(all, after.text, x, |sections|)
      {
        NeighbourIsLast(sections, i, x, s);
      }
      if IsFilled(s) {
        assert EndsAt(after, all, page, |sections|, 0);
      } else {
        assert EndsAt(after, all, page, i, 0);
      }
    } else {
      FirstFilled(sections, s);
      if after.text != "" { assert EndsAt(after, all, page, |sections|, 0); }
    }
    forall x, y | AreNeighbours(all, x, y)
      ensures ArePartedAt(all, after.text, x, y)
    {
      if y == |sections| {
        assert AreNeighbours(all, x, |sections|);
      }
    }
  }

  /** Behind empty sections alone, a section has no neighbour before it. */
  lemma FirstFilled(sections: seq<Section>, s: Section)
    requires forall k :: 0 <= k < |sections| ==> !IsFilled(sections[k])
    ensures forall x :: !AreNeighbours(sections + [s], x, |sections|)
  {
    forall x
      ensures !AreNeighbours(sections + [s], x, |sections|)
    {
      if 0 <= x < |sections| { assert (sections + [s])[x] == sections[x]; }
    }
  }

  /** One section more, with only newlines before it. */
  lemma {:induction false} OutsideExtends(
    sections: seq<Section>, s: Section, b: Builder, after: Builder)
    requires OnlyNewlinesOutside(sections, b.text) && IsAdded(b, after, s.start, s.end)
    ensures OnlyNewlinesOutside(sections + [s], after.text)
  {
    var all, text := sections + [s], after.text;
    forall k | 0 <= k < |text|
      ensures text[k] == '\n' || InSection(all, k)
    {
      if k < |b.text| {
        assert text[k] == b.text[k];
        if i :| 0 <= i < |sections| && sections[i].start <= k < sections[i].end { assert all[i] == sections[i]; }
      } else if k < s.start {
        assert text[k] == text[|b.text|..s.start][k - |b.text|];
      } else {
        assert all[|sections|].start <= k < all[|sections|].end;
      }
    }
  }

  /** A section walked with a line break owed, if anything is before it: exactly the newlines owed
      stand before its text. */
  lemma {:induction false} SectionIsAdded(e: Element, b: Builder, depth: nat)
    requires IsGood(b) && |b.marks| == 0 && (b.text == "" || b.breaks > 0)
    ensures var w := WalkElement(e, BeginMark(b), false, depth);
            w.Walked? ==>
              var closed := EndMark(w.builder, b.begun);
              closed.Some? && var (after, start, end) := closed.value;
              IsAdded(b, after, start, end)
  {
    var s := BeginMark(b);
    BeginGood(b);
    SpanIsAlone(e, b, false, depth);
    SimulateElement(e, s, FRESH, 0, b.text, if b.text == "" then 1 else b.breaks, false, depth);
    WalkIsSound(e, s, false, depth);
  }

  lemma {:induction false} RecordsLater(s: Section, job: Job, text: string, later: string)
    requires Records(s, job, text) && text <= later
    ensures Records(s, job, later)
  {
    assert later[s.start..s.end] == text[s.start..s.end];
  }

  /** Separators asked for between sections change nothing already written. */
  lemma {:induction false} StateBreak(b: Builder, spans: seq<Span>, sections: seq<Section>, jobs: seq<Job>, count: nat)
    requires DocumentState(b, spans, sections, jobs) && count <= 2
    ensures DocumentState(BreakLine(b, count), spans, sections, jobs)
  {
    BreakGrows(b, count);
  }

  /** A section walked from `b` under its own mark. */
  lemma {:induction false} StateSection(b: Builder, spans: seq<Span>, sections: seq<Section>, jobs: seq<Job>, job: Job)
    requires DocumentState(b, spans, sections, jobs) && (b.text == "" || b.breaks > 0) && IsDue(b, sections, job.page)
    ensures var w := WalkElement(job.section, BeginMark(b), false, 1);
            match w
            case Failed(error) => error == DocumentTooDeep && 1 + Height(job.section) > MAX_DOCUMENT_DEPTH
            case Walked(walked, found, lines) =>
              var closed := EndMark(walked, b.begun);
              closed.Some? && var (after, start, end) := closed.value;
              var all := sections + [Section(job.page, job.section.name, start, end, lines)];
              DocumentState(after, spans + found, all, jobs + [job]) && IsOnPage(after, all, job.page)
  {
    var e, s := job.section, BeginMark(b);
    BeginGood(b);
    WalkIsSound(e, s, false, 1);
    RefusedIffTooDeep(e, s, false, 1);
    var w := WalkElement(e, s, false, 1);
    if w.Walked? {
      SectionIsAdded(e, b, 1);
      CloseMark(b, s, w.builder, w.spans, "");
      ElementSpansHold(e, s, false, 1);
      var (after, start, end) := EndMark(w.builder, b.begun).value;
      var record := Section(job.page, e.name, start, end, w.lines);
      SectionRecords(b, job, after, record);
      ExtendRecords(b, sections, jobs, job, after.text, record);
      ExtendSpans(b, after, spans, w.spans, jobs, job);
      ExtendContent(b, after, sections, jobs, job, record);
      ExtendPlaces(b, after, spans, w.spans, sections, jobs, job, record);
      NothingFilled(b, sections, jobs);
      SectionFollows(b, after, sections, record, job.page);
    }
  }

  /** Before any text no section is filled. */
  lemma NothingFilled(b: Builder, sections: seq<Section>, jobs: seq<Job>)
    requires AllRecord(sections, jobs, b.text)
    ensures b.text == "" ==> forall k :: 0 <= k < |sections| ==> !IsFilled(sections[k])
  {
    forall k | 0 <= k < |sections| && b.text == ""
      ensures !IsFilled(sections[k])
    {
      assert Records(sections[k], jobs[k], b.text);
    }
  }

  /** What closing a section records. */
  lemma {:induction false} SectionRecords(b: Builder, job: Job, after: Builder, record: Section)
    requires IsGood(b)
    requires var w := WalkElement(job.section, BeginMark(b), false, 1);
             && w.Walked? && EndMark(w.builder, b.begun) == Some((after, record.start, record.end))
             && record == Section(job.page, job.section.name, record.start, record.end, w.lines)
    ensures Records(record, job, after.text)
  {
    SpanIsAlone(job.section, b, false, 1);
    AloneIsLaid(job.section, false, 1);
    CountsOuterLines(job.section, BeginMark(b), false, 1);
  }

  lemma {:induction false} ExtendContent(
    b: Builder, after: Builder, sections: seq<Section>, jobs: seq<Job>, job: Job, s: Section)
    requires NonBlank(b.text) == TextOfJobs(jobs) && OnlyNewlinesOutside(sections, b.text)
    requires IsAdded(b, after, s.start, s.end)
    requires var w := WalkElement(job.section, BeginMark(b), false, 1);
             w.Walked? && EndMark(w.builder, b.begun) == Some((after, s.start, s.end))
    ensures NonBlank(after.text) == TextOfJobs(jobs + [job]) && OnlyNewlinesOutside(sections + [s], after.text)
  {
    ElementContent(job.section, BeginMark(b), false, 1);
    assert (jobs + [job])[..|jobs|] == jobs;
    OutsideExtends(sections, s, b, after);
  }

  lemma {:induction false} ExtendRecords(
      b: Builder, sections: seq<Section>, jobs: seq<Job>, job: Job, text: string, s: Section)
    requires AllRecord(sections, jobs, b.text) && AllFit(jobs) && b.text <= text
    requires Records(s, job, text) && |b.text| <= s.start && 1 + Height(job.section) <= MAX_DOCUMENT_DEPTH
    ensures AllRecord(sections + [s], jobs + [job], text) && AllFit(jobs + [job])
  {
    forall i | 0 <= i < |jobs| + 1
      ensures Records((sections + [s])[i], (jobs + [job])[i], text)
    {
      if i < |jobs| { RecordsLater(sections[i], jobs[i], b.text, text); }
    }
    forall i, j | 0 <= i < j < |jobs| + 1
      ensures (sections + [s])[i].end <= (sections + [s])[j].start
    {
      if j == |jobs| { assert Records(sections[i], jobs[i], b.text); }
    }
  }

  lemma {:induction false} ExtendSpans(
      b: Builder, after: Builder, spans: seq<Span>, found: seq<Span>, jobs: seq<Job>, job: Job)
    requires b.text <= after.text && AllHold(spans, MarkedInJobs(jobs), b.text) && AllNest(spans) && AllNest(found)
    requires AllHold(found, MarkedIn(job.section, false, 1), after.text)
    requires forall i :: 0 <= i < |spans| ==> spans[i].end <= |b.text|
    requires forall i :: 0 <= i < |found| ==> |b.text| <= found[i].start
    ensures AllHold(spans + found, MarkedInJobs(jobs + [job]), after.text) && AllNest(spans + found)
    ensures forall i :: 0 <= i < |spans + found| ==> (spans + found)[i].end <= |after.text|
  {
    HoldsLater(spans, MarkedInJobs(jobs), b.text, after.text);
    assert (jobs + [job])[..|jobs|] == jobs;
    var all, marked := spans + found, MarkedInJobs(jobs + [job]);
    forall i | 0 <= i < |all|
      ensures Holds(all[i], marked[i], after.text)
    {
      if i < |spans| { assert Holds(spans[i], MarkedInJobs(jobs)[i], after.text); }
      else { assert Holds(found[i - |spans|], MarkedIn(job.section, false, 1)[i - |spans|], after.text); }
    }
    forall i, j | 0 <= i < j < |all|
      ensures NestsIn(all[i], all[j])
    {
      if j < |spans| { assert NestsIn(spans[i], spans[j]); }
      else if |spans| <= i { assert NestsIn(found[i - |spans|], found[j - |spans|]); }
    }
  }

  // --- the document ----------------------------------------------------------------------------------------

  /** Alphabetical order. */
  predicate KindLeq(a: string, b: string) {
    |a| == 0 || (|b| > 0 && (a[0] < b[0] || (a[0] == b[0] && KindLeq(a[1..], b[1..]))))
  }

  /** By start, then end, then kind. */
  predicate SpanLeq(x: Span, y: Span) {
    || x.start < y.start
    || (x.start == y.start && (x.end < y.end || (x.end == y.end && KindLeq(x.kind, y.kind))))
  }

  lemma {:induction false} KindsCompare(a: string, b: string)
    ensures KindLeq(a, b) || KindLeq(b, a)
  {
    if |a| > 0 && |b| > 0 && a[0] == b[0] { KindsCompare(a[1..], b[1..]); }
  }

  lemma {:induction false} KindsFollow(a: string, b: string, c: string)
    requires KindLeq(a, b) && KindLeq(b, c)
    ensures KindLeq(a, c)
  {
    if |a| > 0 && a[0] == b[0] == c[0] { KindsFollow(a[1..], b[1..], c[1..]); }
  }

  lemma SpansCompare()
    ensures Sorting.IsTotalOrder(SpanLeq)
  {
    forall x: Span, y: Span
      ensures SpanLeq(x, y) || SpanLeq(y, x)
    {
      KindsCompare(x.kind, y.kind);
    }
    forall x: Span, y: Span, z: Span | SpanLeq(x, y) && SpanLeq(y, z)
      ensures SpanLeq(x, z)
    {
      if KindLeq(x.kind, y.kind) && KindLeq(y.kind, z.kind) { KindsFollow(x.kind, y.kind, z.kind); }
    }
  }

  /** One kind is no later than another exactly when it is the start of the other or smaller where
      they first differ. */
  lemma {:induction false} KindLeqIs(a: string, b: string)
    ensures KindLeq(a, b) <==>
              a <= b || exists k :: 0 <= k < |a| && k < |b| && a[..k] == b[..k] && a[k] < b[k]
  {
    if |a| > 0 && |b| > 0 && a[0] == b[0] {
      KindLeqIs(a[1..], b[1..]);
      if k :| 0 <= k < |a[1..]| && k < |b[1..]| && a[1..][..k] == b[1..][..k] && a[1..][k] < b[1..][k] {
        var m := k + 1;
        assert a[..m] == [a[0]] + a[1..][..k] && b[..m] == [b[0]] + b[1..][..k];
        assert a[..m] == b[..m] && a[m] < b[m];
      }
      if k :| 0 <= k < |a| && k < |b| && a[..k] == b[..k] && a[k] < b[k] {
        var m := k - 1;
        assert a[1..][..m] == a[..k][1..] && b[1..][..m] == b[..k][1..];
        assert a[1..][m] < b[1..][m];
      }
      assert a <= b <==> a[1..] <= b[1..] by { StartsWithTail(a, b); }
    } else if |a| > 0 && |b| > 0 && a[0] < b[0] {
      assert a[..0] == b[..0];
    } else if |a| > 0 && |b| > 0 {
      FirstAgrees(a, b);
    }
  }

  lemma FirstAgrees(a: string, b: string)
    requires |a| > 0 && |b| > 0
    ensures forall k :: 0 < k < |a| && k < |b| && a[..k] == b[..k] ==> a[0] == b[0]
  {
    forall k | 0 < k < |a| && k < |b| && a[..k] == b[..k]
      ensures a[0] == b[0]
    {
      assert a[..k][0] == b[..k][0];
    }
  }

  lemma StartsWithTail(a: string, b: string)
    requires |a| > 0 && |b| > 0 && a[0] == b[0]
    ensures a <= b <==> a[1..] <= b[1..]
  {
    if a[1..] <= b[1..] {
      assert a == [a[0]] + a[1..] && b == [b[0]] + b[1..];
    }
  }

  datatype Flattened = Flattened(text: string, sections: seq<Section>, markedSpans: seq<Span>, pages: nat,
    pagesWithTextOutside: seq<nat>)
  datatype Outcome = Parsed(value: Flattened) | Refused(error: Error)

  /** What a flattened document promises of its pages' sections. */
  ghost predicate IsFlattened(d: Flattened, recorded: seq<Span>, pages: seq<Element>) {
    && IsClean(d.text) && d.pages == |pages|
    && NonBlank(d.text) == TextOfJobs(JobsOf(pages)) && OnlyNewlinesOutside(d.sections, d.text)
    && AreSeparated(d.sections, d.text)
    && AllInPlace(recorded, PlacesIn(JobsOf(pages)), d.sections, JobsOf(pages), d.text)
    && AllRecord(d.sections, JobsOf(pages), d.text)
    && AllHold(recorded, MarkedInJobs(JobsOf(pages)), d.text) && AllNest(recorded)
    && multiset(d.markedSpans) == multiset(recorded) && Sorting.IsSorted(d.markedSpans, SpanLeq)
    && OutsidesUpTo(d.pagesWithTextOutside, pages, |pages|)
  }

  /** Page `n`, counted from one, writes text outside every section it owns. */
  predicate WritesOutside(pages: seq<Element>, n: nat)
    requires 1 <= n <= |pages|
  {
    !IsBlank(pages[n - 1].text) || OutsideIn(pages[n - 1].children)
  }

  ghost predicate OutsidesUpTo(outsides: seq<nat>, pages: seq<Element>, i: nat)
    requires i <= |pages|
  {
    && (forall n :: n in outsides <==> 1 <= n <= i && WritesOutside(pages, n))
    && (forall j, k :: 0 <= j < k < |outsides| ==> outsides[j] < outsides[k])
  }

  /** One section: a line of its own, its mark, its walk, its record. */
  method FlattenSection(
      builder: TextBuilder, log: SpanLog, job: Job, ghost sections: seq<Section>, ghost jobs: seq<Job>)
    returns (record: Section, failed: Option<Error>)
    requires builder.Valid() && DocumentState(builder.Value(), log.items, sections, jobs)
    requires IsOnPage(builder.Value(), sections, job.page)
    modifies builder, log
    ensures builder.Valid()
    ensures failed == None ==> DocumentState(builder.Value(), log.items, sections + [record], jobs + [job])
    ensures failed == None ==> IsOnPage(builder.Value(), sections + [record], job.page)
    ensures failed != None ==> failed == Some(DocumentTooDeep) && 1 + Height(job.section) > MAX_DOCUMENT_DEPTH
  {
    StateBreak(builder.Value(), log.items, sections, jobs, 1);
    BreakIsDue(builder.Value(), sections, job.page);
    builder.DoBreakLine(1);
    ghost var b := builder.Value();
    StateSection(b, log.items, sections, jobs, job);
    var serial := builder.DoBeginMark();
    var lines, error := Walk(job.section, builder, log, false, 1);
    record := Section(job.page, job.section.name, 0, 0, lines);
    if error != None { return record, error; }
    var span := builder.DoEndMark(serial);
    record := record.(start := span.value.0, end := span.value.1);
    failed := None;
  }

  /** The sections of one name on one page. */
  method FlattenNamed(
      builder: TextBuilder, log: SpanLog, owned: seq<Element>, name: string, page: nat, before: seq<Section>,
      ghost jobs: seq<Job>)
    returns (sections: seq<Section>, failed: Option<Error>)
    requires builder.Valid() && DocumentState(builder.Value(), log.items, before, jobs)
    requires IsOnPage(builder.Value(), before, page)
    modifies builder, log
    ensures builder.Valid()
    ensures failed == None ==> DocumentState(builder.Value(), log.items, sections, jobs + Named(owned, name, page))
    ensures failed == None ==> IsOnPage(builder.Value(), sections, page)
    ensures failed != None ==> failed == Some(DocumentTooDeep) && !AllFit(jobs + Named(owned, name, page))
  {
    sections, failed := before, None;
    ghost var done := jobs;
    for i := 0 to |owned|
      invariant builder.Valid() && DocumentState(builder.Value(), log.items, sections, done)
      invariant IsOnPage(builder.Value(), sections, page)
      invariant done + Named(owned[i..], name, page) == jobs + Named(owned, name, page)
    {
      NamedNext(done, owned, name, page, i);
      if owned[i].name == name {
        var job := Job(page, owned[i]);
        var record, error := FlattenSection(builder, log, job, sections, done);
        if error != None {
          FitPrefix(done + [job], Named(owned[i + 1..], name, page));
          assert (done + [job])[|done|] == job;
          return sections, error;
        }
        sections := sections + [record];
        done := done + [job];
      }
    }
    assert owned[|owned|..] == [] && done + [] == done;
  }

  lemma NamedNext(done: seq<Job>, owned: seq<Element>, name: string, page: nat, i: nat)
    requires i < |owned|
    ensures done + Named(owned[i..], name, page)
         == (if owned[i].name == name then done + [Job(page, owned[i])] else done) + Named(owned[i + 1..], name, page)
  {
    assert owned[i..][0] == owned[i] && owned[i..][1..] == owned[i + 1..];
    assert done + ([Job(page, owned[i])] + Named(owned[i + 1..], name, page))
             == done + [Job(page, owned[i])] + Named(owned[i + 1..], name, page);
  }

  /** One page: its headers, bodies and footers in the vendor's order. */
  method FlattenPage(
      builder: TextBuilder, log: SpanLog, page: Element, ordinal: nat, before: seq<Section>,
      ghost jobs: seq<Job>)
    returns (sections: seq<Section>, outside: bool, failed: Option<Error>)
    requires builder.Valid() && DocumentState(builder.Value(), log.items, before, jobs)
    requires IsOnPage(builder.Value(), before, ordinal)
    modifies builder, log
    ensures builder.Valid()
    ensures failed == None ==> DocumentState(builder.Value(), log.items, sections, jobs + PageJobs(page, ordinal))
    ensures failed == None ==> IsOnPage(builder.Value(), sections, ordinal)
    ensures failed == None ==> (outside <==> !IsBlank(page.text) || OutsideIn(page.children))
    ensures failed != None ==> failed == Some(DocumentTooDeep) && !AllFit(jobs + PageJobs(page, ordinal))
  {
    var owned;
    ghost var places;
    owned, outside, places := PageSections(page);
    ghost var headers, bodies, footers := Named(owned, "Header", ordinal), Named(owned, "Body", ordinal),
      Named(owned, "Footer", ordinal);
    InThree(jobs, headers, bodies, footers);
    sections, failed := FlattenNamed(builder, log, owned, PAGE_SECTIONS[0], ordinal, before, jobs);
    if failed != None { return; }
    sections, failed := FlattenNamed(builder, log, owned, PAGE_SECTIONS[1], ordinal, sections, jobs + headers);
    if failed != None { return; }
    sections, failed := FlattenNamed(builder, log, owned, PAGE_SECTIONS[2], ordinal, sections, jobs + headers + bodies);
  }

  /** Sections in three parts: any that does not fit is in the whole. */
  lemma InThree(jobs: seq<Job>, headers: seq<Job>, bodies: seq<Job>, footers: seq<Job>)
    ensures jobs + headers + bodies + footers == jobs + (headers + bodies + footers)
    ensures AllFit(jobs + (headers + bodies + footers)) ==> AllFit(jobs + headers) && AllFit(jobs + headers + bodies)
  {
    FitPrefix(jobs + headers, bodies + footers);
    FitPrefix(jobs + headers + bodies, footers);
    assert jobs + headers + (bodies + footers) == jobs + (headers + bodies + footers);
  }

  lemma FitPrefix(a: seq<Job>, b: seq<Job>)
    ensures AllFit(a + b) ==> AllFit(a)
  {
    assert forall i :: 0 <= i < |a| ==> (a + b)[i] == a[i];
  }

  lemma {:induction false} JobsPrefix(pages: seq<Element>, n: nat)
    requires n <= |pages|
    ensures AllFit(JobsOf(pages)) ==> AllFit(JobsOf(pages[..n]))
    decreases |pages| - n
  {
    if n == |pages| {
      assert pages[..n] == pages;
    } else {
      JobsPrefix(pages, n + 1);
      assert pages[..n + 1][..n] == pages[..n];
      FitPrefix(JobsOf(pages[..n]), PageJobs(pages[n], n + 1));
    }
  }

  lemma OutsidesNext(outsides: seq<nat>, pages: seq<Element>, i: nat, outside: bool)
    requires i < |pages| && OutsidesUpTo(outsides, pages, i)
    ensures (outside <==> WritesOutside(pages, i + 1))
            ==> OutsidesUpTo(if outside then outsides + [i + 1] else outsides, pages, i + 1)
  {
    assert forall j :: 0 <= j < |outsides| && OutsidesUpTo(outsides, pages, i) ==> outsides[j] in outsides;
  }

  /** The next page, two newlines after the one before it. */
  method TakePage(
      builder: TextBuilder, log: SpanLog, pages: seq<Element>, i: nat, before: seq<Section>,
      outsidesBefore: seq<nat>)
    returns (sections: seq<Section>, outsides: seq<nat>, failed: Option<Error>)
    requires i < |pages| && builder.Valid() && DocumentState(builder.Value(), log.items, before, JobsOf(pages[..i]))
    requires OutsidesUpTo(outsidesBefore, pages, i)
    requires if i == 0 then builder.Value().text == "" else IsOnPage(builder.Value(), before, i)
    modifies builder, log
    ensures builder.Valid()
    ensures failed == None ==>
          DocumentState(builder.Value(), log.items, sections, JobsOf(pages[..i + 1]))
          && OutsidesUpTo(outsides, pages, i + 1) && IsOnPage(builder.Value(), sections, i + 1)
    ensures failed != None ==> failed == Some(DocumentTooDeep) && !AllFit(JobsOf(pages))
  {
    if i > 0 {
      StateBreak(builder.Value(), log.items, before, JobsOf(pages[..i]), 2);
      PageTurns(builder.Value(), before, i);
      builder.DoBreakLine(2);
    }
    JobsNext(pages, i);
    JobsPrefix(pages, i + 1);
    var outside;
    sections, outside, failed := FlattenPage(builder, log, pages[i], i + 1, before, JobsOf(pages[..i]));
    outsides := if outside then outsidesBefore + [i + 1] else outsidesBefore;
    OutsidesNext(outsidesBefore, pages, i, outside);
  }

  method WalkPages(builder: TextBuilder, log: SpanLog, pages: seq<Element>)
    returns (sections: seq<Section>, outsides: seq<nat>, failed: Option<Error>)
    requires builder.Valid() && DocumentState(builder.Value(), log.items, [], []) && builder.Value() == FRESH
    modifies builder, log
    ensures builder.Valid()
    ensures failed == None ==>
          DocumentState(builder.Value(), log.items, sections, JobsOf(pages))
          && OutsidesUpTo(outsides, pages, |pages|)
    ensures failed != None ==> failed == Some(DocumentTooDeep) && !AllFit(JobsOf(pages))
  {
    sections, outsides, failed := [], [], None;
    for i := 0 to |pages|
      invariant builder.Valid() && DocumentState(builder.Value(), log.items, sections, JobsOf(pages[..i]))
      invariant OutsidesUpTo(outsides, pages, i)
      invariant if i == 0 then builder.Value().text == "" else IsOnPage(builder.Value(), sections, i)
    {
      sections, outsides, failed := TakePage(builder, log, pages, i, sections, outsides);
      if failed != None { return; }
    }
    assert pages[..|pages|] == pages;
    failed := None;
  }

  /** The pages, their sections to walk and the marked elements of each, by where they stand. */
  ghost predicate AreFound(root: Element, pages: seq<Element>) {
    && (exists places :: ArePages(root.children, pages, places))
    && (exists places :: AreJobs(pages, JobsOf(pages), places))
    && (forall i :: 0 <= i < |JobsOf(pages)| ==> MarksArePlaced(JobsOf(pages)[i].section))
    && (forall i :: 0 <= i < |JobsOf(pages)| ==> LinesAreCounted(JobsOf(pages)[i].section))
    && (forall n :: 1 <= n <= |pages| ==> (WritesOutside(pages, n) <==> HasOutside(pages[n - 1])))
  }

  ghost predicate MarksArePlaced(section: Element) {
    exists places :: AreMarked(section.children, MarkedIn(section, false, 1), places, false, 1)
  }

  ghost predicate LinesAreCounted(section: Element) {
    exists places :: AreOuterLines(section.children, OuterLines(section.children), places)
  }

  /** The page's own text is not blank, or some place outside its sections holds text. */
  ghost predicate HasOutside(page: Element) {
    HoldsText(page.text) || exists path: Path :: IsOutsideAt(page.children, path)
  }

  lemma MarksPlaced(section: Element)
    ensures MarksArePlaced(section)
  {
    var places := MarkedByPlace(section.children, false, 1);
    assert AreMarked(section.children, MarkedIn(section, false, 1), places, false, 1);
  }

  lemma LinesCounted(section: Element)
    ensures LinesAreCounted(section)
  {
    var places := LinesByPlace(section.children);
  }

  lemma Found(root: Element, pages: seq<Element>)
    requires pages == PagesIn(root.children)
    ensures AreFound(root, pages)
  {
    var pagePlaces := PagesByPlace(root.children);
    var jobPlaces := JobsByPlace(pages);
    forall i | 0 <= i < |JobsOf(pages)|
      ensures MarksArePlaced(JobsOf(pages)[i].section)
    {
      MarksPlaced(JobsOf(pages)[i].section);
    }
    forall i | 0 <= i < |JobsOf(pages)|
      ensures LinesAreCounted(JobsOf(pages)[i].section)
    {
      LinesCounted(JobsOf(pages)[i].section);
    }
    forall n | 1 <= n <= |pages|
      ensures WritesOutside(pages, n) <==> HasOutside(pages[n - 1])
    {
      OutsideByPlace(pages[n - 1].children);
      HoldsTextIs(pages[n - 1].text);
    }
  }

  /** Walk every page's own sections in the vendor's order; refused exactly when one of them
      nests past the bound. */
  method FlattenDocument(root: Element)
    returns (r: Outcome, ghost recorded: seq<Span>, ghost pages: seq<Element>)
    ensures AreFound(root, pages)
    ensures r.Parsed? ==> IsFlattened(r.value, recorded, pages)
    ensures r.Parsed? <==> AllFit(JobsOf(pages))
    ensures r.Refused? ==> r.error == DocumentTooDeep
  {
    var found := PagesIn(root.children);
    pages := found;
    Found(root, found);
    var builder := new TextBuilder();
    var log := new SpanLog();
    NothingYet();
    var sections, outsides, failed := WalkPages(builder, log, found);
    if failed != None { return Refused(failed.value), [], pages; }
    recorded := log.items;
    SpansCompare();
    Finished(builder.Value(), recorded, sections, outsides, pages);
    r := Parsed(Flattened(Join(builder.chunks), sections, Sorting.Sort(log.items, SpanLeq), |found|, outsides));
  }

  lemma NothingYet()
    ensures DocumentState(FRESH, [], [], [])
  {
  }

  /** With every page walked, what is kept is the document. */
  lemma Finished(b: Builder, spans: seq<Span>, sections: seq<Section>, outsides: seq<nat>, pages: seq<Element>)
    requires DocumentState(b, spans, sections, JobsOf(pages)) && OutsidesUpTo(outsides, pages, |pages|)
    requires Sorting.IsTotalOrder(SpanLeq)
    ensures IsFlattened(Flattened(b.text, sections, Sorting.Sort(spans, SpanLeq), |pages|, outsides), spans, pages)
  {
  }

  lemma JobsNext(pages: seq<Element>, i: nat)
    requires i < |pages|
    ensures JobsOf(pages[..i + 1]) == JobsOf(pages[..i]) + PageJobs(pages[i], i + 1)
  {
    assert pages[..i + 1][..i] == pages[..i];
  }
}
