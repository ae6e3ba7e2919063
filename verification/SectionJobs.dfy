/** The sections of a document to walk, in the order they are walked. */
module SectionJobs {
  import opened Options
  import opened FlatText
  import opened Flatten
  import opened TreePlaces

  datatype Job = Job(page: nat, section: Element)

  function Named(owned: seq<Element>, name: string, page: nat): seq<Job> {
    if |owned| == 0 then []
    else (if owned[0].name == name then [Job(page, owned[0])] else []) + Named(owned[1..], name, page)
  }

  /** A page's sections: its headers, then its bodies, then its footers. */
  function PageJobs(page: Element, ordinal: nat): seq<Job> {
    var owned := OwnedIn(page.children);
    Named(owned, "Header", ordinal) + Named(owned, "Body", ordinal) + Named(owned, "Footer", ordinal)
  }

  function JobsOf(pages: seq<Element>): seq<Job> {
    if |pages| == 0 then [] else JobsOf(pages[..|pages| - 1]) + PageJobs(pages[|pages| - 1], |pages|)
  }

  // --- the same by their places -------------------------------------------------------------------

  /** A page and the way to a section from its children. */
  datatype JobPlace = JobPlace(page: nat, path: Path)

  function SectionRank(name: string): nat {
    if name == "Header" then 0 else if name == "Body" then 1 else 2
  }

  predicate IsJobAt(pages: seq<Element>, p: JobPlace) {
    1 <= p.page <= |pages| && IsOwnAt(pages[p.page - 1].children, p.path)
  }

  predicate StandsAt(pages: seq<Element>, job: Job, p: JobPlace) {
    && IsJobAt(pages, p) && job.page == p.page
    && ElementAt(pages[p.page - 1].children, p.path) == Some(job.section)
  }

  /** By page, then headers before bodies before footers, then as the document has them. */
  predicate ComesBefore(x: Job, p: JobPlace, y: Job, q: JobPlace) {
    || p.page < q.page
    || (p.page == q.page && OnPageBefore(x, p.path, y, q.path))
  }

  predicate OnPageBefore(x: Job, p: Path, y: Job, q: Path) {
    var r, s := SectionRank(x.section.name), SectionRank(y.section.name);
    r < s || (r == s && StartsBefore(p, q))
  }

  ghost predicate AllStandAt(pages: seq<Element>, jobs: seq<Job>, places: seq<JobPlace>) {
    |places| == |jobs| && forall i :: 0 <= i < |jobs| ==> StandsAt(pages, jobs[i], places[i])
  }

  ghost predicate AreInOrder(jobs: seq<Job>, places: seq<JobPlace>) {
    && |places| == |jobs|
    && (forall i, j :: 0 <= i < j < |jobs| ==> ComesBefore(jobs[i], places[i], jobs[j], places[j]))
  }

  /** The jobs are the pages' own sections, one for each place, in this order. */
  ghost predicate AreJobs(pages: seq<Element>, jobs: seq<Job>, places: seq<JobPlace>) {
    && AllStandAt(pages, jobs, places) && AreInOrder(jobs, places)
    && (forall p: JobPlace :: IsJobAt(pages, p) ==> p in places)
  }

  lemma {:induction false} JobsByPlace(pages: seq<Element>) returns (places: seq<JobPlace>)
    ensures AreJobs(pages, JobsOf(pages), places)
  {
    if |pages| == 0 {
      places := [];
    } else {
      var n := |pages| - 1;
      var before := JobsByPlace(pages[..n]);
      var last := PageJobsByPlace(pages[n], |pages|);
      places := before + OnPage(|pages|, last);
      JobsJoin(pages, before, last);
    }
  }

  /** One page's jobs behind those of the pages before it. */
  lemma {:induction false} JobsJoin(pages: seq<Element>, before: seq<JobPlace>, last: seq<Path>)
    requires |pages| > 0 && AreJobs(pages[..|pages| - 1], JobsOf(pages[..|pages| - 1]), before)
    requires ArePageJobs(pages[|pages| - 1], PageJobs(pages[|pages| - 1], |pages|), |pages|, last)
    ensures AreJobs(pages, JobsOf(pages), before + OnPage(|pages|, last))
  {
    var n := |pages| - 1;
    JobsAreJoined(pages, JobsOf(pages[..n]), before, PageJobs(pages[n], n + 1), last);
  }

  lemma {:induction false} JobsAreJoined(
      pages: seq<Element>, x: seq<Job>, before: seq<JobPlace>, y: seq<Job>, last: seq<Path>)
    requires |pages| > 0 && AreJobs(pages[..|pages| - 1], x, before)
    requires ArePageJobs(pages[|pages| - 1], y, |pages|, last)
    ensures AreJobs(pages, x + y, before + OnPage(|pages|, last))
  {
    EarlierStand(pages, x, before);
    LastStand(pages, y, last);
    InOrderJoin(x, before, y, OnPage(|pages|, last), |pages| - 1);
    StandJoin(pages, x, before, y, OnPage(|pages|, last));
    forall p: JobPlace | IsJobAt(pages, p)
      ensures p in before + OnPage(|pages|, last)
    {
      IsEarlierOrLast(pages, x, y, before, last, p);
    }
  }

  lemma StandJoin(pages: seq<Element>, x: seq<Job>, p: seq<JobPlace>, y: seq<Job>, q: seq<JobPlace>)
    requires AllStandAt(pages, x, p) && AllStandAt(pages, y, q)
    ensures AllStandAt(pages, x + y, p + q)
  {
  }

  lemma {:induction false} EarlierStand(pages: seq<Element>, x: seq<Job>, before: seq<JobPlace>)
    requires |pages| > 0 && AllStandAt(pages[..|pages| - 1], x, before)
    ensures AllStandAt(pages, x, before) && forall i :: 0 <= i < |before| ==> before[i].page < |pages|
  {
    forall i | 0 <= i < |x|
      ensures StandsAt(pages, x[i], before[i]) && before[i].page < |pages|
    {
      assert StandsAt(pages[..|pages| - 1], x[i], before[i]);
    }
  }

  lemma {:induction false} LastStand(pages: seq<Element>, y: seq<Job>, last: seq<Path>)
    requires |pages| > 0 && ArePageJobs(pages[|pages| - 1], y, |pages|, last)
    ensures AllStandAt(pages, y, OnPage(|pages|, last)) && AreInOrder(y, OnPage(|pages|, last))
  {
    forall i | 0 <= i < |y|
      ensures StandsAt(pages, y[i], OnPage(|pages|, last)[i])
    {
      assert IsPageJobAt(pages[|pages| - 1], y[i], |pages|, last[i]);
    }
  }

  lemma InOrderJoin(x: seq<Job>, p: seq<JobPlace>, y: seq<Job>, q: seq<JobPlace>, n: nat)
    requires AreInOrder(x, p) && AreInOrder(y, q)
    requires (forall i :: 0 <= i < |p| ==> p[i].page <= n) && forall i :: 0 <= i < |q| ==> q[i].page > n
    ensures AreInOrder(x + y, p + q)
  {
  }

  lemma IsEarlierOrLast(
      pages: seq<Element>, x: seq<Job>, y: seq<Job>, before: seq<JobPlace>, last: seq<Path>, p: JobPlace)
    requires |pages| > 0 && AreJobs(pages[..|pages| - 1], x, before)
    requires ArePageJobs(pages[|pages| - 1], y, |pages|, last) && IsJobAt(pages, p)
    ensures p in before + OnPage(|pages|, last)
  {
    if p.page == |pages| {
      assert IsOwnAt(pages[|pages| - 1].children, p.path);
      var i :| 0 <= i < |last| && last[i] == p.path;
      assert OnPage(|pages|, last)[i] == p;
    } else {
      assert IsJobAt(pages[..|pages| - 1], p);
    }
  }

  function OnPage(page: nat, at: seq<Path>): (places: seq<JobPlace>)
    ensures |places| == |at| && forall i :: 0 <= i < |at| ==> places[i] == JobPlace(page, at[i])
  {
    seq(|at|, i requires 0 <= i < |at| => JobPlace(page, at[i]))
  }

  // --- one page's sections --------------------------------------------------------------------------

  predicate IsPageJobAt(page: Element, job: Job, ordinal: nat, path: Path) {
    IsOwnAt(page.children, path) && job.page == ordinal && ElementAt(page.children, path) == Some(job.section)
  }

  ghost predicate AllArePageJobs(page: Element, jobs: seq<Job>, ordinal: nat, at: seq<Path>) {
    |at| == |jobs| && forall i :: 0 <= i < |jobs| ==> IsPageJobAt(page, jobs[i], ordinal, at[i])
  }

  ghost predicate AreOrdered(jobs: seq<Job>, at: seq<Path>) {
    |at| == |jobs| && forall i, j :: 0 <= i < j < |jobs| ==> OnPageBefore(jobs[i], at[i], jobs[j], at[j])
  }

  ghost predicate ArePageJobs(page: Element, jobs: seq<Job>, ordinal: nat, at: seq<Path>) {
    && AllArePageJobs(page, jobs, ordinal, at) && AreOrdered(jobs, at)
    && (forall path: Path :: IsOwnAt(page.children, path) ==> path in at)
  }

  lemma {:induction false} PageJobsByPlace(page: Element, ordinal: nat) returns (at: seq<Path>)
    ensures ArePageJobs(page, PageJobs(page, ordinal), ordinal, at)
  {
    var owned := OwnedIn(page.children);
    var places := OwnedByPlace(page.children);
    var headers := NamedByPlace(page, owned, places, "Header", ordinal);
    var bodies := NamedByPlace(page, owned, places, "Body", ordinal);
    var footers := NamedByPlace(page, owned, places, "Footer", ordinal);
    at := headers + bodies + footers;
    ThreeRows(page, ordinal, owned, places, headers, bodies, footers);
    forall path: Path | IsOwnAt(page.children, path)
      ensures path in at
    {
      InSomeRow(page, ordinal, owned, places, headers, bodies, footers, path);
    }
  }

  lemma {:induction false} ThreeRows(
      page: Element, ordinal: nat, owned: seq<Element>, places: seq<Path>, headers: seq<Path>, bodies: seq<Path>,
      footers: seq<Path>)
    requires owned == OwnedIn(page.children) && AreNamed(page, owned, places, "Header", ordinal, headers)
    requires AreNamed(page, owned, places, "Body", ordinal, bodies)
    requires AreNamed(page, owned, places, "Footer", ordinal, footers)
    ensures AllArePageJobs(page, PageJobs(page, ordinal), ordinal, headers + bodies + footers)
    ensures AreOrdered(PageJobs(page, ordinal), headers + bodies + footers)
  {
    var h, b, f := Named(owned, "Header", ordinal), Named(owned, "Body", ordinal), Named(owned, "Footer", ordinal);
    NamedAreOrdered(h, "Header", headers);
    NamedAreOrdered(b, "Body", bodies);
    NamedAreOrdered(f, "Footer", footers);
    RowsJoin(h, headers, 0, b, bodies, 1);
    RowsJoin(h + b, headers + bodies, 1, f, footers, 2);
    PageJobsAppend(page, h, headers, b, bodies, ordinal);
    PageJobsAppend(page, h + b, headers + bodies, f, footers, ordinal);
  }

  lemma PageJobsAppend(page: Element, x: seq<Job>, p: seq<Path>, y: seq<Job>, q: seq<Path>, ordinal: nat)
    requires AllArePageJobs(page, x, ordinal, p) && AllArePageJobs(page, y, ordinal, q)
    ensures AllArePageJobs(page, x + y, ordinal, p + q)
  {
  }

  lemma NamedAreOrdered(jobs: seq<Job>, name: string, at: seq<Path>)
    requires |at| == |jobs| && HaveName(jobs, name) && Ascend(at)
    ensures AreOrdered(jobs, at)
  {
  }

  /** These are the listed sections of one name, in document order. */
  ghost predicate AreNamed(
    page: Element, owned: seq<Element>, places: seq<Path>, name: string, ordinal: nat, at: seq<Path>)
  {
    var jobs := Named(owned, name, ordinal);
    && AllArePageJobs(page, jobs, ordinal, at) && HaveName(jobs, name)
    && Ascend(at) && AreAmong(at, places) && HoldNamed(owned, places, name, at)
  }

  ghost predicate Ascend(at: seq<Path>) {
    forall i, j :: 0 <= i < j < |at| ==> StartsBefore(at[i], at[j])
  }

  ghost predicate AreAmong(at: seq<Path>, places: seq<Path>) {
    forall i :: 0 <= i < |at| ==> at[i] in places
  }

  /** Every listed section of the name is at one of these places. */
  ghost predicate HoldNamed(owned: seq<Element>, places: seq<Path>, name: string, at: seq<Path>) {
    |owned| == |places| && forall k :: 0 <= k < |owned| && owned[k].name == name ==> places[k] in at
  }

  ghost predicate HaveName(jobs: seq<Job>, name: string) {
    forall i :: 0 <= i < |jobs| ==> jobs[i].section.name == name
  }

  ghost predicate AllOwn(nodes: Nodes, places: seq<Path>) {
    forall i :: 0 <= i < |places| ==> IsOwnAt(nodes, places[i])
  }

  lemma {:induction false} NamedByPlace(
      page: Element, owned: seq<Element>, places: seq<Path>, name: string, ordinal: nat)
    returns (at: seq<Path>)
    requires Lists(page.children, owned, places) && AllOwn(page.children, places)
    ensures AreNamed(page, owned, places, name, ordinal, at)
  {
    if |owned| == 0 {
      at := [];
    } else {
      var later := NamedByPlace(page, owned[1..], places[1..], name, ordinal);
      at := (if owned[0].name == name then [places[0]] else []) + later;
      NamedOneMore(page, owned, places, name, ordinal, later);
    }
  }

  lemma {:induction false} NamedOneMore(
      page: Element, owned: seq<Element>, places: seq<Path>, name: string, ordinal: nat, later: seq<Path>)
    requires Lists(page.children, owned, places) && AllOwn(page.children, places) && |owned| > 0
    requires AreNamed(page, owned[1..], places[1..], name, ordinal, later)
    ensures AreNamed(page, owned, places, name, ordinal, (if owned[0].name == name then [places[0]] else []) + later)
  {
    LaterAmong(page, owned, places, later);
    NamedHeld(owned, places, name, later);
    if owned[0].name == name {
      FirstNamed(page, owned, places, name, ordinal, later);
    } else {
      FirstUnnamed(page, owned, places, name, ordinal, later);
      assert [] + later == later;
    }
  }

  /** A place listed behind the first stands behind it. */
  lemma LaterAmong(page: Element, owned: seq<Element>, places: seq<Path>, later: seq<Path>)
    requires Lists(page.children, owned, places) && |owned| > 0 && AreAmong(later, places[1..])
    ensures AreAmong(later, places) && forall i :: 0 <= i < |later| ==> StartsBefore(places[0], later[i])
  {
    forall i | 0 <= i < |later|
      ensures StartsBefore(places[0], later[i]) && later[i] in places
    {
      var m :| 0 <= m < |places[1..]| && places[1..][m] == later[i];
      assert places[m + 1] == later[i];
    }
  }

  lemma NamedHeld(owned: seq<Element>, places: seq<Path>, name: string, later: seq<Path>)
    requires |owned| == |places| > 0 && HoldNamed(owned[1..], places[1..], name, later)
    ensures HoldNamed(owned, places, name, (if owned[0].name == name then [places[0]] else []) + later)
  {
    forall k | 0 <= k < |owned| && owned[k].name == name
      ensures places[k] in (if owned[0].name == name then [places[0]] else []) + later
    {
      if k > 0 { assert owned[1..][k - 1] == owned[k] && places[1..][k - 1] in later; }
    }
  }

  lemma FirstNamed(
      page: Element, owned: seq<Element>, places: seq<Path>, name: string, ordinal: nat, later: seq<Path>)
    requires Lists(page.children, owned, places) && AllOwn(page.children, places) && |owned| > 0
    requires AreNamed(page, owned[1..], places[1..], name, ordinal, later) && owned[0].name == name
    requires AreAmong(later, places) && forall i :: 0 <= i < |later| ==> StartsBefore(places[0], later[i])
    requires HoldNamed(owned, places, name, [places[0]] + later)
    ensures AreNamed(page, owned, places, name, ordinal, [places[0]] + later)
  {
    var first := Job(ordinal, owned[0]);
    assert IsPageJobAt(page, first, ordinal, places[0]);
    PageJobsAppend(page, [first], [places[0]], Named(owned[1..], name, ordinal), later, ordinal);
    AscendBehind(places[0], later, places);
    HaveNameBehind(first, Named(owned[1..], name, ordinal), name);
  }

  lemma FirstUnnamed(
      page: Element, owned: seq<Element>, places: seq<Path>, name: string, ordinal: nat, later: seq<Path>)
    requires |owned| == |places| > 0 && owned[0].name != name
    requires AreNamed(page, owned[1..], places[1..], name, ordinal, later)
    requires AreAmong(later, places) && HoldNamed(owned, places, name, later)
    ensures AreNamed(page, owned, places, name, ordinal, later)
  {
    NamedIs(owned, name, ordinal);
  }

  lemma NamedIs(owned: seq<Element>, name: string, page: nat)
    requires |owned| > 0
    ensures owned[0].name != name ==> Named(owned, name, page) == Named(owned[1..], name, page)
  {
  }

  lemma AscendBehind(first: Path, later: seq<Path>, places: seq<Path>)
    requires Ascend(later) && AreAmong(later, places) && first in places
    requires forall i :: 0 <= i < |later| ==> StartsBefore(first, later[i])
    ensures Ascend([first] + later) && AreAmong([first] + later, places)
  {
  }

  lemma HaveNameBehind(first: Job, later: seq<Job>, name: string)
    requires first.section.name == name && HaveName(later, name)
    ensures HaveName([first] + later, name)
  {
  }

  /** A row of greater rank behind rows of smaller. */
  lemma RowsJoin(x: seq<Job>, p: seq<Path>, high: nat, y: seq<Job>, q: seq<Path>, rank: nat)
    requires AreOrdered(x, p) && AreOrdered(y, q) && high < rank
    requires forall i :: 0 <= i < |x| ==> SectionRank(x[i].section.name) <= high
    requires forall i :: 0 <= i < |y| ==> SectionRank(y[i].section.name) == rank
    ensures AreOrdered(x + y, p + q)
  {
  }

  lemma InSomeRow(
      page: Element, ordinal: nat, owned: seq<Element>, places: seq<Path>, headers: seq<Path>, bodies: seq<Path>,
      footers: seq<Path>, path: Path)
    requires AreOwned(page.children, owned, places) && IsOwnAt(page.children, path)
    requires AreNamed(page, owned, places, "Header", ordinal, headers)
    requires AreNamed(page, owned, places, "Body", ordinal, bodies)
    requires AreNamed(page, owned, places, "Footer", ordinal, footers)
    ensures path in headers || path in bodies || path in footers
  {
    var k :| 0 <= k < |places| && places[k] == path;
    assert ElementAt(page.children, places[k]) == Some(owned[k]);
    assert IsSection(owned[k]);
  }
}
