/** The rule that pairs a record detector's boxes with the entries a reading established. */
module Detection {
  import opened Options
  import opened Pixels
  import opened Regions
  import Sorting

  datatype Kind = Act | Other

  /** A reading's entry: its number, its class and the boxes that place it. */
  datatype Entry = Entry(n: int, kind: Kind, regions: seq<Bounds>)

  /** A detector record. One whose corners enclose no crop has no box. */
  datatype Record = Record(id: string, ref: string, box: Option<Box>)

  datatype Where = Where(id: string, ref: string, box: Box)

  /** A boxed record with the numbers of the entries it lies inside. */
  datatype Row = Row(at: Where, act: seq<int>, other: seq<int>, setAside: bool)

  datatype Detector = Configured | Absent

  datatype Finding =
    | NoRecordDetector
    | RecordsNotMeasured
    | RecordDetectorCapped
    | RecordNotMeasured(id: string, ref: string)
    | NoRecordOnActPage(acts: seq<int>)
    | SetAsideRecord(at: Where)
    | SplitDetection(at: Where, inside: seq<int>)
    | RecordReadAsOther(at: Where, inside: seq<int>)
    | RecordNotRead(at: Where)
    | MergedDetection(n: int, kind: Kind, records: seq<Where>)

  datatype Status = Pass | Hold | NotMeasured | NotApplicable

  datatype Outcome = Outcome(status: Status, findings: seq<Finding>, notMeasured: Option<nat>)

  predicate IsNotMeasured(f: Finding) {
    f.RecordsNotMeasured? || f.RecordDetectorCapped? || f.RecordNotMeasured?
  }

  /** A code that holds the page unless the policy flags it. A split detection and a missing
      detector are only recorded. */
  predicate IsHoldCode(f: Finding) {
    !f.NoRecordDetector? && !f.SplitDetection?
  }

  /** A finding to hold on outweighs one that only says something went unmeasured. */
  function Rule(findings: seq<Finding>): Status {
    if exists f :: f in findings && IsHoldCode(f) && !IsNotMeasured(f) then Hold
    else if exists f :: f in findings && IsNotMeasured(f) then NotMeasured
    else Pass
  }

  ghost predicate Numbered(entries: seq<Entry>) {
    forall i, j :: 0 <= i < j < |entries| ==> entries[i].n != entries[j].n
  }

  // --- where each record lies -----------------------------------------------------------------------

  /** Some entry of this number and kind holds the box. */
  ghost predicate HoldsBox(entries: seq<Entry>, n: int, kind: Kind, box: Box, minShareBp: int) {
    exists k ::
      0 <= k < |entries| && entries[k].n == n && entries[k].kind == kind
      && LiesInside(box, entries[k].regions, minShareBp)
  }

  /** The numbers, ascending, of the entries of one kind that hold the box. */
  ghost predicate IsInsideList(ns: seq<int>, entries: seq<Entry>, kind: Kind, box: Box, minShareBp: int) {
    Sorting.Ascending(ns) && forall n :: n in ns <==> HoldsBox(entries, n, kind, box, minShareBp)
  }

  method InsideOf(box: Box, entries: seq<Entry>, kind: Kind, minShareBp: int) returns (ns: seq<int>)
    ensures IsInsideList(ns, entries, kind, box, minShareBp)
  {
    ns := [];
    for k := 0 to |entries|
      invariant IsInsideList(ns, entries[..k], kind, box, minShareBp)
    {
      var inside := IsInside(box, entries[k].regions, minShareBp);
      OneEntryMore(entries, k, kind, box, minShareBp);
      if entries[k].kind == kind && inside {
        ns := Sorting.InsertDistinct(entries[k].n, ns);
      }
    }
    assert entries[..|entries|] == entries;
  }

  lemma OneEntryMore(entries: seq<Entry>, k: nat, kind: Kind, box: Box, minShareBp: int)
    requires k < |entries|
    ensures forall n :: HoldsBox(entries[..k + 1], n, kind, box, minShareBp)
              <==> HoldsBox(entries[..k], n, kind, box, minShareBp)
                   || (n == entries[k].n && entries[k].kind == kind && LiesInside(box, entries[k].regions, minShareBp))
  {
    forall n
      ensures HoldsBox(entries[..k + 1], n, kind, box, minShareBp)
              <==> HoldsBox(entries[..k], n, kind, box, minShareBp)
                   || (n == entries[k].n && entries[k].kind == kind && LiesInside(box, entries[k].regions, minShareBp))
    {
      assert entries[..k + 1] == entries[..k] + [entries[k]];
      if HoldsBox(entries[..k], n, kind, box, minShareBp) {
        var j :| 0 <= j < k && entries[..k][j].n == n && entries[..k][j].kind == kind
        && LiesInside(box, entries[..k][j].regions, minShareBp);
        assert entries[..k + 1][j] == entries[..k][j];
      }
      assert entries[..k + 1][k] == entries[k];
    }
  }

  /** The records that have a box, in order. */
  function Boxed(records: seq<Record>): seq<Record> {
    if |records| == 0 then []
    else Boxed(records[..|records| - 1]) + if records[|records| - 1].box.Some? then [records[|records| - 1]] else []
  }

  ghost predicate IsRowOf(row: Row, record: Record, entries: seq<Entry>, setAside: set<string>, minShareBp: int) {
    && record.box.Some? && row.at == Where(record.id, record.ref, record.box.value)
    && IsInsideList(row.act, entries, Act, row.at.box, minShareBp)
    && IsInsideList(row.other, entries, Other, row.at.box, minShareBp)
    && row.setAside == (record.id in setAside)
  }

  ghost predicate AreRows(
      rows: seq<Row>, records: seq<Record>, entries: seq<Entry>, setAside: set<string>, minShareBp: int)
  {
    && |rows| == |Boxed(records)|
    && forall i :: 0 <= i < |rows| ==> IsRowOf(rows[i], Boxed(records)[i], entries, setAside, minShareBp)
  }

  /** Each boxed record with the regions it lies inside. */
  method RecordRows(records: seq<Record>, entries: seq<Entry>, setAside: set<string>, minShareBp: int)
    returns (rows: seq<Row>)
    ensures AreRows(rows, records, entries, setAside, minShareBp)
  {
    rows := [];
    for i := 0 to |records|
      invariant AreRows(rows, records[..i], entries, setAside, minShareBp)
    {
      assert records[..i + 1][..i] == records[..i];
      if records[i].box.Some? {
        var box := records[i].box.value;
        var act := InsideOf(box, entries, Act, minShareBp);
        var other := InsideOf(box, entries, Other, minShareBp);
        rows := rows + [Row(Where(records[i].id, records[i].ref, box), act, other, records[i].id in setAside)];
      }
    }
    assert records[..|records|] == records;
  }

  // --- the rule -------------------------------------------------------------------------------------

  predicate Holds(row: Row, n: int) {
    n in row.act || n in row.other
  }

  /** The records one entry holds, in order. */
  function HeldIn(rows: seq<Row>, n: int): seq<Where> {
    if |rows| == 0 then []
    else HeldIn(rows[..|rows| - 1], n) + if Holds(rows[|rows| - 1], n) then [rows[|rows| - 1].at] else []
  }

  function ActNumbers(entries: seq<Entry>): (acts: seq<int>)
    ensures forall n :: n in acts <==> exists k :: 0 <= k < |entries| && entries[k].kind == Act && entries[k].n == n
    ensures |acts| <= |entries|
  {
    if |entries| == 0 then []
    else
      var last := |entries| - 1;
      var rest := ActNumbers(entries[..last]);
      assert forall k :: 0 <= k < last ==> entries[..last][k] == entries[k];
      rest + if entries[last].kind == Act then [entries[last].n] else []
  }

  /** The numbers are those of the entries at these places: ascending, and all the act entries'. */
  ghost predicate ListActs(acts: seq<int>, entries: seq<Entry>, places: seq<nat>) {
    && |places| == |acts|
    && (forall i :: 0 <= i < |places| ==> IsActAt(entries, places[i], acts[i]))
    && (forall i, j :: 0 <= i < j < |places| ==> places[i] < places[j])
    && (forall k: nat :: k < |entries| && entries[k].kind == Act ==> k in places)
  }

  predicate IsActAt(entries: seq<Entry>, k: nat, n: int) {
    k < |entries| && entries[k].kind == Act && entries[k].n == n
  }

  lemma {:induction false} ActsAreListed(entries: seq<Entry>) returns (places: seq<nat>)
    ensures ListActs(ActNumbers(entries), entries, places)
  {
    if |entries| == 0 {
      places := [];
    } else {
      var last := |entries| - 1;
      var before := ActsAreListed(entries[..last]);
      places := before + if entries[last].kind == Act then [last] else [];
      OneActMore(ActNumbers(entries[..last]), entries, before);
    }
  }

  lemma OneActMore(acts: seq<int>, entries: seq<Entry>, places: seq<nat>)
    requires |entries| > 0 && ListActs(acts, entries[..|entries| - 1], places)
    ensures var last := |entries| - 1;
            if entries[last].kind == Act then ListActs(acts + [entries[last].n], entries, places + [last])
            else ListActs(acts, entries, places)
  {
    var last := |entries| - 1;
    forall i | 0 <= i < |places|
      ensures places[i] < last && IsActAt(entries, places[i], acts[i])
    {
      assert IsActAt(entries[..last], places[i], acts[i]);
    }
    forall k: nat | k < last && entries[k].kind == Act
      ensures k in places
    {
      assert entries[..last][k] == entries[k];
    }
  }

  /** What one record's row alone gives. */
  function RowFindings(row: Row): seq<Finding> {
    (if row.setAside then [SetAsideRecord(row.at)] else [])
    + (if |row.act| > 1 then [SplitDetection(row.at, row.act)] else [])
    + (if |row.act| == 0 && |row.other| > 0 then [RecordReadAsOther(row.at, row.other)] else [])
    + (if |row.act| == 0 && |row.other| == 0 && !row.setAside then [RecordNotRead(row.at)] else [])
  }

  function AllRowFindings(rows: seq<Row>): seq<Finding> {
    if |rows| == 0 then [] else AllRowFindings(rows[..|rows| - 1]) + RowFindings(rows[|rows| - 1])
  }

  /** Every number a row holds is an entry's, and no entry is listed twice. */
  ghost predicate FitsEntries(rows: seq<Row>, kinds: map<int, Kind>) {
    forall i :: 0 <= i < |rows| ==> RowFits(rows[i], kinds)
  }

  ghost predicate RowFits(row: Row, kinds: map<int, Kind>) {
    && Sorting.Ascending(row.act) && Sorting.Ascending(row.other)
    && (forall n :: n in row.act ==> n in kinds && kinds[n] == Act)
    && (forall n :: n in row.other ==> n in kinds && kinds[n] == Other)
  }

  ghost predicate Groups(inside: map<int, seq<Where>>, rows: seq<Row>) {
    forall n :: if n in inside then |inside[n]| > 0 && inside[n] == HeldIn(rows, n) else HeldIn(rows, n) == []
  }

  /** Half way through a row: the numbers before `k` have it. */
  ghost predicate GroupsUpTo(inside: map<int, seq<Where>>, rows: seq<Row>, at: Where, done: seq<int>) {
    forall n :: if n in inside then |inside[n]| > 0 && inside[n] == HeldIn(rows, n) + (if n in done then [at] else [])
                else HeldIn(rows, n) == [] && n !in done
  }

  lemma FileOne(inside: map<int, seq<Where>>, rows: seq<Row>, at: Where, done: seq<int>, n: int)
    requires GroupsUpTo(inside, rows, at, done) && n !in done
    ensures GroupsUpTo(inside[n := (if n in inside then inside[n] else []) + [at]], rows, at, done + [n])
  {
  }

  lemma RowFiled(inside: map<int, seq<Where>>, rows: seq<Row>, row: Row)
    requires GroupsUpTo(inside, rows, row.at, row.act + row.other)
    ensures Groups(inside, rows + [row])
  {
    assert (rows + [row])[..|rows|] == rows;
    forall n
      ensures HeldIn(rows + [row], n) == HeldIn(rows, n) + if n in row.act + row.other then [row.at] else []
    {
    }
  }

  method FileRow(inside: map<int, seq<Where>>, row: Row, ghost rows: seq<Row>, ghost kinds: map<int, Kind>)
    returns (filed: map<int, seq<Where>>)
    requires Groups(inside, rows) && RowFits(row, kinds)
    ensures Groups(filed, rows + [row])
  {
    filed := inside;
    var ns := row.act + row.other;
    for k := 0 to |ns|
      invariant GroupsUpTo(filed, rows, row.at, ns[..k])
    {
      var n := ns[k];
      NotBefore(row, kinds, k);
      FileOne(filed, rows, row.at, ns[..k], n);
      filed := filed[n := (if n in filed then filed[n] else []) + [row.at]];
    }
    assert ns[..|ns|] == ns;
    RowFiled(filed, rows, row);
  }

  lemma NotBefore(row: Row, kinds: map<int, Kind>, k: nat)
    requires RowFits(row, kinds) && k < |row.act + row.other|
    ensures var ns := row.act + row.other; ns[k] !in ns[..k] && ns[..k + 1] == ns[..k] + [ns[k]]
  {
    var ns := row.act + row.other;
    forall i | 0 <= i < k
      ensures ns[i] != ns[k]
    {
      if i < |row.act| <= k {
        assert ns[i] in row.act && ns[k] in row.other;
      }
    }
  }

  /** What can be found once a page's records are counted and the detector was not capped. */
  ghost predicate IsFinding(f: Finding, rows: seq<Row>, kinds: map<int, Kind>, acts: seq<int>, unboxed: seq<Finding>) {
    || f in unboxed
    || (|rows| == 0 && |unboxed| == 0 && |acts| > 0 && f == NoRecordOnActPage(acts))
    || f in AllRowFindings(rows)
    || IsMerge(f, rows, kinds)
  }

  /** The findings in order: unboxed records, no record on an act page, each row's, and the entries
      that hold several records. */
  function AllFindings(
      rows: seq<Row>, kinds: map<int, Kind>, acts: seq<int>, unboxed: seq<Finding>, held: seq<int>): seq<Finding>
    requires forall n :: n in held ==> n in kinds
  {
    unboxed + (if |rows| == 0 && |unboxed| == 0 && |acts| > 0 then [NoRecordOnActPage(acts)] else [])
    + AllRowFindings(rows) + MergesOver(rows, kinds, held)
  }

  /** The numbers of the entries that hold a record, ascending. */
  ghost predicate IsHeldList(held: seq<int>, rows: seq<Row>) {
    Sorting.Ascending(held) && forall n :: n in held <==> HeldIn(rows, n) != []
  }

  /** The entries that hold several records, in the order given. */
  function MergesOver(rows: seq<Row>, kinds: map<int, Kind>, ns: seq<int>): seq<Finding>
    requires forall n :: n in ns ==> n in kinds
  {
    if |ns| == 0 then []
    else
      var last := |ns| - 1;
      assert ns[last] in ns && forall n :: n in ns[..last] ==> n in ns;
      MergesOver(rows, kinds, ns[..last])
      + if |HeldIn(rows, ns[last])| > 1
        then [MergedDetection(ns[last], kinds[ns[last]], HeldIn(rows, ns[last]))]
        else []
  }

  lemma {:induction false} MergesOverAre(rows: seq<Row>, kinds: map<int, Kind>, ns: seq<int>, f: Finding)
    requires forall n :: n in ns ==> n in kinds
    ensures f in MergesOver(rows, kinds, ns)
       <==> f.MergedDetection? && f.n in ns && f.kind == kinds[f.n] && f.records == HeldIn(rows, f.n) && |f.records| > 1
  {
    if |ns| > 0 {
      var last := |ns| - 1;
      assert ns == ns[..last] + [ns[last]];
      MergesOverAre(rows, kinds, ns[..last], f);
    }
  }

  lemma {:induction false} HeldAreEntries(rows: seq<Row>, kinds: map<int, Kind>, held: seq<int>)
    requires FitsEntries(rows, kinds) && IsHeldList(held, rows)
    ensures forall n :: n in held ==> n in kinds
  {
    forall n | n in held
      ensures n in kinds
    {
      HeldIsAnEntry(rows, kinds, n);
    }
  }

  /** The merges over the held list are the merges there are. */
  lemma {:induction false} MergesAreFindings(rows: seq<Row>, kinds: map<int, Kind>, held: seq<int>)
    requires IsHeldList(held, rows) && forall n :: n in held ==> n in kinds
    ensures forall f :: f in MergesOver(rows, kinds, held) <==> IsMerge(f, rows, kinds)
  {
    forall f
      ensures f in MergesOver(rows, kinds, held) <==> IsMerge(f, rows, kinds)
    {
      MergesOverAre(rows, kinds, held, f);
    }
  }

  ghost predicate IsMerge(f: Finding, rows: seq<Row>, kinds: map<int, Kind>) {
    f.MergedDetection? && f.n in kinds && f.kind == kinds[f.n] && f.records == HeldIn(rows, f.n) && |f.records| > 1
  }

  /** The groups of more than one record, in the order of their entries' numbers. */
  method Merges(inside: map<int, seq<Where>>, kinds: map<int, Kind>, ghost rows: seq<Row>)
    returns (merges: seq<Finding>, held: seq<int>)
    requires Groups(inside, rows) && FitsEntries(rows, kinds)
    ensures IsHeldList(held, rows) && (forall n :: n in held ==> n in kinds)
    ensures merges == MergesOver(rows, kinds, held)
  {
    held := Sorting.SortedSet(inside.Keys);
    HeldAreEntries(rows, kinds, held);
    merges := [];
    for i := 0 to |held|
      invariant merges == MergesOver(rows, kinds, held[..i])
    {
      var n := held[i];
      assert held[..i + 1][..i] == held[..i];
      assert n in held && n in inside.Keys;
      if |inside[n]| > 1 {
        merges := merges + [MergedDetection(n, kinds[n], inside[n])];
      }
    }
    assert held[..|held|] == held;
  }

  lemma {:induction false} HeldIsAnEntry(rows: seq<Row>, kinds: map<int, Kind>, n: int)
    requires FitsEntries(rows, kinds) && HeldIn(rows, n) != []
    ensures n in kinds
  {
    var last := |rows| - 1;
    assert RowFits(rows[last], kinds);
    if !Holds(rows[last], n) {
      HeldIsAnEntry(rows[..last], kinds, n);
    }
  }

  lemma InAny<T>(a: seq<T>, b: seq<T>, c: seq<T>, d: seq<T>)
    ensures forall x :: x in a + b + c + d <==> x in a || x in b || x in c || x in d
  {
  }

  /** The rule over a page whose records are counted. */
  method FindAll(rows: seq<Row>, kinds: map<int, Kind>, acts: seq<int>, unboxed: seq<Finding>)
    returns (findings: seq<Finding>, ghost held: seq<int>)
    requires FitsEntries(rows, kinds)
    ensures IsHeldList(held, rows) && (forall n :: n in held ==> n in kinds)
    ensures findings == AllFindings(rows, kinds, acts, unboxed, held)
    ensures forall f :: f in findings <==> IsFinding(f, rows, kinds, acts, unboxed)
  {
    var found: seq<Finding> := [];
    var inside: map<int, seq<Where>> := map[];
    for i := 0 to |rows|
      invariant found == AllRowFindings(rows[..i]) && Groups(inside, rows[..i])
    {
      assert rows[..i + 1][..i] == rows[..i];
      assert rows[..i + 1] == rows[..i] + [rows[i]];
      assert RowFits(rows[i], kinds);
      found := found + RowFindings(rows[i]);
      inside := FileRow(inside, rows[i], rows[..i], kinds);
    }
    assert rows[..|rows|] == rows;
    var merges, ns := Merges(inside, kinds, rows);
    held := ns;
    MergesAreFindings(rows, kinds, held);
    var none := if |rows| == 0 && |unboxed| == 0 && |acts| > 0 then [NoRecordOnActPage(acts)] else [];
    findings := unboxed + none + found + merges;
    InAny(unboxed, none, found, merges);
  }

  function Kinds(entries: seq<Entry>): map<int, Kind> {
    if |entries| == 0 then map[]
    else Kinds(entries[..|entries| - 1])[entries[|entries| - 1].n := entries[|entries| - 1].kind]
  }

  lemma {:induction false} KindsAre(entries: seq<Entry>)
    requires Numbered(entries)
    ensures forall k ::
              0 <= k < |entries| ==> entries[k].n in Kinds(entries) && Kinds(entries)[entries[k].n] == entries[k].kind
    ensures forall n :: n in Kinds(entries) ==> exists k :: 0 <= k < |entries| && entries[k].n == n
  {
    if |entries| > 0 {
      var last := |entries| - 1;
      KindsAre(entries[..last]);
      forall n | n in Kinds(entries)
        ensures exists k :: 0 <= k < |entries| && entries[k].n == n
      {
        if n != entries[last].n {
          var k :| 0 <= k < last && entries[..last][k].n == n;
          assert entries[k].n == n;
        } else {
          assert entries[last].n == n;
        }
      }
    }
  }

  lemma {:induction false} RowsFit(
      rows: seq<Row>, records: seq<Record>, entries: seq<Entry>, setAside: set<string>, minShareBp: int)
    requires Numbered(entries) && AreRows(rows, records, entries, setAside, minShareBp)
    ensures FitsEntries(rows, Kinds(entries))
  {
    KindsAre(entries);
    forall i | 0 <= i < |rows|
      ensures RowFits(rows[i], Kinds(entries))
    {
      assert IsRowOf(rows[i], Boxed(records)[i], entries, setAside, minShareBp);
    }
  }

  /** The findings for records that have no box. */
  function Unboxed(records: seq<Record>): seq<Finding> {
    if |records| == 0 then []
    else
      var last := records[|records| - 1];
      Unboxed(records[..|records| - 1]) + if last.box.None? then [RecordNotMeasured(last.id, last.ref)] else []
  }

  /** The rule over all records: the status, and every finding in order. */
  method DetectionRule(
      rows: Option<seq<Row>>, detector: Detector, capped: bool, entries: seq<Entry>, unboxed: seq<Finding>)
    returns (r: Outcome, ghost held: seq<int>)
    requires rows.Some? ==> FitsEntries(rows.value, Kinds(entries))
    ensures r.status == NotApplicable <==> rows == None && detector == Absent
    ensures r.status != NotApplicable ==> r.status == Rule(r.findings)
    ensures rows == None && detector == Absent ==> r.findings == [NoRecordDetector] && r.notMeasured == Some(0)
    ensures rows == None && detector == Configured ==> r.findings == [RecordsNotMeasured] && r.notMeasured == None
    ensures rows.Some? ==> r.notMeasured == Some(|unboxed|)
    ensures rows.Some? && capped ==> r.findings == [RecordDetectorCapped] + unboxed
    ensures rows.Some? && !capped ==> IsHeldList(held, rows.value) && forall n :: n in held ==> n in Kinds(entries)
    ensures rows.Some? && !capped
            ==> r.findings == AllFindings(rows.value, Kinds(entries), ActNumbers(entries), unboxed, held)
    ensures rows.Some? && !capped
            ==> forall f :: f in r.findings <==> IsFinding(f, rows.value, Kinds(entries), ActNumbers(entries), unboxed)
  {
    if rows == None {
      if detector == Absent { return Outcome(NotApplicable, [NoRecordDetector], Some(0)), []; }
      return Outcome(Rule([RecordsNotMeasured]), [RecordsNotMeasured], None), [];
    }
    if capped {
      var all := [RecordDetectorCapped] + unboxed;
      return Outcome(Rule(all), all, Some(|unboxed|)), [];
    }
    var findings;
    findings, held := FindAll(rows.value, Kinds(entries), ActNumbers(entries), unboxed);
    r := Outcome(Rule(findings), findings, Some(|unboxed|));
  }

  // --- what a pass means ----------------------------------------------------------------------------

  /** Every record is boxed, lies in an act, is not set aside and shares no entry with another
      record; and acts are not without records. */
  ghost predicate Paired(records: seq<Record>, entries: seq<Entry>, setAside: set<string>, minShareBp: int) {
    && (forall i :: 0 <= i < |records| ==> IsPlaced(records[i], entries, setAside, minShareBp))
    && NoneShares(records, entries, minShareBp)
    && (|records| == 0 ==> |ActNumbers(entries)| == 0)
  }

  ghost predicate LiesIn(record: Record, entry: Entry, minShareBp: int) {
    record.box.Some? && LiesInside(record.box.value, entry.regions, minShareBp)
  }

  ghost predicate IsPlaced(record: Record, entries: seq<Entry>, setAside: set<string>, minShareBp: int) {
    && record.box.Some? && record.id !in setAside
    && exists k :: 0 <= k < |entries| && entries[k].kind == Act && LiesIn(record, entries[k], minShareBp)
  }

  lemma {:induction false} HeldAtMostOnce(rows: seq<Row>, n: int)
    ensures |HeldIn(rows, n)| > 0 <==> exists i :: 0 <= i < |rows| && Holds(rows[i], n)
    ensures |HeldIn(rows, n)| <= 1 <==> forall i, j :: 0 <= i < j < |rows| ==> !(Holds(rows[i], n) && Holds(rows[j], n))
  {
    if |rows| > 0 {
      var last := |rows| - 1;
      HeldAtMostOnce(rows[..last], n);
      assert forall i :: 0 <= i < last ==> rows[..last][i] == rows[i];
    }
  }

  lemma {:induction false} RowOfFinding(rows: seq<Row>, f: Finding) returns (i: nat)
    requires f in AllRowFindings(rows)
    ensures i < |rows| && f in RowFindings(rows[i])
  {
    var before, last := rows[..|rows| - 1], rows[|rows| - 1];
    InEither(AllRowFindings(before), RowFindings(last), f);
    if f in RowFindings(last) {
      i := |rows| - 1;
    } else {
      i := RowOfFinding(before, f);
    }
  }

  lemma {:induction false} FindingOfRow(rows: seq<Row>, i: nat, f: Finding)
    requires i < |rows| && f in RowFindings(rows[i])
    ensures f in AllRowFindings(rows)
  {
    var n := |rows| - 1;
    if i < n {
      EarlierRow(rows, i);
      FindingOfRow(rows[..n], i, f);
    }
    InEither(AllRowFindings(rows[..n]), RowFindings(rows[n]), f);
  }

  lemma EarlierRow(rows: seq<Row>, i: nat)
    requires i < |rows| - 1
    ensures i < |rows[..|rows| - 1]| && rows[..|rows| - 1][i] == rows[i]
  {
  }

  lemma InEither<T>(a: seq<T>, b: seq<T>, x: T)
    ensures x in a + b <==> x in a || x in b
  {
  }

  /** A row that gives nothing to hold. */
  predicate IsQuiet(row: Row) {
    |row.act| > 0 && !row.setAside
  }

  lemma QuietRow(row: Row, f: Finding)
    requires IsQuiet(row) && f in RowFindings(row)
    ensures !IsHoldCode(f) && !Holding(f)
  {
    var split: seq<Finding> := if |row.act| > 1 then [SplitDetection(row.at, row.act)] else [];
    var none: seq<Finding> := [];
    assert none + split == split && split + none == split;
    assert RowFindings(row) == split;
  }

  lemma LoudRow(row: Row) returns (f: Finding)
    requires !IsQuiet(row)
    ensures f in RowFindings(row) && IsHoldCode(f) && Holding(f)
  {
    f := if row.setAside then SetAsideRecord(row.at)
         else if |row.other| > 0 then RecordReadAsOther(row.at, row.other)
         else RecordNotRead(row.at);
    assert RowFindings(row)[0] == f;
  }

  ghost predicate AllQuiet(rows: seq<Row>, kinds: map<int, Kind>, acts: seq<int>, unboxed: seq<Finding>) {
    && |unboxed| == 0 && (|rows| == 0 ==> |acts| == 0)
    && (forall i :: 0 <= i < |rows| ==> IsQuiet(rows[i]))
    && forall n :: n in kinds ==> |HeldIn(rows, n)| <= 1
  }

  lemma {:induction false} QuietGivesNothing(
      rows: seq<Row>, kinds: map<int, Kind>, acts: seq<int>, unboxed: seq<Finding>, f: Finding)
    requires AllQuiet(rows, kinds, acts, unboxed) && IsFinding(f, rows, kinds, acts, unboxed)
    ensures !IsHoldCode(f)
  {
    if f in AllRowFindings(rows) {
      var i := RowOfFinding(rows, f);
      QuietRow(rows[i], f);
    }
  }

  lemma {:induction false} SomethingIsHeld(
      rows: seq<Row>, kinds: map<int, Kind>, acts: seq<int>, unboxed: seq<Finding>)
    returns (f: Finding)
    requires !AllQuiet(rows, kinds, acts, unboxed) && forall g :: g in unboxed ==> g.RecordNotMeasured?
    ensures IsFinding(f, rows, kinds, acts, unboxed) && IsHoldCode(f)
  {
    if |unboxed| > 0 {
      f := unboxed[0];
      assert f in unboxed;
    } else if |rows| == 0 && |acts| > 0 {
      f := NoRecordOnActPage(acts);
    } else if i :| 0 <= i < |rows| && !IsQuiet(rows[i]) {
      f := LoudRow(rows[i]);
      FindingOfRow(rows, i, f);
    } else {
      var n :| n in kinds && |HeldIn(rows, n)| > 1;
      f := MergedDetection(n, kinds[n], HeldIn(rows, n));
    }
  }

  /** The kinds of finding that hold a page. */
  predicate Holding(f: Finding) {
    || f.NoRecordOnActPage? || f.SetAsideRecord? || f.RecordReadAsOther? || f.RecordNotRead?
    || f.MergedDetection?
  }

  /** The kinds that say something went unmeasured. */
  predicate Unmeasured(f: Finding) {
    f.RecordsNotMeasured? || f.RecordDetectorCapped? || f.RecordNotMeasured?
  }

  lemma RuleIs(findings: seq<Finding>)
    ensures Rule(findings) == Pass <==> forall f :: f in findings ==> !IsHoldCode(f)
    ensures Rule(findings) == Pass <==> forall f :: f in findings ==> !Holding(f) && !Unmeasured(f)
    ensures Rule(findings) == Hold <==> exists f :: f in findings && Holding(f)
    ensures Rule(findings) == NotMeasured <==>
              (exists f :: f in findings && Unmeasured(f)) && forall f :: f in findings ==> !Holding(f)
  {
    forall f: Finding
      ensures Holding(f) <==> IsHoldCode(f) && !IsNotMeasured(f)
      ensures Unmeasured(f) <==> IsNotMeasured(f)
    {
    }
    if Rule(findings) == Hold {
      var f :| f in findings && IsHoldCode(f) && !IsNotMeasured(f);
      assert Holding(f);
    }
  }

  lemma {:induction false} UnboxedAre(records: seq<Record>)
    ensures forall f :: f in Unboxed(records) ==> f.RecordNotMeasured?
  {
    if |records| > 0 {
      UnboxedAre(records[..|records| - 1]);
    }
  }

  lemma {:induction false} AllBoxed(records: seq<Record>)
    requires |Unboxed(records)| == 0
    ensures Boxed(records) == records
  {
    if |records| > 0 {
      AllBoxed(records[..|records| - 1]);
    }
  }

  /** Records with a finding for want of a box are the ones without. */
  lemma {:induction false} UnboxedIff(records: seq<Record>)
    ensures |Unboxed(records)| == 0 <==> forall i :: 0 <= i < |records| ==> records[i].box.Some?
  {
    if |records| > 0 {
      var last := |records| - 1;
      UnboxedIff(records[..last]);
      assert forall i :: 0 <= i < last ==> records[..last][i] == records[i];
    }
  }

  /** A row holds an entry's number exactly when the record lies in that entry. */
  lemma {:induction false} RowHoldsEntry(
      row: Row, record: Record, entries: seq<Entry>, setAside: set<string>, minShareBp: int, k: nat)
    requires Numbered(entries) && k < |entries| && IsRowOf(row, record, entries, setAside, minShareBp)
    ensures Holds(row, entries[k].n) <==> LiesIn(record, entries[k], minShareBp)
  {
    var n := entries[k].n;
    if HoldsBox(entries, n, Act, row.at.box, minShareBp) {
      var j :| 0 <= j < |entries| && entries[j].n == n && entries[j].kind == Act
      && LiesInside(row.at.box, entries[j].regions, minShareBp);
      SameNumber(entries, j, k);
    }
    if HoldsBox(entries, n, Other, row.at.box, minShareBp) {
      var j :| 0 <= j < |entries| && entries[j].n == n && entries[j].kind == Other
      && LiesInside(row.at.box, entries[j].regions, minShareBp);
      SameNumber(entries, j, k);
    }
  }

  lemma SameNumber(entries: seq<Entry>, j: nat, k: nat)
    requires Numbered(entries) && j < |entries| && k < |entries| && entries[j].n == entries[k].n
    ensures j == k
  {
  }

  lemma {:induction false} RowIsPlaced(
      row: Row, record: Record, entries: seq<Entry>, setAside: set<string>, minShareBp: int)
    requires IsRowOf(row, record, entries, setAside, minShareBp)
    ensures IsQuiet(row) <==> IsPlaced(record, entries, setAside, minShareBp)
  {
    if |row.act| > 0 {
      assert row.act[0] in row.act;
    }
    if k :| 0 <= k < |entries| && entries[k].kind == Act && LiesIn(record, entries[k], minShareBp) {
      assert HoldsBox(entries, entries[k].n, Act, row.at.box, minShareBp);
      assert entries[k].n in row.act;
    }
  }

  ghost predicate NoneShares(records: seq<Record>, entries: seq<Entry>, minShareBp: int) {
    forall i, j, k :: 0 <= i < j < |records| && 0 <= k < |entries| ==>
      !(LiesIn(records[i], entries[k], minShareBp) && LiesIn(records[j], entries[k], minShareBp))
  }

  ghost predicate AreRowsOf(
      rows: seq<Row>, records: seq<Record>, entries: seq<Entry>, setAside: set<string>, minShareBp: int)
  {
    |rows| == |records| && forall i :: 0 <= i < |rows| ==> IsRowOf(rows[i], records[i], entries, setAside, minShareBp)
  }

  /** No two records lie in the entry. */
  ghost predicate AtMostOneIn(records: seq<Record>, entry: Entry, minShareBp: int) {
    forall i, j :: 0 <= i < j < |records| ==>
      !(LiesIn(records[i], entry, minShareBp) && LiesIn(records[j], entry, minShareBp))
  }

  lemma SharesByEntry(records: seq<Record>, entries: seq<Entry>, minShareBp: int)
    ensures NoneShares(records, entries, minShareBp)
       <==> forall k :: 0 <= k < |entries| ==> AtMostOneIn(records, entries[k], minShareBp)
  {
    if forall k :: 0 <= k < |entries| ==> AtMostOneIn(records, entries[k], minShareBp) {
      forall i, j, k | 0 <= i < j < |records| && 0 <= k < |entries|
        ensures !(LiesIn(records[i], entries[k], minShareBp) && LiesIn(records[j], entries[k], minShareBp))
      {
        assert AtMostOneIn(records, entries[k], minShareBp);
      }
    }
  }

  /** An entry holds several records exactly when several lie in it. */
  lemma {:induction false} HeldOnceIff(
      rows: seq<Row>, records: seq<Record>, entries: seq<Entry>, setAside: set<string>, minShareBp: int, k: nat)
    requires Numbered(entries) && k < |entries| && AreRowsOf(rows, records, entries, setAside, minShareBp)
    ensures |HeldIn(rows, entries[k].n)| <= 1 <==> AtMostOneIn(records, entries[k], minShareBp)
  {
    forall i | 0 <= i < |rows|
      ensures Holds(rows[i], entries[k].n) <==> LiesIn(records[i], entries[k], minShareBp)
    {
      RowHoldsEntry(rows[i], records[i], entries, setAside, minShareBp, k);
    }
    HeldAtMostOnce(rows, entries[k].n);
  }

  ghost predicate HoldsOnce(rows: seq<Row>, n: int) {
    |HeldIn(rows, n)| <= 1
  }

  lemma {:induction false} OnceByEntry(rows: seq<Row>, entries: seq<Entry>)
    requires Numbered(entries)
    ensures (forall n :: n in Kinds(entries) ==> |HeldIn(rows, n)| <= 1)
       <==> forall k :: 0 <= k < |entries| ==> HoldsOnce(rows, entries[k].n)
  {
    KindsAre(entries);
    forall n | n in Kinds(entries) && forall k :: 0 <= k < |entries| ==> HoldsOnce(rows, entries[k].n)
      ensures |HeldIn(rows, n)| <= 1
    {
      var k :| 0 <= k < |entries| && entries[k].n == n;
      assert HoldsOnce(rows, entries[k].n);
    }
  }

  lemma {:induction false} NoneSharesIff(
      rows: seq<Row>, records: seq<Record>, entries: seq<Entry>, setAside: set<string>, minShareBp: int)
    requires Numbered(entries) && AreRowsOf(rows, records, entries, setAside, minShareBp)
    ensures (forall n :: n in Kinds(entries) ==> |HeldIn(rows, n)| <= 1) <==> NoneShares(records, entries, minShareBp)
  {
    OnceByEntry(rows, entries);
    SharesByEntry(records, entries, minShareBp);
    forall k: nat | k < |entries|
      ensures HoldsOnce(rows, entries[k].n) <==> AtMostOneIn(records, entries[k], minShareBp)
    {
      HeldOnceIff(rows, records, entries, setAside, minShareBp, k);
    }
  }

  lemma {:induction false} QuietIffPaired(
      rows: seq<Row>, records: seq<Record>, entries: seq<Entry>, setAside: set<string>, minShareBp: int)
    requires Numbered(entries) && AreRows(rows, records, entries, setAside, minShareBp)
    ensures AllQuiet(rows, Kinds(entries), ActNumbers(entries), Unboxed(records))
            <==> Paired(records, entries, setAside, minShareBp)
  {
    UnboxedIff(records);
    if |Unboxed(records)| == 0 {
      AllBoxed(records);
      NoneSharesIff(rows, records, entries, setAside, minShareBp);
      forall i | 0 <= i < |rows|
        ensures IsQuiet(rows[i]) <==> IsPlaced(records[i], entries, setAside, minShareBp)
      {
        RowIsPlaced(rows[i], records[i], entries, setAside, minShareBp);
      }
    } else {
      var i :| 0 <= i < |records| && records[i].box.None?;
      assert !IsPlaced(records[i], entries, setAside, minShareBp);
    }
  }

  // --- what a hold means ----------------------------------------------------------------------------

  /** A boxed record is set aside or lies in no act, or two records lie in one entry, or there are
      acts and no record. */
  ghost predicate HoldsPage(records: seq<Record>, entries: seq<Entry>, setAside: set<string>, minShareBp: int) {
    || (exists i :: 0 <= i < |records| && IsAmiss(records[i], entries, setAside, minShareBp))
    || !NoneShares(records, entries, minShareBp)
    || (|records| == 0 && exists k :: 0 <= k < |entries| && entries[k].kind == Act)
  }

  ghost predicate IsAmiss(record: Record, entries: seq<Entry>, setAside: set<string>, minShareBp: int) {
    record.box.Some? && !IsPlaced(record, entries, setAside, minShareBp)
  }

  lemma {:induction false} BoxedAre(records: seq<Record>)
    ensures forall record :: record in Boxed(records) <==> record in records && record.box.Some?
    ensures |Boxed(records)| + |Unboxed(records)| == |records|
  {
    if |records| > 0 {
      var last := |records| - 1;
      BoxedAre(records[..last]);
      assert records == records[..last] + [records[last]];
    }
  }

  /** A record without a box lies in no entry. */
  lemma {:induction false} BoxedShare(records: seq<Record>, entry: Entry, minShareBp: int)
    ensures AtMostOneIn(Boxed(records), entry, minShareBp) <==> AtMostOneIn(records, entry, minShareBp)
  {
    BoxedAre(records);
    var boxed := Boxed(records);
    if i, j :| 0 <= i < j < |boxed| && LiesIn(boxed[i], entry, minShareBp) && LiesIn(boxed[j], entry, minShareBp) {
      var k, l := BoxedPair(records, i, j);
    }
    var all := records;
    if k, l :| 0 <= k < l < |all| && LiesIn(all[k], entry, minShareBp) && LiesIn(all[l], entry, minShareBp) {
      var i, j := PairBoxed(records, k, l);
    }
  }

  /** Two boxed records in the order they have among all. */
  lemma {:induction false} BoxedPair(records: seq<Record>, i: nat, j: nat) returns (k: nat, l: nat)
    requires i < j < |Boxed(records)|
    ensures k < l < |records| && records[k] == Boxed(records)[i] && records[l] == Boxed(records)[j]
  {
    var last := |records| - 1;
    if j < |Boxed(records[..last])| {
      k, l := BoxedPair(records[..last], i, j);
    } else {
      BoxedAre(records[..last]);
      assert Boxed(records[..last])[i] in Boxed(records[..last]);
      k :| 0 <= k < last && records[..last][k] == Boxed(records[..last])[i];
      l := last;
    }
  }

  lemma {:induction false} PairBoxed(records: seq<Record>, k: nat, l: nat) returns (i: nat, j: nat)
    requires k < l < |records| && records[k].box.Some? && records[l].box.Some?
    ensures i < j < |Boxed(records)| && Boxed(records)[i] == records[k] && Boxed(records)[j] == records[l]
  {
    var last := |records| - 1;
    if l < last {
      i, j := PairBoxed(records[..last], k, l);
    } else {
      BoxedAre(records[..last]);
      assert records[..last][k] in records[..last];
      i :| 0 <= i < |Boxed(records[..last])| && Boxed(records[..last])[i] == records[k];
      j := |Boxed(records[..last])|;
    }
  }

  lemma {:induction false} SharesBoxed(records: seq<Record>, entries: seq<Entry>, minShareBp: int)
    ensures NoneShares(Boxed(records), entries, minShareBp) <==> NoneShares(records, entries, minShareBp)
  {
    SharesByEntry(records, entries, minShareBp);
    SharesByEntry(Boxed(records), entries, minShareBp);
    forall k: nat | k < |entries|
      ensures AtMostOneIn(Boxed(records), entries[k], minShareBp) <==> AtMostOneIn(records, entries[k], minShareBp)
    {
      BoxedShare(records, entries[k], minShareBp);
    }
  }

  /** Some row is loud exactly when some boxed record is amiss. */
  lemma {:induction false} LoudIff(
      rows: seq<Row>, records: seq<Record>, entries: seq<Entry>, setAside: set<string>, minShareBp: int)
    requires AreRows(rows, records, entries, setAside, minShareBp)
    ensures (exists i :: 0 <= i < |rows| && !IsQuiet(rows[i]))
       <==> exists i :: 0 <= i < |records| && IsAmiss(records[i], entries, setAside, minShareBp)
  {
    var boxed := Boxed(records);
    BoxedAre(records);
    forall i | 0 <= i < |rows|
      ensures boxed[i] in records && (!IsQuiet(rows[i]) <==> IsAmiss(boxed[i], entries, setAside, minShareBp))
    {
      assert IsRowOf(rows[i], boxed[i], entries, setAside, minShareBp) && boxed[i] in boxed;
      RowIsPlaced(rows[i], boxed[i], entries, setAside, minShareBp);
    }
    if i :| 0 <= i < |rows| && !IsQuiet(rows[i]) {
      var k :| 0 <= k < |records| && records[k] == boxed[i];
      assert IsAmiss(records[k], entries, setAside, minShareBp);
    }
    if k :| 0 <= k < |records| && IsAmiss(records[k], entries, setAside, minShareBp) {
      assert records[k] in boxed;
      var i :| 0 <= i < |boxed| && boxed[i] == records[k];
      assert !IsQuiet(rows[i]);
    }
  }

  /** Some finding holds exactly when a row is loud, an entry holds two rows, or acts have none. */
  lemma {:induction false} HeldIff(
      rows: seq<Row>, kinds: map<int, Kind>, acts: seq<int>, unboxed: seq<Finding>)
    requires forall g :: g in unboxed ==> g.RecordNotMeasured?
    ensures (exists f :: IsFinding(f, rows, kinds, acts, unboxed) && Holding(f))
       <==> (exists i :: 0 <= i < |rows| && !IsQuiet(rows[i]))
            || !(forall n :: n in kinds ==> |HeldIn(rows, n)| <= 1)
            || (|rows| == 0 && |unboxed| == 0 && |acts| > 0)
  {
    if i :| 0 <= i < |rows| && !IsQuiet(rows[i]) {
      var f := LoudRow(rows[i]);
      FindingOfRow(rows, i, f);
      assert IsFinding(f, rows, kinds, acts, unboxed);
    }
    if n :| n in kinds && |HeldIn(rows, n)| > 1 {
      var f := MergedDetection(n, kinds[n], HeldIn(rows, n));
      assert IsFinding(f, rows, kinds, acts, unboxed) && Holding(f);
    }
    if |rows| == 0 && |unboxed| == 0 && |acts| > 0 {
      assert IsFinding(NoRecordOnActPage(acts), rows, kinds, acts, unboxed);
    }
    if f :| IsFinding(f, rows, kinds, acts, unboxed) && Holding(f) && f in AllRowFindings(rows) {
      var i := RowOfFinding(rows, f);
      if IsQuiet(rows[i]) { QuietRow(rows[i], f); }
    }
  }

  /** The findings hold the page exactly when its records are amiss so. */
  lemma {:induction false} HoldIff(
      rows: seq<Row>, records: seq<Record>, entries: seq<Entry>, setAside: set<string>, minShareBp: int,
      findings: seq<Finding>)
    requires Numbered(entries) && AreRows(rows, records, entries, setAside, minShareBp)
    requires forall f :: f in findings <==> IsFinding(f, rows, Kinds(entries), ActNumbers(entries), Unboxed(records))
    ensures Rule(findings) == Hold <==> HoldsPage(records, entries, setAside, minShareBp)
  {
    RuleIs(findings);
    UnboxedAre(records);
    BoxedAre(records);
    HeldIff(rows, Kinds(entries), ActNumbers(entries), Unboxed(records));
    LoudIff(rows, records, entries, setAside, minShareBp);
    NoneSharesIff(rows, Boxed(records), entries, setAside, minShareBp);
    SharesBoxed(records, entries, minShareBp);
    SomeActIff(entries);
  }

  lemma SomeActIff(entries: seq<Entry>)
    ensures |ActNumbers(entries)| > 0 <==> exists k :: 0 <= k < |entries| && entries[k].kind == Act
  {
    var acts := ActNumbers(entries);
    if |acts| > 0 { assert acts[0] in acts; }
    if k :| 0 <= k < |entries| && entries[k].kind == Act { assert entries[k].n in acts; }
  }

  // --- what each finding means ------------------------------------------------------------------------

  predicate IsAt(record: Record, at: Where) {
    record.box.Some? && at == Where(record.id, record.ref, record.box.value)
  }

  ghost predicate InNone(at: Where, entries: seq<Entry>, kind: Kind, minShareBp: int) {
    forall k :: 0 <= k < |entries| ==> entries[k].kind == kind ==> !LiesInside(at.box, entries[k].regions, minShareBp)
  }

  /** Where the records that lie in one entry are, in order. */
  ghost function WhereIn(records: seq<Record>, entry: Entry, minShareBp: int): seq<Where> {
    if |records| == 0 then []
    else
      var last := records[|records| - 1];
      WhereIn(records[..|records| - 1], entry, minShareBp)
      + if LiesIn(last, entry, minShareBp) then [Where(last.id, last.ref, last.box.value)] else []
  }

  /** What the finding says of some record, of the page or of an entry. */
  ghost predicate Means(
      f: Finding, records: seq<Record>, entries: seq<Entry>, setAside: set<string>, minShareBp: int)
  {
    match f
    case RecordNotMeasured(id, ref) => exists record :: record in records && IsUnboxed(record, id, ref)
    case NoRecordOnActPage(acts) => |records| == 0 && |acts| > 0 && acts == ActNumbers(entries)
    case SetAsideRecord(at) => at.id in setAside && exists record :: record in records && IsAt(record, at)
    case SplitDetection(at, inside) =>
      && |inside| > 1 && IsInsideList(inside, entries, Act, at.box, minShareBp)
      && exists record :: record in records && IsAt(record, at)
    case RecordReadAsOther(at, inside) =>
      && InNone(at, entries, Act, minShareBp)
      && |inside| > 0 && IsInsideList(inside, entries, Other, at.box, minShareBp)
      && exists record :: record in records && IsAt(record, at)
    case RecordNotRead(at) =>
      && InNone(at, entries, Act, minShareBp) && InNone(at, entries, Other, minShareBp) && at.id !in setAside
      && exists record :: record in records && IsAt(record, at)
    case MergedDetection(n, kind, at) =>
      |at| > 1 && exists k :: 0 <= k < |entries| && IsMergeIn(entries[k], n, kind, at, records, minShareBp)
    case _ => false
  }

  predicate IsUnboxed(record: Record, id: string, ref: string) {
    record.box.None? && record.id == id && record.ref == ref
  }

  ghost predicate IsMergeIn(
      entry: Entry, n: int, kind: Kind, at: seq<Where>, records: seq<Record>, minShareBp: int)
  {
    entry.n == n && entry.kind == kind && at == WhereIn(records, entry, minShareBp)
  }

  lemma {:induction false} UnboxedMeans(records: seq<Record>, f: Finding)
    ensures f in Unboxed(records)
       <==> f.RecordNotMeasured? && exists record :: record in records && IsUnboxed(record, f.id, f.ref)
  {
    if |records| > 0 {
      var last := |records| - 1;
      UnboxedMeans(records[..last], f);
      assert records == records[..last] + [records[last]] && records[last] in records;
      if f.RecordNotMeasured? {
        if record :| record in records && IsUnboxed(record, f.id, f.ref) {
          assert record in records[..last] || record == records[last];
        }
        if record :| record in records[..last] && IsUnboxed(record, f.id, f.ref) {
          assert record in records;
        }
      }
    }
  }

  lemma ListsOf(ns: seq<int>, ms: seq<int>, entries: seq<Entry>, kind: Kind, at: Where, minShareBp: int)
    requires IsInsideList(ns, entries, kind, at.box, minShareBp)
    ensures IsInsideList(ms, entries, kind, at.box, minShareBp) <==> ms == ns
    ensures |ns| == 0 <==> InNone(at, entries, kind, minShareBp)
  {
    if IsInsideList(ms, entries, kind, at.box, minShareBp) {
      assert forall k :: 0 <= k < |ms| ==> ms[k] in ms;
      assert forall k :: 0 <= k < |ns| ==> ns[k] in ns;
      if |ms| > 0 { assert ms[0] in ms; }
      Sorting.AscendingSame(ms, ns);
    }
    if k :| 0 <= k < |entries| && entries[k].kind == kind && LiesInside(at.box, entries[k].regions, minShareBp) {
      assert HoldsBox(entries, entries[k].n, kind, at.box, minShareBp);
    }
    if |ns| > 0 { assert ns[0] in ns; }
  }

  lemma RowFindingsAre(row: Row, f: Finding)
    ensures f in RowFindings(row) <==>
              || (f == SetAsideRecord(row.at) && row.setAside)
              || (f == SplitDetection(row.at, row.act) && |row.act| > 1)
              || (f == RecordReadAsOther(row.at, row.other) && |row.act| == 0 && |row.other| > 0)
              || (f == RecordNotRead(row.at) && |row.act| == 0 && |row.other| == 0 && !row.setAside)
  {
    InAny(
      if row.setAside then [SetAsideRecord(row.at)] else [],
      if |row.act| > 1 then [SplitDetection(row.at, row.act)] else [],
      if |row.act| == 0 && |row.other| > 0 then [RecordReadAsOther(row.at, row.other)] else [],
      if |row.act| == 0 && |row.other| == 0 && !row.setAside then [RecordNotRead(row.at)] else []);
  }

  /** What one record's own findings mean. */
  lemma {:induction false} RowMeans(
      row: Row, record: Record, entries: seq<Entry>, setAside: set<string>, minShareBp: int, f: Finding)
    requires IsRowOf(row, record, entries, setAside, minShareBp)
    ensures f in RowFindings(row) <==> MeansOf(f, row.at, entries, setAside, minShareBp)
  {
    RowFindingsAre(row, f);
    ListsOf(row.act, if f.SplitDetection? then f.inside else [], entries, Act, row.at, minShareBp);
    ListsOf(row.other, if f.RecordReadAsOther? then f.inside else [], entries, Other, row.at, minShareBp);
  }

  /** What a finding says of the record at a place. */
  ghost predicate MeansOf(f: Finding, at: Where, entries: seq<Entry>, setAside: set<string>, minShareBp: int) {
    match f
    case SetAsideRecord(w) => w == at && at.id in setAside
    case SplitDetection(w, inside) =>
      w == at && |inside| > 1 && IsInsideList(inside, entries, Act, at.box, minShareBp)
    case RecordReadAsOther(w, inside) =>
      && w == at && InNone(at, entries, Act, minShareBp)
      && |inside| > 0 && IsInsideList(inside, entries, Other, at.box, minShareBp)
    case RecordNotRead(w) =>
      && w == at && InNone(at, entries, Act, minShareBp) && InNone(at, entries, Other, minShareBp)
      && at.id !in setAside
    case _ => false
  }

  lemma RowFindingMeans(f: Finding, records: seq<Record>, entries: seq<Entry>, setAside: set<string>, minShareBp: int)
    requires f.SetAsideRecord? || f.SplitDetection? || f.RecordReadAsOther? || f.RecordNotRead?
    ensures Means(f, records, entries, setAside, minShareBp)
       <==> exists record :: record in records && IsAt(record, f.at) && MeansOf(f, f.at, entries, setAside, minShareBp)
  {
  }

  lemma {:induction false} WhereBoxed(records: seq<Record>, entry: Entry, minShareBp: int)
    ensures WhereIn(Boxed(records), entry, minShareBp) == WhereIn(records, entry, minShareBp)
  {
    if |records| > 0 {
      var last := |records| - 1;
      WhereBoxed(records[..last], entry, minShareBp);
      if records[last].box.Some? {
        var boxed := Boxed(records);
        assert boxed == Boxed(records[..last]) + [records[last]];
        assert boxed[..|boxed| - 1] == Boxed(records[..last]);
      } else {
        assert Boxed(records) == Boxed(records[..last]);
      }
    }
  }

  /** The records a numbered entry holds are those that lie in it. */
  lemma {:induction false} HeldIsWhere(
      rows: seq<Row>, records: seq<Record>, entries: seq<Entry>, setAside: set<string>, minShareBp: int, k: nat)
    requires Numbered(entries) && k < |entries| && AreRowsOf(rows, records, entries, setAside, minShareBp)
    ensures HeldIn(rows, entries[k].n) == WhereIn(records, entries[k], minShareBp)
  {
    if |rows| > 0 {
      var last := |rows| - 1;
      HeldIsWhere(rows[..last], records[..last], entries, setAside, minShareBp, k);
      assert IsRowOf(rows[last], records[last], entries, setAside, minShareBp);
      RowHoldsEntry(rows[last], records[last], entries, setAside, minShareBp, k);
    }
  }

  lemma {:induction false} MergeMeans(
      rows: seq<Row>, records: seq<Record>, entries: seq<Entry>, setAside: set<string>, minShareBp: int, f: Finding)
    requires Numbered(entries) && AreRows(rows, records, entries, setAside, minShareBp) && f.MergedDetection?
    ensures IsMerge(f, rows, Kinds(entries)) <==> Means(f, records, entries, setAside, minShareBp)
  {
    KindsAre(entries);
    forall k: nat | k < |entries|
      ensures HeldIn(rows, entries[k].n) == WhereIn(records, entries[k], minShareBp)
    {
      HeldIsWhere(rows, Boxed(records), entries, setAside, minShareBp, k);
      WhereBoxed(records, entries[k], minShareBp);
    }
    if IsMerge(f, rows, Kinds(entries)) {
      var k :| 0 <= k < |entries| && entries[k].n == f.n;
      assert IsMergeIn(entries[k], f.n, f.kind, f.records, records, minShareBp);
    }
  }

  lemma {:induction false} OwnFindingsMean(
      rows: seq<Row>, records: seq<Record>, entries: seq<Entry>, setAside: set<string>, minShareBp: int, f: Finding)
    requires AreRows(rows, records, entries, setAside, minShareBp)
    requires f.SetAsideRecord? || f.SplitDetection? || f.RecordReadAsOther? || f.RecordNotRead?
    ensures f in AllRowFindings(rows) <==> Means(f, records, entries, setAside, minShareBp)
  {
    var boxed := Boxed(records);
    BoxedAre(records);
    RowFindingMeans(f, records, entries, setAside, minShareBp);
    if f in AllRowFindings(rows) {
      var i := RowOfFinding(rows, f);
      assert IsRowOf(rows[i], boxed[i], entries, setAside, minShareBp) && boxed[i] in boxed;
      RowMeans(rows[i], boxed[i], entries, setAside, minShareBp, f);
      assert IsAt(boxed[i], f.at);
    }
    if record :| record in records && IsAt(record, f.at) && MeansOf(f, f.at, entries, setAside, minShareBp) {
      assert record in boxed;
      var i: nat :| i < |boxed| && boxed[i] == record;
      assert IsRowOf(rows[i], boxed[i], entries, setAside, minShareBp);
      RowMeans(rows[i], boxed[i], entries, setAside, minShareBp, f);
      FindingOfRow(rows, i, f);
    }
  }

  lemma {:induction false} RowFindingKinds(rows: seq<Row>, f: Finding)
    requires f in AllRowFindings(rows)
    ensures f.SetAsideRecord? || f.SplitDetection? || f.RecordReadAsOther? || f.RecordNotRead?
  {
    var i := RowOfFinding(rows, f);
  }

  /** The findings of a counted page are those that say what is so of its records. */
  lemma {:induction false} FindingsMean(
      rows: seq<Row>, records: seq<Record>, entries: seq<Entry>, setAside: set<string>, minShareBp: int, f: Finding)
    requires Numbered(entries) && AreRows(rows, records, entries, setAside, minShareBp)
    ensures IsFinding(f, rows, Kinds(entries), ActNumbers(entries), Unboxed(records))
       <==> Means(f, records, entries, setAside, minShareBp)
  {
    BoxedAre(records);
    UnboxedMeans(records, f);
    if f in AllRowFindings(rows) { RowFindingKinds(rows, f); }
    if f.MergedDetection? { MergeMeans(rows, records, entries, setAside, minShareBp, f); }
    if f.SetAsideRecord? || f.SplitDetection? || f.RecordReadAsOther? || f.RecordNotRead? {
      OwnFindingsMean(rows, records, entries, setAside, minShareBp, f);
    }
  }

  /** The rule passes exactly when the page's records were counted, below the detector's cap, and
      pair with its acts; it holds the page exactly when a record counted so is amiss; in every other
      case a configured detector's page is not measured. */
  method AccountRecords(
      records: Option<seq<Record>>, detector: Detector, capped: bool, entries: seq<Entry>,
      setAside: set<string>, minShareBp: int)
    returns (r: Outcome)
    requires Numbered(entries)
    ensures r.status == Pass <==> records.Some? && !capped && Paired(records.value, entries, setAside, minShareBp)
    ensures r.status == NotApplicable <==> records == None && detector == Absent
    ensures r.status == Hold <==> records.Some? && !capped && HoldsPage(records.value, entries, setAside, minShareBp)
    ensures records.Some? && !capped ==>
          forall f :: f in r.findings <==> Means(f, records.value, entries, setAside, minShareBp)
    ensures r.status == Pass ==>
          |records.value| <= |ActNumbers(entries)|
          && (|ActNumbers(entries)| > 0 ==> |records.value| > 0)
  {
    if records == None {
      ghost var none;
      r, none := DetectionRule(None, detector, capped, entries, []);
      RuleIs(r.findings);
      assert detector == Configured ==> RecordsNotMeasured in r.findings;
      return;
    }
    var rows := RecordRows(records.value, entries, setAside, minShareBp);
    RowsFit(rows, records.value, entries, setAside, minShareBp);
    ghost var held;
    r, held := DetectionRule(Some(rows), detector, capped, entries, Unboxed(records.value));
    RuleIs(r.findings);
    UnboxedAre(records.value);
    if capped {
      assert RecordDetectorCapped in r.findings;
      return;
    }
    PassIff(rows, records.value, entries, setAside, minShareBp, r.findings);
    forall f
      ensures f in r.findings <==> Means(f, records.value, entries, setAside, minShareBp)
    {
      FindingsMean(rows, records.value, entries, setAside, minShareBp, f);
    }
    HoldIff(rows, records.value, entries, setAside, minShareBp, r.findings);
    if r.status == Pass {
      var acts := RecordsInjectIntoActs(records.value, entries, setAside, minShareBp);
    }
  }

  lemma {:induction false} PassIff(
      rows: seq<Row>, records: seq<Record>, entries: seq<Entry>, setAside: set<string>, minShareBp: int,
      findings: seq<Finding>)
    requires Numbered(entries) && AreRows(rows, records, entries, setAside, minShareBp)
    requires forall f :: f in findings <==> IsFinding(f, rows, Kinds(entries), ActNumbers(entries), Unboxed(records))
    ensures Rule(findings) == Pass <==> Paired(records, entries, setAside, minShareBp)
  {
    RuleIs(findings);
    UnboxedAre(records);
    QuietIffPaired(rows, records, entries, setAside, minShareBp);
    if AllQuiet(rows, Kinds(entries), ActNumbers(entries), Unboxed(records)) {
      forall f | f in findings
        ensures !IsHoldCode(f)
      {
        QuietGivesNothing(rows, Kinds(entries), ActNumbers(entries), Unboxed(records), f);
      }
    } else {
      var f := SomethingIsHeld(rows, Kinds(entries), ActNumbers(entries), Unboxed(records));
      assert f in findings;
    }
  }

  function Elements(ns: seq<nat>): set<nat> {
    if |ns| == 0 then {} else Elements(ns[..|ns| - 1]) + {ns[|ns| - 1]}
  }

  /** Different numbers are as many as their set. */
  lemma {:induction false} ElementsSize(ns: seq<nat>)
    requires Sorting.Distinct(ns)
    ensures |Elements(ns)| == |ns| && forall n :: n in Elements(ns) <==> n in ns
  {
    if |ns| > 0 {
      var last := |ns| - 1;
      LastIsNew(ns);
      ElementsSize(ns[..last]);
    }
  }

  lemma LastIsNew(ns: seq<nat>)
    requires |ns| > 0 && Sorting.Distinct(ns)
    ensures var last := |ns| - 1;
            && Sorting.Distinct(ns[..last]) && ns[last] !in ns[..last]
            && forall n :: n in ns <==> n in ns[..last] || n == ns[last]
  {
    var last := |ns| - 1;
    assert ns == ns[..last] + [ns[last]];
  }

  /** Where the act entries stand. */
  function ActPlaces(entries: seq<Entry>): set<nat> {
    if |entries| == 0 then {}
    else ActPlaces(entries[..|entries| - 1]) + if entries[|entries| - 1].kind == Act then {|entries| - 1} else {}
  }

  lemma {:induction false} ActPlacesAre(entries: seq<Entry>)
    ensures forall k: nat :: k in ActPlaces(entries) <==> k < |entries| && entries[k].kind == Act
  {
    if |entries| > 0 {
      var last := |entries| - 1;
      ActPlacesAre(entries[..last]);
      assert forall k :: 0 <= k < last ==> entries[..last][k] == entries[k];
    }
  }

  lemma {:induction false} ActPlacesSize(entries: seq<Entry>)
    ensures |ActPlaces(entries)| == |ActNumbers(entries)|
  {
    if |entries| > 0 {
      var last := |entries| - 1;
      ActPlacesSize(entries[..last]);
      ActPlacesAre(entries[..last]);
      assert last !in ActPlaces(entries[..last]);
    }
  }

  /** An act entry of its own for each of the first records. */
  ghost predicate OwnActs(acts: seq<nat>, records: seq<Record>, entries: seq<Entry>, minShareBp: int) {
    && |acts| <= |records|
    && (forall i :: 0 <= i < |acts| ==>
          && acts[i] < |entries| && entries[acts[i]].kind == Act
          && LiesIn(records[i], entries[acts[i]], minShareBp))
    && (forall i, j :: 0 <= i < j < |acts| ==> acts[i] != acts[j])
  }

  lemma OwnOneMore(acts: seq<nat>, records: seq<Record>, entries: seq<Entry>, minShareBp: int, k: nat)
    requires OwnActs(acts, records, entries, minShareBp) && |acts| < |records|
             && NoneShares(records, entries, minShareBp)
    requires k < |entries| && entries[k].kind == Act && LiesIn(records[|acts|], entries[k], minShareBp)
    ensures OwnActs(acts + [k], records, entries, minShareBp)
  {
    forall i | 0 <= i < |acts|
      ensures acts[i] != k
    {
      assert LiesIn(records[i], entries[acts[i]], minShareBp);
    }
  }

  /** Each record has an act of its own, so there are at most as many records as acts. */
  lemma {:induction false} RecordsInjectIntoActs(
      records: seq<Record>, entries: seq<Entry>, setAside: set<string>, minShareBp: int)
    returns (acts: seq<nat>)
    requires Paired(records, entries, setAside, minShareBp)
    ensures |acts| == |records| <= |ActNumbers(entries)|
    ensures OwnActs(acts, records, entries, minShareBp)
  {
    acts := [];
    for i := 0 to |records|
      invariant |acts| == i && OwnActs(acts, records, entries, minShareBp)
    {
      assert IsPlaced(records[i], entries, setAside, minShareBp);
      var k: nat :| k < |entries| && entries[k].kind == Act && LiesIn(records[i], entries[k], minShareBp);
      OwnOneMore(acts, records, entries, minShareBp, k);
      acts := acts + [k];
    }
    ActsAreEnough(acts, records, entries, minShareBp);
  }

  lemma {:induction false} ActsAreEnough(acts: seq<nat>, records: seq<Record>, entries: seq<Entry>, minShareBp: int)
    requires OwnActs(acts, records, entries, minShareBp)
    ensures |acts| <= |ActNumbers(entries)|
  {
    ElementsSize(acts);
    ActPlacesSize(entries);
    ActPlacesAre(entries);
    SubsetSize(Elements(acts), ActPlaces(entries));
  }
}
