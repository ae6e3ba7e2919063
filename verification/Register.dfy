/** The corpus register: an append-only log replayed into per-page membership chains. */
module Register {
  import opened Options

  /** One link of a page's membership chain. Source digests are compared as numbers. */
  datatype Row = Row(page: string, members: seq<nat>, predecessor: Option<string>, run: string)

  datatype Record =
    | PhysicalPage(corpus: string, volume: string, designation: string, id: string, run: string)
    | Membership(row: Row)
    | PhysicalAct(page: string, mint: string, id: string, evidence: seq<string>, run: string)
    | Correspondence(local: string, actClass: string, actBounds: string, act: string, page: string,
      physicalAct: string, evidence: seq<string>, run: string)
    | Retraction(retracts: string, reason: string, run: string)

  /** The hashes identities are derived with. Nothing is assumed of them. */
  datatype Names = Names(
    digest: Row -> string,
    pageId: (string, string, string) -> string,
    actId: (string, string) -> string,
    localActId: (string, string, string) -> string)

  datatype Refusal =
    | DoesNotBind | NoRun | NoMembers | UnsortedMembers | NotDeclared | WrongPredecessor | DoesNotGrow | NoEvidence
    | WrongPage | AlreadyDeclared | EmptyField | AlreadyRetracted | NotTheHead | NeverDeclared | Repeated
    | TooManyRecords

  datatype Result<T> = Accepted(value: T) | Refused(why: Refusal)

  /** A surviving link: its row's digest and its members. */
  datatype Link = Link(digest: string, members: set<nat>)

  /** The state a log is replayed into. */
  datatype Replay = Replay(
    seen: set<string>,
    pages: set<string>,
    acts: set<string>,
    actPages: map<string, string>,
    correspondences: set<string>,
    head: map<string, Link>,
    chain: map<string, seq<Link>>,
    links: set<string>,
    retracted: set<string>)

  const EMPTY := Replay({}, {}, {}, map[], {}, map[], map[], {}, {})

  const MEMBERSHIP := "membership:"
  const MAX_REGISTER_RECORDS := 100_000
  const MAX_RECORD_LIST_ITEMS := 100_000

  function MemberSet(members: seq<nat>): set<nat> {
    set m | m in members
  }

  predicate IsSortedUnique(members: seq<nat>) {
    |members| <= MAX_RECORD_LIST_ITEMS && forall i, j :: 0 <= i < j < |members| ==> members[i] < members[j]
  }

  predicate IsEvidence(evidence: seq<string>) {
    0 < |evidence| <= MAX_RECORD_LIST_ITEMS && forall k :: 0 <= k < |evidence| ==> evidence[k] != ""
  }

  function LinkOf(names: Names, row: Row): Link {
    Link(names.digest(row), MemberSet(row.members))
  }

  function ChainOf(r: Replay, page: string): seq<Link> {
    if page in r.chain then r.chain[page] else []
  }

  /** One link of one page's append-only chain. */
  function TakeMembership(names: Names, r: Replay, row: Row): Result<Replay> {
    var link := LinkOf(names, row);
    if row.page == "" then Refused(EmptyField)
    else if row.run == "" then Refused(NoRun)
    else if !IsSortedUnique(row.members) then Refused(UnsortedMembers)
    else if link.members == {} then Refused(NoMembers)
    else if row.page !in r.head && row.page !in r.pages then Refused(NotDeclared)
    else if row.predecessor != (if row.page in r.head then Some(r.head[row.page].digest) else None)
    then Refused(WrongPredecessor)
    else if row.page in r.head && !(r.head[row.page].members < link.members) then Refused(DoesNotGrow)
    else Accepted(r.(
      head := r.head[row.page := link],
      chain := r.chain[row.page := ChainOf(r, row.page) + [link]],
      links := r.links + {link.digest}))
  }

  predicate StartsWith(s: string, prefix: string) {
    prefix <= s
  }

  /** The pages whose current head has this digest. */
  function Headed(r: Replay, target: string): set<string> {
    set page | page in r.head && r.head[page].digest == target && |ChainOf(r, page)| > 0
  }

  function WithoutLast(links: seq<Link>): seq<Link> {
    if |links| == 0 then [] else links[..|links| - 1]
  }

  /** Withdraw the newest link of one page's chain. */
  function TakeRetraction(r: Replay, page: string, target: string): Replay {
    var chain := WithoutLast(ChainOf(r, page));
    r.(
      chain := r.chain[page := chain],
      retracted := r.retracted + {target},
      head := if |chain| > 0 then r.head[page := chain[|chain| - 1]] else r.head - {page})
  }

  function CorrespondenceId(act: string, physicalAct: string): string {
    act + "->" + physicalAct
  }

  /** File the record's identity, unless an earlier record has it. */
  function File(r: Replay, identity: string): Result<Replay> {
    if identity in r.seen then Refused(Repeated) else Accepted(r.(seen := r.seen + {identity}))
  }

  /** The identity a record is filed under. */
  function IdentityOf(names: Names, record: Record): string {
    match record
    case PhysicalPage(_, _, _, id, _) => id
    case Membership(row) => MEMBERSHIP + names.digest(row)
    case PhysicalAct(_, _, id, _, _) => id
    case Correspondence(_, _, _, act, _, physicalAct, _, run) => CorrespondenceId(act, physicalAct) + "@" + run
    case Retraction(retracts, _, run) => "retract:" + retracts + "@" + run
  }

  ghost function Some1<T>(s: set<T>): (x: T)
    requires s != {}
    ensures x in s
  {
    var x :| x in s;
    x
  }

  /** What a record changes before it is filed. */
  ghost function Change(names: Names, r: Replay, record: Record): Result<Replay> {
    match record
    case PhysicalPage(corpus, volume, designation, id, run) =>
      if id != names.pageId(corpus, volume, designation) then Refused(DoesNotBind)
      else if run == "" then Refused(NoRun)
      else Accepted(r.(pages := r.pages + {id}))
    case Membership(row) => TakeMembership(names, r, row)
    case PhysicalAct(page, mint, id, evidence, run) =>
      if id != names.actId(page, mint) || run == "" then Refused(DoesNotBind)
      else if !IsEvidence(evidence) then Refused(NoEvidence)
      else if page !in r.pages then Refused(NotDeclared)
      else Accepted(r.(acts := r.acts + {id}, actPages := r.actPages[id := page]))
    case Correspondence(local, actClass, actBounds, act, page, physicalAct, evidence, run) =>
      if run == "" then Refused(NoRun)
      else if act != names.localActId(local, actClass, actBounds) then Refused(DoesNotBind)
      else if !IsEvidence(evidence) then Refused(NoEvidence)
      else if page !in r.pages || physicalAct !in r.acts || physicalAct !in r.actPages then Refused(NotDeclared)
      else if r.actPages[physicalAct] != page then Refused(WrongPage)
      else if CorrespondenceId(act, physicalAct) in r.correspondences then Refused(AlreadyDeclared)
      else Accepted(r.(correspondences := r.correspondences + {CorrespondenceId(act, physicalAct)}))
    case Retraction(retracts, reason, run) =>
      if retracts == "" || reason == "" || run == "" then Refused(EmptyField)
      else if StartsWith(retracts, MEMBERSHIP) then
        var target := retracts[|MEMBERSHIP|..];
        if Headed(r, target) == {} then
          Refused(
            if target in r.retracted then AlreadyRetracted
            else if target in r.links then NotTheHead
            else NeverDeclared)
        else Accepted(TakeRetraction(r, Some1(Headed(r, target)), target))
      else if retracts !in r.correspondences then Refused(NeverDeclared)
      else Accepted(r.(correspondences := r.correspondences - {retracts}))
  }

  /** Replaying one record more. */
  ghost function Step(names: Names, r: Replay, record: Record): Result<Replay> {
    match Change(names, r, record)
    case Refused(why) => Refused(why)
    case Accepted(changed) => File(changed, IdentityOf(names, record))
  }

  /** Replaying a whole log. */
  ghost function ReplayOf(names: Names, log: seq<Record>): Result<Replay> {
    if |log| == 0 then Accepted(EMPTY)
    else
      var n := |log| - 1;
      match ReplayOf(names, log[..n])
      case Refused(why) => Refused(why)
      case Accepted(r) => Step(names, r, log[n])
  }

  // --- what the log itself says -------------------------------------------------------------------

  /** The membership digests a log's retractions name. */
  function Withdrawn(log: seq<Record>): set<string> {
    if |log| == 0 then {}
    else
      var n := |log| - 1;
      var earlier := Withdrawn(log[..n]);
      if log[n].Retraction? && StartsWith(log[n].retracts, MEMBERSHIP)
      then earlier + {log[n].retracts[|MEMBERSHIP|..]}
      else earlier
  }

  /** The membership rows of the log, in order. */
  function RowsOf(log: seq<Record>): seq<Row> {
    if |log| == 0 then []
    else
      var n := |log| - 1;
      RowsOf(log[..n]) + if log[n].Membership? then [log[n].row] else []
  }

  /** The rows of one page whose digests are not withdrawn, in order. */
  function Survivors(names: Names, rows: seq<Row>, page: string, withdrawn: set<string>): seq<Row> {
    if |rows| == 0 then []
    else
      var n := |rows| - 1;
      Survivors(names, rows[..n], page, withdrawn)
      + if rows[n].page == page && names.digest(rows[n]) !in withdrawn then [rows[n]] else []
  }

  function SurvivorsIn(names: Names, log: seq<Record>, page: string): seq<Row> {
    Survivors(names, RowsOf(log), page, Withdrawn(log))
  }

  function Links(names: Names, rows: seq<Row>): (links: seq<Link>)
    ensures |links| == |rows| && forall k :: 0 <= k < |rows| ==> links[k] == LinkOf(names, rows[k])
  {
    seq(|rows|, k requires 0 <= k < |rows| => LinkOf(names, rows[k]))
  }

  /** Row `k` names captures and a run, names the row before it and adds to its members; the
      first names none. */
  ghost predicate IsLinkAt(names: Names, rows: seq<Row>, k: nat)
    requires k < |rows|
  {
    && rows[k].run != "" && IsSortedUnique(rows[k].members) && MemberSet(rows[k].members) != {}
    && rows[k].predecessor == (if k == 0 then None else Some(names.digest(rows[k - 1])))
    && (k > 0 ==> MemberSet(rows[k - 1].members) < MemberSet(rows[k].members))
  }

  ghost predicate IsChain(names: Names, rows: seq<Row>) {
    forall k :: 0 <= k < |rows| ==> IsLinkAt(names, rows, k)
  }

  ghost predicate DistinctDigests(names: Names, rows: seq<Row>) {
    forall i, j :: 0 <= i < j < |rows| ==> names.digest(rows[i]) != names.digest(rows[j])
  }

  /** The replayed state of one page against the log's own surviving rows. */
  ghost predicate PageAgrees(names: Names, r: Replay, log: seq<Record>, page: string) {
    var rows := SurvivorsIn(names, log, page);
    && ChainOf(r, page) == Links(names, rows) && IsChain(names, rows)
    && (page in r.head <==> |rows| > 0)
    && (|rows| > 0 ==> page in r.pages && page != "" && r.head[page] == LinkOf(names, rows[|rows| - 1]))
  }

  /** The replayed state says what the log says. */
  ghost predicate Agrees(names: Names, r: Replay, log: seq<Record>) {
    && (forall page :: PageAgrees(names, r, log, page))
    && DistinctDigests(names, RowsOf(log))
    && (forall d :: d in r.links <==> exists k :: 0 <= k < |RowsOf(log)| && names.digest(RowsOf(log)[k]) == d)
    && (forall d :: d in r.links ==> MEMBERSHIP + d in r.seen)
    && r.retracted == Withdrawn(log) && r.retracted <= r.links
  }

  // --- one step at a time ---------------------------------------------------------------------------

  lemma {:induction false} SurvivorsAre(names: Names, rows: seq<Row>, page: string, withdrawn: set<string>)
    ensures forall row :: row in Survivors(names, rows, page, withdrawn)
              <==> row in rows && row.page == page && names.digest(row) !in withdrawn
  {
    if |rows| > 0 {
      var n := |rows| - 1;
      SurvivorsAre(names, rows[..n], page, withdrawn);
      assert rows == rows[..n] + [rows[n]];
    }
  }

  /** Withdrawing a digest none of the page's rows has changes nothing. */
  lemma {:induction false} WithdrawElsewhere(
      names: Names, rows: seq<Row>, page: string, withdrawn: set<string>, d: string)
    requires forall row :: row in rows && row.page == page && names.digest(row) !in withdrawn ==> names.digest(row) != d
    ensures Survivors(names, rows, page, withdrawn + {d}) == Survivors(names, rows, page, withdrawn)
  {
    if |rows| > 0 {
      WithdrawElsewhere(names, rows[..|rows| - 1], page, withdrawn, d);
    }
  }

  /** The log's last row's digest is no earlier row's. */
  lemma LastDigestIsNew(names: Names, rows: seq<Row>)
    requires DistinctDigests(names, rows) && |rows| > 0
    ensures forall row :: row in rows[..|rows| - 1] ==> names.digest(row) != names.digest(rows[|rows| - 1])
  {
    var n := |rows| - 1;
    forall row | row in rows[..n]
      ensures names.digest(row) != names.digest(rows[n])
    {
      var k :| 0 <= k < n && rows[k] == row;
    }
  }

  lemma {:induction false} SurvivorsSplit(names: Names, rows: seq<Row>, page: string, withdrawn: set<string>)
    requires |rows| > 0
    ensures var n := |rows| - 1;
            var kept := Survivors(names, rows[..n], page, withdrawn);
            Survivors(names, rows, page, withdrawn)
            == if rows[n].page == page && names.digest(rows[n]) !in withdrawn then kept + [rows[n]] else kept
  {
  }

  /** Withdrawing the last survivor's digest removes that row and no other. */
  lemma {:induction false} WithdrawLast(names: Names, rows: seq<Row>, page: string, withdrawn: set<string>)
    requires DistinctDigests(names, rows) && |Survivors(names, rows, page, withdrawn)| > 0
    ensures var kept := Survivors(names, rows, page, withdrawn);
            Survivors(names, rows, page, withdrawn + {names.digest(kept[|kept| - 1])}) == kept[..|kept| - 1]
  {
    var n := |rows| - 1;
    var kept := Survivors(names, rows, page, withdrawn);
    var d := names.digest(kept[|kept| - 1]);
    LastDigestIsNew(names, rows);
    SurvivorsSplit(names, rows, page, withdrawn);
    SurvivorsSplit(names, rows, page, withdrawn + {d});
    if rows[n].page == page && names.digest(rows[n]) !in withdrawn {
      WithdrawElsewhere(names, rows[..n], page, withdrawn, d);
    } else {
      WithdrawLast(names, rows[..n], page, withdrawn);
      SurvivorsAre(names, rows[..n], page, withdrawn);
      assert kept[|kept| - 1] in kept;
    }
  }

  lemma SameDigestSameRow(names: Names, rows: seq<Row>, i: nat, j: nat)
    requires DistinctDigests(names, rows) && i < |rows| && j < |rows|
    ensures names.digest(rows[i]) == names.digest(rows[j]) ==> i == j
  {
  }

  /** The last survivor of a page is a row of the log. */
  lemma {:induction false} LastSurvivor(names: Names, log: seq<Record>, page: string) returns (at: nat)
    requires |SurvivorsIn(names, log, page)| > 0
    ensures var kept := SurvivorsIn(names, log, page);
            at < |RowsOf(log)| && RowsOf(log)[at] == kept[|kept| - 1] && RowsOf(log)[at].page == page
  {
    var rows, kept := RowsOf(log), SurvivorsIn(names, log, page);
    SurvivorsAre(names, rows, page, Withdrawn(log));
    assert kept[|kept| - 1] in kept;
    at :| 0 <= at < |rows| && rows[at] == kept[|kept| - 1];
  }

  /** At most one page's head has a digest: survivors' digests are distinct. */
  lemma {:induction false} HeadIsUnique(names: Names, r: Replay, log: seq<Record>, target: string, p: string, q: string)
    requires Agrees(names, r, log) && p in Headed(r, target) && q in Headed(r, target)
    ensures p == q
  {
    assert PageAgrees(names, r, log, p) && PageAgrees(names, r, log, q);
    var i := LastSurvivor(names, log, p);
    var j := LastSurvivor(names, log, q);
    SameDigestSameRow(names, RowsOf(log), i, j);
  }

  lemma {:induction false} LogStep(log: seq<Record>)
    requires |log| > 0
    ensures var n := |log| - 1;
            && RowsOf(log) == RowsOf(log[..n]) + (if log[n].Membership? then [log[n].row] else [])
            && Withdrawn(log) == Withdrawn(log[..n]) + (if log[n].Retraction? && StartsWith(log[n].retracts, MEMBERSHIP)
                                                        then {log[n].retracts[|MEMBERSHIP|..]} else {})
  {
  }

  /** A record that is neither a membership nor its retraction declares, and links nothing. */
  lemma {:induction false} OtherStep(names: Names, r: Replay, record: Record, r': Replay)
    requires Step(names, r, record) == Accepted(r')
    requires !record.Membership? && (record.Retraction? ==> !StartsWith(record.retracts, MEMBERSHIP))
    ensures r'.head == r.head && r'.chain == r.chain && r'.links == r.links && r'.retracted == r.retracted
    ensures r.pages <= r'.pages && r.seen <= r'.seen
  {
  }

  /** A record that is neither a membership nor its retraction leaves every page as it was. */
  lemma {:induction false} OtherKeeps(names: Names, r: Replay, log: seq<Record>, record: Record, r': Replay)
    requires Agrees(names, r, log) && Step(names, r, record) == Accepted(r')
    requires !record.Membership? && (record.Retraction? ==> !StartsWith(record.retracts, MEMBERSHIP))
    ensures Agrees(names, r', log + [record])
  {
    var log' := log + [record];
    OtherStep(names, r, record, r');
    LogStep(log');
    assert log'[..|log|] == log;
    assert RowsOf(log') == RowsOf(log) && Withdrawn(log') == Withdrawn(log);
    forall page
      ensures PageAgrees(names, r', log', page)
    {
      assert PageAgrees(names, r, log, page);
    }
  }

  /** A chain with a row appended that names its last and grows it. */
  lemma {:induction false} ChainAppend(names: Names, rows: seq<Row>, row: Row)
    requires IsChain(names, rows) && row.run != "" && IsSortedUnique(row.members) && MemberSet(row.members) != {}
    requires row.predecessor == if |rows| == 0 then None else Some(names.digest(rows[|rows| - 1]))
    requires |rows| > 0 ==> MemberSet(rows[|rows| - 1].members) < MemberSet(row.members)
    ensures IsChain(names, rows + [row]) && Links(names, rows + [row]) == Links(names, rows) + [LinkOf(names, row)]
  {
    var more := rows + [row];
    forall k | 0 <= k < |more|
      ensures IsLinkAt(names, more, k)
    {
      if k < |rows| { assert IsLinkAt(names, rows, k); }
    }
  }

  lemma {:induction false} MembershipPage(
      names: Names, r: Replay, log: seq<Record>, row: Row, changed: Replay, log': seq<Record>, page: string)
    requires PageAgrees(names, r, log, page) && TakeMembership(names, r, row) == Accepted(changed)
    requires RowsOf(log') == RowsOf(log) + [row] && Withdrawn(log') == Withdrawn(log)
    requires names.digest(row) !in Withdrawn(log)
    ensures PageAgrees(names, changed, log', page)
  {
    assert (RowsOf(log) + [row])[..|RowsOf(log)|] == RowsOf(log);
    var kept := SurvivorsIn(names, log, page);
    if page == row.page {
      assert SurvivorsIn(names, log', page) == kept + [row];
      ChainAppend(names, kept, row);
    } else {
      assert SurvivorsIn(names, log', page) == kept;
    }
  }

  /** The row's digest joins the links. */
  lemma {:induction false} MembershipLinks(names: Names, r: Replay, log: seq<Record>, row: Row)
    requires Agrees(names, r, log) && names.digest(row) !in r.links
    ensures DistinctDigests(names, RowsOf(log) + [row])
    ensures forall d :: d in r.links + {names.digest(row)} <==>
              exists k :: 0 <= k < |RowsOf(log) + [row]| && names.digest((RowsOf(log) + [row])[k]) == d
  {
    var rows, more := RowsOf(log), RowsOf(log) + [row];
    assert more[|rows|] == row;
    forall d
      ensures d in r.links + {names.digest(row)} <==> exists k :: 0 <= k < |more| && names.digest(more[k]) == d
    {
      if d in r.links {
        var k :| 0 <= k < |rows| && names.digest(rows[k]) == d;
        assert more[k] == rows[k];
      }
    }
    forall i, j | 0 <= i < j < |more|
      ensures names.digest(more[i]) != names.digest(more[j])
    {
      assert names.digest(rows[i]) in r.links;
      if j < |rows| { assert names.digest(rows[j]) in r.links; }
    }
  }

  lemma {:induction false} MembershipKeeps(names: Names, r: Replay, log: seq<Record>, row: Row, r': Replay)
    requires Agrees(names, r, log) && Step(names, r, Membership(row)) == Accepted(r')
    ensures Agrees(names, r', log + [Membership(row)])
  {
    var log' := log + [Membership(row)];
    LogStep(log');
    assert log'[..|log|] == log;
    MembershipLinks(names, r, log, row);
    forall page
      ensures PageAgrees(names, r', log', page)
    {
      assert PageAgrees(names, r, log, page);
      MembershipPage(names, r, log, row, TakeMembership(names, r, row).value, log', page);
    }
  }

  lemma {:induction false} ChainInit(names: Names, rows: seq<Row>)
    requires IsChain(names, rows) && |rows| > 0
    ensures IsChain(names, rows[..|rows| - 1]) && Links(names, rows[..|rows| - 1]) == Links(names, rows)[..|rows| - 1]
  {
    var init := rows[..|rows| - 1];
    forall k | 0 <= k < |init|
      ensures IsLinkAt(names, init, k)
    {
      assert IsLinkAt(names, rows, k);
    }
  }

  lemma {:induction false} RetractionHere(
      names: Names, r: Replay, log: seq<Record>, target: string, page: string, log': seq<Record>)
    requires PageAgrees(names, r, log, page) && page in Headed(r, target) && DistinctDigests(names, RowsOf(log))
    requires RowsOf(log') == RowsOf(log) && Withdrawn(log') == Withdrawn(log) + {target}
    ensures PageAgrees(names, TakeRetraction(r, page, target), log', page)
  {
    var kept := SurvivorsIn(names, log, page);
    WithdrawLast(names, RowsOf(log), page, Withdrawn(log));
    ChainInit(names, kept);
    assert SurvivorsIn(names, log', page) == kept[..|kept| - 1];
  }

  lemma {:induction false} RetractionElsewhere(
      names: Names, r: Replay, log: seq<Record>, target: string, page: string, log': seq<Record>, other: string)
    requires PageAgrees(names, r, log, page) && page in Headed(r, target) && DistinctDigests(names, RowsOf(log))
    requires PageAgrees(names, r, log, other) && other != page
    requires RowsOf(log') == RowsOf(log) && Withdrawn(log') == Withdrawn(log) + {target}
    ensures PageAgrees(names, TakeRetraction(r, page, target), log', other)
  {
    var rows := RowsOf(log);
    var at := LastSurvivor(names, log, page);
    forall row | row in rows && row.page == other
      ensures names.digest(row) != target
    {
      var k: nat :| k < |rows| && rows[k] == row;
      SameDigestSameRow(names, rows, k, at);
    }
    WithdrawElsewhere(names, rows, other, Withdrawn(log), target);
  }

  lemma {:induction false} RetractionPages(
      names: Names, r: Replay, log: seq<Record>, target: string, page: string, log': seq<Record>)
    requires (forall p :: PageAgrees(names, r, log, p)) && page in Headed(r, target)
             && DistinctDigests(names, RowsOf(log))
    requires RowsOf(log') == RowsOf(log) && Withdrawn(log') == Withdrawn(log) + {target}
    ensures forall p :: PageAgrees(names, TakeRetraction(r, page, target), log', p)
    ensures exists k :: 0 <= k < |RowsOf(log)| && names.digest(RowsOf(log)[k]) == target
  {
    forall p
      ensures PageAgrees(names, TakeRetraction(r, page, target), log', p)
    {
      assert PageAgrees(names, r, log, p) && PageAgrees(names, r, log, page);
      if p == page { RetractionHere(names, r, log, target, page, log'); }
      else { RetractionElsewhere(names, r, log, target, page, log', p); }
    }
    assert PageAgrees(names, r, log, page);
    var at := LastSurvivor(names, log, page);
  }

  lemma {:induction false} FilingKeeps(names: Names, changed: Replay, log: seq<Record>, r': Replay)
    requires (forall p :: PageAgrees(names, changed, log, p)) && r' == changed.(seen := r'.seen)
    ensures forall p :: PageAgrees(names, r', log, p)
  {
    forall p
      ensures PageAgrees(names, r', log, p)
    {
      assert PageAgrees(names, changed, log, p);
    }
  }

  lemma {:induction false} RetractionKeeps(names: Names, r: Replay, log: seq<Record>, record: Record, r': Replay)
    requires Agrees(names, r, log) && Step(names, r, record) == Accepted(r')
    requires record.Retraction? && StartsWith(record.retracts, MEMBERSHIP)
    ensures Agrees(names, r', log + [record])
  {
    var log', target := log + [record], record.retracts[|MEMBERSHIP|..];
    LogStep(log');
    assert log'[..|log|] == log;
    var page := Some1(Headed(r, target));
    RetractionPages(names, r, log, target, page, log');
    FilingKeeps(names, TakeRetraction(r, page, target), log', r');
  }

  /** Any accepted register's replay says, page by page, exactly what its log says. */
  lemma {:induction false} ReplayAgrees(names: Names, log: seq<Record>)
    ensures ReplayOf(names, log).Accepted? ==> Agrees(names, ReplayOf(names, log).value, log)
  {
    if |log| == 0 {
      assert RowsOf(log) == [];
    } else if ReplayOf(names, log).Accepted? {
      var n := |log| - 1;
      ReplayAgrees(names, log[..n]);
      var r, r', record := ReplayOf(names, log[..n]).value, ReplayOf(names, log).value, log[n];
      assert log == log[..n] + [record];
      if record.Membership? {
        MembershipKeeps(names, r, log[..n], record.row, r');
      } else if record.Retraction? && StartsWith(record.retracts, MEMBERSHIP) {
        RetractionKeeps(names, r, log[..n], record, r');
      } else {
        OtherKeeps(names, r, log[..n], record, r');
      }
    }
  }

  // --- correspondences --------------------------------------------------------------------------------

  /** The record declares the correspondence with this identity. */
  predicate Declares(record: Record, id: string) {
    record.Correspondence? && CorrespondenceId(record.act, record.physicalAct) == id
  }

  predicate Withdraws(record: Record, id: string) {
    record.Retraction? && !StartsWith(record.retracts, MEMBERSHIP) && record.retracts == id
  }

  /** The log declares the correspondence and withdraws it nowhere behind that. */
  predicate Stands(log: seq<Record>, id: string) {
    exists k :: 0 <= k < |log| && IsLatest(log, k, id)
  }

  predicate IsLatest(log: seq<Record>, k: int, id: string)
    requires 0 <= k < |log|
  {
    Declares(log[k], id) && forall j :: k < j < |log| ==> !Withdraws(log[j], id)
  }

  /** What one record more does to what stands. */
  lemma {:induction false} StandsNext(log: seq<Record>, record: Record, id: string)
    ensures Stands(log + [record], id) <==> Declares(record, id) || (Stands(log, id) && !Withdraws(record, id))
  {
    var more := log + [record];
    if Declares(record, id) {
      assert IsLatest(more, |log|, id);
    } else if Withdraws(record, id) {
      assert Withdraws(more[|log|], id);
    } else {
      if k :| 0 <= k < |log| && IsLatest(log, k, id) { assert IsLatest(more, k, id); }
      if k :| 0 <= k < |more| && IsLatest(more, k, id) {
        assert forall j :: k < j < |log| ==> log[j] == more[j];
        assert IsLatest(log, k, id);
      }
    }
  }

  /** One record's effect on the correspondences, whatever else it changes. */
  lemma {:induction false} CorrespondenceStep(names: Names, r: Replay, record: Record, r': Replay, id: string)
    requires Step(names, r, record) == Accepted(r')
    ensures id in r'.correspondences <==> Declares(record, id) || (id in r.correspondences && !Withdraws(record, id))
    ensures Declares(record, id) ==> id !in r.correspondences
    ensures Withdraws(record, id) ==> id in r.correspondences
  {
  }

  /** After any accepted log the correspondences are those whose latest mention declares them. */
  lemma {:induction false} CorrespondencesStand(names: Names, log: seq<Record>, id: string)
    requires ReplayOf(names, log).Accepted?
    ensures id in ReplayOf(names, log).value.correspondences <==> Stands(log, id)
  {
    if |log| > 0 {
      var n := |log| - 1;
      CorrespondencesStand(names, log[..n], id);
      CorrespondenceStep(names, ReplayOf(names, log[..n]).value, log[n], ReplayOf(names, log).value, id);
      StandsNext(log[..n], log[n], id);
      assert log == log[..n] + [log[n]];
    }
  }

  lemma {:induction false} PrefixAccepted(names: Names, log: seq<Record>, n: nat)
    requires n <= |log| && ReplayOf(names, log).Accepted?
    ensures ReplayOf(names, log[..n]).Accepted?
    decreases |log|
  {
    if n == |log| {
      assert log[..n] == log;
    } else {
      assert log[..|log| - 1][..n] == log[..n];
      PrefixAccepted(names, log[..|log| - 1], n);
    }
  }

  /** In an accepted log a correspondence is declared only where it does not stand and withdrawn only
      where it does. */
  lemma {:induction false} DeclaredAndWithdrawnInTurn(names: Names, log: seq<Record>, n: nat, id: string)
    requires n < |log| && ReplayOf(names, log).Accepted?
    ensures Declares(log[n], id) ==> !Stands(log[..n], id)
    ensures Withdraws(log[n], id) ==> Stands(log[..n], id)
  {
    PrefixAccepted(names, log, n + 1);
    var taken := log[..n + 1];
    assert taken[..n] == log[..n] && taken[n] == log[n];
    PrefixAccepted(names, log, n);
    CorrespondencesStand(names, log[..n], id);
    CorrespondenceStep(names, ReplayOf(names, log[..n]).value, log[n], ReplayOf(names, taken).value, id);
  }
}
