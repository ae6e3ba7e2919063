/** Which registers are accepted, said of the log alone. */
module RegisterAcceptance {
  import opened Options
  import opened Register

  // --- what a log declares ------------------------------------------------------------------------

  predicate IsPageOf(record: Record, page: string) {
    record.PhysicalPage? && record.id == page
  }

  predicate IsActOf(record: Record, act: string, page: string) {
    record.PhysicalAct? && record.id == act && record.page == page
  }

  /** Some record declares the page. */
  predicate DeclaresPage(log: seq<Record>, page: string) {
    exists k :: 0 <= k < |log| && IsPageOf(log[k], page)
  }

  /** Some record declares the act, minted for the page. */
  predicate DeclaresAct(log: seq<Record>, act: string, page: string) {
    exists k :: 0 <= k < |log| && IsActOf(log[k], act, page)
  }

  /** No record of the log is filed under the record's identity. */
  predicate IsNew(names: Names, log: seq<Record>, record: Record) {
    forall k :: 0 <= k < |log| ==> IdentityOf(names, log[k]) != IdentityOf(names, record)
  }

  /** One string or more, none empty. */
  predicate NamesEvidence(evidence: seq<string>) {
    1 <= |evidence| <= 100_000 && "" !in evidence
  }

  /** The row names captures, ascending, and the newest surviving row of its page, whose members are
      among its own and fewer; with no such row, it names none and the page is declared. */
  predicate Extends(names: Names, log: seq<Record>, row: Row) {
    && row.page != "" && row.run != ""
    && 1 <= |row.members| <= 100_000 && (forall i, j :: 0 <= i < j < |row.members| ==> row.members[i] < row.members[j])
    && var rows := SurvivorsIn(names, log, row.page);
       if |rows| == 0 then row.predecessor == None && DeclaresPage(log, row.page)
       else row.predecessor == Some(names.digest(rows[|rows| - 1])) && GrowsFrom(rows[|rows| - 1].members, row.members)
  }

  predicate GrowsFrom(members: seq<nat>, more: seq<nat>) {
    (forall m :: m in members ==> m in more) && exists m :: m in more && m !in members
  }

  /** The page's newest surviving row has this digest. */
  predicate IsNewestOf(names: Names, log: seq<Record>, page: string, digest: string) {
    var rows := SurvivorsIn(names, log, page);
    |rows| > 0 && names.digest(rows[|rows| - 1]) == digest
  }

  /** What must hold of a record behind an accepted log, besides that its identity is new. */
  ghost predicate IsDue(names: Names, log: seq<Record>, record: Record) {
    match record
    case PhysicalPage(corpus, volume, designation, id, run) =>
      id == names.pageId(corpus, volume, designation) && run != ""
    case Membership(row) => Extends(names, log, row)
    case PhysicalAct(page, mint, id, evidence, run) =>
      id == names.actId(page, mint) && run != "" && NamesEvidence(evidence) && DeclaresPage(log, page)
    case Correspondence(local, actClass, actBounds, act, page, physicalAct, evidence, run) =>
      && run != "" && act == names.localActId(local, actClass, actBounds) && NamesEvidence(evidence)
      && DeclaresPage(log, page) && DeclaresAct(log, physicalAct, page)
      && !Stands(log, CorrespondenceId(act, physicalAct))
    case Retraction(retracts, reason, run) =>
      && retracts != "" && reason != "" && run != ""
      && if "membership:" <= retracts
         then exists page :: IsNewestOf(names, log, page, retracts[11..])
         else Stands(log, retracts)
  }

  // --- the replayed state against the log -----------------------------------------------------------

  /** An act is minted for one page. */
  ghost predicate MintedFor(r: Replay, act: string, page: string) {
    act in r.acts && act in r.actPages && r.actPages[act] == page
  }

  ghost predicate IsFiled(names: Names, log: seq<Record>, identity: string) {
    exists k :: 0 <= k < |log| && IdentityOf(names, log[k]) == identity
  }

  /** The replayed declarations are the log's own. */
  ghost predicate Declared(names: Names, r: Replay, log: seq<Record>) {
    && (forall identity :: identity in r.seen <==> IsFiled(names, log, identity))
    && (forall page :: page in r.pages <==> DeclaresPage(log, page))
    && (forall act, page :: MintedFor(r, act, page) <==> DeclaresAct(log, act, page))
    && (forall act :: act in r.acts ==> act in r.actPages && act in r.seen)
  }

  lemma PageNext(log: seq<Record>, record: Record, page: string)
    ensures DeclaresPage(log + [record], page) <==> DeclaresPage(log, page) || IsPageOf(record, page)
  {
    var more := log + [record];
    if DeclaresPage(log, page) {
      var k :| 0 <= k < |log| && IsPageOf(log[k], page);
      assert IsPageOf(more[k], page);
    }
    if IsPageOf(record, page) { assert IsPageOf(more[|log|], page); }
    if DeclaresPage(more, page) {
      var k :| 0 <= k < |more| && IsPageOf(more[k], page);
      if k < |log| { assert IsPageOf(log[k], page); }
    }
  }

  lemma ActNext(log: seq<Record>, record: Record, act: string, page: string)
    ensures DeclaresAct(log + [record], act, page) <==> DeclaresAct(log, act, page) || IsActOf(record, act, page)
  {
    var more := log + [record];
    if DeclaresAct(log, act, page) {
      var k :| 0 <= k < |log| && IsActOf(log[k], act, page);
      assert IsActOf(more[k], act, page);
    }
    if IsActOf(record, act, page) { assert IsActOf(more[|log|], act, page); }
    if DeclaresAct(more, act, page) {
      var k :| 0 <= k < |more| && IsActOf(more[k], act, page);
      if k < |log| { assert IsActOf(log[k], act, page); }
    }
  }

  lemma FiledNext(names: Names, log: seq<Record>, record: Record, identity: string)
    ensures IsFiled(names, log + [record], identity)
       <==> IsFiled(names, log, identity) || IdentityOf(names, record) == identity
  {
    var more := log + [record];
    if IsFiled(names, log, identity) {
      var k :| 0 <= k < |log| && IdentityOf(names, log[k]) == identity;
      assert IdentityOf(names, more[k]) == identity;
    }
    if IdentityOf(names, record) == identity { assert IdentityOf(names, more[|log|]) == identity; }
    if IsFiled(names, more, identity) {
      var k :| 0 <= k < |more| && IdentityOf(names, more[k]) == identity;
      if k < |log| { assert IdentityOf(names, log[k]) == identity; }
    }
  }

  /** What one record changes of the declarations. */
  lemma {:induction false} DeclarationStep(names: Names, r: Replay, record: Record, r': Replay)
    requires Step(names, r, record) == Accepted(r')
    requires forall act :: act in r.acts ==> act in r.actPages && act in r.seen
    ensures r'.seen == r.seen + {IdentityOf(names, record)}
    ensures forall page :: page in r'.pages <==> page in r.pages || IsPageOf(record, page)
    ensures forall act, page :: MintedFor(r', act, page) <==> MintedFor(r, act, page) || IsActOf(record, act, page)
    ensures forall act :: act in r'.acts ==> act in r'.actPages && act in r'.seen
  {
  }

  lemma {:induction false} DeclaredNext(names: Names, r: Replay, log: seq<Record>, record: Record, r': Replay)
    requires Declared(names, r, log) && Step(names, r, record) == Accepted(r')
    ensures Declared(names, r', log + [record])
  {
    DeclarationStep(names, r, record, r');
    forall identity
      ensures identity in r'.seen <==> IsFiled(names, log + [record], identity)
    {
      FiledNext(names, log, record, identity);
    }
    forall page
      ensures page in r'.pages <==> DeclaresPage(log + [record], page)
    {
      PageNext(log, record, page);
    }
    forall act, page
      ensures MintedFor(r', act, page) <==> DeclaresAct(log + [record], act, page)
    {
      ActNext(log, record, act, page);
    }
  }

  /** After any accepted log, what is filed and declared is what the log files and declares. */
  lemma {:induction false} ReplayDeclares(names: Names, log: seq<Record>)
    requires ReplayOf(names, log).Accepted?
    ensures Declared(names, ReplayOf(names, log).value, log)
  {
    if |log| > 0 {
      var n := |log| - 1;
      ReplayDeclares(names, log[..n]);
      DeclaredNext(names, ReplayOf(names, log[..n]).value, log[..n], log[n], ReplayOf(names, log).value);
      assert log == log[..n] + [log[n]];
    }
  }

  // --- accepted exactly when due ------------------------------------------------------------------------

  lemma EvidenceIs(evidence: seq<string>)
    ensures IsEvidence(evidence) <==> NamesEvidence(evidence)
  {
  }

  lemma MembersGrow(members: seq<nat>, more: seq<nat>)
    ensures MemberSet(members) < MemberSet(more) <==> GrowsFrom(members, more)
  {
    if GrowsFrom(members, more) {
      var m :| m in more && m !in members;
      assert m in MemberSet(more) && m !in MemberSet(members);
    }
    if MemberSet(members) < MemberSet(more) {
      var m :| m in MemberSet(more) && m !in MemberSet(members);
      forall m | m in members
        ensures m in more
      {
        assert m in MemberSet(members);
      }
    }
  }

  lemma SomeMember(members: seq<nat>)
    ensures MemberSet(members) == {} <==> |members| == 0
  {
    if |members| > 0 { assert members[0] in MemberSet(members); }
  }

  lemma {:induction false} MembershipDue(names: Names, r: Replay, log: seq<Record>, row: Row)
    requires Agrees(names, r, log) && Declared(names, r, log)
    ensures TakeMembership(names, r, row).Accepted? <==> Extends(names, log, row)
  {
    var rows := SurvivorsIn(names, log, row.page);
    assert PageAgrees(names, r, log, row.page);
    SomeMember(row.members);
    if |rows| > 0 { MembersGrow(rows[|rows| - 1].members, row.members); }
  }

  lemma {:induction false} HeadedDue(names: Names, r: Replay, log: seq<Record>, target: string)
    requires Agrees(names, r, log)
    ensures Headed(r, target) != {} <==> exists page :: IsNewestOf(names, log, page, target)
  {
    forall page
      ensures page in Headed(r, target) <==> IsNewestOf(names, log, page, target)
    {
      assert PageAgrees(names, r, log, page);
    }
    if exists page :: IsNewestOf(names, log, page, target) {
      var page :| IsNewestOf(names, log, page, target);
      assert page in Headed(r, target);
    }
    if Headed(r, target) != {} {
      var page := Some1(Headed(r, target));
      assert IsNewestOf(names, log, page, target);
    }
  }

  lemma {:induction false} ChangeDue(names: Names, r: Replay, log: seq<Record>, record: Record)
    requires Agrees(names, r, log) && Declared(names, r, log)
    requires forall id :: id in r.correspondences <==> Stands(log, id)
    ensures Change(names, r, record).Accepted? <==> IsDue(names, log, record)
  {
    match record
    case PhysicalPage(_, _, _, _, _) =>
    case Membership(row) => MembershipDue(names, r, log, row);
    case PhysicalAct(_, _, _, evidence, _) => EvidenceIs(evidence);
    case Correspondence(_, _, _, _, page, physicalAct, evidence, _) =>
      EvidenceIs(evidence);
      assert MintedFor(r, physicalAct, page) <==> DeclaresAct(log, physicalAct, page);
    case Retraction(retracts, _, _) =>
      if StartsWith(retracts, MEMBERSHIP) { HeadedDue(names, r, log, retracts[|MEMBERSHIP|..]); }
  }

  lemma ChangeSees(names: Names, r: Replay, record: Record)
    ensures Change(names, r, record).Accepted? ==> Change(names, r, record).value.seen == r.seen
  {
  }

  lemma NewIsUnseen(names: Names, r: Replay, log: seq<Record>, record: Record)
    requires Declared(names, r, log)
    ensures IdentityOf(names, record) !in r.seen <==> IsNew(names, log, record)
  {
  }

  /** One record more is accepted exactly when it is due and its identity is new. */
  lemma {:induction false} AcceptedIffDue(names: Names, log: seq<Record>, record: Record)
    requires ReplayOf(names, log).Accepted?
    ensures ReplayOf(names, log + [record]).Accepted? <==> IsDue(names, log, record) && IsNew(names, log, record)
  {
    var r := ReplayOf(names, log).value;
    assert (log + [record])[..|log|] == log;
    ReplayAgrees(names, log);
    ReplayDeclares(names, log);
    forall id
      ensures id in r.correspondences <==> Stands(log, id)
    {
      CorrespondencesStand(names, log, id);
    }
    ChangeDue(names, r, log, record);
    ChangeSees(names, r, record);
    NewIsUnseen(names, r, log, record);
  }

  /** Every record is due behind those before it, and no identity is filed twice. */
  ghost predicate AllDue(names: Names, log: seq<Record>) {
    forall k :: 0 <= k < |log| ==> IsDueAt(names, log, k)
  }

  ghost predicate IsDueAt(names: Names, log: seq<Record>, k: nat)
    requires k < |log|
  {
    IsDue(names, log[..k], log[k]) && IsNew(names, log[..k], log[k])
  }

  lemma DueUpTo(names: Names, log: seq<Record>, n: nat)
    requires n <= |log|
    ensures AllDue(names, log[..n]) <==> forall k :: 0 <= k < n ==> IsDueAt(names, log, k)
  {
    forall k | 0 <= k < n
      ensures IsDueAt(names, log[..n], k) <==> IsDueAt(names, log, k)
    {
      assert log[..n][..k] == log[..k];
    }
    if forall k :: 0 <= k < n ==> IsDueAt(names, log, k) {
      assert forall k :: 0 <= k < n ==> IsDueAt(names, log[..n], k);
    }
    if AllDue(names, log[..n]) {
      assert forall k :: 0 <= k < n ==> IsDueAt(names, log[..n], k);
    }
  }

  /** A log is accepted exactly when every record is due where it stands. */
  lemma {:induction false} RegisterIff(names: Names, log: seq<Record>)
    ensures ReplayOf(names, log).Accepted? <==> AllDue(names, log)
  {
    if |log| > 0 {
      var n := |log| - 1;
      RegisterIff(names, log[..n]);
      DueUpTo(names, log, n);
      assert log == log[..n] + [log[n]];
      assert AllDue(names, log) <==> AllDue(names, log[..n]) && IsDueAt(names, log, n);
      if ReplayOf(names, log[..n]).Accepted? { AcceptedIffDue(names, log[..n], log[n]); }
    }
  }

  // --- identities ------------------------------------------------------------------------------------------

  /** What stands behind the same, or before the same, tells two strings apart. */
  lemma SameEnds(x: string, a: string, b: string)
    ensures x + a == x + b <==> a == b
    ensures a + x == b + x <==> a == b
  {
    if x + a == x + b {
      assert (x + a)[|x|..] == a && (x + b)[|x|..] == b;
    }
    if a + x == b + x {
      assert |a| == |b| && (a + x)[..|a|] == a && (b + x)[..|b|] == b;
    }
  }

  /** Two links are one record exactly when they have one digest. */
  lemma LinksTell(names: Names, x: Row, y: Row)
    ensures IdentityOf(names, Membership(x)) == IdentityOf(names, Membership(y)) <==> names.digest(x) == names.digest(y)
  {
    SameEnds(MEMBERSHIP, names.digest(x), names.digest(y));
  }

  /** A correspondence is told by each of its two acts. */
  lemma CorrespondencesTell(act: string, other: string, physicalAct: string, otherPhysical: string)
    ensures CorrespondenceId(act, physicalAct) == CorrespondenceId(other, physicalAct) <==> act == other
    ensures CorrespondenceId(act, physicalAct) == CorrespondenceId(act, otherPhysical) <==> physicalAct == otherPhysical
  {
    SameEnds("->" + physicalAct, act, other);
    assert act + ("->" + physicalAct) == act + "->" + physicalAct;
    assert other + ("->" + physicalAct) == other + "->" + physicalAct;
    SameEnds(act + "->", physicalAct, otherPhysical);
  }

  /** Two declarations of one correspondence are one record exactly when one run made them, and two
      of one run exactly when they declare one correspondence. */
  lemma DeclarationsTell(names: Names, x: Record, y: Record)
    requires x.Correspondence? && y.Correspondence?
    ensures CorrespondenceId(x.act, x.physicalAct) == CorrespondenceId(y.act, y.physicalAct) ==>
              (IdentityOf(names, x) == IdentityOf(names, y) <==> x.run == y.run)
    ensures x.run == y.run ==>
              (IdentityOf(names, x) == IdentityOf(names, y)
               <==> CorrespondenceId(x.act, x.physicalAct) == CorrespondenceId(y.act, y.physicalAct))
  {
    var id, other := CorrespondenceId(x.act, x.physicalAct), CorrespondenceId(y.act, y.physicalAct);
    SameEnds(id + "@", x.run, y.run);
    SameEnds("@" + x.run, id, other);
    assert id + ("@" + x.run) == id + "@" + x.run && other + ("@" + x.run) == other + "@" + x.run;
  }

  /** Two retractions of one thing are one record exactly when one run made them. */
  lemma RetractionsTell(names: Names, retracts: string, reason: string, otherReason: string, run: string, other: string)
    ensures var x, y := Retraction(retracts, reason, run), Retraction(retracts, otherReason, other);
            IdentityOf(names, x) == IdentityOf(names, y) <==> run == other
  {
    SameEnds("retract:" + retracts + "@", run, other);
  }
}
