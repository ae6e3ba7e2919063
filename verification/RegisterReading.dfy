/** Replay as the source runs it, and what its readers are told. */
module RegisterReading {
  import opened Options
  import opened Register
  import opened RegisterAcceptance
  import Sorting

  class Reading {
    var seen: set<string>
    var physicalPages: set<string>
    var physicalActs: set<string>
    var physicalActPages: map<string, string>
    var correspondenceRecords: set<string>
    var membershipHead: map<string, Link>
    var membershipChain: map<string, seq<Link>>
    var membershipLinks: set<string>
    var retractedMembershipLinks: set<string>

    ghost function Value(): Replay
      reads this
    {
      Replay(seen, physicalPages, physicalActs, physicalActPages, correspondenceRecords, membershipHead,
        membershipChain,
             membershipLinks, retractedMembershipLinks)
    }

    constructor ()
      ensures Value() == EMPTY
    {
      seen, physicalPages, physicalActs, physicalActPages := {}, {}, {}, map[];
      correspondenceRecords, membershipHead, membershipChain := {}, map[], map[];
      membershipLinks, retractedMembershipLinks := {}, {};
    }

    /** One link of one page's chain. */
    method ValidateMembership(names: Names, row: Row) returns (why: Option<Refusal>)
      modifies this
      ensures match TakeMembership(names, old(Value()), row)
              case Refused(reason) => why == Some(reason)
              case Accepted(after) => why == None && Value() == after
    {
      if row.page == "" { return Some(EmptyField); }
      if row.run == "" { return Some(NoRun); }
      if !IsSortedUnique(row.members) { return Some(UnsortedMembers); }
      var members := MemberSet(row.members);
      if members == {} { return Some(NoMembers); }
      if row.page !in membershipHead {
        if row.page !in physicalPages { return Some(NotDeclared); }
        if row.predecessor != None { return Some(WrongPredecessor); }
      } else {
        var prior := membershipHead[row.page];
        if row.predecessor != Some(prior.digest) { return Some(WrongPredecessor); }
        if !(prior.members < members) { return Some(DoesNotGrow); }
      }
      var link := Link(names.digest(row), members);
      membershipHead := membershipHead[row.page := link];
      var chain := if row.page in membershipChain then membershipChain[row.page] else [];
      membershipChain := membershipChain[row.page := chain + [link]];
      membershipLinks := membershipLinks + {link.digest};
      why := None;
    }

    /** The page whose current head has this digest, if there is one. */
    method FindHead(target: string) returns (page: Option<string>)
      ensures page == None ==> Headed(Value(), target) == {}
      ensures page.Some? ==> page.value in Headed(Value(), target)
    {
      var rest := membershipHead.Keys;
      page := None;
      while rest != {}
        invariant rest <= membershipHead.Keys
        invariant forall p :: p in Headed(Value(), target) ==> p in rest
        decreases rest
      {
        var name :| name in rest;
        if membershipHead[name].digest == target && name in membershipChain && |membershipChain[name]| > 0 {
          return Some(name);
        }
        rest := rest - {name};
      }
    }

    /** Withdraw the newest link of one page's chain. */
    method RetractMembership(target: string) returns (why: Option<Refusal>)
      requires forall p, q :: p in Headed(Value(), target) && q in Headed(Value(), target) ==> p == q
      modifies this
      ensures Headed(old(Value()), target) == {} ==>
                why == Some(if target in old(retractedMembershipLinks) then AlreadyRetracted
                            else if target in old(membershipLinks) then NotTheHead else NeverDeclared)
      ensures Headed(old(Value()), target) != {} ==>
                why == None && Value() == TakeRetraction(old(Value()), Some1(Headed(old(Value()), target)), target)
    {
      var found := FindHead(target);
      if found == None {
        if target in retractedMembershipLinks { return Some(AlreadyRetracted); }
        if target in membershipLinks { return Some(NotTheHead); }
        return Some(NeverDeclared);
      }
      var page := found.value;
      var chain := membershipChain[page];
      chain := chain[..|chain| - 1];
      membershipChain := membershipChain[page := chain];
      retractedMembershipLinks := retractedMembershipLinks + {target};
      if |chain| > 0 {
        membershipHead := membershipHead[page := chain[|chain| - 1]];
      } else {
        membershipHead := membershipHead - {page};
      }
      why := None;
    }

    method ValidateAct(names: Names, record: Record) returns (why: Option<Refusal>)
      requires record.PhysicalAct? || record.PhysicalPage? || record.Correspondence?
      modifies this
      ensures match Change(names, old(Value()), record)
              case Refused(reason) => why == Some(reason)
              case Accepted(after) => why == None && Value() == after
    {
      match record {
      case PhysicalPage(corpus, volume, designation, id, run) =>
        if id != names.pageId(corpus, volume, designation) { return Some(DoesNotBind); }
        if run == "" { return Some(NoRun); }
        physicalPages := physicalPages + {id};
      case PhysicalAct(page, mint, id, evidence, run) =>
        if id != names.actId(page, mint) || run == "" { return Some(DoesNotBind); }
        if !IsEvidence(evidence) { return Some(NoEvidence); }
        if page !in physicalPages { return Some(NotDeclared); }
        physicalActs, physicalActPages := physicalActs + {id}, physicalActPages[id := page];
      case Correspondence(local, actClass, actBounds, act, page, physicalAct, evidence, run) =>
        if run == "" { return Some(NoRun); }
        if act != names.localActId(local, actClass, actBounds) { return Some(DoesNotBind); }
        if !IsEvidence(evidence) { return Some(NoEvidence); }
        if page !in physicalPages || physicalAct !in physicalActs
           || physicalAct !in physicalActPages { return Some(NotDeclared); }
        if physicalActPages[physicalAct] != page { return Some(WrongPage); }
        if CorrespondenceId(act, physicalAct) in correspondenceRecords { return Some(AlreadyDeclared); }
        correspondenceRecords := correspondenceRecords + {CorrespondenceId(act, physicalAct)};
      }
      why := None;
    }

    /** Check one record against what replay has established, and take it. */
    method ValidateRecord(names: Names, record: Record, ghost log: seq<Record>) returns (why: Option<Refusal>)
      requires ReplayOf(names, log) == Accepted(Value())
      modifies this
      ensures why == None <==> IsDue(names, log, record) && IsNew(names, log, record)
      ensures match Step(names, old(Value()), record)
              case Refused(reason) => why == Some(reason)
              case Accepted(after) => why == None && Value() == after
    {
      ReplayAgrees(names, log);
      AcceptedIffDue(names, log, record);
      ReplayAppend(names, log, record);
      match record {
      case Membership(row) => why := ValidateMembership(names, row);
      case Retraction(retracts, reason, run) =>
        if retracts == "" || reason == "" || run == "" { return Some(EmptyField); }
        if StartsWith(retracts, MEMBERSHIP) {
          var target := retracts[|MEMBERSHIP|..];
          forall p, q | p in Headed(Value(), target) && q in Headed(Value(), target)
            ensures p == q
          {
            HeadIsUnique(names, Value(), log, target, p, q);
          }
          why := RetractMembership(target);
        } else if retracts !in correspondenceRecords {
          why := Some(NeverDeclared);
        } else {
          correspondenceRecords := correspondenceRecords - {retracts};
          why := None;
        }
      case _ => why := ValidateAct(names, record);
      }
      if why != None { return; }
      var identity := IdentityOf(names, record);
      if identity in seen { return Some(Repeated); }
      seen := seen + {identity};
    }
  }

  /** Whether a register is accepted, bound included. */
  ghost predicate IsRegister(names: Names, log: seq<Record>) {
    |log| <= MAX_REGISTER_RECORDS && ReplayOf(names, log).Accepted?
  }

  lemma {:induction false} RefusedStays(names: Names, log: seq<Record>, n: nat)
    requires n <= |log| && ReplayOf(names, log[..n]).Refused?
    ensures ReplayOf(names, log).Refused?
    decreases |log| - n
  {
    if n == |log| {
      assert log[..n] == log;
    } else {
      assert log[..n + 1][..n] == log[..n];
      RefusedStays(names, log, n + 1);
    }
  }

  /** Validate a register's records and everything replaying them establishes. */
  method Read(names: Names, log: seq<Record>) returns (reading: Reading, why: Option<Refusal>)
    ensures fresh(reading)
    ensures why == None <==> |log| <= 100_000 && AllDue(names, log)
    ensures why == None <==> IsRegister(names, log)
    ensures why == None ==>
          && ReplayOf(names, log) == Accepted(reading.Value())
          && Agrees(names, reading.Value(), log) && Declared(names, reading.Value(), log)
          && forall id :: id in reading.correspondenceRecords <==> Stands(log, id)
  {
    reading := new Reading();
    RegisterIff(names, log);
    if |log| > MAX_REGISTER_RECORDS { return reading, Some(TooManyRecords); }
    for i := 0 to |log|
      invariant fresh(reading) && ReplayOf(names, log[..i]) == Accepted(reading.Value())
    {
      assert log[..i + 1][..i] == log[..i];
      why := reading.ValidateRecord(names, log[i], log[..i]);
      if why != None {
        RefusedStays(names, log, i + 1);
        return;
      }
    }
    assert log[..|log|] == log;
    ReplayAgrees(names, log);
    ReplayDeclares(names, log);
    forall id
      ensures id in reading.correspondenceRecords <==> Stands(log, id)
    {
      CorrespondencesStand(names, log, id);
    }
    why := None;
  }

  /** The captures declared to show a page: its newest surviving row's, or none. */
  ghost function CurrentMembers(names: Names, log: seq<Record>, page: string): set<nat> {
    var rows := SurvivorsIn(names, log, page);
    if |rows| == 0 then {} else MemberSet(rows[|rows| - 1].members)
  }

  /** The captures currently declared to show one page, sorted. */
  method MembersOf(names: Names, log: seq<Record>, page: string) returns (members: seq<int>, why: Option<Refusal>)
    ensures why == None <==> IsRegister(names, log)
    ensures why == None ==>
          Sorting.Ascending(members)
          && forall m: nat :: m in members <==> m in CurrentMembers(names, log, page)
    ensures why == None ==> forall m :: m in members ==> m >= 0
  {
    var reading;
    reading, why := Read(names, log);
    members := [];
    if why != None { return; }
    assert PageAgrees(names, reading.Value(), log, page);
    if page !in reading.membershipHead { return; }
    members := Sorting.SortedSet(reading.membershipHead[page].members);
  }

  /** Retracting a page's head withdraws that page's newest row. */
  lemma {:induction false} RetractionStep(
      names: Names, r: Replay, log: seq<Record>, page: string, reason: string, run: string, r': Replay)
    requires Agrees(names, r, log) && |SurvivorsIn(names, log, page)| > 0
    requires var rows := SurvivorsIn(names, log, page);
             Step(names, r, Retraction(MEMBERSHIP + names.digest(rows[|rows| - 1]), reason, run)) == Accepted(r')
    ensures var rows := SurvivorsIn(names, log, page);
            r' == TakeRetraction(r, page, names.digest(rows[|rows| - 1])).(seen := r'.seen)
  {
    assert PageAgrees(names, r, log, page);
    var rows := SurvivorsIn(names, log, page);
    var d := names.digest(rows[|rows| - 1]);
    assert (MEMBERSHIP + d)[|MEMBERSHIP|..] == d;
    assert page in Headed(r, d);
    HeadIsUnique(names, r, log, d, page, Some1(Headed(r, d)));
  }

  /** A withdrawn row can be taken again under another run. */
  lemma {:induction false} TakenAgain(names: Names, r: Replay, log: seq<Record>, page: string, again: Row, r1: Replay)
    requires Agrees(names, r, log) && |SurvivorsIn(names, log, page)| > 0 && again.run != ""
    requires var rows := SurvivorsIn(names, log, page);
             && again == rows[|rows| - 1].(run := again.run) && again.page == page
             && r1 == TakeRetraction(r, page, names.digest(rows[|rows| - 1])).(seen := r1.seen)
    requires MEMBERSHIP + names.digest(again) !in r1.seen
    ensures var step := Step(names, r1, Membership(again));
            step.Accepted? && page in step.value.head && step.value.head[page] == LinkOf(names, again)
  {
    assert PageAgrees(names, r, log, page);
    var rows := SurvivorsIn(names, log, page);
    assert IsLinkAt(names, rows, |rows| - 1);
    assert ChainOf(r, page) == Links(names, rows);
  }

  /** The replayed head holds the current members. */
  lemma {:induction false} HeadIsCurrent(names: Names, log: seq<Record>, page: string)
    requires ReplayOf(names, log).Accepted? && page in ReplayOf(names, log).value.head
    ensures CurrentMembers(names, log, page) == ReplayOf(names, log).value.head[page].members
  {
    ReplayAgrees(names, log);
    assert PageAgrees(names, ReplayOf(names, log).value, log, page);
  }

  lemma ReplayAppend(names: Names, log: seq<Record>, record: Record)
    requires ReplayOf(names, log).Accepted?
    ensures ReplayOf(names, log + [record]) == Step(names, ReplayOf(names, log).value, record)
  {
    assert (log + [record])[..|log|] == log;
  }

  /** A withdrawn head can be declared again by another run: the page then shows what it showed. */
  lemma {:induction false} WithdrawnLinkCanBeReasserted(
      names: Names, log: seq<Record>, page: string, retraction: Record, again: Row)
    requires ReplayOf(names, log).Accepted? && |SurvivorsIn(names, log, page)| > 0
    requires var rows := SurvivorsIn(names, log, page);
             && again == rows[|rows| - 1].(run := again.run) && again.page == page && again.run != ""
             && retraction.Retraction? && retraction.retracts == MEMBERSHIP + names.digest(rows[|rows| - 1])
    requires ReplayOf(names, log + [retraction]).Accepted?
    requires MEMBERSHIP + names.digest(again) !in ReplayOf(names, log + [retraction]).value.seen
    ensures ReplayOf(names, log + [retraction] + [Membership(again)]).Accepted?
    ensures CurrentMembers(names, log + [retraction] + [Membership(again)], page) == CurrentMembers(names, log, page)
  {
    var r, r1 := ReplayOf(names, log).value, ReplayOf(names, log + [retraction]).value;
    ReplayAgrees(names, log);
    ReplayAppend(names, log, retraction);
    RetractionStep(names, r, log, page, retraction.reason, retraction.run, r1);
    TakenAgain(names, r, log, page, again, r1);
    ReplayAppend(names, log + [retraction], Membership(again));
    HeadIsCurrent(names, log + [retraction] + [Membership(again)], page);
  }
}
