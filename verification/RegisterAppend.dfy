/** Writers appending to one register: read, lock, compare, replace, in any interleaving and
    with a crash allowed at any step. */
module RegisterAppend {
  import opened Options
  import opened Register
  import opened RegisterReading

  /** Where one writer stands. The value it holds was read under the lock. */
  datatype Writer =
    | Waiting(expected: string, records: seq<Record>)
    | Locked(expected: string, records: seq<Record>)
    | Holding(expected: string, records: seq<Record>, current: seq<Record>)
    | Checked(expected: string, records: seq<Record>, current: seq<Record>)
    | Replaced(expected: string, records: seq<Record>, published: nat)
    | Unsettled(expected: string, records: seq<Record>, published: nat)
    | Confirmed(expected: string, records: seq<Record>, current: seq<Record>)
    | Appended(expected: string, records: seq<Record>, published: nat)
    | Failed

  /** One replacement of the register: who made it, what it expected, found and added. */
  datatype Published = Published(writer: nat, expected: string, before: seq<Record>, records: seq<Record>)

  /** `file` is the register's value, empty while there is no file. */
  datatype State = State(
    file: seq<Record>,
    lock: Option<nat>,
    writers: map<nat, Writer>,
    history: seq<Published>)

  /** A writer past the lock and not yet out of it. */
  predicate Inside(writer: Writer) {
    writer.Locked? || writer.Holding? || writer.Checked? || writer.Replaced? || writer.Unsettled?
  }

  /** Everything published, in order. */
  function AllPublished(history: seq<Published>): seq<Record> {
    if |history| == 0 then [] else AllPublished(history[..|history| - 1]) + history[|history| - 1].records
  }

  datatype World = World(names: Names, digest: seq<Record> -> string) {

    ghost predicate Init(s: State) {
      s == State([], None, map[], [])
    }

    /** A caller asks for an append, or with no records for the head to be confirmed, under
        whatever digest it believes. */
    ghost predicate Ask(s: State, s': State, w: nat, expected: string, records: seq<Record>) {
      && w !in s.writers && |records| <= MAX_REGISTER_RECORDS
      && s' == s.(writers := s.writers[w := Waiting(expected, records)])
    }

    ghost predicate TakeLock(s: State, s': State, w: nat) {
      && w in s.writers && s.writers[w].Waiting? && s.lock == None
      && s' == s.(lock := Some(w), writers := s.writers[w := Locked(s.writers[w].expected, s.writers[w].records)])
    }

    ghost predicate ReadFile(s: State, s': State, w: nat) {
      && w in s.writers && s.writers[w].Locked?
      && s' == s.(writers := s.writers[w := Holding(s.writers[w].expected, s.writers[w].records, s.file)])
    }

    /** Compare, then validate the predecessor and the successor; release on any refusal. */
    ghost predicate Check(s: State, s': State, w: nat) {
      && w in s.writers && s.writers[w].Holding?
      && var h := s.writers[w];
         if !IsRegister(names, h.current) || digest(h.current) != h.expected then
           s' == s.(lock := None, writers := s.writers[w := Failed])
         else if h.records == [] then
           s' == s.(lock := None, writers := s.writers[w := Confirmed(h.expected, h.records, h.current)])
         else if !IsRegister(names, h.current + h.records) then
           s' == s.(lock := None, writers := s.writers[w := Failed])
         else s' == s.(writers := s.writers[w := Checked(h.expected, h.records, h.current)])
    }

    /** The atomic replacement: it happens whole, and the writer is told that it settled, or
        that its directory entry is not proven durable. */
    ghost predicate Replace(s: State, s': State, w: nat, settled: bool) {
      && w in s.writers && s.writers[w].Checked?
      && var c := s.writers[w];
         s' == s.(file := c.current + c.records,
                  history := s.history + [Published(w, c.expected, s.file, c.records)],
                  writers := s.writers[w := if settled then Replaced(c.expected, c.records, |s.history|)
                                           else Unsettled(c.expected, c.records, |s.history|)])
    }

    /** The replacement fails before it happens. */
    ghost predicate ReplaceFails(s: State, s': State, w: nat) {
      && w in s.writers && s.writers[w].Checked?
      && s' == s.(lock := None, writers := s.writers[w := Failed])
    }

    /** Leave the locked section: a settled append returns, an unsettled one raises. */
    ghost predicate Release(s: State, s': State, w: nat) {
      && w in s.writers && (s.writers[w].Replaced? || s.writers[w].Unsettled?)
      && s' == s.(lock := None,
                  writers := s.writers[w := if s.writers[w].Replaced? then Appended(s.writers[w].expected,
                               s.writers[w].records, s.writers[w].published)
                                           else Failed])
    }

    /** A crash at any point: the operating system releases the lock. */
    ghost predicate Crash(s: State, s': State, w: nat) {
      && w in s.writers && !s.writers[w].Appended? && !s.writers[w].Confirmed?
      && s' == s.(lock := if s.lock == Some(w) then None else s.lock, writers := s.writers[w := Failed])
    }

    ghost predicate Acts(s: State, s': State, w: nat) {
      || (exists expected, records :: Ask(s, s', w, expected, records))
      || TakeLock(s, s', w) || ReadFile(s, s', w) || Check(s, s', w)
      || (exists settled :: Replace(s, s', w, settled)) || ReplaceFails(s, s', w)
      || Release(s, s', w) || Crash(s, s', w)
    }

    ghost predicate Next(s: State, s': State) {
      exists w: nat :: Acts(s, s', w)
    }

    // --- what every step keeps --------------------------------------------------------------------

    /** Each replacement found exactly what the ones before it wrote, under the digest its
        writer expected. */
    ghost predicate IsHistory(history: seq<Published>) {
      forall k :: 0 <= k < |history| ==>
        history[k].before == AllPublished(history[..k]) && digest(history[k].before) == history[k].expected
    }

    ghost predicate WriterAgrees(s: State, w: nat, writer: Writer) {
      && (Inside(writer) <==> s.lock == Some(w))
      && (writer.Holding? || writer.Checked? ==> writer.current == s.file)
      && (writer.Checked? ==> digest(s.file) == writer.expected && IsRegister(names, s.file + writer.records))
      && (writer.Replaced? || writer.Unsettled? || writer.Appended? ==>
            writer.published < |s.history|
            && var p := s.history[writer.published];
               p.writer == w && p.expected == writer.expected && p.records == writer.records)
    }

    ghost predicate Invariant(s: State) {
      && IsRegister(names, s.file) && s.file == AllPublished(s.history) && IsHistory(s.history)
      && (forall w :: w in s.writers ==> WriterAgrees(s, w, s.writers[w]))
      && (s.lock.Some? ==> s.lock.value in s.writers)
    }
  }

  // --- one lemma per step ---------------------------------------------------------------------------

  lemma {:induction false} AskKeeps(world: World, s: State, s': State, w: nat, expected: string, records: seq<Record>)
    requires world.Invariant(s) && world.Ask(s, s', w, expected, records)
    ensures world.Invariant(s') && Extends(s, s')
  {
    forall v | v in s'.writers
      ensures world.WriterAgrees(s', v, s'.writers[v])
    {
      assert v != w ==> world.WriterAgrees(s, v, s.writers[v]);
    }
  }

  lemma {:induction false} LockKeeps(world: World, s: State, s': State, w: nat)
    requires world.Invariant(s) && world.TakeLock(s, s', w)
    ensures world.Invariant(s') && Extends(s, s')
  {
    assert world.WriterAgrees(s, w, s.writers[w]);
    forall v | v in s'.writers
      ensures world.WriterAgrees(s', v, s'.writers[v])
    {
      assert world.WriterAgrees(s, v, s.writers[v]);
    }
  }

  lemma {:induction false} ReadKeeps(world: World, s: State, s': State, w: nat)
    requires world.Invariant(s) && world.ReadFile(s, s', w)
    ensures world.Invariant(s') && Extends(s, s')
  {
    assert world.WriterAgrees(s, w, s.writers[w]);
    forall v | v in s'.writers
      ensures world.WriterAgrees(s', v, s'.writers[v])
    {
      assert world.WriterAgrees(s, v, s.writers[v]);
    }
  }

  lemma {:induction false} FailKeeps(world: World, s: State, s': State, w: nat)
    requires world.Invariant(s) && world.ReplaceFails(s, s', w)
    ensures world.Invariant(s') && Extends(s, s')
  {
    assert world.WriterAgrees(s, w, s.writers[w]);
    forall v | v in s'.writers
      ensures world.WriterAgrees(s', v, s'.writers[v])
    {
      assert world.WriterAgrees(s, v, s.writers[v]);
    }
  }

  lemma {:induction false} ReleaseKeeps(world: World, s: State, s': State, w: nat)
    requires world.Invariant(s) && world.Release(s, s', w)
    ensures world.Invariant(s') && Extends(s, s')
  {
    assert world.WriterAgrees(s, w, s.writers[w]);
    forall v | v in s'.writers
      ensures world.WriterAgrees(s', v, s'.writers[v])
    {
      assert world.WriterAgrees(s, v, s.writers[v]);
    }
  }

  lemma {:induction false} CrashKeeps(world: World, s: State, s': State, w: nat)
    requires world.Invariant(s) && world.Crash(s, s', w)
    ensures world.Invariant(s') && Extends(s, s')
  {
    assert world.WriterAgrees(s, w, s.writers[w]);
    forall v | v in s'.writers
      ensures world.WriterAgrees(s', v, s'.writers[v])
    {
      assert world.WriterAgrees(s, v, s.writers[v]);
    }
  }

  lemma {:induction false} CheckKeeps(world: World, s: State, s': State, w: nat)
    requires world.Invariant(s) && world.Check(s, s', w)
    ensures world.Invariant(s') && Extends(s, s')
  {
    assert world.WriterAgrees(s, w, s.writers[w]);
    forall v | v in s'.writers
      ensures world.WriterAgrees(s', v, s'.writers[v])
    {
      assert world.WriterAgrees(s, v, s.writers[v]);
    }
  }

  /** The publications before each, with one more behind them all. */
  lemma OneMorePublished(history: seq<Published>, last: Published)
    ensures var more := history + [last];
            && more[..|history|] == history && more[|history|] == last
            && forall k :: 0 <= k < |history| ==> more[k] == history[k] && more[..k] == history[..k]
  {
  }

  /** Replacing the register adds one entry to the history and its records to the file. */
  lemma {:induction false} ReplaceKeeps(world: World, s: State, s': State, w: nat, settled: bool)
    requires world.Invariant(s) && world.Replace(s, s', w, settled)
    ensures world.Invariant(s') && Extends(s, s')
  {
    assert world.WriterAgrees(s, w, s.writers[w]);
    OneMorePublished(s.history, s'.history[|s.history|]);
    forall v | v in s'.writers
      ensures world.WriterAgrees(s', v, s'.writers[v])
    {
      assert world.WriterAgrees(s, v, s.writers[v]);
    }
  }

  /** Every step keeps the invariant and only ever extends the register and its history. */
  lemma {:induction false} StepKeeps(world: World, s: State, s': State)
    requires world.Invariant(s) && world.Next(s, s')
    ensures world.Invariant(s') && Extends(s, s')
  {
    var w: nat :| world.Acts(s, s', w);
    if expected, records :| world.Ask(s, s', w, expected, records) {
      AskKeeps(world, s, s', w, expected, records);
    } else if world.Check(s, s', w) {
      CheckKeeps(world, s, s', w);
    } else if settled :| world.Replace(s, s', w, settled) {
      ReplaceKeeps(world, s, s', w, settled);
    } else if world.TakeLock(s, s', w) {
      LockKeeps(world, s, s', w);
    } else if world.ReadFile(s, s', w) {
      ReadKeeps(world, s, s', w);
    } else if world.ReplaceFails(s, s', w) {
      FailKeeps(world, s, s', w);
    } else if world.Release(s, s', w) {
      ReleaseKeeps(world, s, s', w);
    } else {
      CrashKeeps(world, s, s', w);
    }
  }

  // --- whole runs -----------------------------------------------------------------------------------

  /** A writer that has not failed still wants what it asked for. */
  predicate SameRequest(writer: Writer, writer': Writer) {
    writer'.Failed? || (!writer.Failed? && writer'.expected == writer.expected && writer'.records == writer.records)
  }

  /** The register and its history keep what they had; every writer keeps its request. */
  predicate Extends(s: State, s': State) {
    && s.file <= s'.file && s.history <= s'.history
    && forall w :: w in s.writers ==> w in s'.writers && SameRequest(s.writers[w], s'.writers[w])
  }

  ghost predicate IsRun(world: World, run: seq<State>) {
    |run| > 0 && world.Init(run[0]) && forall i :: 0 <= i < |run| - 1 ==> world.Next(run[i], run[i + 1])
  }

  /** The register is valid at every moment of every run. */
  lemma {:induction false} AlwaysARegister(world: World, run: seq<State>, i: nat)
    requires IsRun(world, run) && i < |run|
    ensures world.Invariant(run[i])
  {
    if i == 0 {
      assert world.Invariant(run[0]);
    } else {
      AlwaysARegister(world, run, i - 1);
      assert world.Next(run[i - 1], run[i - 1 + 1]);
      StepKeeps(world, run[i - 1], run[i]);
    }
  }

  /** A later value of the register starts with every earlier one. */
  lemma {:induction false} RegisterOnlyGrows(world: World, run: seq<State>, i: nat, j: nat)
    requires IsRun(world, run) && i <= j < |run|
    ensures Extends(run[i], run[j])
    decreases j
  {
    if i < j {
      RegisterOnlyGrows(world, run, i, j - 1);
      AlwaysARegister(world, run, j - 1);
      assert world.Next(run[j - 1], run[j - 1 + 1]);
      StepKeeps(world, run[j - 1], run[j]);
    }
  }

  /** The register up to and including publication `k`. */
  lemma {:induction false} PublishedIn(history: seq<Published>, k: nat)
    requires k < |history|
    ensures AllPublished(history[..k]) + history[k].records <= AllPublished(history)
    decreases |history|
  {
    var n := |history| - 1;
    if k == n {
      assert history[..k + 1][..k] == history[..k];
    } else {
      PublishedIn(history[..n], k);
      assert history[..n][..k] == history[..k];
      assert AllPublished(history[..n]) <= AllPublished(history);
    }
  }

  /** An append reported done is never lost, moved or split: at every later moment its records
      stand in the register straight after the value its caller expected. */
  lemma {:induction false} NoAppendIsLost(world: World, run: seq<State>, i: nat, j: nat, w: nat)
    requires IsRun(world, run) && i <= j < |run|
    requires w in run[i].writers && run[i].writers[w].Appended?
    ensures var k := run[i].writers[w].published;
            && k < |run[j].history| && run[j].history[k].writer == w
            && world.digest(run[j].history[k].before) == run[i].writers[w].expected
            && run[j].history[k].before + run[i].writers[w].records <= run[j].file
  {
    AlwaysARegister(world, run, i);
    AlwaysARegister(world, run, j);
    RegisterOnlyGrows(world, run, i, j);
    assert world.WriterAgrees(run[i], w, run[i].writers[w]);
    PublishedIn(run[j].history, run[i].writers[w].published);
  }

  /** Two publications keep the order they were made in. */
  lemma {:induction false} PublicationsKeepOrder(world: World, run: seq<State>, i: nat, k: nat, l: nat)
    requires IsRun(world, run) && i < |run| && k < l < |run[i].history|
    ensures run[i].history[k].before + run[i].history[k].records <= run[i].history[l].before
  {
    AlwaysARegister(world, run, i);
    var earlier := run[i].history[..l];
    PublishedIn(earlier, k);
    assert earlier[..k] == run[i].history[..k];
  }

  /** A writer that acts changes the register only when the digest it expects is the register's own,
      and then by its own records. */
  lemma {:induction false} OnlyACurrentWriterChangesIt(world: World, s: State, s': State, w: nat)
    requires world.Invariant(s) && world.Acts(s, s', w) && s'.file != s.file
    ensures w in s.writers && s.writers[w].Checked?
    ensures s.writers[w].expected == world.digest(s.file) && s'.file == s.file + s.writers[w].records
  {
    assert exists settled :: world.Replace(s, s', w, settled);
    assert world.WriterAgrees(s, w, s.writers[w]);
  }

  /** A writer with a stale digest never changes the register, whatever step it takes. */
  lemma {:induction false} AStaleWriterChangesNothing(world: World, s: State, s': State, w: nat)
    requires world.Invariant(s) && world.Acts(s, s', w) && w in s.writers && !s.writers[w].Failed?
    requires s.writers[w].expected != world.digest(s.file)
    ensures s'.file == s.file && s'.history == s.history
  {
    assert world.WriterAgrees(s, w, s.writers[w]);
  }

  /** With digests that tell registers apart, an append stands directly after the very value
      its caller read. */
  lemma {:induction false} AppendFollowsWhatWasRead(world: World, run: seq<State>, i: nat, k: nat, seen: seq<Record>)
    requires IsRun(world, run) && i < |run| && k < |run[i].history|
    requires forall a, b :: world.digest(a) == world.digest(b) ==> a == b
    requires run[i].history[k].expected == world.digest(seen)
    ensures seen == run[i].history[k].before == AllPublished(run[i].history[..k])
    ensures seen + run[i].history[k].records <= run[i].file
  {
    AlwaysARegister(world, run, i);
    PublishedIn(run[i].history, k);
  }

  /** Of two appends expecting the same value at most one is published, unless it added nothing. */
  lemma {:induction false} OneOfTwoIsPublished(world: World, run: seq<State>, i: nat, k: nat, l: nat)
    requires IsRun(world, run) && i < |run| && k < l < |run[i].history|
    requires forall a, b :: world.digest(a) == world.digest(b) ==> a == b
    requires run[i].history[k].records != []
    ensures run[i].history[k].expected != run[i].history[l].expected
  {
    AlwaysARegister(world, run, i);
    PublicationsKeepOrder(world, run, i, k, l);
  }

  /** At most one writer is in the locked section. */
  lemma {:induction false} OneWriterInside(world: World, run: seq<State>, i: nat, v: nat, w: nat)
    requires IsRun(world, run) && i < |run| && v in run[i].writers && w in run[i].writers
    requires Inside(run[i].writers[v]) && Inside(run[i].writers[w])
    ensures v == w
  {
    AlwaysARegister(world, run, i);
    assert world.WriterAgrees(run[i], v, run[i].writers[v]) && world.WriterAgrees(run[i], w, run[i].writers[w]);
  }

  /** A head is confirmed only at a moment when the register has the digest asked about. */
  lemma {:induction false} ConfirmedIsCurrent(world: World, s: State, s': State, w: nat)
    requires world.Invariant(s) && world.Check(s, s', w) && s'.writers[w].Confirmed?
    ensures s'.file == s.file && world.digest(s.file) == s.writers[w].expected && s'.writers[w].current == s.file
  {
    assert world.WriterAgrees(s, w, s.writers[w]);
  }

  // --- what a check lets through ----------------------------------------------------------------------

  /** The check lets a writer on exactly when the register still has the digest it expects and takes
      its records, confirms one that brought none exactly under that digest, and fails every other;
      it leaves the register, its history and the other writers alone. */
  lemma {:induction false} CheckDecides(world: World, s: State, s': State, w: nat)
    requires world.Invariant(s) && world.Check(s, s', w)
    ensures var asked, found := s.writers[w], world.digest(s.file) == s.writers[w].expected;
            var takes := asked.records != [] && IsRegister(world.names, s.file + asked.records);
            && (s'.writers[w] == Checked(asked.expected, asked.records, s.file) <==> found && takes)
            && (s'.writers[w] == Confirmed(asked.expected, asked.records, s.file) <==> found && asked.records == [])
            && (s'.writers[w] == Failed <==> !found || (asked.records != [] && !takes))
            && (s'.lock == Some(w) <==> found && takes) && (s'.lock == None <==> !(found && takes))
    ensures s'.file == s.file && s'.history == s.history
    ensures s'.writers.Keys == s.writers.Keys && forall v :: v in s.writers && v != w ==> s'.writers[v] == s.writers[v]
  {
    assert world.WriterAgrees(s, w, s.writers[w]);
  }

  /** A writer that waits under the register's own digest, with records it takes, has a way to the end
      of its append while the lock is free: it locks, reads, passes the check, replaces and leaves, and
      then its records stand behind the register it found. */
  lemma {:induction false} ACurrentWriterCanPublish(world: World, s: State, w: nat) returns (run: seq<State>)
    requires world.Invariant(s) && s.lock == None && w in s.writers && s.writers[w].Waiting?
    requires s.writers[w].expected == world.digest(s.file) && s.writers[w].records != []
    requires IsRegister(world.names, s.file + s.writers[w].records)
    ensures |run| == 6 && run[0] == s && forall i :: 0 <= i < 5 ==> world.Acts(run[i], run[i + 1], w)
    ensures run[5].file == s.file + s.writers[w].records && run[5].lock == None
    ensures run[5].history == s.history + [Published(w, s.writers[w].expected, s.file, s.writers[w].records)]
    ensures run[5].writers == s.writers[w := Appended(s.writers[w].expected, s.writers[w].records, |s.history|)]
  {
    var e, rs, k := s.writers[w].expected, s.writers[w].records, |s.history|;
    var s1 := s.(lock := Some(w), writers := s.writers[w := Locked(e, rs)]);
    var s2 := s1.(writers := s1.writers[w := Holding(e, rs, s.file)]);
    var s3 := s2.(writers := s2.writers[w := Checked(e, rs, s.file)]);
    var s4 := s3.(file := s.file + rs, history := s.history + [Published(w, e, s.file, rs)],
                  writers := s3.writers[w := Replaced(e, rs, k)]);
    var s5 := s4.(lock := None, writers := s4.writers[w := Appended(e, rs, k)]);
    run := [s, s1, s2, s3, s4, s5];
    assert world.TakeLock(s, s1, w) && world.ReadFile(s1, s2, w) && world.Check(s2, s3, w);
    assert world.Replace(s3, s4, w, true) && world.Release(s4, s5, w);
  }

  /** And with no records, to its head being confirmed. */
  lemma {:induction false} ACurrentHeadCanBeConfirmed(world: World, s: State, w: nat) returns (run: seq<State>)
    requires world.Invariant(s) && s.lock == None && w in s.writers && s.writers[w].Waiting?
    requires s.writers[w].expected == world.digest(s.file) && s.writers[w].records == []
    ensures |run| == 4 && run[0] == s && forall i :: 0 <= i < 3 ==> world.Acts(run[i], run[i + 1], w)
    ensures run[3] == s.(writers := s.writers[w := Confirmed(s.writers[w].expected, [], s.file)])
  {
    var e := s.writers[w].expected;
    var s1 := s.(lock := Some(w), writers := s.writers[w := Locked(e, [])]);
    var s2 := s1.(writers := s1.writers[w := Holding(e, [], s.file)]);
    var s3 := s2.(lock := None, writers := s2.writers[w := Confirmed(e, [], s.file)]);
    run := [s, s1, s2, s3];
    assert world.TakeLock(s, s1, w) && world.ReadFile(s1, s2, w) && world.Check(s2, s3, w);
    assert s3.writers == s.writers[w := Confirmed(e, [], s.file)];
  }
}
