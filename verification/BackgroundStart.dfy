/** A chair started on its own thread, and who has to stop it. Sections under the object's lock
    are single steps. */
module BackgroundStart {
  import opened Options

  /** The start thread: starting, returned but not yet known to have, about to stop the chair,
      over. */
  datatype Thread = Starting | Returning | Stopping | Over

  /** The main thread: between calls, or inside `note_failure` with what it read. */
  datatype Main = Idle | Noting(seen: Option<string>)

  /** `error`, `finished` and `abandoned` are the object's fields. The rest is history: what the
      start came to, what `abandon` answered, the failures surfaced, and the calls to stop. */
  datatype State = State(
    error: Option<string>,
    finished: bool,
    abandoned: bool,
    thread: Thread,
    main: Main,
    came: Option<string>,
    answers: seq<bool>,
    surfaced: seq<string>,
    stops: nat)

  const START := State(None, false, false, Starting, Idle, None, [], [], 0)

  /** The start returns, or raises and its error is kept. */
  predicate StartReturns(s: State, s': State, failure: Option<string>) {
    s.thread == Starting && s' == s.(thread := Returning, error := failure, came := failure)
  }

  /** Under the lock: finished from here on, and was the chair abandoned before? */
  predicate Publish(s: State, s': State) {
    s.thread == Returning && s' == s.(finished := true, thread := if s.abandoned then Stopping else Over)
  }

  predicate StopChair(s: State, s': State) {
    s.thread == Stopping && s' == s.(stops := s.stops + 1, thread := Over)
  }

  /** Under the lock: hand the chair over unless the start has returned. */
  predicate Abandon(s: State, s': State) {
    && s.main == Idle
    && s' == s.(abandoned := s.abandoned || !s.finished, answers := s.answers + [!s.finished])
  }

  function Surface(surfaced: seq<string>, error: Option<string>): seq<string> {
    if error.Some? then surfaced + [error.value] else surfaced
  }

  /** Wait for the thread, then raise its failure. */
  predicate Join(s: State, s': State) {
    && s.main == Idle && s.thread == Over
    && s' == s.(error := None, surfaced := Surface(s.surfaced, s.error))
  }

  /** Under the lock: read the failure of a start that has finished. */
  predicate ReadFailure(s: State, s': State) {
    s.main == Idle && s' == s.(main := Noting(if s.finished then s.error else None))
  }

  predicate AttachFailure(s: State, s': State) {
    && s.main.Noting?
    && s' == if s.main.seen.Some? then s.(main := Idle, error := None, surfaced := Surface(s.surfaced, s.main.seen))
             else s.(main := Idle)
  }

  ghost predicate Next(s: State, s': State) {
    || (exists failure :: StartReturns(s, s', failure)) || Publish(s, s') || StopChair(s, s')
    || Abandon(s, s') || Join(s, s') || ReadFailure(s, s') || AttachFailure(s, s')
  }

  ghost predicate IsRun(run: seq<State>) {
    |run| > 0 && run[0] == START && forall i :: 0 <= i < |run| - 1 ==> Next(run[i], run[i + 1])
  }

  // --- what every step keeps ------------------------------------------------------------------------

  /** Answers turn from handed over to kept once, when the start has finished. */
  predicate AnswersTurnOnce(answers: seq<bool>) {
    forall i, j :: 0 <= i < j < |answers| ==> (answers[j] ==> answers[i])
  }

  /** A failure is kept until it is surfaced, and then kept no longer. */
  predicate Accounted(s: State) {
    && (s.thread == Starting ==> s.came == None && s.error == None)
    && (s.came == None ==> s.error == None && s.surfaced == [])
    && (s.came.Some? ==> (s.error == s.came && s.surfaced == []) || (s.error == None && s.surfaced == [s.came.value]))
    && (s.main.Noting? && s.main.seen.Some? ==> s.finished && s.main.seen == s.error)
  }

  predicate Invariant(s: State) {
    && (s.finished <==> s.thread == Stopping || s.thread == Over)
    && (s.abandoned <==> true in s.answers)
    && (!s.finished ==> false !in s.answers)
    && AnswersTurnOnce(s.answers)
    && (s.thread == Stopping ==> s.abandoned)
    && s.stops == (if s.abandoned && s.thread == Over then 1 else 0)
    && Accounted(s)
  }

  lemma {:induction false} StepKeeps(s: State, s': State)
    requires Invariant(s) && Next(s, s')
    ensures Invariant(s')
  {
    if Abandon(s, s') {
      var n := |s.answers|;
      assert s'.answers[n] == !s.finished;
      assert forall k :: 0 <= k < n ==> s'.answers[k] == s.answers[k];
      assert s.finished ==> s'.abandoned == s.abandoned;
    }
  }

  lemma {:induction false} AlwaysHolds(run: seq<State>, i: nat)
    requires IsRun(run) && i < |run|
    ensures Invariant(run[i])
  {
    if i > 0 {
      AlwaysHolds(run, i - 1);
      assert Next(run[i - 1], run[i - 1 + 1]);
      StepKeeps(run[i - 1], run[i]);
    }
  }

  // --- what callers rely on -------------------------------------------------------------------------

  /** Once its thread is over, the chair was stopped there exactly once if some call handed it
      over, and never otherwise. */
  lemma {:induction false} StoppedIffHandedOver(run: seq<State>, i: nat)
    requires IsRun(run) && i < |run|
    ensures run[i].stops <= 1
    ensures run[i].stops == 1 ==> true in run[i].answers
    ensures run[i].thread == Over ==> run[i].stops == if true in run[i].answers then 1 else 0
  {
    AlwaysHolds(run, i);
  }

  /** A caller that asks at most once has the answer that says whose the chair is: it is the
      thread's to stop if handed over, and the caller's, never stopped here, if not. */
  lemma {:induction false} OneOwner(run: seq<State>, i: nat)
    requires IsRun(run) && i < |run| && |run[i].answers| <= 1
    ensures run[i].answers == [true] ==> run[i].thread == Over ==> run[i].stops == 1
    ensures run[i].answers == [false] ==> run[i].finished && run[i].thread == Over && run[i].stops == 0
    ensures run[i].answers == [] ==> run[i].stops == 0 && run[i].thread != Stopping
  {
    AlwaysHolds(run, i);
    assert true !in [false];
  }

  /** Asked twice, before and after the start returns, `abandon` answers both ways: the second
      caller is told it owns a chair that is stopped for it. */
  lemma AskedTwiceItContradictsItself() returns (run: seq<State>)
    ensures IsRun(run) && run[|run| - 1].answers == [true, false] && run[|run| - 1].stops == 1
  {
    var a := START.(abandoned := true, answers := [true]);
    var b := a.(thread := Returning);
    var c := b.(finished := true, thread := Stopping);
    var d := c.(stops := 1, thread := Over);
    var e := d.(answers := [true, false]);
    assert Abandon(START, a) && StartReturns(a, b, None) && Publish(b, c) && StopChair(c, d) && Abandon(d, e);
    run := [START, a, b, c, d, e];
  }

  /** Answers disagree exactly when one is given after the start has returned to a chair already
      handed over. */
  lemma {:induction false} AnswersDisagreeIff(run: seq<State>, i: nat)
    requires IsRun(run) && 0 < i < |run| && Abandon(run[i - 1], run[i])
    ensures true in run[i].answers && false in run[i].answers <==> run[i - 1].finished && run[i - 1].abandoned
  {
    AlwaysHolds(run, i - 1);
    var n := |run[i - 1].answers|;
    assert run[i].answers[n] == !run[i - 1].finished;
  }

  /** A failed start is surfaced at most once, as what it was; until then it is still held. */
  lemma {:induction false} FailureSurfacesOnce(run: seq<State>, i: nat)
    requires IsRun(run) && i < |run|
    ensures |run[i].surfaced| <= 1
    ensures |run[i].surfaced| == 1 ==> run[i].came == Some(run[i].surfaced[0])
    ensures run[i].came.Some? ==> (run[i].error == run[i].came <==> run[i].surfaced == [])
  {
    AlwaysHolds(run, i);
  }

  /** A failure not yet surfaced is raised by the next `join`. */
  lemma {:induction false} JoinRaisesAHeldFailure(run: seq<State>, i: nat, s': State)
    requires IsRun(run) && i < |run| && Join(run[i], s') && run[i].came.Some?
    ensures s'.surfaced == [run[i].came.value] && s'.error == None
  {
    AlwaysHolds(run, i);
  }
}
