/** Calls in flight in a bounded window, their jobs finished in the order they were drawn. */
module Window {
  import opened Options

  datatype Outcome<T> = Gives(value: T) | Raises(error: string)

  /** `call` is what the job's call comes to, if it has one; `finish` is given its reply. */
  datatype Job<!R, V> = Job(call: Option<Outcome<R>>, finish: Option<R> -> Outcome<V>)

  /** The jobs, drawn lazily, and what drawing raises after the last of them, if anything. */
  datatype Source<!R, V> = Source(jobs: seq<Job<R, V>>, raises: Option<string>)

  /** Answered jobs the window may hold for each slot, on top of the calls still out. */
  const HELD_PER_SLOT := 4

  /** Where the drawing thread stands. `pending` lists the calls it found still out. */
  datatype Place =
    | Outer
    | Inner
    | Scan(at: nat, pending: seq<nat>)
    | Decide(pending: seq<nat>)
    | Wait(pending: seq<nat>)
    | Drain
    | End

  /** Jobs are numbered as drawn. `replied` are the calls done, on whatever thread; `left` are the
      jobs that left the window, in order; the first of `errors` is raised, the rest are notes. */
  datatype State<V> = State(
    place: Place,
    drawing: bool,
    drawn: nat,
    window: seq<nat>,
    replied: set<nat>,
    left: seq<nat>,
    finished: seq<V>,
    errors: seq<string>)

  function Start<V>(): State<V> {
    State(Outer, true, 0, [], {}, [], [], [])
  }

  /** What a job comes to once its call is done. */
  function Result<R, V>(job: Job<R, V>): Outcome<V> {
    match job.call
    case None => job.finish(None)
    case Some(Raises(error)) => Raises(error)
    case Some(Gives(reply)) => job.finish(Some(reply))
  }

  // --- the width-1 pass -----------------------------------------------------------------------------

  datatype Ending<V> = Returned(values: seq<V>) | Raised(error: string)

  predicate Works<R, V>(jobs: seq<Job<R, V>>) {
    forall k :: 0 <= k < |jobs| ==> Result(jobs[k]).Gives?
  }

  /** The values the working jobs give, in order. */
  function Values<R, V>(jobs: seq<Job<R, V>>): (values: seq<V>) {
    if |jobs| == 0 then []
    else
      var n := |jobs| - 1;
      Values(jobs[..n]) + match Result(jobs[n]) case Gives(value) => [value] case Raises(_) => []
  }

  /** The errors the failing jobs raise, in order. */
  function Errors<R, V>(jobs: seq<Job<R, V>>): (errors: seq<string>) {
    if |jobs| == 0 then []
    else
      var n := |jobs| - 1;
      Errors(jobs[..n]) + match Result(jobs[n]) case Gives(_) => [] case Raises(error) => [error]
  }

  lemma {:induction false} NoErrorsIfWorks<R, V>(jobs: seq<Job<R, V>>)
    ensures Errors(jobs) == [] <==> Works(jobs)
  {
    if |jobs| > 0 {
      NoErrorsIfWorks(jobs[..|jobs| - 1]);
    }
  }

  lemma {:induction false} WorkingJobs<R, V>(jobs: seq<Job<R, V>>)
    requires Works(jobs)
    ensures |Values(jobs)| == |jobs| && forall k :: 0 <= k < |jobs| ==> Values(jobs)[k] == Result(jobs[k]).value
  {
    if |jobs| > 0 {
      WorkingJobs(jobs[..|jobs| - 1]);
    }
  }

  lemma {:induction false} ErrorsSplit<R, V>(jobs: seq<Job<R, V>>, n: nat)
    requires n <= |jobs|
    ensures Errors(jobs[..n]) <= Errors(jobs)
  {
    if n == |jobs| {
      assert jobs[..n] == jobs;
    } else {
      ErrorsSplit(jobs[..|jobs| - 1], n);
      assert jobs[..|jobs| - 1][..n] == jobs[..n];
    }
  }

  /** The serial pass: every value in order, or the first error met. */
  function Serial<R, V>(source: Source<R, V>): Ending<V> {
    var errors := Errors(source.jobs) + if source.raises.Some? then [source.raises.value] else [];
    if errors == [] then Returned(Values(source.jobs)) else Raised(errors[0])
  }

  /** The job has no call and its finish gives the value, or its call gives a reply from which its
      finish does. */
  ghost predicate ComesTo<R, V>(job: Job<R, V>, value: V) {
    if job.call == None then job.finish(None) == Gives(value)
    else job.call.value.Gives? && job.finish(Some(job.call.value.value)) == Gives(value)
  }

  /** The job's call raises the error, or its finish does. */
  ghost predicate FailsWith<R, V>(job: Job<R, V>, error: string) {
    || (job.call == None && job.finish(None) == Raises(error))
    || (job.call.Some? && job.call.value == Raises(error))
    || (job.call.Some? && job.call.value.Gives? && job.finish(Some(job.call.value.value)) == Raises(error))
  }

  lemma ResultIs<R, V>(job: Job<R, V>)
    ensures match Result(job) case Gives(value) => ComesTo(job, value) case Raises(error) => FailsWith(job, error)
  {
  }

  lemma {:induction false} SomeJobFails<R, V>(jobs: seq<Job<R, V>>, error: string)
    requires error in Errors(jobs)
    ensures exists k :: 0 <= k < |jobs| && FailsWith(jobs[k], error)
  {
    var n := |jobs| - 1;
    if error in Errors(jobs[..n]) {
      SomeJobFails(jobs[..n], error);
      var k :| 0 <= k < n && FailsWith(jobs[..n][k], error);
      assert FailsWith(jobs[k], error);
    } else {
      ResultIs(jobs[n]);
      assert FailsWith(jobs[n], error);
    }
  }

  /** What the serial pass returns is what each job comes to; what it raises is some job's error, or
      what drawing raises. */
  lemma {:induction false} SerialMeans<R, V>(source: Source<R, V>)
    ensures match Serial(source)
            case Returned(values) =>
              |values| == |source.jobs| && forall k :: 0 <= k < |values| ==> ComesTo(source.jobs[k], values[k])
            case Raised(error) =>
              || (exists k :: 0 <= k < |source.jobs| && FailsWith(source.jobs[k], error))
              || source.raises == Some(error)
  {
    NoErrorsIfWorks(source.jobs);
    if Works(source.jobs) { WorkingJobs(source.jobs); }
    forall k | 0 <= k < |source.jobs| && Result(source.jobs[k]).Gives?
      ensures ComesTo(source.jobs[k], Result(source.jobs[k]).value)
    {
      ResultIs(source.jobs[k]);
    }
    var ending := Serial(source);
    if ending.Raised? && ending.error in Errors(source.jobs) { SomeJobFails(source.jobs, ending.error); }
  }

  /** Width 1 calls inline. */
  method RunInline<R, V>(source: Source<R, V>) returns (ending: Ending<V>)
    ensures ending == Serial(source)
    ensures ending.Returned? <==> Works(source.jobs) && source.raises == None
    ensures ending.Returned? ==> |ending.values| == |source.jobs|
    ensures ending.Returned? ==> forall k :: 0 <= k < |source.jobs| ==> ending.values[k] == Result(source.jobs[k]).value
  {
    NoErrorsIfWorks(source.jobs);
    if Works(source.jobs) { WorkingJobs(source.jobs); }
    var finished: seq<V> := [];
    for i := 0 to |source.jobs|
      invariant Errors(source.jobs[..i]) == [] && finished == Values(source.jobs[..i])
    {
      assert source.jobs[..i + 1][..i] == source.jobs[..i];
      match Result(source.jobs[i]) {
      case Gives(value) => finished := finished + [value];
      case Raises(error) =>
        ErrorsSplit(source.jobs, i + 1);
        return Raised(error);
      }
    }
    assert source.jobs[..|source.jobs|] == source.jobs;
    ending := if source.raises.Some? then Raised(source.raises.value) else Returned(finished);
  }

  // --- the steps at width two and more --------------------------------------------------------------

  datatype Pass<!R, V> = Pass(source: Source<R, V>, width: nat) {

    predicate HasCall(j: nat) {
      j < |source.jobs| && source.jobs[j].call.Some?
    }

    /** A job with no call, or with its call done. */
    predicate Ready(j: nat, replied: set<nat>) {
      !HasCall(j) || j in replied
    }

    /** The calls of these jobs not done yet. */
    function Out(window: seq<nat>, replied: set<nat>): seq<nat> {
      if |window| == 0 then []
      else
        var n := |window| - 1;
        Out(window[..n], replied) + if Ready(window[n], replied) then [] else [window[n]]
    }

    /** A call returns or raises, on its own thread. */
    ghost predicate Reply(s: State<V>, s': State<V>, j: nat) {
      j in s.window && !Ready(j, s.replied) && s' == s.(replied := s.replied + {j})
    }

    /** Take the first job out of the window and finish it. */
    function FinishFirst(s: State<V>): State<V>
      requires |s.window| > 0
    {
      var j := s.window[0];
      var taken := s.(window := s.window[1..], left := s.left + [j]);
      if j >= |source.jobs| then taken
      else match Result(source.jobs[j])
           case Gives(value) => taken.(finished := s.finished + [value])
           case Raises(error) => taken.(errors := s.errors + [error], place := Drain)
    }

    /** Nothing for the drawing thread to do until a call is done. */
    predicate Blocked(s: State<V>) {
      || (s.place.Wait? && forall k :: 0 <= k < |s.place.pending| ==> s.place.pending[k] !in s.replied)
      || (s.place.Drain? && |s.window| > 0 && !Ready(s.window[0], s.replied))
    }

    /** Draw one job more, note that there is none, or stop on what drawing raises. */
    function Draw(s: State<V>): State<V> {
      if s.drawn < |source.jobs| then s.(place := Outer, drawn := s.drawn + 1, window := s.window + [s.drawn])
      else if source.raises.Some? then s.(place := Drain, errors := s.errors + [source.raises.value])
      else s.(place := Outer, drawing := false)
    }

    /** The drawing thread's next step. */
    function Advance(s: State<V>): State<V>
      requires !Blocked(s)
    {
      match s.place
      case Outer => s.(place := if s.drawing || |s.window| > 0 then Inner else Drain)
      case Inner =>
        if |s.window| > 0 && Ready(s.window[0], s.replied) then FinishFirst(s) else s.(place := Scan(0, []))
      case Scan(at, pending) =>
        if at < |s.window| then
          s.(place := Scan(at + 1, if Ready(s.window[at], s.replied) then pending else pending + [s.window[at]]))
        else s.(place := Decide(pending))
      case Decide(pending) =>
        if s.drawing && |pending| < width && |s.window| - |pending| < HELD_PER_SLOT * width then Draw(s)
        else s.(place := if |pending| > 0 then Wait(pending) else Outer)
      case Wait(_) => s.(place := Outer)
      case Drain => if |s.window| > 0 then FinishFirst(s) else s.(place := End)
      case End => s
    }

    ghost predicate Next(s: State<V>, s': State<V>) {
      (exists j :: Reply(s, s', j)) || (!Blocked(s) && s.place != End && s' == Advance(s))
    }

    // --- what every step keeps ----------------------------------------------------------------------

    /** The list being built, or used, against the part of the window it was built from. */
    predicate ListsOut(s: State<V>, pending: seq<nat>, at: nat) {
      && at <= |s.window|
      && Out(pending, s.replied) == Out(s.window[..at], s.replied)
      && forall j :: j in pending ==> j in s.window && HasCall(j)
    }

    predicate PlaceAgrees(s: State<V>) {
      match s.place
      case Scan(at, pending) => ListsOut(s, pending, at)
      case Decide(pending) => ListsOut(s, pending, |s.window|)
      case Wait(pending) =>
        && ListsOut(s, pending, |s.window|) && |pending| > 0
        && (s.drawing ==> |pending| >= width || |s.window| - |pending| >= HELD_PER_SLOT * width)
      case _ => true
    }

    /** The jobs that left and those in the window are the drawn ones, in order. */
    predicate InOrder(s: State<V>) {
      && s.drawn <= |source.jobs| && |s.left| + |s.window| == s.drawn
      && (forall k :: 0 <= k < |s.left| ==> s.left[k] == k)
      && (forall k :: 0 <= k < |s.window| ==> s.window[k] == |s.left| + k)
    }

    /** What was finished and raised is what the jobs that left come to. */
    ghost predicate Recorded(s: State<V>) {
      && |s.left| <= |source.jobs|
      && var gone := source.jobs[..|s.left|];
      && s.finished == Values(gone)
      && (s.errors == Errors(gone)
          || (source.raises.Some? && s.drawn == |source.jobs| && s.errors == [source.raises.value] + Errors(gone)))
      && (s.errors != [] ==> s.place == Drain || s.place == End)
      && (s.errors == [] && (s.place == Drain || s.place == End) ==> !s.drawing)
      && (!s.drawing ==> s.drawn == |source.jobs| && source.raises == None)
      && (s.place == End ==> s.window == [])
    }

    predicate Bounded(s: State<V>) {
      && |Out(s.window, s.replied)| <= width
      && |s.window| <= width + HELD_PER_SLOT * width - 1
    }

    ghost predicate Invariant(s: State<V>) {
      width >= 2 && InOrder(s) && Recorded(s) && Bounded(s) && PlaceAgrees(s)
    }
  }

  // --- the calls still out --------------------------------------------------------------------------

  lemma {:induction false} OutIsAmong<R, V>(p: Pass<R, V>, window: seq<nat>, replied: set<nat>)
    ensures |p.Out(window, replied)| <= |window|
    ensures forall j :: j in p.Out(window, replied) <==> j in window && !p.Ready(j, replied)
  {
    if |window| > 0 {
      OutIsAmong(p, window[..|window| - 1], replied);
      assert window == window[..|window| - 1] + [window[|window| - 1]];
    }
  }

  lemma {:induction false} OutJoin<R, V>(p: Pass<R, V>, window: seq<nat>, more: seq<nat>, replied: set<nat>)
    ensures p.Out(window + more, replied) == p.Out(window, replied) + p.Out(more, replied)
  {
    if |more| == 0 {
      assert window + more == window;
    } else {
      var n := |more| - 1;
      OutJoin(p, window, more[..n], replied);
      assert (window + more)[..|window| + n] == window + more[..n];
    }
  }

  /** Asking again once more calls are done. */
  lemma {:induction false} OutAgain<R, V>(p: Pass<R, V>, window: seq<nat>, replied: set<nat>, later: set<nat>)
    requires replied <= later
    ensures p.Out(p.Out(window, replied), later) == p.Out(window, later)
    ensures |p.Out(window, later)| <= |p.Out(window, replied)|
  {
    if |window| > 0 {
      var n := |window| - 1;
      OutAgain(p, window[..n], replied, later);
      var before := p.Out(window[..n], replied);
      var last := if p.Ready(window[n], replied) then [] else [window[n]];
      OutJoin(p, before, last, later);
      OutIsAmong(p, before, later);
      assert last != [] ==> last[..0] == [] && p.Out(last[..0], later) == [];
    }
  }

  lemma {:induction false} AllOut<R, V>(p: Pass<R, V>, pending: seq<nat>, replied: set<nat>)
    requires forall k :: 0 <= k < |pending| ==> !p.Ready(pending[k], replied)
    ensures p.Out(pending, replied) == pending
  {
    if |pending| > 0 {
      AllOut(p, pending[..|pending| - 1], replied);
    }
  }

  // --- one lemma per step ---------------------------------------------------------------------------

  lemma {:induction false} ListsKept<R, V>(p: Pass<R, V>, s: State<V>, s': State<V>, j: nat, pending: seq<nat>, at: nat)
    requires p.ListsOut(s, pending, at) && p.Reply(s, s', j)
    ensures p.ListsOut(s', pending, at)
  {
    OutAgain(p, pending, s.replied, s'.replied);
    OutAgain(p, s.window[..at], s.replied, s'.replied);
  }

  lemma {:induction false} ReplyKeeps<R, V>(p: Pass<R, V>, s: State<V>, s': State<V>, j: nat)
    requires p.Invariant(s) && p.Reply(s, s', j)
    ensures p.Invariant(s')
  {
    OutAgain(p, s.window, s.replied, s'.replied);
    match s.place {
    case Scan(at, pending) => ListsKept(p, s, s', j, pending, at);
    case Decide(pending) => ListsKept(p, s, s', j, pending, |s.window|);
    case Wait(pending) => ListsKept(p, s, s', j, pending, |s.window|);
    case _ =>
    }
  }

  /** Taking the first job out keeps the bounds. */
  lemma {:induction false} OutAfterFirst<R, V>(p: Pass<R, V>, window: seq<nat>, replied: set<nat>)
    requires |window| > 0
    ensures |p.Out(window[1..], replied)| <= |p.Out(window, replied)|
  {
    OutJoin(p, window[..1], window[1..], replied);
    assert window == window[..1] + window[1..];
  }

  lemma {:induction false} FinishRecords<R, V>(p: Pass<R, V>, s: State<V>)
    requires p.InOrder(s) && p.Recorded(s) && (s.place == Inner || s.place == Drain) && |s.window| > 0
    ensures p.Recorded(p.FinishFirst(s))
  {
    var n := |s.left|;
    assert s.window[0] == n;
    assert p.source.jobs[..n + 1][..n] == p.source.jobs[..n];
  }

  lemma {:induction false} FinishKeeps<R, V>(p: Pass<R, V>, s: State<V>)
    requires p.Invariant(s) && (s.place == Inner || s.place == Drain) && |s.window| > 0
    ensures p.Invariant(p.FinishFirst(s))
  {
    FinishRecords(p, s);
    OutAfterFirst(p, s.window, s.replied);
    FirstIsTaken(p, s);
    FirstMoves(p, s, p.FinishFirst(s));
  }

  lemma FirstIsTaken<R, V>(p: Pass<R, V>, s: State<V>)
    requires |s.window| > 0
    ensures var s' := p.FinishFirst(s);
            && s'.left == s.left + [s.window[0]] && s'.window == s.window[1..] && s'.replied == s.replied
            && s'.drawn == s.drawn && (s'.place == s.place || s'.place == Drain)
  {
  }

  /** The first of the window is the next to leave. */
  lemma FirstMoves<R, V>(p: Pass<R, V>, s: State<V>, s': State<V>)
    requires p.InOrder(s) && |s.window| > 0 && s'.drawn == s.drawn
    requires s'.left == s.left + [s.window[0]] && s'.window == s.window[1..]
    ensures p.InOrder(s')
  {
    assert s.window[0] == |s.left|;
  }

  /** One more entry of the window looked at. */
  lemma {:induction false} ListsOneMore<R, V>(p: Pass<R, V>, s: State<V>, pending: seq<nat>, at: nat)
    requires p.ListsOut(s, pending, at) && at < |s.window|
    ensures p.ListsOut(s, if p.Ready(s.window[at], s.replied) then pending else pending + [s.window[at]], at + 1)
  {
    assert s.window[..at + 1][..at] == s.window[..at];
    assert (pending + [s.window[at]])[..|pending|] == pending;
    assert s.window[at] in s.window;
  }

  lemma {:induction false} ScanKeeps<R, V>(p: Pass<R, V>, s: State<V>)
    requires p.Invariant(s) && s.place.Scan?
    ensures p.Invariant(p.Advance(s))
  {
    var at, pending := s.place.at, s.place.pending;
    if at < |s.window| {
      ListsOneMore(p, s, pending, at);
    }
    PlaceOnly(p, s, p.Advance(s).place);
  }

  /** Moving on, with nothing else changed. */
  lemma PlaceOnly<R, V>(p: Pass<R, V>, s: State<V>, place: Place)
    requires p.Invariant(s) && !s.place.Drain? && !s.place.End? && !place.Drain? && !place.End?
    requires p.PlaceAgrees(s.(place := place))
    ensures p.Invariant(s.(place := place))
  {
  }

  /** One job more in the window is at most one call more out. */
  lemma OutOneMore<R, V>(p: Pass<R, V>, window: seq<nat>, j: nat, replied: set<nat>)
    ensures |p.Out(window + [j], replied)| <= |p.Out(window, replied)| + 1
  {
    assert (window + [j])[..|window|] == window;
  }

  /** A job drawn while fewer than `width` calls are listed as out keeps the bounds. */
  lemma {:induction false} DrawKeeps<R, V>(p: Pass<R, V>, s: State<V>, pending: seq<nat>)
    requires p.Invariant(s) && s.place == Decide(pending) && s.drawing
    requires |pending| < p.width && |s.window| - |pending| < HELD_PER_SLOT * p.width
    ensures p.Invariant(p.Draw(s))
  {
    RoomForOne(p, s, pending);
    LastDrawn(p, s);
    DrawRecords(p, s);
  }

  /** Drawing keeps within both bounds. */
  lemma {:induction false} RoomForOne<R, V>(p: Pass<R, V>, s: State<V>, pending: seq<nat>)
    requires p.ListsOut(s, pending, |s.window|) && p.Bounded(s)
    requires |pending| < p.width && |s.window| - |pending| < HELD_PER_SLOT * p.width
    ensures p.Bounded(p.Draw(s))
  {
    OutIsAmong(p, pending, s.replied);
    assert s.window[..|s.window|] == s.window;
    OutOneMore(p, s.window, s.drawn, s.replied);
  }

  lemma DrawRecords<R, V>(p: Pass<R, V>, s: State<V>)
    requires p.Recorded(s) && p.InOrder(s) && s.place.Decide? && s.drawing
    ensures p.Recorded(p.Draw(s))
  {
  }

  lemma LastDrawn<R, V>(p: Pass<R, V>, s: State<V>)
    requires p.InOrder(s)
    ensures p.InOrder(p.Draw(s))
  {
  }

  lemma {:induction false} DecideKeeps<R, V>(p: Pass<R, V>, s: State<V>)
    requires p.Invariant(s) && s.place.Decide?
    ensures p.Invariant(p.Advance(s))
  {
    var pending := s.place.pending;
    if s.drawing && |pending| < p.width && |s.window| - |pending| < HELD_PER_SLOT * p.width {
      DrawKeeps(p, s, pending);
    } else {
      PlaceOnly(p, s, if |pending| > 0 then Wait(pending) else Outer);
    }
  }

  /** With nothing left to draw or finish the pass is over. */
  lemma EmptyDrains<R, V>(p: Pass<R, V>, s: State<V>, place: Place)
    requires p.Invariant(s) && s.window == [] && (place == Drain || place == End)
    requires s.place == Drain || !s.drawing
    ensures p.Invariant(s.(place := place))
  {
  }

  /** Every step of the drawing thread keeps the invariant. */
  lemma {:induction false} AdvanceKeeps<R, V>(p: Pass<R, V>, s: State<V>)
    requires p.Invariant(s) && !p.Blocked(s) && s.place != End
    ensures p.Invariant(p.Advance(s))
  {
    match s.place {
    case Inner =>
      if |s.window| > 0 && p.Ready(s.window[0], s.replied) { FinishKeeps(p, s); }
      else { PlaceOnly(p, s, Scan(0, [])); }
    case Drain => if |s.window| > 0 { FinishKeeps(p, s); } else { EmptyDrains(p, s, End); }
    case Scan(_, _) => ScanKeeps(p, s);
    case Decide(_) => DecideKeeps(p, s);
    case Outer => if s.drawing || |s.window| > 0 { PlaceOnly(p, s, Inner); } else { EmptyDrains(p, s, Drain); }
    case Wait(_) => PlaceOnly(p, s, Outer);
    }
  }

  /** Every step keeps the bounds, the order and the record. */
  lemma {:induction false} StepKeeps<R, V>(p: Pass<R, V>, s: State<V>, s': State<V>)
    requires p.Invariant(s) && p.Next(s, s')
    ensures p.Invariant(s')
  {
    if j :| p.Reply(s, s', j) {
      ReplyKeeps(p, s, s', j);
    } else {
      AdvanceKeeps(p, s);
    }
  }

  // --- whole runs -----------------------------------------------------------------------------------

  ghost predicate IsRun<R, V>(p: Pass<R, V>, run: seq<State<V>>) {
    |run| > 0 && run[0] == Start() && forall i :: 0 <= i < |run| - 1 ==> p.Next(run[i], run[i + 1])
  }

  lemma {:induction false} AlwaysHolds<R, V>(p: Pass<R, V>, run: seq<State<V>>, i: nat)
    requires p.width >= 2 && IsRun(p, run) && i < |run|
    ensures p.Invariant(run[i])
  {
    if i > 0 {
      AlwaysHolds(p, run, i - 1);
      assert p.Next(run[i - 1], run[i - 1 + 1]);
      StepKeeps(p, run[i - 1], run[i]);
    }
  }

  /** Whatever order calls are done in: at most `width` are out, the window holds a bounded number
      of jobs, and jobs leave it once each in the order they were drawn. */
  lemma {:induction false} WindowIsBoundedAndInOrder<R, V>(p: Pass<R, V>, run: seq<State<V>>, i: nat)
    requires p.width >= 2 && IsRun(p, run) && i < |run|
    ensures |p.Out(run[i].window, run[i].replied)| <= p.width
    ensures |run[i].window| <= p.width + 4 * p.width - 1
    ensures |run[i].left| + |run[i].window| == run[i].drawn
    ensures forall k :: 0 <= k < |run[i].left| ==> run[i].left[k] == k
    ensures forall k :: 0 <= k < |run[i].window| ==> run[i].window[k] == |run[i].left| + k
  {
    AlwaysHolds(p, run, i);
  }

  /** The drawing thread waits only with every slot out, with as many answered jobs held as
      allowed, or with nothing left to draw: a slow call never stops later ones being sent. */
  lemma {:induction false} WaitsOnlyWhenFull<R, V>(p: Pass<R, V>, s: State<V>)
    requires p.Invariant(s) && s.place.Wait? && p.Blocked(s)
    ensures || !s.drawing || |p.Out(s.window, s.replied)| == p.width
            || |s.window| - |p.Out(s.window, s.replied)| >= 4 * p.width
  {
    var pending := s.place.pending;
    assert s.window[..|s.window|] == s.window;
    forall k | 0 <= k < |pending|
      ensures !p.Ready(pending[k], s.replied)
    {
      assert pending[k] in pending;
    }
    AllOut(p, pending, s.replied);
  }

  /** Blocked means some call is still out, and can be done next. */
  lemma {:induction false} NeverStuck<R, V>(p: Pass<R, V>, s: State<V>)
    requires p.Invariant(s) && s.place != End
    ensures exists s' :: p.Next(s, s')
    ensures p.Blocked(s) ==> exists j :: j in s.window && !p.Ready(j, s.replied)
  {
    if p.Blocked(s) {
      var j := if s.place.Wait? then s.place.pending[0] else s.window[0];
      assert s.place.Wait? ==> j in s.place.pending;
      assert j in s.window && !p.Ready(j, s.replied);
      assert p.Reply(s, s.(replied := s.replied + {j}), j);
      assert p.Next(s, s.(replied := s.replied + {j}));
    } else {
      assert p.Next(s, p.Advance(s));
    }
  }

  // --- it ends --------------------------------------------------------------------------------------

  /** Jobs still to draw, and the end of them to notice. */
  function ToDraw<R, V>(p: Pass<R, V>, s: State<V>): (n: int) {
    |p.source.jobs| - s.drawn + if s.drawing then 1 else 0
  }

  /** The list a call done meanwhile makes stale. */
  predicate Stale<V>(s: State<V>) {
    match s.place
    case Scan(_, pending) => exists k :: 0 <= k < |pending| && pending[k] in s.replied
    case Decide(pending) => exists k :: 0 <= k < |pending| && pending[k] in s.replied
    case Wait(pending) => exists k :: 0 <= k < |pending| && pending[k] in s.replied
    case _ => false
  }

  function Unanswered<R, V>(p: Pass<R, V>, s: State<V>): nat {
    2 * |p.Out(s.window, s.replied)| + if Stale(s) then 1 else 0
  }

  /** How far the drawing thread is from its next draw, finish or wait. */
  function Rank<R, V>(p: Pass<R, V>, s: State<V>): nat {
    var head := |s.window| > 0 && p.Ready(s.window[0], s.replied);
    match s.place
    case Outer => if head || (!s.drawing && |s.window| == 0) then 2 else |s.window| + 7
    case Inner => if head then 1 else |s.window| + 6
    case Scan(at, _) => if at <= |s.window| then |s.window| - at + 5 else 5
    case Decide(_) => 4
    case Wait(_) => 3
    case Drain => 1
    case End => 0
  }

  predicate Nearer<R, V>(p: Pass<R, V>, s': State<V>, s: State<V>) {
    || ToDraw(p, s') < ToDraw(p, s)
    || (ToDraw(p, s') == ToDraw(p, s)
        && (|s'.window| < |s.window|
            || (|s'.window| == |s.window|
                && (Unanswered(p, s') < Unanswered(p, s)
                    || (Unanswered(p, s') == Unanswered(p, s) && Rank(p, s') < Rank(p, s))))))
  }

  lemma {:induction false} OutDrops<R, V>(p: Pass<R, V>, window: seq<nat>, replied: set<nat>, j: nat)
    requires j in window && p.Ready(j, replied)
    ensures |p.Out(window, replied)| < |window|
  {
    var n := |window| - 1;
    OutIsAmong(p, window[..n], replied);
    if window[n] != j {
      assert j in window[..n];
      OutDrops(p, window[..n], replied, j);
    }
  }

  /** A call done is no longer out. */
  lemma {:induction false} FewerOut<R, V>(p: Pass<R, V>, s: State<V>, s': State<V>, j: nat)
    requires p.Reply(s, s', j)
    ensures |p.Out(s.window, s'.replied)| < |p.Out(s.window, s.replied)|
  {
    OutIsAmong(p, s.window, s.replied);
    OutAgain(p, s.window, s.replied, s'.replied);
    OutDrops(p, p.Out(s.window, s.replied), s'.replied, j);
  }

  /** A call done brings the end nearer. */
  lemma {:induction false} ReplyIsNearer<R, V>(p: Pass<R, V>, s: State<V>, s': State<V>, j: nat)
    requires p.Reply(s, s', j)
    ensures Nearer(p, s', s)
  {
    FewerOut(p, s, s', j);
  }

  /** With no call listed as out, the first job is ready to finish, or the pass is over. */
  lemma {:induction false} NoneListed<R, V>(p: Pass<R, V>, s: State<V>)
    requires p.PlaceAgrees(s) && s.place == Decide([])
    ensures |s.window| > 0 ==> p.Ready(s.window[0], s.replied)
  {
    assert s.window[..|s.window|] == s.window;
    OutIsAmong(p, s.window, s.replied);
    assert p.Out([], s.replied) == [];
  }

  lemma {:induction false} ScanIsNearer<R, V>(p: Pass<R, V>, s: State<V>)
    requires p.PlaceAgrees(s) && s.place.Scan?
    ensures Nearer(p, p.Advance(s), s)
  {
    var s' := p.Advance(s);
    var at, pending := s.place.at, s.place.pending;
    if at < |s.window| && !p.Ready(s.window[at], s.replied) {
      var more := pending + [s.window[at]];
      assert forall k :: 0 <= k < |pending| ==> more[k] == pending[k];
    }
    assert Stale(s') ==> Stale(s);
  }

  lemma {:induction false} DecideIsNearer<R, V>(p: Pass<R, V>, s: State<V>)
    requires p.width >= 2 && p.PlaceAgrees(s) && s.place.Decide? && s.drawn <= |p.source.jobs|
    ensures Nearer(p, p.Advance(s), s)
  {
    if |s.place.pending| == 0 {
      NoneListed(p, s);
      assert !Stale(s);
    }
  }

  lemma {:induction false} AdvanceIsNearer<R, V>(p: Pass<R, V>, s: State<V>)
    requires p.width >= 2 && p.PlaceAgrees(s) && s.drawn <= |p.source.jobs|
    requires !p.Blocked(s) && s.place != End
    ensures Nearer(p, p.Advance(s), s)
  {
    match s.place {
    case Scan(_, _) => ScanIsNearer(p, s);
    case Decide(_) => DecideIsNearer(p, s);
    case Wait(_) => WaitIsNearer(p, s);
    case _ =>
    }
  }

  /** A wait ends because a call it lists is done, so the list was stale and the next is not. */
  lemma {:induction false} WaitIsNearer<R, V>(p: Pass<R, V>, s: State<V>)
    requires s.place.Wait? && !p.Blocked(s)
    ensures Nearer(p, p.Advance(s), s)
  {
    assert Stale(s) && !Stale(p.Advance(s));
  }

  /** Every step, of the drawing thread or of a call, brings the end nearer. */
  lemma {:induction false} EveryStepIsNearer<R, V>(p: Pass<R, V>, s: State<V>, s': State<V>)
    requires p.Invariant(s) && p.Next(s, s')
    ensures Nearer(p, s', s)
  {
    if j :| p.Reply(s, s', j) {
      ReplyIsNearer(p, s, s', j);
    } else {
      AdvanceIsNearer(p, s);
    }
  }

  /** Before the end, a step is chosen from the run so far. */
  ghost predicate IsSchedule<R(!new), V(!new)>(p: Pass<R, V>, choose: seq<State<V>> -> State<V>) {
    forall t: seq<State<V>>, x: State<V> {:trigger choose(t + [x])} ::
      p.Invariant(x) && x.place != End ==> p.Next(x, choose(t + [x]))
  }

  lemma {:induction false} ChosenIsNearer<R(!new), V(!new)>(
    p: Pass<R, V>, past: seq<State<V>>, s: State<V>, choose: seq<State<V>> -> State<V>)
    requires p.Invariant(s) && s.place != End && IsSchedule(p, choose)
    ensures p.Invariant(choose(past + [s])) && Nearer(p, choose(past + [s]), s)
  {
    var s' := choose(past + [s]);
    StepKeeps(p, s, s');
    EveryStepIsNearer(p, s, s');
  }

  /** The run goes on from `past` as its steps are chosen, and comes to the end of the pass. */
  ghost predicate ComesToEnd<R(!new), V(!new)>(
    p: Pass<R, V>, past: seq<State<V>>, choose: seq<State<V>> -> State<V>, run: seq<State<V>>)
  {
    && |run| > 0 && past <= run && run[|run| - 1].place == End && p.Invariant(run[|run| - 1])
    && forall i :: |past| <= i < |run| ==> run[i] == choose(run[..i])
  }

  lemma {:induction false} OneStepBefore<R(!new), V(!new)>(
    p: Pass<R, V>, past: seq<State<V>>, choose: seq<State<V>> -> State<V>, run: seq<State<V>>)
    requires ComesToEnd(p, past + [choose(past)], choose, run)
    ensures ComesToEnd(p, past, choose, run)
  {
    assert run[..|past|] == past && run[|past|] == choose(past);
  }

  /** However steps are chosen, from the whole run so far, the pass ends after finitely many. */
  lemma {:induction false} EveryScheduleEnds<R(!new), V(!new)>(
    p: Pass<R, V>, past: seq<State<V>>, s: State<V>, choose: seq<State<V>> -> State<V>)
    returns (run: seq<State<V>>)
    requires p.Invariant(s) && IsSchedule(p, choose)
    ensures ComesToEnd(p, past + [s], choose, run)
    decreases ToDraw(p, s), |s.window|, Unanswered(p, s), Rank(p, s)
  {
    if s.place == End {
      return past + [s];
    }
    ChosenIsNearer(p, past, s, choose);
    run := EveryScheduleEnds(p, past + [s], choose(past + [s]), choose);
    OneStepBefore(p, past + [s], choose, run);
  }

  // --- what it ends with ----------------------------------------------------------------------------

  function EndingOf<V>(s: State<V>): Ending<V> {
    if s.errors == [] then Returned(s.finished) else Raised(s.errors[0])
  }

  /** The pass at any width ends as the serial pass does, value for value: it returns exactly when
      that does, and raises the same first error unless drawing itself failed first. */
  lemma {:induction false} EndsAsSerial<R, V>(p: Pass<R, V>, s: State<V>)
    requires p.Invariant(s) && s.place == End
    ensures EndingOf(s).Returned? <==> Serial(p.source).Returned?
    ensures EndingOf(s).Returned? ==> EndingOf(s) == Serial(p.source)
    ensures EndingOf(s) == Serial(p.source) || (p.source.raises.Some? && EndingOf(s) == Raised(p.source.raises.value))
  {
    var jobs := p.source.jobs;
    assert |s.left| == |jobs| ==> jobs[..|s.left|] == jobs;
    ErrorsSplit(jobs, |s.left|);
  }

  /** Every job drawn has been finished once, in order: all their values kept and all their errors
      reported. */
  lemma {:induction false} EveryDrawnJobIsFinished<R, V>(p: Pass<R, V>, s: State<V>)
    requires p.Invariant(s) && s.place == End
    ensures |s.left| == s.drawn <= |p.source.jobs| && forall k :: 0 <= k < s.drawn ==> s.left[k] == k
    ensures s.finished == Values(p.source.jobs[..s.drawn])
    ensures || s.errors == Errors(p.source.jobs[..s.drawn])
            || (&& p.source.raises.Some? && s.drawn == |p.source.jobs|
                && s.errors == [p.source.raises.value] + Errors(p.source.jobs))
  {
    assert s.drawn == |p.source.jobs| ==> p.source.jobs[..s.drawn] == p.source.jobs;
  }
}
