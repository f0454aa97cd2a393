/** startContinuousHeartbeat (internal/ingestion/handler.go): the beating goroutine, the parent context and
    any number of concurrent callers of stop, interleaved step by step. */
module Heartbeat {
  import opened Options

  /** An error of beat; cancellation: it is context.Canceled or context.DeadlineExceeded. */
  datatype BeatError = BeatError(text: string, cancellation: bool)

  /** The goroutine: at select, in beat, holding a failed beat, past the mutex, past cancel, done closed. */
  datatype Runner = Selecting | Beating | Failed(error: BeatError) | Judged | Leaving | Exited

  /** A caller of stop: at once.Do, inside it before cancel, waiting for done, before copying err, and after it. */
  datatype Caller = Entering | Cancelling | Waiting | Copying | Reading | Returned(value: Option<BeatError>)

  datatype Once = NotStarted | Running | Finished

  /** failure: how the failed beat, if any, was judged; contextDone: ctx.Err() != nil at that moment. */
  datatype Failure = Failure(error: BeatError, contextDone: bool) {
    predicate Expected() {
      contextDone && error.cancellation
    }
  }

  datatype State = State(contextDone: bool, runner: Runner, err: Option<BeatError>, stopErr: Option<BeatError>,
                         once: Once, callers: map<nat, Caller>, failure: Option<Failure>, beats: nat)

  datatype Action =
    | CancelParent
    | Tick | BeatSucceeds | BeatFails(error: BeatError) | SeeDone | Judge | RunnerCancels | CloseDone
    | CallStop(caller: nat) | EnterOnce(caller: nat) | StopCancels(caller: nat) | SeeClosed(caller: nat)
    | CopyError(caller: nat) | PassOnce(caller: nat) | ReadStopError(caller: nat)

  const INIT := State(false, Selecting, None, None, NotStarted, map[], None, 0)

  predicate At(s: State, caller: nat, phase: Caller) {
    caller in s.callers && s.callers[caller] == phase
  }

  predicate Enabled(s: State, a: Action) {
    match a
    case CancelParent => true
    case Tick => s.runner == Selecting
    case BeatSucceeds => s.runner == Beating
    case BeatFails(_) => s.runner == Beating
    case SeeDone => s.runner == Selecting && s.contextDone
    case Judge => s.runner.Failed?
    case RunnerCancels => s.runner == Judged
    case CloseDone => s.runner == Leaving
    case CallStop(c) => c !in s.callers
    case EnterOnce(c) => At(s, c, Entering) && s.once == NotStarted
    case StopCancels(c) => At(s, c, Cancelling)
    case SeeClosed(c) => At(s, c, Waiting) && s.runner == Exited
    case CopyError(c) => At(s, c, Copying)
    case PassOnce(c) => At(s, c, Entering) && s.once == Finished
    case ReadStopError(c) => At(s, c, Reading)
  }

  function Moved(s: State, caller: nat, phase: Caller): State {
    s.(callers := s.callers[caller := phase])
  }

  function Apply(s: State, a: Action): State
    requires Enabled(s, a)
  {
    match a
    case CancelParent => s.(contextDone := true)
    case Tick => s.(runner := Beating, beats := s.beats + 1)
    case BeatSucceeds => s.(runner := Selecting)
    case BeatFails(e) => s.(runner := Failed(e))
    case SeeDone => s.(runner := Leaving)
    case Judge =>
      var failure := Failure(s.runner.error, s.contextDone);
      s.(runner := Judged, failure := Some(failure), err := if failure.Expected() then s.err else Some(failure.error))
    case RunnerCancels => s.(runner := Leaving, contextDone := true)
    case CloseDone => s.(runner := Exited)
    case CallStop(c) => Moved(s, c, Entering)
    case EnterOnce(c) => Moved(s, c, Cancelling).(once := Running)
    case StopCancels(c) => Moved(s, c, Waiting).(contextDone := true)
    case SeeClosed(c) => Moved(s, c, Copying)
    case CopyError(c) => Moved(s, c, Reading).(once := Finished, stopErr := s.err)
    case PassOnce(c) => Moved(s, c, Reading)
    case ReadStopError(c) => Moved(s, c, Returned(s.stopErr))
  }

  /** A run: any interleaving of enabled actions from the start. */
  ghost predicate IsRun(states: seq<State>, actions: seq<Action>) {
    && |states| == |actions| + 1 && states[0] == INIT
    && forall i :: 0 <= i < |actions| ==> IsStep(states, actions, i)
  }

  ghost predicate IsStep(states: seq<State>, actions: seq<Action>, i: int)
    requires 0 <= i < |actions| < |states|
  {
    Enabled(states[i], actions[i]) && states[i + 1] == Apply(states[i], actions[i])
  }

  // ----- the invariant -----

  predicate InsideOnce(phase: Caller) {
    phase == Cancelling || phase == Waiting || phase == Copying
  }

  /** What a caller of stop may return after the goroutine has left. */
  function Report(s: State): Option<BeatError> {
    if s.failure.Some? && !s.failure.value.Expected() then Some(s.failure.value.error) else None
  }

  ghost predicate Inv(s: State) {
    && s.err == Report(s)
    && (s.failure.Some? ==> s.runner == Judged || s.runner == Leaving || s.runner == Exited)
    && (s.runner == Leaving || s.runner == Exited ==> s.contextDone)
    && (s.once == Finished ==> s.runner == Exited && s.stopErr == s.err)
    && (s.once != Finished ==> forall c :: c in s.callers ==> s.callers[c] != Reading && !s.callers[c].Returned?)
    && (s.once != Running ==> forall c :: c in s.callers ==> !InsideOnce(s.callers[c]))
    && (forall c, d :: c in s.callers && d in s.callers && InsideOnce(s.callers[c]) && InsideOnce(s.callers[d]) ==> c == d)
    && (forall c :: c in s.callers && s.callers[c] == Copying ==> s.runner == Exited)
    && (forall c :: c in s.callers && s.callers[c] == Waiting ==> s.contextDone)
    && (forall c :: c in s.callers && s.callers[c].Returned? ==> s.callers[c].value == s.stopErr)
  }

  /** Steps that no caller of stop takes. */
  predicate OfRunner(a: Action) {
    a.CancelParent? || a.Tick? || a.BeatSucceeds? || a.BeatFails? || a.SeeDone? || a.Judge? || a.RunnerCancels? || a.CloseDone?
  }

  lemma RunnerKeepsInv(s: State, a: Action)
    requires Inv(s) && Enabled(s, a) && OfRunner(a)
    ensures Inv(Apply(s, a))
  {
  }

  lemma EnterKeepsInv(s: State, c: nat)
    requires Inv(s) && Enabled(s, EnterOnce(c))
    ensures Inv(Apply(s, EnterOnce(c)))
  {
  }

  lemma CopyKeepsInv(s: State, c: nat)
    requires Inv(s) && Enabled(s, CopyError(c))
    ensures Inv(Apply(s, CopyError(c)))
  {
  }

  /** Steps of the caller inside the once that stay inside. */
  lemma InsideKeepsInv(s: State, a: Action)
    requires Inv(s) && Enabled(s, a) && (a.StopCancels? || a.SeeClosed?)
    ensures Inv(Apply(s, a))
  {
  }

  /** Steps of the callers outside the once. */
  lemma OutsideKeepsInv(s: State, a: Action)
    requires Inv(s) && Enabled(s, a) && (a.CallStop? || a.PassOnce? || a.ReadStopError?)
    ensures Inv(Apply(s, a))
  {
  }

  lemma StepKeepsInv(s: State, a: Action)
    requires Inv(s) && Enabled(s, a)
    ensures Inv(Apply(s, a))
  {
    match a {
      case EnterOnce(c) => EnterKeepsInv(s, c);
      case CopyError(c) => CopyKeepsInv(s, c);
      case StopCancels(_) | SeeClosed(_) => InsideKeepsInv(s, a);
      case CallStop(_) | PassOnce(_) | ReadStopError(_) => OutsideKeepsInv(s, a);
      case _ => RunnerKeepsInv(s, a);
    }
  }

  lemma {:induction false} RunKeepsInv(states: seq<State>, actions: seq<Action>, i: int)
    requires IsRun(states, actions) && 0 <= i < |states|
    ensures Inv(states[i])
  {
    if i == 0 {
    } else {
      RunKeepsInv(states, actions, i - 1);
      assert IsStep(states, actions, i - 1);
      StepKeepsInv(states[i - 1], actions[i - 1]);
    }
  }

  // ----- what holds of every run -----

  /** Once a caller has returned from stop the goroutine is gone for good: no beat is running or will run. */
  lemma {:induction false} NoBeatAfterStop(states: seq<State>, actions: seq<Action>, i: int, j: int, caller: nat)
    requires IsRun(states, actions) && 0 <= i <= j < |states|
    requires caller in states[i].callers && states[i].callers[caller].Returned?
    ensures states[j].runner == Exited && states[j].beats == states[i].beats && states[j].contextDone
    ensures caller in states[j].callers && states[j].callers[caller] == states[i].callers[caller]
    decreases j
  {
    RunKeepsInv(states, actions, j);
    if i < j {
      NoBeatAfterStop(states, actions, i, j - 1, caller);
      assert IsStep(states, actions, j - 1);
    } else {
      assert states[i].once == Finished;
    }
  }

  /** Every call of stop returns the same value, whoever calls and whenever. */
  lemma StopReturnsOneValue(states: seq<State>, actions: seq<Action>, i: int, j: int, c: nat, d: nat)
    requires IsRun(states, actions) && 0 <= i < |states| && 0 <= j < |states|
    requires c in states[i].callers && states[i].callers[c].Returned?
    requires d in states[j].callers && states[j].callers[d].Returned?
    ensures states[i].callers[c].value == states[j].callers[d].value
  {
    var last := if i < j then j else i;
    NoBeatAfterStop(states, actions, i, last, c);
    NoBeatAfterStop(states, actions, j, last, d);
    RunKeepsInv(states, actions, last);
  }

  /** At most one beat ever fails, and its judgement stands. */
  lemma {:induction false} FailureStands(states: seq<State>, actions: seq<Action>, i: int, j: int)
    requires IsRun(states, actions) && 0 <= i <= j < |states| && states[i].failure.Some?
    ensures states[j].failure == states[i].failure
    decreases j
  {
    if i == j {
    } else {
      FailureStands(states, actions, i, j - 1);
      RunKeepsInv(states, actions, j - 1);
      assert IsStep(states, actions, j - 1);
    }
  }

  /** stop reports a beat's error if and only if the beat failed and its error was not merely the
      cancellation of a context that was already done. */
  lemma StopReportsRealFailures(states: seq<State>, actions: seq<Action>, i: int, j: int, caller: nat)
    requires IsRun(states, actions) && 0 <= i < |actions| && 0 <= j < |states| && actions[i] == Judge
    requires caller in states[j].callers && states[j].callers[caller].Returned?
    ensures states[i].runner.Failed? && var error := states[i].runner.error;
                                     states[j].callers[caller].value ==
                                     if states[i].contextDone && error.cancellation then None else Some(error)
  {
    assert IsStep(states, actions, i);
    var last := if i + 1 < j then j else i + 1;
    FailureStands(states, actions, i + 1, last);
    NoBeatAfterStop(states, actions, j, last, caller);
    RunKeepsInv(states, actions, last);
  }

  lemma {:induction false} FailureWasJudged(states: seq<State>, actions: seq<Action>, j: int) returns (i: int)
    requires IsRun(states, actions) && 0 <= j < |states| && states[j].failure.Some?
    ensures 0 <= i < j && actions[i] == Judge && states[i].runner == Failed(states[j].failure.value.error)
  {
    assert IsStep(states, actions, j - 1);
    i := j - 1;
    if actions[i] == Judge {
    } else {
      i := FailureWasJudged(states, actions, j - 1);
    }
  }

  /** What stop reports is the error of a beat that was judged; without a failure it reports nothing. */
  lemma ReportsComeFromBeats(states: seq<State>, actions: seq<Action>, j: int, caller: nat) returns (i: int)
    requires IsRun(states, actions) && 0 <= j < |states|
    requires caller in states[j].callers && states[j].callers[caller].Returned? && states[j].callers[caller].value.Some?
    ensures 0 <= i < j && actions[i] == Judge && states[i].runner == Failed(states[j].callers[caller].value.value)
    ensures !(states[i].contextDone && states[i].runner.error.cancellation)
  {
    NoBeatAfterStop(states, actions, j, j, caller);
    RunKeepsInv(states, actions, j);
    i := FailureWasJudged(states, actions, j);
    StopReportsRealFailures(states, actions, i, j, caller);
  }

  /** A failed beat always cancels the child context before the goroutine leaves. */
  lemma FailureCancelsContext(states: seq<State>, actions: seq<Action>, j: int)
    requires IsRun(states, actions) && 0 <= j < |states| && states[j].failure.Some?
    ensures states[j].runner == Judged || states[j].contextDone
  {
    RunKeepsInv(states, actions, j);
  }

  // ----- progress -----

  /** The step the drain waits for: the goroutine's own, or the caller's. */
  function NextOfDrain(s: State, caller: nat): Action {
    match s.runner
    case Beating => BeatSucceeds
    case Failed(_) => Judge
    case Judged => RunnerCancels
    case Leaving => CloseDone
    case Selecting => if s.contextDone then SeeDone else StopCancels(caller)
    case Exited =>
      if At(s, caller, Cancelling) then StopCancels(caller)
      else if At(s, caller, Waiting) then SeeClosed(caller)
      else CopyError(caller)
  }

  /** How far the drain still has to go. */
  function Distance(s: State, caller: nat): nat {
    (match s.runner
     case Beating => 14
     case Selecting => 12
     case Failed(_) => 8
     case Judged => 6
     case Leaving => 4
     case Exited => 2)
    + (if At(s, caller, Cancelling) then 3 else if At(s, caller, Waiting) then 2 else if At(s, caller, Copying) then 1 else 0)
  }

  /** A caller inside stop is never stuck: some step of its own or of the goroutine is enabled and brings it closer. */
  lemma StopMakesProgress(s: State, caller: nat)
    requires Inv(s) && caller in s.callers && InsideOnce(s.callers[caller])
    ensures Enabled(s, NextOfDrain(s, caller))
    ensures Distance(Apply(s, NextOfDrain(s, caller)), caller) < Distance(s, caller)
  {
  }

  // ----- beats and cancellation -----

  function Ticks(actions: seq<Action>): nat {
    if actions == [] then 0 else Ticks(actions[..|actions| - 1]) + if actions[|actions| - 1].Tick? then 1 else 0
  }

  /** Every tick the goroutine takes starts one beat, and nothing else does. */
  lemma {:induction false} TicksAreBeats(states: seq<State>, actions: seq<Action>, i: int)
    requires IsRun(states, actions) && 0 <= i < |states|
    ensures states[i].beats == Ticks(actions[..i])
    ensures i < |actions| && actions[i].Tick? ==> states[i + 1].runner == Beating
  {
    if i == 0 {
    } else {
      TicksAreBeats(states, actions, i - 1);
      assert IsStep(states, actions, i - 1);
      assert actions[..i][..i - 1] == actions[..i - 1];
    }
    if i < |actions| {
      assert IsStep(states, actions, i);
    }
  }

  /** A beat that fails with a cancellation of a context already done: stop reports nothing. */
  lemma CancelledBeatIsNoFailure(error: BeatError) returns (states: seq<State>, actions: seq<Action>)
    requires error.cancellation
    ensures IsRun(states, actions) && |states| == 13 && states[12].beats == 1 && states[12].callers == map[0 := Returned(None)]
  {
    actions := [Tick, CancelParent, BeatFails(error), Judge, RunnerCancels, CloseDone, CallStop(0), EnterOnce(0), StopCancels(0),
                SeeClosed(0), CopyError(0), ReadStopError(0)];
    var judged := Some(Failure(error, true));
    states := [INIT,
               State(false, Beating, None, None, NotStarted, map[], None, 1),
               State(true, Beating, None, None, NotStarted, map[], None, 1),
               State(true, Failed(error), None, None, NotStarted, map[], None, 1),
               State(true, Judged, None, None, NotStarted, map[], judged, 1),
               State(true, Leaving, None, None, NotStarted, map[], judged, 1),
               State(true, Exited, None, None, NotStarted, map[], judged, 1),
               State(true, Exited, None, None, NotStarted, map[0 := Entering], judged, 1),
               State(true, Exited, None, None, Running, map[0 := Cancelling], judged, 1),
               State(true, Exited, None, None, Running, map[0 := Waiting], judged, 1),
               State(true, Exited, None, None, Running, map[0 := Copying], judged, 1),
               State(true, Exited, None, None, Finished, map[0 := Reading], judged, 1),
               State(true, Exited, None, None, Finished, map[0 := Returned(None)], judged, 1)];
    forall i | 0 <= i < |actions| ensures IsStep(states, actions, i) { }
  }
}
