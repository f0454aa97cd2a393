/** request_stop as it is interrupted by itself: it is called from the program and as the handler of signals,
    so calls nest, the last one running to its end before the one below it goes on. */
module SupervisorStop {
  import opened Options
  import opened SupervisorStatus

  const GRACE := 120 * SECOND

  /** A call: entered, past the test that found no deadline, and holding the deadline it computed. */
  datatype Call = Entered | Tested | Clocked(deadline: int)

  datatype State = State(stopRequested: bool, deadline: Option<int>, clock: int, calls: seq<Call>)

  datatype Action = Request | Pass(time: nat) | Test | ReadClock | Store

  const INIT := State(false, None, 0, [])

  function Top(s: State): Option<Call> {
    if s.calls == [] then None else Some(s.calls[|s.calls| - 1])
  }

  function Below(s: State): seq<Call>
    requires s.calls != []
  {
    s.calls[..|s.calls| - 1]
  }

  predicate Enabled(s: State, a: Action) {
    match a
    case Request => true
    case Pass(_) => true
    case Test => Top(s) == Some(Entered)
    case ReadClock => Top(s) == Some(Tested)
    case Store => Top(s).Some? && Top(s).value.Clocked?
  }

  function Apply(s: State, a: Action): State
    requires Enabled(s, a)
  {
    match a
    case Request => s.(calls := s.calls + [Entered])
    case Pass(time) => s.(clock := s.clock + time)
    case Test => s.(stopRequested := true, calls := if s.deadline.Some? then Below(s) else Below(s) + [Tested])
    case ReadClock => s.(calls := Below(s) + [Clocked(s.clock + GRACE)])
    case Store => s.(deadline := Some(Top(s).value.deadline), calls := Below(s))
  }

  /** A state and what can follow it, under any signals and any clock. */
  ghost predicate Follows(s: State, states: seq<State>, actions: seq<Action>) {
    && |states| == |actions| + 1 && states[0] == s
    && forall i {:trigger IsStep(states, actions, i)} :: 0 <= i < |actions| ==> IsStep(states, actions, i)
  }

  ghost predicate IsRun(states: seq<State>, actions: seq<Action>) {
    Follows(INIT, states, actions)
  }

  ghost predicate IsStep(states: seq<State>, actions: seq<Action>, i: int)
    requires 0 <= i < |actions| < |states|
  {
    Enabled(states[i], actions[i]) && states[i + 1] == Apply(states[i], actions[i])
  }

  // ----- when a deadline can move -----

  /** Whatever follows, the deadline stays. */
  ghost predicate NeverMoves(s: State) {
    forall states: seq<State>, actions: seq<Action> :: Follows(s, states, actions) ==> states[|states| - 1].deadline == s.deadline
  }

  predicate HarmlessCall(call: Call, deadline: int) {
    call == Entered || call == Clocked(deadline)
  }

  /** No call in progress is about to store another deadline. */
  predicate Harmless(s: State)
    requires s.deadline.Some?
  {
    forall k :: 0 <= k < |s.calls| ==> HarmlessCall(s.calls[k], s.deadline.value)
  }

  lemma HarmlessStep(s: State, a: Action)
    requires s.deadline.Some? && Harmless(s) && Enabled(s, a)
    ensures Apply(s, a).deadline == s.deadline && Harmless(Apply(s, a))
  {
    if s.calls != [] {
      assert HarmlessCall(s.calls[|s.calls| - 1], s.deadline.value);
    }
  }

  lemma {:induction false} HarmlessStays(s: State, states: seq<State>, actions: seq<Action>, j: int)
    requires s.deadline.Some? && Harmless(s) && Follows(s, states, actions) && 0 <= j < |states|
    ensures states[j].deadline == s.deadline && Harmless(states[j])
  {
    if j == 0 {
    } else {
      HarmlessStays(s, states, actions, j - 1);
      assert IsStep(states, actions, j - 1);
      HarmlessStep(states[j - 1], actions[j - 1]);
    }
  }

  /** A step, and then what follows it. */
  lemma StepThen(s: State, a: Action, states: seq<State>, actions: seq<Action>)
    requires Enabled(s, a) && Follows(Apply(s, a), states, actions)
    ensures Follows(s, [s] + states, [a] + actions)
  {
    var more, acts := [s] + states, [a] + actions;
    forall i | 0 <= i < |acts| ensures IsStep(more, acts, i) {
      if i == 0 {
        assert more[1] == states[0];
      } else {
        assert IsStep(states, actions, i - 1);
        assert more[i] == states[i - 1] && more[i + 1] == states[i] && acts[i] == actions[i - 1];
      }
    }
  }

  /** The deadline of s gives way to another one in some continuation of t. */
  ghost predicate MovesFrom(t: State, deadline: Option<int>) {
    exists states: seq<State>, actions: seq<Action> :: Follows(t, states, actions) && states[|states| - 1].deadline != deadline
  }

  lemma MovedAlready(t: State, deadline: Option<int>)
    requires t.deadline != deadline
    ensures MovesFrom(t, deadline)
  {
    assert Follows(t, [t], []);
  }

  lemma MovesAfterStep(s: State, a: Action, deadline: Option<int>)
    requires Enabled(s, a) && MovesFrom(Apply(s, a), deadline)
    ensures MovesFrom(s, deadline)
  {
    var states: seq<State>, actions: seq<Action> :| Follows(Apply(s, a), states, actions) && states[|states| - 1].deadline != deadline;
    StepThen(s, a, states, actions);
    assert ([s] + states)[|states|] == states[|states| - 1];
  }

  /** A call past its test stores a deadline computed later, which the clock can make another one. */
  lemma TestedMoves(s: State)
    requires s.deadline.Some? && Top(s) == Some(Tested)
    ensures MovesFrom(s, s.deadline)
  {
    var n: nat := if s.clock + GRACE == s.deadline.value then 1 else 0;
    var later := Apply(s, Pass(n));
    var clocked := Apply(later, ReadClock);
    assert Top(clocked) == Some(Clocked(s.clock + n + GRACE));
    MovedAlready(Apply(clocked, Store), s.deadline);
    MovesAfterStep(clocked, Store, s.deadline);
    MovesAfterStep(later, ReadClock, s.deadline);
    MovesAfterStep(s, Pass(n), s.deadline);
  }

  /** The calls above a harmful one end, and then it stores. */
  lemma {:induction false} HarmfulMoves(s: State)
    requires s.deadline.Some? && !Harmless(s)
    ensures MovesFrom(s, s.deadline)
    decreases |s.calls|
  {
    match s.calls[|s.calls| - 1]
    case Tested => TestedMoves(s);
    case Entered =>
      HarmfulBelow(s);
      HarmfulMoves(Apply(s, Test));
      MovesAfterStep(s, Test, s.deadline);
    case Clocked(deadline) =>
      if deadline == s.deadline.value {
        HarmfulBelow(s);
        HarmfulMoves(Apply(s, Store));
      } else {
        MovedAlready(Apply(s, Store), s.deadline);
      }
      MovesAfterStep(s, Store, s.deadline);
  }

  lemma HarmfulBelow(s: State)
    requires s.deadline.Some? && !Harmless(s) && HarmlessCall(s.calls[|s.calls| - 1], s.deadline.value)
    ensures exists k :: 0 <= k < |Below(s)| && !HarmlessCall(Below(s)[k], s.deadline.value)
  {
    var k :| 0 <= k < |s.calls| && !HarmlessCall(s.calls[k], s.deadline.value);
    assert Below(s)[k] == s.calls[k];
  }

  /** A deadline that is set stays for good if and only if no call in progress is past its test, except one
      that holds the very deadline. */
  lemma NeverMovesExactly(s: State)
    requires s.deadline.Some?
    ensures NeverMoves(s) <==> forall k :: 0 <= k < |s.calls| ==> s.calls[k] == Entered || s.calls[k] == Clocked(s.deadline.value)
  {
    if Harmless(s) {
      forall states: seq<State>, actions: seq<Action> | Follows(s, states, actions) ensures states[|states| - 1].deadline == s.deadline {
        HarmlessStays(s, states, actions, |states| - 1);
      }
    } else {
      HarmfulMoves(s);
    }
    assert Harmless(s) <==> forall k :: 0 <= k < |s.calls| ==> s.calls[k] == Entered || s.calls[k] == Clocked(s.deadline.value);
  }

  // ----- when a request makes it possible -----

  /** A request is handled between another's test and store, before any deadline is set. */
  predicate Interrupts(s: State, a: Action) {
    a == Request && s.deadline.None? && exists k :: 0 <= k < |s.calls| && s.calls[k] != Entered
  }

  /** The steps of a request that runs to its end, reading the clock after the given time. */
  function Handling(time: nat): seq<Action> {
    [Request, Test, Pass(time), ReadClock, Store]
  }

  /** The state it leaves: its deadline, and the calls it interrupted as they were. */
  function Handled(s: State, time: nat): State {
    State(true, Some(s.clock + time + GRACE), s.clock + time, s.calls)
  }

  lemma PushAndPop<T>(calls: seq<T>, call: T)
    ensures (calls + [call])[..|calls + [call]| - 1] == calls && (calls + [call])[|calls + [call]| - 1] == call
  {
  }

  lemma HandlingSteps(s: State, time: nat) returns (states: seq<State>)
    requires s.deadline.None?
    ensures Follows(s, states, Handling(time)) && states[5] == Handled(s, time)
  {
    PushAndPop(s.calls, Entered);
    PushAndPop(s.calls, Tested);
    PushAndPop(s.calls, Clocked(s.clock + time + GRACE));
    var entered := s.(calls := s.calls + [Entered]);
    var tested := s.(stopRequested := true, calls := s.calls + [Tested]);
    var passed := tested.(clock := s.clock + time);
    var clocked := passed.(calls := s.calls + [Clocked(s.clock + time + GRACE)]);
    states := [s, entered, tested, passed, clocked, Handled(s, time)];
    forall i | 0 <= i < 5 ensures IsStep(states, Handling(time), i) { }
  }

  lemma InterruptedIsHarmful(s: State) returns (time: nat)
    requires Interrupts(s, Request)
    ensures !Harmless(Handled(s, time))
  {
    var k :| 0 <= k < |s.calls| && s.calls[k] != Entered;
    time := if s.calls[k] == Clocked(s.clock + GRACE) then 1 else 0;
    assert !HarmlessCall(Handled(s, time).calls[k], s.clock + time + GRACE);
  }

  /** A request that is handled before any deadline is set can have its deadline replaced if and only if it is
      handled between another's test and store. */
  lemma RequestMovesExactly(s: State)
    requires s.deadline.None?
    ensures Interrupts(s, Request) <==> exists time: nat :: !NeverMoves(Handled(s, time))
  {
    if Interrupts(s, Request) {
      var time := InterruptedIsHarmful(s);
      NeverMovesExactly(Handled(s, time));
    } else {
      forall time: nat ensures NeverMoves(Handled(s, time)) {
        NeverMovesExactly(Handled(s, time));
      }
    }
  }

  // ----- runs -----

  /** What follows a moment of a run. */
  lemma RestFollows(states: seq<State>, actions: seq<Action>, i: int, j: int)
    requires IsRun(states, actions) && 0 <= i <= j < |states|
    ensures Follows(states[i], states[i..j + 1], actions[i..j])
  {
    var rest, acts := states[i..j + 1], actions[i..j];
    forall k | 0 <= k < |acts| ensures IsStep(rest, acts, k) {
      assert IsStep(states, actions, i + k);
    }
  }

  lemma StaysFrom(states: seq<State>, actions: seq<Action>, i: int, j: int)
    requires IsRun(states, actions) && 0 <= i <= j < |states| && NeverMoves(states[i])
    ensures states[j].deadline == states[i].deadline
  {
    RestFollows(states, actions, i, j);
    assert states[i..j + 1][j - i] == states[j];
  }

  lemma {:induction false} StoppedHasDeadline(states: seq<State>, actions: seq<Action>, i: int)
    requires IsRun(states, actions) && 0 <= i < |states|
    ensures states[i].stopRequested && states[i].deadline.None? ==> exists k :: 0 <= k < |states[i].calls| && states[i].calls[k] != Entered
  {
    if i == 0 {
    } else {
      StoppedHasDeadline(states, actions, i - 1);
      assert IsStep(states, actions, i - 1);
      var s, t := states[i - 1], states[i];
      if t.stopRequested && t.deadline.None? {
        if actions[i - 1] == Test || actions[i - 1] == ReadClock {
          assert t.calls[|t.calls| - 1] != Entered;
        } else {
          var k :| 0 <= k < |s.calls| && s.calls[k] != Entered;
          assert t.calls[k] != Entered;
        }
      }
    }
  }

  /** After the first request_stop has returned with no other in progress the deadline is set and never moves. */
  lemma ReturnedNeverMoves(states: seq<State>, actions: seq<Action>, i: int, j: int)
    requires IsRun(states, actions) && 0 <= i <= j < |states| && states[i].stopRequested && states[i].calls == []
    ensures states[i].deadline.Some? && states[j].deadline == states[i].deadline
  {
    StoppedHasDeadline(states, actions, i);
    NeverMovesExactly(states[i]);
    StaysFrom(states, actions, i, j);
  }

  /** At most the last call is past its test, and only while there is no deadline. */
  predicate OneInProgress(s: State) {
    && (forall i :: 0 <= i < |s.calls| - 1 ==> s.calls[i] == Entered)
    && (s.deadline.Some? ==> forall i :: 0 <= i < |s.calls| ==> s.calls[i] == Entered)
  }

  ghost predicate Uninterrupted(states: seq<State>, actions: seq<Action>) {
    |actions| < |states| && forall k :: 0 <= k < |actions| ==> !Interrupts(states[k], actions[k])
  }

  lemma {:induction false} OneInProgressAlong(states: seq<State>, actions: seq<Action>, i: int)
    requires IsRun(states, actions) && 0 <= i < |states| && Uninterrupted(states, actions)
    ensures OneInProgress(states[i])
  {
    if i == 0 {
    } else {
      OneInProgressAlong(states, actions, i - 1);
      assert IsStep(states, actions, i - 1);
      assert !Interrupts(states[i - 1], actions[i - 1]);
    }
  }

  /** If no request is handled between another's test and store, the deadline never moves at all. */
  lemma UninterruptedNeverMoves(states: seq<State>, actions: seq<Action>, i: int, j: int)
    requires IsRun(states, actions) && 0 <= i <= j < |states| && states[i].deadline.Some? && Uninterrupted(states, actions)
    ensures states[j].deadline == states[i].deadline
  {
    OneInProgressAlong(states, actions, i);
    NeverMovesExactly(states[i]);
    StaysFrom(states, actions, i, j);
  }

  /** A moment of a run, and then another continuation. */
  lemma RunThen(states: seq<State>, actions: seq<Action>, i: nat, rest: seq<State>, acts: seq<Action>)
    requires IsRun(states, actions) && i < |states| && Follows(states[i], rest, acts)
    ensures IsRun(states[..i] + rest, actions[..i] + acts)
  {
    var more, all := states[..i] + rest, actions[..i] + acts;
    forall k | 0 <= k < |all| ensures IsStep(more, all, k) {
      if k < i {
        assert IsStep(states, actions, k);
        assert more[k] == states[k] && more[k + 1] == states[k + 1] && all[k] == actions[k];
      } else {
        assert IsStep(rest, acts, k - i);
        assert more[k] == rest[k - i] && more[k + 1] == rest[k - i + 1] && all[k] == acts[k - i];
      }
    }
  }

  /** Conversely, a run in which a request interrupts another can go on from there to set a deadline and then
      move it. */
  lemma InterruptedCanMove(states: seq<State>, actions: seq<Action>, i: nat) returns (more: seq<State>, acts: seq<Action>)
    requires IsRun(states, actions) && i < |actions| && Interrupts(states[i], actions[i])
    ensures IsRun(more, acts) && i + 5 < |more| && acts[..i + 1] == actions[..i + 1]
    ensures more[i + 5].deadline.Some? && more[|more| - 1].deadline != more[i + 5].deadline
  {
    var s := states[i];
    var time := InterruptedIsHarmful(s);
    var steps := HandlingSteps(s, time);
    var handled := Handled(s, time);
    RunThen(states, actions, i, steps, Handling(time));
    HarmfulMoves(handled);
    var rest: seq<State>, tail: seq<Action> :| Follows(handled, rest, tail) && rest[|rest| - 1].deadline != handled.deadline;
    RunThen(states[..i] + steps, actions[..i] + Handling(time), i + 5, rest, tail);
    more := (states[..i] + steps)[..i + 5] + rest;
    acts := (actions[..i] + Handling(time))[..i + 5] + tail;
    assert acts[i] == Handling(time)[0];
    assert acts[..i + 1] == actions[..i] + [actions[i]] == actions[..i + 1];
  }

  /** A signal handled after the clock was read: its deadline is set, and then replaced by the earlier one. */
  lemma SignalMovesDeadline() returns (states: seq<State>, actions: seq<Action>)
    ensures IsRun(states, actions) && |states| == 10 && !Uninterrupted(states, actions)
    ensures states[8].deadline == Some(7 + GRACE) && states[9].deadline == Some(GRACE)
  {
    actions := [Request, Test, ReadClock, Request, Pass(7), Test, ReadClock, Store, Store];
    states := [INIT,
               State(false, None, 0, [Entered]),
               State(true, None, 0, [Tested]),
               State(true, None, 0, [Clocked(GRACE)]),
               State(true, None, 0, [Clocked(GRACE), Entered]),
               State(true, None, 7, [Clocked(GRACE), Entered]),
               State(true, None, 7, [Clocked(GRACE), Tested]),
               State(true, None, 7, [Clocked(GRACE), Clocked(7 + GRACE)]),
               State(true, Some(7 + GRACE), 7, [Clocked(GRACE)]),
               State(true, Some(GRACE), 7, [])];
    assert states[3].calls[0] != Entered && Interrupts(states[3], actions[3]);
    forall i | 0 <= i < |actions| ensures IsStep(states, actions, i) {
      CallsStep(states[i], actions[i]);
    }
  }

  /** The calls before and after a step. */
  lemma CallsStep(s: State, a: Action)
    requires Enabled(s, a)
    ensures a == Request ==> Apply(s, a).calls == s.calls + [Entered]
    ensures |s.calls| == 1 && a != Request && !a.Pass? ==> Below(s) == []
    ensures |s.calls| == 2 && a != Request && !a.Pass? ==> Below(s) == [s.calls[0]]
  {
  }
}
