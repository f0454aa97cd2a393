/** NativeSupervisor: launch, watch, reap and drain two parser runs against any dispatcher.
    The dispatcher's documents, the clocks, signals and the outcomes of system calls are arbitrary;
    a run is observed for finitely many status readings. */
module Supervisor {
  import opened Options
  import opened SupervisorStatus
  import opened SupervisorLog
  import opened SupervisorRuns

  const HANDOFF_TIMEOUT := 5 * SECOND
  const READY_TIMEOUT := 45 * SECOND

  /** The observation of the run ended; not a failure of the program. */
  const CUT := "OBSERVATION_ENDED"
  const STOP := "STOP_REQUESTED"

  datatype Outcome<T> = Done(value: T) | Failed(code: string)

  /** cleanup_authorized */
  predicate CleanupAuthorized(status: Document, role: string, epoch: string, handoff: string, exited: bool, empty: bool) {
    if !exited || !empty || status.state == "red" then false
    else if status.epoch != epoch then false
    else role in status.roles && status.roles[role].state == "reaped" && status.roles[role].handoff == Some(handoff)
  }

  /** After a moment of the log the handoff's process was seen alive or its cgroup populated. */
  ghost predicate Withheld(log: seq<Event>, start: nat, handoff: string) {
    exists k :: start <= k < |log| && log[k].Checked? && log[k].handoff == handoff && !(log[k].exited && log[k].empty)
  }

  lemma WithheldLater(log: seq<Event>, later: seq<Event>, start: nat, first: nat, handoff: string)
    requires Withheld(log, start, handoff) && log <= later && first <= start
    ensures Withheld(later, first, handoff)
  {
    var k :| start <= k < |log| && log[k].Checked? && log[k].handoff == handoff && !(log[k].exited && log[k].empty);
    assert later[k] == log[k];
  }

  /** Of the runs no longer pending, each still owned that the snapshot shows reaped was seen alive or populated. */
  ghost predicate Excused(log: seq<Event>, start: nat, owned: map<string, OwnedRun>, pending: set<string>, snapshot: Document) {
    forall role {:trigger ExcusedRun(log, start, owned, snapshot, role)} ::
      role in owned && role !in pending ==> ExcusedRun(log, start, owned, snapshot, role)
  }

  ghost predicate ExcusedRun(log: seq<Event>, start: nat, owned: map<string, OwnedRun>, snapshot: Document, role: string)
    requires role in owned
  {
    ShowsReaped(snapshot, role, owned[role].handoff, owned[role].epoch) ==> Withheld(log, start, owned[role].handoff)
  }

  /** One more run was looked at. */
  lemma ExcusedNext(log: seq<Event>, later: seq<Event>, start: nat, owned: map<string, OwnedRun>, after: map<string, OwnedRun>,
                    pending: set<string>, role: string, snapshot: Document)
    requires Excused(log, start, owned, pending, snapshot) && log <= later && start <= |log| && after.Keys <= owned.Keys
    requires forall r :: r in after && r != role ==> after[r] == owned[r]
    requires role in after && ShowsReaped(snapshot, role, after[role].handoff, after[role].epoch) ==> Withheld(later, |log|, after[role].handoff)
    ensures Excused(later, start, after, pending - {role}, snapshot)
  {
    forall r | r in after && r !in pending - {role} ensures ExcusedRun(later, start, after, snapshot, r) {
      if ShowsReaped(snapshot, r, after[r].handoff, after[r].epoch) {
        if r == role {
          WithheldLater(later, later, |log|, start, after[r].handoff);
        } else {
          assert ExcusedRun(log, start, owned, snapshot, r);
          WithheldLater(log, later, start, start, after[r].handoff);
        }
      }
    }
  }

  /** The document is of the run's epoch and shows its handoff, not red. */
  predicate Fits(snapshot: Document, role: string, run: OwnedRun) {
    && snapshot.epoch == run.epoch && role in snapshot.roles && snapshot.roles[role].state != "red"
    && snapshot.roles[role].handoff == Some(run.handoff)
  }

  lemma DoneIsBool(outcome: Outcome<bool>)
    requires outcome.Done?
    ensures outcome == Done(true) || outcome == Done(false)
  {
    var value := outcome.value;
    assert outcome == Done(value);
  }

  /** Outcomes that a stop request, a deadline or a state out of turn decides, and nothing else. */
  predicate Decided(code: string) {
    code == STOP || code == "STATUS_TRANSITION_TIMEOUT" || code == "REAP_STATUS_TIMEOUT" || code == "SHUTDOWN_UNREAPED"
    || code == "STATUS_ROLE_TRANSITION_INVALID"
  }

  lemma FaultIsNotDecided(document: Document, now: int)
    ensures !Decided(StatusFault(document, now))
  {
  }

  /** The last event of the log, after a moment of it, accepted a document that shows what a launch waits for. */
  ghost predicate ShownLast(log: seq<Event>, start: nat, d: Document, role: string, handoff: string, expected: string, runEpoch: string, minSequence: int) {
    && |log| > start && log[|log| - 1] == Accepted(d) && role in d.roles
    && Observed(d.roles[role].state, expected) && d.roles[role].handoff == Some(handoff)
    && d.epoch == runEpoch && d.sequence > minSequence
  }

  /** The event accepted a document of the epoch that is not the one waited for. */
  predicate MissedAt(e: Event, role: string, handoff: string, expected: string, runEpoch: string, minSequence: int) {
    && e.Accepted? && e.document.epoch == runEpoch && role in e.document.roles
    && !(e.document.roles[role].handoff == Some(handoff) && e.document.sequence > minSequence
         && ((e.document.roles[role].state == expected && expected != "empty" && expected != "reaped")
             || (expected == "ready" && e.document.roles[role].state in {"busy", "reaped"})))
  }

  ghost predicate MissedShown(log: seq<Event>, start: nat, role: string, handoff: string, expected: string, runEpoch: string, minSequence: int) {
    exists k :: start <= k < |log| && MissedAt(log[k], role, handoff, expected, runEpoch, minSequence)
  }

  lemma MissedLater(log: seq<Event>, later: seq<Event>, start: nat, role: string, handoff: string, expected: string, runEpoch: string, minSequence: int)
    requires log <= later && |log| > start && MissedAt(log[|log| - 1], role, handoff, expected, runEpoch, minSequence)
    ensures MissedShown(later, start, role, handoff, expected, runEpoch, minSequence)
  {
    assert later[|log| - 1] == log[|log| - 1];
  }

  /** After a moment of the log a running dispatcher showed the handoff ready, or busy or reaped already. */
  ghost predicate ReadyShown(log: seq<Event>, start: nat, role: string, handoff: string) {
    exists k :: start <= k < |log| && ReadyAt(log[k], role, handoff)
  }

  predicate ReadyAt(e: Event, role: string, handoff: string) {
    && e.Accepted? && e.document.state == "running" && role in e.document.roles
    && e.document.roles[role].handoff == Some(handoff) && e.document.roles[role].state in {"ready", "busy", "reaped"}
  }

  /** After a moment of the log a status showed the role neither empty nor reaped. */
  ghost predicate TakenShown(log: seq<Event>, start: nat, role: string) {
    exists k :: start <= k < |log| && TakenAt(log[k], role)
  }

  predicate TakenAt(e: Event, role: string) {
    e.Accepted? && role in e.document.roles && e.document.roles[role].state !in {"empty", "reaped"}
  }

  lemma TakenStays(log: seq<Event>, later: seq<Event>, start: nat)
    requires log <= later && start <= |log|
    ensures forall role :: TakenShown(log, start, role) ==> TakenShown(later, start, role)
    ensures forall role :: TakenShown(later, |log|, role) ==> TakenShown(later, start, role)
  {
    forall role | TakenShown(log, start, role) ensures TakenShown(later, start, role) {
      TakenLater(log, later, start, role);
    }
  }

  lemma TakenLater(log: seq<Event>, later: seq<Event>, start: nat, role: string)
    requires TakenShown(log, start, role) && log <= later
    ensures TakenShown(later, start, role)
  {
    var k :| start <= k < |log| && TakenAt(log[k], role);
    assert later[k] == log[k];
  }

  /** The state a waiting launch accepts; a consumed READY shows as busy or reaped. */
  predicate Observed(state: string, expected: string) {
    state == expected || (expected == "ready" && (state == "busy" || state == "reaped"))
  }

  class NativeSupervisor {
    const status: StatusSequence
    const ids: seq<string>
    var next: nat
    var budget: nat
    var clock: int
    var epoch: Option<string>
    var stopRequested: bool
    var shutdownDeadline: Option<int>
    var signals: nat
    ghost var depth: nat
    var active: map<string, OwnedRun>
    ghost var log: seq<Event>

    /** ids: the handoff ids the random source will yield, pairwise distinct; signals: how many are to come. */
    constructor (ids: seq<string>, budget: nat, clock: int, signals: nat)
      requires forall i, j :: 0 <= i < j < |ids| ==> ids[i] != ids[j]
      ensures Valid() && fresh(this) && fresh(status) && log == [] && active == map[] && !stopRequested
    {
      status := new StatusSequence();
      this.ids, this.next, this.budget, this.clock := ids, 0, budget, clock;
      epoch, stopRequested, shutdownDeadline, active, log := None, false, None, map[], [];
      this.signals, depth := signals, 0;
    }

    /** What holds at every moment but for the shutdown deadline. */
    ghost predicate Core()
      reads this`epoch, this`log, this`active, this`next, status
    {
      && status.Valid() && epoch == status.epoch && status.lastDocument == LastDocument(log)
      && Sound(log) && RunsAgree(log, active)
      && IdsFresh(log, ids, next) && forall i, j :: 0 <= i < j < |ids| ==> ids[i] != ids[j]
    }

    /** What also holds while request_stop is in progress. */
    ghost predicate Steady()
      reads this`epoch, this`log, this`active, this`next, this`stopRequested, this`shutdownDeadline, this`depth, status
    {
      Core() && StopAgrees(log, stopRequested, shutdownDeadline, depth)
    }

    ghost predicate Valid()
      reads this`epoch, this`log, this`active, this`next, this`stopRequested, this`shutdownDeadline, this`depth, status
    {
      Steady() && depth == 0
    }

    /** A document the supervisor accepted. */
    ghost predicate Seen(document: Document)
      reads this`log
    {
      Accepted(document) in log && document.roles.Keys == ROLES && document.state != "red"
    }

    /** Append an act that changes neither the runs nor a deadline. */
    ghost method Record(e: Event)
      requires Valid() && Neutral(e) && !IsQuiet(e) && Allowed(log, e)
      requires forall i :: next <= i < |ids| ==> !Mentions(e, ids[i])
      modifies this`log
      ensures Valid() && log == old(log) + [e]
    {
      SoundSnoc(log, e);
      NeutralKeepsRuns(log, e, active);
      IdsSnoc(log, e, ids, next);
      OwnedSnoc(log, e, "");
      SnocMembers(log, e);
      log := log + [e];
    }

    /** The run is past its reap deadline. */
    predicate Overran(role: string)
      reads this`active, this`clock
    {
      role in active && active[role].reapDeadline.Some? && clock >= active[role].reapDeadline.value
    }

    /** A stop or a deadline has its reason. */
    ghost predicate Justified(fault: string)
      reads this`active, this`clock, this`shutdownDeadline
    {
      Decided(fault) ==>
        || fault == STOP || fault == "STATUS_TRANSITION_TIMEOUT" || fault == "STATUS_ROLE_TRANSITION_INVALID"
        || (fault == "REAP_STATUS_TIMEOUT" && exists role :: Overran(role)) || (fault == "SHUTDOWN_UNREAPED" && Overdue())
    }

    /** The shutdown deadline has passed with a run still owned. */
    predicate Overdue()
      reads this`active, this`clock, this`shutdownDeadline
    {
      active != map[] && shutdownDeadline.Some? && clock >= shutdownDeadline.value
    }

    // ----- the environment -----

    /** time.monotonic: any clock that does not go back. */
    method Monotonic() returns (now: int)
      modifies this`clock
      ensures now == clock >= old(clock)
    {
      now :| now >= clock;
      clock := now;
    }

    /** An event of a stop request enters the log. */
    ghost method RecordQuiet(e: Event)
      requires Core() && IsQuiet(e) && !e.Accepted? && Allowed(log, e)
      modifies this`log
      ensures Core() && log == old(log) + [e] && QuietlyGrows(old(log), log)
    {
      SoundSnoc(log, e);
      NeutralKeepsRuns(log, e, active);
      IdsSnoc(log, e, ids, next);
      OwnedSnoc(log, e, "");
      log := log + [e];
    }

    /** The flag of request_stop is set for the first time. */
    method Flag()
      requires Steady() && depth > 0 && !stopRequested
      modifies this`log, this`stopRequested
      ensures Steady() && stopRequested && log == old(log) + [StopRequested]
    {
      StopAgreesNext(log, stopRequested, shutdownDeadline, depth, StopRequested);
      RecordQuiet(StopRequested);
      stopRequested := true;
    }

    /** The assignment of request_stop, of a deadline it computed before. */
    method Store(deadline: int)
      requires Steady() && stopRequested && StopReturned !in log && depth > 0
      modifies this`log, this`shutdownDeadline
      ensures Steady() && shutdownDeadline == Some(deadline) && StopReturned !in log && QuietlyGrows(old(log), log)
    {
      StopAgreesNext(log, stopRequested, shutdownDeadline, depth, DeadlineStored(deadline));
      RecordQuiet(DeadlineStored(deadline));
      shutdownDeadline := Some(deadline);
    }

    /** One call of request_stop ends. */
    ghost method Return()
      requires Steady() && depth > 0 && stopRequested && shutdownDeadline.Some?
      modifies this`log, this`depth
      ensures Steady() && depth == old(depth) - 1 && QuietlyGrows(old(log), log)
      ensures depth > 0 || StopReturned in old(log) ==> log == old(log)
    {
      if depth == 1 && StopReturned !in log {
        StopAgreesNext(log, stopRequested, shutdownDeadline, depth, StopReturned);
        RecordQuiet(StopReturned);
      }
      depth := depth - 1;
    }

    /** request_stop. It is also the handler of signals, so another call may run to its end between the test
        of the deadline and the assignment; the assignment then replaces the deadline of that call. */
    method RequestStop()
      requires Steady()
      modifies this`clock, this`log, this`stopRequested, this`shutdownDeadline, this`signals, this`depth
      ensures Steady() && stopRequested && shutdownDeadline.Some? && depth == old(depth) && QuietlyGrows(old(log), log)
      ensures clock >= old(clock) && signals <= old(signals)
      ensures StopReturned in old(log) ==> shutdownDeadline == old(shutdownDeadline)
      ensures old(depth) > 0 ==> (StopReturned in log <==> StopReturned in old(log))
      ensures old(shutdownDeadline) == None ==>
                old(clock) + SHUTDOWN_GRACE <= shutdownDeadline.value <= clock + SHUTDOWN_GRACE
      decreases signals, 1
    {
      depth := depth + 1;
      if !stopRequested {
        Flag();
      }
      ghost var flagged := log;
      if shutdownDeadline == None {
        SetDeadline();
      }
      ghost var stored := log;
      Return();
      QuietStop(old(log), flagged, stored, log);
    }

    /** The flag, the deadline and the return of a request are all of the environment. */
    lemma QuietStop(before: seq<Event>, flagged: seq<Event>, stored: seq<Event>, after: seq<Event>)
      requires flagged == before || flagged == before + [StopRequested]
      requires QuietlyGrows(flagged, stored) && QuietlyGrows(stored, after)
      ensures QuietlyGrows(before, after)
      ensures StopReturned in before ==> StopReturned in after
    {
      assert QuietlyGrows(before, flagged);
      QuietTwice(before, flagged, stored);
      QuietTwice(before, stored, after);
      QuietChangesNothing(before, after);
    }

    /** The body of the test of request_stop. */
    method SetDeadline()
      requires Steady() && stopRequested && depth > 0 && StopReturned !in log
      modifies this`clock, this`log, this`stopRequested, this`shutdownDeadline, this`signals, this`depth
      ensures Steady() && stopRequested && depth == old(depth) && StopReturned !in log && QuietlyGrows(old(log), log)
      ensures clock >= old(clock) && signals <= old(signals) && shutdownDeadline.Some?
      ensures old(clock) + SHUTDOWN_GRACE <= shutdownDeadline.value <= clock + SHUTDOWN_GRACE
      decreases signals, 0, 2
    {
      var now := Clocked();
      ghost var clocked := log;
      Store(now + SHUTDOWN_GRACE);
      QuietTwice(old(log), clocked, log);
    }

    /** Between the test and the assignment of request_stop: the clock is read, and signals may be handled. */
    method Clocked() returns (now: int)
      requires Steady() && stopRequested && depth > 0 && StopReturned !in log
      modifies this`clock, this`log, this`stopRequested, this`shutdownDeadline, this`signals, this`depth
      ensures Steady() && stopRequested && depth == old(depth) && StopReturned !in log && QuietlyGrows(old(log), log)
      ensures old(clock) <= now <= clock && signals <= old(signals)
      decreases signals, 0, 1
    {
      Interrupt();
      ghost var before := log;
      now := Monotonic();
      Interrupt();
      QuietTwice(old(log), before, log);
    }

    /** Signals may arrive here, one after the other. */
    method Interrupt()
      requires Steady()
      modifies this`clock, this`log, this`stopRequested, this`shutdownDeadline, this`signals, this`depth
      ensures Steady() && depth == old(depth) && QuietlyGrows(old(log), log)
      ensures clock >= old(clock) && signals <= old(signals)
      ensures old(stopRequested) ==> stopRequested
      ensures StopReturned in old(log) ==> shutdownDeadline == old(shutdownDeadline)
      ensures old(depth) > 0 ==> (StopReturned in log <==> StopReturned in old(log))
      ensures depth == 0 && old(stopRequested) ==> shutdownDeadline == old(shutdownDeadline)
      decreases signals, 0, 0
    {
      var signal: bool := *;
      if signal && signals > 0 {
        signals := signals - 1;
        RequestStop();
        ghost var handled := log;
        QuietChangesNothing(old(log), log);
        Interrupt();
        QuietTwice(old(log), handled, log);
      }
    }

    /** A system call or an identity check, which may fail with its own code, and a signal during it. */
    method Attempt(code: string) returns (fault: string)
      requires Valid() && code != "" && !Decided(code)
      modifies this`clock, this`log, this`stopRequested, this`shutdownDeadline, this`signals, this`depth
      ensures Valid() && QuietlyGrows(old(log), log) && (fault == "" || fault == code)
      ensures old(stopRequested) ==> stopRequested && shutdownDeadline == old(shutdownDeadline)
      ensures !Decided(fault)
    {
      Interrupt();
      var ok: bool := *;
      fault := if ok then "" else code;
    }

    // ----- status readings -----

    /** The accepted document enters the log. */
    ghost method RecordAccepted(document: Document)
      requires status.Valid() && status.lastDocument == Some(document) && epoch == status.epoch
      requires Continues(LastDocument(log), document) && depth == 0
      requires Sound(log) && StopAgrees(log, stopRequested, shutdownDeadline, depth) && RunsAgree(log, active)
      requires IdsFresh(log, ids, next) && forall i, j :: 0 <= i < j < |ids| ==> ids[i] != ids[j]
      modifies this`log
      ensures Valid() && log == old(log) + [Accepted(document)]
    {
      var e := Accepted(document);
      SoundSnoc(log, e);
      NeutralKeepsRuns(log, e, active);
      IdsSnoc(log, e, ids, next);
      OwnedSnoc(log, e, "");
      SnocMembers(log, e);
      log := log + [e];
    }

    /** _read_current_status and StatusReader.read: the next acceptable document. */
    method ReadCurrentStatus() returns (outcome: Outcome<Document>)
      requires Valid()
      modifies this`budget, this`clock, this`epoch, this`log, this`stopRequested, this`shutdownDeadline, this`signals, this`depth, status
      ensures Valid() && QuietlyGrows(old(log), log)
      ensures budget < old(budget) || (budget == old(budget) && outcome == Failed(CUT))
      ensures outcome.Done? ==> outcome.value.state != "red" && Seen(outcome.value)
      ensures outcome.Done? ==> log != [] && log[|log| - 1] == Accepted(outcome.value) && |log| > |old(log)|
      ensures outcome.Failed? ==> !Decided(outcome.code) && outcome.code != ""
      ensures old(stopRequested) ==> stopRequested && shutdownDeadline == old(shutdownDeadline)
      ensures old(budget) > 0 ==> budget == old(budget) - 1
    {
      if budget == 0 {
        return Failed(CUT);
      }
      budget := budget - 1;
      var fault := Attempt("STATUS_UNAVAILABLE");
      if fault != "" {
        return Failed(fault);
      }
      var document: Document := *;
      var wall: int := *;
      ghost var before := log;
      fault := Judge(document, wall);
      QuietTwice(old(log), before, log);
      outcome := if fault == "" then Done(document) else Failed(fault);
    }

    /** A document as it was read: validated, taken into the sequence, and refused if red. */
    method Judge(document: Document, wall: int) returns (fault: string)
      requires Valid()
      modifies this`epoch, this`log, status
      ensures Valid() && QuietlyGrows(old(log), log) && !Decided(fault)
      ensures fault == "" ==> document.state != "red" && document.roles.Keys == ROLES && log == old(log) + [Accepted(document)]
      ensures StatusFault(document, wall) != "" ==> fault == StatusFault(document, wall)
      ensures StatusFault(document, wall) == "" && old(epoch).None? && document.state != "running" ==>
                log == old(log) && fault == if document.state == "red" then "DISPATCHER_RED" else "DISPATCHER_NOT_RUNNING"
      ensures fault == "" <==>
              && StatusFault(document, wall) == "" && document.state != "red" && (old(epoch).None? ==> document.state == "running")
              && Continues(LastDocument(old(log)), document)
      ensures StatusFault(document, wall) == "" && (old(epoch).None? ==> document.state == "running") && Continues(LastDocument(old(log)), document) ==>
                log == old(log) + [Accepted(document)] && (document.state == "red" ==> fault == "DISPATCHER_RED")
    {
      fault := StatusFault(document, wall);
      FaultIsNotDecided(document, wall);
      if fault != "" {
        return;
      }
      if epoch == None && status.epoch == None {
        if document.state == "red" {
          return "DISPATCHER_RED";
        }
        if document.state != "running" {
          return "DISPATCHER_NOT_RUNNING";
        }
      }
      fault := Take(document);
      if fault == "" && document.state == "red" {
        fault := "DISPATCHER_RED";
      }
    }

    /** StatusSequence.accept, and the epoch the supervisor pins. */
    method Take(document: Document) returns (fault: string)
      requires Valid() && document.sequence > 0
      modifies this`epoch, this`log, status
      ensures Valid() && QuietlyGrows(old(log), log) && !Decided(fault)
      ensures fault == "" <==> Continues(LastDocument(old(log)), document)
      ensures log == if fault == "" then old(log) + [Accepted(document)] else old(log)
    {
      fault := status.Accept(document);
      if fault != "" {
        return;
      }
      if epoch == None {
        epoch := Some(document.epoch);
      }
      RecordAccepted(document);
      if document.epoch != epoch.value {
        fault := "STATUS_EPOCH_CHANGED";
      }
    }

    /** _wait_status_role: poll until the role shows the expected state of this handoff above a sequence. */
    method WaitStatusRole(role: string, handoff: string, expected: string, runEpoch: string, timeout: int, minSequence: int)
      returns (outcome: Outcome<Document>)
      requires Valid() && role in ROLES
      modifies this`budget, this`clock, this`epoch, this`log, this`stopRequested, this`shutdownDeadline, this`signals, this`depth, status
      ensures Valid() && QuietlyGrows(old(log), log) && budget <= old(budget)
      ensures outcome.Failed? ==> outcome.code != "" && (outcome.code == STOP ==> stopRequested)
      ensures outcome.Done? ==> ShownLast(log, |old(log)|, outcome.value, role, handoff, expected, runEpoch, minSequence)
      ensures outcome == Failed("STATUS_TRANSITION_TIMEOUT") ==> clock >= old(clock) + timeout
      ensures outcome.Failed? && Decided(outcome.code) ==> outcome.code == STOP || outcome.code == "STATUS_TRANSITION_TIMEOUT"
      ensures old(stopRequested) ==> outcome.Failed? && stopRequested && shutdownDeadline == old(shutdownDeadline)
    {
      var now := Monotonic();
      var deadline := now + timeout;
      while true
        invariant Valid() && QuietlyGrows(old(log), log) && budget <= old(budget) && deadline >= old(clock) + timeout
        invariant old(stopRequested) ==> stopRequested && shutdownDeadline == old(shutdownDeadline)
        decreases budget
      {
        ghost var before := log;
        var turn := WaitTurn(role, handoff, expected, runEpoch, deadline, minSequence);
        QuietTwice(old(log), before, log);
        if turn.Some? {
          return turn.value;
        }
      }
    }

    /** One turn of the wait: over for time, stopped, one reading, or not over yet. */
    method WaitTurn(role: string, handoff: string, expected: string, runEpoch: string, deadline: int, minSequence: int)
      returns (turn: Option<Outcome<Document>>)
      requires Valid() && role in ROLES
      modifies this`budget, this`clock, this`epoch, this`log, this`stopRequested, this`shutdownDeadline, this`signals, this`depth, status
      ensures Valid() && QuietlyGrows(old(log), log) && budget <= old(budget) && (turn.Some? || budget < old(budget))
      ensures turn.Some? && turn.value.Failed? ==> turn.value.code != "" && (turn.value.code == STOP ==> stopRequested)
      ensures turn.Some? && turn.value.Done? ==> ShownLast(log, |old(log)|, turn.value.value, role, handoff, expected, runEpoch, minSequence)
      ensures turn == Some(Failed("STATUS_TRANSITION_TIMEOUT")) ==> clock >= deadline
      ensures old(clock) >= deadline ==> turn == Some(Failed("STATUS_TRANSITION_TIMEOUT"))
      ensures turn.Some? && turn.value.Failed? && Decided(turn.value.code) ==> turn.value.code == STOP || turn.value.code == "STATUS_TRANSITION_TIMEOUT"
      ensures old(stopRequested) ==> turn.Some? && turn.value.Failed? && stopRequested && shutdownDeadline == old(shutdownDeadline)
      ensures turn == None ==> MissedShown(log, |old(log)|, role, handoff, expected, runEpoch, minSequence)
    {
      var now := Monotonic();
      if now >= deadline {
        return Some(Failed("STATUS_TRANSITION_TIMEOUT"));
      }
      if stopRequested {
        return Some(Failed(STOP));
      }
      var polled;
      ghost var read;
      polled, read := PollRole(role, handoff, expected, runEpoch, minSequence);
      if polled.Failed? {
        return Some(Failed(polled.code));
      }
      if polled.value.Some? {
        return Some(Done(polled.value.value));
      }
      assert MissedAt(log[|log| - 1], role, handoff, expected, runEpoch, minSequence);
      ghost var before := log;
      Interrupt();
      QuietTwice(old(log), before, log);
      MissedLater(before, log, |old(log)|, role, handoff, expected, runEpoch, minSequence);
      turn := None;
    }

    /** One reading while a launch waits: the document waited for, none yet, or a failure. */
    method PollRole(role: string, handoff: string, expected: string, runEpoch: string, minSequence: int)
      returns (outcome: Outcome<Option<Document>>, ghost read: Option<Document>)
      requires Valid() && role in ROLES && !stopRequested
      modifies this`budget, this`clock, this`epoch, this`log, this`stopRequested, this`shutdownDeadline, this`signals, this`depth, status
      ensures Valid() && QuietlyGrows(old(log), log) && budget <= old(budget)
      ensures outcome.Failed? ==> outcome.code != "" && (Decided(outcome.code) ==> outcome.code == STOP && stopRequested)
      ensures outcome.Done? ==> budget < old(budget)
      ensures outcome.Done? && outcome.value.Some? ==> ShownLast(log, |old(log)|, outcome.value.value, role, handoff, expected, runEpoch, minSequence)
      ensures outcome.Done? ==>
                && log != [] && log[|log| - 1].Accepted?
                && var d := log[|log| - 1].document;
                && role in d.roles && d.epoch == runEpoch && d.state != "stopping"
                && (outcome.value.Some? <==>
                    && d.roles[role].handoff == Some(handoff) && d.sequence > minSequence
                    && ((d.roles[role].state == expected && expected != "empty" && expected != "reaped")
                        || (expected == "ready" && (d.roles[role].state == "busy" || d.roles[role].state == "reaped"))))
      ensures outcome.Done? ==> |log| > |old(log)|
      ensures read.Some? ==> role in read.value.roles
      ensures read.Some? && outcome.Failed? ==>
                outcome.code ==
                if read.value.state == "stopping" then STOP
                else if read.value.epoch != runEpoch then "STATUS_EPOCH_CHANGED"
                else if read.value.roles[role].state == "red" then "DISPATCHER_RED"
                else "STATUS_HANDOFF_MISMATCH"
      ensures read.Some? ==>
                (outcome.Failed? <==>
                 || read.value.state == "stopping" || read.value.epoch != runEpoch || read.value.roles[role].state == "red"
                 || (read.value.roles[role].state !in {"empty", "reaped"} && read.value.roles[role].handoff != Some(handoff)))
      ensures outcome.Done? ==> read == Some(log[|log| - 1].document)
    {
      read := None;
      var reading := ReadCurrentStatus();
      if reading.Failed? {
        return Failed(reading.code), read;
      }
      var snapshot := reading.value;
      read := Some(snapshot);
      if snapshot.state == "stopping" {
        ghost var before := log;
        RequestStop();
        QuietTwice(old(log), before, log);
        return Failed(STOP), read;
      }
      if snapshot.epoch != runEpoch {
        return Failed("STATUS_EPOCH_CHANGED"), read;
      }
      var current := snapshot.roles[role];
      if current.state == "red" {
        return Failed("DISPATCHER_RED"), read;
      }
      if (current.state != "empty" && current.state != "reaped")
         || (expected == "ready" && current.state == "reaped" && current.handoff == Some(handoff)) {
        if current.handoff != Some(handoff) {
          return Failed("STATUS_HANDOFF_MISMATCH"), read;
        }
        if Observed(current.state, expected) && snapshot.sequence > minSequence {
          return Done(Some(snapshot)), read;
        }
      }
      return Done(None), read;
    }

    // ----- launching -----

    /** No later draw of the random source is this id. */
    ghost predicate Drawn(handoff: string)
      reads this`next
    {
      forall i :: next <= i < |ids| ==> ids[i] != handoff
    }

    lemma OwnedIsDrawn(role: string)
      requires Valid() && role in active
      ensures Drawn(active[role].handoff)
    {
      assert RunAgrees(log, role, active[role]);
      RegisteredIsMentioned(log, active[role]);
    }

    /** A registration under the next id of the random source is allowed, and the later ids stay fresh. */
    lemma RegistrationIsSound(role: string, baseline: Document)
      requires Valid() && role in ROLES && role !in active && next < |ids| && Seen(baseline)
      requires LastAct(log) == Some(LaunchBegun(role)) && FreeAt(baseline, role, baseline.epoch, baseline.sequence)
      ensures Fresh(log, ids[next]) && Started(role, ids[next]) !in log
      ensures var more := log + [Registered(role, ids[next], baseline.epoch, baseline.sequence)];
              Sound(more) && IdsFresh(more, ids, next + 1)
    {
      var e := Registered(role, ids[next], baseline.epoch, baseline.sequence);
      assert Fresh(log, ids[next]);
      assert Mentions(Started(role, ids[next]), ids[next]);
      assert Accepted(baseline) in log;
      SoundSnoc(log, e);
      IdsSnoc(log, e, ids, next + 1);
    }

    /** The run becomes owned. */
    method Register(role: string, baseline: Document) returns (handoff: string)
      requires Valid() && role in ROLES && role !in active && next < |ids| && Seen(baseline)
      requires LastAct(log) == Some(LaunchBegun(role)) && FreeAt(baseline, role, baseline.epoch, baseline.sequence)
      modifies this`next, this`active, this`log
      ensures Valid() && role in active && active == old(active)[role := active[role]]
      ensures active[role] == OwnedRun(role, handoff, baseline.epoch, false, None)
      ensures Launching(role, handoff, baseline.epoch, baseline.sequence)
      ensures old(log) <= log
    {
      handoff := ids[next];
      ghost var e := Registered(role, handoff, baseline.epoch, baseline.sequence);
      RegistrationIsSound(role, baseline);
      RegistrationAddsRun(log, active, role, handoff, baseline.epoch, baseline.sequence);
      OwnedSnoc(log, e, "");
      SnocMembers(log, e);
      next := next + 1;
      log := log + [e];
      active := active[role := OwnedRun(role, handoff, baseline.epoch, false, None)];
    }

    /** What holds of a registered run while its launch goes on. */
    ghost predicate Launching(role: string, handoff: string, runEpoch: string, baseline: int)
      reads this`active, this`log, this`next
    {
      && role in active && active[role].handoff == handoff && role in ROLES && Drawn(handoff)
      && Registered(role, handoff, runEpoch, baseline) in log && Started(role, handoff) !in log
    }

    lemma StillLaunching(before: seq<Event>, role: string, handoff: string, runEpoch: string, baseline: int)
      requires QuietlyGrows(before, log)
      requires Registered(role, handoff, runEpoch, baseline) in before && Started(role, handoff) !in before
      ensures Registered(role, handoff, runEpoch, baseline) in log && Started(role, handoff) !in log
      ensures forall e :: e in before ==> e in log
    {
      QuietChangesNothing(before, log);
    }

    /** A failed or finished step of a launch that only the environment interleaved with. */
    method LaunchStep(code: string, role: string, handoff: string, ghost runEpoch: string, ghost baseline: int) returns (fault: string)
      requires Valid() && Launching(role, handoff, runEpoch, baseline) && code != "" && !Decided(code)
      modifies this`clock, this`log, this`stopRequested, this`shutdownDeadline, this`signals, this`depth
      ensures Valid() && Launching(role, handoff, runEpoch, baseline) && (fault == "" || fault == code)
      ensures forall e :: e in old(log) ==> e in log
      ensures old(stopRequested) ==> stopRequested
      ensures old(log) <= log
      ensures !Decided(fault)
    {
      fault := Attempt(code);
      StillLaunching(old(log), role, handoff, runEpoch, baseline);
    }

    ghost method RecordCreated(role: string, handoff: string, runEpoch: string, baseline: int)
      requires Valid() && Launching(role, handoff, runEpoch, baseline)
      modifies this`log
      ensures Valid() && Launching(role, handoff, runEpoch, baseline) && Created(handoff) in log && old(log) <= log
    {
      Record(Created(handoff));
      SnocMembers(old(log), Created(handoff));
    }

    ghost method RecordAcked(role: string, handoff: string, runEpoch: string, baseline: int)
      requires Valid() && Launching(role, handoff, runEpoch, baseline) && Created(handoff) in log
      modifies this`log
      ensures Valid() && Launching(role, handoff, runEpoch, baseline) && log == old(log) + [Acked(handoff)]
    {
      Record(Acked(handoff));
      SnocMembers(old(log), Acked(handoff));
    }

    ghost method RecordStarted(role: string, handoff: string, runEpoch: string, baseline: int, a: int, i: int)
      requires Valid() && Launching(role, handoff, runEpoch, baseline)
      requires StartProof(log, role, handoff, a, i, runEpoch, baseline)
      modifies this`log
      ensures Valid() && Started(role, handoff) in log && old(log) <= log
    {
      Record(Started(role, handoff));
      SnocMembers(old(log), Started(role, handoff));
    }

    lemma ProofAfterWait(acked: seq<Event>, shown: seq<Event>, role: string, handoff: string, runEpoch: string, baseline: int)
      requires acked != [] && acked[|acked| - 1] == Acked(handoff) && QuietlyGrows(acked, shown) && |acked| < |shown|
      requires shown[|shown| - 1].Accepted? && HandedOff(shown[|shown| - 1].document, role, handoff, runEpoch, baseline)
      requires QuietlyGrows(shown, log) && Registered(role, handoff, runEpoch, baseline) in log
      ensures StartProof(log, role, handoff, |acked| - 1, |shown| - 1, runEpoch, baseline)
    {
      assert shown[|acked| - 1] == acked[|acked| - 1];
      assert log[|shown| - 1] == shown[|shown| - 1];
    }

    /** Wait for the fresh status that shows the acknowledged handoff. */
    method AwaitHandedOff(role: string, handoff: string, runEpoch: string, baseline: int) returns (fault: string, ghost i: int)
      requires Valid() && Launching(role, handoff, runEpoch, baseline) && log != [] && log[|log| - 1] == Acked(handoff)
      modifies this`budget, this`clock, this`epoch, this`log, this`stopRequested, this`shutdownDeadline, this`signals, this`depth, status
      ensures Valid() && Launching(role, handoff, runEpoch, baseline) && budget <= old(budget) && old(log) <= log
      ensures fault == "" ==> StartProof(log, role, handoff, |old(log)| - 1, i, runEpoch, baseline)
      ensures old(stopRequested) ==> fault != ""
      ensures Decided(fault) ==> (fault == STOP && stopRequested) || fault == "STATUS_TRANSITION_TIMEOUT"
    {
      ghost var acked := log;
      var waited := WaitStatusRole(role, handoff, "handed_off", runEpoch, HANDOFF_TIMEOUT, baseline);
      i := |log| - 1;
      StillLaunching(acked, role, handoff, runEpoch, baseline);
      if waited.Failed? {
        return waited.code, i;
      }
      fault := Confirm(role, handoff, runEpoch, baseline, waited.value, acked);
    }

    /** The handed-off run goes on exactly under a running dispatcher. */
    method Confirm(role: string, handoff: string, ghost runEpoch: string, ghost baseline: int, shown: Document, ghost acked: seq<Event>)
      returns (fault: string)
      requires Valid() && Launching(role, handoff, runEpoch, baseline)
      requires acked != [] && acked[|acked| - 1] == Acked(handoff) && QuietlyGrows(acked, log)
      requires ShownLast(log, |acked|, shown, role, handoff, "handed_off", runEpoch, baseline)
      modifies this`clock, this`log, this`stopRequested, this`shutdownDeadline, this`signals, this`depth
      ensures Valid() && Launching(role, handoff, runEpoch, baseline) && old(log) <= log
      ensures fault == if shown.state == "running" then "" else "DISPATCHER_NOT_RUNNING"
      ensures !Decided(fault) && (fault == "" ==> StartProof(log, role, handoff, |acked| - 1, |old(log)| - 1, runEpoch, baseline))
    {
      if shown.state != "running" {
        return "DISPATCHER_NOT_RUNNING";
      }
      Interrupt();
      StillLaunching(old(log), role, handoff, runEpoch, baseline);
      ProofAfterWait(acked, old(log), role, handoff, runEpoch, baseline);
      fault := "";
    }

    /** The handoff to the dispatcher and its acknowledgement. */
    method Acknowledge(role: string, handoff: string, ghost runEpoch: string, ghost baseline: int) returns (fault: string)
      requires Valid() && Launching(role, handoff, runEpoch, baseline) && Created(handoff) in log
      modifies this`clock, this`log, this`stopRequested, this`shutdownDeadline, this`signals, this`depth
      ensures Valid() && Launching(role, handoff, runEpoch, baseline) && old(log) <= log && !Decided(fault)
      ensures fault == "" ==> log != [] && log[|log| - 1] == Acked(handoff)
      ensures old(stopRequested) ==> stopRequested
    {
      fault := LaunchStep("HANDOFF_UNAVAILABLE", role, handoff, runEpoch, baseline);
      if fault == "" {
        RecordAcked(role, handoff, runEpoch, baseline);
      }
    }

    /** release_exec_after_handoff, the only path to runc start: acknowledgement and fresh status precede it. */
    method ReleaseExecAfterHandoff(role: string, handoff: string, runEpoch: string, baseline: int) returns (fault: string)
      requires Valid() && Launching(role, handoff, runEpoch, baseline) && Created(handoff) in log
      modifies this`budget, this`clock, this`epoch, this`log, this`stopRequested, this`shutdownDeadline, this`signals, this`depth, this`active, status
      ensures Valid() && budget <= old(budget) && active.Keys == old(active).Keys
      ensures fault == STOP ==> stopRequested
      ensures fault == "" ==> role in active && active[role].started && Started(role, handoff) in log
      ensures old(stopRequested) ==> fault != "" && Started(role, handoff) !in log
      ensures Decided(fault) ==> fault == STOP || fault == "STATUS_TRANSITION_TIMEOUT"
      ensures old(log) <= log
      ensures role in active && role in old(active) && active[role].handoff == old(active)[role].handoff
    {
      fault := Acknowledge(role, handoff, runEpoch, baseline);
      if fault != "" {
        return;
      }
      ghost var a, i := |log| - 1, 0;
      fault, i := AwaitHandedOff(role, handoff, runEpoch, baseline);
      if fault != "" {
        return;
      }
      fault := Exec(role, handoff, runEpoch, baseline, a, i);
    }

    /** runc start behind its proof. */
    method Exec(role: string, handoff: string, ghost runEpoch: string, ghost baseline: int, ghost a: int, ghost i: int) returns (fault: string)
      requires Valid() && Launching(role, handoff, runEpoch, baseline) && StartProof(log, role, handoff, a, i, runEpoch, baseline)
      modifies this`clock, this`log, this`stopRequested, this`shutdownDeadline, this`signals, this`depth, this`active
      ensures Valid() && active.Keys == old(active).Keys && !Decided(fault) && old(log) <= log && Started(role, handoff) in log
      ensures role in active && active[role].handoff == handoff && (fault == "" ==> active[role].started)
    {
      RecordStarted(role, handoff, runEpoch, baseline, a, i);
      fault := Begin(role, handoff);
    }

    /** runc start itself. */
    method Begin(role: string, ghost handoff: string) returns (fault: string)
      requires Valid() && role in active && Started(role, handoff) in log
      modifies this`clock, this`log, this`stopRequested, this`shutdownDeadline, this`signals, this`depth, this`active
      ensures Valid() && active.Keys == old(active).Keys && !Decided(fault) && Started(role, handoff) in log
      ensures fault == "" ==> active[role].started
      ensures old(log) <= log
      ensures role in active && active[role].handoff == old(active)[role].handoff
    {
      fault := Attempt("RUNC_COMMAND_FAILED");
      QuietChangesNothing(old(log), log);
      if fault != "" {
        return;
      }
      StartedKeepsRuns(log, active, role);
      active := active[role := active[role].(started := true)];
    }

    /** _launch_role */
    method LaunchRole(role: string, baseline: Document) returns (fault: string)
      requires Valid() && Seen(baseline) && role in ROLES && role !in active
      modifies this, status
      ensures Valid() && budget <= old(budget) && old(active).Keys <= active.Keys <= old(active).Keys + {role}
      ensures fault == STOP ==> stopRequested
      ensures fault == "" ==> role in active && active[role].started
      ensures old(stopRequested) ==> fault == STOP && stopRequested && active == old(active)
      ensures Decided(fault) ==> fault == STOP || fault == "STATUS_TRANSITION_TIMEOUT"
      ensures old(log) <= log
      ensures fault == "" ==> ReadyShown(log, |old(log)|, role, active[role].handoff)
      ensures baseline.state == "stopping" ==> fault == STOP && stopRequested && active == old(active)
      ensures !old(stopRequested) && baseline.state != "stopping" ==> |log| > |old(log)| && log[|old(log)|] == LaunchBegun(role)
    {
      if stopRequested || baseline.state == "stopping" {
        RequestStop();
        return STOP;
      }
      fault := Launch(role, baseline);
    }

    /** The launch behind the stop guard. */
    method Launch(role: string, baseline: Document) returns (fault: string)
      requires Valid() && Seen(baseline) && role in ROLES && role !in active && !stopRequested
      modifies this, status
      ensures Valid() && budget <= old(budget) && old(active).Keys <= active.Keys <= old(active).Keys + {role} && old(log) <= log
      ensures Decided(fault) ==> (fault == STOP && stopRequested) || fault == "STATUS_TRANSITION_TIMEOUT"
      ensures |log| > |old(log)| && log[|old(log)|] == LaunchBegun(role)
      ensures fault == "" ==> role in active && active[role].started && ReadyShown(log, |old(log)|, role, active[role].handoff)
    {
      Record(LaunchBegun(role));
      fault := ClaimRole(role, baseline);
      if fault == "" {
        fault := LaunchClaimed(role, baseline);
      }
    }

    /** The launch of a role found free. */
    method LaunchClaimed(role: string, baseline: Document) returns (fault: string)
      requires Valid() && Seen(baseline) && role in ROLES && role !in active && next < |ids|
      requires LastAct(log) == Some(LaunchBegun(role)) && FreeAt(baseline, role, baseline.epoch, baseline.sequence)
      modifies this, status
      ensures Valid() && budget <= old(budget) && active.Keys == old(active).Keys + {role} && old(log) <= log
      ensures Decided(fault) ==> (fault == STOP && stopRequested) || fault == "STATUS_TRANSITION_TIMEOUT"
      ensures fault == "" ==> active[role].started && ReadyShown(log, |old(log)|, role, active[role].handoff)
    {
      var handoff := Register(role, baseline);
      fault := CreateAndRelease(role, handoff, baseline.epoch, baseline.sequence);
    }

    /** The checks between the stop guard and the registration of the run. */
    method ClaimRole(role: string, baseline: Document) returns (fault: string)
      requires Valid() && Seen(baseline) && role in ROLES && LastAct(log) == Some(LaunchBegun(role))
      modifies this`clock, this`log, this`stopRequested, this`shutdownDeadline, this`signals, this`depth
      ensures Valid() && !Decided(fault)
      ensures fault == "" ==>
                && Seen(baseline) && LastAct(log) == Some(LaunchBegun(role)) && next < |ids|
                && FreeAt(baseline, role, baseline.epoch, baseline.sequence)
      ensures old(log) <= log
      ensures baseline.state == "running" && baseline.roles[role].state in {"empty", "reaped"} ==> fault in {"", "DIRECTORY_UNSAFE", "CGROUP_CREATE_FAILED", CUT}
    {
      fault := Attempt("DIRECTORY_UNSAFE");
      if fault != "" {
        return;
      }
      if baseline.state != "running" {
        return "DISPATCHER_NOT_RUNNING";
      }
      if baseline.roles[role].state != "empty" && baseline.roles[role].state != "reaped" {
        return "ROLE_ALREADY_OWNED";
      }
      ghost var before := log;
      fault := Attempt("CGROUP_CREATE_FAILED");
      if fault == "" && next >= |ids| {
        fault := CUT;
      }
      QuietTwice(old(log), before, log);
      QuietChangesNothing(old(log), log);
    }

    /** The second half of _launch_role: create the stopped process, hand it off, start it, wait until ready. */
    method CreateAndRelease(role: string, handoff: string, runEpoch: string, baseline: int) returns (fault: string)
      requires Valid() && Launching(role, handoff, runEpoch, baseline)
      modifies this`budget, this`clock, this`epoch, this`log, this`stopRequested, this`shutdownDeadline, this`signals, this`depth, this`active, status
      ensures Valid() && budget <= old(budget) && active.Keys == old(active).Keys && old(log) <= log
      ensures Decided(fault) ==> (fault == STOP && stopRequested) || fault == "STATUS_TRANSITION_TIMEOUT"
      ensures fault == "" ==> role in active && active[role].started && active[role].handoff == handoff
      ensures fault == "" ==> ReadyShown(log, |old(log)|, role, handoff)
    {
      fault := Create(role, handoff, runEpoch, baseline);
      if fault != "" {
        return;
      }
      fault := LaunchStep("RUNC_STATE_MISMATCH", role, handoff, runEpoch, baseline);
      if fault != "" {
        return;
      }
      fault := ReleaseExecAfterHandoff(role, handoff, runEpoch, baseline);
      if fault != "" {
        return;
      }
      ghost var shown;
      fault, shown := AwaitReady(role, handoff, runEpoch, baseline);
    }

    /** runc create. */
    method Create(role: string, handoff: string, runEpoch: string, baseline: int) returns (fault: string)
      requires Valid() && Launching(role, handoff, runEpoch, baseline)
      modifies this`clock, this`log, this`stopRequested, this`shutdownDeadline, this`signals, this`depth
      ensures Valid() && Launching(role, handoff, runEpoch, baseline) && old(log) <= log && !Decided(fault)
      ensures fault == "" ==> Created(handoff) in log
    {
      fault := LaunchStep("BUNDLE_CREATE_FAILED", role, handoff, runEpoch, baseline);
      if fault != "" {
        return;
      }
      fault := LaunchStep("RUNC_COMMAND_FAILED", role, handoff, runEpoch, baseline);
      if fault != "" {
        return;
      }
      RecordCreated(role, handoff, runEpoch, baseline);
    }

    /** The started run must show ready under a running dispatcher. */
    method AwaitReady(role: string, handoff: string, runEpoch: string, baseline: int) returns (fault: string, ghost shown: Option<Document>)
      requires Valid() && role in ROLES
      modifies this`budget, this`clock, this`epoch, this`log, this`stopRequested, this`shutdownDeadline, this`signals, this`depth, status
      ensures Valid() && budget <= old(budget) && QuietlyGrows(old(log), log)
      ensures Decided(fault) ==> (fault == STOP && stopRequested) || fault == "STATUS_TRANSITION_TIMEOUT"
      ensures fault == "" ==> ReadyShown(log, |old(log)|, role, handoff)
      ensures shown.Some? ==> fault == if shown.value.state == "running" then "" else "DISPATCHER_NOT_RUNNING"
    {
      var ready := WaitStatusRole(role, handoff, "ready", runEpoch, READY_TIMEOUT, baseline);
      if ready.Failed? {
        return ready.code, None;
      }
      shown := Some(ready.value);
      if ready.value.state != "running" {
        return "DISPATCHER_NOT_RUNNING", shown;
      }
      assert ReadyAt(log[|log| - 1], role, handoff);
      fault := "";
    }

    // ----- watching and reaping -----

    /** _current_role_status */
    method CurrentRoleStatus(role: string, snapshot: Document) returns (fault: string)
      requires role in active && role in snapshot.roles
      ensures fault == "" <==> Fits(snapshot, role, active[role])
      ensures snapshot.epoch != active[role].epoch ==> fault == "STATUS_EPOCH_CHANGED"
      ensures snapshot.epoch == active[role].epoch && snapshot.roles[role].state == "red" ==> fault == "DISPATCHER_RED"
      ensures snapshot.epoch == active[role].epoch && snapshot.roles[role].state != "red" && snapshot.roles[role].handoff != Some(active[role].handoff)
              ==> fault == "STATUS_HANDOFF_MISMATCH"
      ensures !Decided(fault)
    {
      var run := active[role];
      if snapshot.epoch != run.epoch {
        return "STATUS_EPOCH_CHANGED";
      }
      if snapshot.roles[role].state == "red" {
        return "DISPATCHER_RED";
      }
      if snapshot.roles[role].handoff != Some(run.handoff) {
        return "STATUS_HANDOFF_MISMATCH";
      }
      return "";
    }

    /** Poll the pidfd and read the cgroup of an owned run. */
    method Observe(role: string) returns (exited: bool, empty: bool, fault: string)
      requires Valid() && role in active
      modifies this`clock, this`log, this`stopRequested, this`shutdownDeadline, this`signals, this`depth
      ensures Valid() && !Decided(fault)
      ensures fault == "" ==> |log| > |old(log)| && log[|log| - 1] == Checked(active[role].handoff, exited, empty)
      ensures old(log) <= log && forall e :: e in old(log) ==> e in log
      ensures old(stopRequested) ==> stopRequested && shutdownDeadline == old(shutdownDeadline)
      ensures fault in {"", "CGROUP_IDENTITY_CHANGED"}
    {
      fault := Attempt("CGROUP_IDENTITY_CHANGED");
      exited, empty := *, *;
      QuietChangesNothing(old(log), log);
      if fault == "" {
        RecordChecked(role, exited, empty);
      }
    }

    ghost method RecordChecked(role: string, exited: bool, empty: bool)
      requires Valid() && role in active
      modifies this`log
      ensures Valid() && log == old(log) + [Checked(active[role].handoff, exited, empty)]
    {
      OwnedIsDrawn(role);
      Record(Checked(active[role].handoff, exited, empty));
    }

    lemma ReapKept(before: seq<Event>, role: string, handoff: string, runEpoch: string, i: int, a: int)
      requires ReapProof(before, role, handoff, runEpoch, i, a) && before <= log
      ensures ReapProof(log, role, handoff, runEpoch, i, a)
    {
      assert log[i] == before[i] && log[a] == before[a];
    }

    /** runc delete, and the run is no longer owned. */
    method Delete(role: string, ghost i: int, ghost a: int, ghost j: int, ghost b: int) returns (fault: string)
      requires Valid() && role in active && a < j
      requires ReapProof(log, role, active[role].handoff, active[role].epoch, i, a)
      requires ReapProof(log, role, active[role].handoff, active[role].epoch, j, b)
      modifies this`clock, this`log, this`stopRequested, this`shutdownDeadline, this`signals, this`depth, this`active
      ensures Valid() && !Decided(fault)
      ensures active == if fault == "" then old(active) - {role} else old(active)
      ensures old(log) <= log && forall e :: e in old(log) ==> e in log
      ensures old(stopRequested) ==> stopRequested && shutdownDeadline == old(shutdownDeadline)
    {
      ghost var handoff := active[role].handoff;
      RecordDelete(role, i, a, j, b);
      ghost var issued := log;
      fault := Attempt("RUNC_COMMAND_FAILED");
      QuietChangesNothing(issued, log);
      if fault != "" {
        return;
      }
      Release(role);
    }

    ghost method RecordDelete(role: string, i: int, a: int, j: int, b: int)
      requires Valid() && role in active && a < j
      requires ReapProof(log, role, active[role].handoff, active[role].epoch, i, a)
      requires ReapProof(log, role, active[role].handoff, active[role].epoch, j, b)
      modifies this`log
      ensures Valid() && log == old(log) + [DeleteIssued(role, active[role].handoff)]
    {
      var run := active[role];
      assert RunAgrees(log, role, run);
      var base :| Registered(role, run.handoff, run.epoch, base) in log;
      assert DeleteProof(log, role, run.handoff, run.epoch, base, i, a, j, b);
      OwnedIsDrawn(role);
      Record(DeleteIssued(role, run.handoff));
    }

    method Release(role: string)
      requires Valid() && role in active && DeleteIssued(role, active[role].handoff) in log
      modifies this`log, this`active
      ensures Valid() && active == old(active) - {role} && old(log) <= log && forall e :: e in old(log) ==> e in log
    {
      ghost var e := Released(role, active[role].handoff);
      OwnedIsDrawn(role);
      assert RunAgrees(log, role, active[role]);
      SoundSnoc(log, e);
      ReleaseDropsRun(log, active, role);
      IdsSnoc(log, e, ids, next);
      OwnedSnoc(log, e, "");
      SnocMembers(log, e);
      log := log + [e];
      active := active - {role};
    }

    /** One observation of an owned run against a status document of the log. */
    method Authorize(role: string, snapshot: Document, ghost i: int) returns (authorized: bool, fault: string)
      requires Valid() && role in active && 0 <= i < |log| && log[i] == Accepted(snapshot)
      modifies this`clock, this`log, this`stopRequested, this`shutdownDeadline, this`signals, this`depth
      ensures Valid() && !Decided(fault) && old(log) <= log && forall e :: e in old(log) ==> e in log
      ensures fault == "" ==> |log| > |old(log)| && log[|log| - 1].Checked? && log[|log| - 1].handoff == active[role].handoff
      ensures fault == "" ==>
                (authorized <==> ShowsReaped(snapshot, role, active[role].handoff, active[role].epoch)
                                 && log[|log| - 1] == Checked(active[role].handoff, true, true))
      ensures fault == "" && authorized ==> ReapProof(log, role, active[role].handoff, active[role].epoch, i, |log| - 1)
      ensures old(stopRequested) ==> stopRequested && shutdownDeadline == old(shutdownDeadline)
      ensures fault in {"", "CGROUP_IDENTITY_CHANGED"}
    {
      var run := active[role];
      var exited, empty;
      exited, empty, fault := Observe(role);
      authorized := CleanupAuthorized(snapshot, role, run.epoch, run.handoff, exited, empty);
      assert log[i] == old(log)[i];
    }

    /** Re-read the status immediately before the destructive step, and authorize again. */
    method AuthorizeAgain(role: string) returns (fault: string, ghost j: int)
      requires Valid() && role in active
      modifies this`budget, this`clock, this`epoch, this`log, this`stopRequested, this`shutdownDeadline, this`signals, this`depth, status
      ensures Valid() && budget <= old(budget) && !Decided(fault) && old(log) <= log && forall e :: e in old(log) ==> e in log
      ensures fault == "" ==>
                |old(log)| <= j && ReapProof(log, role, active[role].handoff, active[role].epoch, j, |log| - 1)
      ensures old(stopRequested) ==> stopRequested && shutdownDeadline == old(shutdownDeadline)
    {
      j := 0;
      var reading := ReadCurrentStatus();
      QuietChangesNothing(old(log), log);
      if reading.Failed? {
        return reading.code, j;
      }
      j := |log| - 1;
      fault := Recheck(role, reading.value, j);
    }

    /** The second authorization, on a fresh document. */
    method Recheck(role: string, latest: Document, ghost j: int) returns (fault: string)
      requires Valid() && role in active && Seen(latest) && 0 <= j < |log| && log[j] == Accepted(latest)
      modifies this`clock, this`log, this`stopRequested, this`shutdownDeadline, this`signals, this`depth
      ensures Valid() && !Decided(fault) && old(log) <= log && forall e :: e in old(log) ==> e in log
      ensures fault == "" ==> ReapProof(log, role, active[role].handoff, active[role].epoch, j, |log| - 1)
      ensures Fits(latest, role, active[role]) && fault != "CGROUP_IDENTITY_CHANGED" ==>
                && |log| > |old(log)| && log[|log| - 1].Checked?
                && fault == if latest.roles[role].state == "reaped" && log[|log| - 1].exited && log[|log| - 1].empty then "" else "REAP_PROOF_MISSING"
      ensures old(stopRequested) ==> stopRequested && shutdownDeadline == old(shutdownDeadline)
    {
      fault := CurrentRoleStatus(role, latest);
      if fault != "" {
        return;
      }
      var authorized;
      authorized, fault := Authorize(role, latest, j);
      if fault == "" && !authorized {
        fault := "REAP_PROOF_MISSING";
      }
    }

    /** _cleanup_reaped_run: a run that the snapshot shows reaped is kept only for a process seen alive or a
        populated cgroup. */
    method CleanupReapedRun(role: string, snapshot: Document) returns (outcome: Outcome<bool>)
      requires Valid() && role in active && Seen(snapshot)
      modifies this`budget, this`clock, this`epoch, this`log, this`stopRequested, this`shutdownDeadline, this`signals, this`depth, this`active, status
      ensures Valid() && budget <= old(budget) && old(log) <= log && forall e :: e in old(log) ==> e in log
      ensures active == if outcome == Done(true) then old(active) - {role} else old(active)
      ensures outcome == Done(false) ==>
                !ShowsReaped(snapshot, role, active[role].handoff, active[role].epoch) || Withheld(log, |old(log)|, active[role].handoff)
      ensures outcome.Failed? ==> !Decided(outcome.code) && outcome.code != ""
      ensures old(stopRequested) ==> stopRequested && shutdownDeadline == old(shutdownDeadline)
    {
      ghost var i := IndexOfEvent(log, Accepted(snapshot));
      var authorized, fault := Authorize(role, snapshot, i);
      if fault != "" {
        return Failed(fault);
      }
      if !authorized {
        return Done(false);
      }
      outcome := Destroy(role, i, |log| - 1);
    }

    /** The destructive step, behind a first proof. */
    method Destroy(role: string, ghost i: int, ghost a: int) returns (outcome: Outcome<bool>)
      requires Valid() && role in active && a == |log| - 1
      requires ReapProof(log, role, active[role].handoff, active[role].epoch, i, a)
      modifies this`budget, this`clock, this`epoch, this`log, this`stopRequested, this`shutdownDeadline, this`signals, this`depth, this`active, status
      ensures Valid() && budget <= old(budget) && old(log) <= log && forall e :: e in old(log) ==> e in log
      ensures outcome != Done(false) && active == if outcome == Done(true) then old(active) - {role} else old(active)
      ensures outcome.Failed? ==> !Decided(outcome.code) && outcome.code != ""
      ensures old(stopRequested) ==> stopRequested && shutdownDeadline == old(shutdownDeadline)
    {
      ghost var first := log;
      ghost var j;
      var fault;
      fault, j := AuthorizeAgain(role);
      if fault != "" {
        return Failed(fault);
      }
      ReapKept(first, role, active[role].handoff, active[role].epoch, i, a);
      fault := Delete(role, i, a, j, |log| - 1);
      outcome := if fault == "" then Done(true) else Failed(fault);
    }

    /** The deadline by which an exited or overdue run must show reaped; set once. */
    method SetReapDeadline(role: string, now: int)
      requires Valid() && role in active && active[role].reapDeadline == None
      modifies this`log, this`active
      ensures Valid() && active == old(active)[role := old(active)[role].(reapDeadline := Some(now + REAP_STATUS_GRACE))]
      ensures old(log) <= log && forall e :: e in old(log) ==> e in log
    {
      var deadline := now + REAP_STATUS_GRACE;
      ghost var e := ReapDeadline(active[role].handoff, deadline);
      OwnedIsDrawn(role);
      assert RunAgrees(log, role, active[role]);
      SoundSnoc(log, e);
      DeadlineSetsRun(log, active, role, deadline);
      IdsSnoc(log, e, ids, next);
      OwnedSnoc(log, e, "");
      SnocMembers(log, e);
      log := log + [e];
      active := active[role := active[role].(reapDeadline := Some(deadline))];
    }

    /** _advance_run: a run past its reap deadline that does not show reaped fails the supervisor. */
    method AdvanceRun(role: string, snapshot: Document) returns (outcome: Outcome<bool>)
      requires Valid() && role in active && Seen(snapshot)
      modifies this`budget, this`clock, this`epoch, this`log, this`stopRequested, this`shutdownDeadline, this`signals, this`depth, this`active, status
      ensures Valid() && budget <= old(budget) && old(log) <= log && forall e :: e in old(log) ==> e in log
      ensures outcome.Failed? ==> outcome.code != "" && (Decided(outcome.code) ==> outcome.code == "REAP_STATUS_TIMEOUT" || outcome.code == "STATUS_ROLE_TRANSITION_INVALID")
      ensures outcome == Failed("STATUS_ROLE_TRANSITION_INVALID") ==> snapshot.roles[role].state !in {"ready", "busy", "reaped"}
      ensures outcome == Failed("REAP_STATUS_TIMEOUT") ==> Overran(role)
      ensures old(active).Keys - {role} <= active.Keys <= old(active).Keys
      ensures outcome == Done(false) && snapshot.roles[role].state == "reaped" ==> role in active && Withheld(log, |old(log)|, active[role].handoff)
      ensures outcome == Done(true) ==> snapshot.roles[role].state == "reaped" && active == old(active) - {role}
      ensures outcome == Done(false) ==>
                && role in active && active == old(active)[role := old(active)[role].(reapDeadline := active[role].reapDeadline)]
                && (old(active[role]).reapDeadline.Some? ==> active[role] == old(active[role]))
                && Shows(snapshot, role, snapshot.roles[role].state, active[role].handoff)
                && snapshot.roles[role].state in {"ready", "busy", "reaped"}
                && (snapshot.roles[role].state != "reaped" && active[role].reapDeadline.Some? ==> clock < active[role].reapDeadline.value)
                && (old(active[role]).reapDeadline.None? && active[role].reapDeadline.Some? ==>
                      active[role].reapDeadline.value == clock + REAP_STATUS_GRACE)
      ensures old(stopRequested) ==> stopRequested && shutdownDeadline == old(shutdownDeadline)
      ensures snapshot.epoch != old(active)[role].epoch ==> outcome == Failed("STATUS_EPOCH_CHANGED")
      ensures snapshot.epoch == old(active)[role].epoch && snapshot.roles[role].handoff != Some(old(active)[role].handoff) && snapshot.roles[role].state != "red" ==>
                outcome == Failed("STATUS_HANDOFF_MISMATCH")
      ensures Fits(snapshot, role, old(active)[role]) && snapshot.roles[role].state in {"ready", "busy"} ==>
                outcome == Done(false) || outcome == Failed("REAP_STATUS_TIMEOUT")
      ensures Fits(snapshot, role, old(active)[role]) && snapshot.roles[role].state in {"empty", "handed_off"} ==> outcome == Failed("STATUS_ROLE_TRANSITION_INVALID")
    {
      var fault := CurrentRoleStatus(role, snapshot);
      if fault != "" {
        return Failed(fault);
      }
      var state := snapshot.roles[role].state;
      if state == "ready" || state == "busy" {
        ghost var wall, exited;
        fault, wall, exited := AwaitReap(role, snapshot);
        return if fault == "" then Done(false) else Failed(fault);
      }
      if state != "reaped" {
        return Failed("STATUS_ROLE_TRANSITION_INVALID");
      }
      outcome := CleanupReapedRun(role, snapshot);
    }

    /** A ready or busy run: exited or overdue, it has until its reap deadline to show reaped. */
    method AwaitReap(role: string, snapshot: Document) returns (fault: string, ghost wall: int, ghost exited: bool)
      requires Valid() && role in active && role in snapshot.roles
      modifies this`clock, this`log, this`active
      ensures Valid() && (fault == "" || (fault == "REAP_STATUS_TIMEOUT" && Overran(role))) && old(log) <= log && forall e :: e in old(log) ==> e in log
      ensures role in active && active == old(active)[role := old(active)[role].(reapDeadline := active[role].reapDeadline)]
      ensures old(active[role]).reapDeadline.Some? ==> active[role] == old(active[role])
      ensures fault == "" && active[role].reapDeadline.Some? ==> clock < active[role].reapDeadline.value
      ensures old(active[role]).reapDeadline.None? && active[role].reapDeadline.Some? ==>
                active[role].reapDeadline.value == clock + REAP_STATUS_GRACE
      ensures active[role].reapDeadline.Some? <==>
              || old(active[role]).reapDeadline.Some? || exited
              || (snapshot.roles[role].state == "busy" && snapshot.roles[role].leaseDeadline.Some? && wall >= snapshot.roles[role].leaseDeadline.value)
    {
      var now: int := *;
      var gone: bool := *;
      wall, exited := now, gone;
      var overdue := snapshot.roles[role].state == "busy" && snapshot.roles[role].leaseDeadline.Some?
                     && now >= snapshot.roles[role].leaseDeadline.value;
      fault := "";
      if active[role].reapDeadline.Some? || overdue || gone {
        now := Monotonic();
        if active[role].reapDeadline == None {
          SetReapDeadline(role, now);
        }
        if now >= active[role].reapDeadline.value {
          fault := "REAP_STATUS_TIMEOUT";
        }
      }
    }

    /** One run of the loop. */
    method AdvanceNext(role: string, snapshot: Document) returns (fault: string)
      requires Valid() && Seen(snapshot) && role in active
      modifies this`budget, this`clock, this`epoch, this`log, this`stopRequested, this`shutdownDeadline, this`signals, this`depth, this`active, status
      ensures Valid() && budget <= old(budget) && old(log) <= log && (forall e :: e in old(log) ==> e in log)
      ensures old(active).Keys - {role} <= active.Keys <= old(active).Keys && fault != STOP && Justified(fault)
      ensures fault == "" ==> forall r :: r in active && r != role ==> active[r] == old(active)[r]
      ensures fault == "" && role in active && ShowsReaped(snapshot, role, active[role].handoff, active[role].epoch)
              ==> Withheld(log, |old(log)|, active[role].handoff)
      ensures old(stopRequested) ==> stopRequested && shutdownDeadline == old(shutdownDeadline)
    {
      var advanced := AdvanceRun(role, snapshot);
      if advanced.Failed? {
        fault := advanced.code;
      } else {
        DoneIsBool(advanced);
        fault := "";
      }
    }

    /** The loop over the owned runs, in any order. */
    method AdvanceAll(snapshot: Document) returns (fault: string)
      requires Valid() && Seen(snapshot)
      modifies this`budget, this`clock, this`epoch, this`log, this`stopRequested, this`shutdownDeadline, this`signals, this`depth, this`active, status
      ensures Valid() && budget <= old(budget) && Seen(snapshot) && active.Keys <= old(active).Keys
      ensures Justified(fault) && fault != STOP && old(log) <= log
      ensures fault == "" ==> Excused(log, |old(log)|, active, {}, snapshot)
      ensures old(stopRequested) ==> stopRequested && shutdownDeadline == old(shutdownDeadline)
    {
      var pending := active.Keys;
      while pending != {}
        invariant Valid() && budget <= old(budget) && Seen(snapshot) && old(log) <= log
        invariant pending <= active.Keys <= old(active).Keys
        invariant Excused(log, |old(log)|, active, pending, snapshot)
        invariant old(stopRequested) ==> stopRequested && shutdownDeadline == old(shutdownDeadline)
        decreases pending
      {
        var role :| role in pending;
        ghost var before, owned := log, active;
        fault := AdvanceNext(role, snapshot);
        if fault != "" {
          return;
        }
        ExcusedNext(before, log, |old(log)|, owned, active, pending, role, snapshot);
        pending := pending - {role};
      }
      fault := "";
    }

    /** One run of a reading while draining: cleaned up if it shows reaped. */
    method DrainRun(role: string, snapshot: Document) returns (fault: string)
      requires Valid() && Seen(snapshot) && stopRequested && role in active
      modifies this`budget, this`clock, this`epoch, this`log, this`stopRequested, this`shutdownDeadline, this`signals, this`depth, this`active, status
      ensures Valid() && budget <= old(budget) && old(log) <= log && (forall e :: e in old(log) ==> e in log) && !Decided(fault)
      ensures active == old(active) || active == old(active) - {role}
      ensures fault == "" && role in active && ShowsReaped(snapshot, role, active[role].handoff, active[role].epoch)
              ==> Withheld(log, |old(log)|, active[role].handoff)
      ensures stopRequested && shutdownDeadline == old(shutdownDeadline)
    {
      assert role in ROLES;
      fault := "";
      if snapshot.roles[role].state == "reaped" && snapshot.roles[role].handoff == Some(active[role].handoff) {
        var cleaned := CleanupReapedRun(role, snapshot);
        if cleaned.Failed? {
          return cleaned.code;
        }
        DoneIsBool(cleaned);
      }
    }

    /** The reaped runs of one reading while draining. */
    method DrainReaped(snapshot: Document) returns (fault: string)
      requires Valid() && Seen(snapshot) && stopRequested
      modifies this`budget, this`clock, this`epoch, this`log, this`stopRequested, this`shutdownDeadline, this`signals, this`depth, this`active, status
      ensures Valid() && budget <= old(budget) && active.Keys <= old(active).Keys && !Decided(fault) && old(log) <= log
      ensures fault == "" ==> Excused(log, |old(log)|, active, {}, snapshot)
      ensures stopRequested && shutdownDeadline == old(shutdownDeadline)
    {
      var pending := active.Keys;
      while pending != {}
        invariant Valid() && budget <= old(budget) && Seen(snapshot) && old(log) <= log
        invariant pending <= active.Keys <= old(active).Keys
        invariant Excused(log, |old(log)|, active, pending, snapshot)
        invariant stopRequested && shutdownDeadline == old(shutdownDeadline)
        decreases pending
      {
        var role :| role in pending;
        ghost var before, owned := log, active;
        fault := DrainRun(role, snapshot);
        if fault != "" {
          return;
        }
        ExcusedNext(before, log, |old(log)|, owned, active, pending, role, snapshot);
        pending := pending - {role};
      }
      fault := "";
    }

    /** One turn of the drain: over for time, or one reading whose reaped runs are cleaned up. */
    method DrainTurn() returns (fault: string)
      requires Valid() && stopRequested && active != map[]
      modifies this`budget, this`clock, this`epoch, this`log, this`stopRequested, this`shutdownDeadline, this`signals, this`depth, this`active, status
      ensures Valid() && budget <= old(budget) && active.Keys <= old(active).Keys && old(log) <= log
      ensures Decided(fault) ==> fault == "SHUTDOWN_UNREAPED" && Overdue()
      ensures stopRequested && shutdownDeadline == old(shutdownDeadline)
      ensures old(clock) >= shutdownDeadline.value ==> fault == "SHUTDOWN_UNREAPED"
      ensures fault == "" ==> budget < old(budget)
    {
      var now := Monotonic();
      if now >= shutdownDeadline.value {
        return "SHUTDOWN_UNREAPED";
      }
      var reading := ReadCurrentStatus();
      if reading.Failed? {
        return reading.code;
      }
      fault := DrainReaped(reading.value);
    }

    /** _drain_after_stop: it succeeds only with no run owned, and fails at the shutdown deadline or with a
        reading or a cleanup. */
    method DrainAfterStop() returns (fault: string)
      requires Valid()
      modifies this`budget, this`clock, this`epoch, this`log, this`stopRequested, this`shutdownDeadline, this`signals, this`depth, this`active, status
      ensures Valid() && budget <= old(budget) && active.Keys <= old(active).Keys && old(log) <= log
      ensures Decided(fault) ==> fault == "SHUTDOWN_UNREAPED" && Overdue()
      ensures stopRequested && (old(stopRequested) ==> shutdownDeadline == old(shutdownDeadline))
      ensures old(stopRequested) && old(active) != map[] && old(clock) >= old(shutdownDeadline).value ==> fault == "SHUTDOWN_UNREAPED"
      ensures fault == "" ==> active == map[]
    {
      RequestStop();
      while active != map[]
        invariant Valid() && budget <= old(budget) && active.Keys <= old(active).Keys && old(log) <= log
        invariant stopRequested && (old(stopRequested) ==> shutdownDeadline == old(shutdownDeadline))
        invariant old(stopRequested) && old(active) != map[] && old(clock) >= old(shutdownDeadline).value ==> active == old(active) && clock >= old(clock)
        decreases budget
      {
        fault := DrainTurn();
        if fault != "" {
          return;
        }
      }
      fault := "";
    }

    // ----- the whole life -----

    const FATAL := {"STATUS_EPOCH_CHANGED", "DISPATCHER_RED", "STATUS_FROM_FUTURE", "STATUS_SEQUENCE_ROLLBACK", CUT}

    /** _wait_for_dispatcher */
    method WaitForDispatcher() returns (fault: string)
      requires Valid()
      modifies this`budget, this`clock, this`epoch, this`log, this`stopRequested, this`shutdownDeadline, this`signals, this`depth, status
      ensures Valid() && budget <= old(budget) && (fault == STOP ==> stopRequested)
      ensures fault == "" ==> exists d :: Accepted(d) in log && d.state == "running"
      ensures old(stopRequested) ==> fault != "" && log == old(log)
      ensures fault != "" && fault != STOP && fault !in FATAL ==> clock >= old(clock) + READY_TIMEOUT
      ensures Decided(fault) ==> fault == STOP
    {
      var now := Monotonic();
      var deadline := now + READY_TIMEOUT;
      fault := "DISPATCHER_START_TIMEOUT";
      while true
        invariant Valid() && budget <= old(budget) && deadline >= old(clock) + READY_TIMEOUT
        invariant fault != "" && fault !in FATAL && !Decided(fault)
        invariant old(stopRequested) ==> stopRequested && log == old(log)
        decreases budget
      {
        var over;
        over, fault := DispatcherTurn(deadline, fault);
        if over {
          return;
        }
      }
    }

    /** One turn of the wait: over for time with the last error, stopped, found, fatal, or not over yet. */
    method DispatcherTurn(deadline: int, lastError: string) returns (over: bool, fault: string)
      requires Valid() && lastError != "" && lastError !in FATAL && !Decided(lastError)
      modifies this`budget, this`clock, this`epoch, this`log, this`stopRequested, this`shutdownDeadline, this`signals, this`depth, status
      ensures Valid() && budget <= old(budget) && (over || budget < old(budget))
      ensures old(clock) >= deadline ==> over && fault == lastError
      ensures over ==> fault in FATAL + {"", STOP} || (fault == lastError && clock >= deadline && log == old(log))
      ensures !over ==> fault != "" && fault !in FATAL && !Decided(fault)
      ensures fault == "" ==> exists d :: Accepted(d) in log && d.state == "running"
      ensures (fault == STOP ==> stopRequested) && (Decided(fault) ==> fault == STOP)
      ensures old(stopRequested) ==> over && fault != "" && stopRequested && log == old(log)
    {
      var now := Monotonic();
      if now >= deadline {
        return true, lastError;
      }
      if stopRequested {
        return true, STOP;
      }
      ghost var read;
      fault, read := PollDispatcher();
      over := fault == "" || fault in FATAL;
      if !over {
        Interrupt();
      }
    }

    /** One reading at start-up: a running dispatcher with sound sockets, or the failure. */
    method PollDispatcher() returns (fault: string, ghost read: Option<Document>)
      requires Valid()
      modifies this`budget, this`clock, this`epoch, this`log, this`stopRequested, this`shutdownDeadline, this`signals, this`depth, status
      ensures Valid() && !Decided(fault) && (budget < old(budget) || (budget == old(budget) && fault == CUT))
      ensures fault == "" ==> exists d :: Accepted(d) in log && d.state == "running"
      ensures old(stopRequested) ==> stopRequested
      ensures read.Some? ==>
                if read.value.state == "running" then fault in {"", "DISPATCHER_SOCKET_UNAVAILABLE"} else fault == "DISPATCHER_NOT_RUNNING"
    {
      var reading := ReadCurrentStatus();
      if reading.Failed? {
        return reading.code, None;
      }
      read := Some(reading.value);
      if reading.value.state != "running" {
        return "DISPATCHER_NOT_RUNNING", read;
      }
      ghost var before := log;
      fault := Attempt("DISPATCHER_SOCKET_UNAVAILABLE");
      QuietChangesNothing(before, log);
      assert Accepted(reading.value) in log;
    }

    /** Relaunch a role that owns no run if the status leaves it free. */
    method RelaunchRole(role: string) returns (fault: string, ghost read: Option<Document>)
      requires Valid() && role in ROLES && role !in active
      modifies this, status
      ensures Valid() && budget <= old(budget) && (fault == STOP ==> stopRequested) && old(log) <= log
      ensures Decided(fault) ==> fault == STOP || fault == "STATUS_TRANSITION_TIMEOUT"
      ensures old(active).Keys <= active.Keys
      ensures fault == "" ==> role in active || TakenShown(log, |old(log)|, role)
      ensures read.Some? && role in read.value.roles && read.value.roles[role].state !in {"empty", "reaped"} ==> fault == "" && active == old(active)
    {
      var reading := ReadCurrentStatus();
      if reading.Failed? {
        return reading.code, None;
      }
      read := Some(reading.value);
      var state := reading.value.roles[role].state;
      if state == "empty" || state == "reaped" {
        fault := LaunchRole(role, reading.value);
      } else {
        assert TakenAt(log[|log| - 1], role);
        fault := "";
      }
    }

    /** Relaunch every role that owns no run and whose status leaves it free. */
    method Relaunch() returns (fault: string)
      requires Valid()
      modifies this, status
      ensures Valid() && budget <= old(budget) && (fault == STOP ==> stopRequested) && old(log) <= log
      ensures Decided(fault) ==> fault == STOP || fault == "STATUS_TRANSITION_TIMEOUT"
      ensures fault == "" ==> forall role :: role in ROLES && role !in active ==> TakenShown(log, |old(log)|, role)
    {
      var names := ["OFFICE", "PDF"];
      for i := 0 to |names|
        invariant Valid() && budget <= old(budget) && old(log) <= log
        invariant forall j :: 0 <= j < i && names[j] !in active ==> TakenShown(log, |old(log)|, names[j])
      {
        ghost var before := log;
        if names[i] !in active {
          ghost var read;
          fault, read := RelaunchRole(names[i]);
          if fault != "" {
            return;
          }
        }
        TakenStays(before, log, |old(log)|);
      }
      forall role | role in ROLES ensures role == names[0] || role == names[1] { }
      fault := "";
    }

    /** A launch at start-up on a fresh status. */
    method LaunchOne(role: string) returns (fault: string)
      requires Valid() && role in ROLES && role !in active
      modifies this, status
      ensures Valid() && budget <= old(budget) && (fault == STOP ==> stopRequested) && old(log) <= log
      ensures Decided(fault) ==> fault == STOP || fault == "STATUS_TRANSITION_TIMEOUT"
      ensures fault == "" ==> active.Keys == old(active).Keys + {role} && LaunchBegun(role) in log
    {
      var reading := ReadCurrentStatus();
      if reading.Failed? {
        return reading.code;
      }
      ghost var read := log;
      fault := LaunchRole(role, reading.value);
      if fault == "" {
        assert log[|read|] == LaunchBegun(role);
      }
    }

    /** The two launches at start-up. */
    method LaunchAll() returns (fault: string)
      requires Valid() && active == map[]
      modifies this, status
      ensures Valid() && budget <= old(budget) && (fault == STOP ==> stopRequested) && old(log) <= log
      ensures Decided(fault) ==> fault == STOP || fault == "STATUS_TRANSITION_TIMEOUT"
      ensures fault == "" ==> active.Keys == ROLES && LaunchBegun("OFFICE") in log && LaunchBegun("PDF") in log
    {
      fault := LaunchOne("OFFICE");
      if fault != "" {
        return;
      }
      ghost var first := log;
      fault := LaunchOne("PDF");
      assert forall e :: e in first ==> e in log;
    }

    /** The loop of run, after start-up. */
    method Watch() returns (fault: string)
      requires Valid()
      modifies this, status
      ensures Valid() && (fault == STOP ==> stopRequested)
      ensures fault == "" ==> active == map[] && stopRequested
      ensures Justified(fault)
      ensures old(log) <= log
    {
      var done := false;
      fault := "";
      while !done
        invariant Valid() && old(log) <= log && (fault == STOP ==> stopRequested) && (fault != "" ==> done)
        invariant Justified(fault)
        invariant done && fault == "" ==> active == map[] && stopRequested
        decreases budget, !done
      {
        ghost var seen;
        done, fault, seen := WatchOnce();
      }
    }

    /** One turn of the loop; done: it returns or fails. */
    method WatchOnce() returns (done: bool, fault: string, ghost seen: Option<Document>)
      requires Valid()
      modifies this, status
      ensures Valid() && budget <= old(budget) && (fault == STOP ==> stopRequested) && (fault != "" ==> done)
      ensures !done ==> budget < old(budget)
      ensures done && fault == "" ==> active == map[] && stopRequested
      ensures Justified(fault)
      ensures old(log) <= log && (seen.Some? ==> exists k :: |old(log)| <= k < |log| && log[k] == Accepted(seen.value))
      ensures seen.Some? && (old(stopRequested) || seen.value.state == "stopping") ==> stopRequested && done
      ensures seen.None? ==> done && fault != ""
      ensures done && fault == "" ==> stopRequested && active == map[]
      ensures !done && !stopRequested && seen.value.state == "running" ==> forall role :: role in ROLES && role !in active ==> TakenShown(log, |old(log)|, role)
    {
      seen := None;
      Interrupt();
      QuietChangesNothing(old(log), log);
      var reading := ReadCurrentStatus();
      if reading.Failed? {
        return true, reading.code, seen;
      }
      seen := Some(reading.value);
      ghost var read := log;
      ghost var drained, advanced;
      done, fault, drained, advanced := Act(reading.value);
      assert log[|read| - 1] == Accepted(reading.value);
      assert forall role :: TakenShown(log, |read|, role) ==> TakenShown(log, |old(log)|, role);
    }

    /** What a turn does with its reading: stop and drain, or advance the runs and relaunch. */
    method Act(snapshot: Document) returns (done: bool, fault: string, ghost drained: bool, ghost advanced: string)
      requires Valid() && Seen(snapshot)
      modifies this, status
      ensures Valid() && budget <= old(budget) && old(log) <= log && (fault == STOP ==> stopRequested) && (fault != "" ==> done)
      ensures done && fault == "" ==> active == map[] && stopRequested
      ensures old(stopRequested) || snapshot.state == "stopping" ==> stopRequested && done
      ensures Justified(fault)
      ensures !done && !stopRequested && snapshot.state == "running" ==>
                forall role :: role in ROLES && role !in active ==> TakenShown(log, |old(log)|, role)
      ensures drained <==> old(stopRequested) || snapshot.state == "stopping"
      ensures advanced != "" ==> done && fault == advanced
    {
      drained, advanced := false, "";
      if snapshot.state == "stopping" {
        RequestStop();
      }
      if stopRequested {
        drained := true;
        fault := DrainAfterStop();
        return true, fault, drained, advanced;
      }
      fault := AdvanceAll(snapshot);
      advanced := fault;
      if fault != "" {
        return true, fault, drained, advanced;
      }
      ghost var before := log;
      done, fault := Continue(snapshot.state == "running");
      if !done {
        Settle(before, |old(log)|);
      }
    }

    /** A signal at the end of a turn. */
    method Settle(ghost before: seq<Event>, ghost start: nat)
      requires Valid() && before <= log && start <= |before|
      modifies this`clock, this`log, this`stopRequested, this`shutdownDeadline, this`signals, this`depth
      ensures Valid() && old(log) <= log && (old(stopRequested) ==> stopRequested)
      ensures forall role :: TakenShown(old(log), |before|, role) ==> TakenShown(log, start, role)
    {
      Interrupt();
      forall role | TakenShown(old(log), |before|, role) ensures TakenShown(log, start, role) {
        TakenLater(old(log), log, |before|, role);
      }
    }

    /** The end of a turn: stopped with nothing owned, past the shutdown deadline, or relaunching. */
    method Continue(running: bool) returns (done: bool, fault: string)
      requires Valid()
      modifies this, status
      ensures Valid() && budget <= old(budget) && (fault == STOP ==> stopRequested) && (fault != "" ==> done)
      ensures done && fault == "" ==> active == map[] && stopRequested
      ensures Decided(fault) ==> fault == STOP || fault == "STATUS_TRANSITION_TIMEOUT" || (fault == "SHUTDOWN_UNREAPED" && Overdue())
      ensures old(stopRequested) && old(active) == map[] ==> done && fault == ""
      ensures old(stopRequested) && old(active) != map[] && old(clock) >= old(shutdownDeadline).value ==> done && fault == "SHUTDOWN_UNREAPED"
      ensures old(log) <= log && (old(stopRequested) || !running ==> log == old(log))
      ensures running && !old(stopRequested) && fault == "" ==> !done && forall role :: role in ROLES && role !in active ==> TakenShown(log, |old(log)|, role)
    {
      done, fault := false, "";
      if stopRequested {
        if active == map[] {
          return true, "";
        }
        var now := Monotonic();
        if now >= shutdownDeadline.value {
          return true, "SHUTDOWN_UNREAPED";
        }
      } else if running {
        fault := Relaunch();
        done := fault != "";
      }
    }

    /** The body of run. */
    method StartAndWatch() returns (fault: string)
      requires Valid() && active == map[]
      modifies this, status
      ensures Valid() && (fault == STOP ==> stopRequested)
      ensures fault == "" ==> active == map[] && stopRequested
      ensures Justified(fault)
      ensures fault == "" ==> (exists d :: Accepted(d) in log && d.state == "running") && LaunchBegun("OFFICE") in log && LaunchBegun("PDF") in log
    {
      fault := Attempt("PREPARATION_FAILED");
      if fault != "" {
        return;
      }
      fault := WaitForDispatcher();
      if fault != "" {
        return;
      }
      fault := LaunchAll();
      if fault != "" {
        return;
      }
      fault := Watch();
    }

    /** run: the log is sound however the run ends, and a run that ends well was stopped and owns nothing. */
    method Run() returns (fault: string, ghost ended: string)
      requires Valid() && active == map[] && log == []
      modifies this, status
      ensures Sound(log) && fault != STOP
      ensures fault == "" ==> stopRequested && HasStop(log) && active == map[]
      ensures fault == "" ==> forall r :: 0 <= r < |log| && log[r].Registered?
                                          ==> Released(log[r].role, log[r].handoff) in log
      ensures Justified(fault)
      ensures ended != STOP ==> fault == ended
    {
      fault := StartAndWatch();
      ended := fault;
      if fault == STOP {
        fault := DrainAfterStop();
      }
      if fault == "" {
        forall r | 0 <= r < |log| && log[r].Registered?
          ensures Released(log[r].role, log[r].handoff) in log
        {
          NothingLeft(log, active, r);
        }
      }
    }
  }
}
