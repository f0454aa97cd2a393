/** What a supervisor may have done when: the safety of its event log, and what that means. */
module SupervisorLog {
  import opened Seqs
  import opened Options
  import opened SupervisorStatus

  const REAP_STATUS_GRACE := 5 * SECOND
  const SHUTDOWN_GRACE := 120 * SECOND

  datatype Event =
    | Accepted(document: Document)                                   // StatusSequence.accept succeeded
    | StopRequested                                                  // stop_requested became true
    | DeadlineStored(deadline: int)                                  // request_stop stored a shutdown deadline
    | StopReturned                                                   // request_stop returned with no other call in progress
    | LaunchBegun(role: string)                                      // the stop guard of _launch_role passed
    | Registered(role: string, handoff: string, epoch: string, baseline: int)  // the run is owned
    | Created(handoff: string)                                       // runc create
    | Acked(handoff: string)                                         // the dispatcher acknowledged the handoff
    | Started(role: string, handoff: string)                         // runc start
    | Checked(handoff: string, exited: bool, empty: bool)            // pidfd and cgroup observed
    | ReapDeadline(handoff: string, deadline: int)
    | DeleteIssued(role: string, handoff: string)                    // runc delete
    | Released(role: string, handoff: string)                        // the run is no longer owned

  /** Events of the environment, which may fall between any two acts of the supervisor. */
  predicate IsQuiet(e: Event) {
    e.Accepted? || e.StopRequested? || e.DeadlineStored? || e.StopReturned?
  }

  predicate Mentions(e: Event, handoff: string) {
    !IsQuiet(e) && !e.LaunchBegun? && e.handoff == handoff
  }

  ghost predicate Fresh(log: seq<Event>, handoff: string) {
    forall e :: e in log ==> !Mentions(e, handoff)
  }

  ghost predicate HasStop(log: seq<Event>) {
    StopRequested in log
  }

  ghost predicate HasReapDeadline(log: seq<Event>, handoff: string) {
    exists e :: e in log && e.ReapDeadline? && e.handoff == handoff
  }

  /** The handoffs of the runs a role owns. */
  function Owned(log: seq<Event>, role: string): set<string> {
    if log == [] then {} else OwnedAfter(Owned(log[..|log| - 1], role), log[|log| - 1], role)
  }

  function OwnedAfter(owned: set<string>, e: Event, role: string): set<string> {
    if e.Registered? && e.role == role then owned + {e.handoff}
    else if e.Released? && e.role == role then owned - {e.handoff}
    else owned
  }

  /** The last act of the supervisor itself. */
  function LastAct(log: seq<Event>): Option<Event> {
    if log == [] then None
    else if IsQuiet(log[|log| - 1]) then LastAct(log[..|log| - 1])
    else Some(log[|log| - 1])
  }

  function LastDocument(log: seq<Event>): Option<Document> {
    if log == [] then None
    else if log[|log| - 1].Accepted? then Some(log[|log| - 1].document)
    else LastDocument(log[..|log| - 1])
  }

  /** The shutdown deadline: the last one stored. */
  function LastStored(log: seq<Event>): Option<int> {
    if log == [] then None
    else if log[|log| - 1].DeadlineStored? then Some(log[|log| - 1].deadline)
    else LastStored(log[..|log| - 1])
  }

  /** This handoff was registered, acknowledged, and then shown handed off above the baseline. */
  ghost predicate StartProof(log: seq<Event>, role: string, handoff: string, a: int, i: int, epoch: string, baseline: int) {
    && 0 <= a < i < |log| && log[a] == Acked(handoff) && log[i].Accepted?
    && Registered(role, handoff, epoch, baseline) in log
    && HandedOff(log[i].document, role, handoff, epoch, baseline)
  }

  predicate HandedOff(d: Document, role: string, handoff: string, epoch: string, baseline: int) {
    Shows(d, role, "handed_off", handoff) && d.epoch == epoch && d.state == "running" && d.sequence > baseline
  }

  predicate ShowsReaped(d: Document, role: string, handoff: string, epoch: string) {
    Shows(d, role, "reaped", handoff) && d.epoch == epoch && d.state != "red"
  }

  /** A status document shows the handoff reaped, and then its process is gone and its cgroup empty. */
  ghost predicate ReapProof(log: seq<Event>, role: string, handoff: string, epoch: string, i: int, a: int) {
    && 0 <= i < a < |log| && log[i].Accepted? && ShowsReaped(log[i].document, role, handoff, epoch)
    && log[a] == Checked(handoff, true, true)
  }

  ghost predicate DeleteProof(log: seq<Event>, role: string, handoff: string, epoch: string, baseline: int, i: int, a: int, j: int, b: int) {
    && Registered(role, handoff, epoch, baseline) in log
    && ReapProof(log, role, handoff, epoch, i, a) && ReapProof(log, role, handoff, epoch, j, b) && a < j
  }

  /** A running dispatcher whose status leaves the role free. */
  predicate FreeAt(d: Document, role: string, epoch: string, baseline: int) {
    && d.epoch == epoch && d.sequence == baseline && d.state == "running"
    && role in d.roles && (d.roles[role].state == "empty" || d.roles[role].state == "reaped")
  }

  /** An event may follow a log. */
  ghost predicate Allowed(log: seq<Event>, e: Event) {
    match e
    case Accepted(d) => Continues(LastDocument(log), d)
    case StopRequested => !HasStop(log)
    case DeadlineStored(_) => HasStop(log) && StopReturned !in log
    case StopReturned => LastStored(log).Some? && StopReturned !in log
    case LaunchBegun(_) => !HasStop(log)
    case Registered(role, h, epoch, base) =>
      && Fresh(log, h) && Owned(log, role) == {} && LastAct(log) == Some(LaunchBegun(role))
      && exists d :: Accepted(d) in log && FreeAt(d, role, epoch, base)
    case Created(h) => exists role, epoch, base :: Registered(role, h, epoch, base) in log
    case Acked(h) => Created(h) in log
    case Started(role, h) =>
      && Started(role, h) !in log
      && exists a, i, epoch, base :: StartProof(log, role, h, a, i, epoch, base)
    case Checked(_, _, _) => true
    case ReapDeadline(h, _) => !HasReapDeadline(log, h)
    case DeleteIssued(role, h) =>
      && h in Owned(log, role)
      && exists epoch, base, i, a, j, b :: DeleteProof(log, role, h, epoch, base, i, a, j, b)
    case Released(role, h) => h in Owned(log, role) && DeleteIssued(role, h) in log
  }

  /** Every event was allowed when it happened. */
  ghost predicate Sound(log: seq<Event>) {
    forall k {:trigger Allowed(log[..k], log[k])} :: 0 <= k < |log| ==> Allowed(log[..k], log[k])
  }

  lemma SoundSnoc(log: seq<Event>, e: Event)
    requires Sound(log) && Allowed(log, e)
    ensures Sound(log + [e])
  {
    var more := log + [e];
    forall k | 0 <= k < |more| ensures Allowed(more[..k], more[k]) {
      if k < |log| {
        assert more[..k] == log[..k];
        assert Allowed(log[..k], log[k]);
      } else {
        assert more[..k] == log;
      }
    }
  }

  lemma SoundPrefix(log: seq<Event>, n: int)
    requires Sound(log) && 0 <= n <= |log|
    ensures Sound(log[..n])
  {
    forall k | 0 <= k < n ensures Allowed(log[..n][..k], log[..n][k]) {
      assert log[..n][..k] == log[..k];
      assert Allowed(log[..k], log[k]);
    }
  }

  lemma AllowedAt(log: seq<Event>, k: int)
    requires Sound(log) && 0 <= k < |log|
    ensures Allowed(log[..k], log[k])
  {
  }

  lemma OwnedSnoc(log: seq<Event>, e: Event, role: string)
    ensures Owned(log + [e], role) == OwnedAfter(Owned(log, role), e, role)
    ensures LastAct(log + [e]) == if IsQuiet(e) then LastAct(log) else Some(e)
    ensures LastStored(log + [e]) == if e.DeadlineStored? then Some(e.deadline) else LastStored(log)
    ensures LastDocument(log + [e]) == if e.Accepted? then Some(e.document) else LastDocument(log)
  {
    var more := log + [e];
    assert more[..|log|] == log && more[|more| - 1] == e;
  }

  /** The index of an event of the log. */
  lemma IndexOfEvent(log: seq<Event>, e: Event) returns (k: int)
    requires e in log
    ensures 0 <= k < |log| && log[k] == e
  {
    k :| 0 <= k < |log| && log[k] == e;
  }

  // ----- what a sound log says -----

  /** A handoff is registered once. */
  lemma RegisteredOnce(log: seq<Event>, j: int, k: int)
    requires Sound(log) && 0 <= j < k < |log| && log[j].Registered? && log[k].Registered?
    ensures log[j].handoff != log[k].handoff
  {
    AllowedAt(log, k);
    assert log[..k][j] == log[j];
    assert !Mentions(log[j], log[k].handoff);
  }

  /** The document lists the role in the state under the handoff. */
  predicate ShownAs(d: Document, role: string, state: string, handoff: string) {
    role in d.roles && RoleStatus(state, Some(handoff), d.roles[role].leaseDeadline) == d.roles[role]
  }

  /** A run is registered only above the sequence of an accepted status of a running dispatcher that shows its role
      empty or reaped. */
  lemma RegistrationFindsRoleFree(log: seq<Event>, k: int) returns (i: int)
    requires Sound(log) && 0 <= k < |log| && log[k].Registered?
    ensures 0 <= i < k && log[i].Accepted?
    ensures var d := log[i].document;
            && d.state == "running" && d.epoch == log[k].epoch && d.sequence == log[k].baseline
            && log[k].role in d.roles && d.roles[log[k].role].state in {"empty", "reaped"}
  {
    AllowedAt(log, k);
    var d :| Accepted(d) in log[..k] && FreeAt(d, log[k].role, log[k].epoch, log[k].baseline);
    i := IndexOfEvent(log[..k], Accepted(d));
  }

  /** Every runc start follows this handoff's registration and acknowledgement, in that order, and then an
      accepted handed_off status of the same handoff and epoch with a sequence above the baseline. */
  lemma StartIsAuthorized(log: seq<Event>, k: int) returns (r: int, a: int, i: int)
    requires Sound(log) && 0 <= k < |log| && log[k].Started?
    ensures 0 <= r < a < i < k && log[r].Registered? && log[i].Accepted?
    ensures log[r].role == log[k].role && log[r].handoff == log[k].handoff && log[a] == Acked(log[k].handoff)
    ensures ShownAs(log[i].document, log[k].role, "handed_off", log[k].handoff)
    ensures log[i].document.state == "running" && log[i].document.epoch == log[r].epoch && log[i].document.sequence > log[r].baseline
  {
    AllowedAt(log, k);
    var before := log[..k];
    var epoch: string, base: int;
    a, i, epoch, base :| StartProof(before, log[k].role, log[k].handoff, a, i, epoch, base);
    r := IndexOfEvent(before, Registered(log[k].role, log[k].handoff, epoch, base));
    var q := RegisteredBeforeAck(log, a);
    if r < q {
      RegisteredOnce(log, r, q);
    } else if q < r {
      RegisteredOnce(log, q, r);
    }
  }

  lemma RegisteredBeforeAck(log: seq<Event>, a: int) returns (q: int)
    requires Sound(log) && 0 <= a < |log| && log[a].Acked?
    ensures 0 <= q < a && log[q].Registered? && log[q].handoff == log[a].handoff
  {
    AllowedAt(log, a);
    var c := IndexOfEvent(log[..a], Created(log[a].handoff));
    AllowedAt(log, c);
    var role, epoch, base :| Registered(role, log[a].handoff, epoch, base) in log[..c];
    q := IndexOfEvent(log[..c], Registered(role, log[a].handoff, epoch, base));
  }

  /** A handoff is started once. */
  lemma StartedOnce(log: seq<Event>, j: int, k: int)
    requires Sound(log) && 0 <= j < k < |log| && log[k].Started?
    ensures log[j] != log[k]
  {
    AllowedAt(log, k);
    assert log[..k][j] == log[j];
  }

  /** Every runc delete of an owned run follows two accepted statuses that show its epoch and handoff reaped,
      each followed by the observation that the process exited and the cgroup is empty. */
  lemma DeleteIsAuthorized(log: seq<Event>, k: int) returns (r: int, i: int, a: int, j: int, b: int)
    requires Sound(log) && 0 <= k < |log| && log[k].DeleteIssued?
    ensures log[k].handoff in Owned(log[..k], log[k].role)
    ensures 0 <= r < k && log[r].Registered? && log[r].role == log[k].role && log[r].handoff == log[k].handoff
    ensures 0 <= i < a < j < b < k && log[i].Accepted? && log[j].Accepted?
    ensures ShownAs(log[i].document, log[k].role, "reaped", log[k].handoff) && ShownAs(log[j].document, log[k].role, "reaped", log[k].handoff)
    ensures log[i].document.epoch == log[r].epoch == log[j].document.epoch
    ensures log[i].document.state != "red" && log[j].document.state != "red"
    ensures log[i].document.sequence <= log[j].document.sequence
    ensures log[a] == log[b] == Checked(log[k].handoff, true, true)
  {
    AllowedAt(log, k);
    var before := log[..k];
    var epoch: string, base: int;
    epoch, base, i, a, j, b :| DeleteProof(before, log[k].role, log[k].handoff, epoch, base, i, a, j, b);
    r := IndexOfEvent(before, Registered(log[k].role, log[k].handoff, epoch, base));
    OneDocumentPerSequence(log, i, j);
  }

  /** At every moment of every run a role owns at most one run. */
  lemma {:induction false} OneOwnedRun(log: seq<Event>, role: string)
    requires Sound(log)
    ensures |Owned(log, role)| <= 1
  {
    if log == [] {
    } else {
      var n := |log| - 1;
      SoundPrefix(log, n);
      OneOwnedRun(log[..n], role);
      AllowedAt(log, n);
      if log[n].Registered? && log[n].role == role {
        assert Owned(log, role) == {log[n].handoff};
      } else if log[n].Released? && log[n].role == role {
        RemovedIsSmaller(Owned(log[..n], role), log[n].handoff);
      }
    }
  }

  lemma RemovedIsSmaller(s: set<string>, x: string)
    ensures |s - {x}| <= |s|
  {
    if x in s {
      assert s == s - {x} + {x};
    } else {
      assert s - {x} == s;
    }
  }

  /** No launch begins after stop was requested. */
  lemma NoLaunchAfterStop(log: seq<Event>, i: int, j: int)
    requires Sound(log) && 0 <= i < j < |log| && log[i] == StopRequested
    ensures !log[j].LaunchBegun?
  {
    AllowedAt(log, j);
    assert log[..j][i] == log[i];
  }

  lemma {:induction false} LastActAt(log: seq<Event>) returns (m: int)
    requires LastAct(log).Some?
    ensures 0 <= m < |log| && log[m] == LastAct(log).value && forall n :: m < n < |log| ==> IsQuiet(log[n])
  {
    m := |log| - 1;
    if !IsQuiet(log[m]) {
    } else {
      m := LastActAt(log[..m]);
    }
  }

  /** Only the launch in flight when stop was requested can still register its run. */
  lemma OneRegistrationAfterStop(log: seq<Event>, i: int, j: int, k: int)
    requires Sound(log) && 0 <= i < j < k < |log| && log[i] == StopRequested && log[j].Registered?
    ensures !log[k].Registered?
  {
    if log[k].Registered? {
      AllowedAt(log, k);
      var m := LastActAt(log[..k]);
      assert m >= j by {
        assert !IsQuiet(log[..k][j]);
      }
      NoLaunchAfterStop(log, i, m);
      assert false;
    }
  }

  /** The reap deadline of a handoff, once set, never moves. */
  lemma ReapDeadlineNeverMoves(log: seq<Event>, j: int, k: int)
    requires Sound(log) && 0 <= j < k < |log| && log[j].ReapDeadline? && log[k].ReapDeadline?
    ensures log[j].handoff != log[k].handoff
  {
    AllowedAt(log, k);
    assert log[j] in log[..k] by {
      assert log[..k][j] == log[j];
    }
  }

  /** Once request_stop has returned with no other call in progress, the shutdown deadline is set for good. */
  lemma {:induction false} DeadlineSettles(log: seq<Event>, i: int, j: int)
    requires Sound(log) && 0 <= i < j <= |log| && log[i] == StopReturned
    ensures LastStored(log[..j]).Some? && LastStored(log[..j]) == LastStored(log[..i])
    decreases j
  {
    AllowedAt(log, j - 1);
    PrefixSnoc(log, j - 1);
    OwnedSnoc(log[..j - 1], log[j - 1], "");
    if i == j - 1 {
    } else {
      DeadlineSettles(log, i, j - 1);
      assert log[..j - 1][i] == StopReturned;
    }
  }

  lemma {:induction false} LastDocumentAt(log: seq<Event>) returns (m: int)
    requires exists e :: e in log && e.Accepted?
    ensures 0 <= m < |log| && log[m].Accepted? && LastDocument(log) == Some(log[m].document)
    ensures forall n :: m < n < |log| ==> !log[n].Accepted?
  {
    m := |log| - 1;
    if log[m].Accepted? {
    } else {
      assert log == log[..m] + [log[m]];
      m := LastDocumentAt(log[..m]);
    }
  }

  /** Accepted documents have one epoch and never go back, and within it a number names one document. */
  lemma {:induction false} OneDocumentPerSequence(log: seq<Event>, j: int, k: int)
    requires Sound(log) && 0 <= j < k < |log| && log[j].Accepted? && log[k].Accepted?
    ensures log[j].document.epoch == log[k].document.epoch
    ensures log[j].document.sequence <= log[k].document.sequence
    ensures log[j].document.sequence == log[k].document.sequence ==> log[j] == log[k]
    decreases k
  {
    AllowedAt(log, k);
    assert log[..k][j].Accepted? && log[..k][j] in log[..k];
    var m := LastDocumentAt(log[..k]);
    if m == j {
    } else {
      OneDocumentPerSequence(log, j, m);
    }
  }

  /** A registered run is still owned unless it was released, and every release follows its delete. */
  lemma {:induction false} OwnedUnlessReleased(log: seq<Event>, r: int)
    requires Sound(log) && 0 <= r < |log| && log[r].Registered?
    ensures log[r].handoff in Owned(log, log[r].role) || Released(log[r].role, log[r].handoff) in log
    decreases |log|
  {
    var n := |log| - 1;
    if r == n {
    } else {
      SoundPrefix(log, n);
      OwnedUnlessReleased(log[..n], r);
    }
  }
}
