/** How the supervisor's fields agree with its log, and how each event keeps that. */
module SupervisorRuns {
  import opened Options
  import opened SupervisorStatus
  import opened SupervisorLog

  /** OwnedRun, without its file descriptors and paths. */
  datatype OwnedRun = OwnedRun(role: string, handoff: string, epoch: string, started: bool, reapDeadline: Option<int>)

  ghost predicate IsRegistered(log: seq<Event>, run: OwnedRun) {
    exists base :: Registered(run.role, run.handoff, run.epoch, base) in log
  }

  ghost predicate ReapAgrees(log: seq<Event>, run: OwnedRun) {
    if run.reapDeadline.Some? then ReapDeadline(run.handoff, run.reapDeadline.value) in log
    else !HasReapDeadline(log, run.handoff)
  }

  ghost predicate RunAgrees(log: seq<Event>, role: string, run: OwnedRun) {
    && run.role == role && IsRegistered(log, run) && Owned(log, role) == {run.handoff}
    && ReapAgrees(log, run)
  }

  ghost predicate RunsAgree(log: seq<Event>, active: map<string, OwnedRun>) {
    && active.Keys <= ROLES
    && (forall role :: role !in active ==> Owned(log, role) == {})
    && (forall role {:trigger RunAgrees(log, role, active[role])} :: role in active ==> RunAgrees(log, role, active[role]))
    && Apart(active)
  }

  predicate DifferentRuns(a: OwnedRun, b: OwnedRun) {
    a.handoff != b.handoff
  }

  /** depth: the calls of request_stop in progress. */
  ghost predicate StopAgrees(log: seq<Event>, stopRequested: bool, deadline: Option<int>, depth: nat) {
    && (stopRequested <==> HasStop(log)) && deadline == LastStored(log) && (deadline.Some? ==> stopRequested)
    && (StopReturned in log ==> deadline.Some?) && (depth == 0 && stopRequested ==> StopReturned in log)
  }

  /** What one more event of a stop request makes of the agreement. */
  lemma StopAgreesNext(log: seq<Event>, stopRequested: bool, deadline: Option<int>, depth: nat, e: Event)
    requires StopAgrees(log, stopRequested, deadline, depth) && depth > 0 && Allowed(log, e)
    ensures e == StopRequested ==> StopAgrees(log + [e], true, deadline, depth)
    ensures e.DeadlineStored? ==> StopAgrees(log + [e], true, Some(e.deadline), depth)
    ensures e == StopReturned ==> StopAgrees(log + [e], true, deadline, depth - 1)
    ensures StopReturned in log + [e] <==> StopReturned in log || e == StopReturned
  {
    OwnedSnoc(log, e, "");
    SnocMembers(log, e);
  }

  /** Only events of the environment were added. */
  ghost predicate QuietlyGrows(before: seq<Event>, after: seq<Event>) {
    before <= after && forall i :: |before| <= i < |after| ==> IsQuiet(after[i])
  }

  lemma QuietTwice(a: seq<Event>, b: seq<Event>, c: seq<Event>)
    requires QuietlyGrows(a, b) && QuietlyGrows(b, c)
    ensures QuietlyGrows(a, c)
  {
    forall i | |a| <= i < |c| ensures IsQuiet(c[i]) {
      if i < |b| {
        assert c[i] == b[i];
      }
    }
  }

  /** Quiet events change nothing about the runs. */
  lemma {:induction false} QuietChangesNothing(before: seq<Event>, after: seq<Event>)
    requires QuietlyGrows(before, after)
    ensures LastAct(after) == LastAct(before) && forall role :: Owned(after, role) == Owned(before, role)
    ensures forall e :: e in before ==> e in after
    ensures forall e :: e in after && !IsQuiet(e) ==> e in before
  {
    if |before| < |after| {
      var n := |after| - 1;
      QuietChangesNothing(before, after[..n]);
      assert after == after[..n] + [after[n]];
    } else {
      assert before == after;
    }
  }

  lemma SnocMembers(log: seq<Event>, e: Event)
    ensures forall x :: x in log + [e] <==> x in log || x == e
  {
  }

  /** Any event but a registration or a release, and no deadline of this handoff, keeps a run. */
  lemma OtherKeepsRun(log: seq<Event>, e: Event, role: string, run: OwnedRun)
    requires RunAgrees(log, role, run)
    requires !(e.Registered? && e.role == role) && !(e.Released? && e.role == role)
    requires !(e.ReapDeadline? && e.handoff == run.handoff)
    ensures RunAgrees(log + [e], role, run)
  {
    OwnedSnoc(log, e, role);
    SnocMembers(log, e);
    var base :| Registered(run.role, run.handoff, run.epoch, base) in log;
    assert Registered(run.role, run.handoff, run.epoch, base) in log + [e];
  }

  predicate Neutral(e: Event) {
    !e.Registered? && !e.Released? && !e.ReapDeadline?
  }

  lemma NeutralKeepsRuns(log: seq<Event>, e: Event, active: map<string, OwnedRun>)
    requires Neutral(e) && RunsAgree(log, active)
    ensures RunsAgree(log + [e], active)
  {
    forall role | role !in active ensures Owned(log + [e], role) == {} {
      OwnedSnoc(log, e, role);
    }
    forall role | role in active ensures RunAgrees(log + [e], role, active[role]) {
      OtherKeepsRun(log, e, role, active[role]);
    }
  }

  lemma RegistrationAddsRun(log: seq<Event>, active: map<string, OwnedRun>, role: string, h: string, epoch: string, base: int)
    requires RunsAgree(log, active) && role in ROLES && role !in active && Fresh(log, h)
    ensures RunsAgree(log + [Registered(role, h, epoch, base)], active[role := OwnedRun(role, h, epoch, false, None)])
  {
    var e, run := Registered(role, h, epoch, base), OwnedRun(role, h, epoch, false, None);
    RegisteredAgrees(log, role, h, epoch, base);
    forall other | other !in active && other != role ensures Owned(log + [e], other) == {} {
      OwnedSnoc(log, e, other);
    }
    forall other | other in active ensures RunAgrees(log + [e], other, active[other]) && DifferentRuns(active[other], run) {
      OtherAgrees(log, active, e, other);
    }
  }

  lemma RegisteredAgrees(log: seq<Event>, role: string, h: string, epoch: string, base: int)
    requires Owned(log, role) == {} && Fresh(log, h)
    ensures RunAgrees(log + [Registered(role, h, epoch, base)], role, OwnedRun(role, h, epoch, false, None))
  {
    var e := Registered(role, h, epoch, base);
    OwnedSnoc(log, e, role);
    SnocMembers(log, e);
    assert e in log + [e];
    FreshHasNoDeadline(log, h);
  }

  lemma OtherAgrees(log: seq<Event>, active: map<string, OwnedRun>, e: Event, other: string)
    requires RunsAgree(log, active) && other in active && e.Registered? && e.role != other && Fresh(log, e.handoff)
    ensures RunAgrees(log + [e], other, active[other]) && active[other].handoff != e.handoff
  {
    assert RunAgrees(log, other, active[other]);
    OtherKeepsRun(log, e, other, active[other]);
    RegisteredIsMentioned(log, active[other]);
  }

  lemma RegisteredIsMentioned(log: seq<Event>, run: OwnedRun)
    requires IsRegistered(log, run)
    ensures !Fresh(log, run.handoff)
  {
    var base :| Registered(run.role, run.handoff, run.epoch, base) in log;
    assert Mentions(Registered(run.role, run.handoff, run.epoch, base), run.handoff);
  }

  lemma FreshHasNoDeadline(log: seq<Event>, h: string)
    requires Fresh(log, h)
    ensures !HasReapDeadline(log, h)
  {
  }

  lemma ReleaseDropsRun(log: seq<Event>, active: map<string, OwnedRun>, role: string)
    requires RunsAgree(log, active) && role in active
    ensures RunsAgree(log + [Released(role, active[role].handoff)], active - {role})
  {
    var e := Released(role, active[role].handoff);
    forall other: string ensures Owned(log + [e], other) == OwnedAfter(Owned(log, other), e, other) {
      OwnedSnoc(log, e, other);
    }
    assert RunAgrees(log, role, active[role]);
    forall other | other in active && other != role ensures RunAgrees(log + [e], other, active[other]) {
      OtherKeepsRun(log, e, other, active[other]);
    }
  }

  ghost predicate Apart(active: map<string, OwnedRun>) {
    forall a, b {:trigger DifferentRuns(active[a], active[b])} ::
      a in active && b in active && a != b ==> DifferentRuns(active[a], active[b])
  }

  lemma KeptApart(active: map<string, OwnedRun>, role: string, run: OwnedRun)
    requires Apart(active) && role in active && run.handoff == active[role].handoff
    ensures Apart(active[role := run])
  {
    var next := active[role := run];
    forall a, b | a in next && b in next && a != b ensures DifferentRuns(next[a], next[b]) {
      assert DifferentRuns(active[a], active[b]);
    }
  }

  lemma DeadlineSetsRun(log: seq<Event>, active: map<string, OwnedRun>, role: string, deadline: int)
    requires RunsAgree(log, active) && role in active
    ensures RunsAgree(log + [ReapDeadline(active[role].handoff, deadline)],
                      active[role := active[role].(reapDeadline := Some(deadline))])
  {
    var e := ReapDeadline(active[role].handoff, deadline);
    KeptApart(active, role, active[role].(reapDeadline := Some(deadline)));
    forall other: string ensures Owned(log + [e], other) == Owned(log, other) {
      OwnedSnoc(log, e, other);
    }
    forall other | other in active && other != role ensures RunAgrees(log + [e], other, active[other]) {
      assert DifferentRuns(active[other], active[role]);
      OtherKeepsRun(log, e, other, active[other]);
    }
    SnocMembers(log, e);
    var run := active[role].(reapDeadline := Some(deadline));
    assert RunAgrees(log, role, active[role]);
    var base :| Registered(run.role, run.handoff, run.epoch, base) in log;
    assert Registered(run.role, run.handoff, run.epoch, base) in log + [e];
    assert RunAgrees(log + [e], role, run);
  }

  lemma StartedKeepsRuns(log: seq<Event>, active: map<string, OwnedRun>, role: string)
    requires RunsAgree(log, active) && role in active
    ensures RunsAgree(log, active[role := active[role].(started := true)])
  {
    var run := active[role].(started := true);
    KeptApart(active, role, run);
    forall other | other in active && other != role ensures RunAgrees(log, other, active[other]) { }
    assert RunAgrees(log, role, active[role]);
    var base :| Registered(run.role, run.handoff, run.epoch, base) in log;
    assert IsRegistered(log, run);
    assert RunAgrees(log, role, run);
  }

  /** With no run owned, everything that was registered was released. */
  lemma NothingLeft(log: seq<Event>, active: map<string, OwnedRun>, r: int)
    requires Sound(log) && RunsAgree(log, active) && active == map[] && 0 <= r < |log| && log[r].Registered?
    ensures Released(log[r].role, log[r].handoff) in log
  {
    OwnedUnlessReleased(log, r);
  }

  /** Ids not yet drawn are fresh. */
  ghost predicate IdsFresh(log: seq<Event>, ids: seq<string>, next: nat) {
    forall i {:trigger Fresh(log, ids[i])} :: next <= i < |ids| ==> Fresh(log, ids[i])
  }

  lemma FreshSnoc(log: seq<Event>, e: Event, h: string)
    requires Fresh(log, h) && !Mentions(e, h)
    ensures Fresh(log + [e], h)
  {
    SnocMembers(log, e);
  }

  lemma IdsSnoc(log: seq<Event>, e: Event, ids: seq<string>, next: nat)
    requires IdsFresh(log, ids, next) && forall i :: next <= i < |ids| ==> !Mentions(e, ids[i])
    ensures IdsFresh(log + [e], ids, next)
  {
    forall i | next <= i < |ids| ensures Fresh(log + [e], ids[i]) {
      FreshSnoc(log, e, ids[i]);
    }
  }
}
