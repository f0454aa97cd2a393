/** The audit hash chain (internal/audit/audit.go): building events, and transactions that append them. */
module AuditChain {
  import opened GoText
  import opened Seqs

  const SCHEMA_VERSION := "audit-event-v1"
  const ZERO_HASH := "sha256:0000000000000000000000000000000000000000000000000000000000000000"

  datatype ErrorCode = InvalidEvent | AppendFailed | AppendContended

  datatype Result<T> = Ok(value: T) | Err(code: ErrorCode)

  /** The application's intent; content: the fields the chain only carries. */
  datatype EventInput = EventInput(eventId: string, system: bool, actorPrincipalId: string, requestId: string, content: string)

  /** An event without its own hash: what canonicalEvent serializes. */
  datatype Body = Body(schemaVersion: string, organizationId: string, sequence: int, input: EventInput, previousHash: string)

  datatype Event = Event(body: Body, hash: string)

  /** Canonical JSON, SHA-256 and the shape checks on identifiers and inputs. */
  datatype Codec = Codec(canonical: Body -> string, hash: string -> string, validId: string -> bool, validInput: EventInput -> bool)

  function Digest(codec: Codec, body: Body): string {
    codec.hash(codec.canonical(body))
  }

  // ----- the chain -----

  datatype Head = Head(sequence: int, hash: string)

  function HeadOf(log: seq<Event>): Head {
    if log == [] then Head(0, ZERO_HASH) else Head(log[|log| - 1].body.sequence, log[|log| - 1].hash)
  }

  /** The event at k has the next sequence and names its predecessor's hash, the zero hash first. */
  ghost predicate LinkedAt(codec: Codec, org: string, log: seq<Event>, k: int)
    requires 0 <= k < |log|
  {
    && log[k].body.organizationId == org && log[k].body.sequence == k + 1
    && log[k].body.previousHash == (if k == 0 then ZERO_HASH else log[k - 1].hash)
    && log[k].hash == Digest(codec, log[k].body)
  }

  ghost predicate IsChain(codec: Codec, org: string, log: seq<Event>) {
    forall k {:trigger LinkedAt(codec, org, log, k)} :: 0 <= k < |log| ==> LinkedAt(codec, org, log, k)
  }

  /** Build: the event that follows a head. */
  function Build(codec: Codec, org: string, input: EventInput, head: Head): Result<Event> {
    if !codec.validId(org) || head.sequence < 0 || (head.sequence > 0 && !IsSha256(head.hash))
       || (head.sequence == 0 && head.hash != "" && head.hash != ZERO_HASH) then Err(InvalidEvent)
    else
      var previous := if head.sequence == 0 then ZERO_HASH else head.hash;
      if !codec.validInput(input) then Err(InvalidEvent)
      else
        var body := Body(SCHEMA_VERSION, org, head.sequence + 1, input, previous);
        Ok(Event(body, Digest(codec, body)))
  }

  lemma HeadOfChain(codec: Codec, org: string, log: seq<Event>)
    requires IsChain(codec, org, log)
    ensures HeadOf(log).sequence == |log|
  {
    if log != [] {
      assert LinkedAt(codec, org, log, |log| - 1);
    }
  }

  /** What Build makes of the head of a chain extends the chain. */
  lemma BuildExtends(codec: Codec, org: string, log: seq<Event>, input: EventInput)
    requires IsChain(codec, org, log) && Build(codec, org, input, HeadOf(log)).Ok?
    ensures IsChain(codec, org, log + [Build(codec, org, input, HeadOf(log)).value])
  {
    var more := log + [Build(codec, org, input, HeadOf(log)).value];
    HeadOfChain(codec, org, log);
    forall k | 0 <= k < |more| ensures LinkedAt(codec, org, more, k) {
      if k < |log| {
        assert LinkedAt(codec, org, log, k);
        assert more[k] == log[k] && (k > 0 ==> more[k - 1] == log[k - 1]);
      }
    }
  }

  /** Conversely a chain can only be extended by what Build makes of its head for that input. */
  lemma ExtensionIsBuilt(codec: Codec, org: string, log: seq<Event>, event: Event)
    requires IsChain(codec, org, log + [event]) && codec.validId(org) && codec.validInput(event.body.input)
    requires event.body.schemaVersion == SCHEMA_VERSION && (log != [] ==> IsSha256(log[|log| - 1].hash))
    ensures IsChain(codec, org, log) && Build(codec, org, event.body.input, HeadOf(log)) == Ok(event)
  {
    var more := log + [event];
    forall k | 0 <= k < |log| ensures LinkedAt(codec, org, log, k) {
      assert LinkedAt(codec, org, more, k);
      assert more[k] == log[k] && (k > 0 ==> more[k - 1] == log[k - 1]);
    }
    HeadOfChain(codec, org, log);
    assert LinkedAt(codec, org, more, |log|);
  }

  // ----- the head determines the log -----

  /** No two different bodies of the logs have one digest. */
  ghost predicate NoCollision(codec: Codec, a: seq<Event>, b: seq<Event>) {
    forall x, y :: x in a && y in b && Digest(codec, x.body) == Digest(codec, y.body) ==> x.body == y.body
  }

  lemma SameDigestSameEvent(codec: Codec, org: string, a: seq<Event>, b: seq<Event>, k: int)
    requires IsChain(codec, org, a) && IsChain(codec, org, b) && NoCollision(codec, a, b)
    requires 0 <= k < |a| == |b| && a[k].hash == b[k].hash
    ensures a[k] == b[k] && (k > 0 ==> a[k - 1].hash == b[k - 1].hash)
  {
    assert LinkedAt(codec, org, a, k) && LinkedAt(codec, org, b, k);
    assert a[k] in a && b[k] in b;
  }

  lemma {:induction false} SameFrom(codec: Codec, org: string, a: seq<Event>, b: seq<Event>, k: int)
    requires IsChain(codec, org, a) && IsChain(codec, org, b) && NoCollision(codec, a, b)
    requires 0 <= k < |a| == |b| && a[k].hash == b[k].hash
    ensures forall i :: 0 <= i <= k ==> a[i] == b[i]
  {
    SameDigestSameEvent(codec, org, a, b, k);
    if k == 0 {
    } else {
      SameFrom(codec, org, a, b, k - 1);
    }
  }

  /** Two logs of an organization with the same head are the same log, unless the hash collided on them. */
  lemma SameHeadSameLog(codec: Codec, org: string, a: seq<Event>, b: seq<Event>)
    requires IsChain(codec, org, a) && IsChain(codec, org, b) && NoCollision(codec, a, b)
    requires HeadOf(a) == HeadOf(b)
    ensures a == b
  {
    HeadOfChain(codec, org, a);
    HeadOfChain(codec, org, b);
    if a != [] {
      SameFrom(codec, org, a, b, |a| - 1);
    }
  }

  // ----- interleaved transactions -----

  datatype Phase = Outside | Locked | HasHead(head: Head)

  /** An open transaction: its place in appendInTransaction and the events it inserted. */
  datatype Tx = Tx(org: string, phase: Phase, pending: seq<Event>)

  /** Committed events and head rows per organization, advisory locks by holder, open transactions. */
  datatype State = State(logs: map<string, seq<Event>>, heads: map<string, Head>, locks: map<string, nat>, open: map<nat, Tx>)

  datatype Action =
    | Begin(tx: nat, org: string)
    | Lock(tx: nat)
    | ReadHead(tx: nat)
    | Insert(tx: nat, input: EventInput)
    | Reject(tx: nat, input: EventInput)
    | Commit(tx: nat)
    | Abort(tx: nat)

  const INIT := State(map[], map[], map[], map[])

  function Log(s: State, org: string): seq<Event> {
    if org in s.logs then s.logs[org] else []
  }

  /** The head row as the transaction sees it: its own last insert, else the committed row, else none. */
  function VisibleHead(s: State, t: Tx): Head {
    if t.pending != [] then HeadOf(t.pending)
    else if t.org in s.heads then s.heads[t.org]
    else Head(0, ZERO_HASH)
  }

  predicate Holds(s: State, tx: nat) {
    tx in s.open && s.open[tx].org in s.locks && s.locks[s.open[tx].org] == tx
  }

  predicate Enabled(s: State, a: Action, codec: Codec) {
    match a
    case Begin(tx, org) => tx !in s.open
    case Lock(tx) => tx in s.open && s.open[tx].phase == Outside && (s.open[tx].org !in s.locks || Holds(s, tx))
    case ReadHead(tx) => tx in s.open && s.open[tx].phase == Locked
    case Insert(tx, input) =>
      tx in s.open && s.open[tx].phase.HasHead? && Build(codec, s.open[tx].org, input, s.open[tx].phase.head).Ok?
    case Reject(tx, input) =>
      tx in s.open && s.open[tx].phase.HasHead? && Build(codec, s.open[tx].org, input, s.open[tx].phase.head).Err?
    case Commit(tx) => tx in s.open && s.open[tx].phase == Outside
    case Abort(tx) => tx in s.open
  }

  function Closed(s: State, tx: nat): State
    requires tx in s.open
  {
    s.(open := s.open - {tx}, locks := if Holds(s, tx) then s.locks - {s.open[tx].org} else s.locks)
  }

  function Moved(s: State, tx: nat, t: Tx): State {
    s.(open := s.open[tx := t])
  }

  function Apply(s: State, a: Action, codec: Codec): State
    requires Enabled(s, a, codec)
  {
    match a
    case Begin(tx, org) => Moved(s, tx, Tx(org, Outside, []))
    case Lock(tx) => Moved(s, tx, s.open[tx].(phase := Locked)).(locks := s.locks[s.open[tx].org := tx])
    case ReadHead(tx) => Moved(s, tx, s.open[tx].(phase := HasHead(VisibleHead(s, s.open[tx]))))
    case Insert(tx, input) =>
      var t := s.open[tx];
      Moved(s, tx, t.(phase := Outside, pending := t.pending + [Build(codec, t.org, input, t.phase.head).value]))
    case Reject(tx, input) => Moved(s, tx, s.open[tx].(phase := Outside))
    case Commit(tx) =>
      var t := s.open[tx];
      if t.pending == [] then Closed(s, tx)
      else Closed(s, tx).(logs := s.logs[t.org := Log(s, t.org) + t.pending], heads := s.heads[t.org := HeadOf(t.pending)])
    case Abort(tx) => Closed(s, tx)
  }

  ghost predicate TxFine(s: State, codec: Codec, tx: nat)
    requires tx in s.open
  {
    var t := s.open[tx];
    && (t.phase != Outside || t.pending != [] ==> Holds(s, tx))
    && IsChain(codec, t.org, Log(s, t.org) + t.pending)
    && (t.phase.HasHead? ==> t.phase.head == HeadOf(Log(s, t.org) + t.pending))
  }

  ghost predicate OrgFine(s: State, codec: Codec, org: string) {
    && IsChain(codec, org, Log(s, org))
    && HeadOf(Log(s, org)) == (if org in s.heads then s.heads[org] else Head(0, ZERO_HASH))
  }

  ghost predicate Inv(s: State, codec: Codec) {
    && (forall org {:trigger OrgFine(s, codec, org)} :: OrgFine(s, codec, org))
    && (forall tx {:trigger TxFine(s, codec, tx)} :: tx in s.open ==> TxFine(s, codec, tx))
    && forall org :: org in s.locks ==> s.locks[org] in s.open && s.open[s.locks[org]].org == org
  }

  lemma HeadOfSum(log: seq<Event>, pending: seq<Event>)
    ensures HeadOf(log + pending) == if pending == [] then HeadOf(log) else HeadOf(pending)
  {
    if pending == [] {
      assert log + pending == log;
    }
  }

  /** A step that leaves the committed tables alone keeps what is fine about them. */
  lemma TablesKept(s: State, t: State, codec: Codec)
    requires Inv(s, codec) && t.logs == s.logs && t.heads == s.heads
    ensures forall org {:trigger OrgFine(t, codec, org)} :: OrgFine(t, codec, org)
  {
    forall org ensures OrgFine(t, codec, org) {
      assert OrgFine(s, codec, org);
    }
  }

  /** Other transactions are not concerned by a step that keeps the tables and their locks. */
  lemma OthersKept(s: State, t: State, codec: Codec, tx: nat, other: nat)
    requires Inv(s, codec) && t.logs == s.logs && other in s.open && other in t.open && t.open[other] == s.open[other]
    requires Holds(s, other) ==> Holds(t, other)
    ensures TxFine(t, codec, other)
  {
    assert TxFine(s, codec, other);
  }

  lemma StepKeepsInv(s: State, a: Action, codec: Codec)
    requires Inv(s, codec) && Enabled(s, a, codec)
    ensures Inv(Apply(s, a, codec), codec)
  {
    match a
    case Begin(tx, org) => BeginKeeps(s, tx, org, codec);
    case Lock(tx) => LockKeeps(s, tx, codec);
    case ReadHead(tx) => ReadHeadKeeps(s, tx, codec);
    case Insert(tx, input) => InsertKeeps(s, tx, input, codec);
    case Reject(tx, input) => RejectKeeps(s, tx, input, codec);
    case Commit(tx) => CommitKeeps(s, tx, codec);
    case Abort(tx) => CloseKeeps(s, tx, codec);
  }

  lemma BeginKeeps(s: State, tx: nat, org: string, codec: Codec)
    requires Inv(s, codec) && Enabled(s, Begin(tx, org), codec)
    ensures Inv(Apply(s, Begin(tx, org), codec), codec)
  {
    var t := Apply(s, Begin(tx, org), codec);
    TablesKept(s, t, codec);
    assert OrgFine(s, codec, org);
    assert Log(s, org) + [] == Log(s, org);
    forall other | other in t.open ensures TxFine(t, codec, other) {
      if other != tx {
        OthersKept(s, t, codec, tx, other);
      }
    }
  }

  lemma LockKeeps(s: State, tx: nat, codec: Codec)
    requires Inv(s, codec) && Enabled(s, Lock(tx), codec)
    ensures Inv(Apply(s, Lock(tx), codec), codec)
  {
    var t := Apply(s, Lock(tx), codec);
    TablesKept(s, t, codec);
    assert TxFine(s, codec, tx);
    forall other | other in t.open ensures TxFine(t, codec, other) {
      if other != tx {
        OthersKept(s, t, codec, tx, other);
      }
    }
  }

  lemma ReadHeadKeeps(s: State, tx: nat, codec: Codec)
    requires Inv(s, codec) && Enabled(s, ReadHead(tx), codec)
    ensures Inv(Apply(s, ReadHead(tx), codec), codec)
  {
    var t := Apply(s, ReadHead(tx), codec);
    TablesKept(s, t, codec);
    assert TxFine(s, codec, tx) && OrgFine(s, codec, s.open[tx].org);
    HeadOfSum(Log(s, s.open[tx].org), s.open[tx].pending);
    forall other | other in t.open ensures TxFine(t, codec, other) {
      if other != tx {
        OthersKept(s, t, codec, tx, other);
      }
    }
  }

  lemma InsertKeeps(s: State, tx: nat, input: EventInput, codec: Codec)
    requires Inv(s, codec) && Enabled(s, Insert(tx, input), codec)
    ensures Inv(Apply(s, Insert(tx, input), codec), codec)
  {
    var t := Apply(s, Insert(tx, input), codec);
    var before := s.open[tx];
    TablesKept(s, t, codec);
    assert TxFine(s, codec, tx);
    BuildExtends(codec, before.org, Log(s, before.org) + before.pending, input);
    Concat(Log(s, before.org), before.pending, [Build(codec, before.org, input, before.phase.head).value]);
    forall other | other in t.open ensures TxFine(t, codec, other) {
      if other != tx {
        OthersKept(s, t, codec, tx, other);
      }
    }
  }

  lemma RejectKeeps(s: State, tx: nat, input: EventInput, codec: Codec)
    requires Inv(s, codec) && Enabled(s, Reject(tx, input), codec)
    ensures Inv(Apply(s, Reject(tx, input), codec), codec)
  {
    var t := Apply(s, Reject(tx, input), codec);
    TablesKept(s, t, codec);
    assert TxFine(s, codec, tx);
    forall other | other in t.open ensures TxFine(t, codec, other) {
      if other != tx {
        OthersKept(s, t, codec, tx, other);
      }
    }
  }

  lemma CloseKeeps(s: State, tx: nat, codec: Codec)
    requires Inv(s, codec) && tx in s.open
    ensures Inv(Closed(s, tx), codec)
  {
    var t := Closed(s, tx);
    TablesKept(s, t, codec);
    forall other | other in t.open ensures TxFine(t, codec, other) {
      OthersKept(s, t, codec, tx, other);
    }
  }

  lemma CommitKeeps(s: State, tx: nat, codec: Codec)
    requires Inv(s, codec) && Enabled(s, Commit(tx), codec)
    ensures Inv(Apply(s, Commit(tx), codec), codec)
  {
    CloseKeeps(s, tx, codec);
    var before := s.open[tx];
    if before.pending != [] {
      var t := Apply(s, Commit(tx), codec);
      assert TxFine(s, codec, tx);
      HeadOfSum(Log(s, before.org), before.pending);
      forall org ensures OrgFine(t, codec, org) {
        assert OrgFine(s, codec, org);
      }
      forall other | other in t.open ensures TxFine(t, codec, other) {
        assert TxFine(s, codec, other);
        AfterCommit(s, tx, other, codec);
      }
    }
  }

  /** While one transaction holds the lock no other has anything pending for the organization. */
  lemma AfterCommit(s: State, tx: nat, other: nat, codec: Codec)
    requires Inv(s, codec) && Enabled(s, Commit(tx), codec) && s.open[tx].pending != [] && other in s.open && other != tx
    ensures var t := Apply(s, Commit(tx), codec);
            other in t.open && TxFine(t, codec, other)
  {
    var t := Apply(s, Commit(tx), codec);
    var org := s.open[other].org;
    assert TxFine(s, codec, other) && TxFine(s, codec, tx);
    if org == s.open[tx].org {
      assert s.open[other].pending == [] && s.open[other].phase == Outside;
      assert Log(t, org) == Log(s, org) + s.open[tx].pending;
      assert Log(t, org) + [] == Log(t, org);
    } else {
      assert Log(t, org) == Log(s, org);
    }
  }

  // ----- runs -----

  ghost predicate IsRun(states: seq<State>, actions: seq<Action>, codec: Codec) {
    && |states| == |actions| + 1 && states[0] == INIT
    && forall i {:trigger IsStep(states, actions, codec, i)} :: 0 <= i < |actions| ==> IsStep(states, actions, codec, i)
  }

  ghost predicate IsStep(states: seq<State>, actions: seq<Action>, codec: Codec, i: int)
    requires 0 <= i < |actions| < |states|
  {
    Enabled(states[i], actions[i], codec) && states[i + 1] == Apply(states[i], actions[i], codec)
  }

  lemma InitInv(codec: Codec)
    ensures Inv(INIT, codec)
  {
    forall org ensures OrgFine(INIT, codec, org) { }
  }

  lemma {:induction false} RunKeepsInv(states: seq<State>, actions: seq<Action>, codec: Codec, i: int)
    requires IsRun(states, actions, codec) && 0 <= i < |states|
    ensures Inv(states[i], codec)
  {
    if i == 0 {
      InitInv(codec);
    } else {
      RunKeepsInv(states, actions, codec, i - 1);
      assert IsStep(states, actions, codec, i - 1);
      StepKeepsInv(states[i - 1], actions[i - 1], codec);
    }
  }

  /** In every interleaving every organization's committed log is a chain: sequences 1 to n, each event
      naming its predecessor's hash, and the head row is its last event. */
  lemma EveryLogIsAChain(states: seq<State>, actions: seq<Action>, codec: Codec, i: int, org: string)
    requires IsRun(states, actions, codec) && 0 <= i < |states|
    ensures IsChain(codec, org, Log(states[i], org))
    ensures org in states[i].heads ==> states[i].heads[org] == HeadOf(Log(states[i], org))
  {
    RunKeepsInv(states, actions, codec, i);
    assert OrgFine(states[i], codec, org);
  }

  /** A commit appends exactly the events its transaction inserted; every other step appends none. */
  lemma StepAppends(s: State, a: Action, codec: Codec, org: string)
    requires Enabled(s, a, codec)
    ensures Log(Apply(s, a, codec), org) == if a.Commit? && s.open[a.tx].org == org then Log(s, org) + s.open[a.tx].pending else Log(s, org)
  {
    if a.Commit? {
      assert Log(s, org) + [] == Log(s, org);
    }
  }

  lemma OnlyCommitsAppend(states: seq<State>, actions: seq<Action>, codec: Codec, i: int, org: string)
    requires IsRun(states, actions, codec) && 0 <= i < |actions|
    ensures IsStep(states, actions, codec, i)
    ensures Log(states[i + 1], org) ==
            if actions[i].Commit? && states[i].open[actions[i].tx].org == org
            then Log(states[i], org) + states[i].open[actions[i].tx].pending else Log(states[i], org)
  {
    assert IsStep(states, actions, codec, i);
    StepAppends(states[i], actions[i], codec, org);
  }

  /** Committed events are never changed or removed. */
  lemma {:induction false} LogsOnlyGrow(states: seq<State>, actions: seq<Action>, codec: Codec, i: int, j: int, org: string)
    requires IsRun(states, actions, codec) && 0 <= i <= j < |states|
    ensures Log(states[i], org) <= Log(states[j], org)
    decreases j
  {
    if i == j {
    } else {
      LogsOnlyGrow(states, actions, codec, i, j - 1, org);
      OnlyCommitsAppend(states, actions, codec, j - 1, org);
    }
  }

  // ----- a transaction that appends -----

  /** Build refuses exactly a malformed organization or input, or a head that is none: a positive sequence needs
      the text of a digest, sequence zero the zero hash or no hash. */
  lemma BuildExactly(codec: Codec, org: string, input: EventInput, head: Head)
    ensures Build(codec, org, input, head).Ok? <==>
            && codec.validId(org) && codec.validInput(input) && head.sequence >= 0
            && (head.sequence == 0 ==> head.hash in {"", ZERO_HASH}) && (head.sequence >= 1 ==> IsSha256(head.hash))
  {
  }

  /** On a chain whose hashes are digests only the organization or the input can be refused. */
  lemma ChainAcceptsInput(codec: Codec, org: string, log: seq<Event>, input: EventInput)
    requires IsChain(codec, org, log) && (log != [] ==> IsSha256(log[|log| - 1].hash))
    ensures Build(codec, org, input, HeadOf(log)).Ok? <==> codec.validId(org) && codec.validInput(input)
  {
    HeadOfChain(codec, org, log);
  }

  /** The lock is to be had exactly between appends by a transaction whose organization nobody else is appending to,
      and a transaction commits only between appends. */
  lemma TurnsExactly(s: State, codec: Codec, tx: nat)
    requires Inv(s, codec) && tx in s.open
    ensures Enabled(s, Lock(tx), codec) <==>
            && s.open[tx].phase == Outside
            && (s.open[tx].org !in s.locks || s.locks[s.open[tx].org] == tx)
    ensures Enabled(s, Commit(tx), codec) <==> s.open[tx].phase == Outside
    ensures Enabled(s, ReadHead(tx), codec) <==> s.open[tx].phase == Locked
  {
  }

  /** A transaction that may lock can append a valid input on the spot: lock, read the head, insert. */
  lemma AppendGoes(s: State, codec: Codec, tx: nat, input: EventInput) returns (locked: State, headed: State, added: State)
    requires Inv(s, codec) && tx in s.open && Enabled(s, Lock(tx), codec)
    requires var log := Log(s, s.open[tx].org) + s.open[tx].pending;
             && codec.validId(s.open[tx].org) && codec.validInput(input) && (log != [] ==> IsSha256(log[|log| - 1].hash))
    ensures locked == Apply(s, Lock(tx), codec) && Enabled(locked, ReadHead(tx), codec) && headed == Apply(locked, ReadHead(tx), codec)
    ensures Enabled(headed, Insert(tx, input), codec) && !Enabled(headed, Reject(tx, input), codec)
    ensures added == Apply(headed, Insert(tx, input), codec) && Enabled(added, Commit(tx), codec)
    ensures tx in added.open && |added.open[tx].pending| == |s.open[tx].pending| + 1
    ensures added.open[tx].pending[|s.open[tx].pending|].body.input == input
  {
    locked := Apply(s, Lock(tx), codec);
    LockKeeps(s, tx, codec);
    headed := Apply(locked, ReadHead(tx), codec);
    ReadHeadKeeps(locked, tx, codec);
    assert TxFine(headed, codec, tx);
    ChainAcceptsInput(codec, s.open[tx].org, Log(s, s.open[tx].org) + s.open[tx].pending, input);
    added := Apply(headed, Insert(tx, input), codec);
  }
}
