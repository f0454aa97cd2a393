/** Archive commands (internal/conversation/service.go) as interleaved READ COMMITTED transactions. */
module ConversationArchive {
  import opened Options

  /** archivedAt: the archive time, once set. */
  datatype Conversation = Conversation(workspace: string, revision: int, archivedAt: Option<int>)

  /** A conversation.archived audit event. */
  datatype ArchivedEvent = ArchivedEvent(id: string, workspace: string, conversation: string)

  datatype Command = Command(actor: string, key: string, workspace: string, conversation: string)

  /** The primary key of a receipt within the organization. */
  datatype ReceiptKey = ReceiptKey(actor: string, key: string)

  /** A receipt row; a committed one is a SUCCESS that names its audit event. */
  datatype Receipt = Receipt(workspace: string, conversation: string, revision: int, event: string)

  /** Where a command is: after loadView, after its receipt was reserved, after the conditional UPDATE changed the
      row or did not, after the audit append, after completeReceipt, or found already done. */
  datatype Phase =
    | Viewed(sawArchived: bool)
    | Reserved(sawArchived: bool)
    | Winner(archivedAt: int)
    | Loser
    | Appended(archivedAt: int, event: string)
    | Completed(won: Option<int>, event: string)
    | Replayed

  datatype Tx = Tx(command: Command, revision: int, phase: Phase)

  datatype State = State(conversations: map<string, Conversation>, receipts: map<ReceiptKey, Receipt>,
                         events: seq<ArchivedEvent>, open: map<nat, Tx>)

  datatype Action =
    | Create(conversation: string, workspace: string, revision: int)
    | Start(tx: nat, command: Command)
    | Reserve(tx: nat)
    | Update(tx: nat, time: int)
    | AppendEvent(tx: nat, event: string)
    | Complete(tx: nat)
    | Commit(tx: nat)
    | Abort(tx: nat)

  const INIT := State(map[], map[], [], map[])

  function KeyOf(c: Command): ReceiptKey {
    ReceiptKey(c.actor, c.key)
  }

  predicate IsArchived(s: State, conversation: string) {
    conversation in s.conversations && s.conversations[conversation].archivedAt.Some?
  }

  /** The transaction inserted its receipt and has not ended: others with the key wait. */
  predicate HoldsReceipt(t: Tx) {
    t.phase.Reserved? || t.phase.Winner? || t.phase.Loser? || t.phase.Appended? || t.phase.Completed?
  }

  /** The transaction changed the conversation row and has not ended: others that update it wait. */
  predicate HoldsRow(t: Tx) {
    t.phase.Winner? || t.phase.Appended? || (t.phase.Completed? && t.phase.won.Some?)
  }

  predicate ReceiptFree(s: State, tx: nat, key: ReceiptKey) {
    forall other :: other in s.open && other != tx && HoldsReceipt(s.open[other]) ==> KeyOf(s.open[other].command) != key
  }

  predicate RowFree(s: State, tx: nat, conversation: string) {
    forall other :: other in s.open && other != tx && HoldsRow(s.open[other]) ==> s.open[other].command.conversation != conversation
  }

  /** The stored receipt was made for the same request. */
  predicate SameRequest(r: Receipt, t: Tx) {
    r.workspace == t.command.workspace && r.conversation == t.command.conversation && r.revision == t.revision
  }

  predicate IsEventOf(e: ArchivedEvent, c: Command) {
    e.conversation == c.conversation && e.workspace == c.workspace
  }

  /** The first archive event of the command's conversation, in sequence order. */
  function FirstEvent(events: seq<ArchivedEvent>, c: Command): Option<string> {
    if events == [] then None
    else if IsEventOf(events[0], c) then Some(events[0].id)
    else FirstEvent(events[1..], c)
  }

  predicate Enabled(s: State, a: Action) {
    match a
    case Create(c, _, _) => c !in s.conversations
    case Start(tx, c) => tx !in s.open && c.conversation in s.conversations && s.conversations[c.conversation].workspace == c.workspace
    case Reserve(tx) =>
      && tx in s.open && s.open[tx].phase.Viewed? && ReceiptFree(s, tx, KeyOf(s.open[tx].command))
      && (KeyOf(s.open[tx].command) in s.receipts ==> SameRequest(s.receipts[KeyOf(s.open[tx].command)], s.open[tx]))
    case Update(tx, _) => tx in s.open && s.open[tx].phase.Reserved? && (s.open[tx].phase.sawArchived || RowFree(s, tx, s.open[tx].command.conversation))
    case AppendEvent(tx, _) => tx in s.open && s.open[tx].phase.Winner?
    case Complete(tx) => (tx in s.open && s.open[tx].phase.Appended?) || (tx in s.open && s.open[tx].phase.Loser? && FirstEvent(s.events, s.open[tx].command).Some?)
    case Commit(tx) => tx in s.open && (s.open[tx].phase.Completed? || s.open[tx].phase.Replayed?)
    case Abort(tx) => tx in s.open
  }

  function Moved(s: State, tx: nat, phase: Phase): State
    requires tx in s.open
  {
    s.(open := s.open[tx := s.open[tx].(phase := phase)])
  }

  function Committed(s: State, tx: nat): State
    requires tx in s.open && s.open[tx].phase.Completed?
  {
    var t := s.open[tx];
    var c := t.command;
    var closed := s.(open := s.open - {tx},
                  receipts := s.receipts[KeyOf(c) := Receipt(c.workspace, c.conversation, t.revision, t.phase.event)]);
    if t.phase.won.Some? && c.conversation in s.conversations then
      closed.(conversations := s.conversations[c.conversation := s.conversations[c.conversation].(archivedAt := t.phase.won)],
      events := s.events + [ArchivedEvent(t.phase.event, c.workspace, c.conversation)])
    else closed
  }

  function Apply(s: State, a: Action): State
    requires Enabled(s, a)
  {
    match a
    case Create(c, workspace, revision) => s.(conversations := s.conversations[c := Conversation(workspace, revision, None)])
    case Start(tx, c) =>
      s.(open := s.open[tx := Tx(c, s.conversations[c.conversation].revision, Viewed(IsArchived(s, c.conversation)))])
    case Reserve(tx) =>
      if KeyOf(s.open[tx].command) in s.receipts then Moved(s, tx, Replayed)
      else Moved(s, tx, Reserved(s.open[tx].phase.sawArchived))
    case Update(tx, time) =>
      if !s.open[tx].phase.sawArchived && !IsArchived(s, s.open[tx].command.conversation) then Moved(s, tx, Winner(time))
      else Moved(s, tx, Loser)
    case AppendEvent(tx, e) => Moved(s, tx, Appended(s.open[tx].phase.archivedAt, e))
    case Complete(tx) =>
      if s.open[tx].phase.Appended? then
        Moved(s, tx, Completed(Some(s.open[tx].phase.archivedAt), s.open[tx].phase.event))
      else Moved(s, tx, Completed(None, FirstEvent(s.events, s.open[tx].command).value))
    case Commit(tx) => if s.open[tx].phase.Completed? then Committed(s, tx) else s.(open := s.open - {tx})
    case Abort(tx) => s.(open := s.open - {tx})
  }

  // ----- the invariant -----

  function EventsOf(events: seq<ArchivedEvent>, conversation: string): nat {
    if events == [] then 0
    else EventsOf(events[..|events| - 1], conversation) + if events[|events| - 1].conversation == conversation then 1 else 0
  }

  /** A conversation has one archived event if it is archived and none otherwise, and it is of its workspace. */
  ghost predicate ConversationFine(s: State, conversation: string) {
    && EventsOf(s.events, conversation) == (if IsArchived(s, conversation) then 1 else 0)
    && (forall e :: e in s.events && e.conversation == conversation ==>
                      conversation in s.conversations && e.workspace == s.conversations[conversation].workspace)
  }

  /** A receipt names the event of its conversation. */
  ghost predicate ReceiptFine(s: State, r: Receipt) {
    && IsArchived(s, r.conversation) && r.revision == s.conversations[r.conversation].revision
    && ArchivedEvent(r.event, r.workspace, r.conversation) in s.events
  }

  ghost predicate TxFine(s: State, tx: nat)
    requires tx in s.open
  {
    var t, c := s.open[tx], s.open[tx].command;
    && c.conversation in s.conversations && s.conversations[c.conversation].workspace == c.workspace
    && t.revision == s.conversations[c.conversation].revision
    && (HoldsReceipt(t) ==> KeyOf(c) !in s.receipts && ReceiptFree(s, tx, KeyOf(c)))
    && (HoldsRow(t) ==> !IsArchived(s, c.conversation) && RowFree(s, tx, c.conversation))
    && (t.phase.Viewed? && t.phase.sawArchived ==> IsArchived(s, c.conversation))
    && (t.phase.Reserved? && t.phase.sawArchived ==> IsArchived(s, c.conversation))
    && (t.phase.Loser? ==> IsArchived(s, c.conversation))
    && (t.phase.Completed? && t.phase.won.None? ==>
          IsArchived(s, c.conversation) && ArchivedEvent(t.phase.event, c.workspace, c.conversation) in s.events)
    && (t.phase.Replayed? ==> KeyOf(c) in s.receipts && SameRequest(s.receipts[KeyOf(c)], t))
  }

  ghost predicate Inv(s: State) {
    && (forall c {:trigger ConversationFine(s, c)} :: ConversationFine(s, c))
    && (forall k {:trigger ReceiptFine(s, s.receipts[k])} :: k in s.receipts ==> ReceiptFine(s, s.receipts[k]))
    && (forall tx {:trigger TxFine(s, tx)} :: tx in s.open ==> TxFine(s, tx))
  }

  lemma EventsOfSnoc(events: seq<ArchivedEvent>, e: ArchivedEvent, conversation: string)
    ensures EventsOf(events + [e], conversation) == EventsOf(events, conversation) + if e.conversation == conversation then 1 else 0
  {
    assert (events + [e])[..|events|] == events;
  }

  lemma {:induction false} SomeEvent(events: seq<ArchivedEvent>, conversation: string)
    ensures EventsOf(events, conversation) > 0 <==> exists e :: e in events && e.conversation == conversation
  {
    if events == [] {
    } else {
      var n := |events| - 1;
      SomeEvent(events[..n], conversation);
      assert events == events[..n] + [events[n]];
    }
  }

  lemma {:induction false} FirstEventFound(events: seq<ArchivedEvent>, c: Command)
    ensures FirstEvent(events, c).Some? <==> exists e :: e in events && IsEventOf(e, c)
    ensures FirstEvent(events, c).Some? ==> ArchivedEvent(FirstEvent(events, c).value, c.workspace, c.conversation) in events
  {
    if events == [] {
    } else {
      assert events == [events[0]] + events[1..];
      if !IsEventOf(events[0], c) {
        FirstEventFound(events[1..], c);
      }
    }
  }

  /** An archived conversation's event is always found: the invariant breach the code guards against cannot occur. */
  lemma ArchivedHasEvent(s: State, c: Command)
    requires Inv(s) && IsArchived(s, c.conversation) && s.conversations[c.conversation].workspace == c.workspace
    ensures FirstEvent(s.events, c).Some?
  {
    assert ConversationFine(s, c.conversation);
    SomeEvent(s.events, c.conversation);
    var e :| e in s.events && e.conversation == c.conversation;
    FirstEventFound(s.events, c);
  }

  /** A command that did not change the row can always complete, with the event already there. */
  lemma LoserCompletes(s: State, tx: nat)
    requires Inv(s) && tx in s.open && s.open[tx].phase.Loser?
    ensures Enabled(s, Complete(tx))
  {
    assert TxFine(s, tx);
    ArchivedHasEvent(s, s.open[tx].command);
  }

  // ----- every step keeps the invariant -----

  lemma TablesKept(s: State, t: State)
    requires Inv(s) && t.conversations == s.conversations && t.receipts == s.receipts && t.events == s.events
    ensures forall c {:trigger ConversationFine(t, c)} :: ConversationFine(t, c)
    ensures forall k {:trigger ReceiptFine(t, t.receipts[k])} :: k in t.receipts ==> ReceiptFine(t, t.receipts[k])
  {
    forall c ensures ConversationFine(t, c) {
      assert ConversationFine(s, c);
    }
    forall k | k in t.receipts ensures ReceiptFine(t, t.receipts[k]) {
      assert ReceiptFine(s, s.receipts[k]);
    }
  }

  /** A step of one transaction that takes no lock it may not take leaves the others fine. */
  lemma OthersKept(s: State, t: State, tx: nat, other: nat)
    requires Inv(s) && t.conversations == s.conversations && t.receipts == s.receipts && t.events == s.events
    requires tx in t.open && t.open == s.open[tx := t.open[tx]] && other in s.open && other != tx
    requires HoldsReceipt(t.open[tx]) && (tx !in s.open || !HoldsReceipt(s.open[tx])) ==>
               ReceiptFree(s, tx, KeyOf(t.open[tx].command))
    requires HoldsRow(t.open[tx]) && (tx !in s.open || !HoldsRow(s.open[tx])) ==> RowFree(s, tx, t.open[tx].command.conversation)
    requires tx in s.open ==> t.open[tx].command == s.open[tx].command
    ensures TxFine(t, other)
  {
    assert TxFine(s, other);
  }

  lemma MovedKeeps(s: State, tx: nat, phase: Phase)
    requires Inv(s) && tx in s.open && TxFine(Moved(s, tx, phase), tx)
    requires HoldsReceipt(s.open[tx].(phase := phase)) && !HoldsReceipt(s.open[tx]) ==> ReceiptFree(s, tx, KeyOf(s.open[tx].command))
    requires HoldsRow(s.open[tx].(phase := phase)) && !HoldsRow(s.open[tx]) ==> RowFree(s, tx, s.open[tx].command.conversation)
    ensures Inv(Moved(s, tx, phase))
  {
    var t := Moved(s, tx, phase);
    TablesKept(s, t);
    forall other | other in t.open ensures TxFine(t, other) {
      if other != tx {
        OthersKept(s, t, tx, other);
      }
    }
  }

  lemma StartKeeps(s: State, tx: nat, c: Command)
    requires Inv(s) && Enabled(s, Start(tx, c))
    ensures Inv(Apply(s, Start(tx, c)))
  {
    var t := Apply(s, Start(tx, c));
    TablesKept(s, t);
    forall other | other in t.open ensures TxFine(t, other) {
      if other != tx {
        OthersKept(s, t, tx, other);
      }
    }
  }

  lemma ReserveKeeps(s: State, tx: nat)
    requires Inv(s) && Enabled(s, Reserve(tx))
    ensures Inv(Apply(s, Reserve(tx)))
  {
    assert TxFine(s, tx);
    var phase := Apply(s, Reserve(tx)).open[tx].phase;
    MovedKeeps(s, tx, phase);
  }

  lemma UpdateKeeps(s: State, tx: nat, time: int)
    requires Inv(s) && Enabled(s, Update(tx, time))
    ensures Inv(Apply(s, Update(tx, time)))
  {
    assert TxFine(s, tx);
    var phase := Apply(s, Update(tx, time)).open[tx].phase;
    MovedKeeps(s, tx, phase);
  }

  lemma AppendKeeps(s: State, tx: nat, e: string)
    requires Inv(s) && Enabled(s, AppendEvent(tx, e))
    ensures Inv(Apply(s, AppendEvent(tx, e)))
  {
    assert TxFine(s, tx);
    MovedKeeps(s, tx, Appended(s.open[tx].phase.archivedAt, e));
  }

  lemma CompleteKeeps(s: State, tx: nat)
    requires Inv(s) && Enabled(s, Complete(tx))
    ensures Inv(Apply(s, Complete(tx)))
  {
    assert TxFine(s, tx);
    FirstEventFound(s.events, s.open[tx].command);
    MovedKeeps(s, tx, Apply(s, Complete(tx)).open[tx].phase);
  }

  lemma CloseKeeps(s: State, tx: nat)
    requires Inv(s) && tx in s.open
    ensures Inv(s.(open := s.open - {tx}))
  {
    var t := s.(open := s.open - {tx});
    TablesKept(s, t);
    forall other | other in t.open ensures TxFine(t, other) {
      assert TxFine(s, other);
    }
  }

  lemma CreateKeeps(s: State, c: string, workspace: string, revision: int)
    requires Inv(s) && Enabled(s, Create(c, workspace, revision))
    ensures Inv(Apply(s, Create(c, workspace, revision)))
  {
    var t := Apply(s, Create(c, workspace, revision));
    forall d ensures ConversationFine(t, d) {
      assert ConversationFine(s, d);
      SomeEvent(s.events, d);
    }
    forall k | k in t.receipts ensures ReceiptFine(t, t.receipts[k]) {
      assert ReceiptFine(s, s.receipts[k]);
    }
    forall other | other in t.open ensures TxFine(t, other) {
      assert TxFine(s, other);
    }
  }

  lemma CommitKeepsTables(s: State, tx: nat)
    requires Inv(s) && tx in s.open && s.open[tx].phase.Completed?
    ensures forall c {:trigger ConversationFine(Committed(s, tx), c)} :: ConversationFine(Committed(s, tx), c)
    ensures forall k {:trigger ReceiptFine(Committed(s, tx), Committed(s, tx).receipts[k])} ::
              k in Committed(s, tx).receipts ==> ReceiptFine(Committed(s, tx), Committed(s, tx).receipts[k])
  {
    var t, c := Committed(s, tx), s.open[tx].command;
    assert TxFine(s, tx);
    forall d ensures ConversationFine(t, d) {
      assert ConversationFine(s, d);
      EventsOfSnoc(s.events, ArchivedEvent(s.open[tx].phase.event, c.workspace, c.conversation), d);
    }
    forall k | k in t.receipts ensures ReceiptFine(t, t.receipts[k]) {
      if k != KeyOf(c) {
        assert ReceiptFine(s, s.receipts[k]);
      }
    }
  }

  lemma CommitKeepsOther(s: State, tx: nat, other: nat)
    requires Inv(s) && tx in s.open && s.open[tx].phase.Completed? && other in s.open && other != tx
    ensures other in Committed(s, tx).open && TxFine(Committed(s, tx), other)
  {
    assert TxFine(s, tx) && TxFine(s, other);
  }

  lemma CommitKeeps(s: State, tx: nat)
    requires Inv(s) && Enabled(s, Commit(tx))
    ensures Inv(Apply(s, Commit(tx)))
  {
    if s.open[tx].phase.Completed? {
      CommitKeepsTables(s, tx);
      forall other | other in Committed(s, tx).open ensures TxFine(Committed(s, tx), other) {
        CommitKeepsOther(s, tx, other);
      }
    } else {
      CloseKeeps(s, tx);
    }
  }

  lemma StepKeepsInv(s: State, a: Action)
    requires Inv(s) && Enabled(s, a)
    ensures Inv(Apply(s, a))
  {
    match a
    case Create(c, workspace, revision) => CreateKeeps(s, c, workspace, revision);
    case Start(tx, c) => StartKeeps(s, tx, c);
    case Reserve(tx) => ReserveKeeps(s, tx);
    case Update(tx, time) => UpdateKeeps(s, tx, time);
    case AppendEvent(tx, e) => AppendKeeps(s, tx, e);
    case Complete(tx) => CompleteKeeps(s, tx);
    case Commit(tx) => CommitKeeps(s, tx);
    case Abort(tx) => CloseKeeps(s, tx);
  }

  // ----- what holds of every run -----

  ghost predicate IsRun(states: seq<State>, actions: seq<Action>) {
    && |states| == |actions| + 1 && states[0] == INIT
    && forall i {:trigger IsStep(states, actions, i)} :: 0 <= i < |actions| ==> IsStep(states, actions, i)
  }

  ghost predicate IsStep(states: seq<State>, actions: seq<Action>, i: int)
    requires 0 <= i < |actions| < |states|
  {
    Enabled(states[i], actions[i]) && states[i + 1] == Apply(states[i], actions[i])
  }

  lemma {:induction false} RunKeepsInv(states: seq<State>, actions: seq<Action>, i: int)
    requires IsRun(states, actions) && 0 <= i < |states|
    ensures Inv(states[i])
  {
    if i == 0 {
      forall c ensures ConversationFine(INIT, c) { }
    } else {
      RunKeepsInv(states, actions, i - 1);
      assert IsStep(states, actions, i - 1);
      StepKeepsInv(states[i - 1], actions[i - 1]);
    }
  }

  /** In every interleaving a conversation has one archived event if it is archived and none otherwise. */
  lemma OneEventIfArchived(states: seq<State>, actions: seq<Action>, i: int, conversation: string)
    requires IsRun(states, actions) && 0 <= i < |states|
    ensures EventsOf(states[i].events, conversation) == if IsArchived(states[i], conversation) then 1 else 0
  {
    RunKeepsInv(states, actions, i);
    assert ConversationFine(states[i], conversation);
  }

  lemma {:induction false} EventIsUnique(events: seq<ArchivedEvent>, conversation: string, a: ArchivedEvent, b: ArchivedEvent)
    requires EventsOf(events, conversation) == 1
    requires a in events && b in events && a.conversation == b.conversation == conversation
    ensures a == b
  {
    var n := |events| - 1;
    SomeEvent(events[..n], conversation);
    assert events == events[..n] + [events[n]];
    if events[n].conversation == conversation {
    } else {
      EventIsUnique(events[..n], conversation, a, b);
    }
  }

  /** Every receipt is a success: its conversation is archived, and the event it names is there and is its only one. */
  lemma ReceiptsPointToTheEvent(states: seq<State>, actions: seq<Action>, i: int, key: ReceiptKey)
    requires IsRun(states, actions) && 0 <= i < |states| && key in states[i].receipts
    ensures var r := states[i].receipts[key];
            && IsArchived(states[i], r.conversation) && ArchivedEvent(r.event, r.workspace, r.conversation) in states[i].events
            && forall e :: e in states[i].events && e.conversation == r.conversation ==> e.id == r.event
  {
    RunKeepsInv(states, actions, i);
    var r := states[i].receipts[key];
    assert ReceiptFine(states[i], r);
    assert ConversationFine(states[i], r.conversation);
    var named := ArchivedEvent(r.event, r.workspace, r.conversation);
    forall e | e in states[i].events && e.conversation == r.conversation ensures e == named {
      EventIsUnique(states[i].events, r.conversation, e, named);
    }
  }

  lemma StepIsMonotone(s: State, a: Action, conversation: string, key: ReceiptKey)
    requires Inv(s) && Enabled(s, a)
    ensures IsArchived(s, conversation) ==>
              IsArchived(Apply(s, a), conversation) && Apply(s, a).conversations[conversation] == s.conversations[conversation]
    ensures key in s.receipts ==> key in Apply(s, a).receipts && Apply(s, a).receipts[key] == s.receipts[key]
    ensures s.events <= Apply(s, a).events
  {
    if a.Commit? {
      assert TxFine(s, a.tx);
    }
  }

  /** The archive time, once set, is never cleared or moved; receipts and events never change. */
  lemma {:induction false} ArchivedForGood(states: seq<State>, actions: seq<Action>, i: int, j: int, conversation: string, key: ReceiptKey)
    requires IsRun(states, actions) && 0 <= i <= j < |states|
    ensures IsArchived(states[i], conversation) ==>
              IsArchived(states[j], conversation) && states[j].conversations[conversation] == states[i].conversations[conversation]
    ensures key in states[i].receipts ==> key in states[j].receipts && states[j].receipts[key] == states[i].receipts[key]
    ensures states[i].events <= states[j].events
    decreases j
  {
    if i == j {
    } else {
      ArchivedForGood(states, actions, i, j - 1, conversation, key);
      RunKeepsInv(states, actions, j - 1);
      assert IsStep(states, actions, j - 1);
      StepIsMonotone(states[j - 1], actions[j - 1], conversation, key);
    }
  }

  /** Replaying a key: with the same request the command ends without changing any table, and with a
      different one it cannot go on. */
  lemma ReplayAddsNothing(s: State, tx: nat)
    requires Inv(s) && tx in s.open && s.open[tx].phase.Viewed? && KeyOf(s.open[tx].command) in s.receipts
    ensures var r, t := s.receipts[KeyOf(s.open[tx].command)], s.open[tx];
            Enabled(s, Reserve(tx)) <==>
            r.conversation == t.command.conversation && r.workspace == t.command.workspace && r.revision == t.revision
    ensures Enabled(s, Reserve(tx)) ==>
              var replayed := Apply(s, Reserve(tx));
              && Enabled(replayed, Commit(tx))
              && Apply(replayed, Commit(tx)) == s.(open := s.open - {tx})
  {
    forall other | other in s.open && HoldsReceipt(s.open[other])
      ensures KeyOf(s.open[other].command) != KeyOf(s.open[tx].command)
    {
      assert TxFine(s, other);
    }
    if Enabled(s, Reserve(tx)) {
      var replayed := Apply(s, Reserve(tx));
      assert replayed.open - {tx} == s.open - {tx};
    }
  }

  /** The command's conversation is archived, and the receipt under its actor and key is for this conversation
      and workspace and names its event. */
  ghost predicate Done(s: State, c: Command) {
    var key := ReceiptKey(c.actor, c.key);
    && c.conversation in s.conversations && s.conversations[c.conversation].archivedAt.Some?
    && key in s.receipts && s.receipts[key].conversation == c.conversation && s.receipts[key].workspace == c.workspace
    && ArchivedEvent(s.receipts[key].event, c.workspace, c.conversation) in s.events
  }

  /** A command that found its key used is about its own conversation, which is archived already. */
  lemma ReplayedIsDone(states: seq<State>, actions: seq<Action>, i: int, tx: nat)
    requires IsRun(states, actions) && 0 <= i < |states| && tx in states[i].open && states[i].open[tx].phase.Replayed?
    ensures Done(states[i], states[i].open[tx].command)
  {
    RunKeepsInv(states, actions, i);
    assert TxFine(states[i], tx);
    assert ReceiptFine(states[i], states[i].receipts[KeyOf(states[i].open[tx].command)]);
  }

  lemma CommitIsDone(s: State, tx: nat)
    requires Inv(s) && Enabled(s, Commit(tx))
    ensures Done(Apply(s, Commit(tx)), s.open[tx].command)
  {
    assert TxFine(s, tx);
    if s.open[tx].phase.Replayed? {
      assert ReceiptFine(s, s.receipts[KeyOf(s.open[tx].command)]);
    }
  }

  lemma DoneStays(states: seq<State>, actions: seq<Action>, i: int, j: int, c: Command)
    requires IsRun(states, actions) && 0 <= i <= j < |states| && Done(states[i], c)
    ensures Done(states[j], c)
  {
    ArchivedForGood(states, actions, i, j, c.conversation, ReceiptKey(c.actor, c.key));
  }

  /** Every command that commits leaves its conversation archived, with its receipt and event, for good. */
  lemma CommittedIsDone(states: seq<State>, actions: seq<Action>, i: int, j: int, tx: nat)
    requires IsRun(states, actions) && 0 <= i < j < |states| && actions[i] == Commit(tx)
    ensures tx in states[i].open && Done(states[j], states[i].open[tx].command)
  {
    RunKeepsInv(states, actions, i);
    assert IsStep(states, actions, i);
    CommitIsDone(states[i], tx);
    DoneStays(states, actions, i + 1, j, states[i].open[tx].command);
  }

  /** Of two commands in flight for one conversation at most one has changed the row. */
  lemma OneWinner(s: State, a: nat, b: nat)
    requires Inv(s) && a in s.open && b in s.open && HoldsRow(s.open[a]) && HoldsRow(s.open[b])
    requires s.open[a].command.conversation == s.open[b].command.conversation
    ensures a == b
  {
    assert TxFine(s, a);
  }

  // ----- an uncontended command -----

  /** Nobody else is at the conversation's row or the command's key. */
  ghost predicate Uncontended(s: State, tx: nat, c: Command) {
    && tx !in s.open && KeyOf(c) !in s.receipts
    && forall other :: other in s.open ==>
                         && (HoldsReceipt(s.open[other]) ==> KeyOf(s.open[other].command) != KeyOf(c))
                         && (HoldsRow(s.open[other]) ==> s.open[other].command.conversation != c.conversation)
  }

  function Open(s: State, tx: nat, c: Command, revision: int, phase: Phase): State {
    s.(open := s.open[tx := Tx(c, revision, phase)])
  }

  ghost predicate Goes(s: State, a: Action, t: State) {
    Enabled(s, a) && t == Apply(s, a)
  }

  lemma CommandReserves(s: State, tx: nat, c: Command)
    requires Uncontended(s, tx, c) && c.conversation in s.conversations && s.conversations[c.conversation].workspace == c.workspace
    ensures var revision, saw := s.conversations[c.conversation].revision, IsArchived(s, c.conversation);
            && Goes(s, Start(tx, c), Open(s, tx, c, revision, Viewed(saw)))
            && Goes(Open(s, tx, c, revision, Viewed(saw)), Reserve(tx), Open(s, tx, c, revision, Reserved(saw)))
  {
    var revision, saw := s.conversations[c.conversation].revision, IsArchived(s, c.conversation);
    var viewed := Open(s, tx, c, revision, Viewed(saw));
    assert viewed.open[tx := Tx(c, revision, Reserved(saw))] == Open(s, tx, c, revision, Reserved(saw)).open;
  }

  lemma CommandWins(s: State, tx: nat, c: Command, revision: int, time: int, event: string)
    requires Uncontended(s, tx, c) && c.conversation in s.conversations && !IsArchived(s, c.conversation)
    ensures Goes(Open(s, tx, c, revision, Reserved(false)), Update(tx, time), Open(s, tx, c, revision, Winner(time)))
    ensures Goes(Open(s, tx, c, revision, Winner(time)), AppendEvent(tx, event), Open(s, tx, c, revision, Appended(time, event)))
    ensures Goes(Open(s, tx, c, revision, Appended(time, event)), Complete(tx), Open(s, tx, c, revision, Completed(Some(time), event)))
  {
    assert Open(s, tx, c, revision, Reserved(false)).open[tx := Tx(c, revision, Winner(time))] == Open(s, tx, c, revision, Winner(time)).open;
    assert Open(s, tx, c, revision, Winner(time)).open[tx := Tx(c, revision, Appended(time, event))] == Open(s, tx, c, revision, Appended(time, event)).open;
    assert Open(s, tx, c, revision, Appended(time, event)).open[tx := Tx(c, revision, Completed(Some(time), event))]
        == Open(s, tx, c, revision, Completed(Some(time), event)).open;
  }

  /** An uncontended command on a conversation that is not archived can run to its commit, and then the
      conversation is archived at the time of its update, with one event more, its own, and its receipt. */
  lemma UncontendedArchives(s: State, tx: nat, c: Command, time: int, event: string) returns (states: seq<State>)
    requires Inv(s) && Uncontended(s, tx, c) && c.conversation in s.conversations
    requires s.conversations[c.conversation].workspace == c.workspace && !IsArchived(s, c.conversation)
    ensures |states| == 7 && states[0] == s && Goes(states[0], Start(tx, c), states[1]) && Goes(states[1], Reserve(tx), states[2])
    ensures Goes(states[2], Update(tx, time), states[3]) && Goes(states[3], AppendEvent(tx, event), states[4])
    ensures Goes(states[4], Complete(tx), states[5]) && Goes(states[5], Commit(tx), states[6])
    ensures states[6].conversations == s.conversations[c.conversation := s.conversations[c.conversation].(archivedAt := Some(time))]
    ensures states[6].events == s.events + [ArchivedEvent(event, c.workspace, c.conversation)] && states[6].open == s.open
    ensures states[6].receipts == s.receipts[KeyOf(c) := Receipt(c.workspace, c.conversation, s.conversations[c.conversation].revision, event)]
  {
    var revision := s.conversations[c.conversation].revision;
    CommandReserves(s, tx, c);
    CommandWins(s, tx, c, revision, time, event);
    var completed := Open(s, tx, c, revision, Completed(Some(time), event));
    assert completed.open - {tx} == s.open;
    states := [s, Open(s, tx, c, revision, Viewed(false)), Open(s, tx, c, revision, Reserved(false)),
               Open(s, tx, c, revision, Winner(time)), Open(s, tx, c, revision, Appended(time, event)), completed, Committed(completed, tx)];
  }
}
