/** Calls of Store.Append (internal/audit/audit.go) among other transactions, every statement interleaved. */
module AuditCalls {
  import opened Options
  import opened GoText
  import opened AuditChain
  import opened AuditStore

  /** Between transactions, inside one, or returned; unreported: the reply to its commit was lost. */
  datatype Stage = Ready | Running(tx: nat) | Ended(result: Result<Event>, unreported: bool)

  datatype Call = Call(org: string, access: Access, input: EventInput, attempts: nat, stage: Stage)

  /** authors: per organization the call, if any, that added each committed event. */
  datatype System = System(chain: State, authors: map<string, seq<Option<nat>>>, calls: map<nat, Call>)

  datatype Move =
    | Other(action: Action)
    | Enter(call: nat, org: string, access: Access, input: EventInput)
    | Open(call: nat, tx: nat)
    | TakeLock(call: nat)
    | LookUp(call: nat)
    | Add(call: nat)
    | Refuse(call: nat)
    | Lose(call: nat, serialization: bool)
    | Finish(call: nat, reported: bool)

  const START := System(INIT, map[], map[])

  function AuthorsOf(s: System, org: string): seq<Option<nat>> {
    if org in s.authors then s.authors[org] else []
  }

  /** How many committed events of the organization a call added. */
  function Tally(s: System, org: string, call: nat): nat {
    multiset(AuthorsOf(s, org))[Some(call)]
  }

  predicate IsOwned(s: System, tx: nat) {
    exists c :: c in s.calls && s.calls[c].stage == Running(tx)
  }

  predicate Runs(s: System, call: nat) {
    call in s.calls && s.calls[call].stage.Running? && s.calls[call].stage.tx in s.chain.open
  }

  function TxOf(s: System, call: nat): Tx
    requires Runs(s, call)
  {
    s.chain.open[s.calls[call].stage.tx]
  }

  /** A move is for its call to make. */
  predicate Guard(s: System, m: Move, codec: Codec) {
    match m
    case Other(a) => !IsOwned(s, a.tx)
    case Enter(call, _, _, _) => call !in s.calls
    case Open(call, _) => call in s.calls && s.calls[call].stage == Ready
    case TakeLock(call) => Runs(s, call) && TxOf(s, call).pending == []
    case LookUp(call) => Runs(s, call)
    case Add(call) => Runs(s, call)
    case Refuse(call) =>
      && Runs(s, call) && TxOf(s, call).phase.HasHead?
      && Build(codec, TxOf(s, call).org, s.calls[call].input, TxOf(s, call).phase.head).Err?
    case Lose(call, _) => Runs(s, call)
    case Finish(call, _) => Runs(s, call) && TxOf(s, call).pending != []
  }

  /** What the move does to the tables, locks and transactions. */
  function ChainAction(s: System, m: Move, codec: Codec): Option<Action>
    requires Guard(s, m, codec)
  {
    match m
    case Other(a) => Some(a)
    case Enter(_, _, _, _) => None
    case Open(call, tx) => Some(Begin(tx, s.calls[call].org))
    case TakeLock(call) => Some(Lock(s.calls[call].stage.tx))
    case LookUp(call) => Some(ReadHead(s.calls[call].stage.tx))
    case Add(call) => Some(Insert(s.calls[call].stage.tx, s.calls[call].input))
    case Refuse(call) => Some(Abort(s.calls[call].stage.tx))
    case Lose(call, _) => Some(Abort(s.calls[call].stage.tx))
    case Finish(call, _) => Some(Commit(s.calls[call].stage.tx))
  }

  predicate Can(s: System, m: Move, codec: Codec) {
    && Guard(s, m, codec)
    && (ChainAction(s, m, codec).Some? ==> Enabled(s.chain, ChainAction(s, m, codec).value, codec))
  }

  function Repeat(author: Option<nat>, n: nat): seq<Option<nat>> {
    if n == 0 then [] else Repeat(author, n - 1) + [author]
  }

  /** The author of what a move commits. */
  function AuthorOf(m: Move): Option<nat> {
    if m.Finish? then Some(m.call) else None
  }

  /** The author of every pending event of a transaction that commits. */
  function Credited(s: System, a: Action, author: Option<nat>): map<string, seq<Option<nat>>> {
    if a.Commit? && a.tx in s.chain.open
    then var t := s.chain.open[a.tx]; s.authors[t.org := AuthorsOf(s, t.org) + Repeat(author, |t.pending|)]
    else s.authors
  }

  /** What validateAppend makes of a call. */
  function Entered(access: Access, input: EventInput): Stage {
    if !access.valid then Ended(Err(AppendFailed), false)
    else if Mismatched(access, input) then Ended(Err(InvalidEvent), false)
    else Ready
  }

  /** After a transaction was rolled back: again, but only for a serialization failure and within the budget. */
  function AfterLoss(attempts: nat, serialization: bool): Stage {
    if !serialization then Ended(Err(AppendFailed), false)
    else if attempts < MAX_ATTEMPTS then Ready
    else Ended(Err(AppendContended), false)
  }

  function Staged(s: System, call: nat, stage: Stage): map<nat, Call>
    requires call in s.calls
  {
    s.calls[call := s.calls[call].(stage := stage)]
  }

  function CallsAfter(s: System, m: Move, codec: Codec): map<nat, Call>
    requires Guard(s, m, codec)
  {
    match m
    case Enter(call, org, access, input) => s.calls[call := Call(org, access, input, 0, Entered(access, input))]
    case Open(call, tx) => s.calls[call := s.calls[call].(attempts := s.calls[call].attempts + 1, stage := Running(tx))]
    case Refuse(call) => Staged(s, call, Ended(Err(InvalidEvent), false))
    case Lose(call, serialization) => Staged(s, call, AfterLoss(s.calls[call].attempts, serialization))
    case Finish(call, reported) =>
      Staged(s, call, Ended(if reported then Ok(TxOf(s, call).pending[0]) else Err(AppendFailed), !reported))
    case _ => s.calls
  }

  function Next(s: System, m: Move, codec: Codec): System
    requires Can(s, m, codec)
  {
    var action := ChainAction(s, m, codec);
    if action.None? then s.(calls := CallsAfter(s, m, codec))
    else
      System(Apply(s.chain, action.value, codec),
             Credited(s, action.value, AuthorOf(m)),
             CallsAfter(s, m, codec))
  }

  // ----- the invariant -----

  ghost predicate Uncounted(s: System, call: nat) {
    forall org :: Tally(s, org, call) == 0
  }

  /** The call added one event, to its organization's log. */
  ghost predicate Once(s: System, call: nat)
    requires call in s.calls
  {
    && (forall org :: Tally(s, org, call) == if org == s.calls[call].org then 1 else 0)
    && exists k :: AddedAt(s, call, k)
  }

  ghost predicate AddedAt(s: System, call: nat, k: int)
    requires call in s.calls
  {
    var c := s.calls[call];
    && 0 <= k < |Log(s.chain, c.org)| && k < |AuthorsOf(s, c.org)| && AuthorsOf(s, c.org)[k] == Some(call)
    && Log(s.chain, c.org)[k].body.input == c.input
    && (c.stage.Ended? && c.stage.result.Ok? ==> Log(s.chain, c.org)[k] == c.stage.result.value)
  }

  /** A running call's transaction holds at most its one event. */
  ghost predicate TxIsOfCall(c: Call, t: Tx) {
    && t.org == c.org && |t.pending| <= 1 && (t.phase != Outside ==> t.pending == [])
    && (t.pending != [] ==> t.pending[0].body.input == c.input)
  }

  ghost predicate StageFine(s: System, call: nat)
    requires call in s.calls
  {
    var c := s.calls[call];
    match c.stage
    case Ready => Uncounted(s, call) && c.attempts < MAX_ATTEMPTS && c.access.valid && !Mismatched(c.access, c.input)
    case Running(tx) =>
      && Uncounted(s, call) && 1 <= c.attempts <= MAX_ATTEMPTS && c.access.valid && !Mismatched(c.access, c.input)
      && tx in s.chain.open && TxIsOfCall(c, s.chain.open[tx])
    case Ended(result, unreported) =>
      && (if result.Ok? || unreported then Once(s, call) else Uncounted(s, call))
      && c.attempts <= MAX_ATTEMPTS && (unreported ==> result == Err(AppendFailed))
      && (result == Err(AppendContended) ==> c.attempts == MAX_ATTEMPTS)
      && (result.Ok? || unreported ==> c.access.valid && !Mismatched(c.access, c.input))
  }

  ghost predicate CallFine(s: System, call: nat) {
    if call in s.calls then StageFine(s, call) else Uncounted(s, call)
  }

  /** Every committed event has its author entry. */
  ghost predicate Attributed(s: System, org: string) {
    |AuthorsOf(s, org)| == |Log(s.chain, org)|
  }

  predicate OwnersDiffer(s: System) {
    forall c, d :: c in s.calls && d in s.calls && s.calls[c].stage.Running? && s.calls[d].stage == s.calls[c].stage ==> c == d
  }

  ghost predicate Sound(s: System, codec: Codec) {
    && Inv(s.chain, codec) && OwnersDiffer(s)
    && (forall org {:trigger Attributed(s, org)} :: Attributed(s, org))
    && forall call: nat {:trigger CallFine(s, call)} :: CallFine(s, call)
  }

  // ----- one move -----

  lemma {:induction false} RepeatCount(author: Option<nat>, n: nat, x: Option<nat>)
    ensures |Repeat(author, n)| == n && multiset(Repeat(author, n))[x] == if x == author then n else 0
  {
    if n == 0 {
    } else {
      RepeatCount(author, n - 1, x);
    }
  }

  lemma CountInSum<T>(a: seq<T>, b: seq<T>, x: T)
    ensures multiset(a + b)[x] == multiset(a)[x] + multiset(b)[x]
  {
  }

  /** How many events of the organization a move adds in the name of a call. */
  function Gain(s: System, m: Move, org: string, call: nat): nat {
    if m.Finish? && m.call == call && Runs(s, call) && TxOf(s, call).org == org then |TxOf(s, call).pending| else 0
  }

  lemma CreditedAuthors(s: System, a: Action, author: Option<nat>, org: string, t: System)
    requires t.authors == Credited(s, a, author)
    ensures AuthorsOf(s, org) <= AuthorsOf(t, org)
    ensures AuthorsOf(t, org) == if a.Commit? && a.tx in s.chain.open && s.chain.open[a.tx].org == org
                                 then AuthorsOf(s, org) + Repeat(author, |s.chain.open[a.tx].pending|) else AuthorsOf(s, org)
  {
  }

  /** Logs and authors grow together. */
  lemma MoveGrows(s: System, m: Move, codec: Codec, org: string)
    requires Can(s, m, codec) && Attributed(s, org)
    ensures var t := Next(s, m, codec);
            Attributed(t, org) && Log(s.chain, org) <= Log(t.chain, org) && AuthorsOf(s, org) <= AuthorsOf(t, org)
  {
    var action := ChainAction(s, m, codec);
    if action.Some? {
      StepAppends(s.chain, action.value, codec, org);
      CreditedAuthors(s, action.value, AuthorOf(m), org, Next(s, m, codec));
      if action.value.Commit? {
        RepeatCount(AuthorOf(m), |s.chain.open[action.value.tx].pending|, None);
      }
    }
  }

  lemma CreditedTally(s: System, a: Action, author: Option<nat>, org: string, t: System, call: nat)
    requires t.authors == Credited(s, a, author)
    ensures Tally(t, org, call) == Tally(s, org, call) +
                                   if a.Commit? && a.tx in s.chain.open && s.chain.open[a.tx].org == org && author == Some(call)
                                   then |s.chain.open[a.tx].pending| else 0
  {
    CreditedAuthors(s, a, author, org, t);
    if a.Commit? && a.tx in s.chain.open && s.chain.open[a.tx].org == org {
      var n := |s.chain.open[a.tx].pending|;
      RepeatCount(author, n, Some(call));
      CountInSum(AuthorsOf(s, org), Repeat(author, n), Some(call));
    }
  }

  /** Only a finishing call is credited. */
  lemma MoveCredits(s: System, m: Move, codec: Codec, org: string, call: nat)
    requires Can(s, m, codec)
    ensures Tally(Next(s, m, codec), org, call) == Tally(s, org, call) + Gain(s, m, org, call)
  {
    var action := ChainAction(s, m, codec);
    if action.Some? {
      CreditedTally(s, action.value, AuthorOf(m), org, Next(s, m, codec), call);
    }
  }

  /** A step of one transaction leaves the others as they are. */
  lemma OtherTxKept(s: State, a: Action, codec: Codec, tx: nat)
    requires Enabled(s, a, codec) && tx in s.open && tx != a.tx
    ensures tx in Apply(s, a, codec).open && Apply(s, a, codec).open[tx] == s.open[tx]
  {
  }

  /** The move is not this call's. */
  predicate NotOf(m: Move, call: nat) {
    m.Other? || m.call != call
  }

  /** The transaction of a call that does not move is not touched. */
  lemma TxOfAnother(s: System, m: Move, codec: Codec, call: nat)
    requires Sound(s, codec) && Can(s, m, codec) && NotOf(m, call) && Runs(s, call) && ChainAction(s, m, codec).Some?
    ensures ChainAction(s, m, codec).value.tx != s.calls[call].stage.tx
  {
    if m.Other? {
      assert s.calls[call].stage == Running(s.calls[call].stage.tx);
    } else if m.Open? {
      assert m.tx !in s.chain.open;
    } else {
      assert s.calls[m.call].stage.Running?;
    }
  }

  lemma AddedStays(s: System, t: System, call: nat, k: int)
    requires call in s.calls && call in t.calls && t.calls[call] == s.calls[call] && AddedAt(s, call, k)
    requires Log(s.chain, s.calls[call].org) <= Log(t.chain, s.calls[call].org)
    requires AuthorsOf(s, s.calls[call].org) <= AuthorsOf(t, s.calls[call].org)
    ensures AddedAt(t, call, k)
  {
  }

  /** Only a finishing call's tally changes. */
  lemma TalliesKept(s: System, m: Move, codec: Codec, call: nat)
    requires Sound(s, codec) && Can(s, m, codec) && (NotOf(m, call) || !m.Finish?)
    ensures forall org :: Tally(Next(s, m, codec), org, call) == Tally(s, org, call)
  {
    forall org ensures Tally(Next(s, m, codec), org, call) == Tally(s, org, call) {
      MoveCredits(s, m, codec, org, call);
    }
  }

  lemma OnceKept(s: System, m: Move, codec: Codec, call: nat)
    requires Sound(s, codec) && Can(s, m, codec) && NotOf(m, call) && call in s.calls && Once(s, call)
    requires call in Next(s, m, codec).calls && Next(s, m, codec).calls[call] == s.calls[call]
    ensures Once(Next(s, m, codec), call)
  {
    var org := s.calls[call].org;
    TalliesKept(s, m, codec, call);
    assert Attributed(s, org);
    MoveGrows(s, m, codec, org);
    var k :| AddedAt(s, call, k);
    AddedStays(s, Next(s, m, codec), call, k);
  }

  lemma TxKept(s: System, m: Move, codec: Codec, call: nat)
    requires Sound(s, codec) && Can(s, m, codec) && NotOf(m, call) && Runs(s, call)
    ensures var tx, t := s.calls[call].stage.tx, Next(s, m, codec).chain;
            tx in t.open && t.open[tx] == s.chain.open[tx]
  {
    if ChainAction(s, m, codec).Some? {
      TxOfAnother(s, m, codec, call);
      OtherTxKept(s.chain, ChainAction(s, m, codec).value, codec, s.calls[call].stage.tx);
    }
  }

  lemma RecordKept(s: System, m: Move, codec: Codec, call: nat)
    requires Can(s, m, codec) && NotOf(m, call)
    ensures var calls := Next(s, m, codec).calls;
            (call in calls <==> call in s.calls) && (call in calls ==> calls[call] == s.calls[call])
  {
  }

  /** A move of another leaves a call fine. */
  lemma CallKept(s: System, m: Move, codec: Codec, call: nat)
    requires Sound(s, codec) && Can(s, m, codec) && NotOf(m, call)
    ensures CallFine(Next(s, m, codec), call)
  {
    assert CallFine(s, call);
    RecordKept(s, m, codec, call);
    TalliesKept(s, m, codec, call);
    if call in s.calls {
      match s.calls[call].stage
      case Ready =>
      case Running(_) => TxKept(s, m, codec, call);
      case Ended(result, unreported) =>
        if result.Ok? || unreported {
          OnceKept(s, m, codec, call);
        }
    }
  }

  /** A call's own move that commits nothing. */
  lemma CallMoves(s: System, m: Move, codec: Codec)
    requires Sound(s, codec) && Can(s, m, codec) && !m.Other? && !m.Finish?
    ensures CallFine(Next(s, m, codec), m.call)
  {
    assert CallFine(s, m.call);
    TalliesKept(s, m, codec, m.call);
  }

  lemma FinishTallies(s: System, m: Move, codec: Codec)
    requires Sound(s, codec) && Can(s, m, codec) && m.Finish?
    ensures forall org :: Tally(Next(s, m, codec), org, m.call) == if org == s.calls[m.call].org then 1 else 0
  {
    assert CallFine(s, m.call);
    forall org ensures Tally(Next(s, m, codec), org, m.call) == if org == s.calls[m.call].org then 1 else 0 {
      MoveCredits(s, m, codec, org, m.call);
    }
  }

  lemma FinishAdds(s: System, m: Move, codec: Codec)
    requires Sound(s, codec) && Can(s, m, codec) && m.Finish?
    ensures AddedAt(Next(s, m, codec), m.call, |Log(s.chain, s.calls[m.call].org)|)
  {
    var t, c := Next(s, m, codec), s.calls[m.call];
    assert CallFine(s, m.call) && Attributed(s, c.org);
    StepAppends(s.chain, Commit(c.stage.tx), codec, c.org);
    CreditedAuthors(s, Commit(c.stage.tx), Some(m.call), c.org, t);
    assert Repeat(Some(m.call), 1) == Repeat(Some(m.call), 0) + [Some(m.call)];
  }

  lemma CallFinishes(s: System, m: Move, codec: Codec)
    requires Sound(s, codec) && Can(s, m, codec) && m.Finish?
    ensures CallFine(Next(s, m, codec), m.call)
  {
    assert CallFine(s, m.call);
    FinishTallies(s, m, codec);
    FinishAdds(s, m, codec);
  }

  lemma NewTxIsUnowned(s: System, codec: Codec, tx: nat, call: nat)
    requires Sound(s, codec) && tx !in s.chain.open && call in s.calls
    ensures s.calls[call].stage != Running(tx)
  {
    assert CallFine(s, call);
  }

  lemma OwnersKept(s: System, m: Move, codec: Codec)
    requires Sound(s, codec) && Can(s, m, codec)
    ensures OwnersDiffer(Next(s, m, codec))
  {
    if m.Open? {
      forall c | c in s.calls ensures s.calls[c].stage != Running(m.tx) {
        NewTxIsUnowned(s, codec, m.tx, c);
      }
    }
  }

  lemma MoveKeepsSound(s: System, m: Move, codec: Codec)
    requires Sound(s, codec) && Can(s, m, codec)
    ensures Sound(Next(s, m, codec), codec)
  {
    var t := Next(s, m, codec);
    if ChainAction(s, m, codec).Some? {
      StepKeepsInv(s.chain, ChainAction(s, m, codec).value, codec);
    }
    OwnersKept(s, m, codec);
    forall org ensures Attributed(t, org) {
      assert Attributed(s, org);
      MoveGrows(s, m, codec, org);
    }
    forall call: nat ensures CallFine(t, call) {
      if NotOf(m, call) {
        CallKept(s, m, codec, call);
      } else if m.Finish? {
        CallFinishes(s, m, codec);
      } else {
        CallMoves(s, m, codec);
      }
    }
  }

  // ----- runs -----

  ghost predicate IsHistory(states: seq<System>, moves: seq<Move>, codec: Codec) {
    && |states| == |moves| + 1 && states[0] == START
    && forall i {:trigger IsMove(states, moves, codec, i)} :: 0 <= i < |moves| ==> IsMove(states, moves, codec, i)
  }

  ghost predicate IsMove(states: seq<System>, moves: seq<Move>, codec: Codec, i: int)
    requires 0 <= i < |moves| < |states|
  {
    Goes(states[i], moves[i], states[i + 1], codec)
  }

  ghost predicate Goes(s: System, m: Move, t: System, codec: Codec) {
    Can(s, m, codec) && t == Next(s, m, codec)
  }

  lemma {:induction false} HistoryIsSound(states: seq<System>, moves: seq<Move>, codec: Codec, i: int)
    requires IsHistory(states, moves, codec) && 0 <= i < |states|
    ensures Sound(states[i], codec)
  {
    if i == 0 {
      InitInv(codec);
      forall org ensures Attributed(START, org) { }
      forall call: nat ensures CallFine(START, call) { }
    } else {
      HistoryIsSound(states, moves, codec, i - 1);
      assert IsMove(states, moves, codec, i - 1);
      MoveKeepsSound(states[i - 1], moves[i - 1], codec);
    }
  }

  /** In every interleaving a call that returned an event added exactly that event, one that returned an error
      added none, unless the reply to its commit was lost, and one that has not returned added none. */
  lemma EventsPerCall(states: seq<System>, moves: seq<Move>, codec: Codec, i: int, call: nat, org: string)
    requires IsHistory(states, moves, codec) && 0 <= i < |states| && call in states[i].calls
    ensures var c := states[i].calls[call];
            && Tally(states[i], org, call) ==
               (if c.stage.Ended? && (c.stage.result.Ok? || c.stage.unreported) && org == c.org then 1 else 0)
            && (c.stage.Ended? && c.stage.result.Ok? ==> exists k :: AddedAt(states[i], call, k))
            && (c.stage.Ended? && c.stage.unreported ==> c.stage.result == Err(AppendFailed))
  {
    HistoryIsSound(states, moves, codec, i);
    assert CallFine(states[i], call);
  }

  /** At most three transactions, and AppendContended only after the third. */
  lemma AttemptsAreBounded(states: seq<System>, moves: seq<Move>, codec: Codec, i: int, call: nat)
    requires IsHistory(states, moves, codec) && 0 <= i < |states| && call in states[i].calls
    ensures var c := states[i].calls[call];
            c.attempts <= MAX_ATTEMPTS && (c.stage.Ended? && c.stage.result == Err(AppendContended) ==> c.attempts == MAX_ATTEMPTS)
  {
    HistoryIsSound(states, moves, codec, i);
    assert CallFine(states[i], call);
  }

  /** What a call returned stands, whatever follows. */
  lemma {:induction false} ReturnStands(states: seq<System>, moves: seq<Move>, codec: Codec, i: int, j: int, call: nat)
    requires IsHistory(states, moves, codec) && 0 <= i <= j < |states|
    requires call in states[i].calls && states[i].calls[call].stage.Ended?
    ensures call in states[j].calls && states[j].calls[call] == states[i].calls[call]
    decreases j
  {
    if i == j {
    } else {
      ReturnStands(states, moves, codec, i, j - 1, call);
      assert IsMove(states, moves, codec, j - 1);
    }
  }

  /** The logs these calls share stay chains. */
  lemma LogsAreChains(states: seq<System>, moves: seq<Move>, codec: Codec, i: int, org: string)
    requires IsHistory(states, moves, codec) && 0 <= i < |states|
    ensures IsChain(codec, org, Log(states[i].chain, org)) && |AuthorsOf(states[i], org)| == |Log(states[i].chain, org)|
  {
    HistoryIsSound(states, moves, codec, i);
    assert OrgFine(states[i].chain, codec, org) && Attributed(states[i], org);
  }

  // ----- a lost reply -----

  /** Call 0 in transaction 0, before anything was committed. */
  function Midway(c: Call, locked: bool, phase: Phase, pending: seq<Event>): System {
    System(State(map[], map[], if locked then map[c.org := 0] else map[], map[0 := Tx(c.org, phase, pending)]), map[], map[0 := c])
  }

  /** Call 0 before its first transaction. */
  function Waiting(c: Call): System {
    System(INIT, map[], map[0 := c.(attempts := 0, stage := Ready)])
  }

  function Entry(c: Call): Move {
    Enter(0, c.org, c.access, c.input)
  }

  lemma CallEnters(codec: Codec, c: Call)
    requires c.access.valid && !Mismatched(c.access, c.input)
    ensures Goes(START, Entry(c), Waiting(c), codec)
  {
  }

  lemma CallOpens(codec: Codec, c: Call)
    requires c.attempts == 1 && c.stage == Running(0)
    ensures Goes(Waiting(c), Open(0, 0), Midway(c, false, Outside, []), codec)
  {
  }

  lemma CallLocks(codec: Codec, c: Call)
    requires c.stage == Running(0)
    ensures Goes(Midway(c, false, Outside, []), TakeLock(0), Midway(c, true, Locked, []), codec)
  {
  }

  lemma CallLooksUp(codec: Codec, c: Call)
    requires c.stage == Running(0)
    ensures Goes(Midway(c, true, Locked, []), LookUp(0), Midway(c, true, HasHead(Head(0, ZERO_HASH)), []), codec)
  {
  }

  lemma CallAdds(codec: Codec, c: Call) returns (event: Event)
    requires c.stage == Running(0) && codec.validId(c.org) && codec.validInput(c.input)
    ensures Goes(Midway(c, true, HasHead(Head(0, ZERO_HASH)), []), Add(0), Midway(c, true, Outside, [event]), codec)
  {
    event := Build(codec, c.org, c.input, Head(0, ZERO_HASH)).value;
    assert [] + [event] == [event];
  }

  lemma ReplyIsLost(codec: Codec, c: Call, event: Event) returns (lost: System)
    requires c.stage == Running(0)
    ensures Goes(Midway(c, true, Outside, [event]), Finish(0, false), lost, codec)
    ensures lost.calls == map[0 := c.(stage := Ended(Err(AppendFailed), true))]
  {
    lost := Next(Midway(c, true, Outside, [event]), Finish(0, false), codec);
  }

  lemma MoveOnward(states: seq<System>, moves: seq<Move>, codec: Codec, m: Move, t: System)
    requires IsHistory(states, moves, codec) && Goes(states[|states| - 1], m, t, codec)
    ensures IsHistory(states + [t], moves + [m], codec)
  {
    forall i | 0 <= i < |moves| + 1 ensures IsMove(states + [t], moves + [m], codec, i) {
      if i < |moves| {
        assert IsMove(states, moves, codec, i);
      }
    }
  }

  /** A call up to its insert. */
  lemma CallInserts(codec: Codec, c: Call) returns (states: seq<System>, moves: seq<Move>, event: Event)
    requires c.access.valid && !Mismatched(c.access, c.input) && c.attempts == 1 && c.stage == Running(0)
    requires codec.validId(c.org) && codec.validInput(c.input)
    ensures IsHistory(states, moves, codec) && |states| == 6 && states[5] == Midway(c, true, Outside, [event])
  {
    CallEnters(codec, c);
    MoveOnward([START], [], codec, Entry(c), Waiting(c));
    CallOpens(codec, c);
    MoveOnward([START] + [Waiting(c)], [] + [Entry(c)], codec, Open(0, 0), Midway(c, false, Outside, []));
    states, moves := [START] + [Waiting(c)] + [Midway(c, false, Outside, [])], [] + [Entry(c)] + [Open(0, 0)];
    CallLocks(codec, c);
    MoveOnward(states, moves, codec, TakeLock(0), Midway(c, true, Locked, []));
    states, moves := states + [Midway(c, true, Locked, [])], moves + [TakeLock(0)];
    CallLooksUp(codec, c);
    MoveOnward(states, moves, codec, LookUp(0), Midway(c, true, HasHead(Head(0, ZERO_HASH)), []));
    states, moves := states + [Midway(c, true, HasHead(Head(0, ZERO_HASH)), [])], moves + [LookUp(0)];
    event := CallAdds(codec, c);
    MoveOnward(states, moves, codec, Add(0), Midway(c, true, Outside, [event]));
    states, moves := states + [Midway(c, true, Outside, [event])], moves + [Add(0)];
  }

  /** A call whose reply to the commit was lost: it fails, and its event stands. */
  lemma LostReply(codec: Codec, org: string, access: Access, input: EventInput) returns (states: seq<System>, moves: seq<Move>)
    requires codec.validId(org) && codec.validInput(input) && access.valid && !Mismatched(access, input)
    ensures IsHistory(states, moves, codec) && |states| == 7 && 0 in states[6].calls
    ensures states[6].calls[0].stage == Ended(Err(AppendFailed), true) && Tally(states[6], org, 0) == 1
  {
    var c := Call(org, access, input, 1, Running(0));
    var event;
    states, moves, event := CallInserts(codec, c);
    var lost := ReplyIsLost(codec, c, event);
    MoveOnward(states, moves, codec, Finish(0, false), lost);
    states, moves := states + [lost], moves + [Finish(0, false)];
    EventsPerCall(states, moves, codec, 6, 0, org);
  }

  // ----- what decides a call -----

  /** A rolled-back transaction ends its call unless the failure was one of serialization and fewer than three
      transactions were tried; then the call tries again. */
  lemma LossDecides(s: System, codec: Codec, call: nat, serialization: bool)
    requires Can(s, Lose(call, serialization), codec)
    ensures var stage := Next(s, Lose(call, serialization), codec).calls[call].stage;
            && (!serialization ==> stage == Ended(Err(AppendFailed), false))
            && (serialization && s.calls[call].attempts < 3 ==> stage == Ready)
            && (serialization && s.calls[call].attempts >= 3 ==> stage == Ended(Err(AppendContended), false))
  {
  }

  /** A call is refused by Build only for what is wrong with its organization or input, on logs whose hashes are
      digests. */
  lemma RefusalNeedsFault(s: System, codec: Codec, call: nat)
    requires Sound(s, codec) && Can(s, Refuse(call), codec)
    requires var log := Log(s.chain, TxOf(s, call).org) + TxOf(s, call).pending; log != [] ==> IsSha256(log[|log| - 1].hash)
    ensures !codec.validId(s.calls[call].org) || !codec.validInput(s.calls[call].input)
  {
    var tx := s.calls[call].stage.tx;
    assert CallFine(s, call) && TxFine(s.chain, codec, tx);
    ChainAcceptsInput(codec, TxOf(s, call).org, Log(s.chain, TxOf(s, call).org) + TxOf(s, call).pending, s.calls[call].input);
  }

  /** Transactions that no call runs do what the tables and locks let them. */
  lemma OthersAreFree(s: System, codec: Codec, a: Action)
    requires Enabled(s.chain, a, codec) && forall c :: c in s.calls ==> s.calls[c].stage != Running(a.tx)
    ensures Can(s, Other(a), codec)
  {
  }
}
