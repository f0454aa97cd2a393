/** Store.Append (internal/audit/audit.go): a bounded retry of whole transactions among concurrent appenders. */
module AuditStore {
  import opened AuditChain

  const MAX_ATTEMPTS := 3

  /** The authenticated caller; valid: the access context validates and names an organization and a principal. */
  datatype Access = Access(valid: bool, principalId: string, requestId: string)

  /** How a transaction ends: committed, committed although an error came back, or rolled back for a reason. */
  datatype Ending = Committed(event: Event) | Unreported | Invalid | SerializationFailure | OtherFailure {
    predicate TookEffect() {
      Committed? || Unreported?
    }
  }

  predicate Mismatched(access: Access, input: EventInput) {
    input.requestId != access.requestId || (!input.system && input.actorPrincipalId != access.principalId)
  }

  /** One organization's audit log; authors: the Append call that added each event. */
  class Store {
    const codec: Codec
    const org: string
    var log: seq<Event>
    ghost var authors: seq<nat>

    constructor (codec: Codec, org: string)
      ensures Valid() && log == []
    {
      this.codec, this.org, log, authors := codec, org, [], [];
    }

    ghost predicate Valid()
      reads this
    {
      IsChain(codec, org, log) && |authors| == |log|
    }

    /** Another call commits an event, or none, while this one does not hold the lock. */
    method OtherCommits(ghost me: nat)
      requires Valid()
      modifies this
      ensures Valid() && old(log) <= log && multiset(authors)[me] == old(multiset(authors)[me])
    {
      var input: EventInput := *;
      var built := Build(codec, org, input, HeadOf(log));
      if built.Ok? {
        BuildExtends(codec, org, log, input);
        log, authors := log + [built.value], authors + [me + 1];
      }
    }

    method Others(ghost me: nat)
      requires Valid()
      modifies this
      ensures Valid() && old(log) <= log && multiset(authors)[me] == old(multiset(authors)[me])
    {
      var n: nat :| n >= 0;
      for i := 0 to n
        invariant Valid() && old(log) <= log && multiset(authors)[me] == old(multiset(authors)[me])
      {
        OtherCommits(me);
      }
    }

    /** database.Write around AppendInTransaction: the lock is taken, the head read, the event built and
        inserted. The insert or the commit may fail, and then the transaction leaves nothing; or the reply to
        the commit is lost. */
    method Attempt(ghost me: nat, input: EventInput) returns (ending: Ending)
      requires Valid()
      modifies this
      ensures Valid() && old(log) <= log
      ensures multiset(authors)[me] == old(multiset(authors)[me]) + if ending.TookEffect() then 1 else 0
      ensures ending.Committed? ==> |old(log)| < |log| && log[|log| - 1] == ending.event && authors[|log| - 1] == me
      ensures ending.Committed? ==> ending.event.body.input == input && codec.validInput(input)
      ensures ending.Invalid? ==> Build(codec, org, input, HeadOf(log)).Err?
      ensures ending.Invalid? ==> Build(codec, org, input, HeadOf(log)).Err?
      ensures ending.Invalid? ==> Build(codec, org, input, HeadOf(log)).Err?
    {
      Others(me);
      var built := Build(codec, org, input, HeadOf(log));
      if built.Err? {
        return Invalid;
      }
      var failure: Ending := *;
      if failure == SerializationFailure || failure == OtherFailure {
        return failure;
      }
      BuildExtends(codec, org, log, input);
      log, authors := log + [built.value], authors + [me];
      return if failure == Unreported then Unreported else Committed(built.value);
    }

    /** Append: one new event of this call on success, none on failure unless the reply to its commit was lost,
        at most three transactions. */
    method Append(ghost me: nat, access: Access, input: EventInput)
      returns (result: Result<Event>, ghost attempts: nat, ghost unreported: bool)
      requires Valid() && multiset(authors)[me] == 0
      modifies this
      ensures Valid() && old(log) <= log && attempts <= MAX_ATTEMPTS
      ensures multiset(authors)[me] == if result.Ok? || unreported then 1 else 0
      ensures unreported ==> result == Err(AppendFailed)
      ensures result.Ok? ==> exists k :: |old(log)| <= k < |log| && log[k] == result.value && authors[k] == me
      ensures result.Ok? ==> result.value.body.input == input && codec.validInput(input) && access.valid
      ensures result.Ok? ==> input.requestId == access.requestId && (input.system || input.actorPrincipalId == access.principalId)
      ensures !access.valid ==> result == Err(AppendFailed) && attempts == 0
      ensures access.valid && (input.requestId != access.requestId || (!input.system && input.actorPrincipalId != access.principalId))
              ==> result == Err(InvalidEvent) && attempts == 0
      ensures result == Err(AppendContended) ==> attempts == MAX_ATTEMPTS
      ensures result == Err(InvalidEvent) ==>
                || input.requestId != access.requestId || (!input.system && input.actorPrincipalId != access.principalId)
                || Build(codec, org, input, HeadOf(log)).Err?
      ensures result == Err(InvalidEvent) ==>
                || input.requestId != access.requestId || (!input.system && input.actorPrincipalId != access.principalId)
                || Build(codec, org, input, HeadOf(log)).Err?
      ensures result == Err(InvalidEvent) ==>
                || input.requestId != access.requestId || (!input.system && input.actorPrincipalId != access.principalId)
                || Build(codec, org, input, HeadOf(log)).Err?
    {
      attempts, unreported := 0, false;
      if !access.valid {
        return Err(AppendFailed), attempts, unreported;
      }
      if Mismatched(access, input) {
        return Err(InvalidEvent), attempts, unreported;
      }
      for attempt := 0 to MAX_ATTEMPTS
        invariant Valid() && old(log) <= log && multiset(authors)[me] == 0 && attempts == attempt && !unreported
      {
        var ending := Attempt(me, input);
        attempts := attempts + 1;
        match ending
        case Committed(event) => return Ok(event), attempts, unreported;
        case Unreported => return Err(AppendFailed), attempts, true;
        case Invalid => return Err(InvalidEvent), attempts, unreported;
        case OtherFailure => return Err(AppendFailed), attempts, unreported;
        case SerializationFailure =>
      }
      return Err(AppendContended), attempts, unreported;
    }
  }
}
