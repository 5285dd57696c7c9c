/** Operation dispatch (internal/executor/executor.go): handlers by type, and a record of recently marked
    operation IDs that suppresses replays and is thinned out by a background eviction loop. */
module Executor {
  import opened Options
  import opened Redact

  /** Nanoseconds on a monotone clock. */
  type Time = int

  const MINUTE: Time := 60_000_000_000
  const HOUR: Time := 60 * MINUTE

  /** An operation; its payload matters only to handlers. */
  datatype Operation = Operation(id: string, opType: string, data: string)

  datatype Result = Result(status: string, message: string, data: string)

  /** What a handler returns: in Go both values are pointers or interfaces that may be nil. */
  datatype HandlerReturn = HandlerReturn(result: Option<Result>, error: Option<string>)

  /** How a call to Execute ends. */
  datatype Outcome =
    | UnknownType(opType: string)
    | AlreadyProcessed
    | Failed(message: string)
    | Completed(result: Result)
    | Panicked

  // The record of marked IDs.

  type Seen = map<string, Time>

  /** The record after marking id, which happens only if it is not recorded yet. */
  function Marked(seen: Seen, id: string, now: Time): Seen {
    if id in seen then seen else seen[id := now]
  }

  /** The record after an eviction at time now: entries marked before the cutoff, an hour earlier, are gone. */
  function Evicted(seen: Seen, now: Time): Seen {
    map id | id in seen && !(seen[id] < now - HOUR) :: seen[id]
  }

  function SafeErrorText(op: Operation, error: string): string {
    RedactSecrets("executor: " + op.opType + " " + op.id + ": " + error)
  }

  /** What Execute makes of a handler's return. A nil error with a nil result is dereferenced for the log. */
  function Finished(op: Operation, ret: HandlerReturn): Outcome {
    match ret.error
    case Some(e) => Failed(SafeErrorText(op, e))
    case None =>
      match ret.result
      case Some(r) => Completed(r.(message := RedactSecrets(r.message)))
      case None => Panicked
  }

  /** A handler keeps the contract that a nil error comes with a result. */
  predicate HandlerContract(ret: HandlerReturn) { ret.error.None? ==> ret.result.Some? }

  /** Execute crashes exactly when a handler breaks its contract. */
  lemma PanicsExactlyOnBrokenContract(op: Operation, ret: HandlerReturn)
    ensures Finished(op, ret).Panicked? <==> !HandlerContract(ret)
  {}

  /** The executor. Handlers are values of an arbitrary type; what one returns on a call is given by the call. */
  class Executor<H> {
    var handlers: map<string, H>
    var seen: Seen

    constructor ()
      ensures handlers == map[] && seen == map[]
    {
      handlers, seen := map[], map[];
    }

    /** Adds a handler; a type that is already registered is a panic and changes nothing. */
    method Register(opType: string, handler: H) returns (panicked: bool)
      modifies this`handlers
      ensures panicked <==> opType in old(handlers)
      ensures handlers == if panicked then old(handlers) else old(handlers)[opType := handler]
    {
      if opType in handlers { return true; }
      handlers := handlers[opType := handler];
      return false;
    }

    /** The first lock region of Execute. */
    method Lookup(opType: string) returns (handler: Option<H>)
      ensures handler == if opType in handlers then Some(handlers[opType]) else None
    {
      if opType in handlers { handler := Some(handlers[opType]); } else { handler := None; }
    }

    /** The second lock region of Execute: check and mark in one go, before the handler starts. */
    method CheckAndMark(id: string, now: Time) returns (duplicate: bool)
      modifies this`seen
      ensures duplicate <==> id in old(seen)
      ensures seen == Marked(old(seen), id, now)
    {
      if id in seen { return true; }
      seen := seen[id := now];
      return false;
    }

    /** One pass of evictLoop: entries are deleted while the map is being ranged over, in any order. */
    method EvictOnce(now: Time)
      modifies this`seen
      ensures seen == Evicted(old(seen), now)
    {
      var cutoff := now - HOUR;
      ghost var before := seen;
      var todo := seen.Keys;
      while todo != {}
        invariant todo <= before.Keys
        invariant forall id :: id in seen <==> id in before && (id in todo || !(before[id] < cutoff))
        invariant forall id | id in seen :: seen[id] == before[id]
        decreases todo
      {
        var id :| id in todo;
        todo := todo - {id};
        if id in seen && seen[id] < cutoff {
          seen := seen - {id};
        }
      }
    }

    /** A whole call with no other call between its lock regions; ret is what the handler returns if it starts. */
    method Execute(op: Operation, now: Time, ret: HandlerReturn) returns (outcome: Outcome, started: bool)
      modifies this`seen
      ensures op.opType !in handlers ==>
        outcome == UnknownType(op.opType) && !started && seen == old(seen)
      ensures op.opType in handlers && op.id in old(seen) ==>
        outcome == AlreadyProcessed && !started && seen == old(seen)
      ensures op.opType in handlers && op.id !in old(seen) ==>
        outcome == Finished(op, ret) && started && seen == old(seen)[op.id := now]
      ensures started ==>
        match (ret.error, ret.result)
        case (Some(e), _) => outcome == Failed(RedactSecrets("executor: " + op.opType + " " + op.id + ": " + e))
        case (None, Some(r)) => outcome == Completed(Result(r.status, RedactSecrets(r.message), r.data))
        case (None, None) => outcome == Panicked
    {
      var handler := Lookup(op.opType);
      if handler.None? { return UnknownType(op.opType), false; }
      var duplicate := CheckAndMark(op.id, now);
      if duplicate { return AlreadyProcessed, false; }
      match ret.error {
        case Some(e) => return Failed(SafeErrorText(op, e)), true;
        case None =>
          match ret.result {
            case Some(r) => return Completed(r.(message := RedactSecrets(r.message))), true;
            case None => return Panicked, true;
          }
      }
    }
  }
}
