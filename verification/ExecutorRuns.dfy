/** Every interleaving of any number of Execute calls, registrations and evictions. Each lock region of the
    executor is one atomic step; handlers run between steps. */
module ExecutorRuns {
  import opened Options
  import opened Executor
  import opened Redact
  import opened RedactTheorems

  /** Where a call stands. */
  datatype Call = Accepted(op: Operation) | Running(op: Operation) | Done(op: Operation, outcome: Outcome)

  /** What happened to the record, oldest first. */
  datatype Event = Start(id: string, at: Time, call: nat) | Skip(id: string, at: Time, call: nat) | Evict(at: Time)

  datatype System = System(
    types: set<string>,
    seen: Seen,
    calls: map<nat, Call>,
    clock: Time,
    log: seq<Event>)

  datatype Step =
    | Register(opType: string)
    | Lookup(call: nat, op: Operation)
    | CheckAndMark(call: nat, now: Time)
    | Return(call: nat, ret: HandlerReturn)
    | EvictAll(now: Time)

  function Initial(clock: Time): System { System({}, map[], map[], clock, []) }

  /** A step, if it can be taken: calls have distinct names, and the clock does not run backwards. */
  function Apply(s: System, step: Step): Option<System> {
    match step
    case Register(t) => if t in s.types then None else Some(s.(types := s.types + {t}))
    case Lookup(c, op) =>
      if c in s.calls then None
      else if op.opType in s.types then Some(s.(calls := s.calls[c := Accepted(op)]))
      else Some(s.(calls := s.calls[c := Done(op, UnknownType(op.opType))]))
    case CheckAndMark(c, now) =>
      if c !in s.calls || !s.calls[c].Accepted? || now < s.clock then None else
      var op := s.calls[c].op;
      if op.id in s.seen then
        Some(s.(calls := s.calls[c := Done(op, AlreadyProcessed)], clock := now, log := s.log + [Skip(op.id, now, c)]))
      else
        Some(s.(calls := s.calls[c := Running(op)], seen := Marked(s.seen, op.id, now), clock := now,
                log := s.log + [Start(op.id, now, c)]))
    case Return(c, ret) =>
      if c !in s.calls || !s.calls[c].Running? then None else
      Some(s.(calls := s.calls[c := Done(s.calls[c].op, Finished(s.calls[c].op, ret))]))
    case EvictAll(now) =>
      if now < s.clock then None else
      Some(s.(seen := Evicted(s.seen, now), clock := now, log := s.log + [Evict(now)]))
  }

  /** The system after the steps of a run, if all can be taken in that order. */
  function Run(s: System, steps: seq<Step>): Option<System>
    decreases |steps|
  {
    if steps == [] then Some(s) else
    match Run(s, steps[..|steps| - 1])
    case Some(before) => Apply(before, steps[|steps| - 1])
    case None => None
  }

  predicate Reachable(clock: Time, steps: seq<Step>, s: System) { Run(Initial(clock), steps) == Some(s) }

  // The unbounded history that the record stands for.

  /** log[k] is a start of id at time t, with no later eviction that reaches it. */
  predicate Holds(log: seq<Event>, id: string, t: Time, k: nat)
  {
    && k < |log| && log[k].Start? && log[k].id == id && log[k].at == t
    && forall j | k < j < |log| && log[j].Evict? :: log[j].at - HOUR <= t
  }

  predicate Ordered(log: seq<Event>, clock: Time) {
    && (forall i, j | 0 <= i < j < |log| :: log[i].at <= log[j].at)
    && (forall i | 0 <= i < |log| :: log[i].at <= clock)
  }

  /** The record holds an ID exactly when some start of it has not been reached by an eviction since. */
  ghost predicate RefinesHistory(seen: Seen, log: seq<Event>) {
    && (forall id | id in seen :: exists k: nat :: Holds(log, id, seen[id], k))
    && (forall id, t, k: nat | Holds(log, id, t, k) :: id in seen && seen[id] == t)
  }

  /** Starts of the same ID lie more than an hour apart. */
  predicate Spaced(log: seq<Event>) {
    forall i, j | 0 <= i < j < |log| && log[i].Start? && log[j].Start? && log[i].id == log[j].id ::
      log[j].at - log[i].at > HOUR
  }

  /** A start was not suppressed because nothing held, a skip was suppressed because something did. */
  ghost predicate Justified(log: seq<Event>) {
    forall j | 0 <= j < |log| ::
      && (log[j].Start? ==> forall t, k: nat :: !Holds(log[..j], log[j].id, t, k))
      && (log[j].Skip? ==> exists t, k: nat :: Holds(log[..j], log[j].id, t, k))
  }

  ghost predicate Inv(s: System) {
    Ordered(s.log, s.clock) && RefinesHistory(s.seen, s.log) && Spaced(s.log) && Justified(s.log)
  }

  lemma HoldsAppend(log: seq<Event>, e: Event, id: string, t: Time, k: nat)
    requires k < |log|
    ensures Holds(log + [e], id, t, k) <==> Holds(log, id, t, k) && (e.Evict? ==> e.at - HOUR <= t)
  {
    var longer := log + [e];
    if Holds(longer, id, t, k) {
      assert longer[k] == log[k];
      forall j | k < j < |log| && log[j].Evict? ensures log[j].at - HOUR <= t { assert longer[j] == log[j]; }
      assert longer[|log|] == e;
    }
  }

  lemma PrefixesAppend(log: seq<Event>, e: Event)
    requires Justified(log)
    requires e.Start? ==> forall t, k: nat :: !Holds(log, e.id, t, k)
    requires e.Skip? ==> exists t, k: nat :: Holds(log, e.id, t, k)
    ensures Justified(log + [e])
  {
    var longer := log + [e];
    forall j | 0 <= j < |longer|
      ensures longer[j].Start? ==> forall t, k: nat :: !Holds(longer[..j], longer[j].id, t, k)
      ensures longer[j].Skip? ==> exists t, k: nat :: Holds(longer[..j], longer[j].id, t, k)
    {
      if j < |log| {
        assert longer[..j] == log[..j] && longer[j] == log[j];
      } else {
        assert longer[..j] == log && longer[j] == e;
      }
    }
  }

  /** A start that no longer holds was reached by an eviction, more than an hour after it. */
  lemma GoneStartIsOld(log: seq<Event>, clock: Time, id: string, i: nat)
    requires Ordered(log, clock) && i < |log| && log[i].Start? && log[i].id == id
    requires forall t, k: nat :: !Holds(log, id, t, k)
    ensures clock - log[i].at > HOUR
  {
    assert !Holds(log, id, log[i].at, i);
    var j :| i < j < |log| && log[j].Evict? && log[j].at - HOUR > log[i].at;
  }

  lemma OrderedAppend(log: seq<Event>, clock: Time, e: Event)
    requires Ordered(log, clock) && clock <= e.at
    ensures Ordered(log + [e], e.at)
  {}

  lemma StartKeepsInv(s: System, id: string, now: Time, c: nat)
    requires Inv(s) && id !in s.seen && s.clock <= now
    ensures Inv(s.(seen := s.seen[id := now], clock := now, log := s.log + [Start(id, now, c)]))
  {
    hide Justified;
    var e, log := Start(id, now, c), s.log + [Start(id, now, c)];
    var seen := s.seen[id := now];
    OrderedAppend(s.log, s.clock, e);
    PrefixesAppend(s.log, e);
    forall x | x in seen ensures exists k: nat :: Holds(log, x, seen[x], k) {
      if x == id {
        assert Holds(log, id, now, |s.log|);
      } else {
        var k: nat :| Holds(s.log, x, s.seen[x], k);
        HoldsAppend(s.log, e, x, s.seen[x], k);
      }
    }
    forall x, t, k: nat | Holds(log, x, t, k) ensures x in seen && seen[x] == t {
      if k < |s.log| { HoldsAppend(s.log, e, x, t, k); }
    }
    forall i, j | 0 <= i < j < |log| && log[i].Start? && log[j].Start? && log[i].id == log[j].id
      ensures log[j].at - log[i].at > HOUR
    {
      assert log[i] == s.log[i];
      if j == |s.log| { GoneStartIsOld(s.log, s.clock, id, i); } else { assert log[j] == s.log[j]; }
    }
  }

  lemma SkipKeepsInv(s: System, id: string, now: Time, c: nat)
    requires Inv(s) && id in s.seen && s.clock <= now
    ensures Inv(s.(clock := now, log := s.log + [Skip(id, now, c)]))
  {
    hide Justified;
    var e, log := Skip(id, now, c), s.log + [Skip(id, now, c)];
    OrderedAppend(s.log, s.clock, e);
    PrefixesAppend(s.log, e);
    forall x | x in s.seen ensures exists k: nat :: Holds(log, x, s.seen[x], k) {
      var k: nat :| Holds(s.log, x, s.seen[x], k);
      HoldsAppend(s.log, e, x, s.seen[x], k);
    }
    forall x, t, k: nat | Holds(log, x, t, k) ensures x in s.seen && s.seen[x] == t {
      assert k < |s.log|;
      HoldsAppend(s.log, e, x, t, k);
    }
  }

  lemma EvictionKeepsInv(s: System, now: Time)
    requires Inv(s) && s.clock <= now
    ensures Inv(s.(seen := Evicted(s.seen, now), clock := now, log := s.log + [Evict(now)]))
  {
    hide Justified;
    var e, log := Evict(now), s.log + [Evict(now)];
    var seen := Evicted(s.seen, now);
    OrderedAppend(s.log, s.clock, e);
    PrefixesAppend(s.log, e);
    forall x | x in seen ensures exists k: nat :: Holds(log, x, seen[x], k) {
      var k: nat :| Holds(s.log, x, s.seen[x], k);
      HoldsAppend(s.log, e, x, s.seen[x], k);
    }
    forall x, t, k: nat | Holds(log, x, t, k) ensures x in seen && seen[x] == t {
      assert k < |s.log|;
      HoldsAppend(s.log, e, x, t, k);
    }
  }

  lemma StepKeepsInv(s: System, step: Step)
    requires Inv(s) && Apply(s, step).Some?
    ensures Inv(Apply(s, step).value)
  {
    hide Inv;
    match step
    case CheckAndMark(c, now) =>
      var id := s.calls[c].op.id;
      if id in s.seen {
        SkipKeepsInv(s, id, now, c);
        SameRecord(s.(clock := now, log := s.log + [Skip(id, now, c)]), Apply(s, step).value);
      } else {
        StartKeepsInv(s, id, now, c);
        SameRecord(s.(seen := s.seen[id := now], clock := now, log := s.log + [Start(id, now, c)]),
          Apply(s, step).value);
      }
    case EvictAll(now) => EvictionKeepsInv(s, now);
    case Register(_) => SameRecord(s, Apply(s, step).value);
    case Lookup(_, _) => SameRecord(s, Apply(s, step).value);
    case Return(_, _) => SameRecord(s, Apply(s, step).value);
  }

  lemma SameRecord(s: System, t: System)
    requires Inv(s) && t.seen == s.seen && t.log == s.log && t.clock == s.clock
    ensures Inv(t)
  {}

  lemma {:induction false} ReachableInv(clock: Time, steps: seq<Step>, s: System)
    requires Reachable(clock, steps, s)
    ensures Inv(s)
    ensures clock <= s.clock && forall i | 0 <= i < |s.log| :: clock <= s.log[i].at
    decreases |steps|
  {
    hide Inv;
    if steps == [] {
      InitialInv(clock);
    } else {
      var before := Run(Initial(clock), steps[..|steps| - 1]).value;
      ReachableInv(clock, steps[..|steps| - 1], before);
      StepKeepsInv(before, steps[|steps| - 1]);
    }
  }

  lemma InitialInv(clock: Time)
    ensures Inv(Initial(clock))
  {}

  // The main results.

  /** At most once an hour: in every run, any two starts of the same operation ID have mark times more than
      an hour apart. */
  lemma StartsAreAnHourApart(clock: Time, steps: seq<Step>, s: System, i: nat, j: nat)
    requires Reachable(clock, steps, s) && i < j < |s.log|
    requires s.log[i].Start? && s.log[j].Start? && s.log[i].id == s.log[j].id
    ensures s.log[j].at - s.log[i].at > HOUR == 3_600_000_000_000
  {
    ReachableInv(clock, steps, s);
  }

  /** The record with evictions is exact: it holds an ID, with its mark time, if and only if the unbounded
      history has a start of the ID that no eviction since has passed. */
  lemma RecordIsHistory(clock: Time, steps: seq<Step>, s: System, id: string, t: Time)
    requires Reachable(clock, steps, s)
    ensures id in s.seen && s.seen[id] == t <==> exists k: nat :: Holds(s.log, id, t, k)
  {
    ReachableInv(clock, steps, s);
  }

  /** From ten minutes after the executor started, every mark attempt has an eviction at most ten minutes
      before it. */
  predicate Punctual(clock: Time, log: seq<Event>) {
    forall j | 0 <= j < |log| && !log[j].Evict? && log[j].at - clock >= 10 * MINUTE ::
      exists i | 0 <= i < j :: log[i].Evict? && log[j].at - log[i].at <= 10 * MINUTE
  }

  /** A replay within an hour of the last start is always suppressed. */
  lemma ReplayWithinAnHourIsSkipped(clock: Time, steps: seq<Step>, s: System, i: nat, j: nat)
    requires Reachable(clock, steps, s) && i < j < |s.log|
    requires s.log[i].Start? && !s.log[j].Evict? && s.log[i].id == s.log[j].id
    requires s.log[j].at - s.log[i].at <= HOUR
    ensures s.log[j].Skip?
  {
    ReachableInv(clock, steps, s);
  }

  /** If evictions keep their ten-minute period, a call is suppressed only within seventy minutes of a start
      of the same ID. */
  lemma SkippedOnlyWithinSeventyMinutes(clock: Time, steps: seq<Step>, s: System, j: nat)
    requires Reachable(clock, steps, s) && Punctual(clock, s.log)
    requires j < |s.log| && s.log[j].Skip?
    ensures exists k | 0 <= k < j ::
      s.log[k].Start? && s.log[k].id == s.log[j].id && s.log[j].at - s.log[k].at <= 70 * MINUTE == 4_200_000_000_000
  {
    ReachableInv(clock, steps, s);
    var log := s.log;
    var t, k: nat :| Holds(log[..j], log[j].id, t, k);
    assert log[k] == log[..j][k];
    if log[j].at - clock >= 10 * MINUTE {
      var i :| 0 <= i < j && log[i].Evict? && log[j].at - log[i].at <= 10 * MINUTE;
      assert log[i] == log[..j][i];
      if i > k { assert log[i].at - HOUR <= t; }
    }
  }

  // Calls.

  /** The call ran a handler to its end. */
  predicate Handled(call: Call) { call.Done? && !call.outcome.UnknownType? && !call.outcome.AlreadyProcessed? }

  predicate Started(log: seq<Event>, c: nat, id: string) {
    exists k | 0 <= k < |log| :: log[k].Start? && log[k].call == c && log[k].id == id
  }

  predicate Skipped(log: seq<Event>, c: nat, id: string) {
    exists k | 0 <= k < |log| :: log[k].Skip? && log[k].call == c && log[k].id == id
  }

  predicate CallsLogged(s: System) {
    forall c | c in s.calls ::
      && (s.calls[c].Running? || Handled(s.calls[c]) ==> Started(s.log, c, s.calls[c].op.id))
      && (s.calls[c].Done? && s.calls[c].outcome.AlreadyProcessed? ==> Skipped(s.log, c, s.calls[c].op.id))
  }

  lemma LoggedStays(log: seq<Event>, e: Event, c: nat, id: string)
    ensures Started(log, c, id) ==> Started(log + [e], c, id)
    ensures Skipped(log, c, id) ==> Skipped(log + [e], c, id)
    ensures e == Start(id, e.at, c) ==> Started(log + [e], c, id)
    ensures e == Skip(id, e.at, c) ==> Skipped(log + [e], c, id)
  {
    var longer := log + [e];
    assert longer[|log|] == e;
    if Started(log, c, id) {
      var k :| 0 <= k < |log| && log[k].Start? && log[k].call == c && log[k].id == id;
      assert longer[k] == log[k];
    }
    if Skipped(log, c, id) {
      var k :| 0 <= k < |log| && log[k].Skip? && log[k].call == c && log[k].id == id;
      assert longer[k] == log[k];
    }
  }

  lemma StepKeepsCallsLogged(s: System, step: Step)
    requires CallsLogged(s) && Apply(s, step).Some?
    ensures CallsLogged(Apply(s, step).value)
  {
    hide Started, Skipped, Evicted, Marked;
    var t := Apply(s, step).value;
    forall c | c in t.calls
      ensures t.calls[c].Running? || Handled(t.calls[c]) ==> Started(t.log, c, t.calls[c].op.id)
      ensures t.calls[c].Done? && t.calls[c].outcome.AlreadyProcessed? ==> Skipped(t.log, c, t.calls[c].op.id)
    {
      if t.log != s.log { LoggedStays(s.log, t.log[|s.log|], c, t.calls[c].op.id); }
    }
  }

  lemma {:induction false} ReachableCallsLogged(clock: Time, steps: seq<Step>, s: System)
    requires Reachable(clock, steps, s)
    ensures CallsLogged(s)
    decreases |steps|
  {
    if steps != [] {
      hide CallsLogged, Apply;
      var before := Run(Initial(clock), steps[..|steps| - 1]).value;
      ReachableCallsLogged(clock, steps[..|steps| - 1], before);
      StepKeepsCallsLogged(before, steps[|steps| - 1]);
    }
  }

  /** Two calls with the same operation ID that both ran a handler marked the ID more than an hour apart,
      however their steps interleave; a replay after a failure is no exception. */
  lemma HandledCallsAreAnHourApart(clock: Time, steps: seq<Step>, s: System, c: nat, d: nat)
    requires Reachable(clock, steps, s) && c in s.calls && d in s.calls && c != d
    requires Handled(s.calls[c]) && Handled(s.calls[d]) && s.calls[c].op.id == s.calls[d].op.id
    ensures exists i, j | 0 <= i < |s.log| && 0 <= j < |s.log| ::
      && s.log[i].Start? && s.log[i].call == c && s.log[j].Start? && s.log[j].call == d
      && (s.log[i].at - s.log[j].at > HOUR || s.log[j].at - s.log[i].at > HOUR)
  {
    ReachableCallsLogged(clock, steps, s);
    var id := s.calls[c].op.id;
    var i :| 0 <= i < |s.log| && s.log[i].Start? && s.log[i].call == c && s.log[i].id == id;
    var j :| 0 <= j < |s.log| && s.log[j].Start? && s.log[j].call == d && s.log[j].id == id;
    if i < j {
      StartsAreAnHourApart(clock, steps, s, i, j);
    } else {
      StartsAreAnHourApart(clock, steps, s, j, i);
    }
  }

  /** A failed operation is marked like any other: a retry within the hour does not run it again and is
      answered as already processed. */
  lemma FailureIsNotRetried(clock: Time, steps: seq<Step>, s: System, d: nat, k: nat, c: nat, now: Time)
    requires Reachable(clock, steps, s) && d in s.calls && s.calls[d].Done? && s.calls[d].outcome.Failed?
    requires k < |s.log| && s.log[k].Start? && s.log[k].call == d && s.log[k].id == s.calls[d].op.id
    requires c in s.calls && s.calls[c].Accepted? && s.calls[c].op.id == s.calls[d].op.id
    requires s.clock <= now <= s.log[k].at + HOUR
    ensures Apply(s, CheckAndMark(c, now)).Some?
    ensures Apply(s, CheckAndMark(c, now)).value.calls[c] == Done(s.calls[c].op, AlreadyProcessed)
  {
    ReachableInv(clock, steps, s);
    var id := s.calls[c].op.id;
    if id !in s.seen {
      GoneStartIsOld(s.log, s.clock, id, k);
      assert false;
    }
  }

  // What calls say.

  /** A call goes on only if its type is registered, and is refused for that type otherwise; whatever text it
      ends with is redacted. */
  ghost predicate SaysTheTruth(types: set<string>, call: Call) {
    match call
    case Accepted(op) => op.opType in types
    case Running(op) => op.opType in types
    case Done(op, UnknownType(t)) => t == op.opType
    case Done(op, AlreadyProcessed) => op.opType in types
    case Done(op, Failed(message)) => op.opType in types && RedactSecrets(message) == message
    case Done(op, Completed(r)) => op.opType in types && RedactSecrets(r.message) == r.message
    case Done(op, Panicked) => op.opType in types
  }

  lemma StepKeepsTheTruth(s: System, step: Step)
    requires (forall c | c in s.calls :: SaysTheTruth(s.types, s.calls[c])) && Apply(s, step).Some?
    ensures forall c | c in Apply(s, step).value.calls ::
      SaysTheTruth(Apply(s, step).value.types, Apply(s, step).value.calls[c])
  {
    hide RedactSecrets, Evicted, Marked;
    match step
    case Register(_) =>
    case Lookup(_, _) =>
    case CheckAndMark(_, _) =>
    case Return(c, ret) => FinishedIsRedacted(s.calls[c].op, ret);
    case EvictAll(_) =>
  }

  lemma FinishedIsRedacted(op: Operation, ret: HandlerReturn)
    ensures match Finished(op, ret)
      case Failed(message) => RedactSecrets(message) == message
      case Completed(r) => RedactSecrets(r.message) == r.message
      case Panicked => true
      case _ => false
  {
    hide RedactSecrets;
    match ret.error
    case Some(e) => RedactSecretsIsIdempotent("executor: " + op.opType + " " + op.id + ": " + e);
    case None =>
      match ret.result
      case Some(r) => RedactSecretsIsIdempotent(r.message);
      case None =>
  }

  /** In every interleaving, every call tells the truth about its type and shows no secret. */
  lemma {:induction false} CallsSayTheTruth(clock: Time, steps: seq<Step>, s: System, c: nat)
    requires Reachable(clock, steps, s) && c in s.calls
    ensures SaysTheTruth(s.types, s.calls[c])
    decreases |steps|
  {
    AllCallsSayTheTruth(clock, steps, s);
  }

  lemma {:induction false} AllCallsSayTheTruth(clock: Time, steps: seq<Step>, s: System)
    requires Reachable(clock, steps, s)
    ensures forall c | c in s.calls :: SaysTheTruth(s.types, s.calls[c])
    decreases |steps|
  {
    if steps != [] {
      hide Apply, SaysTheTruth;
      var before := Run(Initial(clock), steps[..|steps| - 1]).value;
      AllCallsSayTheTruth(clock, steps[..|steps| - 1], before);
      StepKeepsTheTruth(before, steps[|steps| - 1]);
    }
  }
}
