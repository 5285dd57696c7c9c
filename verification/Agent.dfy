/** The operation poller (internal/agent/agent.go): claim, execute, report, for ever. The endless loop is run
    over any finite script of what the outside world does; cutting the script short is a shutdown. */
module Agent {
  import opened Options
  import opened Redact
  import opened RedactTheorems
  import opened Executor

  /** One turn of the loop as the world answers it, or a pass of the eviction goroutine between lock regions. */
  datatype Turn =
    | ClaimFailed
    | NoWork
    | Claimed(op: Operation, at: Time, ret: HandlerReturn)
    | EvictionTick(at: Time)

  /** What a claim comes back with. */
  datatype Answer = Failure | Nothing | Got(id: string)

  datatype Action =
    | Claim(answer: Answer)
    | BackOff
    | RunHandler(id: string, at: Time)
    | Complete(id: string, status: string, result: string)

  /** The error of an unknown type; quote is the %q verb of Go's fmt package. */
  function UnknownTypeText(quote: string -> string, opType: string): string {
    "executor: unknown operation type " + quote(RedactSecrets(opType))
  }

  /** The report for an outcome. */
  function ReportOf(quote: string -> string, id: string, outcome: Outcome): Action
    requires !outcome.Panicked?
  {
    match outcome
    case UnknownType(t) => Complete(id, "failed", RedactSecrets(UnknownTypeText(quote, t)))
    case AlreadyProcessed => Complete(id, "success", RedactSecrets("already processed"))
    case Failed(message) => Complete(id, "failed", RedactSecrets(message))
    case Completed(r) => Complete(id, r.status, RedactSecrets(r.message))
  }

  /** How Execute ends for op. */
  function ExecuteOutcome(types: set<string>, seen: Seen, op: Operation, ret: HandlerReturn): Outcome {
    if op.opType !in types then UnknownType(op.opType)
    else if op.id in seen then AlreadyProcessed
    else Finished(op, ret)
  }

  predicate Starts(types: set<string>, seen: Seen, op: Operation) { op.opType in types && op.id !in seen }

  datatype Poller = Poller(seen: Seen, trace: seq<Action>, crashed: bool)

  /** The poller after one more turn. A panic in Execute ends the process. */
  function Turned(quote: string -> string, types: set<string>, p: Poller, t: Turn): Poller {
    if p.crashed then p else
    match t
    case ClaimFailed => p.(trace := p.trace + [Claim(Failure), BackOff])
    case NoWork => p.(trace := p.trace + [Claim(Nothing)])
    case EvictionTick(at) => p.(seen := Evicted(p.seen, at))
    case Claimed(op, at, ret) =>
      var outcome := ExecuteOutcome(types, p.seen, op, ret);
      var ran := if Starts(types, p.seen, op) then [RunHandler(op.id, at)] else [];
      var seen := if op.opType in types then Marked(p.seen, op.id, at) else p.seen;
      if outcome.Panicked? then Poller(seen, p.trace + [Claim(Got(op.id))] + ran, true)
      else Poller(seen, p.trace + [Claim(Got(op.id))] + ran + [ReportOf(quote, op.id, outcome)], false)
  }

  function Polled(quote: string -> string, types: set<string>, p: Poller, turns: seq<Turn>): Poller
    decreases |turns|
  {
    if turns == [] then p else
    Turned(quote, types, Polled(quote, types, p, turns[..|turns| - 1]), turns[|turns| - 1])
  }

  /** operationPollLoop. */
  method OperationPollLoop<H>(executor: Executor<H>, quote: string -> string, turns: seq<Turn>)
    returns (trace: seq<Action>, crashed: bool)
    modifies executor`seen
    ensures Poller(executor.seen, trace, crashed)
         == Polled(quote, executor.handlers.Keys, Poller(old(executor.seen), [], false), turns)
  {
    hide RedactSecrets, Evicted, Finished, UnknownTypeText;
    trace, crashed := [], false;
    ghost var start := Poller(executor.seen, [], false);
    var i := 0;
    while i < |turns| && !crashed
      invariant 0 <= i <= |turns|
      invariant Poller(executor.seen, trace, crashed)
             == Polled(quote, executor.handlers.Keys, start, turns[..i])
    {
      assert turns[..i + 1][..i] == turns[..i];
      match turns[i] {
        case ClaimFailed => trace := trace + [Claim(Failure), BackOff];
        case NoWork => trace := trace + [Claim(Nothing)];
        case EvictionTick(at) => executor.EvictOnce(at);
        case Claimed(op, at, ret) =>
          trace := trace + [Claim(Got(op.id))];
          var outcome, started := executor.Execute(op, at, ret);
          if started { trace := trace + [RunHandler(op.id, at)]; }
          if outcome.Panicked? {
            crashed := true;
          } else {
            var status, errMsg := "success", "";
            match outcome {
              case UnknownType(t) => status, errMsg := "failed", UnknownTypeText(quote, t);
              case Failed(message) => status, errMsg := "failed", message;
              case AlreadyProcessed => errMsg := "already processed";
              case Completed(r) => status, errMsg := r.status, r.message;
            }
            trace := trace + [Complete(op.id, status, RedactSecrets(errMsg))];
          }
      }
      i := i + 1;
    }
    CrashIsFinal(quote, executor.handlers.Keys, start, turns, i);
  }

  lemma {:induction false} CrashIsFinal(quote: string -> string, types: set<string>, p: Poller, turns: seq<Turn>,
                                        i: nat)
    requires i <= |turns| && (i == |turns| || Polled(quote, types, p, turns[..i]).crashed)
    ensures Polled(quote, types, p, turns) == Polled(quote, types, p, turns[..i])
    decreases |turns|
  {
    if i < |turns| {
      var front := turns[..|turns| - 1];
      assert front[..i] == turns[..i];
      CrashIsFinal(quote, types, p, front, i);
    } else {
      assert turns[..i] == turns;
    }
  }

  function Fresh(): Poller { Poller(map[], [], false) }

  /** Turn i starts a handler that returns neither an error nor a result. */
  predicate BreaksContract(quote: string -> string, types: set<string>, turns: seq<Turn>, i: nat) {
    && i < |turns| && turns[i].Claimed?
    && Starts(types, Polled(quote, types, Fresh(), turns[..i]).seen, turns[i].op)
    && !HandlerContract(turns[i].ret)
  }

  /** The poller crashes if and only if some handler that was started broke its contract: an operation of an
      unknown type, or one that was seen before, does no harm whatever its handler would have returned. */
  lemma {:induction false} CrashesExactlyOnBrokenContract(quote: string -> string, types: set<string>, turns: seq<Turn>)
    ensures Polled(quote, types, Fresh(), turns).crashed <==> exists i: nat :: BreaksContract(quote, types, turns, i)
    decreases |turns|
  {
    if turns != [] {
      hide Evicted, Marked, Finished, ReportOf;
      var n := |turns| - 1;
      var front, t := turns[..n], turns[n];
      CrashesExactlyOnBrokenContract(quote, types, front);
      forall i: nat | i < n
        ensures BreaksContract(quote, types, front, i) <==> BreaksContract(quote, types, turns, i)
      {
        assert front[..i] == turns[..i];
      }
      if t.Claimed? { PanicsExactlyOnBrokenContract(t.op, t.ret); }
      assert BreaksContract(quote, types, turns, n) <==>
        t.Claimed? && Starts(types, Polled(quote, types, Fresh(), front).seen, t.op) && !HandlerContract(t.ret);
    }
  }

  // The shape of a trace.

  /** The trace ends at position k, or goes on with a new claim there. */
  predicate NextTurn(trace: seq<Action>, k: nat) { k == |trace| || (k < |trace| && trace[k].Claim?) }

  /** Every action stands where the loop puts it. A failed claim is followed by a back-off and then the next claim;
      an empty claim by the next claim; a claim with an ID by the report of that ID, or by a run of its handler and
      then the report, and after that by the next claim. Nothing else occurs anywhere. */
  predicate InPlace(trace: seq<Action>, crashed: bool, k: nat)
    requires k < |trace|
  {
    match trace[k]
    case Claim(Failure) => k + 1 < |trace| && trace[k + 1] == BackOff
    case Claim(Nothing) => NextTurn(trace, k + 1)
    case Claim(Got(id)) =>
      k + 1 < |trace| && (trace[k + 1].RunHandler? || trace[k + 1].Complete?) && trace[k + 1].id == id
    case BackOff => k > 0 && trace[k - 1] == Claim(Failure) && NextTurn(trace, k + 1)
    case RunHandler(id, _) =>
      && k > 0 && trace[k - 1] == Claim(Got(id))
      && (if k + 1 < |trace| then trace[k + 1].Complete? && trace[k + 1].id == id else crashed)
    case Complete(id, _, _) =>
      && k > 0 && (trace[k - 1] == Claim(Got(id)) || (trace[k - 1].RunHandler? && trace[k - 1].id == id))
      && NextTurn(trace, k + 1)
  }

  predicate WellFormed(trace: seq<Action>, crashed: bool) {
    forall k | 0 <= k < |trace| :: InPlace(trace, crashed, k)
  }

  lemma AppendWellFormed(trace: seq<Action>, chunk: seq<Action>, crashed: bool)
    requires WellFormed(trace, false) && WellFormed(chunk, crashed) && (chunk != [] ==> chunk[0].Claim?)
    requires crashed ==> chunk != []
    ensures WellFormed(trace + chunk, crashed)
  {
    var longer, n := trace + chunk, |trace|;
    forall k | 0 <= k < |longer| ensures InPlace(longer, crashed, k) {
      if k < n { assert InPlace(trace, false, k); } else { assert InPlace(chunk, crashed, k - n); }
    }
  }

  /** Every run of the poller is made of failed claims with a back-off, empty claims, and claims that end in
      exactly one report with the claimed ID; only a crash leaves a handler run without its report. */
  lemma {:induction false} TraceIsWellFormed(quote: string -> string, types: set<string>, turns: seq<Turn>)
    ensures var p := Polled(quote, types, Fresh(), turns); WellFormed(p.trace, p.crashed)
    decreases |turns|
  {
    hide Finished, Evicted, Marked, WellFormed, ReportOf;
    if turns == [] {
      NothingIsWellFormed();
    } else {
      TraceIsWellFormed(quote, types, turns[..|turns| - 1]);
      var p := Polled(quote, types, Fresh(), turns[..|turns| - 1]);
      if !p.crashed { TurnIsWellFormed(quote, types, p, turns[|turns| - 1]); }
    }
  }

  lemma NothingIsWellFormed()
    ensures WellFormed([], false)
  {}

  lemma TurnIsWellFormed(quote: string -> string, types: set<string>, p: Poller, t: Turn)
    requires !p.crashed && WellFormed(p.trace, false)
    ensures var q := Turned(quote, types, p, t); WellFormed(q.trace, q.crashed)
  {
    hide Finished, Evicted, Marked, RedactSecrets;
    var q := Turned(quote, types, p, t);
    match t
    case ClaimFailed => AppendWellFormed(p.trace, [Claim(Failure), BackOff], false);
    case NoWork => AppendWellFormed(p.trace, [Claim(Nothing)], false);
    case EvictionTick(_) =>
    case Claimed(op, at, ret) =>
      var outcome := ExecuteOutcome(types, p.seen, op, ret);
      var ran := if Starts(types, p.seen, op) then [RunHandler(op.id, at)] else [];
      if outcome.Panicked? {
        assert q.trace == p.trace + ([Claim(Got(op.id))] + ran);
        AppendWellFormed(p.trace, [Claim(Got(op.id))] + ran, true);
      } else {
        var report := ReportOf(quote, op.id, outcome);
        assert q.trace == p.trace + ([Claim(Got(op.id))] + ran + [report]);
        AppendWellFormed(p.trace, [Claim(Got(op.id))] + ran + [report], false);
      }
  }

  /** What the claim of a turn comes back with. */
  function AnswerTo(t: Turn): Answer {
    match t
    case ClaimFailed => Failure
    case NoWork => Nothing
    case EvictionTick(_) => Nothing
    case Claimed(op, _, _) => Got(op.id)
  }

  /** The claims in a trace, in order, and those that the turns make. */
  function Answers(trace: seq<Action>): seq<Answer> {
    if trace == [] then [] else
    var last := trace[|trace| - 1];
    Answers(trace[..|trace| - 1]) + (if last.Claim? then [last.answer] else [])
  }

  function AnswersTo(turns: seq<Turn>): seq<Answer> {
    if turns == [] then [] else
    var last := turns[|turns| - 1];
    AnswersTo(turns[..|turns| - 1]) + (if last.EvictionTick? then [] else [AnswerTo(last)])
  }

  lemma AnswersOneMore(trace: seq<Action>, a: Action)
    ensures Answers(trace + [a]) == Answers(trace) + (if a.Claim? then [a.answer] else [])
  {
    assert (trace + [a])[..|trace|] == trace;
  }

  /** Until a crash the poller claims once in each turn, with that turn's answer; being well-formed, the trace then
      has a back-off for exactly the failed claims, and a report for exactly those with an ID. */
  lemma {:induction false} ClaimsAreTheTurns(quote: string -> string, types: set<string>, turns: seq<Turn>)
    ensures var p := Polled(quote, types, Fresh(), turns);
      && Answers(p.trace) <= AnswersTo(turns)
      && (!p.crashed ==> Answers(p.trace) == AnswersTo(turns))
    decreases |turns|
  {
    if turns != [] {
      hide Answers, Evicted, Marked, Finished, ReportOf, AnswerTo;
      var front, t := turns[..|turns| - 1], turns[|turns| - 1];
      ClaimsAreTheTurns(quote, types, front);
      var p := Polled(quote, types, Fresh(), front);
      if !p.crashed { TurnClaimsOnce(quote, types, p, t); }
    }
  }

  lemma TurnClaimsOnce(quote: string -> string, types: set<string>, p: Poller, t: Turn)
    requires !p.crashed
    ensures Answers(Turned(quote, types, p, t).trace)
         == Answers(p.trace) + (if t.EvictionTick? then [] else [AnswerTo(t)])
  {
    hide Answers, Evicted, Marked, Finished;
    var claim := Claim(AnswerTo(t));
    var one := p.trace + [claim];
    AnswersOneMore(p.trace, claim);
    match t
    case ClaimFailed =>
      AnswersOneMore(one, BackOff);
      assert p.trace + [Claim(Failure), BackOff] == one + [BackOff];
    case NoWork =>
    case EvictionTick(_) =>
    case Claimed(op, at, ret) =>
      var run := RunHandler(op.id, at);
      AnswersOneMore(one, run);
      assert one + [] == one;
      var outcome := ExecuteOutcome(types, p.seen, op, ret);
      if !outcome.Panicked? {
        AnswersOneMore(one, ReportOf(quote, op.id, outcome));
        AnswersOneMore(one + [run], ReportOf(quote, op.id, outcome));
      }
  }

  /** The IDs of the reports, in order. */
  function ReportedIds(trace: seq<Action>): seq<string> {
    if trace == [] then [] else
    ReportedIds(trace[..|trace| - 1]) + (if trace[|trace| - 1].Complete? then [trace[|trace| - 1].id] else [])
  }

  function ClaimedIds(turns: seq<Turn>): seq<string> {
    if turns == [] then [] else
    ClaimedIds(turns[..|turns| - 1]) + (if turns[|turns| - 1].Claimed? then [turns[|turns| - 1].op.id] else [])
  }

  lemma ReportedOneMore(trace: seq<Action>, a: Action)
    ensures ReportedIds(trace + [a]) == ReportedIds(trace) + (if a.Complete? then [a.id] else [])
  {
    assert (trace + [a])[..|trace|] == trace;
  }

  /** Until a crash every claimed operation is reported exactly once, in the order of the claims. */
  lemma {:induction false} EveryClaimIsReportedOnce(quote: string -> string, types: set<string>, turns: seq<Turn>)
    requires !Polled(quote, types, Fresh(), turns).crashed
    ensures ReportedIds(Polled(quote, types, Fresh(), turns).trace) == ClaimedIds(turns)
    decreases |turns|
  {
    if turns != [] {
      hide ReportedIds, Evicted, Marked, Finished, ReportOf;
      var front, t := turns[..|turns| - 1], turns[|turns| - 1];
      var p := Polled(quote, types, Fresh(), front);
      EveryClaimIsReportedOnce(quote, types, front);
      TurnReports(quote, types, p, t);
    }
  }

  lemma TurnReports(quote: string -> string, types: set<string>, p: Poller, t: Turn)
    requires !Turned(quote, types, p, t).crashed
    ensures ReportedIds(Turned(quote, types, p, t).trace)
         == ReportedIds(p.trace) + (if t.Claimed? then [t.op.id] else [])
  {
    hide ReportedIds, Evicted, Marked, Finished;
    var claim := Claim(AnswerTo(t));
    var one := p.trace + [claim];
    ReportedOneMore(p.trace, claim);
    match t
    case ClaimFailed =>
      ReportedOneMore(one, BackOff);
      assert p.trace + [Claim(Failure), BackOff] == one + [BackOff];
    case NoWork =>
    case EvictionTick(_) =>
    case Claimed(op, at, ret) =>
      var run := RunHandler(op.id, at);
      var report := ReportOf(quote, op.id, ExecuteOutcome(types, p.seen, op, ret));
      ReportedOneMore(one, run);
      ReportedOneMore(one, report);
      ReportedOneMore(one + [run], report);
      assert one + [] == one;
  }

  // What the reports say.

  /** The second redaction, in the poller, is a no-op: a failed handler is reported with its message redacted
      once, and so is a completed one. */
  lemma ReportsAreRedactedOnce(quote: string -> string, op: Operation, ret: HandlerReturn)
    requires HandlerContract(ret)
    ensures var report := ReportOf(quote, op.id, Finished(op, ret));
      match ret.error
      case Some(e) =>
        report == Complete(op.id, "failed", RedactSecrets("executor: " + op.opType + " " + op.id + ": " + e))
      case None => report == Complete(op.id, ret.result.value.status, RedactSecrets(ret.result.value.message))
  {
    hide RedactSecrets;
    match ret.error
    case Some(e) => RedactSecretsIsIdempotent("executor: " + op.opType + " " + op.id + ": " + e);
    case None => RedactSecretsIsIdempotent(ret.result.value.message);
  }

  /** No report holds anything that redaction would still change. */
  lemma {:induction false} ReportsAreRedacted(quote: string -> string, types: set<string>, turns: seq<Turn>, k: nat)
    requires k < |Polled(quote, types, Fresh(), turns).trace|
    requires Polled(quote, types, Fresh(), turns).trace[k].Complete?
    ensures var text := Polled(quote, types, Fresh(), turns).trace[k].result; RedactSecrets(text) == text
    decreases |turns|
  {
    hide RedactSecrets, Evicted, Marked, Finished;
    var front, t := turns[..|turns| - 1], turns[|turns| - 1];
    var p := Polled(quote, types, Fresh(), front);
    if k < |p.trace| {
      TurnExtends(quote, types, p, t);
      assert Polled(quote, types, Fresh(), turns).trace[..|p.trace|][k] == p.trace[k];
      ReportsAreRedacted(quote, types, front, k);
    } else {
      var op, outcome := t.op, ExecuteOutcome(types, p.seen, t.op, t.ret);
      match outcome
      case UnknownType(x) => RedactSecretsIsIdempotent(UnknownTypeText(quote, x));
      case AlreadyProcessed => RedactSecretsIsIdempotent("already processed");
      case Failed(message) => RedactSecretsIsIdempotent(message);
      case Completed(r) => RedactSecretsIsIdempotent(r.message);
    }
  }

  lemma TurnExtends(quote: string -> string, types: set<string>, p: Poller, t: Turn)
    ensures p.trace <= Turned(quote, types, p, t).trace
  {
    hide RedactSecrets, Evicted, Marked, Finished;
  }

  /** What is reported for an operation that is not run: its type is not registered, or it was already processed. */
  function UnrunReport(quote: string -> string, types: set<string>, op: Operation): Action {
    if op.opType in types then Complete(op.id, "success", "already processed")
    else
      var text := "executor: unknown operation type " + quote(RedactSecrets(op.opType));
      Complete(op.id, "failed", RedactSecrets(text))
  }

  /** Turn j claims an operation that is not run, and this is its report. */
  predicate ReportsUnrun(quote: string -> string, types: set<string>, turns: seq<Turn>, j: nat, report: Action) {
    && j < |turns| && turns[j].Claimed?
    && !Starts(types, Polled(quote, types, Fresh(), turns[..j]).seen, turns[j].op)
    && report == UnrunReport(quote, types, turns[j].op)
  }

  lemma ProcessedStays()
    ensures RedactSecrets("already processed") == "already processed"
  {
    NothingToHide("already processed");
  }

  /** A report that carries no handler's outcome is that of a claim that was not run, and says why. */
  lemma {:induction false} UnrunReportsSayWhy(quote: string -> string, types: set<string>, turns: seq<Turn>, k: nat)
    requires 0 < k < |Polled(quote, types, Fresh(), turns).trace|
    requires Polled(quote, types, Fresh(), turns).trace[k].Complete?
    requires Polled(quote, types, Fresh(), turns).trace[k - 1].Claim?
    ensures exists j: nat :: ReportsUnrun(quote, types, turns, j, Polled(quote, types, Fresh(), turns).trace[k])
    decreases |turns|
  {
    hide RedactSecrets, Evicted, Marked, Finished;
    var front, t := turns[..|turns| - 1], turns[|turns| - 1];
    var p := Polled(quote, types, Fresh(), front);
    if k < |p.trace| {
      TurnExtends(quote, types, p, t);
      assert Polled(quote, types, Fresh(), turns).trace[..|p.trace|] == p.trace;
      UnrunReportsSayWhy(quote, types, front, k);
      var j: nat :| ReportsUnrun(quote, types, front, j, p.trace[k]);
      assert front[..j] == turns[..j];
      assert ReportsUnrun(quote, types, turns, j, p.trace[k]);
    } else {
      ProcessedStays();
      var now := Polled(quote, types, Fresh(), turns);
      assert now == Turned(quote, types, p, t) && t.Claimed?;
      assert !Starts(types, p.seen, t.op);
      assert now.trace[k] == ReportOf(quote, t.op.id, ExecuteOutcome(types, p.seen, t.op, t.ret));
      assert ReportsUnrun(quote, types, turns, |front|, now.trace[k]);
    }
  }
}
