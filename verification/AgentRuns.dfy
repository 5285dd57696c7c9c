/** The poller with its executor is one of the interleavings of ExecutorRuns, and so inherits its spacing. */
module AgentRuns {
  import opened Options
  import opened Redact
  import opened Executor
  import opened Agent
  import R = ExecutorRuns

  /** Handler runs or starts, in order, as ID and mark time. */
  function HandlerRuns(trace: seq<Action>): seq<(string, Time)> {
    if trace == [] then [] else
    var a := trace[|trace| - 1];
    HandlerRuns(trace[..|trace| - 1]) + (if a.RunHandler? then [(a.id, a.at)] else [])
  }

  function LoggedStarts(log: seq<R.Event>): seq<(string, Time)> {
    if log == [] then [] else
    var e := log[|log| - 1];
    LoggedStarts(log[..|log| - 1]) + (if e.Start? then [(e.id, e.at)] else [])
  }

  predicate AnHourApart(runs: seq<(string, Time)>) {
    forall i, j | 0 <= i < j < |runs| && runs[i].0 == runs[j].0 :: runs[j].1 - runs[i].1 > HOUR
  }

  lemma {:induction false} LoggedStartIsLogged(log: seq<R.Event>, i: nat)
    requires i < |LoggedStarts(log)|
    ensures exists k | 0 <= k < |log| :: log[k].Start? && (log[k].id, log[k].at) == LoggedStarts(log)[i]
    decreases |log|
  {
    var front := log[..|log| - 1];
    if i < |LoggedStarts(front)| {
      LoggedStartIsLogged(front, i);
      var k :| 0 <= k < |front| && front[k].Start? && (front[k].id, front[k].at) == LoggedStarts(front)[i];
      assert log[k] == front[k];
    }
  }

  lemma {:induction false} SpacedLog(log: seq<R.Event>)
    requires R.Spaced(log)
    ensures AnHourApart(LoggedStarts(log))
    decreases |log|
  {
    if log != [] {
      var front, n := log[..|log| - 1], |log| - 1;
      SpacedLog(front);
      var starts := LoggedStarts(log);
      forall i, j | 0 <= i < j < |starts| && starts[i].0 == starts[j].0 ensures starts[j].1 - starts[i].1 > HOUR {
        if j >= |LoggedStarts(front)| {
          LoggedStartIsLogged(front, i);
          var k :| 0 <= k < |front| && front[k].Start? && (front[k].id, front[k].at) == LoggedStarts(front)[i];
          assert log[k] == front[k] && log[n].Start?;
        }
      }
    }
  }

  predicate Timed(t: Turn) { t.Claimed? || t.EvictionTick? }

  /** The time of the last turn that reads the clock, or the given time if there is none. */
  function Latest(clock: Time, turns: seq<Turn>): Time {
    if turns == [] then clock
    else if Timed(turns[|turns| - 1]) then turns[|turns| - 1].at
    else Latest(clock, turns[..|turns| - 1])
  }

  /** The turns happen in the order of their times, none before the clock. */
  predicate Chronological(clock: Time, turns: seq<Turn>) {
    turns != [] ==>
      var front, t := turns[..|turns| - 1], turns[|turns| - 1];
      Chronological(clock, front) && (Timed(t) ==> Latest(clock, front) <= t.at)
  }

  /** The system s of the interleaving model stands for the poller p after n turns. */
  ghost predicate Mirrors(types: set<string>, p: Poller, n: nat, s: R.System) {
    && s.types == types && s.seen == p.seen
    && LoggedStarts(s.log) == HandlerRuns(p.trace)
    && forall c | c in s.calls :: c < n
  }

  lemma RunOneMore(s: R.System, steps: seq<R.Step>, step: R.Step)
    requires R.Run(s, steps).Some?
    ensures R.Run(s, steps + [step]) == R.Apply(R.Run(s, steps).value, step)
  {
    hide R.Apply;
    assert (steps + [step])[..|steps|] == steps;
  }

  lemma {:induction false} Registered(clock: Time, types: set<string>) returns (steps: seq<R.Step>)
    ensures R.Reachable(clock, steps, R.Initial(clock).(types := types))
    decreases types
  {
    if types == {} {
      steps := [];
    } else {
      var t :| t in types;
      steps := Registered(clock, types - {t});
      RunOneMore(R.Initial(clock), steps, R.Register(t));
      assert types - {t} + {t} == types;
      steps := steps + [R.Register(t)];
    }
  }

  lemma HandlerRunsOneMore(trace: seq<Action>, a: Action)
    ensures HandlerRuns(trace + [a]) == HandlerRuns(trace) + (if a.RunHandler? then [(a.id, a.at)] else [])
  {
    assert (trace + [a])[..|trace|] == trace;
  }

  lemma LoggedStartsOneMore(log: seq<R.Event>, e: R.Event)
    ensures LoggedStarts(log + [e]) == LoggedStarts(log) + (if e.Start? then [(e.id, e.at)] else [])
  {
    assert (log + [e])[..|log|] == log;
  }

  lemma TurnRuns(quote: string -> string, types: set<string>, p: Poller, t: Turn)
    requires !p.crashed
    ensures HandlerRuns(Turned(quote, types, p, t).trace)
         == HandlerRuns(p.trace) + (if t.Claimed? && Starts(types, p.seen, t.op) then [(t.op.id, t.at)] else [])
  {
    hide HandlerRuns, Evicted, Marked, Finished;
    var claim := Claim(AnswerTo(t));
    var one := p.trace + [claim];
    HandlerRunsOneMore(p.trace, claim);
    match t
    case ClaimFailed =>
      HandlerRunsOneMore(one, BackOff);
      assert p.trace + [Claim(Failure), BackOff] == one + [BackOff];
    case NoWork =>
    case EvictionTick(_) =>
    case Claimed(op, at, ret) =>
      var run := RunHandler(op.id, at);
      HandlerRunsOneMore(one, run);
      assert one + [] == one;
      var outcome := ExecuteOutcome(types, p.seen, op, ret);
      if !outcome.Panicked? {
        HandlerRunsOneMore(one, ReportOf(quote, op.id, outcome));
        HandlerRunsOneMore(one + [run], ReportOf(quote, op.id, outcome));
      }
  }

  /** A claim is at most three steps of the interleaving model. */
  lemma ClaimSteps(clock: Time, types: set<string>, p: Poller, n: nat, s: R.System, steps: seq<R.Step>,
                   op: Operation, at: Time, ret: HandlerReturn)
    returns (more: seq<R.Step>, after: R.System)
    requires R.Reachable(clock, steps, s) && Mirrors(types, p, n, s) && s.clock <= at
    ensures R.Reachable(clock, more, after)
    ensures after.types == types && (forall c | c in after.calls :: c < n + 1) && after.clock <= at
    ensures after.seen == if op.opType in types then Marked(p.seen, op.id, at) else p.seen
    ensures LoggedStarts(after.log)
         == HandlerRuns(p.trace) + (if Starts(types, p.seen, op) then [(op.id, at)] else [])
  {
    hide LoggedStarts, HandlerRuns, Finished, Evicted;
    var init := R.Initial(clock);
    RunOneMore(init, steps, R.Lookup(n, op));
    more, after := steps + [R.Lookup(n, op)], R.Apply(s, R.Lookup(n, op)).value;
    if op.opType in types {
      RunOneMore(init, more, R.CheckAndMark(n, at));
      LoggedStartsOneMore(s.log, R.Start(op.id, at, n));
      LoggedStartsOneMore(s.log, R.Skip(op.id, at, n));
      more, after := more + [R.CheckAndMark(n, at)], R.Apply(after, R.CheckAndMark(n, at)).value;
      if Starts(types, p.seen, op) {
        RunOneMore(init, more, R.Return(n, ret));
        more, after := more + [R.Return(n, ret)], R.Apply(after, R.Return(n, ret)).value;
      }
    }
  }

  lemma {:induction false} PollerIsARun(quote: string -> string, types: set<string>, turns: seq<Turn>, clock: Time)
    returns (steps: seq<R.Step>, s: R.System)
    requires Chronological(clock, turns)
    ensures R.Reachable(clock, steps, s) && Mirrors(types, Polled(quote, types, Fresh(), turns), |turns|, s)
    ensures s.clock <= Latest(clock, turns)
    decreases |turns|
  {
    if turns == [] {
      steps := Registered(clock, types);
      s := R.Initial(clock).(types := types);
    } else {
      hide HandlerRuns, LoggedStarts, Turned, R.Reachable, Mirrors;
      var front, t := turns[..|turns| - 1], turns[|turns| - 1];
      var p := Polled(quote, types, Fresh(), front);
      steps, s := PollerIsARun(quote, types, front, clock);
      steps, s := TurnSteps(quote, clock, types, p, |front|, s, steps, t);
    }
  }

  lemma TurnSteps(quote: string -> string, clock: Time, types: set<string>, p: Poller, n: nat, s: R.System,
                  steps: seq<R.Step>, t: Turn)
    returns (more: seq<R.Step>, after: R.System)
    requires R.Reachable(clock, steps, s) && Mirrors(types, p, n, s) && (Timed(t) ==> s.clock <= t.at)
    ensures R.Reachable(clock, more, after) && Mirrors(types, Turned(quote, types, p, t), n + 1, after)
    ensures after.clock <= if Timed(t) then t.at else s.clock
  {
    hide HandlerRuns, LoggedStarts, R.Run, Finished, ReportOf, Evicted, Marked;
    more, after := steps, s;
    if !p.crashed {
      TurnRuns(quote, types, p, t);
      match t
      case Claimed(op, at, ret) =>
        more, after := ClaimSteps(clock, types, p, n, s, steps, op, at, ret);
      case EvictionTick(at) =>
        RunOneMore(R.Initial(clock), steps, R.EvictAll(at));
        LoggedStartsOneMore(s.log, R.Evict(at));
        more, after := steps + [R.EvictAll(at)], R.Apply(s, R.EvictAll(at)).value;
      case ClaimFailed =>
      case NoWork =>
    }
  }

  /** At most one handler run per ID and hour over the whole life of the poller. */
  lemma HandlerRunsAreAnHourApart(quote: string -> string, types: set<string>, turns: seq<Turn>, clock: Time)
    requires Chronological(clock, turns)
    ensures AnHourApart(HandlerRuns(Polled(quote, types, Fresh(), turns).trace))
  {
    var steps, s := PollerIsARun(quote, types, turns, clock);
    R.ReachableInv(clock, steps, s);
    SpacedLog(s.log);
  }

  // Replays.

  lemma {:induction false} ChronologicalFront(clock: Time, turns: seq<Turn>, j: nat)
    requires Chronological(clock, turns) && j < |turns|
    ensures Chronological(clock, turns[..j]) && (Timed(turns[j]) ==> Latest(clock, turns[..j]) <= turns[j].at)
    decreases |turns|
  {
    var front := turns[..|turns| - 1];
    if j < |front| {
      assert front[..j] == turns[..j];
      ChronologicalFront(clock, front, j);
    }
  }

  lemma {:induction false} FrontIsPolledFirst(quote: string -> string, types: set<string>, turns: seq<Turn>, j: nat)
    requires j <= |turns|
    ensures Polled(quote, types, Fresh(), turns[..j]).trace <= Polled(quote, types, Fresh(), turns).trace
    decreases |turns|
  {
    hide Turned;
    if j < |turns| {
      var front := turns[..|turns| - 1];
      assert front[..j] == turns[..j];
      FrontIsPolledFirst(quote, types, front, j);
      TurnExtends(quote, types, Polled(quote, types, Fresh(), front), turns[|turns| - 1]);
    } else {
      assert turns[..j] == turns;
    }
  }

  lemma {:induction false} RunIsListed(trace: seq<Action>, k: nat)
    requires k < |trace| && trace[k].RunHandler?
    ensures exists i | 0 <= i < |HandlerRuns(trace)| :: HandlerRuns(trace)[i] == (trace[k].id, trace[k].at)
    decreases |trace|
  {
    var front := trace[..|trace| - 1];
    if k < |front| {
      RunIsListed(front, k);
      var i :| 0 <= i < |HandlerRuns(front)| && HandlerRuns(front)[i] == (trace[k].id, trace[k].at);
      assert HandlerRuns(trace)[i] == HandlerRuns(front)[i];
    } else {
      assert HandlerRuns(trace)[|HandlerRuns(front)|] == (trace[k].id, trace[k].at);
    }
  }

  /** An ID whose handler ran within the last hour is still recorded. */
  lemma RecentRunIsRecorded(quote: string -> string, types: set<string>, turns: seq<Turn>, clock: Time,
                            k: nat, at: Time)
    requires Chronological(clock, turns) && Latest(clock, turns) <= at
    requires k < |Polled(quote, types, Fresh(), turns).trace|
    requires Polled(quote, types, Fresh(), turns).trace[k].RunHandler?
    requires at - Polled(quote, types, Fresh(), turns).trace[k].at <= HOUR
    ensures Polled(quote, types, Fresh(), turns).trace[k].id in Polled(quote, types, Fresh(), turns).seen
  {
    hide Polled, Latest, Chronological, HandlerRuns, LoggedStarts, R.Reachable;
    var p := Polled(quote, types, Fresh(), turns);
    var id, t := p.trace[k].id, p.trace[k].at;
    var steps, s := PollerIsARun(quote, types, turns, clock);
    R.ReachableInv(clock, steps, s);
    RunIsListed(p.trace, k);
    var i :| 0 <= i < |LoggedStarts(s.log)| && LoggedStarts(s.log)[i] == (id, t);
    LoggedStartIsLogged(s.log, i);
    var m: nat :| m < |s.log| && s.log[m].Start? && (s.log[m].id, s.log[m].at) == (id, t);
    RecentStartIsRecorded(s, m, at);
  }

  lemma RecentStartIsRecorded(s: R.System, m: nat, at: Time)
    requires R.Inv(s) && m < |s.log| && s.log[m].Start? && s.clock <= at && at - s.log[m].at <= HOUR
    ensures s.log[m].id in s.seen
  {
    var id := s.log[m].id;
    if id !in s.seen {
      R.GoneStartIsOld(s.log, s.clock, id, m);
      assert false;
    }
  }

  /** A claim of a registered type within an hour of a handler run for the same ID runs no handler: its report
      says that the operation was already processed. */
  lemma ReplayIsReportedAsProcessed(quote: string -> string, types: set<string>, turns: seq<Turn>, clock: Time,
                                    j: nat, k: nat)
    requires Chronological(clock, turns) && j < |turns| && turns[j].Claimed? && turns[j].op.opType in types
    requires var p := Polled(quote, types, Fresh(), turns[..j]);
      && !p.crashed && k < |p.trace| && p.trace[k].RunHandler? && p.trace[k].id == turns[j].op.id
      && turns[j].at - p.trace[k].at <= HOUR
    ensures var p, id := Polled(quote, types, Fresh(), turns[..j]), turns[j].op.id;
      p.trace + [Claim(Got(id)), Complete(id, "success", "already processed")]
      <= Polled(quote, types, Fresh(), turns).trace
  {
    hide Chronological, Latest, Finished, RedactSecrets;
    ChronologicalFront(clock, turns, j);
    RecentRunIsRecorded(quote, types, turns[..j], clock, k, turns[j].at);
    FrontIsPolledFirst(quote, types, turns, j + 1);
    assert turns[..j + 1][..j] == turns[..j];
    ProcessedStays();
  }

  // How long a record lasts.

  /** Every recorded ID has the run that recorded it in the trace. */
  lemma {:induction false} RecordedIdRan(quote: string -> string, types: set<string>, turns: seq<Turn>, id: string)
    requires id in Polled(quote, types, Fresh(), turns).seen
    ensures RunHandler(id, Polled(quote, types, Fresh(), turns).seen[id]) in Polled(quote, types, Fresh(), turns).trace
    decreases |turns|
  {
    hide Finished, RedactSecrets;
    var front, t := turns[..|turns| - 1], turns[|turns| - 1];
    var p, q := Polled(quote, types, Fresh(), front), Polled(quote, types, Fresh(), turns);
    TurnExtends(quote, types, p, t);
    if id in p.seen && p.seen[id] == q.seen[id] {
      RecordedIdRan(quote, types, front, id);
    } else {
      assert q.trace[|p.trace| + 1] == RunHandler(id, q.seen[id]);
    }
  }

  lemma {:induction false} LatestGrows(clock: Time, turns: seq<Turn>, e: nat)
    requires Chronological(clock, turns)
    ensures clock <= Latest(clock, turns)
    ensures e < |turns| && Timed(turns[e]) ==> turns[e].at <= Latest(clock, turns)
    decreases |turns|
  {
    if turns != [] { LatestGrows(clock, turns[..|turns| - 1], e); }
  }

  lemma {:induction false} RecordIsSinceStart(quote: string -> string, types: set<string>, turns: seq<Turn>,
                                              clock: Time, id: string)
    requires Chronological(clock, turns) && id in Polled(quote, types, Fresh(), turns).seen
    ensures Polled(quote, types, Fresh(), turns).seen[id] >= clock
    decreases |turns|
  {
    hide Finished, RedactSecrets;
    var front, t := turns[..|turns| - 1], turns[|turns| - 1];
    LatestGrows(clock, front, 0);
    if id in Polled(quote, types, Fresh(), front).seen { RecordIsSinceStart(quote, types, front, clock, id); }
  }

  /** After an eviction no recorded time lies more than an hour before it. */
  lemma {:induction false} RecordIsSinceEviction(quote: string -> string, types: set<string>, turns: seq<Turn>,
                                                 clock: Time, e: nat, id: string)
    requires Chronological(clock, turns) && e < |turns| && turns[e].EvictionTick?
    requires var p := Polled(quote, types, Fresh(), turns); !p.crashed && id in p.seen
    ensures Polled(quote, types, Fresh(), turns).seen[id] >= turns[e].at - HOUR
    decreases |turns|
  {
    hide Finished, RedactSecrets;
    var front, t := turns[..|turns| - 1], turns[|turns| - 1];
    var p := Polled(quote, types, Fresh(), front);
    if e < |front| {
      LatestGrows(clock, front, e);
      assert front[e] == turns[e];
      if id in p.seen { RecordIsSinceEviction(quote, types, front, clock, e, id); }
    }
  }

  /** If evictions keep their ten-minute period, a claim is suppressed only within seventy minutes of a handler
      run for its ID: after that it is run again. */
  lemma SuppressedOnlyWithinSeventyMinutes(quote: string -> string, types: set<string>, turns: seq<Turn>, clock: Time,
                                           n: nat)
    requires Chronological(clock, turns) && n < |turns| && turns[n].Claimed?
    requires turns[n].at - clock >= 10 * MINUTE ==>
      exists e | 0 <= e < n :: turns[e].EvictionTick? && turns[n].at - turns[e].at <= 10 * MINUTE
    requires var p := Polled(quote, types, Fresh(), turns[..n]); !p.crashed && turns[n].op.id in p.seen
    ensures var trace := Polled(quote, types, Fresh(), turns[..n]).trace;
      exists k | 0 <= k < |trace| ::
        trace[k].RunHandler? && trace[k].id == turns[n].op.id && turns[n].at - trace[k].at <= 70 * MINUTE
  {
    hide Polled, Latest, Chronological;
    var front, id := turns[..n], turns[n].op.id;
    var p := Polled(quote, types, Fresh(), front);
    ChronologicalFront(clock, turns, n);
    RecordedIdRan(quote, types, front, id);
    if turns[n].at - clock >= 10 * MINUTE {
      var e :| 0 <= e < n && turns[e].EvictionTick? && turns[n].at - turns[e].at <= 10 * MINUTE;
      assert front[e] == turns[e];
      RecordIsSinceEviction(quote, types, front, clock, e, id);
    } else {
      RecordIsSinceStart(quote, types, front, clock, id);
    }
    var k :| 0 <= k < |p.trace| && p.trace[k] == RunHandler(id, p.seen[id]);
    assert p.trace[k].RunHandler?;
  }
}
