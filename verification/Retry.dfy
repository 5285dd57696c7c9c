/** The retry loop of the control-plane client (internal/api/client.go), against a network and a clock that may do
    anything, under a context that may be cancelled at some instant. Times are in nanoseconds. */
module Retry {
  import opened Options

  const SECOND := 1_000_000_000
  const INT64_LIMIT := 0x8000_0000_0000_0000
  const DEFAULT_RETRIES := 5
  const DEFAULT_DELAY := SECOND

  function Pow2(n: nat): (p: int)
    ensures p >= 1
  {
    if n == 0 then 1 else 2 * Pow2(n - 1)
  }

  /** The int64 value that an integer result wraps around to. */
  function Wrap(x: int): (y: int)
    ensures -INT64_LIMIT <= y < INT64_LIMIT
    ensures -INT64_LIMIT <= x < INT64_LIMIT ==> y == x
  {
    (x + INT64_LIMIT) % (2 * INT64_LIMIT) - INT64_LIMIT
  }

  /** The delay before attempt k. Shifting and multiplying wrap around, so the product may come out negative. */
  function Delay(baseDelay: int, k: nat): int
    requires k >= 1
  {
    Wrap(baseDelay * Wrap(Pow2(k - 1)))
  }

  /** A timer with a negative duration fires at once. */
  function Pause(baseDelay: int, k: nat): (d: int)
    requires k >= 1
    ensures d >= 0
  {
    if Delay(baseDelay, k) < 0 then 0 else Delay(baseDelay, k)
  }

  /** What becomes of one request. Whether a transport error is retryable is the environment's choice. */
  datatype Reply = TransportError(retryable: bool) | ReadError | Response(status: int, decodes: bool)

  datatype Verdict =
    | Delivered
    | MarshalFailed
    | CreateFailed
    | RequestFailed
    | ReadFailed
    | HttpError(status: int)
    | DecodeFailed
    | Cancelled
    | Exhausted

  predicate IsRetryableStatus(code: int) { code >= 500 || code == 408 || code == 429 }

  predicate Retryable(r: Reply) {
    match r
    case TransportError(retryable) => retryable
    case ReadError => true
    case Response(status, _) => IsRetryableStatus(status)
  }

  /** The verdict that a reply leads to when it is not retried. */
  function Final(r: Reply, wantsResult: bool): Verdict {
    match r
    case TransportError(_) => RequestFailed
    case ReadError => ReadFailed
    case Response(status, decodes) =>
      if status >= 400 then HttpError(status) else if wantsResult && !decodes then DecodeFailed else Delivered
  }

  /** One attempt: when its pause was over, when it started, what it got and when. */
  datatype Try = Try(due: int, start: int, reply: Reply, end: int)

  /** One request on the network. */
  datatype Exchange = Exchange(start: int, reply: Reply, end: int)

  function Exchanges(tries: seq<Try>): seq<Exchange> {
    seq(|tries|, i requires 0 <= i < |tries| => Exchange(tries[i].start, tries[i].reply, tries[i].end))
  }

  /** Every attempt waits out its pause after the one before, and one with a pause begins only if the context
      was not done before the pause was over. */
  ghost predicate Paced(tries: seq<Try>, baseDelay: int, done: Option<int>) {
    && (forall i | 0 <= i < |tries| :: tries[i].due <= tries[i].start <= tries[i].end)
    && (forall i: nat | i + 1 < |tries| :: Follows(tries[i], tries[i + 1], i + 1, baseDelay, done))
  }

  predicate Follows(before: Try, t: Try, k: nat, baseDelay: int, done: Option<int>)
    requires k >= 1
  {
    && t.due == before.end + Pause(baseDelay, k)
    && (done.Some? && Delay(baseDelay, k) > 0 ==> t.due <= done.value)
  }

  predicate AllRetryable(tries: seq<Try>) { forall i | 0 <= i < |tries| :: Retryable(tries[i].reply) }

  /** Which verdict a sequence of attempts ends in. It is cancelled only if the context is done before the next
      pause is over. */
  predicate EndsIn(tries: seq<Try>, verdict: Verdict, wantsResult: bool, maxRetries: int, baseDelay: int,
                   done: Option<int>)
  {
    if tries == [] then
      || verdict == MarshalFailed
      || (verdict == CreateFailed && maxRetries >= 0)
      || (verdict == Exhausted && maxRetries < 0)
    else
      var n := |tries| - 1;
      && n <= maxRetries
      && AllRetryable(tries[..n])
      && var last := tries[n].reply;
      if verdict == Cancelled then
        done.Some? && done.value <= tries[n].end + Pause(baseDelay, n + 1) && Retryable(last) && n < maxRetries
      else
        verdict == Final(last, wantsResult) && (!Retryable(last) || n == maxRetries)
  }

  class Network {
    var now: int
    const done: Option<int>
    ghost var log: seq<Exchange>

    constructor (now: int, done: Option<int>)
      ensures this.now == now && this.done == done && log == []
    {
      this.now, this.done, log := now, done, [];
    }

    /** Time passes. */
    method Elapse()
      modifies this`now
      ensures now >= old(now)
    {
      var d: int := *;
      if d > 0 { now := now + d; }
    }

    /** One request: any reply, after any time. */
    method Send() returns (reply: Reply)
      modifies this
      ensures now >= old(now) && log == old(log) + [Exchange(old(now), reply, now)]
    {
      Elapse();
      reply := *;
      log := log + [Exchange(old(now), reply, now)];
    }

    /** Waiting for the timer or the context, whichever comes first; either if both are there. */
    method Wait(delay: int) returns (fired: bool, ghost due: int)
      modifies this`now
      ensures due == old(now) + (if delay < 0 then 0 else delay)
      ensures now >= old(now) && (fired ==> now >= due)
      ensures fired && done.Some? && delay > 0 ==> due <= done.value
      ensures !fired ==> done.Some? && done.value <= due
    {
      var over := now + if delay < 0 then 0 else delay;
      due := over;
      var choice := *;
      fired := done.None? || over < done.value || (choice && (over == done.value || delay <= 0));
      if fired {
        now := over;
      } else if now < done.value {
        now := done.value;
      }
      Elapse();
    }
  }

  /** doWithRetry. Whether the body can be marshalled and the request created does not depend on the attempt. */
  method DoWithRetry(network: Network, marshals: bool, creates: bool, wantsResult: bool, maxRetries: int,
                     baseDelay: int)
    returns (verdict: Verdict, ghost tries: seq<Try>)
    modifies network
    ensures Paced(tries, baseDelay, network.done)
    ensures EndsIn(tries, verdict, wantsResult, maxRetries, baseDelay, network.done)
    ensures network.log == old(network.log) + Exchanges(tries)
    ensures marshals && creates && maxRetries >= 0 <==> tries != []
    ensures tries == [] && marshals ==> verdict == if maxRetries < 0 then Exhausted else CreateFailed
    ensures tries != [] ==> tries[0].start >= old(network.now)
  {
    hide Delay, Pause, Retryable, Exchanges, Paced;
    tries := [];
    NoTries(baseDelay, network.done);
    if !marshals { return MarshalFailed, []; }
    var attempt := 0;
    while attempt <= maxRetries
      invariant 0 <= attempt && (if maxRetries >= 0 then attempt <= maxRetries else attempt == 0) && |tries| == attempt
      invariant Paced(tries, baseDelay, network.done) && AllRetryable(tries)
      invariant network.log == old(network.log) + Exchanges(tries)
      invariant attempt > 0 ==>
        creates && network.now == tries[attempt - 1].end && tries[0].start >= old(network.now)
      invariant attempt == 0 ==> network.now == old(network.now)
      decreases maxRetries - attempt
    {
      ghost var due := network.now;
      if attempt > 0 {
        var fired;
        fired, due := network.Wait(Delay(baseDelay, attempt));
        PauseIs(baseDelay, attempt);
        if !fired {
          LastRetryable(tries);
          return Cancelled, tries;
        }
      }
      if !creates { return CreateFailed, tries; }
      ghost var start := network.now;
      var reply := network.Send();
      ghost var before := tries;
      tries := tries + [Try(due, start, reply, network.now)];
      OneMoreTry(before, tries[attempt], baseDelay, network.done);
      ReplyCases(reply);
      if reply.TransportError? {
        if reply.retryable && attempt < maxRetries {
          attempt := attempt + 1;
          continue;
        }
        return RequestFailed, tries;
      }
      if reply.ReadError? {
        if attempt < maxRetries {
          attempt := attempt + 1;
          continue;
        }
        return ReadFailed, tries;
      }
      if IsRetryableStatus(reply.status) && attempt < maxRetries {
        attempt := attempt + 1;
        continue;
      }
      if reply.status >= 400 { return HttpError(reply.status), tries; }
      if wantsResult && !reply.decodes { return DecodeFailed, tries; }
      return Delivered, tries;
    }
    return Exhausted, tries;
  }

  lemma NoTries(baseDelay: int, done: Option<int>)
    ensures Paced([], baseDelay, done) && Exchanges([]) == []
  {}

  lemma LastRetryable(tries: seq<Try>)
    requires tries != [] && AllRetryable(tries)
    ensures AllRetryable(tries[..|tries| - 1]) && Retryable(tries[|tries| - 1].reply)
  {}

  lemma PauseIs(baseDelay: int, k: nat)
    requires k >= 1
    ensures Pause(baseDelay, k) == if Delay(baseDelay, k) < 0 then 0 else Delay(baseDelay, k)
  {}

  lemma ReplyCases(r: Reply)
    ensures r.TransportError? ==> (Retryable(r) <==> r.retryable)
    ensures r.ReadError? ==> Retryable(r)
    ensures r.Response? ==> (Retryable(r) <==> IsRetryableStatus(r.status))
  {}

  lemma OneMoreTry(tries: seq<Try>, t: Try, baseDelay: int, done: Option<int>)
    requires Paced(tries, baseDelay, done) && t.due <= t.start <= t.end
    requires tries != [] ==> Follows(tries[|tries| - 1], t, |tries|, baseDelay, done)
    ensures Paced(tries + [t], baseDelay, done)
    ensures Exchanges(tries + [t]) == Exchanges(tries) + [Exchange(t.start, t.reply, t.end)]
    ensures AllRetryable(tries) ==> AllRetryable((tries + [t])[..|tries|])
    ensures AllRetryable(tries) && Retryable(t.reply) ==> AllRetryable(tries + [t])
  {
    hide Follows, Retryable;
    var more := tries + [t];
    assert more[..|tries|] == tries;
    forall i: nat | i + 1 < |more| ensures Follows(more[i], more[i + 1], i + 1, baseDelay, done) {
      if i + 1 < |tries| { assert Follows(tries[i], tries[i + 1], i + 1, baseDelay, done); }
    }
  }

  // ---- Back-off ----------------------------------------------------------------------------------------------

  lemma WrapPeriodic(x: int, m: int)
    ensures Wrap(x + 2 * INT64_LIMIT * m) == Wrap(x)
  {}

  lemma WrapProduct(b: int, p: int)
    ensures Wrap(b * Wrap(p)) == Wrap(b * p)
  {
    var q := (p + INT64_LIMIT) / (2 * INT64_LIMIT);
    assert Wrap(p) == p - 2 * INT64_LIMIT * q;
    assert b * (p - 2 * INT64_LIMIT * q) == b * p + 2 * INT64_LIMIT * (-(b * q));
    WrapPeriodic(b * p, -(b * q));
  }

  /** The delay before attempt k is baseDelay doubled k - 1 times exactly when that fits an int64. */
  lemma DelayIsExactUnlessItOverflows(baseDelay: int, k: nat)
    requires k >= 1
    ensures Delay(baseDelay, k) == baseDelay * Pow2(k - 1)
       <==> -INT64_LIMIT <= baseDelay * Pow2(k - 1) < INT64_LIMIT
  {
    WrapProduct(baseDelay, Pow2(k - 1));
  }

  lemma Pow2Of64()
    ensures Pow2(64) == 2 * INT64_LIMIT
  {
    assert Pow2(4) == 16;
    hide Pow2;
    Pow2Add(4, 4);
    Pow2Add(8, 8);
    Pow2Add(16, 16);
    Pow2Add(32, 32);
  }

  lemma Pow2Large(n: nat)
    requires n >= 64
    ensures Pow2(n) == 2 * INT64_LIMIT * Pow2(n - 64)
  {
    Pow2Of64();
    Pow2Add(64, n - 64);
  }

  lemma Pow2Add(m: nat, n: nat)
    ensures Pow2(m + n) == Pow2(m) * Pow2(n)
  {
    if m > 0 { Pow2Add(m - 1, n); }
  }

  /** From the 65th retry on there is no delay at all, whatever the configuration. */
  lemma DelayVanishes(baseDelay: int, k: nat)
    requires k >= 65
    ensures Delay(baseDelay, k) == 0
  {
    Pow2Large(k - 1);
    WrapPeriodic(0, Pow2(k - 65));
  }

  lemma Pow2Grows(m: nat, n: nat)
    requires m <= n
    ensures Pow2(m) <= Pow2(n)
  {
    if m < n { Pow2Grows(m, n - 1); }
  }

  lemma PauseIsExact(baseDelay: int, k: nat, n: nat)
    requires 1 <= k <= n && baseDelay >= 0 && baseDelay * Pow2(n - 1) < INT64_LIMIT
    ensures Pause(baseDelay, k) == Delay(baseDelay, k) == baseDelay * Pow2(k - 1)
  {
    Pow2Grows(k - 1, n - 1);
    assert baseDelay * Pow2(k - 1) <= baseDelay * Pow2(n - 1);
    assert baseDelay * Pow2(k - 1) >= 0;
    DelayIsExactUnlessItOverflows(baseDelay, k);
  }

  /** Attempt n starts at least baseDelay * (2^n - 1) after the first, as long as its delay does not overflow. */
  lemma {:induction false} BackoffIsExponential(tries: seq<Try>, baseDelay: int, done: Option<int>, k: nat, n: nat)
    requires Paced(tries, baseDelay, done) && 1 <= k <= n < |tries|
    requires baseDelay >= 0 && baseDelay * Pow2(n - 1) < INT64_LIMIT
    ensures tries[k].start >= tries[k].due >= tries[0].start + baseDelay * (Pow2(k) - 1)
  {
    PauseIsExact(baseDelay, k, n);
    assert Follows(tries[k - 1], tries[k - 1 + 1], k - 1 + 1, baseDelay, done);
    if k > 1 {
      BackoffIsExponential(tries, baseDelay, done, k - 1, n);
      Distribute(baseDelay, Pow2(k - 1));
    }
  }

  lemma Distribute(b: int, p: int)
    ensures b * (p - 1) + b * p == b * (2 * p - 1)
  {}

  /** Attempt n begins only if the context leaves room for all the delays up to it. */
  lemma DeadlineLimitsAttempts(tries: seq<Try>, baseDelay: int, deadline: int, n: nat)
    requires Paced(tries, baseDelay, Some(deadline)) && 1 <= n < |tries|
    requires baseDelay > 0 && baseDelay * Pow2(n - 1) < INT64_LIMIT
    ensures baseDelay * (Pow2(n) - 1) <= deadline - tries[0].start
  {
    BackoffIsExponential(tries, baseDelay, Some(deadline), n, n);
    PauseIsExact(baseDelay, n, n);
    assert baseDelay * Pow2(n - 1) > 0;
    assert Follows(tries[n - 1], tries[n - 1 + 1], n - 1 + 1, baseDelay, Some(deadline));
  }

  /** With the default configuration and a context of 30 seconds the sixth attempt never starts. Hence the loop
      never gets to give up on a retryable reply: a controller that fails retryably each time is reported as a
      cancelled context, never with its own status. */
  lemma SixthAttemptNeverStarts(tries: seq<Try>, verdict: Verdict, wantsResult: bool, created: int, done: int)
    requires Paced(tries, DEFAULT_DELAY, Some(done))
    requires EndsIn(tries, verdict, wantsResult, DEFAULT_RETRIES, DEFAULT_DELAY, Some(done))
    requires done <= created + 30 * SECOND && (tries != [] ==> created <= tries[0].start)
    ensures |tries| <= 5
    ensures verdict.HttpError? ==> !IsRetryableStatus(verdict.status)
    ensures verdict != ReadFailed && verdict != Exhausted
    ensures tries != [] && AllRetryable(tries) ==> verdict == Cancelled
  {
    if |tries| >= 6 {
      assert Pow2(5) == 32 by { assert Pow2(3) == 8; }
      DeadlineLimitsAttempts(tries, DEFAULT_DELAY, done, 5);
      assert false;
    }
  }

  // The statuses and delays in numbers.

  /** The reply is one after which the source tries again. */
  predicate TriedAgain(r: Reply) {
    || r == TransportError(true) || r == ReadError
    || (r.Response? && (r.status >= 500 || r.status == 408 || r.status == 429))
  }

  /** Every attempt but the last was tried again for its reply. If the last reply is such a one, the attempts are
      used up, or the context was done. Success means a status below 400 and a body that decodes if one is wanted. */
  lemma VerdictInNumbers(tries: seq<Try>, verdict: Verdict, wantsResult: bool, maxRetries: int, baseDelay: int,
                         done: Option<int>)
    requires EndsIn(tries, verdict, wantsResult, maxRetries, baseDelay, done) && tries != []
    ensures var last := tries[|tries| - 1].reply;
      && |tries| <= maxRetries + 1
      && (forall i | 0 <= i < |tries| - 1 :: TriedAgain(tries[i].reply))
      && (TriedAgain(last) ==> verdict == Cancelled || |tries| == maxRetries + 1)
      && (verdict == Cancelled ==> TriedAgain(last) && |tries| <= maxRetries && done.Some?)
      && (verdict != Cancelled ==>
            match last
            case TransportError(_) => verdict == RequestFailed
            case ReadError => verdict == ReadFailed
            case Response(status, decodes) =>
              && (verdict == HttpError(status) <==> status >= 400)
              && (verdict == Delivered <==> status < 400 && (wantsResult ==> decodes))
              && (verdict == DecodeFailed <==> status < 400 && wantsResult && !decodes))
  {
    var n := |tries| - 1;
    assert forall i | 0 <= i < n :: tries[..n][i] == tries[i];
  }

  /** By default there are five retries, after one, two, four, eight and sixteen seconds. */
  lemma DefaultDelays()
    ensures DEFAULT_RETRIES == 5
    ensures Delay(DEFAULT_DELAY, 1) == 1_000_000_000 && Delay(DEFAULT_DELAY, 2) == 2_000_000_000
    ensures Delay(DEFAULT_DELAY, 3) == 4_000_000_000 && Delay(DEFAULT_DELAY, 4) == 8_000_000_000
    ensures Delay(DEFAULT_DELAY, 5) == 16_000_000_000
  {
    assert Pow2(4) == 16 by { assert Pow2(2) == 4; }
  }
}
