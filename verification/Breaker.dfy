/**
 The retry loop and circuit breaker of the HTTP client: `send_with_retry` and
 `record_circuit_failure` in crates/racfs-client/src/client.rs, in sequential use.
 Times are milliseconds.  What the network answers to each attempt, and how long it takes,
 is an input.
 */
module Breaker {
  import opened Common

  const MAX_RETRIES: nat := 3
  const INITIAL_BACKOFF: nat := 100
  const FAILURE_THRESHOLD: nat := 5
  const OPEN_DURATION: nat := 30_000

  datatype Circuit = Circuit(failureCount: nat, openUntil: Option<nat>)

  /** A response, a connect or timeout error, or any other transport error. */
  datatype Reply = Response | Transient | Fatal

  datatype Attempt = Attempt(reply: Reply, latency: nat)

  /** The network's answers to the attempts of one call, as many as may be needed. */
  type Answers = a: seq<Attempt> | |a| == MAX_RETRIES + 1 witness [Attempt(Response, 0), Attempt(Response, 0), Attempt(Response, 0), Attempt(Response, 0)]

  datatype Outcome = Responded | HttpError | CircuitOpen | InternalError

  /** How one call went: its outcome, number of attempts, time slept and end time. */
  datatype Report = Report(outcome: Outcome, attempts: nat, slept: nat, end: nat)

  function Backoff(attempt: nat): nat {
    if attempt == 0 then INITIAL_BACKOFF else 2 * Backoff(attempt - 1)
  }

  // ---------------------------------------------------------------------------
  // Specification
  // ---------------------------------------------------------------------------

  /** The attempt that ends the call: the first, from `i`, that is not retried. */
  function StopAt(answers: Answers, i: nat): (k: nat)
    requires i <= MAX_RETRIES
    ensures i <= k <= MAX_RETRIES
    decreases MAX_RETRIES - i
  {
    if answers[i].reply == Transient && i < MAX_RETRIES then StopAt(answers, i + 1) else i
  }

  /** Time slept before attempt `n`. */
  function Slept(n: nat): nat {
    if n == 0 then 0 else Slept(n - 1) + Backoff(n - 1)
  }

  /** Time spent waiting for the first `n` answers. */
  function Waited(answers: Answers, n: nat): nat
    requires n <= MAX_RETRIES + 1
  {
    if n == 0 then 0 else Waited(answers, n - 1) + answers[n - 1].latency
  }

  /** A whole admitted call that enters the retry loop at `now`. */
  function Attempts(answers: Answers, now: nat): Report {
    var k := StopAt(answers, 0);
    Report(if answers[k].reply == Response then Responded else HttpError,
           k + 1, Slept(k), now + Waited(answers, k + 1) + Slept(k))
  }

  lemma SleptBounded(k: nat)
    requires k <= MAX_RETRIES
    ensures Slept(k) <= 700
  {
    assert Slept(1) == 100 && Slept(2) == 300 && Slept(3) == 700 by {
      assert Backoff(1) == 200 && Backoff(2) == 400;
    }
  }

  function RecordFailure(c: Circuit, now: nat): Circuit {
    Circuit(c.failureCount + 1,
            if c.failureCount + 1 >= FAILURE_THRESHOLD then Some(now + OPEN_DURATION) else c.openUntil)
  }

  predicate Rejected(c: Circuit, now: nat) {
    c.openUntil.Some? && now < c.openUntil.value
  }

  /** The breaker once a call has been let through: an elapsed cooldown resets it. */
  function Entered(c: Circuit): Circuit {
    if c.openUntil.Some? then Circuit(0, None) else c
  }

  function Send(c: Circuit, now: nat, answers: Answers): (Circuit, Report) {
    if Rejected(c, now) then (c, Report(CircuitOpen, 0, 0, now))
    else
      var r := Attempts(answers, now);
      (if r.outcome == Responded then Entered(c).(failureCount := 0) else RecordFailure(Entered(c), r.end), r)
  }

  class Client {
    var failureCount: nat
    var openUntil: Option<nat>

    function View(): Circuit
      reads this
    {
      Circuit(failureCount, openUntil)
    }

    constructor ()
      ensures View() == Circuit(0, None)
    {
      failureCount, openUntil := 0, None;
    }

    /** `record_circuit_failure` (client.rs:218-225). */
    method RecordCircuitFailure(now: nat)
      modifies this
      ensures View() == RecordFailure(old(View()), now)
    {
      failureCount := failureCount + 1;
      if failureCount >= FAILURE_THRESHOLD {
        openUntil := Some(now + OPEN_DURATION);
      }
    }

    /** The retry loop (client.rs:187-215): it always returns, so what follows it is dead code. */
    method RetryLoop(now: nat, answers: Answers) returns (r: Report)
      ensures r == Attempts(answers, now)
    {
      var attempt: nat, time: nat, slept: nat := 0, now, 0;
      while attempt <= MAX_RETRIES
        invariant attempt <= MAX_RETRIES && StopAt(answers, attempt) == StopAt(answers, 0)
        invariant slept == Slept(attempt) && time == now + Waited(answers, attempt) + slept
        decreases MAX_RETRIES - attempt
      {
        var a := answers[attempt];
        time := time + a.latency;
        if a.reply == Response {
          return Report(Responded, attempt + 1, slept, time);
        } else if a.reply == Transient && attempt < MAX_RETRIES {
          var pause := Backoff(attempt);
          time := time + pause;
          slept := slept + pause;
        } else {
          return Report(HttpError, attempt + 1, slept, time);
        }
        attempt := attempt + 1;
      }
      assert false;
    }

    /** `send_with_retry` (client.rs:170-216). */
    method SendWithRetry(now: nat, answers: Answers) returns (r: Report)
      modifies this
      ensures (View(), r) == Send(old(View()), now, answers)
      ensures r.outcome != InternalError && r.slept <= 700
      ensures r.outcome != CircuitOpen ==> 1 <= r.attempts <= 4
    {
      if openUntil.Some? {
        if now < openUntil.value {
          return Report(CircuitOpen, 0, 0, now);
        }
        openUntil := None;
        failureCount := 0;
      }
      r := RetryLoop(now, answers);
      SleptBounded(StopAt(answers, 0));
      if r.outcome == Responded {
        failureCount := 0;
      } else {
        RecordCircuitFailure(r.end);
      }
    }
  }

  // ---------------------------------------------------------------------------
  // Sequential runs
  // ---------------------------------------------------------------------------

  datatype Call = Call(start: nat, answers: Answers)

  function Run(c: Circuit, calls: seq<Call>): Circuit {
    if calls == [] then c
    else Send(Run(c, calls[..|calls|-1]), calls[|calls|-1].start, calls[|calls|-1].answers).0
  }

  function LastReport(c: Circuit, calls: seq<Call>): Report
    requires calls != []
  {
    Send(Run(c, calls[..|calls|-1]), calls[|calls|-1].start, calls[|calls|-1].answers).1
  }

  /** Every call starts after the previous one has returned. */
  ghost predicate Sequential(c: Circuit, calls: seq<Call>) {
    |calls| > 1 ==>
      && Sequential(c, calls[..|calls|-1])
      && LastReport(c, calls[..|calls|-1]).end <= calls[|calls|-1].start
  }

  /** Open exactly at the failure threshold. */
  ghost predicate WellFormed(c: Circuit) {
    c.failureCount <= FAILURE_THRESHOLD && (c.openUntil.Some? <==> c.failureCount == FAILURE_THRESHOLD)
  }

  /** In sequential use the breaker is open exactly when it has counted five failures. */
  lemma {:induction false} RunWellFormed(c: Circuit, calls: seq<Call>)
    requires WellFormed(c)
    ensures WellFormed(Run(c, calls))
  {
    if calls != [] {
      RunWellFormed(c, calls[..|calls|-1]);
    }
  }

  // ---------------------------------------------------------------------------
  // What a call does, told from the answers
  // ---------------------------------------------------------------------------

  /** Pauses before attempts 2, 3 and 4 add up to 100, 300 and 700 ms. */
  function Pauses(attempts: nat): nat
    requires 1 <= attempts <= 4
  {
    [0, 100, 300, 700][attempts - 1]
  }

  /** Every attempt but the last met a connect or timeout error; the last one met another answer or
      was the fourth.  A response ends the call at once, and no other error is retried. */
  lemma AttemptsMeaning(answers: Answers, now: nat)
    ensures var r := Attempts(answers, now);
            && 1 <= r.attempts <= 4
            && (forall i :: 0 <= i < r.attempts - 1 ==> answers[i].reply == Transient)
            && (answers[r.attempts - 1].reply != Transient || r.attempts == 4)
            && r.outcome == (if answers[r.attempts - 1].reply == Response then Responded else HttpError)
            && r.slept == Pauses(r.attempts)
            && r.end == now + Waited(answers, r.attempts) + Pauses(r.attempts)
  {
    RetriedBefore(answers, 0);
    PausesAddUp(StopAt(answers, 0));
  }

  lemma {:induction false} RetriedBefore(answers: Answers, i: nat)
    requires i <= MAX_RETRIES
    ensures forall j :: i <= j < StopAt(answers, i) ==> answers[j].reply == Transient
    ensures answers[StopAt(answers, i)].reply != Transient || StopAt(answers, i) == MAX_RETRIES
    decreases MAX_RETRIES - i
  {
    if answers[i].reply == Transient && i < MAX_RETRIES {
      RetriedBefore(answers, i + 1);
    }
  }

  lemma PausesAddUp(k: nat)
    requires k <= MAX_RETRIES
    ensures Slept(k) == Pauses(k + 1)
  {
    assert Backoff(0) == 100 && Backoff(1) == 200 && Backoff(2) == 400;
    assert Slept(1) == 100 && Slept(2) == 300 && Slept(3) == 700;
  }

  /** An open circuit refuses without an attempt until its time has come, and nothing else does. */
  lemma RefusedIff(c: Circuit, now: nat, answers: Answers)
    ensures var (c', r) := Send(c, now, answers);
            && (r.outcome == CircuitOpen <==> c.openUntil.Some? && now < c.openUntil.value)
            && (r.outcome == CircuitOpen ==> c' == c && r.attempts == 0 && r.end == now)
            && (r.outcome != CircuitOpen ==> r == Attempts(answers, now))
  {
    AttemptsMeaning(answers, now);
  }

  /** A response clears whatever has been counted. */
  lemma ResponseClears(c: Circuit, now: nat, answers: Answers)
    requires Send(c, now, answers).1.outcome == Responded
    ensures Send(c, now, answers).0 == Circuit(0, None)
  {
  }

  // ---------------------------------------------------------------------------
  // What a whole run leaves
  // ---------------------------------------------------------------------------

  /** How many of the calls let through have failed since the last response. */
  function Streak(calls: seq<Call>): nat {
    if calls == [] then 0
    else
      var before, outcome := Streak(calls[..|calls|-1]), LastReport(FRESH, calls).outcome;
      if outcome == Responded then 0 else if outcome == CircuitOpen then before else before + 1
  }

  /** When the last call let through ended. */
  function LastEnd(calls: seq<Call>): nat {
    if calls == [] then 0
    else if LastReport(FRESH, calls).outcome == CircuitOpen then LastEnd(calls[..|calls|-1])
    else LastReport(FRESH, calls).end
  }

  const FRESH := Circuit(0, None)

  /** The breaker of a client that has seen `n` failures since the last response, the last one ending
      at `end`: it counts them in fives, and after every fifth it is open for 30 seconds. */
  function Expected(n: nat, end: nat): Circuit {
    if n == 0 then FRESH
    else if n % 5 == 0 then Circuit(5, Some(end + 30_000))
    else Circuit(n % 5, None)
  }

  /** Over every run of a fresh client. */
  lemma {:induction false} RunIsExpected(calls: seq<Call>)
    ensures Run(FRESH, calls) == Expected(Streak(calls), LastEnd(calls))
  {
    if calls != [] {
      var init, call := calls[..|calls|-1], calls[|calls|-1];
      RunIsExpected(init);
      SendExpected(Streak(init), LastEnd(init), call);
    }
  }

  lemma SendExpected(n: nat, end: nat, call: Call)
    ensures var (c', r) := Send(Expected(n, end), call.start, call.answers);
            c' == match r.outcome
                  case Responded => FRESH
                  case CircuitOpen => Expected(n, end)
                  case _ => Expected(n + 1, r.end)
  {
    AttemptsMeaning(call.answers, call.start);
    assert n % 5 == 0 ==> (n + 1) % 5 == 1;
    assert n % 5 == 4 ==> (n + 1) % 5 == 0;
    assert n % 5 < 4 ==> (n + 1) % 5 == n % 5 + 1;
  }

  /** A call is refused exactly if a multiple of five calls have failed since the last response, and
      the last of them ended less than 30 seconds ago. */
  lemma NextRefusedIff(calls: seq<Call>, now: nat, answers: Answers)
    ensures Send(Run(FRESH, calls), now, answers).1.outcome == CircuitOpen <==>
            Streak(calls) > 0 && Streak(calls) % 5 == 0 && now < LastEnd(calls) + 30_000
  {
    RunIsExpected(calls);
    RefusedIff(Run(FRESH, calls), now, answers);
  }

  // ---------------------------------------------------------------------------
  // Outages
  // ---------------------------------------------------------------------------

  /** No call gets a response. */
  ghost predicate Outage(c: Circuit, calls: seq<Call>) {
    calls != [] ==> Outage(c, calls[..|calls|-1]) && LastReport(c, calls).outcome != Responded
  }

  /** Calls let through whose start lies in `[t, t + 30 s)`. */
  function Starts(c: Circuit, calls: seq<Call>, t: nat): nat {
    if calls == [] then 0
    else Starts(c, calls[..|calls|-1], t)
         + if LastReport(c, calls).outcome != CircuitOpen && t <= calls[|calls|-1].start < t + OPEN_DURATION then 1 else 0
  }

  /** Attempts made by those calls. */
  function Tries(c: Circuit, calls: seq<Call>, t: nat): nat {
    if calls == [] then 0
    else Tries(c, calls[..|calls|-1], t)
         + if t <= calls[|calls|-1].start < t + OPEN_DURATION then LastReport(c, calls).attempts else 0
  }

  /** The start of the last call that was let through. */
  function LastAdmitted(c: Circuit, calls: seq<Call>): Option<nat> {
    if calls == [] then None
    else if LastReport(c, calls).outcome != CircuitOpen then Some(calls[|calls|-1].start)
    else LastAdmitted(c, calls[..|calls|-1])
  }

  /** What the breaker knows about the `n` starts counted from `t`, the last one being at `last`. */
  ghost predicate Explains(c: Circuit, last: Option<nat>, t: nat, n: nat) {
    && n <= FAILURE_THRESHOLD
    && (last.None? ==> n == 0)
    && (last.Some? ==>
          && (last.value < t ==> n == 0)
          && (last.value < t + OPEN_DURATION ==> n <= c.failureCount)
          && (c.openUntil.Some? ==> last.value + OPEN_DURATION <= c.openUntil.value))
  }

  lemma {:induction false} LastAdmittedBefore(c: Circuit, calls: seq<Call>)
    requires calls != [] && Sequential(c, calls)
    ensures LastAdmitted(c, calls).Some? ==> LastAdmitted(c, calls).value <= calls[|calls|-1].start
  {
    var init := calls[..|calls|-1];
    if init != [] {
      LastAdmittedBefore(c, init);
    }
  }

  lemma {:induction false} OutageExplained(c: Circuit, calls: seq<Call>, t: nat)
    requires WellFormed(c) && Sequential(c, calls) && Outage(c, calls)
    ensures Explains(Run(c, calls), LastAdmitted(c, calls), t, Starts(c, calls, t))
  {
    if calls != [] {
      var init, call := calls[..|calls|-1], calls[|calls|-1];
      OutageExplained(c, init, t);
      RunWellFormed(c, init);
      if init != [] {
        LastAdmittedBefore(c, init);
      }
    }
  }

  lemma {:induction false} TriesPerStart(c: Circuit, calls: seq<Call>, t: nat)
    ensures Tries(c, calls, t) <= 4 * Starts(c, calls, t)
  {
    if calls != [] {
      TriesPerStart(c, calls[..|calls|-1], t);
    }
  }

  /** During an outage at most five calls, twenty attempts, start in any 30 seconds. */
  lemma OutageBounded(c: Circuit, calls: seq<Call>, t: nat)
    requires WellFormed(c) && Sequential(c, calls) && Outage(c, calls)
    ensures Starts(c, calls, t) <= 5 && Tries(c, calls, t) <= 20
  {
    OutageExplained(c, calls, t);
    TriesPerStart(c, calls, t);
  }

  /** The half-open state is no single probe: after the cooldown a failing call leaves the
      breaker closed with one failure counted, so four more are let through. */
  lemma HalfOpenIsClosed(c: Circuit, now: nat, answers: Answers)
    requires c.openUntil.Some? && c.openUntil.value <= now
    ensures var (c', r) := Send(c, now, answers);
            r.outcome != CircuitOpen && c' == if r.outcome == Responded then Circuit(0, None) else Circuit(1, None)
  {
  }

  // ---------------------------------------------------------------------------
  // The bound is reached
  // ---------------------------------------------------------------------------

  /** Four attempts that time out at once: 700 ms with the pauses. */
  const TIMEOUTS: Answers := [Attempt(Transient, 0), Attempt(Transient, 0), Attempt(Transient, 0), Attempt(Transient, 0)]

  /** `n` failing calls, each started when the previous one has returned. */
  function Failing(t: nat, n: nat): seq<Call> {
    if n == 0 then [] else Failing(t, n - 1) + [Call(t + 700 * (n - 1), TIMEOUTS)]
  }

  lemma TimeoutsReport(now: nat)
    ensures Attempts(TIMEOUTS, now) == Report(HttpError, 4, 700, now + 700)
  {
    assert StopAt(TIMEOUTS, 3) == 3 && StopAt(TIMEOUTS, 2) == 3 && StopAt(TIMEOUTS, 1) == 3;
    assert Backoff(1) == 200 && Backoff(2) == 400;
    assert Slept(1) == 100 && Slept(2) == 300 && Slept(3) == 700;
    assert Waited(TIMEOUTS, 1) == 0 && Waited(TIMEOUTS, 2) == 0 && Waited(TIMEOUTS, 3) == 0;
  }

  /** What `n` failing calls from `t` on do to a breaker that has counted nothing, or whose
      cooldown is over. */
  ghost predicate Fails(c: Circuit, calls: seq<Call>, t: nat, n: nat) {
    && Sequential(c, calls) && Outage(c, calls)
    && Starts(c, calls, t) == n && Tries(c, calls, t) == 4 * n
    && (n > 0 ==> calls != [] && LastReport(c, calls).end == t + 700 * n)
    && (0 < n < FAILURE_THRESHOLD ==> Run(c, calls) == Circuit(n, None))
    && (n == 0 ==> calls == [])
  }

  lemma FailsOnce(c: Circuit, before: seq<Call>, t: nat, n: nat, calls: seq<Call>)
    requires !Rejected(c, t) && Entered(c).failureCount == 0
    requires 0 < n <= FAILURE_THRESHOLD && Fails(c, before, t, n - 1)
    requires calls == before + [Call(t + 700 * (n - 1), TIMEOUTS)]
    ensures Fails(c, calls, t, n)
  {
    assert calls[..|calls|-1] == before;
    TimeoutsReport(t + 700 * (n - 1));
  }

  lemma {:induction false} FailingFails(c: Circuit, t: nat, n: nat)
    requires !Rejected(c, t) && Entered(c).failureCount == 0 && n <= FAILURE_THRESHOLD
    ensures Fails(c, Failing(t, n), t, n)
  {
    if n > 0 {
      FailingFails(c, t, n - 1);
      FailsOnce(c, Failing(t, n - 1), t, n, Failing(t, n));
    }
  }

  /** Five calls and twenty attempts within 30 seconds of an outage: at first use, and again
      whenever a cooldown is over. */
  lemma OutageBoundReached(c: Circuit, t: nat)
    requires c == Circuit(0, None) || (c.openUntil.Some? && c.openUntil.value <= t)
    ensures Sequential(c, Failing(t, 5)) && Outage(c, Failing(t, 5))
    ensures Starts(c, Failing(t, 5), t) == 5 && Tries(c, Failing(t, 5), t) == 20
  {
    FailingFails(c, t, 5);
  }
}
