/**
 The fixed-window rate limiter of crates/racfs-server/src/ratelimit.rs.  Time is a number of
 nanoseconds that never decreases along a trace.

 Each window starts with the admission that opens it, so a client is admitted at most
 `2 * max - 1` times in any half-open interval of one window length, and that is reached.
 */
module RateLimit {
  type ClientId(==, !new)

  const NANOS_PER_SEC: nat := 1_000_000_000

  datatype Config = Config(maxRequests: nat, window: nat)

  datatype UserLimit = UserLimit(count: nat, windowStart: nat)

  datatype Verdict = Verdict(allowed: bool, remaining: nat, reset: nat)

  type Users = map<ClientId, UserLimit>

  function Since(now: nat, start: nat): nat { if start <= now then now - start else 0 }

  /** The client's window once its expiry has been dealt with. */
  function CurrentWindow(c: Config, users: Users, client: ClientId, now: nat): UserLimit {
    if client !in users || Since(now, users[client].windowStart) >= c.window then UserLimit(0, now)
    else users[client]
  }

  predicate Allowed(c: Config, users: Users, client: ClientId, now: nat) {
    CurrentWindow(c, users, client, now).count < c.maxRequests
  }

  function Checked(c: Config, users: Users, client: ClientId, now: nat): Users {
    var u := CurrentWindow(c, users, client, now);
    users[client := if u.count < c.maxRequests then UserLimit(u.count + 1, u.windowStart) else u]
  }

  class RateLimiter {
    var users: Users
    var config: Config

    constructor (config: Config)
      ensures users == map[] && this.config == config
    {
      users, this.config := map[], config;
    }

    /** `update_config` (ratelimit.rs:92-94): counters are kept. */
    method UpdateConfig(config: Config)
      modifies this`config
      ensures this.config == config
    {
      this.config := config;
    }

    /** `check` (ratelimit.rs:98-131). */
    method Check(client: ClientId, now: nat) returns (v: Verdict)
      modifies this`users
      ensures users == Checked(config, old(users), client, now)
      ensures v.allowed == Allowed(config, old(users), client, now)
      ensures v.allowed <==> v.remaining > 0
      ensures v.remaining <= config.maxRequests
      ensures v.allowed ==> users[client].count + v.remaining == config.maxRequests + 1
      ensures var start := CurrentWindow(config, old(users), client, now).windowStart;
              var elapsed := if start <= now then now - start else 0;
              var left := if elapsed <= config.window then config.window - elapsed else 0;
              v.reset * NANOS_PER_SEC <= left < (v.reset + 1) * NANOS_PER_SEC
    {
      if client !in users {
        users := users[client := UserLimit(0, now)];
      }
      if Since(now, users[client].windowStart) >= config.window {
        users := users[client := UserLimit(0, now)];
      }
      var u := users[client];
      var remaining := if u.count <= config.maxRequests then config.maxRequests - u.count else 0;
      var allowed := u.count < config.maxRequests;
      if allowed {
        users := users[client := UserLimit(u.count + 1, u.windowStart)];
      }
      var elapsed := Since(now, u.windowStart);
      var left := if elapsed <= config.window then config.window - elapsed else 0;
      v := Verdict(allowed, remaining, left / NANOS_PER_SEC);
    }
  }

  // ---------------------------------------------------------------------------
  // Traces
  // ---------------------------------------------------------------------------

  datatype Request = Request(client: ClientId, time: nat)

  ghost predicate Ordered(trace: seq<Request>) {
    |trace| > 1 ==> Ordered(trace[..|trace|-1]) && trace[|trace|-2].time <= trace[|trace|-1].time
  }

  function Clock(trace: seq<Request>): nat {
    if trace == [] then 0 else trace[|trace|-1].time
  }

  function Exec(c: Config, trace: seq<Request>): Users {
    if trace == [] then map[]
    else Checked(c, Exec(c, trace[..|trace|-1]), trace[|trace|-1].client, trace[|trace|-1].time)
  }

  /** How many requests of `client` were admitted at times in `[t, t + window)`. */
  function Admissions(c: Config, trace: seq<Request>, client: ClientId, t: nat): nat {
    if trace == [] then 0
    else
      var r := trace[|trace|-1];
      Admissions(c, trace[..|trace|-1], client, t)
      + if r.client == client && t <= r.time < t + c.window && Allowed(c, Exec(c, trace[..|trace|-1]), client, r.time)
        then 1 else 0
  }

  /** What the client's window says about `a` admissions in `[t, t + window)` up to `clock`. */
  ghost predicate Explains(c: Config, users: Users, client: ClientId, clock: nat, t: nat, a: nat) {
    if client !in users || c.maxRequests == 0 then a == 0
    else
      var u := users[client];
      && 1 <= u.count <= c.maxRequests && u.windowStart <= clock
      && (clock < t ==> a == 0)
      && (u.windowStart < t ==> a + 1 <= u.count)
      && (t <= u.windowStart < t + c.window ==> a + 1 <= c.maxRequests + u.count)
      && a + 1 <= 2 * c.maxRequests
  }

  lemma {:induction false} TraceExplained(c: Config, trace: seq<Request>, client: ClientId, t: nat)
    requires Ordered(trace)
    ensures Explains(c, Exec(c, trace), client, Clock(trace), t, Admissions(c, trace, client, t))
  {
    if trace != [] {
      TraceExplained(c, trace[..|trace|-1], client, t);
    }
  }

  /** Over every trace, no client is admitted more than `2 * max - 1` times in one window length. */
  lemma AdmissionsBounded(c: Config, trace: seq<Request>, client: ClientId, t: nat)
    requires Ordered(trace)
    ensures Admissions(c, trace, client, t) <= if c.maxRequests == 0 then 0 else 2 * c.maxRequests - 1
  {
    TraceExplained(c, trace, client, t);
  }

  /** With a window of one tick or none, what the client's window says about `a` admissions at `t`. */
  ghost predicate ExplainsTick(c: Config, users: Users, client: ClientId, clock: nat, t: nat, a: nat) {
    && a <= c.maxRequests && (c.window == 0 ==> a == 0)
    && (client !in users ==> a == 0)
    && (client in users ==>
          && users[client].count <= c.maxRequests && users[client].windowStart <= clock
          && (users[client].windowStart < t ==> a == 0)
          && (users[client].windowStart == t ==> a <= users[client].count))
  }

  lemma {:induction false} TickExplained(c: Config, trace: seq<Request>, client: ClientId, t: nat)
    requires Ordered(trace) && c.window <= 1
    ensures ExplainsTick(c, Exec(c, trace), client, Clock(trace), t, Admissions(c, trace, client, t))
  {
    if trace != [] {
      TickExplained(c, trace[..|trace|-1], client, t);
    }
  }

  ghost predicate WithinMax(c: Config, trace: seq<Request>, client: ClientId, t: nat) {
    Ordered(trace) ==> Admissions(c, trace, client, t) <= c.maxRequests
  }

  /** `max` itself bounds every interval of one window length, over all traces, exactly when at
      most one request is allowed or the window is at most one tick. */
  lemma MaxHoldsIff(c: Config, client: ClientId)
    ensures (forall trace: seq<Request>, t: nat :: WithinMax(c, trace, client, t)) <==> c.maxRequests <= 1 || c.window <= 1
  {
    if c.maxRequests <= 1 || c.window <= 1 {
      forall trace: seq<Request>, t: nat ensures WithinMax(c, trace, client, t) {
        if Ordered(trace) {
          AdmissionsBounded(c, trace, client, t);
          if c.window <= 1 {
            TickExplained(c, trace, client, t);
          }
        }
      }
    } else {
      var trace := BoundReached(c, client);
      assert !WithinMax(c, trace, client, c.window - 1);
    }
  }

  lemma {:induction false} NoneBeyondWindow(c: Config, trace: seq<Request>, client: ClientId, t: nat)
    requires Ordered(trace)
    requires client in Exec(c, trace) ==> Exec(c, trace)[client].windowStart + c.window <= t
    ensures Admissions(c, trace, client, t) == 0
    ensures client in Exec(c, trace) ==> Exec(c, trace)[client].windowStart <= Clock(trace)
  {
    if trace != [] {
      var init, r := trace[..|trace|-1], trace[|trace|-1];
      StartsInPast(c, init, client);
      NoneBeyondWindow(c, init, client, t);
    }
  }

  lemma {:induction false} StartsInPast(c: Config, trace: seq<Request>, client: ClientId)
    requires Ordered(trace)
    ensures client in Exec(c, trace) ==> Exec(c, trace)[client].windowStart <= Clock(trace)
  {
    if trace != [] {
      StartsInPast(c, trace[..|trace|-1], client);
    }
  }

  /** Within one window the counter is exactly the number of admissions, at most `max`. */
  lemma {:induction false} WindowCountsAdmissions(c: Config, trace: seq<Request>, client: ClientId)
    requires Ordered(trace) && c.window > 0 && client in Exec(c, trace)
    ensures Admissions(c, trace, client, Exec(c, trace)[client].windowStart) == Exec(c, trace)[client].count
    ensures Exec(c, trace)[client].count <= c.maxRequests
  {
    var init, r := trace[..|trace|-1], trace[|trace|-1];
    StartsInPast(c, init, client);
    var before := Exec(c, init);
    if client in before {
      WindowCountsAdmissions(c, init, client);
    }
    if r.client == client && (client !in before || Since(r.time, before[client].windowStart) >= c.window) {
      NoneBeyondWindow(c, init, client, r.time);
    }
  }

  /** A client is refused only if it has spent its whole limit within the last window; without a
      window every request is admitted, and without a limit none is. */
  lemma RefusedOnlyWhenSpent(c: Config, trace: seq<Request>, client: ClientId, now: nat)
    requires Ordered(trace) && Clock(trace) <= now && !Allowed(c, Exec(c, trace), client, now)
    ensures c.maxRequests == 0 ||
            (c.window > 0 && exists t: nat :: t <= now < t + c.window && Admissions(c, trace, client, t) == c.maxRequests)
  {
    if c.maxRequests > 0 {
      var start := Exec(c, trace)[client].windowStart;
      StartsInPast(c, trace, client);
      WindowCountsAdmissions(c, trace, client);
      assert start <= now < start + c.window && Admissions(c, trace, client, start) == c.maxRequests;
    }
  }

  /** A clock that steps back never reopens a window. */
  lemma ClockBackKeepsWindow(c: Config, users: Users, client: ClientId, now: nat)
    requires client in users && now < users[client].windowStart && c.window > 0
    ensures CurrentWindow(c, users, client, now) == users[client]
  {
  }

  /** A check touches only the client that made it. */
  lemma OthersUntouched(c: Config, users: Users, client: ClientId, now: nat, other: ClientId)
    requires other != client
    ensures other in Checked(c, users, client, now) <==> other in users
    ensures other in users ==> Checked(c, users, client, now)[other] == users[other]
  {
  }

  // ---------------------------------------------------------------------------
  // The bound is reached
  // ---------------------------------------------------------------------------

  function Burst(trace: seq<Request>, client: ClientId, time: nat, n: nat): seq<Request> {
    if n == 0 then trace else Burst(trace, client, time, n-1) + [Request(client, time)]
  }

  /** `after` extends `trace` by `n` admissions of the client in its window at `time`. */
  ghost predicate Admitted(c: Config, trace: seq<Request>, after: seq<Request>, client: ClientId, time: nat, n: nat, t: nat) {
    var u := CurrentWindow(c, Exec(c, trace), client, time);
    && Ordered(after) && Clock(after) <= time
    && CurrentWindow(c, Exec(c, after), client, time) == UserLimit(u.count + n, u.windowStart)
    && (n > 0 ==> client in Exec(c, after) && Exec(c, after)[client] == UserLimit(u.count + n, u.windowStart))
    && Admissions(c, after, client, t) == Admissions(c, trace, client, t) + n
  }

  lemma OneAdmitted(c: Config, trace: seq<Request>, after: seq<Request>, client: ClientId, time: nat, t: nat)
    requires Ordered(trace) && Clock(trace) <= time && c.window > 0
    requires CurrentWindow(c, Exec(c, trace), client, time).count < c.maxRequests
    requires t <= time < t + c.window && after == trace + [Request(client, time)]
    ensures Admitted(c, trace, after, client, time, 1, t)
  {
    assert after[..|after|-1] == trace;
  }

  lemma AdmittedOn(c: Config, trace: seq<Request>, mid: seq<Request>, after: seq<Request>, client: ClientId, time: nat, n: nat, t: nat)
    requires Admitted(c, trace, mid, client, time, n, t) && Admitted(c, mid, after, client, time, 1, t)
    ensures Admitted(c, trace, after, client, time, n + 1, t)
  {
  }

  /** `n` requests at one time, while the window has room for them, are all admitted. */
  lemma {:induction false} BurstAdmitted(c: Config, trace: seq<Request>, client: ClientId, time: nat, n: nat, t: nat)
    requires Ordered(trace) && Clock(trace) <= time && c.window > 0
    requires CurrentWindow(c, Exec(c, trace), client, time).count + n <= c.maxRequests
    requires t <= time < t + c.window
    ensures Admitted(c, trace, Burst(trace, client, time, n), client, time, n, t)
  {
    if n > 0 {
      var mid, after := Burst(trace, client, time, n-1), Burst(trace, client, time, n);
      BurstAdmitted(c, trace, client, time, n-1, t);
      OneAdmitted(c, mid, after, client, time, t);
      AdmittedOn(c, trace, mid, after, client, time, n-1, t);
    }
  }

  lemma OpeningRequest(c: Config, client: ClientId)
    requires c.maxRequests > 0 && c.window > 1
    ensures Exec(c, [Request(client, 0)]) == map[client := UserLimit(1, 0)]
    ensures Admissions(c, [Request(client, 0)], client, c.window - 1) == 0
  {
    assert [Request(client, 0)][..0] == [];
  }

  /** One request opens a window at 0, and the rest of it is spent at its last instant. */
  lemma WindowSpent(c: Config, client: ClientId) returns (trace: seq<Request>)
    requires c.maxRequests > 0 && c.window > 1
    ensures Ordered(trace) && Clock(trace) < c.window
    ensures client in Exec(c, trace) && Exec(c, trace)[client] == UserLimit(c.maxRequests, 0)
    ensures Admissions(c, trace, client, c.window - 1) == c.maxRequests - 1
  {
    OpeningRequest(c, client);
    var first := [Request(client, 0)];
    BurstAdmitted(c, first, client, c.window - 1, c.maxRequests - 1, c.window - 1);
    trace := Burst(first, client, c.window - 1, c.maxRequests - 1);
  }

  /** The next window is then spent at its first instant: `2 * max - 1` admissions within one
      window length. */
  lemma BoundReached(c: Config, client: ClientId) returns (trace: seq<Request>)
    requires c.maxRequests > 0 && c.window > 1
    ensures Ordered(trace) && Admissions(c, trace, client, c.window - 1) == 2 * c.maxRequests - 1
  {
    var full := WindowSpent(c, client);
    BurstAdmitted(c, full, client, c.window, c.maxRequests, c.window - 1);
    trace := Burst(full, client, c.window, c.maxRequests);
  }
}
