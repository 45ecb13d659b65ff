/**
 Writers and flushes of one path side by side.  A flush takes the buffer, sends its runs while
 the buffer is open to new writes, and at the end invalidates the path, which drops whatever
 has been buffered since (crates/racfs-fuse/src/async_fs.rs:179-198, cache.rs:170-237).
 `WriteFate` says exactly which acknowledged writes survive.
 */
module FlushRace {
  import opened Common
  import opened Segments
  import opened Batches

  type Thread = nat

  /** Where a flushing thread stands: runs not yet accepted by the server. */
  datatype Pc = Idle | Sending(runs: seq<Segment>)

  /** Writes are known by their number in order of acknowledgement. */
  datatype Machine = Machine(
    acked: seq<Segment>, pending: seq<nat>, taken: set<nat>, dropped: set<nat>,
    batches: seq<Batch>, file: Bytes, threads: map<Thread, Pc>)

  datatype Step =
    | Push(s: Segment)
    | Take(t: Thread)
    | Send(t: Thread)
    | Refuse(t: Thread)
    | Invalidate(t: Thread)

  predicate Enabled(m: Machine, step: Step) {
    step.Push? ||
    (step.t in m.threads &&
     match step
     case Take(t) => m.threads[t].Idle? && m.pending != []
     case Send(t) => m.threads[t].Sending? && m.threads[t].runs != []
     case Refuse(t) => m.threads[t].Sending? && m.threads[t].runs != []
     case Invalidate(t) => m.threads[t] == Sending([]))
  }

  /** The segments with these numbers. */
  function Contents(acked: seq<Segment>, ids: seq<nat>): Batch {
    if ids == [] then []
    else Contents(acked, ids[..|ids|-1]) + if ids[|ids|-1] < |acked| then [acked[ids[|ids|-1]]] else []
  }

  function Ids(s: seq<nat>): set<nat> {
    set i | i in s
  }

  /** A step that is not enabled leaves the machine where it is. */
  function Next(m: Machine, step: Step): Machine {
    if !Enabled(m, step) then m else
    match step
    case Push(s) => m.(acked := m.acked + [s], pending := m.pending + [|m.acked|])
    case Take(t) =>
      var batch := Contents(m.acked, m.pending);
      m.(pending := [], taken := m.taken + Ids(m.pending), batches := m.batches + [batch],
         threads := m.threads[t := Sending(Runs(batch))])
    case Send(t) =>
      var runs := m.threads[t].runs;
      m.(file := WriteAt(m.file, runs[0]), threads := m.threads[t := Sending(runs[1..])])
    case Refuse(t) => m.(threads := m.threads[t := Idle])
    case Invalidate(t) => m.(pending := [], dropped := m.dropped + Ids(m.pending), threads := m.threads[t := Idle])
  }

  function Start(file: Bytes, threads: set<Thread>): Machine {
    Machine([], [], {}, {}, [], file, map t | t in threads :: Idle)
  }

  /** Any interleaving: a list of steps. */
  function Exec(m: Machine, steps: seq<Step>): Machine {
    if steps == [] then m else Next(Exec(m, steps[..|steps|-1]), steps[|steps|-1])
  }

  // ---------------------------------------------------------------------------
  // Every acknowledged write is in one place
  // ---------------------------------------------------------------------------

  /** The three places are disjoint and hold exactly the acknowledged writes. */
  ghost predicate Accounted(m: Machine) {
    && Ids(m.pending) !! m.taken && Ids(m.pending) !! m.dropped && m.taken !! m.dropped
    && forall i: nat :: i < |m.acked| <==> i in Ids(m.pending) || i in m.taken || i in m.dropped
  }

  lemma StepAccounted(m: Machine, step: Step)
    requires Accounted(m)
    ensures Accounted(Next(m, step))
  {
    if step.Push? {
      assert Ids(m.pending + [|m.acked|]) == Ids(m.pending) + {|m.acked|};
      assert |m.acked| !in Ids(m.pending) && |m.acked| !in m.taken && |m.acked| !in m.dropped;
    }
  }

  lemma {:induction false} EveryWriteAccounted(file: Bytes, threads: set<Thread>, steps: seq<Step>)
    ensures Accounted(Exec(Start(file, threads), steps))
  {
    if steps != [] {
      EveryWriteAccounted(file, threads, steps[..|steps|-1]);
      StepAccounted(Exec(Start(file, threads), steps[..|steps|-1]), steps[|steps|-1]);
    }
  }

  // ---------------------------------------------------------------------------
  // The fate of one write
  // ---------------------------------------------------------------------------

  /** At step `j` some flush takes or drops the buffer. */
  ghost predicate Clears(m: Machine, steps: seq<Step>, j: nat) {
    && j < |steps| && (steps[j].Take? || steps[j].Invalidate?)
    && Enabled(Exec(m, steps[..j]), steps[j])
  }

  /** Step `j` is the first to do so. */
  ghost predicate FirstClears(m: Machine, steps: seq<Step>, j: nat) {
    Clears(m, steps, j) && forall k: nat :: k < j ==> !Clears(m, steps, k)
  }

  /** Where write `n` is, told from the steps after it was buffered. */
  ghost predicate Fate(m: Machine, steps: seq<Step>, n: nat) {
    var end := Exec(m, steps);
    && (n in end.pending <==> forall j: nat :: !Clears(m, steps, j))
    && (n in end.taken <==> exists j: nat :: FirstClears(m, steps, j) && steps[j].Take?)
    && (n in end.dropped <==> exists j: nat :: FirstClears(m, steps, j) && steps[j].Invalidate?)
  }

  lemma ClearsPrefix(m: Machine, steps: seq<Step>, j: nat)
    requires steps != [] && j < |steps|-1
    ensures Clears(m, steps[..|steps|-1], j) <==> Clears(m, steps, j)
  {
    assert steps[..|steps|-1][..j] == steps[..j];
  }

  /** The buffer holds `n` until the first clearing step, and then no more. */
  lemma {:induction false} WaitsInBuffer(m: Machine, steps: seq<Step>, n: nat)
    requires n in m.pending && n < |m.acked| && forall j: nat :: !Clears(m, steps, j)
    ensures n in Exec(m, steps).pending && |m.acked| <= |Exec(m, steps).acked|
  {
    if steps != [] {
      var init := steps[..|steps|-1];
      forall j: nat ensures !Clears(m, init, j) {
        if j < |init| {
          ClearsPrefix(m, steps, j);
        }
      }
      WaitsInBuffer(m, init, n);
      assert !Clears(m, steps, |init|);
    }
  }

  lemma ClearingStep(m: Machine, step: Step, n: nat)
    requires n in m.pending && Enabled(m, step) && (step.Take? || step.Invalidate?)
    ensures step.Take? ==> n in Next(m, step).taken
    ensures step.Invalidate? ==> n in Next(m, step).dropped
  {
    assert n in Ids(m.pending);
  }

  lemma {:induction false} StaysPut(m: Machine, steps: seq<Step>, n: nat)
    ensures n in m.taken ==> n in Exec(m, steps).taken
    ensures n in m.dropped ==> n in Exec(m, steps).dropped
  {
    if steps != [] {
      StaysPut(m, steps[..|steps|-1], n);
    }
  }

  lemma {:induction false} ExecConcat(m: Machine, a: seq<Step>, b: seq<Step>)
    ensures Exec(m, a + b) == Exec(Exec(m, a), b)
  {
    if b == [] {
      assert a + b == a;
    } else {
      ExecConcat(m, a, b[..|b|-1]);
      assert (a + b)[..|a + b|-1] == a + b[..|b|-1];
    }
  }

  lemma Cleared(m: Machine, steps: seq<Step>, n: nat, j: nat)
    requires n in m.pending && n < |m.acked| && FirstClears(m, steps, j)
    ensures if steps[j].Take? then n in Exec(m, steps).taken else n in Exec(m, steps).dropped
  {
    var before, upto := steps[..j], steps[..j + 1];
    forall k: nat ensures !Clears(m, before, k) {
      if k < j {
        assert before[..k] == steps[..k];
        assert !Clears(m, steps, k);
      }
    }
    WaitsInBuffer(m, before, n);
    ClearingStep(Exec(m, before), steps[j], n);
    assert upto[..|upto|-1] == before;
    StaysPut(Exec(m, upto), steps[j + 1..], n);
    ExecConcat(m, upto, steps[j + 1..]);
    assert upto + steps[j + 1..] == steps;
  }

  lemma {:induction false} FirstOfThem(m: Machine, steps: seq<Step>, j: nat) returns (first: nat)
    requires Clears(m, steps, j)
    ensures FirstClears(m, steps, first)
  {
    if k: nat :| k < j && Clears(m, steps, k) {
      first := FirstOfThem(m, steps, k);
    } else {
      first := j;
    }
  }

  lemma {:induction false} AccountedAfter(m: Machine, steps: seq<Step>)
    requires Accounted(m)
    ensures Accounted(Exec(m, steps))
  {
    if steps != [] {
      AccountedAfter(m, steps[..|steps|-1]);
      StepAccounted(Exec(m, steps[..|steps|-1]), steps[|steps|-1]);
    }
  }

  lemma FateOf(m: Machine, steps: seq<Step>, n: nat)
    requires Accounted(m) && n in m.pending
    ensures Fate(m, steps, n)
  {
    var end := Exec(m, steps);
    assert n in Ids(m.pending);
    AccountedAfter(m, steps);
    assert n in end.pending <==> n in Ids(end.pending);
    if j: nat :| Clears(m, steps, j) {
      var first := FirstOfThem(m, steps, j);
      Cleared(m, steps, n, first);
      assert forall k: nat :: FirstClears(m, steps, k) ==> k == first;
    } else {
      WaitsInBuffer(m, steps, n);
    }
  }

  /** In every interleaving of any number of writers and flushes, a write acknowledged after
      `before` is dropped exactly when the first flush step to clear the buffer after it is an
      invalidation, and is taken for sending exactly when that step is a take. */
  lemma WriteFate(file: Bytes, threads: set<Thread>, before: seq<Step>, s: Segment, after: seq<Step>)
    ensures var m := Exec(Start(file, threads), before);
            Fate(Next(m, Push(s)), after, |m.acked|)
    ensures Exec(Start(file, threads), before + [Push(s)] + after)
         == Exec(Next(Exec(Start(file, threads), before), Push(s)), after)
  {
    var m := Exec(Start(file, threads), before);
    EveryWriteAccounted(file, threads, before);
    StepAccounted(m, Push(s));
    FateOf(Next(m, Push(s)), after, |m.acked|);
    ExecConcat(Start(file, threads), before + [Push(s)], after);
    assert (before + [Push(s)])[..|before + [Push(s)]|-1] == before;
  }

  // ---------------------------------------------------------------------------
  // When a write is safe
  // ---------------------------------------------------------------------------

  /** No flush is between taking the buffer and invalidating the path. */
  ghost predicate NoFlushSending(m: Machine) {
    forall t <- m.threads :: m.threads[t].Idle?
  }

  /** Write `n` is not dropped, and cannot be by any invalidation under way. */
  ghost predicate OutOfReach(m: Machine, n: nat) {
    n !in m.dropped && (n in m.pending ==> NoFlushSending(m))
  }

  lemma StepOutOfReach(m: Machine, n: nat, step: Step)
    requires OutOfReach(m, n) && n < |m.acked|
    ensures OutOfReach(Next(m, step), n) && n < |Next(m, step).acked|
  {
    if step.Invalidate? && Enabled(m, step) {
      assert !NoFlushSending(m);
    }
  }

  lemma {:induction false} StaysOutOfReach(m: Machine, n: nat, steps: seq<Step>)
    requires OutOfReach(m, n) && n < |m.acked|
    ensures OutOfReach(Exec(m, steps), n) && n < |Exec(m, steps).acked|
  {
    if steps != [] {
      StaysOutOfReach(m, n, steps[..|steps|-1]);
      StepOutOfReach(Exec(m, steps[..|steps|-1]), n, steps[|steps|-1]);
    }
  }

  /** The flush under way succeeds, and its invalidation drops the buffer. */
  lemma {:induction false} FlushDrops(m: Machine, t: Thread, n: nat) returns (steps: seq<Step>)
    requires t in m.threads && m.threads[t].Sending? && n in m.pending
    ensures n in Exec(m, steps).dropped
    decreases |m.threads[t].runs|
  {
    if m.threads[t].runs == [] {
      ClearingStep(m, Invalidate(t), n);
      steps := [Invalidate(t)];
      assert steps[..0] == [];
    } else {
      var rest := FlushDrops(Next(m, Send(t)), t, n);
      steps := [Send(t)] + rest;
      assert [Send(t)][..0] == [];
      assert Exec(m, [Send(t)]) == Next(Exec(m, []), Send(t));
      ExecConcat(m, [Send(t)], rest);
    }
  }

  ghost predicate NeverDropped(m: Machine, n: nat, steps: seq<Step>) {
    n !in Exec(m, steps).dropped
  }

  /** A write survives every continuation exactly when no flush of the path is sending at the
      moment it is acknowledged. */
  lemma SafeWhenPushedIff(m: Machine, s: Segment)
    requires Accounted(m)
    ensures (forall after :: NeverDropped(Next(m, Push(s)), |m.acked|, after)) <==> NoFlushSending(m)
  {
    var m', n := Next(m, Push(s)), |m.acked|;
    if NoFlushSending(m) {
      forall after ensures NeverDropped(m', n, after) {
        StaysOutOfReach(m', n, after);
      }
    } else {
      var t :| t in m.threads && !m.threads[t].Idle?;
      var after := FlushDrops(m', t, n);
      assert !NeverDropped(m', n, after);
    }
  }

  // ---------------------------------------------------------------------------
  // Losses happen as soon as there is a flush
  // ---------------------------------------------------------------------------

  lemma ExecPush(m: Machine, steps: seq<Step>, step: Step)
    ensures Exec(m, steps + [step]) == Next(Exec(m, steps), step)
  {
    assert (steps + [step])[..|steps + [step]|-1] == steps;
  }

  lemma RunsOfOne(s: Segment)
    ensures Runs([s]) == [s]
  {
    assert [s][..0] == [];
    assert StableSort([s]) == Insert([], s) == [s];
    assert Merged([s]) == MergeStep(Merged([]), s);
  }

  /** A buffer with one write, and one flush at rest. */
  ghost predicate Ready(m: Machine, t: Thread, a: Segment) {
    t in m.threads && m.threads[t].Idle? && m.pending == [0] && m.acked == [a] && m.dropped == {}
  }

  lemma TakeOne(m: Machine, t: Thread, a: Segment)
    requires Ready(m, t, a)
    ensures var m' := Next(m, Take(t));
            t in m'.threads && m'.threads[t] == Sending([a]) && m'.pending == [] && m'.acked == [a] && m'.dropped == {}
  {
    assert [0][..0] == [];
    assert Contents([a], [0]) == Contents([a], []) + [a];
    RunsOfOne(a);
  }

  lemma PushSendInvalidate(m: Machine, t: Thread, a: Segment, b: Segment)
    requires t in m.threads && m.threads[t] == Sending([a]) && m.pending == [] && m.acked == [a] && m.dropped == {}
    ensures var m' := Next(Next(Next(m, Push(b)), Send(t)), Invalidate(t));
            m'.dropped == {1} && m'.pending == [] && m'.threads[t].Idle?
  {
    var m1 := Next(m, Push(b));
    var m2 := Next(m1, Send(t));
    assert m2.pending == [1] && m2.threads[t] == Sending([]);
    assert Ids([1]) == {1};
  }

  /** A write acknowledged while a flush is sending is gone when that flush succeeds. */
  lemma WriteDuringFlushIsLost(file: Bytes, threads: set<Thread>, t: Thread, a: Segment, b: Segment)
    requires t in threads
    ensures Exec(Start(file, threads), [] + [Push(a)] + [Take(t)] + [Push(b)] + [Send(t)] + [Invalidate(t)]).dropped == {1}
  {
    var m := Start(file, threads);
    ExecPush(m, [], Push(a));
    ExecPush(m, [] + [Push(a)], Take(t));
    ExecPush(m, [] + [Push(a)] + [Take(t)], Push(b));
    ExecPush(m, [] + [Push(a)] + [Take(t)] + [Push(b)], Send(t));
    ExecPush(m, [] + [Push(a)] + [Take(t)] + [Push(b)] + [Send(t)], Invalidate(t));
    TakeOne(Next(m, Push(a)), t, a);
    PushSendInvalidate(Next(Next(m, Push(a)), Take(t)), t, a, b);
  }

  lemma {:induction false} NoFlushNoDrop(file: Bytes, steps: seq<Step>)
    ensures Exec(Start(file, {}), steps).dropped == {} && Exec(Start(file, {}), steps).threads == map[]
  {
    if steps != [] {
      NoFlushNoDrop(file, steps[..|steps|-1]);
    }
  }

  ghost predicate NothingDropped(file: Bytes, threads: set<Thread>, steps: seq<Step>) {
    Exec(Start(file, threads), steps).dropped == {}
  }

  /** Beside writers, every interleaving keeps all acknowledged writes only if nobody flushes. */
  lemma NothingDroppedIff(threads: set<Thread>)
    ensures (forall file: Bytes, steps: seq<Step> :: NothingDropped(file, threads, steps)) <==> threads == {}
  {
    if t :| t in threads {
      var s := Segment(0, []);
      WriteDuringFlushIsLost([], threads, t, s, s);
      assert !NothingDropped([], threads, [] + [Push(s)] + [Take(t)] + [Push(s)] + [Send(t)] + [Invalidate(t)]);
    } else {
      forall file: Bytes, steps: seq<Step> ensures NothingDropped(file, threads, steps) {
        NoFlushNoDrop(file, steps);
      }
    }
  }

  // ---------------------------------------------------------------------------
  // One flush at a time: the server's file
  // ---------------------------------------------------------------------------

  /** The file together with the runs still to be sent is what the batches taken dictate. */
  ghost predicate FollowsBatches(file: Bytes, m: Machine, t: Thread) {
    && m.threads.Keys == {t}
    && Apply(m.file, if m.threads[t].Idle? then [] else m.threads[t].runs) == ApplyBatches(file, m.batches)
  }

  lemma ApplyHead(file: Bytes, runs: seq<Segment>)
    requires runs != []
    ensures Apply(WriteAt(file, runs[0]), runs[1..]) == Apply(file, runs)
  {
    assert runs == [runs[0]] + runs[1..];
    assert [runs[0]][..0] == [];
    assert Apply(file, [runs[0]]) == WriteAt(Apply(file, []), runs[0]);
    ApplyConcat(file, [runs[0]], runs[1..]);
  }

  lemma BatchSent(file: Bytes, batches: seq<Batch>, batch: Batch)
    ensures Apply(ApplyBatches(file, batches), Runs(batch)) == ApplyBatches(file, batches + [batch])
  {
    RunsCorrect(batch);
    EquivalentApply(ApplyBatches(file, batches), Runs(batch), StableSort(batch));
    ApplyPush(file, batches, batch);
  }

  lemma TakeFollows(file: Bytes, m: Machine, t: Thread)
    requires FollowsBatches(file, m, t) && Enabled(m, Take(t))
    ensures FollowsBatches(file, Next(m, Take(t)), t)
  {
    BatchSent(file, m.batches, Contents(m.acked, m.pending));
  }

  lemma StepFollows(file: Bytes, m: Machine, t: Thread, step: Step)
    requires FollowsBatches(file, m, t) && !step.Refuse?
    ensures FollowsBatches(file, Next(m, step), t)
  {
    if Enabled(m, step) && !step.Push? {
      assert step.t in m.threads.Keys;
      if step.Take? {
        TakeFollows(file, m, t);
      } else if step.Send? {
        ApplyHead(m.file, m.threads[t].runs);
      }
    }
  }

  /** With one flush at a time and an accepting server, whenever the flush is at rest the server
      holds what the batches taken dictate, whatever the writers do meanwhile. */
  lemma {:induction false} OneFlushFollowsBatches(file: Bytes, t: Thread, steps: seq<Step>)
    requires forall step <- steps :: !step.Refuse?
    ensures var m := Exec(Start(file, {t}), steps);
            FollowsBatches(file, m, t) && (m.threads[t].Idle? ==> m.file == ApplyBatches(file, m.batches))
  {
    if steps == [] {
      assert Start(file, {t}).threads.Keys == {t};
    } else {
      assert forall step <- steps[..|steps|-1] :: step in steps;
      OneFlushFollowsBatches(file, t, steps[..|steps|-1]);
      assert steps[|steps|-1] in steps;
      StepFollows(file, Exec(Start(file, {t}), steps[..|steps|-1]), t, steps[|steps|-1]);
    }
  }

  // ---------------------------------------------------------------------------
  // Several flushes at a time
  // ---------------------------------------------------------------------------

  /** Unless the server refuses, at rest its file is what the batches taken dictate. */
  ghost predicate FileFollowsBatches(file: Bytes, threads: set<Thread>, steps: seq<Step>) {
    var m := Exec(Start(file, threads), steps);
    (forall step <- steps :: !step.Refuse?) && NoFlushSending(m) ==> m.file == ApplyBatches(file, m.batches)
  }

  /** Two flushes of one path: the second overtakes the first. */
  function Overtaking(t: Thread, u: Thread, a: Segment, b: Segment): seq<Step> {
    [] + [Push(a)] + [Take(t)] + [Push(b)] + [Take(u)] + [Send(u)] + [Send(t)] + [Invalidate(t)] + [Invalidate(u)]
  }

  lemma PushTake(m: Machine, t: Thread, s: Segment, m': Machine)
    requires t in m.threads && m.threads[t].Idle? && m.pending == []
    requires m' == Next(Next(m, Push(s)), Take(t))
    ensures m'.threads == m.threads[t := Sending([s])] && m'.pending == []
    ensures m'.file == m.file && m'.batches == m.batches + [[s]]
  {
    var n := |m.acked|;
    assert [n][..0] == [] && Contents(m.acked + [s], [n]) == Contents(m.acked + [s], []) + [s];
    RunsOfOne(s);
    assert [] + [n] == [n];
  }

  lemma SendOne(m: Machine, t: Thread, s: Segment, m': Machine)
    requires t in m.threads && m.threads[t] == Sending([s]) && m' == Next(m, Send(t))
    ensures m'.threads == m.threads[t := Sending([])]
    ensures m'.file == WriteAt(m.file, s) && m'.batches == m.batches
  {
    assert [s][1..] == [];
  }

  lemma Finish(m: Machine, t: Thread, m': Machine)
    requires t in m.threads && m.threads[t] == Sending([]) && m' == Next(m, Invalidate(t))
    ensures m'.threads == m.threads[t := Idle] && m'.file == m.file && m'.batches == m.batches
  {
  }

  lemma BothTake(m: Machine, t: Thread, u: Thread, a: Segment, b: Segment, m': Machine)
    requires t != u && t in m.threads && u in m.threads && m.threads[t].Idle? && m.threads[u].Idle?
    requires m.pending == [] && m.batches == []
    requires m' == Next(Next(Next(Next(m, Push(a)), Take(t)), Push(b)), Take(u))
    ensures m'.threads == m.threads[t := Sending([a])][u := Sending([b])]
    ensures m'.file == m.file && m'.batches == [[a], [b]]
  {
    var m2 := Next(Next(m, Push(a)), Take(t));
    PushTake(m, t, a, m2);
    PushTake(m2, u, b, m');
  }

  lemma BothSend(m: Machine, t: Thread, u: Thread, a: Segment, b: Segment, m': Machine)
    requires t != u && t in m.threads && u in m.threads
    requires m.threads[t] == Sending([a]) && m.threads[u] == Sending([b])
    requires m' == Next(Next(Next(Next(m, Send(u)), Send(t)), Invalidate(t)), Invalidate(u))
    ensures m'.threads == m.threads[t := Idle][u := Idle] && m'.batches == m.batches
    ensures m'.file == WriteAt(WriteAt(m.file, b), a)
  {
    var m1 := Next(m, Send(u));
    SendOne(m, u, b, m1);
    var m2 := Next(m1, Send(t));
    SendOne(m1, t, a, m2);
    var m3 := Next(m2, Invalidate(t));
    Finish(m2, t, m3);
    Finish(m3, u, m');
  }

  lemma ExecFour(m: Machine, steps: seq<Step>, a: Step, b: Step, c: Step, d: Step, m': Machine)
    requires Exec(m, steps) == m'
    ensures Exec(m, steps + [a] + [b] + [c] + [d]) == Next(Next(Next(Next(m', a), b), c), d)
  {
    ExecPush(m, steps, a);
    ExecPush(m, steps + [a], b);
    ExecPush(m, steps + [a] + [b], c);
    ExecPush(m, steps + [a] + [b] + [c], d);
  }

  lemma OvertakingEnds(threads: set<Thread>, t: Thread, u: Thread, a: Segment, b: Segment) returns (m: Machine)
    requires t in threads && u in threads && t != u
    ensures m == Exec(Start([], threads), Overtaking(t, u, a, b))
    ensures NoFlushSending(m) && m.batches == [[a], [b]] && m.file == WriteAt(WriteAt([], b), a)
  {
    var m0 := Start([], threads);
    var m1 := Next(Next(Next(Next(m0, Push(a)), Take(t)), Push(b)), Take(u));
    ExecFour(m0, [], Push(a), Take(t), Push(b), Take(u), m0);
    BothTake(m0, t, u, a, b, m1);
    m := Next(Next(Next(Next(m1, Send(u)), Send(t)), Invalidate(t)), Invalidate(u));
    ExecFour(m0, [] + [Push(a)] + [Take(t)] + [Push(b)] + [Take(u)], Send(u), Send(t), Invalidate(t), Invalidate(u), m1);
    BothSend(m1, t, u, a, b, m);
  }

  lemma OlderWriteWins(threads: set<Thread>, t: Thread, u: Thread)
    requires t in threads && u in threads && t != u
    ensures !FileFollowsBatches([], threads, Overtaking(t, u, Segment(0, [1]), Segment(0, [2])))
  {
    var a, b := Segment(0, [1]), Segment(0, [2]);
    var m := OvertakingEnds(threads, t, u, a, b);
    TwoBatches(a, b);
    assert WriteAt(WriteAt([], b), a)[0] == 1 && WriteAt(WriteAt([], a), b)[0] == 2;
  }

  lemma TwoBatches(a: Segment, b: Segment)
    ensures ApplyBatches([], [[a], [b]]) == WriteAt(WriteAt([], a), b)
  {
    BatchSent([], [], [a]);
    BatchSent([], [[a]], [b]);
    RunsOfOne(a);
    RunsOfOne(b);
    ApplyHead([], [a]);
    ApplyHead(WriteAt([], a), [b]);
    assert [] + [[a]] == [[a]] && [[a]] + [[b]] == [[a], [b]];
  }

  /** In all interleavings with an accepting server the file at rest is what the batches dictate
      exactly when there is one flushing thread. */
  lemma FileFollowsBatchesIff(threads: set<Thread>)
    requires threads != {}
    ensures (forall file: Bytes, steps: seq<Step> :: FileFollowsBatches(file, threads, steps)) <==> |threads| == 1
  {
    var t :| t in threads;
    if |threads| == 1 {
      OnlyMember(threads, t);
      forall file: Bytes, steps: seq<Step> ensures FileFollowsBatches(file, threads, steps) {
        if forall step <- steps :: !step.Refuse? {
          OneFlushFollowsBatches(file, t, steps);
        }
      }
    } else {
      assert threads != {t};
      var u :| u in threads && u != t;
      OlderWriteWins(threads, t, u);
    }
  }

  // ---------------------------------------------------------------------------
  // Refusals
  // ---------------------------------------------------------------------------

  /** A refused flush invalidates nothing: if it was the only one under way, everything buffered by then
      survives every continuation. */
  lemma RefusalSparesBuffer(m: Machine, t: Thread, n: nat, after: seq<Step>)
    requires Accounted(m) && Enabled(m, Refuse(t)) && n in m.pending
    requires forall v <- m.threads :: v != t ==> m.threads[v].Idle?
    ensures NeverDropped(Next(m, Refuse(t)), n, after)
  {
    assert n in Ids(m.pending);
    StaysOutOfReach(Next(m, Refuse(t)), n, after);
  }
}
