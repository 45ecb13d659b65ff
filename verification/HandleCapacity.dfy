/**
 How far the separately locked capacity check of `open_handle`
 (crates/racfs-vfs/src/handle_manager.rs:67-109) can be overrun: the bound of
 `Handles.EveryRunIsSafe` is reached, so the configured limit is respected in every
 run exactly when there is a single thread or no capacity at all.
 */
module HandleCapacity {
  import opened Handles

  ghost predicate Distinct<T>(s: seq<T>) {
    forall i, j :: 0 <= i < j < |s| ==> s[i] != s[j]
  }

  function ThreadSet(ts: seq<Thread>): set<Thread> {
    set t | t in ts
  }

  lemma ExecPush(c: Config, threads: set<Thread>, steps: seq<Step>, x: Step)
    ensures Exec(c, threads, steps + [x]) == Next(c, Exec(c, threads, steps), x)
  {
    assert (steps + [x])[..|steps + [x]|-1] == steps;
  }

  /** `n` handles are open, with ids below `n` and keys among the first `n`. */
  ghost predicate Holds(s: Machine, keys: seq<Key>, n: nat) {
    && n <= |keys| && |s.tables.handles| == n
    && (forall id <- s.issued :: id < n)
    && s.tables.handles.Keys <= s.issued
    && (forall k <- s.tables.index :: k in keys[..n])
  }

  /** A thread passes the capacity check and misses the index. */
  lemma PassCheck(c: Config, threads: set<Thread>, steps: seq<Step>, t: Thread, key: Key) returns (more: seq<Step>)
    requires var s := Exec(c, threads, steps);
             t in s.threads && s.threads[t].Idle? && |s.tables.handles| < c.maxHandles && key !in s.tables.index
    ensures var s := Exec(c, threads, steps);
            Exec(c, threads, more) == s.(threads := s.threads[t := Missed(key)])
  {
    ExecPush(c, threads, steps, OpenCheck(t, key));
    ExecPush(c, threads, steps + [OpenCheck(t, key)], OpenProbe(t));
    more := steps + [OpenCheck(t, key)] + [OpenProbe(t)];
  }

  lemma Insert(c: Config, threads: set<Thread>, steps: seq<Step>, t: Thread, keys: seq<Key>, n: nat) returns (more: seq<Step>)
    requires Distinct(keys) && n < |keys|
    requires var s := Exec(c, threads, steps);
             Holds(s, keys, n) && t in s.threads && s.threads[t] == Missed(keys[n])
    ensures var s := Exec(c, threads, steps);
            Holds(Exec(c, threads, more), keys, n + 1) && Exec(c, threads, more).threads == s.threads[t := Idle]
  {
    var s := Exec(c, threads, steps);
    var step := OpenCommit(t, n, 0);
    ExecPush(c, threads, steps, step);
    more := steps + [step];
    assert keys[n] !in keys[..n];
    var s' := Next(c, s, step);
    assert s'.tables.handles.Keys == s.tables.handles.Keys + {n};
    assert keys[..n+1] == keys[..n] + [keys[n]];
  }

  /** One thread alone opens `n` handles. */
  lemma {:induction false} Fill(c: Config, threads: set<Thread>, t: Thread, keys: seq<Key>, n: nat) returns (steps: seq<Step>)
    requires t in threads && Distinct(keys) && n <= |keys| && n <= c.maxHandles
    ensures Holds(Exec(c, threads, steps), keys, n)
    ensures Exec(c, threads, steps).threads == Start(threads).threads
  {
    if n == 0 {
      steps := [];
    } else {
      steps := Fill(c, threads, t, keys, n-1);
      var idle: map<Thread, Pc> := Start(threads).threads;
      assert keys[n-1] !in keys[..n-1];
      steps := PassCheck(c, threads, steps, t, keys[n-1]);
      steps := Insert(c, threads, steps, t, keys, n-1);
      var poised: map<Thread, Pc> := idle[t := Missed(keys[n-1])];
      assert poised[t := Idle] == idle;
    }
  }

  /** Threads `lo` up to `hi` of `ts` are about to insert, each with its own key; the rest are idle. */
  ghost predicate Poised(s: Machine, ts: seq<Thread>, keys: seq<Key>, base: nat, lo: nat, hi: nat)
    requires base + |ts| <= |keys|
  {
    && lo <= hi <= |ts|
    && (forall i :: 0 <= i < |ts| ==> ts[i] in s.threads)
    && (forall i :: 0 <= i < |ts| ==> s.threads[ts[i]] == if lo <= i < hi then Missed(keys[base + i]) else Idle)
  }

  /** While one slot is free, every thread in turn passes the check. */
  lemma {:induction false} AllPass(c: Config, ts: seq<Thread>, keys: seq<Key>, base: nat, j: nat) returns (steps: seq<Step>)
    requires ts != [] && Distinct(ts) && Distinct(keys) && base + |ts| == |keys| && c.maxHandles == base + 1 && j <= |ts|
    ensures Holds(Exec(c, ThreadSet(ts), steps), keys, base)
    ensures Poised(Exec(c, ThreadSet(ts), steps), ts, keys, base, 0, j)
  {
    if j == 0 {
      steps := Fill(c, ThreadSet(ts), ts[0], keys, base);
    } else {
      steps := AllPass(c, ts, keys, base, j-1);
      assert keys[base + j-1] !in keys[..base];
      steps := PassCheck(c, ThreadSet(ts), steps, ts[j-1], keys[base + j-1]);
    }
  }

  lemma {:induction false} AllInsert(c: Config, ts: seq<Thread>, keys: seq<Key>, base: nat, j: nat) returns (steps: seq<Step>)
    requires ts != [] && Distinct(ts) && Distinct(keys) && base + |ts| == |keys| && c.maxHandles == base + 1 && j <= |ts|
    ensures Holds(Exec(c, ThreadSet(ts), steps), keys, base + j)
    ensures Poised(Exec(c, ThreadSet(ts), steps), ts, keys, base, j, |ts|)
  {
    if j == 0 {
      steps := AllPass(c, ts, keys, base, |ts|);
    } else {
      steps := AllInsert(c, ts, keys, base, j-1);
      steps := Insert(c, ThreadSet(ts), steps, ts[j-1], keys, base + j-1);
    }
  }

  /** The overshoot is real: some interleaving opens `maxHandles + k - 1` handles. */
  lemma OvershootReached(c: Config, ts: seq<Thread>, keys: seq<Key>) returns (steps: seq<Step>)
    requires c.maxHandles > 0 && ts != [] && Distinct(ts) && Distinct(keys)
    requires |keys| == c.maxHandles + |ts| - 1
    ensures |Exec(c, ThreadSet(ts), steps).tables.handles| == c.maxHandles + |ts| - 1
  {
    steps := AllInsert(c, ts, keys, c.maxHandles - 1, |ts|);
  }

  ghost predicate LimitKept(c: Config, threads: set<Thread>, steps: seq<Step>) {
    |Exec(c, threads, steps).tables.handles| <= c.maxHandles
  }

  /** The limit holds in every run exactly for one thread, or when nothing may be opened. */
  lemma LimitKeptIff(c: Config, ts: seq<Thread>, keys: seq<Key>)
    requires ts != [] && Distinct(ts) && Distinct(keys) && |keys| == c.maxHandles + |ts| - 1
    ensures (forall steps :: LimitKept(c, ThreadSet(ts), steps)) <==> (|ts| == 1 || c.maxHandles == 0)
  {
    assert ts[0] in ThreadSet(ts);
    if |ts| == 1 || c.maxHandles == 0 {
      forall steps ensures LimitKept(c, ThreadSet(ts), steps) {
        EveryRunIsSafe(c, ThreadSet(ts), steps);
        if |ts| == 1 {
          assert ThreadSet(ts) == {ts[0]};
        }
      }
    } else {
      var steps := OvershootReached(c, ts, keys);
      assert !LimitKept(c, ThreadSet(ts), steps);
    }
  }
}
