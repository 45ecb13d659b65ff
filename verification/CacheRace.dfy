/**
 Reads and mutations through CachedFs run side by side.  A read that misses looks up, fetches
 and puts in three steps, and a mutation changes the filesystem and then invalidates
 (crates/racfs-vfs/src/cached_fs.rs:85-217), so others may act in between.
 */
module CacheRace {
  import opened Common
  import opened Paths
  import opened MemFs
  import opened CachedFs

  type Thread = nat

  /** A thread at rest, in a read that missed, with the bytes it fetched, or with a mutation done
      but not yet invalidated. */
  datatype Pc = Idle | Missed(p: Path) | Fetched(p: Path, bytes: Bytes) | Mutated(op: Op)

  datatype Machine = Machine(st: State, threads: map<Thread, Pc>)

  datatype Event =
    | Lookup(t: Thread, p: Path)
    | Fetch(t: Thread)
    | PutRead(t: Thread)
    | Change(t: Thread, op: Op)
    | Invalidation(t: Thread)

  predicate Enabled(m: Machine, e: Event) {
    e.t in m.threads &&
    match e
    case Lookup(t, _) => m.threads[t].Idle?
    case Fetch(t) => m.threads[t].Missed?
    case PutRead(t) => m.threads[t].Fetched?
    case Change(t, _) => m.threads[t].Idle?
    case Invalidation(t) => m.threads[t].Mutated?
  }

  function Goto(m: Machine, t: Thread, pc: Pc): Machine {
    m.(threads := m.threads[t := pc])
  }

  /** An event that is not enabled leaves the machine where it is. */
  function Next(prefix: string, m: Machine, e: Event): Machine {
    if !Enabled(m, e) then m else
    match e
    case Lookup(t, p) => if Key(prefix, ReadKind, p) in m.st.cache then m else Goto(m, t, Missed(p))
    case Fetch(t) =>
      var whole := Read(m.st.files, m.threads[t].p, 0, -1);
      Goto(m, t, if whole.Data? then Fetched(m.threads[t].p, whole.bytes) else Idle)
    case PutRead(t) =>
      var pc := m.threads[t];
      Goto(m, t, Idle).(st := m.st.(cache := m.st.cache[Key(prefix, ReadKind, pc.p) := Content(pc.bytes)]))
    case Change(t, op) =>
      var (files, r) := Apply(m.st.files, op);
      Goto(m, t, if r.Failed? then Idle else Mutated(op)).(st := m.st.(files := files))
    case Invalidation(t) =>
      Goto(m, t, Idle).(st := m.st.(cache := Invalidate(m.st.cache, prefix, m.threads[t].op)))
  }

  function Start(now: nat, threads: set<Thread>): Machine {
    Machine(CachedFs.Fresh(now), map t | t in threads :: Idle)
  }

  /** Any interleaving: a list of events. */
  function Exec(prefix: string, m: Machine, events: seq<Event>): Machine {
    if events == [] then m else Next(prefix, Exec(prefix, m, events[..|events|-1]), events[|events|-1])
  }

  lemma ExecPush(prefix: string, m: Machine, events: seq<Event>, e: Event, m': Machine)
    requires Exec(prefix, m, events) == m'
    ensures Exec(prefix, m, events + [e]) == Next(prefix, m', e)
  {
    assert (events + [e])[..|events + [e]|-1] == events;
  }

  lemma {:induction false} ExecConcat(prefix: string, m: Machine, a: seq<Event>, b: seq<Event>)
    ensures Exec(prefix, m, a + b) == Exec(prefix, Exec(prefix, m, a), b)
  {
    if b == [] {
      assert a + b == a;
    } else {
      ExecConcat(prefix, m, a, b[..|b|-1]);
      assert (a + b)[..|a + b|-1] == a + b[..|b|-1];
    }
  }

  ghost predicate AtRest(m: Machine) {
    forall t <- m.threads :: m.threads[t].Idle?
  }

  /** Every cached content is the file's content. */
  ghost predicate ReadsOk(prefix: string, st: State) {
    forall p: Path :: ReadOk(prefix, st, p)
  }

  ghost predicate ReadsOkAtRest(prefix: string, now: nat, threads: set<Thread>, events: seq<Event>) {
    var m := Exec(prefix, Start(now, threads), events);
    AtRest(m) ==> ReadsOk(prefix, m.st)
  }

  // ---------------------------------------------------------------------------
  // When the cache comes right without another mutation
  // ---------------------------------------------------------------------------

  ghost predicate Current(files: Files, p: Path, bytes: Bytes) {
    p in files && !files[p].meta.isDir && files[p].data == bytes
  }

  /** No read is about to put contents that have changed since it fetched them. */
  ghost predicate NoOldBytes(m: Machine) {
    forall t <- m.threads :: m.threads[t].Fetched? ==> Current(m.st.files, m.threads[t].p, m.threads[t].bytes)
  }

  /** A mutation of this path has still to invalidate it. */
  ghost predicate Owed(m: Machine, q: Path) {
    exists t <- m.threads :: m.threads[t].Mutated? && Touches(m.threads[t].op, q)
  }

  /** Wrong entries are about to be invalidated. */
  ghost predicate Repairable(prefix: string, m: Machine) {
    forall q: Path :: RightOrOwed(prefix, m, q)
  }

  ghost predicate RightOrOwed(prefix: string, m: Machine, q: Path) {
    ReadOk(prefix, m.st, q) || Owed(m, q)
  }

  lemma OwedStays(prefix: string, m: Machine, e: Event, q: Path)
    requires Owed(m, q) && !(e.Invalidation? && Enabled(m, e) && Touches(m.threads[e.t].op, q))
    ensures Owed(Next(prefix, m, e), q)
  {
    var t :| t in m.threads && m.threads[t].Mutated? && Touches(m.threads[t].op, q);
    var m' := Next(prefix, m, e);
    assert m'.threads[t] == m.threads[t];
  }

  lemma QuietRight(prefix: string, m: Machine, e: Event, q: Path)
    requires !e.Change? && RightOrOwed(prefix, m, q) && NoOldBytes(m)
    ensures RightOrOwed(prefix, Next(prefix, m, e), q)
  {
    if !Enabled(m, e) {
    } else if e.Invalidation? {
      Invalidated(m.st.cache, prefix, m.threads[e.t].op, q, ReadKind);
      if !Touches(m.threads[e.t].op, q) && Owed(m, q) {
        OwedStays(prefix, m, e, q);
      }
    } else {
      if e.PutRead? && Key(prefix, ReadKind, m.threads[e.t].p) == Key(prefix, ReadKind, q) {
        KeyInjective(prefix, ReadKind, m.threads[e.t].p, ReadKind, q);
      }
      if Owed(m, q) {
        OwedStays(prefix, m, e, q);
      }
    }
  }

  lemma QuietStep(prefix: string, m: Machine, e: Event)
    requires !e.Change? && Repairable(prefix, m) && NoOldBytes(m)
    ensures Repairable(prefix, Next(prefix, m, e)) && NoOldBytes(Next(prefix, m, e))
  {
    var m' := Next(prefix, m, e);
    forall q: Path ensures RightOrOwed(prefix, m', q) {
      assert RightOrOwed(prefix, m, q);
      QuietRight(prefix, m, e, q);
    }
  }

  /** Events without a mutation. */
  ghost predicate Quiet(events: seq<Event>) {
    forall e <- events :: !e.Change?
  }

  lemma {:induction false} QuietRun(prefix: string, m: Machine, events: seq<Event>)
    requires Quiet(events) && Repairable(prefix, m) && NoOldBytes(m)
    ensures Repairable(prefix, Exec(prefix, m, events)) && NoOldBytes(Exec(prefix, m, events))
  {
    if events != [] {
      assert events[|events|-1] in events && forall e <- events[..|events|-1] :: e in events;
      QuietRun(prefix, m, events[..|events|-1]);
      QuietStep(prefix, Exec(prefix, m, events[..|events|-1]), events[|events|-1]);
    }
  }

  /** One thread finishes what it is doing. */
  lemma FinishOne(prefix: string, m: Machine, v: Thread) returns (events: seq<Event>)
    requires v in m.threads
    ensures Quiet(events) && Exec(prefix, m, events).threads == m.threads[v := Idle]
    ensures Exec(prefix, m, events).st.files == m.st.files
  {
    if m.threads[v].Idle? {
      events := [];
    } else if m.threads[v].Missed? {
      ExecPush(prefix, m, [], Fetch(v), m);
      var m1 := Next(prefix, m, Fetch(v));
      events := [] + [Fetch(v)];
      if m1.threads[v].Fetched? {
        ExecPush(prefix, m, events, PutRead(v), m1);
        events := events + [PutRead(v)];
      }
    } else {
      var e := if m.threads[v].Fetched? then PutRead(v) else Invalidation(v);
      ExecPush(prefix, m, [], e, m);
      events := [] + [e];
    }
  }

  /** All the given threads finish, while `t` waits. */
  lemma {:induction false} Finish(prefix: string, m: Machine, t: Thread, todo: set<Thread>) returns (events: seq<Event>)
    requires t in m.threads && t !in todo && todo <= m.threads.Keys
    requires forall v <- m.threads :: v != t && v !in todo ==> m.threads[v].Idle?
    ensures Quiet(events)
    ensures var m' := Exec(prefix, m, events);
            && m'.st.files == m.st.files && m'.threads.Keys == m.threads.Keys && m'.threads[t] == m.threads[t]
            && forall v <- m'.threads :: v != t ==> m'.threads[v].Idle?
    decreases todo
  {
    if todo == {} {
      events := [];
    } else {
      var v :| v in todo;
      var first := FinishOne(prefix, m, v);
      var rest := Finish(prefix, Exec(prefix, m, first), t, todo - {v});
      events := first + rest;
      ExecConcat(prefix, m, first, rest);
    }
  }

  /** A read that holds old bytes may put them last. */
  lemma OldBytesLast(prefix: string, m: Machine, t: Thread) returns (events: seq<Event>)
    requires t in m.threads && m.threads[t].Fetched?
    requires !Current(m.st.files, m.threads[t].p, m.threads[t].bytes)
    ensures Quiet(events) && !RightAtRest(prefix, m, events)
  {
    var p := m.threads[t].p;
    var before := Finish(prefix, m, t, m.threads.Keys - {t});
    var m1 := Exec(prefix, m, before);
    ExecPush(prefix, m, before, PutRead(t), m1);
    events := before + [PutRead(t)];
    var m2 := Next(prefix, m1, PutRead(t));
    assert !ReadOk(prefix, m2.st, p);
    assert AtRest(m2);
  }

  ghost predicate RightAtRest(prefix: string, m: Machine, events: seq<Event>) {
    AtRest(Exec(prefix, m, events)) ==> ReadsOk(prefix, Exec(prefix, m, events).st)
  }

  /** When no further mutation starts, every way of finishing what is under way leaves the cache
      right exactly if no read holds bytes that have changed since it fetched them. */
  lemma ComesRightIff(prefix: string, m: Machine)
    requires Repairable(prefix, m)
    ensures (forall events :: Quiet(events) ==> RightAtRest(prefix, m, events)) <==> NoOldBytes(m)
  {
    if NoOldBytes(m) {
      forall events | Quiet(events) ensures RightAtRest(prefix, m, events) {
        QuietRun(prefix, m, events);
        var m' := Exec(prefix, m, events);
        if AtRest(m') {
          forall q: Path ensures ReadOk(prefix, m'.st, q) {
            assert RightOrOwed(prefix, m', q);
          }
        }
      }
    } else {
      var t :| t in m.threads && m.threads[t].Fetched? && !Current(m.st.files, m.threads[t].p, m.threads[t].bytes);
      var events := OldBytesLast(prefix, m, t);
    }
  }

  /** A mutation keeps wrong entries owed, whatever else is under way. */
  lemma ChangeRepairable(prefix: string, m: Machine, t: Thread, op: Op)
    requires Repairable(prefix, m)
    ensures Repairable(prefix, Next(prefix, m, Change(t, op)))
  {
    var m' := Next(prefix, m, Change(t, op));
    forall q: Path ensures RightOrOwed(prefix, m', q) {
      assert RightOrOwed(prefix, m, q);
      if Owed(m, q) {
        OwedStays(prefix, m, Change(t, op), q);
      } else if Enabled(m, Change(t, op)) {
        if !Touches(op, q) {
          OnlyTouched(m.st.files, op, q);
        } else if Apply(m.st.files, op).1.Failed? {
          FailureChangesNothing(m.st.files, op);
        } else {
          assert m'.threads[t] == Mutated(op);
        }
      }
    }
  }

  // ---------------------------------------------------------------------------
  // One thread
  // ---------------------------------------------------------------------------

  /** The cache is right once the thread has done what it is about to do. */
  ghost predicate Midway(prefix: string, st: State, pc: Pc) {
    match pc
    case Fetched(p, bytes) =>
      ReadsOk(prefix, st) && p in st.files && !st.files[p].meta.isDir && st.files[p].data == bytes
    case Mutated(op) => ReadsOk(prefix, st.(cache := Invalidate(st.cache, prefix, op)))
    case _ => ReadsOk(prefix, st)
  }

  lemma ChangeKeeps(prefix: string, st: State, op: Op)
    requires ReadsOk(prefix, st)
    ensures var (files, r) := Apply(st.files, op);
            ReadsOk(prefix, State(files, if r.Failed? then st.cache else Invalidate(st.cache, prefix, op)))
  {
    var (files, r) := Apply(st.files, op);
    var st' := State(files, if r.Failed? then st.cache else Invalidate(st.cache, prefix, op));
    forall q: Path ensures ReadOk(prefix, st', q) {
      assert ReadOk(prefix, st, q);
      Invalidated(st.cache, prefix, op, q, ReadKind);
      if !Touches(op, q) {
        OnlyTouched(st.files, op, q);
      } else if r.Failed? {
        FailureChangesNothing(st.files, op);
      }
    }
  }

  lemma PutKeeps(prefix: string, st: State, p: Path, bytes: Bytes)
    requires ReadsOk(prefix, st) && p in st.files && !st.files[p].meta.isDir && st.files[p].data == bytes
    ensures ReadsOk(prefix, st.(cache := st.cache[Key(prefix, ReadKind, p) := Content(bytes)]))
  {
    var st' := st.(cache := st.cache[Key(prefix, ReadKind, p) := Content(bytes)]);
    forall q: Path ensures ReadOk(prefix, st', q) {
      assert ReadOk(prefix, st, q);
      if Key(prefix, ReadKind, p) == Key(prefix, ReadKind, q) {
        KeyInjective(prefix, ReadKind, p, ReadKind, q);
      }
    }
  }

  lemma AloneStep(prefix: string, m: Machine, t: Thread, e: Event)
    requires m.threads.Keys == {t} && Midway(prefix, m.st, m.threads[t])
    ensures Next(prefix, m, e).threads.Keys == {t}
    ensures Midway(prefix, Next(prefix, m, e).st, Next(prefix, m, e).threads[t])
  {
    if Enabled(m, e) {
      assert e.t in m.threads.Keys;
      match e
      case PutRead(_) => PutKeeps(prefix, m.st, m.threads[t].p, m.threads[t].bytes);
      case Change(_, op) => ChangeKeeps(prefix, m.st, op);
      case _ =>
    }
  }

  lemma {:induction false} AloneReadsOk(prefix: string, now: nat, t: Thread, events: seq<Event>)
    ensures var m := Exec(prefix, Start(now, {t}), events);
            m.threads.Keys == {t} && Midway(prefix, m.st, m.threads[t])
  {
    if events == [] {
      assert Start(now, {t}).threads.Keys == {t};
    } else {
      AloneReadsOk(prefix, now, t, events[..|events|-1]);
      AloneStep(prefix, Exec(prefix, Start(now, {t}), events[..|events|-1]), t, events[|events|-1]);
    }
  }

  // ---------------------------------------------------------------------------
  // Two threads
  // ---------------------------------------------------------------------------

  /** A new empty file. */
  function Made(t: Thread, p: Path): seq<Event> {
    [] + [Change(t, Op.Touch(p, 0))] + [Invalidation(t)]
  }

  /** A write between a read's fetch and its put. */
  function Race(t: Thread, u: Thread, p: Path, data: Bytes): seq<Event> {
    Made(t, p) + [Lookup(t, p)] + [Fetch(t)] + [Change(u, Op.Write(p, data, 0, false, 0))] + [Invalidation(u)] + [PutRead(t)]
  }

  lemma MadeEnds(prefix: string, now: nat, threads: set<Thread>, t: Thread, p: Path) returns (m: Machine)
    requires t in threads && p != []
    ensures m == Exec(prefix, Start(now, threads), Made(t, p)) && m.threads == Start(now, threads).threads
    ensures m.st.cache == map[] && p in m.st.files && !m.st.files[p].meta.isDir && m.st.files[p].data == []
  {
    var m0 := Start(now, threads);
    ExecPush(prefix, m0, [], Change(t, Op.Touch(p, 0)), m0);
    var m1 := Next(prefix, m0, Change(t, Op.Touch(p, 0)));
    ExecPush(prefix, m0, [] + [Change(t, Op.Touch(p, 0))], Invalidation(t), m1);
    m := Next(prefix, m1, Invalidation(t));
    assert m1.threads[t := Idle] == m0.threads;
  }

  lemma FetchEmpty(prefix: string, m: Machine, t: Thread, p: Path, m': Machine)
    requires t in m.threads && m.threads[t].Idle? && m.st.cache == map[]
    requires p in m.st.files && !m.st.files[p].meta.isDir && m.st.files[p].data == []
    requires m' == Next(prefix, Next(prefix, m, Lookup(t, p)), Fetch(t))
    ensures m'.st == m.st && m'.threads == m.threads[t := Fetched(p, [])]
  {
  }

  lemma WriteWhole(prefix: string, m: Machine, u: Thread, p: Path, data: Bytes, m': Machine)
    requires u in m.threads && m.threads[u].Idle? && m.st.cache == map[]
    requires p in m.st.files && !m.st.files[p].meta.isDir && m.st.files[p].data == []
    requires m' == Next(prefix, Next(prefix, m, Change(u, Op.Write(p, data, 0, false, 0))), Invalidation(u))
    ensures m'.threads == m.threads && p in m'.st.files && m'.st.files[p].data == data
  {
    assert WriteData([], data, 0, false) == data;
  }

  /** The old contents stay in the cache. */
  lemma OldContentsStay(prefix: string, now: nat, threads: set<Thread>, t: Thread, u: Thread, p: Path, data: Bytes)
    requires t in threads && u in threads && t != u && p != [] && data != []
    ensures !ReadsOkAtRest(prefix, now, threads, Race(t, u, p, data))
  {
    var start := Start(now, threads);
    var m0 := MadeEnds(prefix, now, threads, t, p);
    var made := Made(t, p);
    ExecPush(prefix, start, made, Lookup(t, p), m0);
    var m1 := Next(prefix, m0, Lookup(t, p));
    ExecPush(prefix, start, made + [Lookup(t, p)], Fetch(t), m1);
    var m2 := Next(prefix, m1, Fetch(t));
    FetchEmpty(prefix, m0, t, p, m2);
    var write := Change(u, Op.Write(p, data, 0, false, 0));
    ExecPush(prefix, start, made + [Lookup(t, p)] + [Fetch(t)], write, m2);
    var m3 := Next(prefix, m2, write);
    ExecPush(prefix, start, made + [Lookup(t, p)] + [Fetch(t)] + [write], Invalidation(u), m3);
    var m4 := Next(prefix, m3, Invalidation(u));
    WriteWhole(prefix, m2, u, p, data, m4);
    ExecPush(prefix, start, made + [Lookup(t, p)] + [Fetch(t)] + [write] + [Invalidation(u)], PutRead(t), m4);
    PutOld(prefix, m4, t, p, Next(prefix, m4, PutRead(t)));
  }

  lemma PutOld(prefix: string, m: Machine, t: Thread, p: Path, m': Machine)
    requires t in m.threads && m.threads[t] == Fetched(p, []) && p in m.st.files && m.st.files[p].data != []
    requires m' == Next(prefix, m, PutRead(t))
    ensures m'.threads == m.threads[t := Idle] && !ReadsOk(prefix, m'.st)
  {
    assert !ReadOk(prefix, m'.st, p);
  }

  /** Every cached content is current at rest, in all interleavings, exactly when there is one
      thread. */
  lemma ReadsOkAtRestIff(prefix: string, now: nat, threads: set<Thread>)
    requires threads != {}
    ensures (forall events :: ReadsOkAtRest(prefix, now, threads, events)) <==> |threads| == 1
  {
    var t :| t in threads;
    if |threads| == 1 {
      OnlyMember(threads, t);
      forall events ensures ReadsOkAtRest(prefix, now, threads, events) {
        AloneReadsOk(prefix, now, t, events);
      }
    } else {
      assert threads != {t};
      var u :| u in threads && u != t;
      var name: Name := "a";
      OldContentsStay(prefix, now, threads, t, u, [name], [1]);
    }
  }

  // ---------------------------------------------------------------------------
  // Without interference
  // ---------------------------------------------------------------------------

  /** The events of one read or mutation do what CachedFs does. */
  lemma OneCall(prefix: string, m: Machine, t: Thread, p: Path, offset: int, size: int, op: Op)
    requires t in m.threads && m.threads[t].Idle?
    requires Key(prefix, ReadKind, p) in m.st.cache ==> m.st.cache[Key(prefix, ReadKind, p)].Content?
    ensures Next(prefix, Next(prefix, Next(prefix, m, Lookup(t, p)), Fetch(t)), PutRead(t))
         == m.(st := CachedFs.Step(prefix, m.st, ReadCall(p, offset, size)).0)
    ensures Next(prefix, Next(prefix, m, Change(t, op)), Invalidation(t))
         == m.(st := CachedFs.Step(prefix, m.st, Mutate(op)).0)
  {
    OneRead(prefix, m, t, p, offset, size);
    OneMutation(prefix, m, t, op);
  }

  lemma OneRead(prefix: string, m: Machine, t: Thread, p: Path, offset: int, size: int)
    requires t in m.threads && m.threads[t].Idle?
    requires Key(prefix, ReadKind, p) in m.st.cache ==> m.st.cache[Key(prefix, ReadKind, p)].Content?
    ensures Next(prefix, Next(prefix, Next(prefix, m, Lookup(t, p)), Fetch(t)), PutRead(t))
         == m.(st := CachedFs.Step(prefix, m.st, ReadCall(p, offset, size)).0)
  {
    assert m.threads[t := Idle] == m.threads;
  }

  lemma OneMutation(prefix: string, m: Machine, t: Thread, op: Op)
    requires t in m.threads && m.threads[t].Idle?
    ensures Next(prefix, Next(prefix, m, Change(t, op)), Invalidation(t))
         == m.(st := CachedFs.Step(prefix, m.st, Mutate(op)).0)
  {
    assert m.threads[t := Idle] == m.threads;
  }
}
