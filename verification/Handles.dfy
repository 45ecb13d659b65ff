/**
 `HandleManager` of crates/racfs-vfs/src/handle_manager.rs: open file handles indexed by
 id and by (path, flags), with leases.

 `open_handle` takes its locks three times: to compare the table size with the limit, to
 probe the index, and to insert.  `Machine` interleaves these critical sections, and the
 single-lock operations, of any number of threads.  Handle ids are fresh UUIDs.
 */
module Handles {
  import opened Common

  type Path(==, !new)
  type HandleId = nat
  type Thread = nat

  datatype Key = Key(path: Path, flags: nat)

  datatype Entry = Entry(key: Key, offset: int, created: nat, lastAccessed: nat)

  datatype Tables = Tables(handles: map<HandleId, Entry>, index: map<Key, HandleId>)

  datatype Result<T> = Success(value: T) | TooManyOpenFiles | InvalidHandle

  /** The two indexes are inverse to each other. */
  ghost predicate Inverse(t: Tables) {
    && (forall k <- t.index :: t.index[k] in t.handles && t.handles[t.index[k]].key == k)
    && (forall id <- t.handles :: t.handles[id].key in t.index && t.index[t.handles[id].key] == id)
  }

  // ---------------------------------------------------------------------------
  // What each critical section does
  // ---------------------------------------------------------------------------

  /** A live handle already registered for the key. */
  function Probe(t: Tables, k: Key): Option<HandleId> {
    if k in t.index && t.index[k] in t.handles then Some(t.index[k]) else None
  }

  function Commit(t: Tables, k: Key, id: HandleId, now: nat): Tables {
    if Probe(t, k).Some? then t
    else Tables(t.handles[id := Entry(k, 0, now, now)], t.index[k := id])
  }

  function Close(t: Tables, id: HandleId): Tables {
    if id in t.handles then Tables(t.handles - {id}, t.index - {t.handles[id].key}) else t
  }

  function Access(t: Tables, id: HandleId, now: nat): Tables {
    if id in t.handles then t.(handles := t.handles[id := t.handles[id].(lastAccessed := now)]) else t
  }

  function Seek(t: Tables, id: HandleId, offset: int, now: nat): Tables {
    if id in t.handles then t.(handles := t.handles[id := t.handles[id].(offset := offset, lastAccessed := now)]) else t
  }

  /** `Instant::duration_since` saturates at zero. */
  predicate Expired(e: Entry, now: nat, lease: nat) {
    (if e.lastAccessed <= now then now - e.lastAccessed else 0) >= lease
  }

  function ExpiredIds(t: Tables, now: nat, lease: nat): set<HandleId> {
    set id | id in t.handles && Expired(t.handles[id], now, lease)
  }

  function KeysOf(t: Tables, ids: set<HandleId>): set<Key>
    requires ids <= t.handles.Keys
  {
    set id | id in ids :: t.handles[id].key
  }

  function Cleanup(t: Tables, now: nat, lease: nat): Tables {
    var gone := ExpiredIds(t, now, lease);
    Tables(t.handles - gone, t.index - KeysOf(t, gone))
  }

  // ---------------------------------------------------------------------------
  // The manager
  // ---------------------------------------------------------------------------

  class HandleManager {
    var handles: map<HandleId, Entry>
    var pathIndex: map<Key, HandleId>
    const leaseTimeout: nat
    const maxHandles: nat

    function View(): Tables
      reads this
    {
      Tables(handles, pathIndex)
    }

    constructor (leaseTimeout: nat, maxHandles: nat)
      ensures View() == Tables(map[], map[]) && Inverse(View())
      ensures this.leaseTimeout == leaseTimeout && this.maxHandles == maxHandles
    {
      this.leaseTimeout, this.maxHandles := leaseTimeout, maxHandles;
      handles, pathIndex := map[], map[];
    }

    /** `open_handle` (handle_manager.rs:67-109) run without interference. */
    method OpenHandle(k: Key, newId: HandleId, now: nat) returns (r: Result<HandleId>)
      requires Inverse(View()) && newId !in handles
      modifies this
      ensures Inverse(View())
      ensures |old(handles)| >= maxHandles ==> r == TooManyOpenFiles && View() == old(View())
      ensures |old(handles)| < maxHandles ==>
        && View() == Commit(old(View()), k, newId, now)
        && r.Success? && r.value in handles && handles[r.value].key == k
        && |handles| <= maxHandles
    {
      if |handles| >= maxHandles {
        return TooManyOpenFiles;
      }
      if k in pathIndex && pathIndex[k] in handles {
        return Success(pathIndex[k]);
      }
      CommitKeepsInverse(View(), k, newId, now);
      handles := handles[newId := Entry(k, 0, now, now)];
      pathIndex := pathIndex[k := newId];
      r := Success(newId);
    }

    /** `close_handle` (handle_manager.rs:112-131). */
    method CloseHandle(id: HandleId) returns (r: Result<()>)
      requires Inverse(View())
      modifies this
      ensures Inverse(View()) && View() == Close(old(View()), id)
      ensures r == if id in old(handles) then Success(()) else InvalidHandle
      ensures id !in handles
    {
      CloseKeepsInverse(View(), id);
      if id !in handles {
        return InvalidHandle;
      }
      var key := handles[id].key;
      handles := handles - {id};
      pathIndex := pathIndex - {key};
      r := Success(());
    }

    /** `get_handle` and `renew_lease` (handle_manager.rs:134-161). */
    method GetHandle(id: HandleId, now: nat) returns (r: Result<Entry>)
      requires Inverse(View())
      modifies this`handles
      ensures Inverse(View()) && View() == Access(old(View()), id, now)
      ensures id in old(handles) ==> r == Success(handles[id]) && handles[id].lastAccessed == now
      ensures id !in old(handles) ==> r == InvalidHandle
    {
      if id !in handles {
        return InvalidHandle;
      }
      handles := handles[id := handles[id].(lastAccessed := now)];
      r := Success(handles[id]);
    }

    /** `update_offset` (handle_manager.rs:164-176). */
    method UpdateOffset(id: HandleId, offset: int, now: nat) returns (r: Result<()>)
      requires Inverse(View())
      modifies this`handles
      ensures Inverse(View()) && View() == Seek(old(View()), id, offset, now)
      ensures r == if id in old(handles) then Success(()) else InvalidHandle
    {
      if id !in handles {
        return InvalidHandle;
      }
      handles := handles[id := handles[id].(offset := offset, lastAccessed := now)];
      r := Success(());
    }

    /** First half of `cleanup_expired`: collect the expired ids and unindex their keys. */
    method CollectExpired(now: nat) returns (expired: set<HandleId>)
      modifies this`pathIndex
      ensures expired == ExpiredIds(View(), now, leaseTimeout)
      ensures forall id <- handles :: id in expired <==> leaseTimeout == 0 || handles[id].lastAccessed + leaseTimeout <= now
      ensures pathIndex == old(pathIndex) - KeysOf(View(), expired)
    {
      ghost var t := View();
      var todo := handles.Keys;
      expired := {};
      while todo != {}
        invariant todo <= handles.Keys
        invariant expired == ExpiredIds(t, now, leaseTimeout) - todo
        invariant pathIndex == t.index - KeysOf(t, expired)
        decreases todo
      {
        var id :| id in todo;
        todo := todo - {id};
        if Expired(handles[id], now, leaseTimeout) {
          KeysOfAdd(t, expired, id);
          pathIndex := pathIndex - {handles[id].key};
          expired := expired + {id};
        }
      }
    }

    /** `cleanup_expired` (handle_manager.rs:181-210). */
    method CleanupExpired(now: nat) returns (removed: nat)
      requires Inverse(View())
      modifies this
      ensures Inverse(View()) && View() == Cleanup(old(View()), now, leaseTimeout)
      ensures removed == |ExpiredIds(old(View()), now, leaseTimeout)|
      ensures forall id <- old(handles) ::
        id in handles <==> leaseTimeout > 0 && now < old(handles)[id].lastAccessed + leaseTimeout
    {
      CleanupKeepsInverse(View(), now, leaseTimeout);
      var expired := CollectExpired(now);
      handles := handles - expired;
      removed := |expired|;
    }
  }

  lemma KeysOfAdd(t: Tables, ids: set<HandleId>, id: HandleId)
    requires ids <= t.handles.Keys && id in t.handles
    ensures KeysOf(t, ids + {id}) == KeysOf(t, ids) + {t.handles[id].key}
  {
  }

  // ---------------------------------------------------------------------------
  // Every critical section keeps the indexes inverse
  // ---------------------------------------------------------------------------

  lemma CommitKeepsInverse(t: Tables, k: Key, id: HandleId, now: nat)
    requires Inverse(t) && id !in t.handles
    ensures Inverse(Commit(t, k, id, now))
  {
  }

  lemma CloseKeepsInverse(t: Tables, id: HandleId)
    requires Inverse(t)
    ensures Inverse(Close(t, id))
  {
  }

  lemma CleanupKeepsInverse(t: Tables, now: nat, lease: nat)
    requires Inverse(t)
    ensures Inverse(Cleanup(t, now, lease))
  {
    var gone := ExpiredIds(t, now, lease);
    forall id | id in t.handles - gone ensures t.handles[id].key !in KeysOf(t, gone) {
    }
    forall k | k in t.index - KeysOf(t, gone) ensures t.index[k] !in gone {
      assert t.handles[t.index[k]].key == k;
    }
  }

  // ---------------------------------------------------------------------------
  // Interleaving
  // ---------------------------------------------------------------------------

  datatype Config = Config(maxHandles: nat, lease: nat)

  /** Where a thread is inside `open_handle`. */
  datatype Pc = Idle | Checked(key: Key) | Missed(key: Key)

  datatype Machine = Machine(tables: Tables, threads: map<Thread, Pc>, issued: set<HandleId>)

  datatype Step =
    | OpenCheck(t: Thread, key: Key)
    | OpenProbe(t: Thread)
    | OpenCommit(t: Thread, id: HandleId, now: nat)
    | DoClose(t: Thread, id: HandleId)
    | DoAccess(t: Thread, id: HandleId, now: nat)
    | DoSeek(t: Thread, id: HandleId, offset: int, now: nat)
    | DoCleanup(t: Thread, now: nat)

  predicate Enabled(s: Machine, step: Step) {
    step.t in s.threads &&
    match step
    case OpenProbe(t) => s.threads[t].Checked?
    case OpenCommit(t, id, _) => s.threads[t].Missed? && id !in s.issued
    case _ => s.threads[step.t].Idle?
  }

  /** A step that is not enabled leaves the machine where it is. */
  function Next(c: Config, s: Machine, step: Step): Machine {
    if !Enabled(s, step) then s else
    match step
    case OpenCheck(t, key) =>
      if |s.tables.handles| >= c.maxHandles then s else s.(threads := s.threads[t := Checked(key)])
    case OpenProbe(t) =>
      var key := s.threads[t].key;
      s.(threads := s.threads[t := if Probe(s.tables, key).Some? then Idle else Missed(key)])
    case OpenCommit(t, id, now) =>
      var key := s.threads[t].key;
      Machine(Commit(s.tables, key, id, now), s.threads[t := Idle],
              if Probe(s.tables, key).Some? then s.issued else s.issued + {id})
    case DoClose(_, id) => s.(tables := Close(s.tables, id))
    case DoAccess(_, id, now) => s.(tables := Access(s.tables, id, now))
    case DoSeek(_, id, offset, now) => s.(tables := Seek(s.tables, id, offset, now))
    case DoCleanup(_, now) => s.(tables := Cleanup(s.tables, now, c.lease))
  }

  function Start(threads: set<Thread>): Machine {
    Machine(Tables(map[], map[]), map t | t in threads :: Idle, {})
  }

  /** Any interleaving: a list of steps, each taken by some thread. */
  function Exec(c: Config, threads: set<Thread>, steps: seq<Step>): Machine {
    if steps == [] then Start(threads) else Next(c, Exec(c, threads, steps[..|steps|-1]), steps[|steps|-1])
  }

  function InFlight(s: Machine): set<Thread> {
    set t | t in s.threads && !s.threads[t].Idle?
  }

  ghost predicate Inv(c: Config, s: Machine) {
    && Inverse(s.tables)
    && s.tables.handles.Keys <= s.issued
    && (s.threads != map[] ==> |s.tables.handles| + |InFlight(s)| <= c.maxHandles + |s.threads| - 1)
    && (c.maxHandles == 0 ==> InFlight(s) == {} && s.tables.handles == map[])
  }

  lemma SubsetSize<T>(a: set<T>, b: set<T>)
    requires a <= b
    ensures |a| <= |b|
  {
    assert b == a + (b - a);
  }

  lemma InFlightAfter(s: Machine, t: Thread, pc: Pc)
    requires t in s.threads
    ensures s.threads[t := pc].Keys == s.threads.Keys
    ensures InFlight(s.(threads := s.threads[t := pc])) == if pc.Idle? then InFlight(s) - {t} else InFlight(s) + {t}
  {
  }

  lemma CountKept(t: Tables, id: HandleId, now: nat, lease: nat)
    ensures |Close(t, id).handles| <= |t.handles|
    ensures |Cleanup(t, now, lease).handles| <= |t.handles|
  {
    SubsetSize(Close(t, id).handles.Keys, t.handles.Keys);
    SubsetSize(Cleanup(t, now, lease).handles.Keys, t.handles.Keys);
  }

  lemma CheckKeeps(c: Config, s: Machine, t: Thread, key: Key)
    requires Inv(c, s) && Enabled(s, OpenCheck(t, key))
    ensures Inv(c, Next(c, s, OpenCheck(t, key)))
  {
    var s' := Next(c, s, OpenCheck(t, key));
    if s' != s {
      InFlightAfter(s, t, Checked(key));
      assert |s'.threads| == |s.threads.Keys|;
      SubsetSize(InFlight(s'), s.threads.Keys);
    }
  }

  lemma ProbeKeeps(c: Config, s: Machine, t: Thread)
    requires Inv(c, s) && Enabled(s, OpenProbe(t))
    ensures Inv(c, Next(c, s, OpenProbe(t)))
  {
    var s' := Next(c, s, OpenProbe(t));
    InFlightAfter(s, t, s'.threads[t]);
    assert |s'.threads| == |s'.threads.Keys| == |s.threads|;
    assert InFlight(s') <= InFlight(s);
    SubsetSize(InFlight(s'), InFlight(s));
  }

  lemma CommitKeeps(c: Config, s: Machine, t: Thread, id: HandleId, now: nat)
    requires Inv(c, s) && Enabled(s, OpenCommit(t, id, now))
    ensures Inv(c, Next(c, s, OpenCommit(t, id, now)))
  {
    var s' := Next(c, s, OpenCommit(t, id, now));
    CommitKeepsInverse(s.tables, s.threads[t].key, id, now);
    InFlightAfter(s, t, Idle);
    assert InFlight(s') == InFlight(s) - {t};
    assert t in InFlight(s);
    assert |s'.threads| == |s'.threads.Keys| == |s.threads|;
    CommitCount(s.tables, s.threads[t].key, id, now);
  }

  lemma CommitCount(t: Tables, key: Key, id: HandleId, now: nat)
    requires id !in t.handles
    ensures |Commit(t, key, id, now).handles| <= |t.handles| + 1
  {
    assert t.handles[id := Entry(key, 0, now, now)].Keys == t.handles.Keys + {id};
  }

  lemma OtherKeeps(c: Config, s: Machine, step: Step)
    requires Inv(c, s) && Enabled(s, step)
    requires !step.OpenCheck? && !step.OpenProbe? && !step.OpenCommit?
    ensures Inv(c, Next(c, s, step))
  {
    var s' := Next(c, s, step);
    assert InFlight(s') == InFlight(s);
    match step
    case DoClose(_, id) =>
      CloseKeepsInverse(s.tables, id);
      CountKept(s.tables, id, 0, 0);
    case DoCleanup(_, now) =>
      CleanupKeepsInverse(s.tables, now, c.lease);
      CountKept(s.tables, 0, now, c.lease);
    case DoAccess(_, id, now) =>
      assert s'.tables.handles.Keys == s.tables.handles.Keys;
    case DoSeek(_, id, _, _) =>
      assert s'.tables.handles.Keys == s.tables.handles.Keys;
  }

  lemma StepKeeps(c: Config, s: Machine, step: Step)
    requires Inv(c, s)
    ensures Inv(c, Next(c, s, step)) && Next(c, s, step).threads.Keys == s.threads.Keys
  {
    if Enabled(s, step) {
      match step
      case OpenCheck(t, key) => CheckKeeps(c, s, t, key);
      case OpenProbe(t) => ProbeKeeps(c, s, t);
      case OpenCommit(t, id, now) => CommitKeeps(c, s, t, id, now);
      case _ => OtherKeeps(c, s, step);
    }
  }

  /** In every interleaving the indexes stay inverse, and the table exceeds the limit by at
      most the other threads that can be inside an open. */
  lemma {:induction false} EveryRunIsSafe(c: Config, threads: set<Thread>, steps: seq<Step>)
    requires threads != {}
    ensures Inv(c, Exec(c, threads, steps)) && Exec(c, threads, steps).threads.Keys == threads
    ensures |Exec(c, threads, steps).tables.handles| <= c.maxHandles + |threads| - 1
  {
    if steps != [] {
      EveryRunIsSafe(c, threads, steps[..|steps|-1]);
      StepKeeps(c, Exec(c, threads, steps[..|steps|-1]), steps[|steps|-1]);
    } else {
      assert InFlight(Start(threads)) == {} && Start(threads).threads.Keys == threads;
    }
    var s := Exec(c, threads, steps);
    assert |s.threads| == |s.threads.Keys|;
  }

  /** A handle only disappears by being closed or by outliving its lease. */
  lemma HandlesAreKept(c: Config, s: Machine, step: Step, id: HandleId)
    requires id in s.tables.handles && id !in Next(c, s, step).tables.handles
    ensures (step.DoClose? && step.id == id) ||
            (step.DoCleanup? && (c.lease == 0 || s.tables.handles[id].lastAccessed + c.lease <= step.now))
  {
  }

  /** A closed or expired id is never valid again, whatever runs afterwards. */
  lemma {:induction false} ClosedStaysClosed(c: Config, threads: set<Thread>, before: seq<Step>, after: seq<Step>, id: HandleId)
    requires id in Exec(c, threads, before).issued && id !in Exec(c, threads, before).tables.handles
    ensures id in Exec(c, threads, before + after).issued
    ensures id !in Exec(c, threads, before + after).tables.handles
  {
    if after == [] {
      assert before + after == before;
    } else {
      ClosedStaysClosed(c, threads, before, after[..|after|-1], id);
      assert (before + after)[..|before + after|-1] == before + after[..|after|-1];
    }
  }

  // ---------------------------------------------------------------------------
  // Leases and offsets
  // ---------------------------------------------------------------------------

  /** A cleanup keeps exactly the handles whose lease has not run out; with a lease of zero it keeps
      none. */
  lemma CleanupKeepsIff(t: Tables, now: nat, lease: nat, id: HandleId)
    requires id in t.handles
    ensures id in Cleanup(t, now, lease).handles <==> lease > 0 && now < t.handles[id].lastAccessed + lease
    ensures id in Cleanup(t, now, lease).handles ==> Cleanup(t, now, lease).handles[id] == t.handles[id]
  {
  }

  /** What the history says about a handle: the key it was opened for, its offset, when it was
      opened, and when it was last opened, read, renewed or repositioned. */
  datatype Life = Life(key: Key, offset: int, since: nat, touched: nat)

  /** The commit step that creates this handle. */
  ghost predicate Creates(s: Machine, step: Step, id: HandleId) {
    && step.OpenCommit? && Enabled(s, step) && step.id == id
    && s.threads[step.t].key !in s.tables.index
  }

  /** A handle lives from the commit that creates it to its close or the first cleanup that finds its
      lease over; touching it renews the lease, and only a seek changes its offset. */
  ghost function LifeOf(c: Config, threads: set<Thread>, steps: seq<Step>, id: HandleId): Option<Life> {
    if steps == [] then None
    else
      var s, step := Exec(c, threads, steps[..|steps|-1]), steps[|steps|-1];
      LifeNext(c, s, step, id, LifeOf(c, threads, steps[..|steps|-1], id))
  }

  ghost function LifeNext(c: Config, s: Machine, step: Step, id: HandleId, life: Option<Life>): Option<Life> {
    if !Enabled(s, step) then life
    else if Creates(s, step, id) then Some(Life(s.threads[step.t].key, 0, step.now, step.now))
    else if life.None? then None
    else match step
      case DoClose(_, i) => if i == id then None else life
      case DoAccess(_, i, now) => if i == id then Some(life.value.(touched := now)) else life
      case DoSeek(_, i, offset, now) => if i == id then Some(life.value.(offset := offset, touched := now)) else life
      case DoCleanup(_, now) => if c.lease > 0 && now < life.value.touched + c.lease then life else None
      case _ => life
  }

  /** The table's entry, read as a history. */
  ghost function Recorded(t: Tables, id: HandleId): Option<Life> {
    if id in t.handles
    then Some(Life(t.handles[id].key, t.handles[id].offset, t.handles[id].created, t.handles[id].lastAccessed))
    else None
  }

  lemma CommitLife(c: Config, s: Machine, step: Step, id: HandleId)
    requires Inv(c, s) && step.OpenCommit? && Enabled(s, step)
    ensures Recorded(Next(c, s, step).tables, id) == LifeNext(c, s, step, id, Recorded(s.tables, id))
  {
    var key := s.threads[step.t].key;
    assert Probe(s.tables, key).Some? <==> key in s.tables.index;
  }

  lemma CleanupLife(c: Config, s: Machine, step: Step, id: HandleId)
    requires step.DoCleanup? && Enabled(s, step)
    ensures Recorded(Next(c, s, step).tables, id) == LifeNext(c, s, step, id, Recorded(s.tables, id))
  {
    if id in s.tables.handles {
      CleanupKeepsIff(s.tables, step.now, c.lease, id);
    }
  }

  lemma StepLife(c: Config, s: Machine, step: Step, id: HandleId)
    requires Inv(c, s)
    ensures Recorded(Next(c, s, step).tables, id) == LifeNext(c, s, step, id, Recorded(s.tables, id))
  {
    if Enabled(s, step) {
      match step
      case OpenCommit(_, _, _) => CommitLife(c, s, step, id);
      case DoCleanup(_, _) => CleanupLife(c, s, step, id);
      case _ =>
    }
  }

  /** In every interleaving a handle is in the table exactly while it lives, with the offset and the
      access time its history says. */
  lemma {:induction false} TableTellsLives(c: Config, threads: set<Thread>, steps: seq<Step>, id: HandleId)
    requires threads != {}
    ensures Recorded(Exec(c, threads, steps).tables, id) == LifeOf(c, threads, steps, id)
  {
    if steps != [] {
      var init := steps[..|steps|-1];
      TableTellsLives(c, threads, init, id);
      EveryRunIsSafe(c, threads, init);
      StepLife(c, Exec(c, threads, init), steps[|steps|-1], id);
    }
  }

  /** After `update_offset` every `get_handle` and renewal finds that offset. */
  lemma OffsetReadBack(t: Tables, id: HandleId, offset: int, now: nat, later: nat)
    requires id in t.handles
    ensures id in Access(Seek(t, id, offset, now), id, later).handles
    ensures Access(Seek(t, id, offset, now), id, later).handles[id].offset == offset
    ensures Access(t, id, later).handles[id].offset == t.handles[id].offset
  {
  }
}
