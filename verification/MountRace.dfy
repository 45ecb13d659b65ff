/**
 `mount` and `unmount` run side by side (crates/racfs-vfs/src/mountable_fs.rs:53-118).  Each
 locks the map of mounts and the trie one after the other, and `mount` tests for an existing
 mount under a lock of its own.
 */
module MountRace {
  import opened Common
  import opened Paths
  import opened MountRouter

  type Thread = nat

  /** A thread at rest, past the test of `mount`, or between the map and the trie. */
  datatype Pc = Idle | Checked(at: Path, fs: Fs) | Entered(at: Path, fs: Fs) | Removed(at: Path)

  datatype Machine = Machine(table: Table, threads: map<Thread, Pc>)

  datatype Step =
    | CheckMount(t: Thread, at: Path, fs: Fs)
    | EnterMap(t: Thread)
    | EnterTrie(t: Thread)
    | RemoveMap(t: Thread, at: Path)
    | RemoveTrie(t: Thread)

  predicate Enabled(m: Machine, step: Step) {
    step.t in m.threads &&
    match step
    case EnterMap(t) => m.threads[t].Checked?
    case EnterTrie(t) => m.threads[t].Entered?
    case RemoveTrie(t) => m.threads[t].Removed?
    case _ => m.threads[step.t].Idle?
  }

  /** A step that is not enabled leaves the machine where it is. */
  function Next(m: Machine, step: Step): Machine {
    var tb := m.table;
    if !Enabled(m, step) then m else
    match step
    case CheckMount(t, at, fs) =>
      if at == [] || at in tb.mounts then m else m.(threads := m.threads[t := Checked(at, fs)])
    case EnterMap(t) =>
      var pc := m.threads[t];
      Machine(tb.(mounts := tb.mounts[pc.at := pc.fs]), m.threads[t := Entered(pc.at, pc.fs)])
    case EnterTrie(t) =>
      var pc := m.threads[t];
      Machine(tb.(trie := tb.trie[Join(pc.at) := pc.fs]), m.threads[t := Idle])
    case RemoveMap(t, at) =>
      if at in tb.mounts then Machine(tb.(mounts := tb.mounts - {at}), m.threads[t := Removed(at)]) else m
    case RemoveTrie(t) => Machine(tb.(trie := tb.trie - {Join(m.threads[t].at)}), m.threads[t := Idle])
  }

  function Start(threads: set<Thread>): Machine {
    Machine(Table(map[], map[]), map t | t in threads :: Idle)
  }

  /** Any interleaving: a list of steps. */
  function Exec(threads: set<Thread>, steps: seq<Step>): Machine {
    if steps == [] then Start(threads) else Next(Exec(threads, steps[..|steps|-1]), steps[|steps|-1])
  }

  lemma ExecPush(threads: set<Thread>, steps: seq<Step>, step: Step, m: Machine)
    requires Exec(threads, steps) == m
    ensures Exec(threads, steps + [step]) == Next(m, step)
  {
    assert (steps + [step])[..|steps + [step]|-1] == steps;
  }

  ghost predicate AgreeAtRest(threads: set<Thread>, steps: seq<Step>) {
    var m := Exec(threads, steps);
    (forall t <- m.threads :: m.threads[t].Idle?) ==> Agree(m.table.mounts, m.table.trie)
  }

  // ---------------------------------------------------------------------------
  // One thread
  // ---------------------------------------------------------------------------

  /** The trie lags behind the map by what the thread has still to do. */
  ghost predicate Midway(tb: Table, pc: Pc) {
    match pc
    case Idle => Agree(tb.mounts, tb.trie)
    case Checked(at, _) => Agree(tb.mounts, tb.trie) && at != [] && at !in tb.mounts
    case Entered(at, fs) => Agree(tb.mounts, tb.trie[Join(at) := fs])
    case Removed(at) => Agree(tb.mounts, tb.trie - {Join(at)})
  }

  lemma AloneStep(m: Machine, t: Thread, step: Step)
    requires m.threads.Keys == {t} && Midway(m.table, m.threads[t])
    ensures Next(m, step).threads.Keys == {t} && Midway(Next(m, step).table, Next(m, step).threads[t])
  {
    if Enabled(m, step) {
      assert step.t in m.threads.Keys;
      match step
      case EnterMap(_) => MountAgrees(m.table.mounts, m.table.trie, m.threads[t].at, m.threads[t].fs);
      case RemoveMap(_, at) =>
        if at in m.table.mounts {
          UnmountAgrees(m.table.mounts, m.table.trie, at);
        }
      case _ =>
    }
  }

  lemma {:induction false} AloneAgrees(t: Thread, steps: seq<Step>)
    ensures Exec({t}, steps).threads.Keys == {t} && Midway(Exec({t}, steps).table, Exec({t}, steps).threads[t])
  {
    if steps == [] {
      assert Start({t}).threads.Keys == {t};
    } else {
      AloneAgrees(t, steps[..|steps|-1]);
      AloneStep(Exec({t}, steps[..|steps|-1]), t, steps[|steps|-1]);
    }
  }

  // ---------------------------------------------------------------------------
  // Two threads
  // ---------------------------------------------------------------------------

  /** An unmount runs while a mount is between the map and the trie. */
  function Race(t: Thread, u: Thread, at: Path, fs: Fs): seq<Step> {
    [] + [CheckMount(t, at, fs)] + [EnterMap(t)] + [RemoveMap(u, at)] + [RemoveTrie(u)] + [EnterTrie(t)]
  }

  lemma MountHalfway(m: Machine, t: Thread, at: Path, fs: Fs, m': Machine)
    requires t in m.threads && m.threads[t].Idle? && m.table == Table(map[], map[]) && at != []
    requires m' == Next(Next(m, CheckMount(t, at, fs)), EnterMap(t))
    ensures m'.table == Table(map[at := fs], map[]) && m'.threads == m.threads[t := Entered(at, fs)]
  {
  }

  lemma UnmountWhole(m: Machine, u: Thread, at: Path, fs: Fs, m': Machine)
    requires u in m.threads && m.threads[u].Idle? && m.table == Table(map[at := fs], map[])
    requires m' == Next(Next(m, RemoveMap(u, at)), RemoveTrie(u))
    ensures m'.table == Table(map[], map[]) && m'.threads == m.threads
  {
  }

  /** Afterwards the trie holds a mount that the map does not. */
  lemma TrieOutlivesMap(threads: set<Thread>, t: Thread, u: Thread, at: Path, fs: Fs)
    requires t in threads && u in threads && t != u && at != []
    ensures Exec(threads, Race(t, u, at, fs)).table == Table(map[], map[Join(at) := fs])
    ensures Exec(threads, Race(t, u, at, fs)).threads == Start(threads).threads
  {
    var m0 := Start(threads);
    ExecPush(threads, [], CheckMount(t, at, fs), m0);
    var m1 := Next(m0, CheckMount(t, at, fs));
    ExecPush(threads, [] + [CheckMount(t, at, fs)], EnterMap(t), m1);
    var m2 := Next(m1, EnterMap(t));
    MountHalfway(m0, t, at, fs, m2);
    var r2 := [] + [CheckMount(t, at, fs)] + [EnterMap(t)];
    ExecPush(threads, r2, RemoveMap(u, at), m2);
    var m3 := Next(m2, RemoveMap(u, at));
    ExecPush(threads, r2 + [RemoveMap(u, at)], RemoveTrie(u), m3);
    var m4 := Next(m3, RemoveTrie(u));
    UnmountWhole(m2, u, at, fs, m4);
    ExecPush(threads, r2 + [RemoveMap(u, at)] + [RemoveTrie(u)], EnterTrie(t), m4);
    assert m2.threads[t := Idle] == m0.threads;
  }

  lemma RaceDisagrees(threads: set<Thread>, t: Thread, u: Thread, at: Path, fs: Fs)
    requires t in threads && u in threads && t != u && at != []
    ensures !AgreeAtRest(threads, Race(t, u, at, fs))
  {
    TrieOutlivesMap(threads, t, u, at, fs);
    assert Join(at) in Exec(threads, Race(t, u, at, fs)).table.trie;
  }

  /** Map and trie agree at rest in all interleavings exactly when there is one thread; `fs` is any
      filesystem. */
  lemma AgreeAtRestIff(threads: set<Thread>, fs: Fs)
    requires threads != {}
    ensures (forall steps :: AgreeAtRest(threads, steps)) <==> |threads| == 1
  {
    var t :| t in threads;
    if |threads| == 1 {
      OnlyMember(threads, t);
      forall steps ensures AgreeAtRest(threads, steps) {
        AloneAgrees(t, steps);
      }
    } else {
      assert threads != {t};
      var u :| u in threads && u != t;
      var name: Name := "a";
      RaceDisagrees(threads, t, u, [name], fs);
    }
  }

  // ---------------------------------------------------------------------------
  // Without interference
  // ---------------------------------------------------------------------------

  /** The steps of one mount or unmount are what `MountTable` does. */
  lemma OneOp(m: Machine, t: Thread, op: Op)
    requires t in m.threads && m.threads[t].Idle?
    ensures var m' := match op
                      case DoMount(at, fs) => Next(Next(Next(m, CheckMount(t, at, fs)), EnterMap(t)), EnterTrie(t))
                      case DoUnmount(at) => Next(Next(m, RemoveMap(t, at)), RemoveTrie(t));
            m' == m.(table := MountRouter.Next(m.table, op))
  {
    assert m.threads[t := Idle] == m.threads;
  }
}
