/**
 The lock table under concurrent calls.  `set_lock` tests for conflicts under a read lock and
 inserts under a write lock taken later (crates/racfs-fuse/src/advanced.rs:118 and :126), so
 other threads may act in between.  The other calls are single critical sections.
 */
module LockRace {
  import opened Common
  import opened FileLocks

  type Thread = nat

  /** A thread at rest, or one whose conflict test has passed. */
  datatype Pc = Idle | Cleared(ino: Inode, e: LockEntry)

  datatype Machine = Machine(table: Table, threads: map<Thread, Pc>)

  datatype Step =
    | Test(t: Thread, ino: Inode, e: LockEntry)
    | Insert(t: Thread)
    | Release(t: Thread, ino: Inode, owner: Owner, start: nat, end: nat)
    | Forget(t: Thread, owner: Owner)

  predicate Enabled(m: Machine, step: Step) {
    step.t in m.threads && (step.Insert? <==> m.threads[step.t].Cleared?)
  }

  /** A step that is not enabled leaves the machine where it is. */
  ghost function Next(m: Machine, step: Step): Machine {
    if !Enabled(m, step) then m else
    match step
    case Test(t, ino, e) =>
      if e.typ == F_UNLCK then m.(table := Unlocked(m.table, ino, e.owner, e.start, e.end))
      else if Compatible(m.table, ino, e.start, e.end, e.typ, e.owner)
      then m.(threads := m.threads[t := Cleared(ino, e)])
      else m
    case Insert(t) => Machine(Granted(m.table, m.threads[t].ino, m.threads[t].e), m.threads[t := Idle])
    case Release(_, ino, owner, start, end) => m.(table := Unlocked(m.table, ino, owner, start, end))
    case Forget(_, owner) => m.(table := OwnerRemoved(m.table, owner))
  }

  function Start(threads: set<Thread>): Machine {
    Machine(map[], map t | t in threads :: Idle)
  }

  /** Any interleaving: a list of steps. */
  ghost function Exec(threads: set<Thread>, steps: seq<Step>): Machine {
    if steps == [] then Start(threads) else Next(Exec(threads, steps[..|steps|-1]), steps[|steps|-1])
  }

  lemma ExecPush(threads: set<Thread>, steps: seq<Step>, step: Step)
    ensures Exec(threads, steps + [step]) == Next(Exec(threads, steps), step)
  {
    assert (steps + [step])[..|steps + [step]|-1] == steps;
  }

  // ---------------------------------------------------------------------------
  // What survives every interleaving: an owner never conflicts with itself
  // ---------------------------------------------------------------------------

  ghost predicate OwnDisjoint(a: LockEntry, b: LockEntry) {
    a.owner == b.owner ==> !Overlaps(a, b.start, b.end)
  }

  ghost predicate Tidy(es: seq<LockEntry>) {
    forall i, j :: 0 <= i < j < |es| ==> OwnDisjoint(es[i], es[j])
  }

  /** One owner's ranges on an inode are disjoint, and no inode has an empty list. */
  ghost predicate TidyTable(t: Table) {
    forall ino <- t :: t[ino] != [] && Tidy(t[ino])
  }

  lemma PushTidy(init: seq<LockEntry>, last: LockEntry, kept: seq<LockEntry>)
    requires Tidy(init + [last]) && Tidy(kept) && forall e <- kept :: e in init
    ensures Tidy(kept + [last])
  {
    forall i | 0 <= i < |kept| ensures OwnDisjoint(kept[i], last) {
      assert kept[i] in init;
      var k :| 0 <= k < |init| && init[k] == kept[i];
      assert (init + [last])[k] == init[k] && (init + [last])[|init|] == last;
    }
  }

  lemma {:induction false} RetainTidy(es: seq<LockEntry>, owner: Owner, start: nat, end: nat)
    requires Tidy(es)
    ensures Tidy(Retain(es, owner, start, end))
    ensures forall e <- Retain(es, owner, start, end) :: e in es && (e.owner != owner || !Overlaps(e, start, end))
  {
    if es != [] {
      var init, last := es[..|es|-1], es[|es|-1];
      RetainTidy(init, owner, start, end);
      assert es == init + [last];
      PushTidy(init, last, Retain(init, owner, start, end));
    }
  }

  lemma {:induction false} WithoutOwnerTidy(es: seq<LockEntry>, owner: Owner)
    requires Tidy(es)
    ensures Tidy(WithoutOwner(es, owner)) && forall e <- WithoutOwner(es, owner) :: e in es
  {
    if es != [] {
      var init, last := es[..|es|-1], es[|es|-1];
      WithoutOwnerTidy(init, owner);
      assert es == init + [last];
      PushTidy(init, last, WithoutOwner(init, owner));
    }
  }

  lemma GrantTidy(t: Table, ino: Inode, e: LockEntry)
    requires TidyTable(t)
    ensures TidyTable(Granted(t, ino, e))
  {
    var kept := Retain(Entries(t, ino), e.owner, e.start, e.end);
    RetainTidy(Entries(t, ino), e.owner, e.start, e.end);
    forall i | 0 <= i < |kept| ensures OwnDisjoint(kept[i], e) {
      assert kept[i] in kept;
    }
  }

  lemma UnlockTidy(t: Table, ino: Inode, owner: Owner, start: nat, end: nat)
    requires TidyTable(t)
    ensures TidyTable(Unlocked(t, ino, owner, start, end))
  {
    if ino in t {
      RetainTidy(t[ino], owner, start, end);
    }
  }

  lemma ForgetTidy(t: Table, owner: Owner)
    requires TidyTable(t)
    ensures TidyTable(OwnerRemoved(t, owner))
  {
    forall ino | ino in t ensures Tidy(WithoutOwner(t[ino], owner)) {
      WithoutOwnerTidy(t[ino], owner);
    }
  }

  /** In every interleaving one owner's ranges stay disjoint and no list is empty. */
  lemma {:induction false} AlwaysTidy(threads: set<Thread>, steps: seq<Step>)
    ensures TidyTable(Exec(threads, steps).table)
  {
    if steps != [] {
      var m, step := Exec(threads, steps[..|steps|-1]), steps[|steps|-1];
      AlwaysTidy(threads, steps[..|steps|-1]);
      match step
      case Test(_, ino, e) => UnlockTidy(m.table, ino, e.owner, e.start, e.end);
      case Insert(t) =>
        if Enabled(m, step) {
          GrantTidy(m.table, m.threads[t].ino, m.threads[t].e);
        }
      case Release(_, ino, owner, start, end) => UnlockTidy(m.table, ino, owner, start, end);
      case Forget(_, owner) => ForgetTidy(m.table, owner);
    }
  }

  // ---------------------------------------------------------------------------
  // One thread
  // ---------------------------------------------------------------------------

  /** The table is safe, and a request that passed the test still fits. */
  ghost predicate Alone(m: Machine, t: Thread) {
    && m.threads.Keys == {t} && Safe(m.table)
    && (m.threads[t].Cleared? ==>
          var e := m.threads[t].e;
          Compatible(m.table, m.threads[t].ino, e.start, e.end, e.typ, e.owner))
  }

  lemma AloneStep(m: Machine, t: Thread, step: Step)
    requires Alone(m, t)
    ensures Alone(Next(m, step), t)
  {
    if Enabled(m, step) {
      assert step.t in m.threads.Keys;
      match step
      case Test(_, ino, e) => UnlockKeepsSafe(m.table, ino, e.owner, e.start, e.end);
      case Insert(_) => GrantKeepsSafe(m.table, m.threads[t].ino, m.threads[t].e);
      case Release(_, ino, owner, start, end) => UnlockKeepsSafe(m.table, ino, owner, start, end);
      case Forget(_, owner) => RemoveOwnerKeepsSafe(m.table, owner);
    }
  }

  lemma {:induction false} AloneIsSafe(t: Thread, steps: seq<Step>)
    ensures Alone(Exec({t}, steps), t)
  {
    if steps == [] {
      assert Start({t}).threads.Keys == {t};
    } else {
      AloneIsSafe(t, steps[..|steps|-1]);
      AloneStep(Exec({t}, steps[..|steps|-1]), t, steps[|steps|-1]);
    }
  }

  // ---------------------------------------------------------------------------
  // Two threads
  // ---------------------------------------------------------------------------

  /** A write lock on byte 0 for this owner. */
  function Writer(owner: Owner): LockEntry {
    LockEntry(0, 0, F_WRLCK, 0, owner)
  }

  /** Both test, then both insert. */
  function Race(t: Thread, u: Thread): seq<Step> {
    [] + [Test(t, 0, Writer(0))] + [Test(u, 0, Writer(1))] + [Insert(t)] + [Insert(u)]
  }

  lemma BothTest(m: Machine, t: Thread, u: Thread)
    requires t != u && t in m.threads && u in m.threads && m.threads[t].Idle? && m.threads[u].Idle?
    requires m.table == map[]
    ensures Next(Next(m, Test(t, 0, Writer(0))), Test(u, 0, Writer(1)))
         == m.(threads := m.threads[t := Cleared(0, Writer(0))][u := Cleared(0, Writer(1))])
  {
    assert Entries(m.table, 0) == [];
  }

  lemma GrantFirst(ino: Inode, e: LockEntry)
    ensures Granted(map[], ino, e) == map[ino := [e]]
  {
    assert Retain([], e.owner, e.start, e.end) + [e] == [e];
  }

  lemma GrantSecond(ino: Inode, e: LockEntry, f: LockEntry)
    requires e.owner != f.owner
    ensures Granted(map[ino := [e]], ino, f) == map[ino := [e, f]]
  {
    var t: Table := map[ino := [e]];
    assert Entries(t, ino) == [e] && [e][..0] == [];
    assert Retain([e], f.owner, f.start, f.end) == Retain([], f.owner, f.start, f.end) + [e] == [e];
    assert Granted(t, ino, f)[ino] == [e] + [f] == [e, f];
  }

  lemma BothInsert(m: Machine, t: Thread, u: Thread, e: LockEntry, f: LockEntry)
    requires t != u && t in m.threads && u in m.threads && e.owner != f.owner
    requires m.threads[t] == Cleared(0, e) && m.threads[u] == Cleared(0, f) && m.table == map[]
    ensures Next(Next(m, Insert(t)), Insert(u)).table == map[0 := [e, f]]
  {
    GrantFirst(0, e);
    GrantSecond(0, e, f);
  }

  /** Two racing threads give two owners a write lock on the same byte. */
  lemma TwoWriters(threads: set<Thread>, t: Thread, u: Thread)
    requires t in threads && u in threads && t != u
    ensures Exec(threads, Race(t, u)).table == map[0 := [Writer(0), Writer(1)]]
    ensures !Safe(Exec(threads, Race(t, u)).table)
  {
    var m0 := Start(threads);
    ExecPush(threads, [], Test(t, 0, Writer(0)));
    ExecPush(threads, [] + [Test(t, 0, Writer(0))], Test(u, 0, Writer(1)));
    ExecPush(threads, [] + [Test(t, 0, Writer(0))] + [Test(u, 0, Writer(1))], Insert(t));
    ExecPush(threads, [] + [Test(t, 0, Writer(0))] + [Test(u, 0, Writer(1))] + [Insert(t)], Insert(u));
    BothTest(m0, t, u);
    BothInsert(m0.(threads := m0.threads[t := Cleared(0, Writer(0))][u := Cleared(0, Writer(1))]), t, u, Writer(0), Writer(1));
    var table: Table := map[0 := [Writer(0), Writer(1)]];
    assert !Peaceful(table[0][0], table[0][1]);
  }

  ghost predicate SafeAfter(threads: set<Thread>, steps: seq<Step>) {
    Safe(Exec(threads, steps).table)
  }

  /** The table is safe in all interleavings exactly when there is one thread. */
  lemma SafeIff(threads: set<Thread>)
    requires threads != {}
    ensures (forall steps :: SafeAfter(threads, steps)) <==> |threads| == 1
  {
    var t :| t in threads;
    if |threads| == 1 {
      OnlyMember(threads, t);
      forall steps ensures SafeAfter(threads, steps) {
        AloneIsSafe(t, steps);
      }
    } else {
      assert threads != {t};
      var u :| u in threads && u != t;
      TwoWriters(threads, t, u);
      assert !SafeAfter(threads, Race(t, u));
    }
  }

  // ---------------------------------------------------------------------------
  // Without interference
  // ---------------------------------------------------------------------------

  /** The steps of one call after the other. */
  function StepsOf(t: Thread, calls: seq<Call>): seq<Step> {
    if calls == [] then []
    else
      var before := StepsOf(t, calls[..|calls|-1]);
      match calls[|calls|-1]
      case SetCall(ino, e) => before + [Test(t, ino, e)] + [Insert(t)]
      case UnlockCall(ino, owner, start, end) => before + [Release(t, ino, owner, start, end)]
      case RemoveCall(owner) => before + [Forget(t, owner)]
  }

  lemma OneCall(m: Machine, t: Thread, c: Call)
    requires t in m.threads && m.threads[t].Idle?
    ensures var m' := match c
                      case SetCall(ino, e) => Next(Next(m, Test(t, ino, e)), Insert(t))
                      case UnlockCall(ino, owner, start, end) => Next(m, Release(t, ino, owner, start, end))
                      case RemoveCall(owner) => Next(m, Forget(t, owner));
            m' == m.(table := Do(m.table, c))
  {
    assert m.threads[t := Idle] == m.threads;
  }

  /** The steps of calls that do not overlap do what the calls do. */
  lemma {:induction false} SequentialSteps(t: Thread, calls: seq<Call>)
    ensures Exec({t}, StepsOf(t, calls)) == Machine(Run(calls), Start({t}).threads)
  {
    if calls != [] {
      var before, c := calls[..|calls|-1], calls[|calls|-1];
      SequentialSteps(t, before);
      var steps, m := StepsOf(t, before), Exec({t}, StepsOf(t, before));
      OneCall(m, t, c);
      match c
      case SetCall(ino, e) =>
        ExecPush({t}, steps, Test(t, ino, e));
        ExecPush({t}, steps + [Test(t, ino, e)], Insert(t));
      case UnlockCall(ino, owner, start, end) => ExecPush({t}, steps, Release(t, ino, owner, start, end));
      case RemoveCall(owner) => ExecPush({t}, steps, Forget(t, owner));
    }
  }
}
