/**
 `InodeManager` of crates/racfs-fuse/src/inode_manager.rs: inode numbers for paths, kept in
 two concurrent maps and an atomic counter.

 No operation locks both maps, so `Machine` interleaves the single map and counter accesses
 of any number of threads.  Beside the tables it records which path each number was drawn
 for and every answer given to a caller.
 */
module InodeTable {
  import opened Common

  type Path(==, !new)
  type Ino = nat
  type Thread = nat

  const ROOT_INODE: Ino := 1

  datatype Tables = Tables(pathOf: map<Ino, Path>, inoOf: map<Path, Ino>, next: Ino)

  function Fresh(root: Path): Tables {
    Tables(map[ROOT_INODE := root], map[root := ROOT_INODE], ROOT_INODE + 1)
  }

  /** The two maps are inverse to each other and the counter is ahead of every number. */
  ghost predicate Inverse(t: Tables) {
    && (forall p <- t.inoOf :: t.inoOf[p] in t.pathOf && t.pathOf[t.inoOf[p]] == p)
    && (forall i <- t.pathOf :: i < t.next && t.pathOf[i] in t.inoOf && t.inoOf[t.pathOf[i]] == i)
  }

  // ---------------------------------------------------------------------------
  // The table in sequential use
  // ---------------------------------------------------------------------------

  class InodeManager {
    var inodeToPath: map<Ino, Path>
    var pathToInode: map<Path, Ino>
    var nextInode: Ino

    function View(): Tables
      reads this
    {
      Tables(inodeToPath, pathToInode, nextInode)
    }

    constructor (root: Path)
      ensures View() == Fresh(root) && Inverse(View())
    {
      inodeToPath := map[ROOT_INODE := root];
      pathToInode := map[root := ROOT_INODE];
      nextInode := ROOT_INODE + 1;
    }

    /** `allocate` (inode_manager.rs:39-51). */
    method Allocate(p: Path) returns (i: Ino)
      requires Inverse(View())
      modifies this
      ensures Inverse(View()) && pathToInode == old(pathToInode)[p := i]
      ensures p in old(pathToInode) ==> View() == old(View())
      ensures p !in old(pathToInode) ==>
        i == old(nextInode) && i !in old(inodeToPath) && nextInode == i + 1 && inodeToPath == old(inodeToPath)[i := p]
    {
      if p in pathToInode {
        return pathToInode[p];
      }
      i := nextInode;
      nextInode := nextInode + 1;
      inodeToPath := inodeToPath[i := p];
      pathToInode := pathToInode[p := i];
    }

    /** `get_path` and `get_inode` (inode_manager.rs:54-61): each undoes the other. */
    method Lookup(p: Path, i: Ino) returns (path: Option<Path>, ino: Option<Ino>)
      requires Inverse(View())
      ensures path == Some(p) <==> ino == Some(i)
      ensures path.Some? <==> i in inodeToPath
      ensures ino.Some? <==> p in pathToInode
    {
      path := if i in inodeToPath then Some(inodeToPath[i]) else None;
      ino := if p in pathToInode then Some(pathToInode[p]) else None;
    }

    /** `remove` (inode_manager.rs:64-68). */
    method Remove(i: Ino)
      requires Inverse(View())
      modifies this
      ensures Inverse(View()) && inodeToPath == old(inodeToPath) - {i} && nextInode == old(nextInode)
      ensures pathToInode == if i in old(inodeToPath) then old(pathToInode) - {old(inodeToPath)[i]} else old(pathToInode)
    {
      if i in inodeToPath {
        var p := inodeToPath[i];
        inodeToPath := inodeToPath - {i};
        pathToInode := pathToInode - {p};
      }
    }

    /** `remove_path` (inode_manager.rs:71-75). */
    method RemovePath(p: Path)
      requires Inverse(View())
      modifies this
      ensures Inverse(View()) && pathToInode == old(pathToInode) - {p} && nextInode == old(nextInode)
      ensures inodeToPath == if p in old(pathToInode) then old(inodeToPath) - {old(pathToInode)[p]} else old(inodeToPath)
    {
      if p in pathToInode {
        var i := pathToInode[p];
        pathToInode := pathToInode - {p};
        inodeToPath := inodeToPath - {i};
      }
    }
  }

  // ---------------------------------------------------------------------------
  // Interleaving
  // ---------------------------------------------------------------------------

  /** Where a thread is inside `allocate`, `remove` or `remove_path`. */
  datatype Pc =
    | Idle
    | Missed(path: Path)
    | Numbered(path: Path, ino: Ino)
    | Named(path: Path, ino: Ino)
    | Unnamed(path: Path)
    | Unindexed(ino: Ino)

  /** An answer of `allocate`, `get_path` or `get_inode`. */
  datatype Answer = Answer(path: Path, ino: Ino)

  datatype Machine = Machine(
    tables: Tables, threads: map<Thread, Pc>, drawn: map<Ino, Path>, answers: seq<Answer>)

  datatype Step =
    | Probe(t: Thread, path: Path)        // allocate: look the path up
    | Draw(t: Thread)                     // allocate: fetch_add
    | InsertPath(t: Thread)               // allocate: inode_to_path.insert
    | InsertIno(t: Thread)                // allocate: path_to_inode.insert, return
    | GetPath(t: Thread, ino: Ino)
    | GetInode(t: Thread, path: Path)
    | DropIno(t: Thread, ino: Ino)        // remove: inode_to_path.remove
    | DropItsPath(t: Thread)              // remove: path_to_inode.remove
    | DropPath(t: Thread, path: Path)     // remove_path: path_to_inode.remove
    | DropItsIno(t: Thread)               // remove_path: inode_to_path.remove

  predicate Enabled(s: Machine, step: Step) {
    step.t in s.threads &&
    match step
    case Draw(t) => s.threads[t].Missed?
    case InsertPath(t) => s.threads[t].Numbered?
    case InsertIno(t) => s.threads[t].Named?
    case DropItsPath(t) => s.threads[t].Unnamed?
    case DropItsIno(t) => s.threads[t].Unindexed?
    case _ => s.threads[step.t].Idle?
  }

  function Goto(s: Machine, t: Thread, pc: Pc): Machine {
    s.(threads := s.threads[t := pc])
  }

  function Reply(s: Machine, path: Path, ino: Ino): Machine {
    s.(answers := s.answers + [Answer(path, ino)])
  }

  /** A step that is not enabled leaves the machine where it is. */
  function Next(s: Machine, step: Step): Machine {
    var tb := s.tables;
    if !Enabled(s, step) then s else
    match step
    case Probe(t, p) => if p in tb.inoOf then Reply(s, p, tb.inoOf[p]) else Goto(s, t, Missed(p))
    case Draw(t) =>
      var p := s.threads[t].path;
      Goto(s, t, Numbered(p, tb.next)).(tables := tb.(next := tb.next + 1), drawn := s.drawn[tb.next := p])
    case InsertPath(t) =>
      var pc := s.threads[t];
      Goto(s, t, Named(pc.path, pc.ino)).(tables := tb.(pathOf := tb.pathOf[pc.ino := pc.path]))
    case InsertIno(t) =>
      var pc := s.threads[t];
      Reply(Goto(s, t, Idle), pc.path, pc.ino).(tables := tb.(inoOf := tb.inoOf[pc.path := pc.ino]))
    case GetPath(t, i) => if i in tb.pathOf then Reply(s, tb.pathOf[i], i) else s
    case GetInode(t, p) => if p in tb.inoOf then Reply(s, p, tb.inoOf[p]) else s
    case DropIno(t, i) =>
      if i in tb.pathOf then Goto(s, t, Unnamed(tb.pathOf[i])).(tables := tb.(pathOf := tb.pathOf - {i})) else s
    case DropItsPath(t) => Goto(s, t, Idle).(tables := tb.(inoOf := tb.inoOf - {s.threads[t].path}))
    case DropPath(t, p) =>
      if p in tb.inoOf then Goto(s, t, Unindexed(tb.inoOf[p])).(tables := tb.(inoOf := tb.inoOf - {p})) else s
    case DropItsIno(t) => Goto(s, t, Idle).(tables := tb.(pathOf := tb.pathOf - {s.threads[t].ino}))
  }

  function Start(root: Path, threads: set<Thread>): Machine {
    Machine(Fresh(root), map t | t in threads :: Idle, map[ROOT_INODE := root], [])
  }

  /** Any interleaving: a list of steps, each taken by some thread. */
  function Exec(root: Path, threads: set<Thread>, steps: seq<Step>): Machine {
    if steps == [] then Start(root, threads) else Next(Exec(root, threads, steps[..|steps|-1]), steps[|steps|-1])
  }

  lemma ExecAppend(root: Path, threads: set<Thread>, steps: seq<Step>, step: Step)
    ensures Exec(root, threads, steps + [step]) == Next(Exec(root, threads, steps), step)
  {
    assert (steps + [step])[..|steps + [step]|-1] == steps;
  }

  // ---------------------------------------------------------------------------
  // Every interleaving: a number stands for one path for ever
  // ---------------------------------------------------------------------------

  predicate DrawnFor(s: Machine, i: Ino, p: Path) {
    i in s.drawn && s.drawn[i] == p
  }

  ghost predicate PcOk(s: Machine, pc: Pc) {
    pc.Numbered? || pc.Named? ==> DrawnFor(s, pc.ino, pc.path)
  }

  ghost predicate Inv(s: Machine) {
    && (forall i <- s.drawn :: i < s.tables.next)
    && (forall i <- s.tables.pathOf :: DrawnFor(s, i, s.tables.pathOf[i]))
    && (forall p <- s.tables.inoOf :: DrawnFor(s, s.tables.inoOf[p], p))
    && (forall t <- s.threads :: PcOk(s, s.threads[t]))
    && (forall a <- s.answers :: DrawnFor(s, a.ino, a.path))
  }

  /** What one step may do to the record of drawn numbers. */
  ghost predicate Grows(s: Machine, s': Machine) {
    && s.tables.next <= s'.tables.next
    && s.answers <= s'.answers
    && forall i <- s.drawn :: DrawnFor(s', i, s.drawn[i])
  }

  lemma StepGrows(s: Machine, step: Step)
    requires Inv(s)
    ensures Grows(s, Next(s, step)) && Next(s, step).threads.Keys == s.threads.Keys
    ensures forall i <- Next(s, step).drawn :: i < Next(s, step).tables.next
  {
  }

  lemma StepTables(s: Machine, step: Step)
    requires Inv(s)
    ensures var s' := Next(s, step);
            && (forall i <- s'.tables.pathOf :: DrawnFor(s', i, s'.tables.pathOf[i]))
            && (forall p <- s'.tables.inoOf :: DrawnFor(s', s'.tables.inoOf[p], p))
  {
    StepGrows(s, step);
    if Enabled(s, step) {
      assert PcOk(s, s.threads[step.t]);
    }
  }

  lemma StepThread(s: Machine, step: Step, t: Thread)
    requires Inv(s) && t in s.threads && t in Next(s, step).threads
    ensures PcOk(Next(s, step), Next(s, step).threads[t])
  {
    StepGrows(s, step);
    assert PcOk(s, s.threads[t]);
  }

  lemma StepAnswers(s: Machine, step: Step)
    requires Inv(s)
    ensures forall a <- Next(s, step).answers :: DrawnFor(Next(s, step), a.ino, a.path)
  {
    StepGrows(s, step);
    if Enabled(s, step) {
      assert PcOk(s, s.threads[step.t]);
    }
    var s' := Next(s, step);
    forall a | a in s'.answers ensures DrawnFor(s', a.ino, a.path) {
      if a in s.answers {
        assert DrawnFor(s, a.ino, a.path);
      }
    }
  }

  lemma StepKeeps(s: Machine, step: Step)
    requires Inv(s)
    ensures Inv(Next(s, step)) && Grows(s, Next(s, step)) && Next(s, step).threads.Keys == s.threads.Keys
  {
    StepGrows(s, step);
    StepTables(s, step);
    StepAnswers(s, step);
    var s' := Next(s, step);
    forall t | t in s'.threads ensures PcOk(s', s'.threads[t]) {
      assert t in s'.threads.Keys;
      StepThread(s, step, t);
    }
  }

  lemma {:induction false} RunInv(root: Path, threads: set<Thread>, steps: seq<Step>)
    ensures Inv(Exec(root, threads, steps))
  {
    if steps != [] {
      RunInv(root, threads, steps[..|steps|-1]);
      StepKeeps(Exec(root, threads, steps[..|steps|-1]), steps[|steps|-1]);
    }
  }

  lemma GrowsOn(s: Machine, s': Machine, s'': Machine)
    requires Grows(s, s') && Grows(s', s'')
    ensures Grows(s, s'')
  {
    forall i | i in s.drawn ensures DrawnFor(s'', i, s.drawn[i]) {
      assert DrawnFor(s', i, s.drawn[i]);
    }
  }

  lemma {:induction false} RunGrows(root: Path, threads: set<Thread>, before: seq<Step>, after: seq<Step>)
    ensures Grows(Exec(root, threads, before), Exec(root, threads, before + after))
    decreases |after|
  {
    if after == [] {
      assert before + after == before;
    } else {
      var init, last := after[..|after|-1], after[|after|-1];
      RunGrows(root, threads, before, init);
      RunInv(root, threads, before + init);
      ExecAppend(root, threads, before + init, last);
      assert before + after == before + init + [last];
      StepKeeps(Exec(root, threads, before + init), last);
      GrowsOn(Exec(root, threads, before), Exec(root, threads, before + init), Exec(root, threads, before + after));
    }
  }

  /** In every interleaving a number that names a path never names another one later. */
  lemma NumberKeepsItsPath(root: Path, threads: set<Thread>, before: seq<Step>, after: seq<Step>, i: Ino)
    requires i in Exec(root, threads, before).tables.pathOf
    requires i in Exec(root, threads, before + after).tables.pathOf
    ensures Exec(root, threads, before + after).tables.pathOf[i] == Exec(root, threads, before).tables.pathOf[i]
  {
    RunInv(root, threads, before);
    RunInv(root, threads, before + after);
    RunGrows(root, threads, before, after);
    assert DrawnFor(Exec(root, threads, before), i, Exec(root, threads, before).tables.pathOf[i]);
  }

  /** Whoever is told a number, by whichever operation and however late, is told it for the
      same path. */
  lemma AnswersConsistent(root: Path, threads: set<Thread>, steps: seq<Step>, a: Answer, b: Answer)
    requires a in Exec(root, threads, steps).answers && b in Exec(root, threads, steps).answers
    requires a.ino == b.ino
    ensures a.path == b.path
  {
    RunInv(root, threads, steps);
  }

  /** The numbers drawn along a run, in order. */
  function Draws(root: Path, threads: set<Thread>, steps: seq<Step>): seq<Ino> {
    if steps == [] then [] else
    var s, step := Exec(root, threads, steps[..|steps|-1]), steps[|steps|-1];
    Draws(root, threads, steps[..|steps|-1]) + (if step.Draw? && Enabled(s, step) then [s.tables.next] else [])
  }

  /** No number is issued twice, whatever has been removed: they are 2, 3, 4 and so on. */
  lemma {:induction false} NeverReissued(root: Path, threads: set<Thread>, steps: seq<Step>)
    ensures var d := Draws(root, threads, steps);
            && (forall k :: 0 <= k < |d| ==> d[k] == ROOT_INODE + 1 + k)
            && Exec(root, threads, steps).tables.next == ROOT_INODE + 1 + |d|
  {
    if steps != [] {
      NeverReissued(root, threads, steps[..|steps|-1]);
    }
  }

  // ---------------------------------------------------------------------------
  // Runs of one thread, and runs without removals
  // ---------------------------------------------------------------------------

  /** What the tables look like in the middle of the one thread's operation. */
  ghost predicate Midway(tb: Tables, pc: Pc) {
    match pc
    case Idle => Inverse(tb)
    case Missed(p) => Inverse(tb) && p !in tb.inoOf
    case Numbered(p, i) => Inverse(tb) && p !in tb.inoOf && i !in tb.pathOf && i < tb.next
    case Named(p, i) => i < tb.next && Inverse(tb.(inoOf := tb.inoOf[p := i])) && p !in tb.inoOf
    case Unnamed(p) => Inverse(tb.(inoOf := tb.inoOf - {p}))
    case Unindexed(i) => Inverse(tb.(pathOf := tb.pathOf - {i}))
  }

  lemma AloneStep(s: Machine, step: Step, t: Thread)
    requires s.threads.Keys == {t} && Midway(s.tables, s.threads[t])
    ensures Next(s, step).threads.Keys == {t} && Midway(Next(s, step).tables, Next(s, step).threads[t])
  {
    if Enabled(s, step) {
      assert step.t in s.threads.Keys;
    }
  }

  /** With one thread the maps are inverse whenever no operation is under way. */
  lemma {:induction false} AloneIsInverse(root: Path, t: Thread, steps: seq<Step>)
    ensures var s := Exec(root, {t}, steps);
            s.threads.Keys == {t} && Midway(s.tables, s.threads[t]) && (s.threads[t].Idle? ==> Inverse(s.tables))
  {
    if steps == [] {
      assert Start(root, {t}).threads.Keys == {t};
    } else {
      AloneIsInverse(root, t, steps[..|steps|-1]);
      AloneStep(Exec(root, {t}, steps[..|steps|-1]), steps[|steps|-1], t);
    }
  }

  predicate Removal(step: Step) {
    step.DropIno? || step.DropPath?
  }

  /** Some thread is about to enter the path under this number. */
  ghost predicate AboutToIndex(s: Machine, p: Path) {
    exists t <- s.threads :: s.threads[t].Named? && s.threads[t].path == p
  }

  /** Looking a path up and then its number comes back to the path; every named path is
      indexed or about to be. */
  ghost predicate Kept(s: Machine) {
    && (forall p <- s.tables.inoOf :: s.tables.inoOf[p] in s.tables.pathOf && s.tables.pathOf[s.tables.inoOf[p]] == p)
    && (forall i <- s.tables.pathOf :: s.tables.pathOf[i] in s.tables.inoOf || AboutToIndex(s, s.tables.pathOf[i]))
    && (forall t <- s.threads :: !s.threads[t].Unnamed? && !s.threads[t].Unindexed?)
    && (forall t <- s.threads :: s.threads[t].Named? ==>
          s.threads[t].ino in s.tables.pathOf && s.tables.pathOf[s.threads[t].ino] == s.threads[t].path)
  }

  lemma AboutToIndexStays(s: Machine, step: Step, p: Path)
    requires AboutToIndex(s, p) && !Removal(step)
    ensures AboutToIndex(Next(s, step), p) || p in Next(s, step).tables.inoOf
  {
    var t :| t in s.threads && s.threads[t].Named? && s.threads[t].path == p;
    var s' := Next(s, step);
    if !(step.InsertIno? && step.t == t) {
      assert s'.threads[t] == s.threads[t];
    }
  }

  lemma KeptThreads(s: Machine, step: Step, t: Thread)
    requires Inv(s) && Kept(s) && !Removal(step) && t in s.threads && t in Next(s, step).threads
    ensures var s', pc := Next(s, step), Next(s, step).threads[t];
            && !pc.Unnamed? && !pc.Unindexed?
            && (pc.Named? ==> pc.ino in s'.tables.pathOf && s'.tables.pathOf[pc.ino] == pc.path)
  {
    assert !s.threads[t].Unnamed? && !s.threads[t].Unindexed? && PcOk(s, s.threads[t]);
    if Enabled(s, step) {
      assert !s.threads[step.t].Unnamed? && !s.threads[step.t].Unindexed? && PcOk(s, s.threads[step.t]);
    }
  }

  lemma KeptLookup(s: Machine, step: Step, p: Path)
    requires Inv(s) && Kept(s) && !Removal(step) && p in Next(s, step).tables.inoOf
    ensures var tb := Next(s, step).tables;
            tb.inoOf[p] in tb.pathOf && tb.pathOf[tb.inoOf[p]] == p
  {
    if Enabled(s, step) {
      assert !s.threads[step.t].Unnamed? && !s.threads[step.t].Unindexed? && PcOk(s, s.threads[step.t]);
    }
    if p in s.tables.inoOf {
      assert DrawnFor(s, s.tables.inoOf[p], p);
    }
  }

  lemma KeptPaths(s: Machine, step: Step, i: Ino)
    requires Kept(s) && !Removal(step) && i in Next(s, step).tables.pathOf
    ensures var s' := Next(s, step);
            s'.tables.pathOf[i] in s'.tables.inoOf || AboutToIndex(s', s'.tables.pathOf[i])
  {
    var s' := Next(s, step);
    if Enabled(s, step) {
      assert !s.threads[step.t].Unnamed? && !s.threads[step.t].Unindexed?;
    }
    if step.InsertPath? && Enabled(s, step) && s.threads[step.t].ino == i {
      assert s'.threads[step.t].Named?;
    } else {
      var p := s.tables.pathOf[i];
      if p !in s.tables.inoOf {
        AboutToIndexStays(s, step, p);
      }
    }
  }

  lemma KeptStep(s: Machine, step: Step)
    requires Inv(s) && Kept(s) && !Removal(step)
    ensures Kept(Next(s, step))
  {
    var s' := Next(s, step);
    StepKeeps(s, step);
    forall t | t in s'.threads
      ensures !s'.threads[t].Unnamed? && !s'.threads[t].Unindexed?
      ensures s'.threads[t].Named? ==>
        s'.threads[t].ino in s'.tables.pathOf && s'.tables.pathOf[s'.threads[t].ino] == s'.threads[t].path
    {
      assert t in s'.threads.Keys;
      KeptThreads(s, step, t);
    }
    forall i | i in s'.tables.pathOf
      ensures s'.tables.pathOf[i] in s'.tables.inoOf || AboutToIndex(s', s'.tables.pathOf[i])
    {
      KeptPaths(s, step, i);
    }
    forall p | p in s'.tables.inoOf
      ensures s'.tables.inoOf[p] in s'.tables.pathOf && s'.tables.pathOf[s'.tables.inoOf[p]] == p
    {
      KeptLookup(s, step, p);
    }
  }

  /** Without removals, once nobody is inside `allocate`, every path that has a number is found
      by it and found under a number that leads back to it. */
  lemma {:induction false} RacingAllocationsAgree(root: Path, threads: set<Thread>, steps: seq<Step>)
    requires forall step <- steps :: !Removal(step)
    ensures var s := Exec(root, threads, steps);
            Kept(s) && ((forall t <- s.threads :: s.threads[t].Idle?) ==>
              forall i <- s.tables.pathOf :: s.tables.pathOf[i] in s.tables.inoOf)
  {
    if steps != [] {
      var init, last := steps[..|steps|-1], steps[|steps|-1];
      assert last in steps;
      RacingAllocationsAgree(root, threads, init);
      RunInv(root, threads, init);
      KeptStep(Exec(root, threads, init), last);
    }
  }

  // ---------------------------------------------------------------------------
  // What races cost
  // ---------------------------------------------------------------------------

  lemma ReachesNext(root: Path, threads: set<Thread>, steps: seq<Step>, step: Step, s: Machine, s': Machine)
    requires Exec(root, threads, steps) == s && Next(s, step) == s'
    ensures Exec(root, threads, steps + [step]) == s'
  {
    ExecAppend(root, threads, steps, step);
  }

  lemma Reaches(root: Path, threads: set<Thread>, steps: seq<Step>, a: Step, b: Step, s: Machine, s': Machine)
    requires Exec(root, threads, steps) == s && Next(Next(s, a), b) == s'
    ensures Exec(root, threads, steps + [a] + [b]) == s'
  {
    var mid := Next(s, a);
    ReachesNext(root, threads, steps, a, s, mid);
    ReachesNext(root, threads, steps + [a], b, mid, s');
  }

  /** Two allocations of one path: both look, both draw, then both insert. */
  function Race(t: Thread, u: Thread, p: Path): seq<Step> {
    [] + [Probe(t, p)] + [Probe(u, p)] + [Draw(t)] + [Draw(u)]
    + [InsertPath(t)] + [InsertIno(t)] + [InsertPath(u)] + [InsertIno(u)]
  }

  lemma BothProbe(s: Machine, t: Thread, u: Thread, p: Path)
    requires t in s.threads && u in s.threads && t != u && s.threads[t].Idle? && s.threads[u].Idle?
    requires p !in s.tables.inoOf
    ensures Next(Next(s, Probe(t, p)), Probe(u, p)) == s.(threads := s.threads[t := Missed(p)][u := Missed(p)])
  {
  }

  lemma BothDraw(s: Machine, t: Thread, u: Thread, p: Path)
    requires t in s.threads && u in s.threads && t != u && s.threads[t] == s.threads[u] == Missed(p)
    ensures Next(Next(s, Draw(t)), Draw(u)) == Drawn(s, t, u, p)
  {
  }

  /** Both threads have drawn their numbers. */
  function Drawn(s: Machine, t: Thread, u: Thread, p: Path): Machine {
    var i := s.tables.next;
    Machine(s.tables.(next := i + 2), s.threads[t := Numbered(p, i)][u := Numbered(p, i + 1)],
            s.drawn[i := p][i + 1 := p], s.answers)
  }

  /** A thread has entered its number into both maps. */
  function Inserted(s: Machine, t: Thread, p: Path, i: Ino): Machine {
    Machine(Tables(s.tables.pathOf[i := p], s.tables.inoOf[p := i], s.tables.next), s.threads[t := Idle],
            s.drawn, s.answers + [Answer(p, i)])
  }

  lemma InsertBoth(s: Machine, t: Thread, p: Path, i: Ino)
    requires t in s.threads && s.threads[t] == Numbered(p, i)
    ensures Next(Next(s, InsertPath(t)), InsertIno(t)) == Inserted(s, t, p, i)
  {
    var s1 := Next(s, InsertPath(t));
    assert s1.threads == s.threads[t := Named(p, i)];
    assert s1.threads[t := Idle] == s.threads[t := Idle];
  }

  lemma RaceDraws(root: Path, threads: set<Thread>, t: Thread, u: Thread, p: Path) returns (s: Machine)
    requires p != root && t in threads && u in threads && t != u
    ensures s == Exec(root, threads, [] + [Probe(t, p)] + [Probe(u, p)] + [Draw(t)] + [Draw(u)])
    ensures s.tables == Fresh(root).(next := 4) && s.answers == []
    ensures s.threads == Start(root, threads).threads[t := Numbered(p, 2)][u := Numbered(p, 3)]
  {
    var s0 := Start(root, threads);
    var s1 := s0.(threads := s0.threads[t := Missed(p)][u := Missed(p)]);
    BothProbe(s0, t, u, p);
    Reaches(root, threads, [], Probe(t, p), Probe(u, p), s0, s1);
    BothDraw(s1, t, u, p);
    s := Drawn(s1, t, u, p);
    Reaches(root, threads, [] + [Probe(t, p)] + [Probe(u, p)], Draw(t), Draw(u), s1, s);
  }

  lemma RaceInserts(root: Path, threads: set<Thread>, steps: seq<Step>, s: Machine, t: Thread, u: Thread, p: Path)
    requires s == Exec(root, threads, steps) && t != u && t in s.threads && u in s.threads
    requires s.threads[t] == Numbered(p, 2) && s.threads[u] == Numbered(p, 3)
    ensures Exec(root, threads, steps + [InsertPath(t)] + [InsertIno(t)] + [InsertPath(u)] + [InsertIno(u)])
         == Inserted(Inserted(s, t, p, 2), u, p, 3)
  {
    var s' := Inserted(s, t, p, 2);
    InsertBoth(s, t, p, 2);
    Reaches(root, threads, steps, InsertPath(t), InsertIno(t), s, s');
    InsertBoth(s', u, p, 3);
    Reaches(root, threads, steps + [InsertPath(t)] + [InsertIno(t)], InsertPath(u), InsertIno(u), s', Inserted(s', u, p, 3));
  }

  /** Any two threads that both miss give one path two numbers. */
  lemma TwoNumbersForOnePath(root: Path, threads: set<Thread>, t: Thread, u: Thread, p: Path)
    requires p != root && t in threads && u in threads && t != u
    ensures var s := Exec(root, threads, Race(t, u, p));
            && (forall v <- s.threads :: s.threads[v].Idle?)
            && s.tables.pathOf == map[1 := root, 2 := p, 3 := p]
            && s.tables.inoOf == map[root := 1, p := 3]
            && s.answers == [Answer(p, 2), Answer(p, 3)]
  {
    var s := RaceDraws(root, threads, t, u, p);
    RaceInserts(root, threads, [] + [Probe(t, p)] + [Probe(u, p)] + [Draw(t)] + [Draw(u)], s, t, u, p);
  }

  /** The maps are mutual inverses when no operation is under way. */
  ghost predicate InverseAtRest(root: Path, threads: set<Thread>, steps: seq<Step>) {
    var s := Exec(root, threads, steps);
    (forall t <- s.threads :: s.threads[t].Idle?) ==> Inverse(s.tables)
  }

  lemma RaceIsNotInverse(root: Path, threads: set<Thread>, t: Thread, u: Thread, p: Path)
    requires p != root && t in threads && u in threads && t != u
    ensures !InverseAtRest(root, threads, Race(t, u, p))
  {
    TwoNumbersForOnePath(root, threads, t, u, p);
    var tb := Exec(root, threads, Race(t, u, p)).tables;
    assert tb.pathOf[2] == p && tb.inoOf[p] == 3;
  }

  /** In all interleavings the maps are mutual inverses at rest exactly when there is one thread;
      `p` is any path besides the root. */
  lemma InverseAtRestIff(root: Path, threads: set<Thread>, p: Path)
    requires threads != {} && p != root
    ensures (forall steps :: InverseAtRest(root, threads, steps)) <==> |threads| == 1
  {
    var t :| t in threads;
    if |threads| == 1 {
      OnlyMember(threads, t);
      forall steps ensures InverseAtRest(root, threads, steps) {
        AloneIsInverse(root, t, steps);
      }
    } else {
      assert threads != {t};
      var u :| u in threads && u != t;
      RaceIsNotInverse(root, threads, t, u, p);
    }
  }

  /** A lookup by a thread at rest answers exactly what the tables hold at that moment. */
  lemma LookupsAnswer(s: Machine, t: Thread, i: Ino, p: Path)
    requires t in s.threads && s.threads[t].Idle?
    ensures Next(s, GetPath(t, i)).answers ==
            s.answers + if i in s.tables.pathOf then [Answer(s.tables.pathOf[i], i)] else []
    ensures Next(s, GetInode(t, p)).answers ==
            s.answers + if p in s.tables.inoOf then [Answer(p, s.tables.inoOf[p])] else []
    ensures Next(s, GetPath(t, i)).tables == s.tables == Next(s, GetInode(t, p)).tables
  {
  }
}
