/**
 StreamRotateFS (crates/racfs-plugin-streamrotatefs/src/fs): a log whose `/current` file is
 moved to a numbered archive when it grows past `max_size`, the oldest archives being pruned.

 A write to `/current` appends under one lock, compares the size under a second and rotates
 under a third.  `Machine` interleaves these sections of any number of writers with manual
 rotations, and remembers every byte appended and every byte pruned.
 */
module Rotate {
  import opened Common
  import opened Blocks

  type Archive = map<nat, Bytes>
  type Thread = nat

  datatype Config = Config(maxSize: nat, maxFiles: nat)

  datatype RotateState = RotateState(current: Bytes, archive: Archive, nextSeq: nat)

  // ---------------------------------------------------------------------------
  // The archive: a contiguous block of sequence numbers
  // ---------------------------------------------------------------------------

  /** Archived bytes in sequence order. */
  ghost function Content(archive: Archive, lo: nat, hi: nat): Bytes
    requires Block(archive, lo, hi)
    decreases hi - lo
  {
    if lo == hi then [] else archive[lo] + Content(archive - {lo}, lo + 1, hi)
  }

  lemma {:induction false} ContentPush(archive: Archive, lo: nat, hi: nat, data: Bytes)
    requires Block(archive, lo, hi)
    ensures Block(archive[hi := data], lo, hi + 1)
    ensures Content(archive[hi := data], lo, hi + 1) == Content(archive, lo, hi) + data
    decreases hi - lo
  {
    var more: Archive := archive[hi := data];
    if lo < hi {
      ContentPush(archive - {lo}, lo + 1, hi, data);
      assert more - {lo} == (archive - {lo})[hi := data];
    } else {
      assert more - {lo} == map[];
    }
  }

  // ---------------------------------------------------------------------------
  // Pruning and rotation
  // ---------------------------------------------------------------------------

  datatype Pruned = Pruned(kept: Archive, lo: nat, gone: Bytes)

  /** Drops the lowest keys until at most `maxFiles` remain. */
  ghost function Prune(archive: Archive, lo: nat, hi: nat, maxFiles: nat): Pruned
    requires Block(archive, lo, hi)
    decreases hi - lo
  {
    if hi - lo <= maxFiles then Pruned(archive, lo, [])
    else var p := Prune(archive - {lo}, lo + 1, hi, maxFiles); p.(gone := archive[lo] + p.gone)
  }

  /** Pruning removes exactly an oldest part, keeps as many files as allowed and changes none. */
  lemma {:induction false} PruneCorrect(archive: Archive, lo: nat, hi: nat, maxFiles: nat)
    requires Block(archive, lo, hi)
    ensures var p := Prune(archive, lo, hi, maxFiles);
            && lo <= p.lo && Block(p.kept, p.lo, hi)
            && hi - p.lo == (if hi - lo <= maxFiles then hi - lo else maxFiles)
            && (forall k <- p.kept :: k in archive && p.kept[k] == archive[k])
            && Content(archive, lo, hi) == p.gone + Content(p.kept, p.lo, hi)
    decreases hi - lo
  {
    if hi - lo > maxFiles {
      PruneCorrect(archive - {lo}, lo + 1, hi, maxFiles);
    }
  }

  /** Archive numbers end just below `nextSeq`, with no gap. */
  ghost predicate Contiguous(s: RotateState) {
    |s.archive| <= s.nextSeq && Block(s.archive, s.nextSeq - |s.archive|, s.nextSeq)
  }

  ghost function Archived(s: RotateState): Bytes
    requires Contiguous(s)
  {
    Content(s.archive, s.nextSeq - |s.archive|, s.nextSeq)
  }

  /** The archive right after `rotate` inserts the current file, pruned to size. */
  ghost function RotatedOut(c: Config, s: RotateState): Pruned
    requires Contiguous(s)
  {
    ContentPush(s.archive, s.nextSeq - |s.archive|, s.nextSeq, s.current);
    Prune(s.archive[s.nextSeq := s.current], s.nextSeq - |s.archive|, s.nextSeq + 1, c.maxFiles)
  }

  ghost function Rotated(c: Config, s: RotateState): RotateState
    requires Contiguous(s)
  {
    RotateState([], RotatedOut(c, s).kept, s.nextSeq + 1)
  }

  /** A rotation loses nothing but the bytes it prunes, and respects the file limit. */
  lemma RotatedCorrect(c: Config, s: RotateState)
    requires Contiguous(s)
    ensures Contiguous(Rotated(c, s)) && Rotated(c, s).current == [] && Rotated(c, s).nextSeq == s.nextSeq + 1
    ensures |Rotated(c, s).archive| == if |s.archive| < c.maxFiles then |s.archive| + 1 else c.maxFiles
    ensures Archived(s) + s.current == RotatedOut(c, s).gone + Archived(Rotated(c, s))
    ensures forall k <- Rotated(c, s).archive ::
      Rotated(c, s).archive[k] == if k == s.nextSeq then s.current else if k in s.archive then s.archive[k] else []
    ensures forall k <- Rotated(c, s).archive :: k == s.nextSeq || k in s.archive
  {
    var lo := s.nextSeq - |s.archive|;
    var more: Archive := s.archive[s.nextSeq := s.current];
    ContentPush(s.archive, lo, s.nextSeq, s.current);
    PruneCorrect(more, lo, s.nextSeq + 1, c.maxFiles);
    var p := RotatedOut(c, s);
    BlockSize(p.kept, p.lo, s.nextSeq + 1);
  }

  lemma RotatedContiguous(c: Config, s: RotateState)
    requires Contiguous(s)
    ensures Contiguous(Rotated(c, s))
    ensures Block(s.archive[s.nextSeq := s.current], s.nextSeq - |s.archive|, s.nextSeq + 1)
  {
    RotatedCorrect(c, s);
    ContentPush(s.archive, s.nextSeq - |s.archive|, s.nextSeq, s.current);
  }

  class StreamRotateFs {
    var state: RotateState
    const config: Config

    constructor (config: Config)
      ensures this.config == config && state == RotateState([], map[], 1) && Contiguous(state)
    {
      this.config := config;
      state := RotateState([], map[], 1);
    }

    /** The pruning loop of `rotate` (mod.rs:132-140): remove the first key while over the limit. */
    method PruneOldest(archive: Archive, ghost lo: nat, ghost hi: nat) returns (kept: Archive)
      requires Block(archive, lo, hi)
      ensures kept == Prune(archive, lo, hi, config.maxFiles).kept
    {
      kept := archive;
      ghost var first := lo;
      BlockSize(kept, first, hi);
      while |kept| > config.maxFiles
        invariant Block(kept, first, hi) && |kept| == hi - first
        invariant Prune(kept, first, hi, config.maxFiles).kept == Prune(archive, lo, hi, config.maxFiles).kept
        decreases |kept|
      {
        assert first in kept;
        var oldest :| oldest in kept && forall k <- kept :: oldest <= k;
        kept := kept - {oldest};
        first := first + 1;
        BlockSize(kept, first, hi);
      }
    }

    /** `rotate` (mod.rs:120-156): archive the current file, then prune oldest first. */
    method RotateNow()
      requires Contiguous(state)
      modifies this`state
      ensures Contiguous(state) && state == Rotated(config, old(state))
    {
      RotatedContiguous(config, state);
      ghost var lo := state.nextSeq - |state.archive|;
      var archive := PruneOldest(state.archive[state.nextSeq := state.current], lo, state.nextSeq + 1);
      state := RotateState([], archive, state.nextSeq + 1);
    }

    /** The locked part of a write to `/current` (write.rs:37-49). */
    method Append(data: Bytes)
      modifies this`state
      ensures state == old(state).(current := old(state).current + data)
    {
      state := state.(current := state.current + data);
    }

    /** `write` on `/current` (write.rs:36-54) without interference. */
    method WriteCurrent(data: Bytes) returns (written: nat)
      requires Contiguous(state)
      modifies this`state
      ensures Contiguous(state) && written == |data|
      ensures config.maxSize > 0 ==> |state.current| < config.maxSize
      ensures var grown := old(state).(current := old(state).current + data);
              state == if |grown.current| >= config.maxSize then Rotated(config, grown) else grown
    {
      Append(data);
      if |state.current| >= config.maxSize {
        RotateNow();
      }
      written := |data|;
    }
  }

  // ---------------------------------------------------------------------------
  // Interleaving
  // ---------------------------------------------------------------------------

  /** Where a writer stands inside `write`: after its append, or committed to rotate. */
  datatype Pc = Idle | Appended | MustRotate

  datatype Machine = Machine(state: RotateState, threads: map<Thread, Pc>, appended: Bytes, pruned: Bytes)

  datatype Step =
    | Write(t: Thread, data: Bytes)
    | Check(t: Thread)
    | AutoRotate(t: Thread)
    | ManualRotate(t: Thread)

  predicate Enabled(s: Machine, step: Step) {
    step.t in s.threads &&
    s.threads[step.t] == match step
                         case Write(_, _) => Idle
                         case Check(_) => Appended
                         case AutoRotate(_) => MustRotate
                         case ManualRotate(_) => Idle
  }

  /** A step that is not enabled leaves the machine where it is. */
  ghost function Next(c: Config, s: Machine, step: Step): Machine
    requires Contiguous(s.state)
  {
    if !Enabled(s, step) then s else
    match step
    case Write(t, data) =>
      Machine(s.state.(current := s.state.current + data), s.threads[t := Appended], s.appended + data, s.pruned)
    case Check(t) =>
      s.(threads := s.threads[t := if |s.state.current| >= c.maxSize then MustRotate else Idle])
    case _ =>
      Machine(Rotated(c, s.state), s.threads[step.t := Idle], s.appended, s.pruned + RotatedOut(c, s.state).gone)
  }

  function Start(threads: set<Thread>): Machine {
    Machine(RotateState([], map[], 1), map t | t in threads :: Idle, [], [])
  }

  /** No writer is between its append and the end of its size check. */
  ghost predicate Quiet(s: Machine) {
    forall t <- s.threads :: s.threads[t].Idle?
  }

  ghost predicate Inv(c: Config, s: Machine) {
    && Contiguous(s.state)
    && |s.state.archive| <= c.maxFiles
    && s.pruned + Archived(s.state) + s.state.current == s.appended
    && (c.maxSize > 0 && |s.state.current| >= c.maxSize ==> !Quiet(s))
  }

  lemma Regroup(pruned: Bytes, gone: Bytes, kept: Bytes, archived: Bytes, current: Bytes)
    requires archived + current == gone + kept
    ensures pruned + gone + kept + [] == pruned + archived + current
  {
    assert pruned + gone + kept == pruned + (gone + kept);
    assert pruned + archived + current == pruned + (archived + current);
  }

  lemma RotateKeeps(c: Config, s: Machine, step: Step)
    requires Inv(c, s) && Enabled(s, step) && (step.AutoRotate? || step.ManualRotate?)
    ensures Inv(c, Next(c, s, step))
  {
    RotatedCorrect(c, s.state);
    var s' := Next(c, s, step);
    Regroup(s.pruned, RotatedOut(c, s.state).gone, Archived(s'.state), Archived(s.state), s.state.current);
  }

  lemma StepKeeps(c: Config, s: Machine, step: Step)
    requires Inv(c, s)
    ensures Inv(c, Next(c, s, step))
  {
    if Enabled(s, step) {
      if step.AutoRotate? || step.ManualRotate? {
        RotateKeeps(c, s, step);
      } else {
        var s' := Next(c, s, step);
        assert !s'.threads[step.t].Idle? ==> !Quiet(s');
        assert s'.state.archive == s.state.archive;
        if step.Write? {
          assert s'.pruned + Archived(s'.state) + (s.state.current + step.data) == s'.appended;
        }
      }
    }
  }

  /** Every interleaving, as the machine after a list of steps.  Conservation: the pruned bytes,
      the archives in sequence order and the current file are all the bytes ever appended; the
      archive numbers are a block ending below `nextSeq`, of at most `maxFiles`. */
  ghost function Exec(c: Config, threads: set<Thread>, steps: seq<Step>): (s: Machine)
    ensures Inv(c, s)
    ensures Contiguous(s.state) && |s.state.archive| <= c.maxFiles
    ensures s.pruned + Archived(s.state) + s.state.current == s.appended
  {
    if steps == [] then
      var s := Start(threads);
      assert Block(s.state.archive, 1, 1);
      s
    else
      var s := Exec(c, threads, steps[..|steps|-1]);
      StepKeeps(c, s, steps[|steps|-1]);
      Next(c, s, steps[|steps|-1])
  }

  ghost predicate ShortWhenQuiet(c: Config, threads: set<Thread>, steps: seq<Step>) {
    Quiet(Exec(c, threads, steps)) ==> |Exec(c, threads, steps).state.current| < c.maxSize
  }

  /** At rest the current file is below `maxSize`, for every interleaving, exactly when
      `maxSize` is not zero. */
  lemma QuietMeansShort(c: Config, threads: set<Thread>)
    ensures (forall steps :: ShortWhenQuiet(c, threads, steps)) <==> c.maxSize > 0
  {
    if c.maxSize == 0 {
      assert Quiet(Exec(c, threads, []));
      assert !ShortWhenQuiet(c, threads, []);
    }
  }

  /** An archive file never changes: while its number is present it keeps its bytes. */
  lemma ArchiveImmutable(c: Config, s: Machine, step: Step, k: nat)
    requires Inv(c, s) && k in s.state.archive && k in Next(c, s, step).state.archive
    ensures Next(c, s, step).state.archive[k] == s.state.archive[k]
  {
    if Enabled(s, step) && (step.AutoRotate? || step.ManualRotate?) {
      RotatedCorrect(c, s.state);
    }
  }

  /** A lone writer never rotates early: without manual rotation every archive has reached the limit. */
  lemma {:induction false} LoneWriterFillsArchives(c: Config, t: Thread, steps: seq<Step>)
    requires forall step <- steps :: !step.ManualRotate?
    ensures var s := Exec(c, {t}, steps);
            && s.threads.Keys == {t}
            && (s.threads[t].MustRotate? ==> |s.state.current| >= c.maxSize)
            && forall k <- s.state.archive :: |s.state.archive[k]| >= c.maxSize
  {
    if steps == [] {
      assert Start({t}).threads.Keys == {t};
    } else {
      var init, step := steps[..|steps|-1], steps[|steps|-1];
      assert step in steps && forall x <- init :: x in steps;
      LoneWriterFillsArchives(c, t, init);
      FillStep(c, Exec(c, {t}, init), t, step);
    }
  }

  lemma FillStep(c: Config, s: Machine, t: Thread, step: Step)
    requires Inv(c, s) && s.threads.Keys == {t} && !step.ManualRotate?
    requires s.threads[t].MustRotate? ==> |s.state.current| >= c.maxSize
    requires forall k <- s.state.archive :: |s.state.archive[k]| >= c.maxSize
    ensures var s' := Next(c, s, step);
            && s'.threads.Keys == {t}
            && (s'.threads[t].MustRotate? ==> |s'.state.current| >= c.maxSize)
            && forall k <- s'.state.archive :: |s'.state.archive[k]| >= c.maxSize
  {
    if Enabled(s, step) {
      assert step.t in s.threads.Keys;
      RotatedCorrect(c, s.state);
    }
  }

  /** The archives a run has made are numbered from 1: `nextSeq` is one more than the rotations counted
      along the run. */
  ghost function Rotations(c: Config, threads: set<Thread>, steps: seq<Step>): nat {
    if steps == [] then 0
    else
      var s, step := Exec(c, threads, steps[..|steps|-1]), steps[|steps|-1];
      Rotations(c, threads, steps[..|steps|-1])
      + if (step.AutoRotate? && step.t in s.threads && s.threads[step.t] == MustRotate) ||
           (step.ManualRotate? && step.t in s.threads && s.threads[step.t] == Idle) then 1 else 0
  }

  lemma {:induction false} ArchivesNumbered(c: Config, threads: set<Thread>, steps: seq<Step>)
    ensures Exec(c, threads, steps).threads.Keys == threads
    ensures Exec(c, threads, steps).state.nextSeq == 1 + Rotations(c, threads, steps)
  {
    if steps == [] {
      assert Start(threads).threads.Keys == threads;
    } else {
      ArchivesNumbered(c, threads, steps[..|steps|-1]);
    }
  }
}
