/**
 What a MemFS-backed server holds after the flushes (crates/racfs-plugin-memfs/src/fs/write.rs:
 57-84 under crates/racfs-fuse/src/async_fs.rs:184-195): MemFS replaces the whole file on a
 write at offset 0, where the positional overlay would keep the rest.
 */
module FlushToMemFs {
  import opened Common
  import opened Segments
  import opened Batches
  import MemFs

  /** Positional writes without flags, one after the other, into a MemFS file. */
  function Replay(file: Bytes, segs: seq<Segment>): Bytes {
    if segs == [] then file
    else
      var s := segs[|segs|-1];
      MemFs.WriteData(Replay(file, segs[..|segs|-1]), s.data, s.offset, false)
  }

  /** The merged runs of each batch in turn. */
  function ReplayBatches(file: Bytes, batches: seq<Batch>): Bytes {
    if batches == [] then file
    else Replay(ReplayBatches(file, batches[..|batches|-1]), Runs(batches[|batches|-1]))
  }

  ghost predicate StartsAtZero(segs: seq<Segment>) {
    exists s <- segs :: s.offset == 0
  }

  lemma OneWrite(file: Bytes, s: Segment)
    ensures MemFs.WriteData(file, s.data, s.offset, false) == WriteAt(if s.offset == 0 then [] else file, s)
  {
    if s.offset == 0 {
      FreshWrite(s);
    } else if s.offset < |file| {
      OverlayWrite(file, s);
    } else {
      AppendWrite(file, s);
    }
  }

  lemma FreshWrite(s: Segment)
    requires s.offset == 0
    ensures WriteAt([], s) == s.data && [] + s.data == s.data
  {
  }

  lemma AppendWrite(file: Bytes, s: Segment)
    requires |file| <= s.offset
    ensures WriteAt(file, s) == (if s.offset > |file| then MemFs.Resize(file, s.offset) else file) + s.data
  {
    var start: Bytes := if s.offset > |file| then MemFs.Resize(file, s.offset) else file;
    assert |start| == s.offset && forall i :: 0 <= i < s.offset ==> start[i] == if i < |file| then file[i] else 0;
    assert WriteAt(file, s)[..s.offset] == start;
    assert WriteAt(file, s)[s.offset..] == s.data;
  }

  lemma OverlayWrite(file: Bytes, s: Segment)
    requires 0 < s.offset < |file|
    ensures MemFs.WriteData(file, s.data, s.offset, false) == WriteAt(file, s)
  {
    var rest: Bytes := if s.End() <= |file| then file[s.End()..] else [];
    assert WriteAt(file, s)[..s.offset] == file[..s.offset];
    assert WriteAt(file, s)[s.offset..s.End()] == s.data;
    assert WriteAt(file, s)[s.End()..] == rest;
  }

  lemma {:induction false} ReplayLater(file: Bytes, segs: seq<Segment>)
    requires !StartsAtZero(segs)
    ensures Replay(file, segs) == Apply(file, segs)
  {
    if segs != [] {
      var init, s := segs[..|segs|-1], segs[|segs|-1];
      assert s in segs && forall t <- init :: t in segs;
      ReplayLater(file, init);
      OneWrite(Replay(file, init), s);
    }
  }

  lemma ZeroIsAlone(runs: seq<Segment>)
    requires Separated(runs) && runs != [] && runs[|runs|-1].offset == 0
    ensures |runs| == 1
  {
    var first := runs[0].End();
  }

  /** Runs that start at offset 0 replace the file; all others overlay it. */
  lemma {:induction false} ReplayRuns(file: Bytes, runs: seq<Segment>)
    requires Separated(runs)
    ensures Replay(file, runs) == Apply(if StartsAtZero(runs) then [] else file, runs)
  {
    if StartsAtZero(runs) {
      var init, s := runs[..|runs|-1], runs[|runs|-1];
      OneWrite(Replay(file, init), s);
      if s.offset == 0 {
        ZeroIsAlone(runs);
        assert init == [];
      } else {
        var z :| z in runs && z.offset == 0;
        assert z in init;
        ReplayRuns(file, init);
      }
    } else {
      ReplayLater(file, runs);
    }
  }

  lemma RunsStartAtZero(pending: seq<Segment>)
    ensures StartsAtZero(Runs(pending)) <==> StartsAtZero(pending)
  {
    StableSortSorted(pending);
    StableSortMembers(pending);
    MergedStart(StableSort(pending));
    if StartsAtZero(pending) {
      var z :| z in pending && z.offset == 0;
      assert z in StableSort(pending);
    }
    if StartsAtZero(StableSort(pending)) {
      var z :| z in StableSort(pending) && z.offset == 0;
      assert z in pending;
    }
  }

  lemma PushStart(segs: seq<Segment>, s: Segment)
    ensures StartsAtZero(segs + [s]) <==> StartsAtZero(segs) || s.offset == 0
  {
    assert s in segs + [s] && forall t <- segs :: t in segs + [s];
  }

  lemma {:induction false} MergedStart(sorted: seq<Segment>)
    requires Sorted(sorted)
    ensures StartsAtZero(Merged(sorted)) <==> StartsAtZero(sorted)
  {
    if sorted != [] {
      var init, s := sorted[..|sorted|-1], sorted[|sorted|-1];
      MergedStart(init);
      MergeStepStart(Merged(init), s, Merged(sorted));
      PushStart(init, s);
      assert sorted == init + [s];
    }
  }

  lemma MergeStepStart(runs: seq<Segment>, s: Segment, runs': seq<Segment>)
    requires runs != [] ==> runs[|runs|-1].offset <= s.offset
    requires runs' == MergeStep(runs, s)
    ensures StartsAtZero(runs') <==> StartsAtZero(runs) || s.offset == 0
  {
    if runs == [] || runs[|runs|-1].End() < s.offset {
      PushStart(runs, s);
    } else {
      var front, last := runs[..|runs|-1], runs[|runs|-1];
      assert runs == front + [last];
      PushStart(front, last);
      PushStart(front, Absorb(last, s));
    }
  }

  /** One flush into MemFS: a pending write at offset 0 throws the old file away. */
  lemma FlushReplaces(file: Bytes, pending: seq<Segment>)
    ensures Replay(file, Runs(pending)) == Apply(if StartsAtZero(pending) then [] else file, StableSort(pending))
  {
    RunsCorrect(pending);
    RunsStartAtZero(pending);
    ReplayRuns(file, Runs(pending));
    EquivalentApply(if StartsAtZero(pending) then [] else file, Runs(pending), StableSort(pending));
  }

  // ---------------------------------------------------------------------------
  // Against the overlay
  // ---------------------------------------------------------------------------

  ghost predicate LikeOverlay(file: Bytes, batches: seq<Batch>) {
    ReplayBatches(file, batches) == ApplyBatches(file, batches)
  }

  lemma {:induction false} NoZeroLikeOverlay(file: Bytes, batches: seq<Batch>)
    requires forall b <- batches :: !StartsAtZero(b)
    ensures LikeOverlay(file, batches)
  {
    if batches != [] {
      var init, b := batches[..|batches|-1], batches[|batches|-1];
      assert b in batches && forall d <- init :: d in batches;
      NoZeroLikeOverlay(file, init);
      FlushReplaces(ReplayBatches(file, init), b);
    }
  }

  /** How far the writes reach bounds the file once one of them starts at 0. */
  lemma {:induction false} ZeroForgets(file: Bytes, batches: seq<Batch>)
    requires exists b <- batches :: StartsAtZero(b)
    ensures |ReplayBatches(file, batches)| <= Extent(Received(batches))
  {
    var init, b := batches[..|batches|-1], batches[|batches|-1];
    var before := ReplayBatches(file, init);
    FlushReplaces(before, b);
    ExtentConcat(Received(init), StableSort(b));
    ApplyPointwise(if StartsAtZero(b) then [] else before, StableSort(b));
    if !StartsAtZero(b) {
      var z :| z in batches && StartsAtZero(z);
      assert z in init;
      ZeroForgets(file, init);
    }
  }

  /** A MemFS-backed server holds what the overlay dictates, for every previous file, exactly
      when no buffered write starts at offset 0. */
  lemma MemFsLikeOverlayIff(batches: seq<Batch>)
    ensures (forall file: Bytes :: LikeOverlay(file, batches)) <==> forall b <- batches :: !StartsAtZero(b)
  {
    if forall b <- batches :: !StartsAtZero(b) {
      forall file: Bytes ensures LikeOverlay(file, batches) {
        NoZeroLikeOverlay(file, batches);
      }
    } else {
      var file := MemFs.Zeros(Extent(Received(batches)) + 1);
      ZeroForgets(file, batches);
      ApplyReceived(file, batches);
      ApplyPointwise(file, Received(batches));
      assert !LikeOverlay(file, batches);
    }
  }
}
