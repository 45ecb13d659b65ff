/**
 The write-back merge of the FUSE client: `merge_write_segments` in
 crates/racfs-fuse/src/async_fs.rs.

 A segment list means what it does to a file: `Apply` replays it as positional
 writes.  Everything is proved through two observations of a list, the byte it
 leaves at a position (`ByteAt`) and how far it reaches (`Extent`), which together
 determine its effect on every file (`ApplyPointwise`).
 */
module Segments {
  import opened Common

  datatype Segment = Segment(offset: nat, data: Bytes) {
    function End(): nat { offset + |data| }
    predicate Covers(p: nat) { offset <= p < End() }
  }

  ghost predicate Overlap(a: Segment, b: Segment) {
    exists p: nat :: a.Covers(p) && b.Covers(p)
  }

  ghost predicate Fits(segs: seq<Segment>) {
    forall s <- segs :: s.End() <= U64_MAX
  }

  // ---------------------------------------------------------------------------
  // Meaning: positional writes into a byte file, gaps filled with zero
  // ---------------------------------------------------------------------------

  function Max(a: nat, b: nat): nat { if a < b then b else a }

  /** One positional write accepted by the server. */
  function WriteAt(file: Bytes, s: Segment): (r: Bytes)
    ensures |r| == Max(|file|, s.End())
    ensures forall p: nat :: p < |r| ==>
      r[p] == if s.Covers(p) then s.data[p - s.offset] else if p < |file| then file[p] else 0
  {
    seq(Max(|file|, s.End()), p requires 0 <= p < Max(|file|, s.End()) =>
      if s.Covers(p) then s.data[p - s.offset] else if p < |file| then file[p] else 0)
  }

  function Apply(file: Bytes, segs: seq<Segment>): Bytes {
    if segs == [] then file else WriteAt(Apply(file, segs[..|segs|-1]), segs[|segs|-1])
  }

  /** The byte a list leaves at `p`: that of the last segment covering it. */
  function ByteAt(segs: seq<Segment>, p: nat): Option<byte> {
    if segs == [] then None
    else if segs[|segs|-1].Covers(p) then Some(segs[|segs|-1].data[p - segs[|segs|-1].offset])
    else ByteAt(segs[..|segs|-1], p)
  }

  function Extent(segs: seq<Segment>): nat {
    if segs == [] then 0 else Max(Extent(segs[..|segs|-1]), segs[|segs|-1].End())
  }

  ghost predicate Equivalent(a: seq<Segment>, b: seq<Segment>) {
    Extent(a) == Extent(b) && forall p: nat :: ByteAt(a, p) == ByteAt(b, p)
  }

  /** What a reader finds at `p` when a list leaves `written` there. */
  function Visible(file: Bytes, written: Option<byte>, p: nat): byte {
    if written.Some? then written.value else if p < |file| then file[p] else 0
  }

  lemma {:induction false} ApplyPointwise(file: Bytes, segs: seq<Segment>)
    ensures |Apply(file, segs)| == Max(|file|, Extent(segs))
    ensures forall p: nat :: p < |Apply(file, segs)| ==>
      Apply(file, segs)[p] == Visible(file, ByteAt(segs, p), p)
  {
    if segs == [] {
    } else {
      var init, last := segs[..|segs|-1], segs[|segs|-1];
      ApplyPointwise(file, init);
      var r := Apply(file, segs);
      forall p: nat | p < |r| ensures r[p] == Visible(file, ByteAt(segs, p), p) {
        if !last.Covers(p) {
          assert ByteAt(segs, p) == ByteAt(init, p);
          BeyondExtent(init, p);
        }
      }
    }
  }

  lemma {:induction false} BeyondExtent(segs: seq<Segment>, p: nat)
    ensures Extent(segs) <= p ==> ByteAt(segs, p).None?
  {
    if segs != [] {
      BeyondExtent(segs[..|segs|-1], p);
    }
  }

  /** Equivalent lists have the same effect on every file. */
  lemma EquivalentApply(file: Bytes, a: seq<Segment>, b: seq<Segment>)
    requires Equivalent(a, b)
    ensures Apply(file, a) == Apply(file, b)
  {
    ApplyPointwise(file, a);
    ApplyPointwise(file, b);
  }

  lemma {:induction false} ByteAtConcat(a: seq<Segment>, b: seq<Segment>, p: nat)
    ensures ByteAt(a + b, p) == if ByteAt(b, p).Some? then ByteAt(b, p) else ByteAt(a, p)
  {
    if b == [] {
      assert a + b == a;
    } else {
      assert (a + b)[..|a + b|-1] == a + b[..|b|-1];
      ByteAtConcat(a, b[..|b|-1], p);
    }
  }

  lemma {:induction false} ExtentConcat(a: seq<Segment>, b: seq<Segment>)
    ensures Extent(a + b) == Max(Extent(a), Extent(b))
  {
    if b == [] {
      assert a + b == a;
    } else {
      assert (a + b)[..|a + b|-1] == a + b[..|b|-1];
      ExtentConcat(a, b[..|b|-1]);
    }
  }

  lemma {:induction false} ApplyConcat(file: Bytes, a: seq<Segment>, b: seq<Segment>)
    ensures Apply(file, a + b) == Apply(Apply(file, a), b)
  {
    if b == [] {
      assert a + b == a;
    } else {
      assert (a + b)[..|a + b|-1] == a + b[..|b|-1];
      ApplyConcat(file, a, b[..|b|-1]);
    }
  }

  ghost predicate Covered(segs: seq<Segment>, p: nat) {
    exists s <- segs :: s.Covers(p)
  }

  lemma {:induction false} CoveredIffByte(segs: seq<Segment>, p: nat)
    ensures ByteAt(segs, p).Some? <==> Covered(segs, p)
  {
    if segs != [] {
      CoveredIffByte(segs[..|segs|-1], p);
      if Covered(segs, p) {
        var s :| s in segs && s.Covers(p);
        assert s in segs[..|segs|-1] || s == segs[|segs|-1];
      }
    }
  }

  // ---------------------------------------------------------------------------
  // The stable sort by offset
  // ---------------------------------------------------------------------------

  /** Inserts `x` after every element whose offset is not larger. */
  function Insert(sorted: seq<Segment>, x: Segment): seq<Segment> {
    if sorted == [] || sorted[|sorted|-1].offset <= x.offset then sorted + [x]
    else Insert(sorted[..|sorted|-1], x) + [sorted[|sorted|-1]]
  }

  /** `segments.sort_by_key(|s| s.0)`: the standard library's sort is stable. */
  function StableSort(segs: seq<Segment>): seq<Segment> {
    if segs == [] then [] else Insert(StableSort(segs[..|segs|-1]), segs[|segs|-1])
  }

  ghost predicate Sorted(segs: seq<Segment>) {
    |segs| > 1 ==> Sorted(segs[..|segs|-1]) && segs[|segs|-2].offset <= segs[|segs|-1].offset
  }

  lemma {:induction false} SortedPairwise(segs: seq<Segment>, i: nat, j: nat)
    requires Sorted(segs) && i <= j < |segs|
    ensures segs[i].offset <= segs[j].offset
  {
    if j < |segs|-1 {
      SortedPairwise(segs[..|segs|-1], i, j);
    } else if i < j {
      SortedPairwise(segs[..|segs|-1], i, j-1);
    }
  }

  lemma {:induction false} SortedPrefix(segs: seq<Segment>, n: nat)
    requires Sorted(segs) && n <= |segs|
    ensures Sorted(segs[..n])
  {
    if n < |segs| {
      assert segs[..|segs|-1][..n] == segs[..n];
      SortedPrefix(segs[..|segs|-1], n);
    } else {
      assert segs[..n] == segs;
    }
  }

  function AtOffset(segs: seq<Segment>, o: nat): seq<Segment> {
    if segs == [] then []
    else if segs[|segs|-1].offset == o then AtOffset(segs[..|segs|-1], o) + [segs[|segs|-1]]
    else AtOffset(segs[..|segs|-1], o)
  }

  lemma {:induction false} StableSortSorted(segs: seq<Segment>)
    ensures Sorted(StableSort(segs))
  {
    if segs != [] {
      StableSortSorted(segs[..|segs|-1]);
      InsertSorted(StableSort(segs[..|segs|-1]), segs[|segs|-1]);
    }
  }

  lemma {:induction false} StableSortMultiset(segs: seq<Segment>)
    ensures multiset(StableSort(segs)) == multiset(segs)
  {
    if segs != [] {
      var init, x := segs[..|segs|-1], segs[|segs|-1];
      StableSortMultiset(init);
      InsertMultiset(StableSort(init), x);
      assert segs == init + [x];
    }
  }

  lemma {:induction false} StableSortKeepsTies(segs: seq<Segment>, o: nat)
    ensures AtOffset(StableSort(segs), o) == AtOffset(segs, o)
  {
    if segs != [] {
      StableSortKeepsTies(segs[..|segs|-1], o);
      InsertKeepsTies(StableSort(segs[..|segs|-1]), segs[|segs|-1], o);
    }
  }

  /** What the sort guarantees: ordered by offset, same elements, ties in arrival order. */
  lemma StableSortCorrect(segs: seq<Segment>)
    ensures Sorted(StableSort(segs))
    ensures multiset(StableSort(segs)) == multiset(segs)
    ensures forall o: nat :: AtOffset(StableSort(segs), o) == AtOffset(segs, o)
  {
    StableSortSorted(segs);
    StableSortMultiset(segs);
    forall o: nat ensures AtOffset(StableSort(segs), o) == AtOffset(segs, o) {
      StableSortKeepsTies(segs, o);
    }
  }

  lemma {:induction false} InsertSorted(sorted: seq<Segment>, x: Segment)
    requires Sorted(sorted)
    ensures Insert(sorted, x) != [] && Sorted(Insert(sorted, x))
    ensures var last := Insert(sorted, x)[|Insert(sorted, x)|-1];
            last == x || (sorted != [] && last == sorted[|sorted|-1])
  {
    if sorted == [] || sorted[|sorted|-1].offset <= x.offset {
      assert (sorted + [x])[..|sorted|] == sorted;
    } else {
      var rest, last := sorted[..|sorted|-1], sorted[|sorted|-1];
      InsertSorted(rest, x);
      assert (Insert(rest, x) + [last])[..|Insert(rest, x)|] == Insert(rest, x);
    }
  }

  lemma {:induction false} InsertMultiset(sorted: seq<Segment>, x: Segment)
    ensures multiset(Insert(sorted, x)) == multiset(sorted) + multiset{x}
  {
    if !(sorted == [] || sorted[|sorted|-1].offset <= x.offset) {
      var rest, last := sorted[..|sorted|-1], sorted[|sorted|-1];
      InsertMultiset(rest, x);
      assert sorted == rest + [last];
    }
  }

  lemma {:induction false} InsertKeepsTies(list: seq<Segment>, x: Segment, o: nat)
    ensures AtOffset(Insert(list, x), o) == AtOffset(list, o) + if x.offset == o then [x] else []
  {
    if list == [] || list[|list|-1].offset <= x.offset {
      assert (list + [x])[..|list|] == list;
    } else {
      var rest, last := list[..|list|-1], list[|list|-1];
      InsertKeepsTies(rest, x, o);
      assert (Insert(rest, x) + [last])[..|Insert(rest, x)|] == Insert(rest, x);
    }
  }

  lemma StableSortMembers(segs: seq<Segment>)
    ensures |StableSort(segs)| == |segs|
    ensures forall s :: s in StableSort(segs) <==> s in segs
  {
    StableSortMultiset(segs);
    forall s ensures s in StableSort(segs) <==> s in segs {
      assert s in multiset(StableSort(segs)) <==> s in multiset(segs);
    }
    assert |multiset(StableSort(segs))| == |multiset(segs)|;
  }

  // ---------------------------------------------------------------------------
  // The merge loop
  // ---------------------------------------------------------------------------

  /** Ranges strictly increase and never touch: every run ends before the next one starts. */
  ghost predicate Separated(runs: seq<Segment>) {
    forall i, j :: 0 <= i < j < |runs| ==> runs[i].End() < runs[j].offset
  }

  /** `Vec::resize(len, 0)` when growing, then `copy_from_slice` at `start`. */
  function Absorb(run: Segment, s: Segment): (r: Segment)
    requires run.offset <= s.offset <= run.End()
    ensures r.offset == run.offset && r.End() == Max(run.End(), s.End())
    ensures forall p: nat :: ByteAt([r], p) == ByteAt([run, s], p)
  {
    var start := s.offset - run.offset;
    var end := start + |s.data|;
    var grown := if end > |run.data| then run.data + seq(end - |run.data|, _ => 0) else run.data;
    var r := Segment(run.offset, grown[..start] + s.data + grown[end..]);
    assert forall p: nat :: ByteAt([r], p) == ByteAt([run, s], p) by {
      forall p: nat ensures ByteAt([r], p) == ByteAt([run, s], p) {
        assert [run, s][..1] == [run];
        assert [run][..0] == [] && [r][..0] == [];
      }
    }
    r
  }

  /** One turn of the loop: extend the last run, or start a new one. */
  function MergeStep(runs: seq<Segment>, s: Segment): seq<Segment>
    requires runs != [] ==> runs[|runs|-1].offset <= s.offset
  {
    if runs == [] || runs[|runs|-1].End() < s.offset then runs + [s]
    else runs[..|runs|-1] + [Absorb(runs[|runs|-1], s)]
  }

  lemma MergeStepSeparated(runs: seq<Segment>, s: Segment)
    requires runs != [] ==> runs[|runs|-1].offset <= s.offset
    requires Separated(runs)
    ensures Separated(MergeStep(runs, s))
  {
  }

  lemma MergeStepEquivalent(runs: seq<Segment>, seen: seq<Segment>, s: Segment, runs': seq<Segment>, seen': seq<Segment>)
    requires runs != [] ==> runs[|runs|-1].offset <= s.offset
    requires Equivalent(runs, seen) && runs' == MergeStep(runs, s) && seen' == seen + [s]
    ensures Equivalent(runs', seen')
  {
    PushEquivalent(runs, seen, s);
    if !(runs == [] || runs[|runs|-1].End() < s.offset) {
      var front, last := runs[..|runs|-1], runs[|runs|-1];
      assert runs + [s] == front + [last, s];
      AbsorbEquivalent(front, last, s);
    }
  }

  lemma MergeStepFits(runs: seq<Segment>, s: Segment)
    requires runs != [] ==> runs[|runs|-1].offset <= s.offset
    requires Fits(runs) && s.End() <= U64_MAX
    ensures Fits(MergeStep(runs, s))
  {
    forall t | t in MergeStep(runs, s) ensures t.End() <= U64_MAX {
      if t !in runs && t != s {
        assert t == Absorb(runs[|runs|-1], s);
      }
    }
  }

  /** The runs after folding a whole offset-sorted list. */
  function Merged(sorted: seq<Segment>): (runs: seq<Segment>)
    requires Sorted(sorted)
    ensures sorted == [] <==> runs == []
    ensures runs != [] ==> runs[|runs|-1].offset <= sorted[|sorted|-1].offset
  {
    if sorted == [] then [] else MergeStep(Merged(sorted[..|sorted|-1]), sorted[|sorted|-1])
  }

  lemma {:induction false} MergedSeparated(sorted: seq<Segment>)
    requires Sorted(sorted)
    ensures Separated(Merged(sorted))
  {
    if sorted != [] {
      MergedSeparated(sorted[..|sorted|-1]);
      MergeStepSeparated(Merged(sorted[..|sorted|-1]), sorted[|sorted|-1]);
    }
  }

  lemma {:induction false} MergedEquivalent(sorted: seq<Segment>)
    requires Sorted(sorted)
    ensures Equivalent(Merged(sorted), sorted)
  {
    if sorted != [] {
      var init, x := sorted[..|sorted|-1], sorted[|sorted|-1];
      MergedEquivalent(init);
      assert sorted == init + [x];
      MergeStepEquivalent(Merged(init), init, x, Merged(sorted), sorted);
    }
  }

  lemma {:induction false} MergedFits(sorted: seq<Segment>)
    requires Sorted(sorted) && Fits(sorted)
    ensures Fits(Merged(sorted))
  {
    if sorted != [] {
      MergedFits(sorted[..|sorted|-1]);
      MergeStepFits(Merged(sorted[..|sorted|-1]), sorted[|sorted|-1]);
    }
  }

  /** What a flush of the pending list sends to the server. */
  function Runs(pending: seq<Segment>): seq<Segment> {
    StableSortSorted(pending);
    Merged(StableSort(pending))
  }

  /** Runs never touch, invent no bytes, lose none, and act like the stably sorted list. */
  lemma RunsCorrect(pending: seq<Segment>)
    ensures Separated(Runs(pending)) && Equivalent(Runs(pending), StableSort(pending))
    ensures Fits(pending) ==> Fits(Runs(pending))
    ensures Runs(pending) == [] <==> pending == []
    ensures forall p: nat :: Covered(Runs(pending), p) <==> Covered(pending, p)
  {
    var sorted := StableSort(pending);
    StableSortSorted(pending);
    StableSortMembers(pending);
    MergedSeparated(sorted);
    MergedEquivalent(sorted);
    if Fits(pending) {
      MergedFits(sorted);
    }
    forall p: nat ensures Covered(Runs(pending), p) <==> Covered(pending, p) {
      CoveredIffByte(Runs(pending), p);
      CoveredIffByte(sorted, p);
      SameCover(sorted, pending, p);
    }
  }

  lemma {:induction false} MergedShort(sorted: seq<Segment>)
    requires Sorted(sorted)
    ensures |Merged(sorted)| <= |sorted|
  {
    if sorted != [] {
      MergedShort(sorted[..|sorted|-1]);
    }
  }

  /** A flush sends at most as many runs as there are segments. */
  lemma RunsShort(pending: seq<Segment>)
    ensures |Runs(pending)| <= |pending|
  {
    StableSortSorted(pending);
    StableSortMultiset(pending);
    assert |StableSort(pending)| == |multiset(StableSort(pending))| == |pending|;
    MergedShort(StableSort(pending));
  }

  lemma SameCover(a: seq<Segment>, b: seq<Segment>, p: nat)
    requires forall s :: s in a <==> s in b
    ensures Covered(a, p) <==> Covered(b, p)
  {
  }

  /** The loop of `merge_write_segments` (async_fs.rs:26-51), over sorted segments. */
  method MergeLoop(sorted: seq<Segment>) returns (result: seq<Segment>)
    requires Sorted(sorted)
    ensures result == Merged(sorted)
  {
    result := [];
    for i := 0 to |sorted|
      invariant Sorted(sorted[..i]) && result == Merged(sorted[..i])
    {
      var s := sorted[i];
      SortedPrefix(sorted, i+1);
      assert sorted[..i+1][..i] == sorted[..i];
      if result == [] {
        result := result + [s];
      } else {
        var last := result[|result|-1];
        if s.offset <= last.End() {
          result := result[..|result|-1] + [Absorb(last, s)];
        } else {
          result := result + [s];
        }
      }
    }
    assert sorted[..|sorted|] == sorted;
  }

  /** `merge_write_segments` (async_fs.rs:21-52). */
  method MergeWriteSegments(segments: seq<Segment>) returns (result: seq<Segment>)
    requires Fits(segments)
    ensures result == Runs(segments)
    ensures Separated(result) && Fits(result)
    ensures Equivalent(result, StableSort(segments))
  {
    RunsCorrect(segments);
    if segments == [] {
      return [];
    }
    StableSortSorted(segments);
    result := MergeLoop(StableSort(segments));
  }

  lemma PushEquivalent(a: seq<Segment>, b: seq<Segment>, s: Segment)
    requires Equivalent(a, b)
    ensures Equivalent(a + [s], b + [s])
  {
    ExtentConcat(a, [s]);
    ExtentConcat(b, [s]);
    forall p: nat ensures ByteAt(a + [s], p) == ByteAt(b + [s], p) {
      ByteAtConcat(a, [s], p);
      ByteAtConcat(b, [s], p);
    }
  }

  lemma AbsorbEquivalent(front: seq<Segment>, last: Segment, s: Segment)
    requires last.offset <= s.offset <= last.End()
    ensures Equivalent(front + [Absorb(last, s)], front + [last, s])
  {
    var r := Absorb(last, s);
    assert [last, s] == [last] + [s];
    ExtentConcat(front, [r]);
    ExtentConcat(front, [last, s]);
    ExtentConcat([last], [s]);
    forall p: nat ensures ByteAt(front + [r], p) == ByteAt(front + [last, s], p) {
      ByteAtConcat(front, [r], p);
      ByteAtConcat(front, [last, s], p);
    }
  }
}
