/**
 When a flush, which writes segments in stable offset order, has the same effect as
 the writes in the order they arrived (crates/racfs-fuse/src/async_fs.rs:20-52).

 The answer depends only on where the segments lie: at every position the last
 segment to arrive must be the one with the largest offset (`VisibleInOrder`).
 `FlushRefinesWrites` proves that this is exactly the condition.
 */
module ArrivalOrder {
  import opened Common
  import opened Segments

  /** `j` is the last segment of the list that covers `p`. */
  ghost predicate Winner(segs: seq<Segment>, j: nat, p: nat) {
    j < |segs| && segs[j].Covers(p) && forall k :: j < k < |segs| ==> !segs[k].Covers(p)
  }

  ghost predicate InOrderAt(segs: seq<Segment>, p: nat) {
    forall i: nat, j: nat :: Winner(segs, j, p) && i < j && segs[i].Covers(p) ==>
      segs[i].offset <= segs[j].offset
  }

  ghost predicate VisibleInOrder(segs: seq<Segment>) {
    forall p: nat :: InOrderAt(segs, p)
  }

  /** Any two overlapping segments arrived in non-decreasing offset order. */
  ghost predicate OverlapsArriveInOrder(segs: seq<Segment>) {
    forall i, j :: 0 <= i < j < |segs| && Overlap(segs[i], segs[j]) ==> segs[i].offset <= segs[j].offset
  }

  /** Same ranges, any contents. */
  ghost predicate SameShape(a: seq<Segment>, b: seq<Segment>) {
    |a| == |b| && forall i :: 0 <= i < |a| ==> a[i].offset == b[i].offset && |a[i].data| == |b[i].data|
  }

  lemma PairwiseOrderSuffices(segs: seq<Segment>)
    requires OverlapsArriveInOrder(segs)
    ensures VisibleInOrder(segs)
  {
    forall p: nat, i: nat, j: nat | Winner(segs, j, p) && i < j && segs[i].Covers(p)
      ensures segs[i].offset <= segs[j].offset
    {
      assert Overlap(segs[i], segs[j]);
    }
  }

  lemma {:induction false} InsertExtent(list: seq<Segment>, x: Segment)
    ensures Extent(Insert(list, x)) == Max(Extent(list), x.End())
  {
    if list == [] || list[|list|-1].offset <= x.offset {
      assert (list + [x])[..|list|] == list;
    } else {
      var rest, last := list[..|list|-1], list[|list|-1];
      InsertExtent(rest, x);
      assert (Insert(rest, x) + [last])[..|Insert(rest, x)|] == Insert(rest, x);
    }
  }

  lemma {:induction false} SortKeepsExtent(segs: seq<Segment>)
    ensures Extent(StableSort(segs)) == Extent(segs)
  {
    if segs != [] {
      SortKeepsExtent(segs[..|segs|-1]);
      InsertExtent(StableSort(segs[..|segs|-1]), segs[|segs|-1]);
    }
  }

  /** Inserting `x` shows the same byte at `p` as appending it, if no covering segment lies higher. */
  lemma {:induction false} InsertByte(list: seq<Segment>, x: Segment, p: nat)
    requires x.Covers(p) ==> forall s <- list :: s.Covers(p) ==> s.offset <= x.offset
    ensures ByteAt(Insert(list, x), p) ==
            if x.Covers(p) then Some(x.data[p - x.offset]) else ByteAt(list, p)
  {
    if list == [] || list[|list|-1].offset <= x.offset {
      assert (list + [x])[..|list|] == list;
    } else {
      var rest, last := list[..|list|-1], list[|list|-1];
      InsertByte(rest, x, p);
      assert (Insert(rest, x) + [last])[..|Insert(rest, x)|] == Insert(rest, x);
    }
  }

  lemma {:induction false} SortKeepsByte(segs: seq<Segment>, p: nat)
    requires InOrderAt(segs, p)
    ensures ByteAt(StableSort(segs), p) == ByteAt(segs, p)
  {
    if segs != [] {
      if segs[|segs|-1].Covers(p) {
        LastIsHighest(segs, p);
      } else {
        InOrderAtPrefix(segs, p);
        SortKeepsByte(segs[..|segs|-1], p);
      }
      InsertByte(StableSort(segs[..|segs|-1]), segs[|segs|-1], p);
    }
  }

  lemma LastIsHighest(segs: seq<Segment>, p: nat)
    requires segs != [] && InOrderAt(segs, p) && segs[|segs|-1].Covers(p)
    ensures forall s <- StableSort(segs[..|segs|-1]) :: s.Covers(p) ==> s.offset <= segs[|segs|-1].offset
  {
    var init := segs[..|segs|-1];
    StableSortMembers(init);
    assert Winner(segs, |segs|-1, p);
    forall s | s in StableSort(init) && s.Covers(p) ensures s.offset <= segs[|segs|-1].offset {
      var i :| 0 <= i < |init| && init[i] == s;
      assert segs[i] == s;
    }
  }

  lemma WinnerExtends(segs: seq<Segment>, j: nat, p: nat)
    requires segs != [] && Winner(segs[..|segs|-1], j, p) && !segs[|segs|-1].Covers(p)
    ensures Winner(segs, j, p)
  {
    var init := segs[..|segs|-1];
    forall k | j < k < |segs| ensures !segs[k].Covers(p) {
      if k < |init| {
        assert segs[k] == init[k];
      }
    }
  }

  lemma InOrderAtPrefix(segs: seq<Segment>, p: nat)
    requires segs != [] && InOrderAt(segs, p) && !segs[|segs|-1].Covers(p)
    ensures InOrderAt(segs[..|segs|-1], p)
  {
    var init := segs[..|segs|-1];
    forall i: nat, j: nat | Winner(init, j, p) && i < j && init[i].Covers(p)
      ensures init[i].offset <= init[j].offset
    {
      WinnerExtends(segs, j, p);
      assert segs[i] == init[i] && segs[j] == init[j];
    }
  }

  /** A flush agrees with the arrival order when the shape is visible in order. */
  lemma FlushAgrees(file: Bytes, segs: seq<Segment>)
    requires VisibleInOrder(segs)
    ensures Apply(file, StableSort(segs)) == Apply(file, segs)
  {
    SortKeepsExtent(segs);
    forall p: nat ensures ByteAt(StableSort(segs), p) == ByteAt(segs, p) {
      SortKeepsByte(segs, p);
    }
    EquivalentApply(file, StableSort(segs), segs);
  }

  lemma {:induction false} WinnerByte(segs: seq<Segment>, p: nat) returns (j: nat)
    requires exists s <- segs :: s.Covers(p)
    ensures Winner(segs, j, p) && ByteAt(segs, p) == Some(segs[j].data[p - segs[j].offset])
  {
    var init, x := segs[..|segs|-1], segs[|segs|-1];
    if x.Covers(p) {
      j := |segs|-1;
    } else {
      var s :| s in segs && s.Covers(p);
      assert s in init;
      j := WinnerByte(init, p);
    }
  }

  /** The relabelling that exposes a hidden write: ones in segment `j`, zeros elsewhere. */
  function Mark(segs: seq<Segment>, j: nat): (r: seq<Segment>)
    ensures SameShape(segs, r)
    ensures forall i, q :: 0 <= i < |r| && 0 <= q < |r[i].data| ==> r[i].data[q] == if i == j then 1 else 0
  {
    seq(|segs|, i requires 0 <= i < |segs| =>
      Segment(segs[i].offset, seq(|segs[i].data|, _ => if i == j then 1 else 0)))
  }

  lemma SortedWinner(sorted: seq<Segment>, t: Segment, p: nat) returns (w: Segment)
    requires Sorted(sorted) && t in sorted && t.Covers(p)
    ensures w in sorted && w.Covers(p) && t.offset <= w.offset
    ensures ByteAt(sorted, p) == Some(w.data[p - w.offset])
  {
    var j := WinnerByte(sorted, p);
    var e :| 0 <= e < |sorted| && sorted[e] == t;
    w := sorted[j];
    SortedPairwise(sorted, e, j);
  }

  lemma SortHidesMark(segs: seq<Segment>, i: nat, j: nat, p: nat)
    requires Winner(segs, j, p) && i < j && segs[i].Covers(p) && segs[j].offset < segs[i].offset
    ensures ByteAt(StableSort(Mark(segs, j)), p) == Some(0)
  {
    var m := Mark(segs, j);
    StableSortSorted(m);
    StableSortMembers(m);
    assert m[i] in m;
    var w := SortedWinner(StableSort(m), m[i], p);
    var k :| 0 <= k < |m| && m[k] == w;
  }

  lemma ArrivalShowsMark(segs: seq<Segment>, j: nat, p: nat)
    requires Winner(segs, j, p)
    ensures ByteAt(Mark(segs, j), p) == Some(1)
  {
    var m := Mark(segs, j);
    assert m[j] in m && m[j].Covers(p);
    var v := WinnerByte(m, p);
    assert segs[v].Covers(p);
  }

  lemma MarkExposes(segs: seq<Segment>, i: nat, j: nat, p: nat)
    requires Winner(segs, j, p) && i < j && segs[i].Covers(p) && segs[j].offset < segs[i].offset
    ensures Apply([], StableSort(Mark(segs, j))) != Apply([], Mark(segs, j))
  {
    var m := Mark(segs, j);
    SortHidesMark(segs, i, j, p);
    ArrivalShowsMark(segs, j, p);
    ApplyPointwise([], StableSort(m));
    ApplyPointwise([], m);
    BeyondExtent(m, p);
    BeyondExtent(StableSort(m), p);
  }

  ghost predicate AgreesOn(segs: seq<Segment>, file: Bytes) {
    Apply(file, StableSort(segs)) == Apply(file, segs)
  }

  /** Exactly when flushing is indistinguishable from the writes in arrival order. */
  lemma FlushRefinesWrites(segs: seq<Segment>)
    ensures VisibleInOrder(segs) <==>
      forall contents: seq<Segment>, file: Bytes :: SameShape(segs, contents) ==> AgreesOn(contents, file)
  {
    if VisibleInOrder(segs) {
      forall contents: seq<Segment>, file: Bytes | SameShape(segs, contents) ensures AgreesOn(contents, file) {
        forall p: nat, i: nat, j: nat | Winner(contents, j, p) && i < j && contents[i].Covers(p)
          ensures contents[i].offset <= contents[j].offset
        {
          assert forall k :: 0 <= k < |segs| ==> segs[k].Covers(p) == contents[k].Covers(p);
          assert Winner(segs, j, p) && InOrderAt(segs, p);
        }
        FlushAgrees(file, contents);
      }
    } else {
      var p: nat :| !InOrderAt(segs, p);
      var i: nat, j: nat :| Winner(segs, j, p) && i < j && segs[i].Covers(p) && segs[i].offset > segs[j].offset;
      MarkExposes(segs, i, j, p);
      assert SameShape(segs, Mark(segs, j)) && !AgreesOn(Mark(segs, j), []);
    }
  }

  const HIGH := Segment(1, [7, 7])
  const LOW := Segment(0, [9, 9])

  lemma SortSwaps()
    ensures StableSort([HIGH, LOW]) == [LOW, HIGH]
  {
    assert [HIGH, LOW][..1] == [HIGH] && [HIGH][..0] == [];
    assert StableSort([HIGH]) == Insert([], HIGH) == [HIGH];
    assert Insert([HIGH], LOW) == Insert([], LOW) + [HIGH];
  }

  lemma ApplyTwo(a: Segment, b: Segment)
    ensures Apply([], [a, b]) == WriteAt(WriteAt([], a), b)
  {
    assert [a, b][..1] == [a];
    assert Apply([], [a]) == WriteAt(Apply([], [a][..0]), a);
  }

  lemma WriteLowLast()
    ensures WriteAt(WriteAt([], HIGH), LOW) == [9, 9, 7]
  {
    assert WriteAt([], HIGH) == [0, 7, 7];
  }

  lemma WriteHighLast()
    ensures WriteAt(WriteAt([], LOW), HIGH) == [9, 7, 7]
  {
    assert WriteAt([], LOW) == [9, 9];
  }

  /** Two overlapping writes in descending offset order: the flush resurrects the older byte. */
  lemma FlushCanReorder()
    ensures Apply([], [HIGH, LOW]) == [9, 9, 7]
    ensures Apply([], StableSort([HIGH, LOW])) == [9, 7, 7]
  {
    SortSwaps();
    ApplyTwo(HIGH, LOW);
    ApplyTwo(LOW, HIGH);
    WriteLowLast();
    WriteHighLast();
  }
}
