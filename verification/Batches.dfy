/**
 Flushing in batches: each batch reaches the server in stable offset order, one batch after the
 other (crates/racfs-fuse/src/async_fs.rs:177-198).  `BatchesRefineIff` is the exact condition
 under which that has the effect of the writes in the order they arrived.
 */
module Batches {
  import opened Common
  import opened Segments
  import opened ArrivalOrder

  type Batch = seq<Segment>

  function Flatten(batches: seq<Batch>): seq<Segment> {
    if batches == [] then [] else Flatten(batches[..|batches|-1]) + batches[|batches|-1]
  }

  /** Batches reach the server one after the other, each in stable offset order. */
  function ApplyBatches(file: Bytes, batches: seq<Batch>): Bytes {
    if batches == [] then file
    else Apply(ApplyBatches(file, batches[..|batches|-1]), StableSort(batches[|batches|-1]))
  }

  lemma ApplyPush(file: Bytes, batches: seq<Batch>, b: Batch)
    ensures ApplyBatches(file, batches + [b]) == Apply(ApplyBatches(file, batches), StableSort(b))
  {
    assert (batches + [b])[..|batches + [b]|-1] == batches;
  }

  lemma FlattenPush(batches: seq<Batch>, b: Batch)
    ensures Flatten(batches + [b]) == Flatten(batches) + b
  {
    assert (batches + [b])[..|batches + [b]|-1] == batches;
  }

  /** The segments in the order in which the server receives them. */
  function Received(batches: seq<Batch>): seq<Segment> {
    if batches == [] then [] else Received(batches[..|batches|-1]) + StableSort(batches[|batches|-1])
  }

  lemma {:induction false} ApplyReceived(file: Bytes, batches: seq<Batch>)
    ensures ApplyBatches(file, batches) == Apply(file, Received(batches))
  {
    if batches != [] {
      var init, b := batches[..|batches|-1], batches[|batches|-1];
      ApplyReceived(file, init);
      ApplyConcat(file, Received(init), StableSort(b));
    }
  }

  lemma {:induction false} ReceivedExtent(batches: seq<Batch>)
    ensures Extent(Received(batches)) == Extent(Flatten(batches))
  {
    if batches != [] {
      var init, b := batches[..|batches|-1], batches[|batches|-1];
      ReceivedExtent(init);
      SortKeepsExtent(b);
      ExtentConcat(Received(init), StableSort(b));
      ExtentConcat(Flatten(init), b);
    }
  }

  // ---------------------------------------------------------------------------
  // The batch that decides a byte
  // ---------------------------------------------------------------------------

  /** Batch `k` is the last one that writes the byte at `p`. */
  ghost predicate Decides(batches: seq<Batch>, k: nat, p: nat) {
    k < |batches| && Covered(batches[k], p) && forall m :: k < m < |batches| ==> !Covered(batches[m], p)
  }

  /** At every position the batch that decides it has its last write there at the top. */
  ghost predicate InOrderWhereItCounts(batches: seq<Batch>) {
    forall k: nat, p: nat :: Decides(batches, k, p) ==> InOrderAt(batches[k], p)
  }

  lemma SortCovers(b: Batch, p: nat)
    ensures Covered(StableSort(b), p) <==> Covered(b, p)
  {
    StableSortMembers(b);
    if Covered(b, p) {
      var s :| s in b && s.Covers(p);
      assert s in StableSort(b);
    }
  }

  lemma {:induction false} DecidedByte(batches: seq<Batch>, k: nat, p: nat)
    requires Decides(batches, k, p)
    ensures ByteAt(Flatten(batches), p) == ByteAt(batches[k], p)
    ensures ByteAt(Received(batches), p) == ByteAt(StableSort(batches[k]), p)
  {
    var init, b := batches[..|batches|-1], batches[|batches|-1];
    ByteAtConcat(Flatten(init), b, p);
    ByteAtConcat(Received(init), StableSort(b), p);
    CoveredIffByte(b, p);
    CoveredIffByte(StableSort(b), p);
    SortCovers(b, p);
    if k < |init| {
      assert !Covered(b, p);
      assert forall m :: k < m < |init| ==> init[m] == batches[m];
      DecidedByte(init, k, p);
    }
  }

  lemma {:induction false} UndecidedByte(batches: seq<Batch>, p: nat)
    requires forall b <- batches :: !Covered(b, p)
    ensures ByteAt(Flatten(batches), p) == None && ByteAt(Received(batches), p) == None
  {
    if batches != [] {
      var init, b := batches[..|batches|-1], batches[|batches|-1];
      assert b in batches && forall d <- init :: d in batches;
      UndecidedByte(init, p);
      ByteAtConcat(Flatten(init), b, p);
      ByteAtConcat(Received(init), StableSort(b), p);
      CoveredIffByte(b, p);
      CoveredIffByte(StableSort(b), p);
      SortCovers(b, p);
    }
  }

  lemma {:induction false} SomeDecides(batches: seq<Batch>, p: nat) returns (k: nat)
    requires exists b <- batches :: Covered(b, p)
    ensures Decides(batches, k, p)
  {
    var init, last := batches[..|batches|-1], batches[|batches|-1];
    if Covered(last, p) {
      k := |batches|-1;
    } else {
      var b :| b in batches && Covered(b, p);
      assert b in init;
      k := SomeDecides(init, p);
      assert forall m :: k < m < |init| ==> init[m] == batches[m];
    }
  }

  lemma InOrderByte(batches: seq<Batch>, p: nat)
    requires InOrderWhereItCounts(batches)
    ensures ByteAt(Received(batches), p) == ByteAt(Flatten(batches), p)
  {
    if exists b <- batches :: Covered(b, p) {
      var k := SomeDecides(batches, p);
      DecidedByte(batches, k, p);
      SortKeepsByte(batches[k], p);
    } else {
      UndecidedByte(batches, p);
    }
  }

  lemma InOrderAgrees(file: Bytes, batches: seq<Batch>)
    requires InOrderWhereItCounts(batches)
    ensures BatchesAgree(file, batches)
  {
    forall p: nat ensures ByteAt(Received(batches), p) == ByteAt(Flatten(batches), p) {
      InOrderByte(batches, p);
    }
    ReceivedExtent(batches);
    EquivalentApply(file, Received(batches), Flatten(batches));
    ApplyReceived(file, batches);
  }

  // ---------------------------------------------------------------------------
  // The exact condition
  // ---------------------------------------------------------------------------

  ghost predicate BatchesAgree(file: Bytes, batches: seq<Batch>) {
    ApplyBatches(file, batches) == Apply(file, Flatten(batches))
  }

  /** Same ranges in the same batches, any contents. */
  ghost predicate SameShapes(a: seq<Batch>, b: seq<Batch>) {
    |a| == |b| && forall k :: 0 <= k < |a| ==> SameShape(a[k], b[k])
  }

  lemma ShapeCovered(a: Batch, b: Batch, p: nat)
    requires SameShape(a, b)
    ensures Covered(a, p) <==> Covered(b, p)
  {
    assert forall i :: 0 <= i < |a| ==> a[i].Covers(p) == b[i].Covers(p);
    if Covered(a, p) {
      var i :| 0 <= i < |a| && a[i].Covers(p);
      assert b[i] in b;
    }
    if Covered(b, p) {
      var i :| 0 <= i < |b| && b[i].Covers(p);
      assert a[i] in a;
    }
  }

  lemma ShapeInOrderAt(a: Batch, b: Batch, p: nat)
    requires SameShape(a, b) && InOrderAt(a, p)
    ensures InOrderAt(b, p)
  {
    assert forall i :: 0 <= i < |a| ==> a[i].Covers(p) == b[i].Covers(p);
    forall i: nat, j: nat | Winner(b, j, p) && i < j && b[i].Covers(p) ensures b[i].offset <= b[j].offset {
      assert Winner(a, j, p);
    }
  }

  lemma ShapesInOrder(a: seq<Batch>, b: seq<Batch>)
    requires SameShapes(a, b) && InOrderWhereItCounts(a)
    ensures InOrderWhereItCounts(b)
  {
    forall k: nat, p: nat | Decides(b, k, p) ensures InOrderAt(b[k], p) {
      forall m | k <= m < |a| ensures Covered(a[m], p) <==> Covered(b[m], p) {
        ShapeCovered(a[m], b[m], p);
      }
      assert Decides(a, k, p);
      ShapeInOrderAt(a[k], b[k], p);
    }
  }

  lemma DecidesAfterMark(batches: seq<Batch>, k: nat, j: nat, p: nat)
    requires Decides(batches, k, p)
    ensures Decides(batches[k := Mark(batches[k], j)], k, p)
  {
    ShapeCovered(batches[k], Mark(batches[k], j), p);
  }

  /** Contents that make the reordering of one batch visible in the final file. */
  lemma OutOfOrderShows(batches: seq<Batch>, k: nat, p: nat) returns (contents: seq<Batch>)
    requires Decides(batches, k, p) && !InOrderAt(batches[k], p)
    ensures SameShapes(batches, contents) && !BatchesAgree([], contents)
  {
    var i: nat, j: nat :|
      Winner(batches[k], j, p) && i < j && batches[k][i].Covers(p) && batches[k][i].offset > batches[k][j].offset;
    contents := batches[k := Mark(batches[k], j)];
    DecidesAfterMark(batches, k, j, p);
    SortHidesMark(batches[k], i, j, p);
    ArrivalShowsMark(batches[k], j, p);
    DecidedDifferently(contents, k, p);
  }

  lemma DecidedDifferently(batches: seq<Batch>, k: nat, p: nat)
    requires Decides(batches, k, p)
    requires ByteAt(StableSort(batches[k]), p) == Some(0) && ByteAt(batches[k], p) == Some(1)
    ensures !BatchesAgree([], batches)
  {
    DecidedByte(batches, k, p);
    DifferentByte(Received(batches), Flatten(batches), p);
    ApplyReceived([], batches);
  }

  lemma DifferentByte(a: seq<Segment>, b: seq<Segment>, p: nat)
    requires ByteAt(a, p) == Some(0) && ByteAt(b, p) == Some(1)
    ensures Apply([], a) != Apply([], b)
  {
    ApplyPointwise([], a);
    ApplyPointwise([], b);
    BeyondExtent(a, p);
    BeyondExtent(b, p);
  }

  /** Flushing in these batches is indistinguishable from the writes in arrival order, for all
      contents and files, exactly when each byte's deciding batch is in order there. */
  lemma BatchesRefineIff(batches: seq<Batch>)
    ensures InOrderWhereItCounts(batches) <==>
      forall contents: seq<Batch>, file: Bytes :: SameShapes(batches, contents) ==> BatchesAgree(file, contents)
  {
    if InOrderWhereItCounts(batches) {
      forall contents: seq<Batch>, file: Bytes | SameShapes(batches, contents) ensures BatchesAgree(file, contents) {
        ShapesInOrder(batches, contents);
        InOrderAgrees(file, contents);
      }
    } else {
      var k: nat, p: nat :| Decides(batches, k, p) && !InOrderAt(batches[k], p);
      var contents := OutOfOrderShows(batches, k, p);
    }
  }
}
