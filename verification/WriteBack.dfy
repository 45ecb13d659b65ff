/**
 The write-back buffer of the FUSE client: `WriteBackEntry` and the pending map of
 crates/racfs-fuse/src/cache.rs, with `write_async`, `flush_write_back` and
 `release_async` of crates/racfs-fuse/src/async_fs.rs.

 The server is a positional byte store that may refuse writes: each call is given
 `accepts`, the number of server writes that succeed before the first refusal.
 */
module WriteBack {
  import opened Common
  import opened Segments
  import opened ArrivalOrder
  import opened Batches

  const MAX_CHUNK: nat := 64 * 1024
  const FLUSH_SIZE: nat := 256 * 1024

  datatype Status = Ok | Eio

  datatype Entry = Entry(segments: seq<Segment>, totalBytes: nat)

  function TotalBytes(segs: seq<Segment>): nat {
    if segs == [] then 0 else TotalBytes(segs[..|segs|-1]) + |segs[|segs|-1].data|
  }

  ghost predicate EntryOk(e: Entry) {
    e.totalBytes == TotalBytes(e.segments) && Fits(e.segments)
  }

  function Pushed(e: Entry, s: Segment): Entry {
    Entry(e.segments + [s], e.totalBytes + |s.data|)
  }

  lemma PushedOk(e: Entry, s: Segment)
    requires EntryOk(e) && s.End() <= U64_MAX
    ensures EntryOk(Pushed(e, s))
  {
    assert (e.segments + [s])[..|e.segments|] == e.segments;
  }

  /** What one path looks like: the buffered segments and the server's copy. */
  datatype FileState = FileState(pending: seq<Segment>, file: Bytes)

  // ---------------------------------------------------------------------------
  // Specification of the three calls on one path
  // ---------------------------------------------------------------------------

  function Flush(st: FileState, accepts: nat): (FileState, Status) {
    var runs := Runs(st.pending);
    var used := if |runs| <= accepts then |runs| else accepts;
    (FileState([], Apply(st.file, runs[..used])), if used == |runs| then Ok else Eio)
  }

  function Write(st: FileState, s: Segment, accepts: nat): (FileState, Status) {
    if |s.data| <= MAX_CHUNK then
      var buffered := FileState(st.pending + [s], st.file);
      if TotalBytes(buffered.pending) >= FLUSH_SIZE then Flush(buffered, accepts) else (buffered, Ok)
    else
      var (flushed, status) := Flush(st, accepts);
      if status == Eio || accepts <= |Runs(st.pending)| then (flushed, Eio)
      else (FileState([], WriteAt(flushed.file, s)), Ok)
  }

  // ---------------------------------------------------------------------------
  // The buffer itself
  // ---------------------------------------------------------------------------

  class WriteBackFs<Path(==)> {
    var writeBack: map<Path, Entry>
    var server: map<Path, Bytes>

    ghost predicate Valid()
      reads this
    {
      forall p <- writeBack :: EntryOk(writeBack[p])
    }

    ghost function View(p: Path): FileState
      reads this
    {
      FileState(if p in writeBack then writeBack[p].segments else [], if p in server then server[p] else [])
    }

    /** Everything that belongs to other paths. */
    ghost function Others(p: Path): (map<Path, Entry>, map<Path, Bytes>)
      reads this
    {
      (writeBack - {p}, server - {p})
    }

    constructor ()
      ensures Valid() && writeBack == map[] && server == map[]
    {
      writeBack, server := map[], map[];
    }

    /** `push_write_back` (cache.rs:214-227). */
    method PushWriteBack(p: Path, s: Segment) returns (total: nat)
      requires Valid() && s.End() <= U64_MAX
      modifies this`writeBack
      ensures Valid()
      ensures View(p) == FileState(old(View(p)).pending + [s], old(View(p)).file)
      ensures total == TotalBytes(View(p).pending)
      ensures Others(p) == old(Others(p))
    {
      var e := if p in writeBack then writeBack[p] else Entry([], 0);
      PushedOk(e, s);
      e := Pushed(e, s);
      writeBack := writeBack[p := e];
      assert writeBack - {p} == old(writeBack) - {p};
      total := e.totalBytes;
    }

    /** `take_pending_writes` (cache.rs:230-237). */
    method TakePendingWrites(p: Path) returns (segs: seq<Segment>)
      requires Valid()
      modifies this`writeBack
      ensures Valid() && Fits(segs)
      ensures segs == old(View(p)).pending
      ensures View(p) == FileState([], old(View(p)).file)
      ensures Others(p) == old(Others(p))
    {
      segs := [];
      if p in writeBack {
        segs := writeBack[p].segments;
        assert EntryOk(writeBack[p]);
        writeBack := writeBack - {p};
      }
      assert writeBack - {p} == old(writeBack) - {p};
    }

    /** `invalidate` (cache.rs:170-180): also drops what is pending for the path. */
    method Invalidate(p: Path)
      requires Valid()
      modifies this`writeBack
      ensures Valid()
      ensures View(p) == FileState([], old(View(p)).file)
      ensures Others(p) == old(Others(p))
    {
      writeBack := writeBack - {p};
      assert writeBack - {p} == old(writeBack) - {p};
    }

    method ServerWrite(p: Path, s: Segment)
      modifies this`server
      ensures View(p) == FileState(old(View(p)).pending, WriteAt(old(View(p)).file, s))
      ensures Others(p) == old(Others(p))
    {
      server := server[p := WriteAt(if p in server then server[p] else [], s)];
      assert server - {p} == old(server) - {p};
    }

    method SendRuns(p: Path, runs: seq<Segment>, accepts: nat) returns (status: Status, used: nat)
      modifies this`server
      ensures used == if |runs| <= accepts then |runs| else accepts
      ensures status == if |runs| <= accepts then Ok else Eio
      ensures View(p) == FileState(old(View(p)).pending, Apply(old(View(p)).file, runs[..used]))
      ensures Others(p) == old(Others(p))
    {
      used := 0;
      while used < |runs|
        invariant 0 <= used <= |runs| && used <= accepts
        invariant View(p) == FileState(old(View(p)).pending, Apply(old(View(p)).file, runs[..used]))
        invariant Others(p) == old(Others(p))
      {
        if used == accepts {
          return Eio, used;
        }
        assert runs[..used+1][..used] == runs[..used];
        ServerWrite(p, runs[used]);
        used := used + 1;
      }
      status := Ok;
    }

    /** The middle of `flush_write_back` (async_fs.rs:184-195): merge, then send run by run. */
    method SendMerged(p: Path, segments: seq<Segment>, accepts: nat) returns (status: Status, used: nat)
      requires Fits(segments)
      modifies this`server
      ensures used == if |Runs(segments)| <= accepts then |Runs(segments)| else accepts
      ensures status == if used == |Runs(segments)| then Ok else Eio
      ensures View(p) == FileState(old(View(p)).pending, Apply(old(View(p)).file, Runs(segments)[..used]))
      ensures Others(p) == old(Others(p))
    {
      var merged := MergeWriteSegments(segments);
      status, used := SendRuns(p, merged, accepts);
    }

    /** `flush_write_back` (async_fs.rs:179-198). */
    method FlushWriteBack(p: Path, accepts: nat) returns (status: Status, used: nat)
      requires Valid()
      modifies this
      ensures Valid()
      ensures (View(p), status) == Flush(old(View(p)), accepts)
      ensures status == Ok ==> used == |Runs(old(View(p)).pending)|
      ensures Others(p) == old(Others(p))
    {
      var segments := TakePendingWrites(p);
      if segments == [] {
        RunsCorrect([]);
        return Ok, 0;
      }
      status, used := SendMerged(p, segments, accepts);
      if status == Ok {
        Invalidate(p);
      }
    }

    /** `write_async` (async_fs.rs:570-601). */
    method WriteAsync(p: Path, s: Segment, accepts: nat) returns (status: Status)
      requires Valid() && s.End() <= U64_MAX
      modifies this
      ensures Valid()
      ensures (View(p), status) == Write(old(View(p)), s, accepts)
      ensures Others(p) == old(Others(p))
    {
      var used;
      if |s.data| <= MAX_CHUNK {
        var total := PushWriteBack(p, s);
        status := Ok;
        if total >= FLUSH_SIZE {
          status, used := FlushWriteBack(p, accepts);
        }
        return;
      }
      status, used := FlushWriteBack(p, accepts);
      if status == Eio {
        return;
      }
      if used == accepts {
        return Eio;
      }
      ServerWrite(p, s);
      Invalidate(p);
    }

    /** `release_async` (async_fs.rs:202-207): the flush's failure is ignored. */
    method ReleaseAsync(p: Path, accepts: nat) returns (status: Status)
      requires Valid()
      modifies this
      ensures Valid() && status == Ok
      ensures View(p) == Flush(old(View(p)), accepts).0
      ensures Others(p) == old(Others(p))
    {
      var _, _ := FlushWriteBack(p, accepts);
      status := Ok;
    }
  }

  // ---------------------------------------------------------------------------
  // Whole runs on one path
  // ---------------------------------------------------------------------------

  datatype Call = WriteCall(s: Segment, accepts: nat) | ReleaseCall(accepts: nat)

  function Do(st: FileState, c: Call): (FileState, Status) {
    match c
    case WriteCall(s, accepts) => Write(st, s, accepts)
    case ReleaseCall(accepts) => Flush(st, accepts)
  }

  function Run(st: FileState, calls: seq<Call>): FileState {
    if calls == [] then st else Do(Run(st, calls[..|calls|-1]), calls[|calls|-1]).0
  }

  /** The server refused nothing it was asked to store. */
  ghost predicate Accepted(st: FileState, calls: seq<Call>) {
    calls != [] ==>
      && Accepted(st, calls[..|calls|-1])
      && Do(Run(st, calls[..|calls|-1]), calls[|calls|-1]).1 == Ok
  }

  /** Every byte range the application wrote, in arrival order. */
  function Written(calls: seq<Call>): seq<Segment> {
    if calls == [] then []
    else Written(calls[..|calls|-1])
         + if calls[|calls|-1].WriteCall? then [calls[|calls|-1].s] else []
  }

  /** The buffer stays under the flush threshold and holds only small writes. */
  ghost predicate Bounded(st: FileState) {
    TotalBytes(st.pending) < FLUSH_SIZE && forall s <- st.pending :: |s.data| <= MAX_CHUNK
  }

  lemma FlushApplies(st: FileState, accepts: nat)
    requires Flush(st, accepts).1 == Ok
    ensures Flush(st, accepts).0 == FileState([], Apply(st.file, StableSort(st.pending)))
  {
    RunsCorrect(st.pending);
    assert Runs(st.pending)[..|Runs(st.pending)|] == Runs(st.pending);
    EquivalentApply(st.file, Runs(st.pending), StableSort(st.pending));
  }

  /** How a run divides its writes: the batches flushed so far and what is still buffered. */
  datatype Plan = Plan(sent: seq<Batch>, pending: seq<Segment>)

  /** A release or a large write ends the batch; so does reaching the flush size.  A large write
      is a batch of its own. */
  function Planned(plan: Plan, c: Call): Plan {
    match c
    case ReleaseCall(_) => Plan(plan.sent + [plan.pending], [])
    case WriteCall(s, _) =>
      var queued := plan.pending + [s];
      if |s.data| > MAX_CHUNK then Plan(plan.sent + [plan.pending] + [[s]], [])
      else if TotalBytes(queued) >= FLUSH_SIZE then Plan(plan.sent + [queued], [])
      else Plan(plan.sent, queued)
  }

  function PlanOf(calls: seq<Call>): Plan {
    if calls == [] then Plan([], []) else Planned(PlanOf(calls[..|calls|-1]), calls[|calls|-1])
  }

  lemma SortOne(file: Bytes, s: Segment)
    ensures Apply(file, StableSort([s])) == WriteAt(file, s)
  {
    assert [s][..0] == [];
    assert StableSort([s]) == Insert([], s) == [s];
    assert Apply(file, [s]) == WriteAt(Apply(file, []), s);
  }

  lemma LargeWriteFollowsPlan(file: Bytes, plan: Plan, s: Segment, accepts: nat)
    requires |s.data| > MAX_CHUNK && Write(FileState(plan.pending, ApplyBatches(file, plan.sent)), s, accepts).1 == Ok
    ensures Write(FileState(plan.pending, ApplyBatches(file, plan.sent)), s, accepts).0
         == FileState([], ApplyBatches(file, plan.sent + [plan.pending] + [[s]]))
  {
    FlushApplies(FileState(plan.pending, ApplyBatches(file, plan.sent)), accepts);
    ApplyPush(file, plan.sent, plan.pending);
    ApplyPush(file, plan.sent + [plan.pending], [s]);
    SortOne(ApplyBatches(file, plan.sent + [plan.pending]), s);
  }

  /** One accepted call moves state and plan in step. */
  lemma StepFollowsPlan(file: Bytes, plan: Plan, st: FileState, c: Call)
    requires st == FileState(plan.pending, ApplyBatches(file, plan.sent)) && Bounded(st) && Do(st, c).1 == Ok
    ensures var next := Planned(plan, c);
            Do(st, c).0 == FileState(next.pending, ApplyBatches(file, next.sent)) && Bounded(Do(st, c).0)
  {
    if c.ReleaseCall? {
      FlushApplies(st, c.accepts);
      ApplyPush(file, plan.sent, plan.pending);
    } else if |c.s.data| > MAX_CHUNK {
      LargeWriteFollowsPlan(file, plan, c.s, c.accepts);
    } else if TotalBytes(plan.pending + [c.s]) >= FLUSH_SIZE {
      FlushApplies(FileState(plan.pending + [c.s], st.file), c.accepts);
      ApplyPush(file, plan.sent, plan.pending + [c.s]);
    }
  }

  lemma PlannedKeepsWrites(plan: Plan, c: Call)
    ensures Flatten(Planned(plan, c).sent) + Planned(plan, c).pending
         == Flatten(plan.sent) + plan.pending + if c.WriteCall? then [c.s] else []
  {
    if c.ReleaseCall? {
      FlattenPush(plan.sent, plan.pending);
    } else if |c.s.data| > MAX_CHUNK {
      FlattenPush(plan.sent, plan.pending);
      FlattenPush(plan.sent + [plan.pending], [c.s]);
    } else {
      FlattenPush(plan.sent, plan.pending + [c.s]);
      assert Flatten(plan.sent) + (plan.pending + [c.s]) == Flatten(plan.sent) + plan.pending + [c.s];
    }
  }

  /** Every write is in exactly one place, in arrival order: a batch, or the buffer. */
  lemma {:induction false} PlanKeepsWrites(calls: seq<Call>)
    ensures Flatten(PlanOf(calls).sent) + PlanOf(calls).pending == Written(calls)
  {
    if calls != [] {
      PlanKeepsWrites(calls[..|calls|-1]);
      PlannedKeepsWrites(PlanOf(calls[..|calls|-1]), calls[|calls|-1]);
    }
  }

  /** No accepted write is lost, duplicated or moved across a flush: the batches sent so far
      followed by the buffer are the writes in arrival order, and the server holds exactly
      what the batches dictate. */
  lemma {:induction false} RunFollowsPlan(file: Bytes, calls: seq<Call>)
    requires Accepted(FileState([], file), calls)
    ensures var st, plan := Run(FileState([], file), calls), PlanOf(calls);
            && st == FileState(plan.pending, ApplyBatches(file, plan.sent))
            && Bounded(st)
            && Flatten(plan.sent) + st.pending == Written(calls)
  {
    PlanKeepsWrites(calls);
    if calls != [] {
      var init, c := calls[..|calls|-1], calls[|calls|-1];
      RunFollowsPlan(file, init);
      StepFollowsPlan(file, PlanOf(init), Run(FileState([], file), init), c);
    }
  }

  // ---------------------------------------------------------------------------
  // When buffering is indistinguishable from writing through
  // ---------------------------------------------------------------------------

  /** The same calls up to the bytes written and what the server accepts. */
  ghost predicate SameCalls(a: seq<Call>, b: seq<Call>) {
    |a| == |b| && forall i :: 0 <= i < |a| ==> SameCall(a[i], b[i])
  }

  ghost predicate SameCall(a: Call, b: Call) {
    if a.WriteCall? then b.WriteCall? && a.s.offset == b.s.offset && |a.s.data| == |b.s.data| else b.ReleaseCall?
  }

  lemma {:induction false} ShapeTotal(a: seq<Segment>, b: seq<Segment>)
    requires SameShape(a, b)
    ensures TotalBytes(a) == TotalBytes(b)
  {
    if a != [] {
      ShapeTotal(a[..|a|-1], b[..|b|-1]);
    }
  }

  ghost predicate SamePlan(a: Plan, b: Plan) {
    SameShapes(a.sent, b.sent) && SameShape(a.pending, b.pending)
  }

  lemma PlannedShapes(a: Plan, b: Plan, c: Call, d: Call)
    requires SamePlan(a, b) && SameCall(c, d)
    ensures SamePlan(Planned(a, c), Planned(b, d))
  {
    if c.WriteCall? {
      ShapeTotal(a.pending + [c.s], b.pending + [d.s]);
    }
  }

  lemma {:induction false} PlanShapes(a: seq<Call>, b: seq<Call>)
    requires SameCalls(a, b)
    ensures SamePlan(PlanOf(a), PlanOf(b))
  {
    if a != [] {
      PlanShapes(a[..|a|-1], b[..|b|-1]);
      PlannedShapes(PlanOf(a[..|a|-1]), PlanOf(b[..|b|-1]), a[|a|-1], b[|b|-1]);
    }
  }

  /** After a release the server's file is what unbuffered writes would have left. */
  ghost predicate ReleasedSequentially(file: Bytes, calls: seq<Call>) {
    Accepted(FileState([], file), calls) ==>
      Run(FileState([], file), calls) == FileState([], Apply(file, Written(calls)))
  }

  lemma ReleasedAgrees(file: Bytes, calls: seq<Call>)
    requires calls != [] && calls[|calls|-1].ReleaseCall? && Accepted(FileState([], file), calls)
    ensures ReleasedSequentially(file, calls) <==> BatchesAgree(file, PlanOf(calls).sent)
  {
    RunFollowsPlan(file, calls);
    assert Flatten(PlanOf(calls).sent) == Written(calls);
  }

  /** The same calls writing the given segments, each accepting `n` runs. */
  function Rewritten(calls: seq<Call>, segs: seq<Segment>, n: nat): (r: seq<Call>)
    requires |segs| == |Written(calls)|
    ensures |r| == |calls|
  {
    if calls == [] then []
    else
      var init, c := calls[..|calls|-1], calls[|calls|-1];
      if c.ReleaseCall? then Rewritten(init, segs, n) + [ReleaseCall(n)]
      else Rewritten(init, segs[..|segs|-1], n) + [WriteCall(segs[|segs|-1], n)]
  }

  /** `others` are the calls `calls` with the writes `segs`. */
  ghost predicate Rewrites(calls: seq<Call>, others: seq<Call>, segs: seq<Segment>, n: nat) {
    SameCalls(calls, others) && Written(others) == segs && forall o <- others :: o.accepts == n
  }

  lemma ReleaseAdded(calls: seq<Call>, others: seq<Call>, segs: seq<Segment>, n: nat, calls': seq<Call>, others': seq<Call>)
    requires Rewrites(calls, others, segs, n)
    requires |calls'| == |calls| + 1 && calls'[..|calls|] == calls && calls'[|calls|].ReleaseCall?
    requires others' == others + [ReleaseCall(n)]
    ensures Rewrites(calls', others', segs, n)
  {
    assert others'[..|others'|-1] == others;
    assert forall i :: 0 <= i < |calls| ==> calls'[i] == calls[i];
  }

  lemma WriteAdded(calls: seq<Call>, others: seq<Call>, segs: seq<Segment>, n: nat, calls': seq<Call>, others': seq<Call>, s: Segment)
    requires Rewrites(calls, others, segs, n)
    requires |calls'| == |calls| + 1 && calls'[..|calls|] == calls && calls'[|calls|].WriteCall?
    requires calls'[|calls|].s.offset == s.offset && |calls'[|calls|].s.data| == |s.data|
    requires others' == others + [WriteCall(s, n)]
    ensures Rewrites(calls', others', segs + [s], n)
  {
    assert others'[..|others'|-1] == others;
    assert forall i :: 0 <= i < |calls| ==> calls'[i] == calls[i];
  }

  lemma {:induction false} RewrittenWrites(calls: seq<Call>, segs: seq<Segment>, n: nat)
    requires SameShape(Written(calls), segs)
    ensures Rewrites(calls, Rewritten(calls, segs, n), segs, n)
  {
    if calls != [] {
      var init, c := calls[..|calls|-1], calls[|calls|-1];
      if c.ReleaseCall? {
        assert Written(calls) == Written(init);
        RewrittenWrites(init, segs, n);
        ReleaseAdded(init, Rewritten(init, segs, n), segs, n, calls, Rewritten(calls, segs, n));
      } else {
        var rest, s := segs[..|segs|-1], segs[|segs|-1];
        SplitShape(Written(init), c.s, segs);
        RewrittenWrites(init, rest, n);
        WriteAdded(init, Rewritten(init, rest, n), rest, n, calls, Rewritten(calls, segs, n), s);
        assert rest + [s] == segs;
      }
    }
  }

  lemma SplitShape(a: seq<Segment>, s: Segment, b: seq<Segment>)
    requires SameShape(a + [s], b)
    ensures SameShape(a, b[..|b|-1]) && s.offset == b[|b|-1].offset && |s.data| == |b[|b|-1].data|
  {
    assert (a + [s])[|a|] == s;
    assert forall i :: 0 <= i < |a| ==> (a + [s])[i] == a[i];
  }

  lemma {:induction false} WrittenShort(calls: seq<Call>)
    ensures |Written(calls)| <= |calls|
  {
    if calls != [] {
      WrittenShort(calls[..|calls|-1]);
    }
  }

  lemma RoomyStep(st: FileState, c: Call)
    requires |st.pending| + 1 < c.accepts
    ensures Do(st, c).1 == Ok
  {
    RunsShort(st.pending);
    if c.WriteCall? {
      RunsShort(st.pending + [c.s]);
    }
  }

  lemma PendingShort(file: Bytes, calls: seq<Call>)
    requires Accepted(FileState([], file), calls)
    ensures |Run(FileState([], file), calls).pending| <= |calls|
  {
    RunFollowsPlan(file, calls);
    WrittenShort(calls);
  }

  /** A server that takes as many runs as there are calls refuses nothing. */
  lemma {:induction false} RoomyServerAccepts(file: Bytes, calls: seq<Call>, n: nat)
    requires |calls| < n && forall c <- calls :: c.accepts == n
    ensures Accepted(FileState([], file), calls)
  {
    if calls != [] {
      var init, c := calls[..|calls|-1], calls[|calls|-1];
      RoomyServerAccepts(file, init, n);
      PendingShort(file, init);
      assert c in calls;
      RoomyStep(Run(FileState([], file), init), c);
    }
  }

  lemma {:induction false} FlattenInjective(a: seq<Batch>, b: seq<Batch>)
    requires SameShapes(a, b) && Flatten(a) == Flatten(b)
    ensures a == b
  {
    if a != [] {
      var i, j := a[..|a|-1], b[..|b|-1];
      var x, y := a[|a|-1], b[|b|-1];
      assert |x| == |y| && Flatten(i) + x == Flatten(j) + y;
      assert Flatten(a)[|Flatten(i)|..] == x && Flatten(b)[|Flatten(j)|..] == y;
      assert Flatten(a)[..|Flatten(i)|] == Flatten(i) && Flatten(b)[..|Flatten(j)|] == Flatten(j);
      FlattenInjective(i, j);
    }
  }

  lemma {:induction false} FlattenShape(a: seq<Batch>, b: seq<Batch>)
    requires SameShapes(a, b)
    ensures SameShape(Flatten(a), Flatten(b))
  {
    if a != [] {
      FlattenShape(a[..|a|-1], b[..|b|-1]);
    }
  }

  /** Calls that put the given contents into the batches of `calls`. */
  lemma CallsFor(calls: seq<Call>, contents: seq<Batch>) returns (other: seq<Call>)
    requires calls != [] && calls[|calls|-1].ReleaseCall? && SameShapes(PlanOf(calls).sent, contents)
    ensures SameCalls(calls, other) && Accepted(FileState([], []), other) && PlanOf(other).sent == contents
  {
    var segs := Flatten(contents);
    PlanKeepsWrites(calls);
    FlattenShape(PlanOf(calls).sent, contents);
    assert Flatten(PlanOf(calls).sent) == Written(calls);
    other := Rewritten(calls, segs, |calls| + 1);
    RewrittenWrites(calls, segs, |calls| + 1);
    RoomyServerAccepts([], other, |calls| + 1);
    PlanShapes(calls, other);
    PlanKeepsWrites(other);
    assert SameCall(calls[|calls|-1], other[|calls|-1]);
    assert Flatten(PlanOf(other).sent) == segs;
    FlattenInjective(PlanOf(other).sent, contents);
  }

  /** Over whole runs that end in a release: for all contents, files and accepting servers the
      released file is that of plain sequential writes, exactly when at every position the batch
      that decides it has its last write there at the top. */
  lemma ReleasedFileIsSequentialIff(calls: seq<Call>)
    requires calls != [] && calls[|calls|-1].ReleaseCall?
    ensures InOrderWhereItCounts(PlanOf(calls).sent) <==>
      forall other: seq<Call>, file: Bytes :: SameCalls(calls, other) ==> ReleasedSequentially(file, other)
  {
    BatchesRefineIff(PlanOf(calls).sent);
    if InOrderWhereItCounts(PlanOf(calls).sent) {
      forall other: seq<Call>, file: Bytes | SameCalls(calls, other) ensures ReleasedSequentially(file, other) {
        assert SameCall(calls[|calls|-1], other[|calls|-1]);
        PlanShapes(calls, other);
        if Accepted(FileState([], file), other) {
          ReleasedAgrees(file, other);
          assert BatchesAgree(file, PlanOf(other).sent);
        }
      }
    } else {
      var k: nat, p: nat :| Decides(PlanOf(calls).sent, k, p) && !InOrderAt(PlanOf(calls).sent[k], p);
      var contents := OutOfOrderShows(PlanOf(calls).sent, k, p);
      var other := CallsFor(calls, contents);
      assert SameCall(calls[|calls|-1], other[|calls|-1]);
      ReleasedAgrees([], other);
      assert !ReleasedSequentially([], other);
    }
  }

  // ---------------------------------------------------------------------------
  // A sufficient condition on the writes alone
  // ---------------------------------------------------------------------------

  lemma {:induction false} BatchInFlatten(batches: seq<Batch>, k: nat)
    requires k < |batches| && OverlapsArriveInOrder(Flatten(batches))
    ensures OverlapsArriveInOrder(batches[k])
  {
    var init, b := batches[..|batches|-1], batches[|batches|-1];
    var all := Flatten(batches);
    assert all == Flatten(init) + b;
    if k == |batches|-1 {
      forall i, j | 0 <= i < j < |b| && Overlap(b[i], b[j]) ensures b[i].offset <= b[j].offset {
        assert all[|Flatten(init)| + i] == b[i] && all[|Flatten(init)| + j] == b[j];
      }
    } else {
      forall i, j | 0 <= i < j < |Flatten(init)| && Overlap(Flatten(init)[i], Flatten(init)[j])
        ensures Flatten(init)[i].offset <= Flatten(init)[j].offset
      {
        assert all[i] == Flatten(init)[i] && all[j] == Flatten(init)[j];
      }
      BatchInFlatten(init, k);
    }
  }

  /** In particular overlapping writes that come in offset order. */
  lemma OrderedWritesAreSequential(file: Bytes, calls: seq<Call>)
    requires Accepted(FileState([], file), calls)
    requires calls != [] && calls[|calls|-1].ReleaseCall?
    requires OverlapsArriveInOrder(Written(calls))
    ensures Run(FileState([], file), calls) == FileState([], Apply(file, Written(calls)))
  {
    var sent := PlanOf(calls).sent;
    PlanKeepsWrites(calls);
    assert Flatten(sent) == Written(calls);
    forall k: nat, p: nat | Decides(sent, k, p) ensures InOrderAt(sent[k], p) {
      BatchInFlatten(sent, k);
      PairwiseOrderSuffices(sent[k]);
    }
    InOrderAgrees(file, sent);
    ReleasedAgrees(file, calls);
  }

  // ---------------------------------------------------------------------------
  // Refused flushes
  // ---------------------------------------------------------------------------

  lemma {:induction false} ExtentBelow(segs: seq<Segment>, q: nat)
    requires forall s <- segs :: s.End() <= q
    ensures Extent(segs) <= q
  {
    if segs != [] {
      assert forall s <- segs[..|segs|-1] :: s in segs;
      ExtentBelow(segs[..|segs|-1], q);
    }
  }

  lemma {:induction false} NoneBelow(segs: seq<Segment>, p: nat)
    requires forall s <- segs :: p < s.offset
    ensures ByteAt(segs, p) == None
  {
    CoveredIffByte(segs, p);
  }

  lemma CutBelow(front: seq<Segment>, rest: seq<Segment>, p: nat)
    requires forall s <- rest :: p < s.offset
    ensures ByteAt(front + rest, p) == ByteAt(front, p)
  {
    NoneBelow(rest, p);
    ByteAtConcat(front, rest, p);
  }

  lemma CutRuns(runs: seq<Segment>, k: nat, p: nat)
    requires Separated(runs) && k < |runs|
    ensures ByteAt(runs[..k], p) == if p < runs[k].offset then ByteAt(runs, p) else None
  {
    if p < runs[k].offset {
      assert forall i :: k < i < |runs| ==> runs[k].End() < runs[i].offset;
      CutBelow(runs[..k], runs[k..], p);
      assert runs[..k] + runs[k..] == runs;
    } else {
      ExtentBelow(runs[..k], runs[k].offset);
      BeyondExtent(runs[..k], p);
    }
  }

  /** A refused flush has emptied the buffer all the same.  The server's file is that of the
      whole flush below the start of the refused run, and untouched from there on. */
  lemma RefusedFlushLosesTail(st: FileState, accepts: nat)
    requires accepts < |Runs(st.pending)|
    ensures Flush(st, accepts).1 == Eio && Flush(st, accepts).0.pending == []
    ensures var cut, file := Runs(st.pending)[accepts].offset, Flush(st, accepts).0.file;
            && |file| <= Max(|st.file|, cut)
            && forall p: nat :: p < |file| ==>
                 file[p] == if p < cut then Visible(st.file, ByteAt(StableSort(st.pending), p), p) else st.file[p]
  {
    var runs := Runs(st.pending);
    var file := Flush(st, accepts).0.file;
    RunsCorrect(st.pending);
    ApplyPointwise(st.file, runs[..accepts]);
    ExtentBelow(runs[..accepts], runs[accepts].offset);
    forall p: nat | p < |file|
      ensures file[p] == if p < runs[accepts].offset then Visible(st.file, ByteAt(StableSort(st.pending), p), p) else st.file[p]
    {
      CutRuns(runs, accepts, p);
    }
  }
}
