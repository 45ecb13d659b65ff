/**
 StreamFS (crates/racfs-plugin-streamfs/src/fs): bounded message streams.  A stream maps ids to
 messages; writes evict the lowest ids until at most `buffer_size` messages remain.
 Messages are stored uncompressed.
 */
module StreamFs {
  import opened Common
  import opened Blocks
  import opened Segments

  type Messages = map<nat, Bytes>

  datatype Stream = Stream(messages: Messages, head: nat, tail: nat)

  const NEW_STREAM := Stream(map[], 1, 1)

  // ---------------------------------------------------------------------------
  // The lowest key
  // ---------------------------------------------------------------------------

  predicate Lowest(m: Messages, k: nat) {
    k in m && forall j <- m :: k <= j
  }

  lemma {:induction false} LowestExists(m: Messages, some: nat)
    requires some in m
    ensures exists k: nat :: Lowest(m, k)
    decreases some
  {
    if !Lowest(m, some) {
      var lower: nat :| lower in m && lower < some;
      LowestExists(m, lower);
    }
  }

  ghost function First(m: Messages): (k: nat)
    requires m != map[]
    ensures Lowest(m, k)
  {
    var some :| some in m;
    LowestExists(m, some);
    var k: nat :| Lowest(m, k);
    k
  }

  // ---------------------------------------------------------------------------
  // Operations
  // ---------------------------------------------------------------------------

  /** One turn of the eviction loop: drop the lowest message and point `head` past it. */
  ghost function EvictOne(s: Stream): (r: Stream)
    requires s.messages != map[]
    ensures |r.messages| == |s.messages| - 1
  {
    var k := First(s.messages);
    SmallerMap(s.messages, k);
    Stream(s.messages - {k}, k + 1, s.tail)
  }

  ghost function Evict(s: Stream, size: nat): Stream
    decreases |s.messages|
  {
    if |s.messages| <= size then s else Evict(EvictOne(s), size)
  }

  lemma FirstIs(m: Messages, k: nat)
    requires Lowest(m, k)
    ensures m != map[] && First(m) == k
  {
  }

  lemma FirstExists(m: Messages)
    requires |m| > 0
    ensures exists k: nat :: Lowest(m, k)
  {
    assert Lowest(m, First(m));
  }

  /** One turn of the eviction loop leaves its outcome the same. */
  lemma EvictTurn(s: Stream, size: nat, k: nat, s': Stream)
    requires |s.messages| > size && Lowest(s.messages, k)
    requires s' == Stream(s.messages - {k}, k + 1, s.tail)
    ensures Evict(s, size) == Evict(s', size)
    ensures |s'.messages| < |s.messages|
  {
    FirstIs(s.messages, k);
    SmallerMap(s.messages, k);
    assert EvictOne(s) == s';
  }

  ghost function AppendTail(s: Stream, data: Bytes, size: nat): Stream {
    Evict(Stream(s.messages[s.tail := data], s.head, s.tail + 1), size)
  }

  /** A message after a positional write; a missing message starts empty. */
  function Patched(s: Stream, id: nat, offset: nat, data: Bytes): Bytes {
    WriteAt(if id in s.messages then s.messages[id] else [], Segment(offset, data))
  }

  function Stored(s: Stream, id: nat, data: Bytes): Stream {
    Stream(s.messages[id := data], s.head, if id >= s.tail then id + 1 else s.tail)
  }

  ghost function WriteMessage(s: Stream, id: nat, offset: nat, data: Bytes, size: nat): Stream {
    Evict(Stored(s, id, Patched(s, id, offset, data)), size)
  }

  class StreamObject {
    var messages: Messages
    var head: nat
    var tail: nat
    const bufferSize: nat

    function View(): Stream
      reads this
    {
      Stream(messages, head, tail)
    }

    constructor (bufferSize: nat)
      ensures View() == NEW_STREAM && this.bufferSize == bufferSize
    {
      this.bufferSize := bufferSize;
      messages, head, tail := map[], 1, 1;
    }

    /** The eviction loop (write.rs:117-122). */
    method EvictOldest()
      modifies this`messages, this`head
      ensures View() == Evict(old(View()), bufferSize)
    {
      ghost var end := Evict(View(), bufferSize);
      while |messages| > bufferSize
        invariant Evict(View(), bufferSize) == end
        decreases |messages|
      {
        ghost var before := View();
        FirstExists(messages);
        var first :| Lowest(messages, first);
        messages := messages - {first};
        head := first + 1;
        EvictTurn(before, bufferSize, first, View());
      }
    }

    /** `write` on `tail` (write.rs:103-125). */
    method Append(data: Bytes)
      modifies this
      ensures View() == AppendTail(old(View()), data, bufferSize) == Do(old(View()), AppendCall(data), bufferSize)
    {
      var id := tail;
      messages := messages[id := data];
      tail := id + 1;
      EvictOldest();
    }

    /** `write` on `data/<id>.msg` (write.rs:57-102). */
    method Write(id: nat, offset: nat, data: Bytes)
      modifies this
      ensures View() == WriteMessage(old(View()), id, offset, data, bufferSize)
      ensures View() == Do(old(View()), WriteCall(id, offset, data), bufferSize)
    {
      var msg := if id in messages then messages[id] else [];
      msg := WriteAt(msg, Segment(offset, data));
      messages := messages[id := msg];
      if id >= tail {
        tail := id + 1;
      }
      EvictOldest();
    }

    /** `create` on `data/<id>.msg` (write.rs:14-29): no eviction. */
    method Create(id: nat)
      modifies this
      ensures View() == Stored(old(View()), id, []) == Do(old(View()), CreateCall(id), bufferSize)
    {
      messages := messages[id := []];
      if id >= tail {
        tail := id + 1;
      }
    }

    /** `remove` on `data/<id>.msg` (dir.rs:96-111). */
    method Remove(id: nat) returns (found: bool)
      modifies this`messages
      ensures found <==> id in old(messages)
      ensures View() == Do(old(View()), RemoveCall(id), bufferSize)
      ensures messages == old(messages) - {id}
    {
      found := id in messages;
      messages := messages - {id};
    }
  }

  // ---------------------------------------------------------------------------
  // Eviction
  // ---------------------------------------------------------------------------

  /** What remains is unchanged and above everything dropped. */
  ghost predicate KeepsNewest(s: Stream, r: Stream) {
    && r.tail == s.tail
    && (forall k <- r.messages :: k in s.messages && r.messages[k] == s.messages[k])
    && (forall k, j :: k in r.messages && j in s.messages && j !in r.messages ==> j < k)
  }

  lemma KeepsNewestTrans(a: Stream, b: Stream, c: Stream)
    requires KeepsNewest(a, b) && KeepsNewest(b, c)
    ensures KeepsNewest(a, c)
  {
    forall k, j | k in c.messages && j in a.messages && j !in c.messages ensures j < k {
      assert k in b.messages;
    }
  }

  lemma EvictOneKeepsNewest(s: Stream)
    requires s.messages != map[]
    ensures KeepsNewest(s, EvictOne(s))
  {
    assert Lowest(s.messages, First(s.messages));
  }

  /** Eviction keeps the newest messages, as many as fit, unchanged. */
  lemma {:induction false} EvictKeepsNewest(s: Stream, size: nat)
    ensures KeepsNewest(s, Evict(s, size))
    ensures |Evict(s, size).messages| == if |s.messages| <= size then |s.messages| else size
    decreases |s.messages|
  {
    if |s.messages| > size {
      EvictOneKeepsNewest(s);
      EvictKeepsNewest(EvictOne(s), size);
      KeepsNewestTrans(s, EvictOne(s), Evict(s, size));
    }
  }

  // ---------------------------------------------------------------------------
  // Runs of tail appends
  // ---------------------------------------------------------------------------

  ghost function Appends(datas: seq<Bytes>, size: nat): Stream {
    if datas == [] then NEW_STREAM else AppendTail(Appends(datas[..|datas|-1], size), datas[|datas|-1], size)
  }

  /** The messages are the appended ones from number `lo` on, under their numbers. */
  ghost predicate Window(m: Messages, datas: seq<Bytes>, lo: nat) {
    && 1 <= lo <= |datas| + 1
    && (forall k: nat :: k in m <==> lo <= k < |datas| + 1)
    && (forall k: nat :: k in m ==> m[k] == datas[k - 1])
  }

  /** The number of the oldest message kept out of `n`. */
  function Oldest(n: nat, size: nat): nat {
    if n <= size then 1 else n + 1 - size
  }

  /** The last `min(n, size)` of the appended messages under consecutive ids. */
  ghost predicate HoldsLast(s: Stream, datas: seq<Bytes>, size: nat) {
    s.tail == |datas| + 1 && s.head == Oldest(|datas|, size) && Window(s.messages, datas, Oldest(|datas|, size))
  }

  lemma WindowGrows(m: Messages, datas: seq<Bytes>, lo: nat, data: Bytes)
    requires Window(m, datas, lo)
    ensures Window(m[|datas| + 1 := data], datas + [data], lo)
    ensures |m[|datas| + 1 := data]| == |datas| + 2 - lo
  {
    BlockSize(m[|datas| + 1 := data], lo, |datas| + 2);
  }

  lemma WindowSlides(m: Messages, datas: seq<Bytes>, lo: nat)
    requires Window(m, datas, lo) && lo <= |datas|
    ensures m != map[] && First(m) == lo && Window(m - {lo}, datas, lo + 1)
  {
    assert Lowest(m, lo);
    FirstIs(m, lo);
  }

  lemma EvictOnce(s: Stream, size: nat)
    requires |s.messages| == size + 1
    ensures s.messages != map[] && Evict(s, size) == EvictOne(s)
  {
    assert Evict(s, size) == Evict(EvictOne(s), size);
  }

  lemma AppendFits(s: Stream, datas: seq<Bytes>, data: Bytes, size: nat)
    requires HoldsLast(s, datas, size) && |datas| < size
    ensures HoldsLast(AppendTail(s, data, size), datas + [data], size)
  {
    WindowGrows(s.messages, datas, 1, data);
    assert |s.messages[s.tail := data]| <= size;
  }

  lemma AppendSlides(s: Stream, datas: seq<Bytes>, data: Bytes, size: nat)
    requires HoldsLast(s, datas, size) && |datas| >= size
    ensures HoldsLast(AppendTail(s, data, size), datas + [data], size)
  {
    var lo := Oldest(|datas|, size);
    var grown := Stream(s.messages[s.tail := data], s.head, s.tail + 1);
    WindowGrows(s.messages, datas, lo, data);
    WindowSlides(grown.messages, datas + [data], lo);
    EvictOnce(grown, size);
  }

  /** For every run of appends and every buffer size the stream is a ring buffer: it holds
      exactly the last `min(n, size)` messages, and `head` is `max(1, tail - size)`. */
  lemma {:induction false} AppendsHoldLast(datas: seq<Bytes>, size: nat)
    ensures HoldsLast(Appends(datas, size), datas, size)
  {
    if datas != [] {
      var init, data := datas[..|datas|-1], datas[|datas|-1];
      assert datas == init + [data];
      AppendsHoldLast(init, size);
      if |init| < size {
        AppendFits(Appends(init, size), init, data, size);
      } else {
        AppendSlides(Appends(init, size), init, data, size);
      }
    }
  }

  // ---------------------------------------------------------------------------
  // Mixed runs
  // ---------------------------------------------------------------------------

  datatype Call =
    | AppendCall(data: Bytes)
    | WriteCall(id: nat, offset: nat, data: Bytes)
    | CreateCall(id: nat)
    | RemoveCall(id: nat)

  ghost function Do(s: Stream, c: Call, size: nat): Stream {
    match c
    case AppendCall(data) => AppendTail(s, data, size)
    case WriteCall(id, offset, data) => WriteMessage(s, id, offset, data, size)
    case CreateCall(id) => Stored(s, id, [])
    case RemoveCall(id) => s.(messages := s.messages - {id})
  }

  ghost function Run(calls: seq<Call>, size: nat): Stream {
    if calls == [] then NEW_STREAM else Do(Run(calls[..|calls|-1], size), calls[|calls|-1], size)
  }

  ghost predicate BelowTail(s: Stream) {
    forall k <- s.messages :: k < s.tail
  }

  lemma EvictBelowTail(s: Stream, size: nat)
    requires BelowTail(s)
    ensures BelowTail(Evict(s, size)) && |Evict(s, size).messages| <= size
  {
    EvictKeepsNewest(s, size);
  }

  lemma StepBelowTail(s: Stream, c: Call, size: nat)
    requires BelowTail(s)
    ensures BelowTail(Do(s, c, size))
    ensures c.AppendCall? || c.WriteCall? ==> |Do(s, c, size).messages| <= size
  {
    match c
    case AppendCall(data) => EvictBelowTail(Stream(s.messages[s.tail := data], s.head, s.tail + 1), size);
    case WriteCall(id, offset, data) => EvictBelowTail(Stored(s, id, Patched(s, id, offset, data)), size);
    case CreateCall(_) =>
    case RemoveCall(_) =>
  }

  /** With message writes, creates and removes mixed in, every key stays below `tail`, and
      after each write at most `size` messages remain. */
  lemma {:induction false} MixedRun(calls: seq<Call>, size: nat)
    ensures BelowTail(Run(calls, size))
    ensures calls != [] && (calls[|calls|-1].AppendCall? || calls[|calls|-1].WriteCall?) ==>
      |Run(calls, size).messages| <= size
  {
    if calls != [] {
      MixedRun(calls[..|calls|-1], size);
      StepBelowTail(Run(calls[..|calls|-1], size), calls[|calls|-1], size);
    }
  }

  // ---------------------------------------------------------------------------
  // What messages hold, and where head and tail stand
  // ---------------------------------------------------------------------------

  /** A write at an offset puts its bytes there, keeps the message's other bytes and fills a gap with
      zeros; every other message that survives is as it was. */
  lemma WriteHolds(s: Stream, id: nat, offset: nat, data: Bytes, size: nat)
    ensures var s' := WriteMessage(s, id, offset, data, size);
            && (id in s'.messages ==> Overwritten(if id in s.messages then s.messages[id] else [], offset, data, s'.messages[id]))
            && forall k <- s'.messages :: k != id ==> k in s.messages && s'.messages[k] == s.messages[k]
  {
    var patched := Patched(s, id, offset, data);
    PatchOverwrites(s, id, offset, data);
    EvictKeepsNewest(Stored(s, id, patched), size);
  }

  /** The bytes of `r`: the data from the offset on, the old ones elsewhere, zeros in a gap. */
  ghost predicate Overwritten(before: Bytes, offset: nat, data: Bytes, r: Bytes) {
    && |r| == Max(|before|, offset + |data|)
    && forall p: nat :: p < |r| ==>
         r[p] == if offset <= p < offset + |data| then data[p - offset] else if p < |before| then before[p] else 0
  }

  lemma PatchOverwrites(s: Stream, id: nat, offset: nat, data: Bytes)
    ensures Overwritten(if id in s.messages then s.messages[id] else [], offset, data, Patched(s, id, offset, data))
  {
  }

  /** The message just written survives if the buffer has room for it and for all with a higher id. */
  lemma WrittenSurvives(s: Stream, id: nat, offset: nat, data: Bytes, size: nat)
    requires size > 0 && forall k <- s.messages :: k <= id
    ensures id in WriteMessage(s, id, offset, data, size).messages
  {
    var stored := Stored(s, id, Patched(s, id, offset, data));
    var s' := Evict(stored, size);
    EvictKeepsNewest(stored, size);
    assert id in stored.messages;
    SmallerMap(stored.messages, id);
    assert |s'.messages| > 0 && s'.messages != map[];
    var k :| k in s'.messages;
    assert k in stored.messages && k <= id;
  }

  /** `create` empties the message and leaves all others alone. */
  lemma CreateEmpties(s: Stream, id: nat)
    ensures Stored(s, id, []).messages == s.messages[id := []] && Stored(s, id, []).head == s.head
    ensures id < Stored(s, id, []).tail && s.tail <= Stored(s, id, []).tail
    ensures Stored(s, id, []).tail == s.tail || Stored(s, id, []).tail == id + 1
  {
  }

  /** Eviction leaves `head` alone if it drops nothing, and else just past the highest id dropped. */
  ghost predicate HeadPastDropped(s: Stream, r: Stream) {
    if |r.messages| == |s.messages| then r.head == s.head
    else exists k: nat :: HighestDropped(s, r, k) && r.head == k + 1
  }

  ghost predicate HighestDropped(s: Stream, r: Stream, k: nat) {
    k in s.messages && k !in r.messages && forall j <- s.messages :: j !in r.messages ==> j <= k
  }

  lemma HeadPastOne(s: Stream)
    requires s.messages != map[]
    ensures HeadPastDropped(s, EvictOne(s))
  {
    SmallerMap(s.messages, First(s.messages));
    assert HighestDropped(s, EvictOne(s), First(s.messages));
  }

  lemma {:induction false} EvictMovesHead(s: Stream, size: nat)
    ensures HeadPastDropped(s, Evict(s, size))
    decreases |s.messages|
  {
    if |s.messages| > size {
      var one, end := EvictOne(s), Evict(s, size);
      HeadPastOne(s);
      EvictKeepsNewest(s, size);
      EvictKeepsNewest(one, size);
      if |one.messages| > size {
        EvictMovesHead(one, size);
        var k: nat :| HighestDropped(one, end, k) && end.head == k + 1;
        assert Lowest(s.messages, First(s.messages));
        assert HighestDropped(s, end, k);
      } else {
        assert end == one;
      }
    }
  }
}
