/**
 QueueFS (crates/racfs-plugin-queuefs/src/fs): a message queue behind files.  Messages live in
 a `BTreeMap` keyed by their zero-padded id, so `head` is the first unacknowledged key in
 string order.  The map is modelled as the list of its entries in key order.
 */
module QueueFs {
  import opened Common
  import opened Decimal

  datatype Message = Message(id: string, data: Bytes, acknowledged: bool)

  datatype Queue = Queue(nextId: nat, messages: seq<Message>)

  // ---------------------------------------------------------------------------
  // The ordered map
  // ---------------------------------------------------------------------------

  /** Strictly increasing keys. */
  ghost predicate Ordered(ms: seq<Message>) {
    |ms| > 1 ==> Ordered(ms[..|ms|-1]) && Less(ms[|ms|-2].id, ms[|ms|-1].id)
  }

  /** `BTreeMap::insert`. */
  function Insert(ms: seq<Message>, m: Message): seq<Message> {
    if ms == [] || Less(ms[|ms|-1].id, m.id) then ms + [m]
    else if ms[|ms|-1].id == m.id then ms[..|ms|-1] + [m]
    else Insert(ms[..|ms|-1], m) + [ms[|ms|-1]]
  }

  lemma PushOrdered(ms: seq<Message>, m: Message)
    requires Ordered(ms) && (ms == [] || Less(ms[|ms|-1].id, m.id))
    ensures Ordered(ms + [m])
  {
    assert (ms + [m])[..|ms|] == ms;
  }

  lemma {:induction false} InsertOrdered(ms: seq<Message>, m: Message)
    requires Ordered(ms)
    ensures Insert(ms, m) != [] && Ordered(Insert(ms, m))
    ensures var last := Insert(ms, m)[|Insert(ms, m)|-1].id;
            last == m.id || (ms != [] && last == ms[|ms|-1].id)
  {
    if ms == [] || Less(ms[|ms|-1].id, m.id) {
      PushOrdered(ms, m);
    } else {
      var rest, last := ms[..|ms|-1], ms[|ms|-1];
      if last.id == m.id {
        PushOrdered(rest, m);
      } else {
        LessTotal(last.id, m.id);
        InsertOrdered(rest, m);
        PushOrdered(Insert(rest, m), last);
      }
    }
  }

  /** An insertion replaces the entry with the same key, if any, and keeps all others. */
  lemma {:induction false} InsertMembers(ms: seq<Message>, m: Message, x: Message)
    requires Ordered(ms)
    ensures x in Insert(ms, m) <==> x == m || (x in ms && x.id != m.id)
  {
    if ms != [] {
      var rest, last := ms[..|ms|-1], ms[|ms|-1];
      if Less(last.id, m.id) {
        OthersBelow(ms, m.id);
      } else if last.id == m.id {
        OthersBelow(rest, m.id);
      } else {
        InsertMembers(rest, m, x);
      }
      assert x in ms <==> x in rest || x == last;
    }
  }

  lemma OthersBelow(ms: seq<Message>, id: string)
    requires Ordered(ms) && (ms == [] || Less(ms[|ms|-1].id, id))
    ensures forall x <- ms :: x.id != id
  {
    forall x | x in ms ensures x.id != id {
      var i :| 0 <= i < |ms| && ms[i] == x;
      if i < |ms|-1 {
        OrderedPairwise(ms, i, |ms|-1);
        LessTransitive(x.id, ms[|ms|-1].id, id);
      }
      LessIrreflexive(id);
    }
  }

  lemma {:induction false} OrderedPairwise(ms: seq<Message>, i: nat, j: nat)
    requires Ordered(ms) && i < j < |ms|
    ensures Less(ms[i].id, ms[j].id)
  {
    if j < |ms|-1 {
      OrderedPairwise(ms[..|ms|-1], i, j);
    } else if i < j-1 {
      OrderedPairwise(ms[..|ms|-1], i, j-1);
      LessTransitive(ms[i].id, ms[j-1].id, ms[j].id);
    }
  }

  // ---------------------------------------------------------------------------
  // Operations
  // ---------------------------------------------------------------------------

  function Enqueue(q: Queue, data: Bytes): Queue {
    Queue(q.nextId + 1, Insert(q.messages, Message(Pad6(q.nextId), data, false)))
  }

  /** Position of the entry with this key at or after `i`, or the length. */
  function IndexOf(ms: seq<Message>, id: string, i: nat): (k: nat)
    requires i <= |ms|
    ensures i <= k <= |ms|
    ensures k < |ms| ==> ms[k].id == id
    ensures forall j :: i <= j < k ==> ms[j].id != id
    decreases |ms| - i
  {
    if i < |ms| && ms[i].id != id then IndexOf(ms, id, i + 1) else i
  }

  /** Acknowledging marks the entry; it stays in the map.  An unknown id is an error. */
  function Ack(q: Queue, id: string): Option<Queue> {
    var k := IndexOf(q.messages, id, 0);
    if k < |q.messages| then Some(q.(messages := q.messages[k := q.messages[k].(acknowledged := true)])) else None
  }

  /** Position of the first unacknowledged message at or after `i`, or the length. */
  function FirstUnacked(ms: seq<Message>, i: nat): (k: nat)
    requires i <= |ms|
    ensures i <= k <= |ms|
    ensures k < |ms| ==> !ms[k].acknowledged
    ensures forall j :: i <= j < k ==> ms[j].acknowledged
    decreases |ms| - i
  {
    if i < |ms| && ms[i].acknowledged then FirstUnacked(ms, i + 1) else i
  }

  function Head(q: Queue): Option<string> {
    var k := FirstUnacked(q.messages, 0);
    if k < |q.messages| then Some(q.messages[k].id) else None
  }

  /** The contents served for an id: acknowledged messages are no longer found. */
  function Lookup(q: Queue, id: string): Option<Bytes> {
    var k := IndexOf(q.messages, id, 0);
    if k < |q.messages| && !q.messages[k].acknowledged then Some(q.messages[k].data) else None
  }

  function Pending(ms: seq<Message>): nat {
    if ms == [] then 0 else Pending(ms[..|ms|-1]) + if ms[|ms|-1].acknowledged then 0 else 1
  }

  class QueueObject {
    var nextId: nat
    var messages: seq<Message>

    function View(): Queue
      reads this
    {
      Queue(nextId, messages)
    }

    constructor ()
      ensures View() == Queue(1, [])
    {
      nextId, messages := 1, [];
    }

    /** `enqueue` (mod.rs:64-81). */
    method DoEnqueue(data: Bytes) returns (id: string)
      requires Ordered(messages)
      modifies this
      ensures Ordered(messages) && View() == Enqueue(old(View()), data) && id == Pad6(old(nextId))
    {
      id := Pad6(nextId);
      nextId := nextId + 1;
      InsertOrdered(messages, Message(id, data, false));
      messages := Insert(messages, Message(id, data, false));
    }

    /** `dequeue` (mod.rs:83-89). */
    method DoAck(id: string) returns (found: bool)
      modifies this
      ensures found <==> Ack(old(View()), id).Some?
      ensures View() == if found then Ack(old(View()), id).value else old(View())
    {
      var k := IndexOf(messages, id, 0);
      found := k < |messages|;
      if found {
        messages := messages[k := messages[k].(acknowledged := true)];
      }
    }

    /** `get_next_unacknowledged` (mod.rs:100-107). */
    method GetNextUnacknowledged() returns (r: Option<string>)
      ensures r == Head(View())
    {
      for i := 0 to |messages|
        invariant FirstUnacked(messages, 0) == FirstUnacked(messages, i)
      {
        if !messages[i].acknowledged {
          return Some(messages[i].id);
        }
      }
      r := None;
    }

    /** `get_count` (mod.rs:109-111). */
    method GetCount() returns (n: nat)
      ensures n == Pending(messages)
    {
      n := 0;
      for i := 0 to |messages|
        invariant n == Pending(messages[..i])
      {
        assert messages[..i+1][..i] == messages[..i];
        if !messages[i].acknowledged {
          n := n + 1;
        }
      }
      assert messages[..|messages|] == messages;
    }
  }

  // ---------------------------------------------------------------------------
  // One consumer, any number of producers
  // ---------------------------------------------------------------------------

  const LIMIT: nat := 1_000_000

  /** Where the consumer's head-read-acknowledge loop stands. */
  datatype Consumer = Idle | Seen(id: string) | Got(id: string, data: Bytes)

  datatype World = World(queue: Queue, consumer: Consumer, sent: seq<Bytes>, received: seq<Bytes>)

  datatype Step = Produce(data: Bytes) | ReadHead | ReadMessage | Acknowledge

  /** A consumer step that does not fit its position changes nothing. */
  function Next(w: World, step: Step): World {
    match step
    case Produce(data) => w.(queue := Enqueue(w.queue, data), sent := w.sent + [data])
    case ReadHead =>
      if w.consumer.Idle? && Head(w.queue).Some? then w.(consumer := Seen(Head(w.queue).value)) else w
    case ReadMessage =>
      if w.consumer.Seen? && Lookup(w.queue, w.consumer.id).Some?
      then w.(consumer := Got(w.consumer.id, Lookup(w.queue, w.consumer.id).value)) else w
    case Acknowledge =>
      if w.consumer.Got? && Ack(w.queue, w.consumer.id).Some?
      then World(Ack(w.queue, w.consumer.id).value, Idle, w.sent, w.received + [w.consumer.data]) else w
  }

  function Run(steps: seq<Step>): World {
    if steps == [] then World(Queue(1, []), Idle, [], []) else Next(Run(steps[..|steps|-1]), steps[|steps|-1])
  }

  /** Entry `i` is the `i`-th message sent, acknowledged exactly if it has been received. */
  ghost predicate Tracks(w: World) {
    && w.queue.nextId == |w.sent| + 1
    && |w.queue.messages| == |w.sent|
    && |w.received| <= |w.sent|
    && forall i :: 0 <= i < |w.sent| ==>
         w.queue.messages[i].data == w.sent[i] && w.queue.messages[i].acknowledged == (i < |w.received|)
  }

  ghost predicate DistinctIds(ms: seq<Message>) {
    forall i, j :: 0 <= i < j < |ms| ==> ms[i].id != ms[j].id
  }

  /** The consumer holds nothing, or the oldest message it has not acknowledged. */
  ghost predicate Inv(w: World) {
    && Tracks(w) && DistinctIds(w.queue.messages)
    && w.received == w.sent[..|w.received|]
    && (!w.consumer.Idle? ==> |w.received| < |w.sent| && w.consumer.id == w.queue.messages[|w.received|].id)
    && (w.consumer.Got? ==> w.consumer.data == w.sent[|w.received|])
  }

  /** Ids are the positions, printed. */
  ghost predicate Numbered(ms: seq<Message>) {
    forall i :: 0 <= i < |ms| ==> ms[i].id == Pad6(i + 1)
  }

  lemma NumberedIsDistinct(ms: seq<Message>)
    requires Numbered(ms) && |ms| < LIMIT
    ensures DistinctIds(ms)
  {
    forall i, j | 0 <= i < j < |ms| ensures ms[i].id != ms[j].id {
      if Pad6(i + 1) == Pad6(j + 1) {
        Pad6Injective(i + 1, j + 1);
      }
    }
  }

  lemma HeadIsNext(w: World)
    requires Tracks(w)
    ensures Head(w.queue) == if |w.received| < |w.sent| then Some(w.queue.messages[|w.received|].id) else None
  {
    var k := FirstUnacked(w.queue.messages, 0);
    assert |w.received| < |w.sent| ==> !w.queue.messages[|w.received|].acknowledged;
    assert k == |w.received|;
  }

  lemma InsertLast(ms: seq<Message>, m: Message)
    requires ms == [] || Less(ms[|ms|-1].id, m.id)
    ensures Insert(ms, m) == ms + [m]
  {
  }

  lemma ProduceKeeps(w: World, data: Bytes)
    requires Inv(w) && Numbered(w.queue.messages) && |w.sent| + 1 < LIMIT
    ensures Inv(Next(w, Produce(data))) && Numbered(Next(w, Produce(data)).queue.messages)
  {
    var ms, m := w.queue.messages, Message(Pad6(w.queue.nextId), data, false);
    if ms != [] {
      Pad6Monotone(|ms|, |ms| + 1);
    }
    InsertLast(ms, m);
    assert Next(w, Produce(data)).queue.messages == ms + [m];
    NumberedIsDistinct(ms + [m]);
  }

  lemma ReadKeeps(w: World)
    requires Inv(w)
    ensures Inv(Next(w, ReadHead)) && Inv(Next(w, ReadMessage))
  {
    HeadIsNext(w);
    if w.consumer.Seen? {
      OwnId(w.queue.messages, |w.received|);
    }
  }

  lemma OwnId(ms: seq<Message>, i: nat)
    requires DistinctIds(ms) && i < |ms|
    ensures IndexOf(ms, ms[i].id, 0) == i
  {
    var k := IndexOf(ms, ms[i].id, 0);
    assert k <= i;
  }

  lemma AckKeeps(w: World)
    requires Inv(w)
    ensures Inv(Next(w, Acknowledge))
    ensures Numbered(w.queue.messages) ==> Numbered(Next(w, Acknowledge).queue.messages)
  {
    if w.consumer.Got? {
      var ms, k := w.queue.messages, |w.received|;
      OwnId(ms, k);
      var w' := Next(w, Acknowledge);
      assert w'.queue.messages == ms[k := ms[k].(acknowledged := true)];
      assert w'.received == w.sent[..k] + [w.sent[k]] == w.sent[..k+1];
      SameIds(ms, w'.queue.messages);
    }
  }

  lemma SameIds(ms: seq<Message>, ms': seq<Message>)
    requires |ms'| == |ms| && forall i :: 0 <= i < |ms| ==> ms'[i].id == ms[i].id
    requires DistinctIds(ms)
    ensures DistinctIds(ms') && (Numbered(ms) ==> Numbered(ms'))
  {
  }

  lemma StepKeeps(w: World, step: Step)
    requires Inv(w) && Numbered(w.queue.messages) && (step.Produce? ==> |w.sent| + 1 < LIMIT)
    ensures Inv(Next(w, step)) && Numbered(Next(w, step).queue.messages)
    ensures |Next(w, step).sent| == |w.sent| + if step.Produce? then 1 else 0
  {
    match step
    case Produce(data) => ProduceKeeps(w, data);
    case ReadHead => ReadKeeps(w);
    case ReadMessage => ReadKeeps(w);
    case Acknowledge => AckKeeps(w);
  }

  function Produced(steps: seq<Step>): nat {
    if steps == [] then 0 else Produced(steps[..|steps|-1]) + if steps[|steps|-1].Produce? then 1 else 0
  }

  lemma {:induction false} RunKeeps(steps: seq<Step>)
    requires Produced(steps) < LIMIT
    ensures Inv(Run(steps)) && Numbered(Run(steps).queue.messages) && |Run(steps).sent| == Produced(steps)
  {
    if steps != [] {
      var init, step := steps[..|steps|-1], steps[|steps|-1];
      RunKeeps(init);
      StepKeeps(Run(init), step);
    }
  }

  /** The consumer has received a prefix of what was sent, and `head` names the oldest message
      it has not. */
  ghost predicate HeadIsOldest(w: World) {
    && w.received <= w.sent
    && Head(w.queue) == (if |w.received| < |w.sent| then Some(Pad6(|w.received| + 1)) else None)
  }

  /** Exactly once, in order: under any interleaving with fewer than a million messages the
      consumer has received a prefix of what was sent, and `head` names the oldest message
      it has not acknowledged. */
  lemma DeliveredInOrder(steps: seq<Step>)
    requires Produced(steps) < LIMIT
    ensures HeadIsOldest(Run(steps))
  {
    RunKeeps(steps);
    HeadIsNext(Run(steps));
  }

  /** Progress: from rest, one round of the loop delivers the next message. */
  lemma RoundDelivers(w: World)
    requires Inv(w) && w.consumer.Idle? && |w.received| < |w.sent|
    ensures var w' := Next(Next(Next(w, ReadHead), ReadMessage), Acknowledge);
            w'.consumer.Idle? && w'.received == w.sent[..|w.received| + 1]
  {
    HeadIsNext(w);
    OwnId(w.queue.messages, |w.received|);
    assert w.sent[..|w.received| + 1] == w.sent[..|w.received|] + [w.sent[|w.received|]];
  }

  // ---------------------------------------------------------------------------
  // A million messages
  // ---------------------------------------------------------------------------

  lemma LessExcludes(s: string, t: string)
    requires Less(s, t)
    ensures s != t && !Less(t, s)
  {
    LessIrreflexive(s);
    if Less(t, s) {
      LessTransitive(s, t, s);
    }
  }

  /** `head` is never above an unacknowledged key. */
  lemma HeadAtMost(ms: seq<Message>, j: nat, nextId: nat)
    requires Ordered(ms) && j < |ms| && !ms[j].acknowledged
    ensures var h := Head(Queue(nextId, ms));
            h.Some? && (h.value == ms[j].id || Less(h.value, ms[j].id))
  {
    var k := FirstUnacked(ms, 0);
    assert k <= j;
    if k < j {
      OrderedPairwise(ms, k, j);
    }
  }

  lemma {:induction false} NumberedOrdered(ms: seq<Message>)
    requires Numbered(ms) && |ms| < LIMIT
    ensures Ordered(ms)
  {
    if |ms| > 1 {
      NumberedOrdered(ms[..|ms|-1]);
      Pad6Monotone(|ms| - 1, |ms|);
    }
  }

  lemma RunPush(steps: seq<Step>, step: Step)
    ensures Run(steps + [step]) == Next(Run(steps), step)
    ensures Produced(steps + [step]) == Produced(steps) + if step.Produce? then 1 else 0
  {
    assert (steps + [step])[..|steps + [step]|-1] == steps;
  }

  lemma {:induction false} Sending(n: nat) returns (steps: seq<Step>)
    requires n < LIMIT
    ensures Produced(steps) == n && Run(steps).consumer.Idle? && Run(steps).received == []
  {
    if n == 0 {
      steps := [];
    } else {
      steps := Sending(n - 1);
      RunPush(steps, Produce([]));
      steps := steps + [Produce([])];
    }
  }

  /** `k` further rounds of the consumer. */
  lemma {:induction false} Receiving(steps: seq<Step>, k: nat) returns (more: seq<Step>)
    requires Produced(steps) < LIMIT && Run(steps).consumer.Idle?
    requires |Run(steps).received| + k <= Produced(steps)
    ensures Produced(more) == Produced(steps) && Run(more).consumer.Idle?
    ensures |Run(more).received| == |Run(steps).received| + k
  {
    if k == 0 {
      more := steps;
    } else {
      var before := Receiving(steps, k - 1);
      RunKeeps(before);
      RoundDelivers(Run(before));
      RunPush(before, ReadHead);
      RunPush(before + [ReadHead], ReadMessage);
      RunPush(before + [ReadHead] + [ReadMessage], Acknowledge);
      more := before + [ReadHead] + [ReadMessage] + [Acknowledge];
    }
  }

  lemma MillionBeforeNext()
    ensures Less(Pad6(1_000_000), Pad6(100_001))
  {
    DigitsOfMillion();
    DigitsOfNext();
  }

  lemma MillionTakesHead(ms: seq<Message>, nextId: nat)
    requires Ordered(ms)
    ensures Head(Queue(nextId, Insert(ms, Message(Pad6(LIMIT), [], false)))) != Some(Pad6(100_001))
  {
    var m := Message(Pad6(LIMIT), [], false);
    InsertOrdered(ms, m);
    InsertMembers(ms, m, m);
    var ms' := Insert(ms, m);
    var j :| 0 <= j < |ms'| && ms'[j] == m;
    HeadAtMost(ms', j, nextId);
    MillionBeforeNext();
    LessExcludes(m.id, Pad6(100_001));
  }

  lemma MillionProduced(w: World)
    requires Inv(w) && Numbered(w.queue.messages) && |w.sent| == LIMIT - 1 && |w.received| == 100_000
    ensures !HeadIsOldest(Next(w, Produce([])))
  {
    NumberedOrdered(w.queue.messages);
    MillionTakesHead(w.queue.messages, LIMIT + 1);
  }

  /** When the millionth message arrives behind 100,000 received ones, `head` jumps to it: its id
      sorts between 100000 and 100001. */
  lemma MillionthOvertakes() returns (steps: seq<Step>)
    ensures Produced(steps) == LIMIT && |Run(steps).received| == 100_000
    ensures !HeadIsOldest(Run(steps))
  {
    var sent := Sending(LIMIT - 1);
    var before := Receiving(sent, 100_000);
    RunKeeps(before);
    MillionProduced(Run(before));
    RunPush(before, Produce([]));
    steps := before + [Produce([])];
  }

  /** Delivery is right for all runs of fewer than `n` messages exactly when `n` is at most a
      million. */
  lemma DeliversInOrderIff(n: nat)
    ensures (forall steps :: Produced(steps) < n ==> HeadIsOldest(Run(steps))) <==> n <= LIMIT
  {
    if n <= LIMIT {
      forall steps | Produced(steps) < n ensures HeadIsOldest(Run(steps)) {
        DeliveredInOrder(steps);
      }
    } else {
      var steps := MillionthOvertakes();
    }
  }

  // ---------------------------------------------------------------------------
  // Acknowledgements in any order, and the count
  // ---------------------------------------------------------------------------

  ghost predicate Stores(q: Queue, id: string) {
    exists m <- q.messages :: m.id == id
  }

  /** Any stored message can be acknowledged, in any order and again; that marks it and changes no
      other. */
  lemma AckMarks(q: Queue, id: string)
    requires DistinctIds(q.messages)
    ensures Ack(q, id).Some? <==> Stores(q, id)
    ensures Ack(q, id).Some? ==>
      var q' := Ack(q, id).value;
      && q'.nextId == q.nextId && |q'.messages| == |q.messages|
      && forall i :: 0 <= i < |q.messages| ==>
           && q'.messages[i].id == q.messages[i].id && q'.messages[i].data == q.messages[i].data
           && q'.messages[i].acknowledged == (q.messages[i].acknowledged || q.messages[i].id == id)
  {
    var k := IndexOf(q.messages, id, 0);
    if Stores(q, id) {
      var m :| m in q.messages && m.id == id;
      var i :| 0 <= i < |q.messages| && q.messages[i] == m;
      assert k <= i;
    }
  }

  /** A message is served, with its data, exactly until it is acknowledged. */
  lemma LookupServes(q: Queue, i: nat)
    requires DistinctIds(q.messages) && i < |q.messages|
    ensures var m := q.messages[i];
            Lookup(q, m.id) == if m.acknowledged then None else Some(m.data)
  {
    OwnId(q.messages, i);
  }

  lemma {:induction false} PendingOfPrefix(w: World, n: nat)
    requires Tracks(w) && n <= |w.sent|
    ensures Pending(w.queue.messages[..n]) == if n <= |w.received| then 0 else n - |w.received|
  {
    if n > 0 {
      assert w.queue.messages[..n][..n-1] == w.queue.messages[..n-1];
      PendingOfPrefix(w, n - 1);
    }
  }

  /** In every run of fewer than a million messages the count is the number of messages sent and not
      yet received. */
  lemma CountIsOutstanding(steps: seq<Step>)
    requires Produced(steps) < LIMIT
    ensures var w := Run(steps);
            |w.received| <= |w.sent| && Pending(w.queue.messages) == |w.sent| - |w.received|
  {
    RunKeeps(steps);
    var w := Run(steps);
    PendingOfPrefix(w, |w.sent|);
    assert w.queue.messages[..|w.sent|] == w.queue.messages;
  }
}
