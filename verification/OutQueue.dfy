/** The bounded outbound queue of a peer and its writers. */
module OutQueue {
  import opened Bytes
  import Framing

  /** A queued payload with its number in the order of enqueueing. */
  datatype Frame = Frame(number: nat, payload: seq<byte>)

  ghost predicate Ascending(fs: seq<Frame>) {
    forall i, j :: 0 <= i < j < |fs| ==> fs[i].number < fs[j].number
  }

  /** All of `fs` come before all of `gs`. */
  ghost predicate Before(fs: multiset<Frame>, gs: multiset<Frame>) {
    forall f, g :: f in fs && g in gs ==> f.number < g.number
  }

  /** What was sent, what is being written and what is queued follow each other in order. */
  ghost predicate InOrder(sent: seq<Frame>, inFlight: multiset<Frame>, queue: seq<Frame>) {
    && Ascending(sent) && Ascending(queue)
    && Before(multiset(sent), inFlight) && Before(multiset(sent), multiset(queue))
    && Before(inFlight, multiset(queue))
  }

  lemma FrontSplits(fs: seq<Frame>)
    requires fs != []
    ensures multiset(fs) == multiset{fs[0]} + multiset(fs[1..])
  {
    assert fs == [fs[0]] + fs[1..];
  }

  lemma PopKeepsOrder(sent: seq<Frame>, queue: seq<Frame>)
    requires queue != [] && InOrder(sent, multiset{}, queue)
    ensures InOrder(sent, multiset{queue[0]}, queue[1..])
  {
    FrontSplits(queue);
    forall g | g in multiset(queue[1..]) ensures queue[0].number < g.number {
      assert g in queue[1..];
    }
  }

  lemma DropKeepsOrder(sent: seq<Frame>, inFlight: multiset<Frame>, queue: seq<Frame>)
    requires queue != [] && InOrder(sent, inFlight, queue)
    ensures InOrder(sent, inFlight, queue[1..])
  {
    FrontSplits(queue);
  }

  lemma BeforeOneMore(fs: multiset<Frame>, queue: seq<Frame>, f: Frame)
    requires Before(fs, multiset(queue)) && forall g :: g in fs ==> g.number < f.number
    ensures Before(fs, multiset(queue + [f]))
  {
    assert multiset(queue + [f]) == multiset(queue) + multiset{f};
  }

  lemma PushKeepsOrder(sent: seq<Frame>, inFlight: multiset<Frame>, queue: seq<Frame>, f: Frame)
    requires InOrder(sent, inFlight, queue)
    requires forall g :: g in multiset(sent) ==> g.number < f.number
    requires forall g :: g in inFlight ==> g.number < f.number
    requires forall i :: 0 <= i < |queue| ==> queue[i].number < f.number
    ensures InOrder(sent, inFlight, queue + [f])
  {
    BeforeOneMore(multiset(sent), queue, f);
    BeforeOneMore(inFlight, queue, f);
  }

  lemma SendKeepsOrder(sent: seq<Frame>, f: Frame, queue: seq<Frame>)
    requires InOrder(sent, multiset{f}, queue)
    ensures InOrder(sent + [f], multiset{}, queue)
  {
    forall i | 0 <= i < |sent| ensures sent[i].number < f.number {
      assert sent[i] in multiset(sent);
    }
    assert f in multiset{f};
  }

  lemma RequeueKeepsOrder(sent: seq<Frame>, f: Frame, queue: seq<Frame>)
    requires InOrder(sent, multiset{f}, queue)
    ensures InOrder(sent, multiset{}, [f] + queue)
  {
    forall j | 0 <= j < |queue| ensures f.number < queue[j].number {
      assert f in multiset{f} && queue[j] in multiset(queue);
    }
  }

  /** The frames carry their payloads under distinct numbers, and all can be framed. */
  ghost predicate Numbered(fs: multiset<Frame>, enqueued: seq<seq<byte>>) {
    forall f :: f in fs ==> fs[f] == 1 && f.number < |enqueued| && enqueued[f.number] == f.payload
                            && |f.payload| <= Framing.MAX_FRAME_PAYLOAD
  }

  lemma NumberedHolds(fs: multiset<Frame>, enqueued: seq<seq<byte>>, f: Frame)
    requires Numbered(fs, enqueued) && f in fs
    ensures f.number < |enqueued| && enqueued[f.number] == f.payload && |f.payload| <= Framing.MAX_FRAME_PAYLOAD
  {}

  lemma NumberNext(fs: multiset<Frame>, enqueued: seq<seq<byte>>, payload: seq<byte>)
    requires Numbered(fs, enqueued) && |payload| <= Framing.MAX_FRAME_PAYLOAD
    ensures Numbered(fs + multiset{Frame(|enqueued|, payload)}, enqueued + [payload])
    ensures forall g :: g in fs ==> g.number < |enqueued|
  {}

  lemma OnlyOne(inFlight: multiset<Frame>, f: Frame)
    requires |inFlight| <= 1 && f in inFlight
    ensures inFlight == multiset{f}
  {
    assert inFlight == multiset{f} + (inFlight - multiset{f});
    assert |inFlight - multiset{f}| == 0;
  }

  /** Every frame ever enqueued is in exactly one place; with one writer the places are in order. */
  ghost predicate Books(enqueued: seq<seq<byte>>, sent: seq<Frame>, dropped: multiset<Frame>, inFlight: multiset<Frame>,
                        queue: seq<Frame>, ordered: bool) {
    && Numbered(multiset(sent) + dropped + inFlight + multiset(queue), enqueued)
    && |enqueued| == |sent| + |dropped| + |inFlight| + |queue|
    && (ordered ==> InOrder(sent, inFlight, queue))
  }

  lemma BooksDrop(enqueued: seq<seq<byte>>, sent: seq<Frame>, dropped: multiset<Frame>, inFlight: multiset<Frame>,
                  queue: seq<Frame>, ordered: bool)
    requires Books(enqueued, sent, dropped, inFlight, queue, ordered) && queue != []
    ensures Books(enqueued, sent, dropped + multiset{queue[0]}, inFlight, queue[1..], ordered)
  {
    FrontSplits(queue);
    if ordered { DropKeepsOrder(sent, inFlight, queue); }
    assert multiset(sent) + dropped + inFlight + multiset(queue)
        == multiset(sent) + (dropped + multiset{queue[0]}) + inFlight + multiset(queue[1..]);
  }

  lemma BooksPush(enqueued: seq<seq<byte>>, sent: seq<Frame>, dropped: multiset<Frame>, inFlight: multiset<Frame>,
                  queue: seq<Frame>, ordered: bool, payload: seq<byte>)
    requires Books(enqueued, sent, dropped, inFlight, queue, ordered) && |payload| <= Framing.MAX_FRAME_PAYLOAD
    ensures Books(enqueued + [payload], sent, dropped, inFlight, queue + [Frame(|enqueued|, payload)], ordered)
  {
    var f := Frame(|enqueued|, payload);
    var all := multiset(sent) + dropped + inFlight + multiset(queue);
    NumberNext(all, enqueued, payload);
    assert all + multiset{f} == multiset(sent) + dropped + inFlight + multiset(queue + [f]);
    if ordered {
      assert forall g :: g in multiset(sent) ==> g in all;
      assert forall g :: g in inFlight ==> g in all;
      assert forall i :: 0 <= i < |queue| ==> queue[i] in all;
      PushKeepsOrder(sent, inFlight, queue, f);
    }
  }

  lemma BooksPop(enqueued: seq<seq<byte>>, sent: seq<Frame>, dropped: multiset<Frame>, inFlight: multiset<Frame>,
                 queue: seq<Frame>, ordered: bool)
    requires Books(enqueued, sent, dropped, inFlight, queue, ordered) && queue != []
    requires ordered ==> inFlight == multiset{}
    ensures Books(enqueued, sent, dropped, inFlight + multiset{queue[0]}, queue[1..], ordered)
  {
    FrontSplits(queue);
    if ordered {
      PopKeepsOrder(sent, queue);
      assert inFlight + multiset{queue[0]} == multiset{queue[0]};
    }
    assert multiset(sent) + dropped + inFlight + multiset(queue)
        == multiset(sent) + dropped + (inFlight + multiset{queue[0]}) + multiset(queue[1..]);
  }

  lemma BooksSend(enqueued: seq<seq<byte>>, sent: seq<Frame>, dropped: multiset<Frame>, inFlight: multiset<Frame>,
                  queue: seq<Frame>, ordered: bool, f: Frame)
    requires Books(enqueued, sent, dropped, inFlight, queue, ordered) && f in inFlight
    requires ordered ==> |inFlight| <= 1
    ensures Books(enqueued, sent + [f], dropped, inFlight - multiset{f}, queue, ordered)
    ensures |f.payload| <= Framing.MAX_FRAME_PAYLOAD
  {
    NumberedHolds(multiset(sent) + dropped + inFlight + multiset(queue), enqueued, f);
    if ordered {
      OnlyOne(inFlight, f);
      SendKeepsOrder(sent, f, queue);
    }
    assert multiset(sent) + dropped + inFlight + multiset(queue)
        == multiset(sent + [f]) + dropped + (inFlight - multiset{f}) + multiset(queue);
  }

  lemma BooksRequeue(enqueued: seq<seq<byte>>, sent: seq<Frame>, dropped: multiset<Frame>, inFlight: multiset<Frame>,
                     queue: seq<Frame>, ordered: bool, f: Frame)
    requires Books(enqueued, sent, dropped, inFlight, queue, ordered) && f in inFlight
    requires ordered ==> |inFlight| <= 1
    ensures Books(enqueued, sent, dropped, inFlight - multiset{f}, [f] + queue, ordered)
  {
    if ordered {
      OnlyOne(inFlight, f);
      RequeueKeepsOrder(sent, f, queue);
    }
    assert multiset(sent) + dropped + inFlight + multiset(queue)
        == multiset(sent) + dropped + (inFlight - multiset{f}) + multiset([f] + queue);
  }

  class OutboundQueue {
    const capacity: nat
    const writers: nat
    var queue: seq<Frame>
    var framesSent: nat
    var framesDropped: nat
    var next: nat
    /** Everything enqueued so far, what was sent (in order), dropped, and is being written. */
    ghost var enqueued: seq<seq<byte>>
    ghost var sent: seq<Frame>
    ghost var dropped: multiset<Frame>
    ghost var inFlight: multiset<Frame>

    /** Every frame enqueued is sent, dropped, being written or queued; the queue is bounded. */
    ghost predicate Valid()
      reads this
    {
      && next == |enqueued|
      && |sent| == framesSent && |dropped| == framesDropped
      && |inFlight| <= writers && |queue| + |inFlight| <= capacity + writers
      && Books(enqueued, sent, dropped, inFlight, queue, writers == 1)
    }

    constructor (capacity: nat, writers: nat)
      ensures Valid() && queue == [] && enqueued == [] && sent == [] && inFlight == multiset{}
      ensures this.capacity == capacity && this.writers == writers
    {
      this.capacity, this.writers := capacity, writers;
      queue, framesSent, framesDropped, next := [], 0, 0, 0;
      enqueued, sent, dropped, inFlight := [], [], multiset{}, multiset{};
    }

    /** Refused exactly when too large; a full queue makes room by dropping its oldest frames. */
    method EnqueueOutbound(payload: seq<byte>) returns (ok: bool)
      requires Valid() && (capacity >= 1 || |payload| > Framing.MAX_FRAME_PAYLOAD)
      modifies this`queue, this`framesDropped, this`next, this`enqueued, this`dropped
      ensures Valid()
      ensures ok <==> |payload| <= Framing.MAX_FRAME_PAYLOAD
      ensures !ok ==> queue == old(queue) && enqueued == old(enqueued)
      ensures ok ==> enqueued == old(enqueued) + [payload]
      ensures ok ==> queue == LastN(old(queue), capacity - 1) + [Frame(|old(enqueued)|, payload)]
    {
      if |payload| > Framing.MAX_FRAME_PAYLOAD { return false; }
      MakeRoom();
      BooksPush(enqueued, sent, dropped, inFlight, queue, writers == 1, payload);
      queue := queue + [Frame(next, payload)];
      enqueued := enqueued + [payload];
      next := next + 1;
      return true;
    }

    method MakeRoom()
      requires Valid() && capacity >= 1
      modifies this`queue, this`framesDropped, this`dropped
      ensures Valid() && queue == LastN(old(queue), capacity - 1)
    {
      ghost var all, dropping := queue, 0;
      while |queue| >= capacity
        invariant Valid() && dropping <= |all| && queue == all[dropping..]
        invariant dropping == 0 || |queue| >= capacity - 1
        decreases |queue|
      {
        DropFront();
        assert all[dropping..][1..] == all[dropping + 1..];
        dropping := dropping + 1;
      }
    }

    method DropFront()
      requires Valid() && queue != []
      modifies this`queue, this`framesDropped, this`dropped
      ensures Valid() && queue == old(queue)[1..]
    {
      BooksDrop(enqueued, sent, dropped, inFlight, queue, writers == 1);
      dropped := dropped + multiset{queue[0]};
      queue := queue[1..];
      framesDropped := framesDropped + 1;
    }

    /** A writer takes the front of the queue. */
    method PopNext() returns (taken: Option<Frame>)
      requires Valid() && |inFlight| < writers
      modifies this`queue, this`inFlight
      ensures Valid()
      ensures old(queue) == [] ==> taken == None && queue == [] && inFlight == old(inFlight)
      ensures old(queue) != [] ==> taken == Some(old(queue)[0]) && queue == old(queue)[1..]
                                   && inFlight == old(inFlight) + multiset{old(queue)[0]}
    {
      if queue == [] { return None; }
      taken := Some(queue[0]);
      BooksPop(enqueued, sent, dropped, inFlight, queue, writers == 1);
      inFlight := inFlight + multiset{queue[0]};
      queue := queue[1..];
    }

    /** The frame was written. It can always be framed, so none is lost here. */
    method Written(f: Frame) returns (frame: seq<byte>)
      requires Valid() && f in inFlight
      modifies this`framesSent, this`sent, this`inFlight
      ensures Valid() && sent == old(sent) + [f] && inFlight == old(inFlight) - multiset{f}
      ensures frame == Framing.FrameOf(f.payload)
    {
      BooksSend(enqueued, sent, dropped, inFlight, queue, writers == 1, f);
      var encoded := Framing.EncodeFrame(f.payload);
      frame := encoded.value;
      sent := sent + [f];
      inFlight := inFlight - multiset{f};
      framesSent := framesSent + 1;
    }

    /** Writing failed: the frame goes back to the front, past the capacity if need be. */
    method WriteFailed(f: Frame)
      requires Valid() && f in inFlight
      modifies this`queue, this`inFlight
      ensures Valid() && queue == [f] + old(queue) && inFlight == old(inFlight) - multiset{f}
    {
      BooksRequeue(enqueued, sent, dropped, inFlight, queue, writers == 1, f);
      queue := [f] + queue;
      inFlight := inFlight - multiset{f};
    }
  }

  // ---------------------------------------------------------------------------------------------
  // What was sent
  // ---------------------------------------------------------------------------------------------

  /** `a` can be had from `b` by leaving elements out. */
  ghost predicate Subsequence<T>(a: seq<T>, b: seq<T>) {
    a == [] ||
    (b != [] &&
     var rest := b[..|b| - 1];
     Subsequence(a, rest) || (a[|a| - 1] == b[|b| - 1] && Subsequence(a[..|a| - 1], rest)))
  }

  function Payloads(fs: seq<Frame>): seq<seq<byte>> {
    seq(|fs|, i requires 0 <= i < |fs| => fs[i].payload)
  }

  ghost predicate Carries(fs: seq<Frame>, enqueued: seq<seq<byte>>) {
    forall i :: 0 <= i < |fs| ==> fs[i].number < |enqueued| && fs[i].payload == enqueued[fs[i].number]
  }

  lemma {:induction false} SelectionIsSubsequence(fs: seq<Frame>, enqueued: seq<seq<byte>>)
    requires Ascending(fs) && Carries(fs, enqueued)
    ensures Subsequence(Payloads(fs), enqueued)
    decreases |enqueued|
  {
    if fs != [] {
      var n := |fs| - 1;
      assert fs[n].number < |enqueued|;
      var rest := enqueued[..|enqueued| - 1];
      if fs[n].number == |rest| {
        assert Payloads(fs)[..n] == Payloads(fs[..n]);
        SelectionIsSubsequence(fs[..n], rest);
      } else {
        SelectionIsSubsequence(fs, rest);
      }
    }
  }

  /** With one writer per peer the payloads sent are, in order, a selection of those enqueued: dropping
      and requeueing never reorder. */
  lemma OneWriterSendsInOrder(q: OutboundQueue)
    requires q.Valid() && q.writers == 1
    ensures Subsequence(Payloads(q.sent), q.enqueued)
  {
    forall i | 0 <= i < |q.sent|
      ensures q.sent[i].number < |q.enqueued| && q.sent[i].payload == q.enqueued[q.sent[i].number]
    {
      assert q.sent[i] in multiset(q.sent);
      NumberedHolds(multiset(q.sent) + q.dropped + q.inFlight + multiset(q.queue), q.enqueued, q.sent[i]);
    }
    SelectionIsSubsequence(q.sent, q.enqueued);
  }

  /** Every payload ever enqueued under its number. */
  function AllFrames(enqueued: seq<seq<byte>>): seq<Frame> {
    seq(|enqueued|, i requires 0 <= i < |enqueued| => Frame(i, enqueued[i]))
  }

  lemma {:induction false} AllFramesOnce(enqueued: seq<seq<byte>>, f: Frame)
    requires f.number < |enqueued| && enqueued[f.number] == f.payload
    ensures f in multiset(AllFrames(enqueued))
  {
    assert AllFrames(enqueued)[f.number] == f;
  }

  /** For any number of writers, each payload enqueued is in exactly one place: sent, dropped, being
      written or queued; and the queue is bounded. */
  lemma EveryFrameIsAccounted(q: OutboundQueue)
    requires q.Valid()
    ensures multiset(AllFrames(q.enqueued)) == multiset(q.sent) + q.dropped + q.inFlight + multiset(q.queue)
    ensures |q.enqueued| == q.framesSent + q.framesDropped + |q.inFlight| + |q.queue|
    ensures |q.queue| + |q.inFlight| <= q.capacity + q.writers
  {
    var places := multiset(q.sent) + q.dropped + q.inFlight + multiset(q.queue);
    forall f | f in places ensures places[f] <= multiset(AllFrames(q.enqueued))[f] {
      NumberedHolds(places, q.enqueued, f);
      AllFramesOnce(q.enqueued, f);
    }
    SameSize(places, multiset(AllFrames(q.enqueued)));
  }

  lemma SameSize(a: multiset<Frame>, b: multiset<Frame>)
    requires |a| == |b| && forall f :: f in a ==> a[f] <= b[f]
    ensures a == b
  {
    assert b == a + (b - a);
    assert |b - a| == 0;
  }

  // ---------------------------------------------------------------------------------------------
  // Capacity zero
  // ---------------------------------------------------------------------------------------------

  /** A queue after taking `n` times from its front. */
  function AfterDrops(queue: seq<Frame>, n: nat): seq<Frame> {
    if n <= |queue| then queue[n..] else []
  }

  /** Each time the front goes, if there is one. */
  lemma DropsOneByOne(queue: seq<Frame>, n: nat)
    ensures AfterDrops(queue, 0) == queue
    ensures AfterDrops(queue, n + 1) == if AfterDrops(queue, n) == [] then [] else AfterDrops(queue, n)[1..]
  {}

  /** The eviction loop of `enqueue_outbound` reaches its end exactly when the capacity is positive: with
      capacity 0 an empty queue still counts as full. */
  lemma EvictionEnds(queue: seq<Frame>, capacity: nat)
    ensures (exists n: nat :: |AfterDrops(queue, n)| < capacity) <==> capacity >= 1
  {
    if capacity >= 1 {
      assert |AfterDrops(queue, |queue|)| < capacity;
    }
  }

  method TwoQueued(a: seq<byte>, b: seq<byte>) returns (q: OutboundQueue)
    requires |a| <= Framing.MAX_FRAME_PAYLOAD && |b| <= Framing.MAX_FRAME_PAYLOAD
    ensures fresh(q) && q.Valid() && q.writers == 2 && q.sent == [] && q.inFlight == multiset{}
    ensures q.queue == [Frame(0, a), Frame(1, b)]
  {
    q := new OutboundQueue(2, 2);
    var ok := q.EnqueueOutbound(a);
    ok := q.EnqueueOutbound(b);
  }

  method SecondWrittenFirst(a: seq<byte>, b: seq<byte>) returns (q: OutboundQueue)
    requires |a| <= Framing.MAX_FRAME_PAYLOAD && |b| <= Framing.MAX_FRAME_PAYLOAD
    ensures fresh(q) && q.Valid() && q.writers == 2 && q.sent == [Frame(1, b)] && q.queue == []
    ensures q.inFlight == multiset{Frame(0, a)}
  {
    q := TwoQueued(a, b);
    var first := q.PopNext();
    var second := q.PopNext();
    var out := q.Written(second.value);
  }

  /** With two writers the order can be lost: the first fails after the second has written. */
  method TwoWritersReorder(a: seq<byte>, b: seq<byte>) returns (q: OutboundQueue)
    requires |a| <= Framing.MAX_FRAME_PAYLOAD && |b| <= Framing.MAX_FRAME_PAYLOAD
    ensures q.Valid() && q.sent == [Frame(1, b), Frame(0, a)]
  {
    q := SecondWrittenFirst(a, b);
    q.WriteFailed(Frame(0, a));
    var again := q.PopNext();
    var out := q.Written(again.value);
  }
}
