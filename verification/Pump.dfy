/** The pump from the gossip outbox to a peer's outbound queue: one pass, and what many passes reach. */
module Pump {
  import opened Bytes
  import opened Wire
  import opened Gossip
  import Framing
  import opened OutQueue

  const PUMP_BATCH_MAX_EVENTS: nat := 64

  // ---------------------------------------------------------------------------------------------
  // Oversized events
  // ---------------------------------------------------------------------------------------------

  /** The padded wire form that `Wire.ToWireBytes` computes, if the event can be encoded. */
  function WireForm(e: MeshEvent): Option<seq<byte>> {
    match Encode(e) case Ok(code) => Some(Padded(code)) case Err(_) => None
  }

  /** The wire form does not fit a frame. */
  predicate Oversized<E>(wire: E -> Option<seq<byte>>, e: E) {
    wire(e).Some? && |wire(e).value| > Framing.MAX_FRAME_PAYLOAD
  }

  /** The octets the tags of an event take, each with its length. */
  function TagOctets(tags: seq<Text>): nat {
    if tags == [] then 0 else 4 + |tags[0]| + TagOctets(tags[1..])
  }

  lemma {:induction false} EncodedTagsLength(tags: seq<Text>)
    ensures |EncodeTags(tags)| == TagOctets(tags)
  {
    if tags != [] { EncodedTagsLength(tags[1..]); }
  }

  /** What a sender can see before encoding: 155 octets of fixed fields, the content and the tags. */
  lemma OversizedIsLongFields(e: MeshEvent)
    ensures Oversized(WireForm, e) <==>
            Encode(e).Ok? && 155 + |e.content| + TagOctets(e.tags) > Framing.MAX_FRAME_PAYLOAD
  {
    if Encode(e).Ok? {
      UnpadPad(Encode(e).value);
      EncodedTagsLength(e.tags);
      EncodedLength(e);
    }
  }

  lemma EncodedLength(e: MeshEvent)
    requires Encode(e).Ok?
    ensures |Encode(e).value| == 155 + |e.content| + |EncodeTags(e.tags)|
  {
    var id, pubkey, sig := HexDecodeN(e.id, 32).value, HexDecodeN(e.pubkey, 32).value, HexDecodeN(e.sig, 64).value;
    var h := Header(id, pubkey, e.createdAt, e.kind);
    var t := Trailer(sig, e.powNonce, e.powDifficulty, e.ttl);
    assert |EncodeHeader(h)| == 73 && |EncodeTrailer(t)| == 74 && |EncodeText(e.content)| == 4 + |e.content|;
    assert Encode(e).value == Layout(h, e.tags, e.content, t);
  }

  /** `n` times the letter a. */
  function Letters(n: nat): Text {
    if n == 0 then [] else [97] + Letters(n - 1)
  }

  lemma {:induction false} LettersAreUtf8(n: nat)
    ensures |Letters(n)| == n && ValidUtf8(Letters(n))
  {
    if n > 0 {
      LettersAreUtf8(n - 1);
      assert Letters(n)[1..] == Letters(n - 1);
    }
  }

  /** An ordinary event without tags becomes oversized with its 16,230th letter of content. */
  lemma LongContentIsOversized(e: MeshEvent, n: nat)
    requires Encodable(e) && e.tags == [] && n < U32_LIMIT
    ensures var long := e.(content := Letters(n));
            Encodable(long) && TextsValid(long) && (Oversized(WireForm, long) <==> n >= 16_230)
  {
    var long := e.(content := Letters(n));
    LettersAreUtf8(n);
    LowerHexIsEncoded(e.id, 32);
    LowerHexIsEncoded(e.pubkey, 32);
    LowerHexIsEncoded(e.sig, 64);
    OversizedIsLongFields(long);
  }

  lemma OversizedEventExists()
    ensures exists e :: Encodable(e) && TextsValid(e) && Oversized(WireForm, e)
  {
    HexEncodeIsCanonical(Zeros(32));
    HexEncodeIsCanonical(Zeros(64));
    LongContentIsOversized(ZERO_EVENT, 16_230);
  }

  // ---------------------------------------------------------------------------------------------
  // One pass
  // ---------------------------------------------------------------------------------------------

  /** The first oversized event from `i` on, or the end. */
  function FirstOversized<E>(wire: E -> Option<seq<byte>>, batch: seq<E>, i: nat): (k: nat)
    requires i <= |batch|
    ensures i <= k <= |batch|
    ensures forall j :: i <= j < k ==> !Oversized(wire, batch[j])
    ensures k < |batch| ==> Oversized(wire, batch[k])
    decreases |batch| - i
  {
    if i == |batch| || Oversized(wire, batch[i]) then i else FirstOversized(wire, batch, i + 1)
  }

  /** How many events of a batch are marked delivered: all before the first oversized one. */
  function FlushCount<E>(wire: E -> Option<seq<byte>>, batch: seq<E>): (k: nat)
    ensures k <= |batch|
  {
    FirstOversized(wire, batch, 0)
  }

  lemma FlushCountIs<E>(wire: E -> Option<seq<byte>>, batch: seq<E>, k: nat)
    ensures k == FlushCount(wire, batch) <==>
            && k <= |batch| && (k < |batch| ==> Oversized(wire, batch[k]))
            && forall i :: 0 <= i < k ==> !Oversized(wire, batch[i])
  {
    var n := FirstOversized(wire, batch, 0);
    assert n == FlushCount(wire, batch);
  }

  /** The payloads queued for the first `k` events; events that cannot be encoded are skipped. */
  function Wires<E>(wire: E -> Option<seq<byte>>, batch: seq<E>, k: nat): seq<seq<byte>>
    requires k <= |batch|
  {
    if k == 0 then []
    else Wires(wire, batch, k - 1) + match wire(batch[k - 1]) case Some(bytes) => [bytes] case None => []
  }

  /** `out` holds the wire forms of the events at `at`, which are those below `k` that can be encoded, in order. */
  ghost predicate FormsOf<E>(wire: E -> Option<seq<byte>>, batch: seq<E>, k: nat, out: seq<seq<byte>>, at: seq<nat>)
    requires k <= |batch|
  {
    && |at| == |out| && (forall i, j :: 0 <= i < j < |at| ==> at[i] < at[j])
    && (forall j :: 0 <= j < |at| ==> at[j] < k && wire(batch[at[j]]) == Some(out[j]))
    && forall i: nat :: i < k && wire(batch[i]).Some? ==> i in at
  }

  lemma {:induction false} WiresExact<E>(wire: E -> Option<seq<byte>>, batch: seq<E>, k: nat) returns (at: seq<nat>)
    requires k <= |batch|
    ensures FormsOf(wire, batch, k, Wires(wire, batch, k), at)
  {
    if k == 0 {
      at := [];
    } else {
      at := WiresExact(wire, batch, k - 1);
      var out := Wires(wire, batch, k - 1);
      if wire(batch[k - 1]).Some? {
        OneMoreForm(wire, batch, k - 1, out, at);
        at := at + [k - 1];
      } else {
        assert out + [] == out;
      }
    }
  }

  lemma OneMoreForm<E>(wire: E -> Option<seq<byte>>, batch: seq<E>, k: nat, out: seq<seq<byte>>, at: seq<nat>)
    requires k < |batch| && FormsOf(wire, batch, k, out, at) && wire(batch[k]).Some?
    ensures FormsOf(wire, batch, k + 1, out + [wire(batch[k]).value], at + [k])
  {
    forall i: nat | i < k + 1 && wire(batch[i]).Some? ensures i in at + [k] {
      assert i in at || i == k;
    }
  }

  /** The loop over a batch: an event that cannot be encoded counts as delivered, an oversized one
      stops the pass. */
  method QueueBatch<E>(out: OutboundQueue, wire: E -> Option<seq<byte>>, batch: seq<E>) returns (n: nat)
    requires out.Valid() && out.capacity >= 1
    modifies out
    ensures out.Valid() && n == FlushCount(wire, batch)
    ensures out.enqueued == old(out.enqueued) + Wires(wire, batch, n)
  {
    n := 0;
    ghost var k := FirstOversized(wire, batch, 0);
    while n < |batch|
      invariant 0 <= n <= k && out.Valid()
      invariant out.enqueued == old(out.enqueued) + Wires(wire, batch, n)
      decreases |batch| - n
    {
      var bytes := wire(batch[n]);
      var ok := QueueWire(out, bytes);
      if !ok { break; }
      Glue(old(out.enqueued), Wires(wire, batch, n), if bytes.Some? then [bytes.value] else []);
      n := n + 1;
    }
  }

  method QueueWire(out: OutboundQueue, bytes: Option<seq<byte>>) returns (ok: bool)
    requires out.Valid() && out.capacity >= 1
    modifies out
    ensures out.Valid() && ok == (bytes.None? || |bytes.value| <= Framing.MAX_FRAME_PAYLOAD)
    ensures out.enqueued == old(out.enqueued) + if ok && bytes.Some? then [bytes.value] else []
  {
    if bytes.None? { return true; }
    ok := out.EnqueueOutbound(bytes.value);
  }

  function Batch(s: State, p: Peer): seq<MeshEvent> {
    Select(s.pending, LogOf(s, p), PUMP_BATCH_MAX_EVENTS)
  }

  /** The outbox after one pass for `p`. */
  function Passed(l: Limits, wire: MeshEvent -> Option<seq<byte>>, s: State, p: Peer): State {
    Handed(l, s, p, PUMP_BATCH_MAX_EVENTS, FlushCount(wire, Batch(s, p)))
  }

  /** One peer's share of `flush_outbound`: exactly the events before the first oversized one are marked
      delivered, and exactly their wire forms are queued. */
  method FlushPeer(gossip: GossipProtocol, out: OutboundQueue, peer: Peer)
    requires out.Valid() && out.capacity >= 1
    modifies gossip`delivered, out
    ensures out.Valid() && gossip.View() == Passed(LIMITS, WireForm, old(gossip.View()), peer)
    ensures var batch := Batch(old(gossip.View()), peer);
            out.enqueued == old(out.enqueued) + Wires(WireForm, batch, FlushCount(WireForm, batch))
  {
    var batch := gossip.PeekPendingForPeer(peer, PUMP_BATCH_MAX_EVENTS);
    if batch == [] { return; }
    var n := QueueBatch(out, WireForm, batch);
    gossip.MarkDeliveredToPeer(peer, Ids(batch[..n]));
  }

  // ---------------------------------------------------------------------------------------------
  // An oversized stay holds up everything behind it
  // ---------------------------------------------------------------------------------------------

  ghost predicate PumpStep(l: Limits, wire: MeshEvent -> Option<seq<byte>>, h: History, p: Peer, h': History) {
    HandStep(l, h, p, PUMP_BATCH_MAX_EVENTS, FlushCount(wire, Batch(h.s, p)), h')
  }

  /** A step of a node whose outbox is emptied by the pump alone, for any of its peers. */
  ghost predicate PumpedStep(l: Limits, wire: MeshEvent -> Option<seq<byte>>, h: History, h': History) {
    (exists e :: InsertStep(l, h, e, h')) || (exists p :: PumpStep(l, wire, h, p, h'))
  }

  /** Every insertion is such a step, and so is every pass. */
  lemma InsertionsAndPassesAreSteps(l: Limits, wire: MeshEvent -> Option<seq<byte>>, h: History, e: MeshEvent, p: Peer,
                                    h': History)
    requires InsertStep(l, h, e, h') || PumpStep(l, wire, h, p, h')
    ensures PumpedStep(l, wire, h, h')
  {}

  /** Stay `n` is in the outbox, oversized, and not logged for `p`. */
  ghost predicate Blocking(wire: MeshEvent -> Option<seq<byte>>, h: History, p: Peer, n: nat) {
    0 <= Oldest(h) <= n < |h.stays| && Oversized(wire, h.stays[n]) && h.stays[n].id !in LogOf(h.s, p)
  }

  /** `p` was handed nothing between but stays before `n`. */
  ghost predicate HandedBefore(h: History, h': History, p: Peer, n: nat) {
    && HandedTo(h, p) <= HandedTo(h', p)
    && forall i :: |HandedTo(h, p)| <= i < |HandedTo(h', p)| ==> HandedTo(h', p)[i] < n
  }

  lemma {:induction false} SelectAtPicks(stays: seq<MeshEvent>, from: nat, log: seq<Text>, max: nat)
    requires from <= |stays|
    ensures var ps, b := Picks(stays, from, log, max), Select(stays[from..], log, max);
            |ps| == |b| && forall i :: 0 <= i < |ps| ==> ps[i] < |stays| && b[i] == stays[ps[i]]
    decreases |stays| - from
  {
    if max != 0 && from < |stays| {
      assert stays[from..][1..] == stays[from + 1..];
      SelectAtPicks(stays, from + 1, log, if stays[from].id in log then max else max - 1);
    }
  }

  /** An unlogged stay is picked, or the picks end before it. */
  lemma {:induction false} PicksStopOrContain(stays: seq<MeshEvent>, from: nat, log: seq<Text>, max: nat, n: nat)
    requires from <= n < |stays| && stays[n].id !in log
    ensures var ps := Picks(stays, from, log, max);
            n in ps || forall i :: 0 <= i < |ps| ==> ps[i] < n
    decreases |stays| - from
  {
    if max != 0 && from < n {
      PicksStopOrContain(stays, from + 1, log, if stays[from].id in log then max else max - 1, n);
    }
  }

  lemma PassStopsBefore(wire: MeshEvent -> Option<seq<byte>>, stays: seq<MeshEvent>, from: nat, log: seq<Text>, n: nat)
    requires from <= n < |stays| && Oversized(wire, stays[n]) && stays[n].id !in log
    ensures var ps := Picks(stays, from, log, PUMP_BATCH_MAX_EVENTS);
            var k := FlushCount(wire, Select(stays[from..], log, PUMP_BATCH_MAX_EVENTS));
            k <= |ps| && forall i :: 0 <= i < k ==> ps[i] < n
  {
    var ps := Picks(stays, from, log, PUMP_BATCH_MAX_EVENTS);
    var batch := Select(stays[from..], log, PUMP_BATCH_MAX_EVENTS);
    FlushCountIs(wire, batch, FlushCount(wire, batch));
    SelectAtPicks(stays, from, log, PUMP_BATCH_MAX_EVENTS);
    PicksProperties(stays, from, log, PUMP_BATCH_MAX_EVENTS);
    PicksStopOrContain(stays, from, log, PUMP_BATCH_MAX_EVENTS, n);
    if n in ps {
      var m :| 0 <= m < |ps| && ps[m] == n;
      var k := FlushCount(wire, batch);
      assert m >= k;
      forall i | 0 <= i < k ensures ps[i] < n { assert i < m ==> ps[i] < ps[m]; }
    }
  }

  /** Marking other ids leaves an id unlogged. */
  lemma MarkedAddsOnly(log: seq<Text>, ids: seq<Text>, cap: nat, id: Text)
    requires cap >= 1 && |log| <= cap && id !in log && id !in ids
    ensures id !in Marked(log, ids, cap)
  {
    MarkedIsLastN(log, ids, cap);
  }

  /** One pass for the peer itself leaves the stay unlogged. */
  lemma PassLeavesUnlogged(wire: MeshEvent -> Option<seq<byte>>, stays: seq<MeshEvent>, oldest: nat, log: seq<Text>,
                           cap: nat, n: nat)
    requires oldest <= n < |stays| && Oversized(wire, stays[n]) && stays[n].id !in log
    requires cap >= 1 && |log| <= cap && Distinct(Ids(stays[oldest..]))
    ensures var batch := Select(stays[oldest..], log, PUMP_BATCH_MAX_EVENTS);
            stays[n].id !in Marked(log, Ids(batch[..FlushCount(wire, batch)]), cap)
  {
    var batch := Select(stays[oldest..], log, PUMP_BATCH_MAX_EVENTS);
    var k := FlushCount(wire, batch);
    PassStopsBefore(wire, stays, oldest, log, n);
    SelectedIds(stays, oldest, log, PUMP_BATCH_MAX_EVENTS, k);
    var picks := Picks(stays, oldest, log, PUMP_BATCH_MAX_EVENTS)[..k];
    forall i | 0 <= i < k ensures IdsAt(stays, picks)[i] != stays[n].id {
      var ids := Ids(stays[oldest..]);
      assert ids[picks[i] - oldest] != ids[n - oldest];
    }
    MarkedAddsOnly(log, IdsAt(stays, picks), cap, stays[n].id);
  }

  lemma OwnPassKeepsBlocking(l: Limits, wire: MeshEvent -> Option<seq<byte>>, h: History, h': History, p: Peer, n: nat)
    requires Sound(l) && Inv(l, h) && PumpStep(l, wire, h, p, h') && Blocking(wire, h, p, n)
    ensures Blocking(wire, h', p, n) && HandedBefore(h, h', p, n)
  {
    HandedLog(l, h.s, p, PUMP_BATCH_MAX_EVENTS, FlushCount(wire, Batch(h.s, p)));
    assert PeerOk(l, h, p);
    PassStopsBefore(wire, h.stays, Oldest(h), LogOf(h.s, p), n);
    PassLeavesUnlogged(wire, h.stays, Oldest(h), LogOf(h.s, p), l.perPeer, n);
  }

  lemma PumpKeepsBlocking(l: Limits, wire: MeshEvent -> Option<seq<byte>>, h: History, q: Peer, h': History, p: Peer,
                          n: nat)
    requires Sound(l) && Inv(l, h) && PumpStep(l, wire, h, q, h') && Blocking(wire, h, p, n)
    ensures Blocking(wire, h', p, n) && HandedBefore(h, h', p, n)
  {
    if q == p {
      OwnPassKeepsBlocking(l, wire, h, h', p, n);
    } else {
      HandedLog(l, h.s, q, PUMP_BATCH_MAX_EVENTS, FlushCount(wire, Batch(h.s, q)));
      assert HandedTo(h', p) == HandedTo(h, p);
    }
  }

  lemma InsertKeepsBlocking(l: Limits, wire: MeshEvent -> Option<seq<byte>>, h: History, e: MeshEvent, h': History,
                            p: Peer, n: nat)
    requires Sound(l) && Inv(l, h) && InsertStep(l, h, e, h') && Blocking(wire, h, p, n)
    ensures 0 <= Oldest(h) <= Oldest(h')
    ensures n >= Oldest(h') ==> Blocking(wire, h', p, n) && HandedBefore(h, h', p, n)
  {
    if e.id !in h.s.known { PushedIsSuffix(l, h, e, h'); }
  }

  lemma InsertOnlyAges(l: Limits, h: History, e: MeshEvent, h': History)
    requires Sound(l) && Inv(l, h) && InsertStep(l, h, e, h')
    ensures Oldest(h) <= Oldest(h')
  {
    if e.id !in h.s.known { PushedIsSuffix(l, h, e, h'); }
  }

  lemma StepKeepsBlocking(l: Limits, wire: MeshEvent -> Option<seq<byte>>, h: History, h': History, p: Peer, n: nat)
    requires Sound(l) && Inv(l, h) && PumpedStep(l, wire, h, h')
    ensures Inv(l, h') && Oldest(h) <= Oldest(h')
    ensures Blocking(wire, h, p, n) && n >= Oldest(h') ==> Blocking(wire, h', p, n) && HandedBefore(h, h', p, n)
  {
    if e :| InsertStep(l, h, e, h') {
      InsertKeepsInv(l, h, e, h');
      InsertOnlyAges(l, h, e, h');
      if Blocking(wire, h, p, n) { InsertKeepsBlocking(l, wire, h, e, h', p, n); }
    } else {
      var q :| PumpStep(l, wire, h, q, h');
      HandKeepsInv(l, h, q, PUMP_BATCH_MAX_EVENTS, FlushCount(wire, Batch(h.s, q)), h');
      if Blocking(wire, h, p, n) { PumpKeepsBlocking(l, wire, h, q, h', p, n); }
    }
  }

  ghost predicate PumpedRun(l: Limits, wire: MeshEvent -> Option<seq<byte>>, run: seq<History>) {
    run != [] && forall i :: 0 <= i < |run| - 1 ==> PumpedStep(l, wire, run[i], run[i + 1])
  }

  /** From any state a node can reach: as long as an oversized, unlogged stay is in the outbox, the pump
      hands its peer no later stay, whatever is inserted and whoever else is served meanwhile. Leaving
      the outbox, or being handed by other means, ends the blockage. */
  lemma OversizedStayBlocks(l: Limits, wire: MeshEvent -> Option<seq<byte>>, run: seq<History>, p: Peer, n: nat)
    requires Sound(l) && PumpedRun(l, wire, run) && Inv(l, run[0]) && Blocking(wire, run[0], p, n)
    ensures Inv(l, run[|run| - 1])
    ensures n >= Oldest(run[|run| - 1]) ==>
              Blocking(wire, run[|run| - 1], p, n) && HandedBefore(run[0], run[|run| - 1], p, n)
  {
    BlocksUpTo(l, wire, run, p, n, |run| - 1);
  }

  lemma {:induction false} BlocksUpTo(l: Limits, wire: MeshEvent -> Option<seq<byte>>, run: seq<History>, p: Peer,
                                      n: nat, end: nat)
    requires Sound(l) && PumpedRun(l, wire, run) && Inv(l, run[0]) && Blocking(wire, run[0], p, n) && end < |run|
    ensures Inv(l, run[end])
    ensures n >= Oldest(run[end]) ==> Blocking(wire, run[end], p, n) && HandedBefore(run[0], run[end], p, n)
    decreases end
  {
    if end > 0 {
      BlocksUpTo(l, wire, run, p, n, end - 1);
      assert PumpedStep(l, wire, run[end - 1], run[end]);
      StepKeepsBlocking(l, wire, run[end - 1], run[end], p, n);
      if n >= Oldest(run[end]) { HandedBeforeChains(run[0], run[end - 1], run[end], p, n); }
    }
  }

  lemma HandedBeforeChains(h: History, h': History, h'': History, p: Peer, n: nat)
    requires HandedBefore(h, h', p, n) && HandedBefore(h', h'', p, n)
    ensures HandedBefore(h, h'', p, n)
  {
    forall i | |HandedTo(h, p)| <= i < |HandedTo(h'', p)| ensures HandedTo(h'', p)[i] < n {
      assert i < |HandedTo(h', p)| ==> HandedTo(h'', p)[i] == HandedTo(h', p)[i];
    }
  }

  // ---------------------------------------------------------------------------------------------
  // Without insertions, repeated passes log exactly what precedes the first oversized event
  // ---------------------------------------------------------------------------------------------

  /** The state after `n` passes for `p`. */
  function Passes(l: Limits, wire: MeshEvent -> Option<seq<byte>>, s: State, p: Peer, n: nat): State {
    if n == 0 then s else Passed(l, wire, Passes(l, wire, s, p, n - 1), p)
  }

  /** The outbox events not logged, oldest first. */
  function Unlogged(pending: seq<MeshEvent>, log: seq<Text>): seq<MeshEvent> {
    Select(pending, log, |pending|)
  }

  function Least(a: nat, b: nat): nat { if a < b then a else b }

  /** `Select` with a bound takes the first of the unlogged events. */
  lemma {:induction false} SelectTakes(pending: seq<MeshEvent>, log: seq<Text>, max: nat, more: nat)
    requires more >= |pending|
    ensures var all := Select(pending, log, more);
            |all| <= |pending| && Select(pending, log, max) == all[..Least(max, |all|)]
  {
    if pending == [] {
    } else if pending[0].id in log {
      SelectTakes(pending[1..], log, max, more);
    } else if max == 0 {
      SelectTakes(pending[1..], log, 0, more - 1);
    } else {
      SelectTakes(pending[1..], log, max - 1, more - 1);
    }
  }

  /** Logs that agree on the pending ids leave the same events unlogged. */
  lemma {:induction false} SelectAgrees(pending: seq<MeshEvent>, log: seq<Text>, log': seq<Text>, max: nat)
    requires forall i :: 0 <= i < |pending| ==> (pending[i].id in log <==> pending[i].id in log')
    ensures Select(pending, log, max) == Select(pending, log', max)
  {
    if pending != [] && max != 0 {
      SelectAgrees(pending[1..], log, log', if pending[0].id in log then max else max - 1);
    }
  }

  lemma UnloggedHead(pending: seq<MeshEvent>, log: seq<Text>)
    requires pending != []
    ensures var left := Unlogged(pending[1..], log);
            Unlogged(pending, log) == if pending[0].id in log then left else [pending[0]] + left
  {
    var rest := pending[1..];
    SelectTakes(rest, log, |rest|, |pending|);
    var all := Select(rest, log, |pending|);
    assert all[..|all|] == all;
  }

  lemma RestDistinct(pending: seq<MeshEvent>)
    requires pending != [] && Distinct(Ids(pending))
    ensures Distinct(Ids(pending[1..]))
  {
    assert forall i :: 0 <= i < |pending| - 1 ==> Ids(pending[1..])[i] == Ids(pending)[i + 1];
  }

  /** Logging the first `m` unlogged events leaves the others. */
  lemma {:induction false} LoggingDrops(pending: seq<MeshEvent>, log: seq<Text>, m: nat)
    requires Distinct(Ids(pending)) && m <= |Unlogged(pending, log)|
    ensures var all := Unlogged(pending, log);
            Unlogged(pending, log + Ids(all[..m])) == all[m..]
  {
    if pending != [] {
      var all, rest := Unlogged(pending, log), pending[1..];
      if m == 0 {
        assert log + Ids(all[..0]) == log;
      } else {
        var m' := if pending[0].id in log then m else m - 1;
        RestDistinct(pending);
        UnloggedHead(pending, log);
        UnloggedHead(pending, log + Ids(all[..m]));
        HeadLogged(pending, log, m, m');
        LoggingDrops(rest, log, m');
      }
    }
  }

  lemma HeadLogged(pending: seq<MeshEvent>, log: seq<Text>, m: nat, m': nat)
    requires Distinct(Ids(pending)) && pending != [] && 1 <= m <= |Unlogged(pending, log)|
    requires m' == if pending[0].id in log then m else m - 1
    ensures var all, left := Unlogged(pending, log), Unlogged(pending[1..], log);
            && m' <= |left| && all[m..] == left[m'..]
            && pending[0].id in log + Ids(all[..m])
            && Unlogged(pending[1..], log + Ids(all[..m])) == Unlogged(pending[1..], log + Ids(left[..m']))
  {
    var rest, all, left := pending[1..], Unlogged(pending, log), Unlogged(pending[1..], log);
    UnloggedHead(pending, log);
    if pending[0].id !in log {
      assert all[..m] == [pending[0]] + left[..m'];
      assert Ids(all[..m]) == [pending[0].id] + Ids(left[..m']);
      var log', log'' := log + Ids(left[..m']), log + Ids(all[..m]);
      forall i | 0 <= i < |rest| ensures rest[i].id in log' <==> rest[i].id in log'' {
        assert Ids(pending)[i + 1] != Ids(pending)[0];
      }
      SelectAgrees(rest, log', log'', |rest|);
    }
  }

  /** No pending id is pushed out of a log of at most `cap` entries by `k` more. */
  ghost predicate Steady(pending: seq<MeshEvent>, log: seq<Text>, cap: nat, k: nat) {
    k <= cap && forall i :: 0 <= i < |pending| && pending[i].id in log ==> pending[i].id in LastN(log, cap - k)
  }

  lemma LastNHolds(log: seq<Text>, ids: seq<Text>, cap: nat, k: nat, id: Text)
    requires |ids| <= k <= cap && |log| <= cap
    ensures id in LastN(log + ids, cap) ==> id in log || id in ids
    ensures id in ids ==> id in LastN(log + ids, cap)
    ensures id in LastN(log, cap - k) ==> id in LastN(log + ids, cap)
  {
    var all, kept := log + ids, LastN(log + ids, cap);
    if id in ids {
      var i :| 0 <= i < |ids| && ids[i] == id;
      assert kept[|kept| - |ids| + i] == id;
    }
    if id in LastN(log, cap - k) {
      var r := LastN(log, cap - k);
      var i :| 0 <= i < |r| && r[i] == id;
      assert kept[|kept| - |ids| - |r| + i] == all[|log| - |r| + i] == id;
    }
  }

  /** What is unlogged after the first `m` unlogged events have entered an evicting log. */
  lemma UnloggedAfter(pending: seq<MeshEvent>, log: seq<Text>, cap: nat, k: nat, m: nat)
    requires Distinct(Ids(pending)) && |log| <= cap && Steady(pending, log, cap, k)
    requires m <= k <= |Unlogged(pending, log)|
    ensures var all := Unlogged(pending, log);
            Unlogged(pending, LastN(log + Ids(all[..m]), cap)) == all[m..]
  {
    var ids := Ids(Unlogged(pending, log)[..m]);
    forall i | 0 <= i < |pending|
      ensures pending[i].id in LastN(log + ids, cap) <==> pending[i].id in log + ids
    {
      LastNHolds(log, ids, cap, k, pending[i].id);
    }
    SelectAgrees(pending, LastN(log + ids, cap), log + ids, |pending|);
    LoggingDrops(pending, log, m);
  }

  lemma FlushCountOfPart<E>(wire: E -> Option<seq<byte>>, all: seq<E>, m: nat, n: nat, part: seq<E>)
    requires m <= FlushCount(wire, all) && m + n <= |all| && part == all[m..m + n]
    ensures FlushCount(wire, part) == Least(n, FlushCount(wire, all) - m)
  {
    var k := FlushCount(wire, all);
    FlushCountIs(wire, all, k);
    var k' := Least(n, k - m);
    assert forall i :: 0 <= i < k' ==> part[i] == all[m + i];
    assert k' < n ==> part[k'] == all[k];
    FlushCountIs(wire, part, k');
  }

  /** The log has room, in the sense above, for all that the pump will add. */
  ghost predicate Pumpable(l: Limits, wire: MeshEvent -> Option<seq<byte>>, s: State, p: Peer) {
    && Distinct(Ids(s.pending)) && |LogOf(s, p)| <= l.perPeer && l.perPeer >= 1
    && Steady(s.pending, LogOf(s, p), l.perPeer, FlushCount(wire, Unlogged(s.pending, LogOf(s, p))))
  }

  /** Where `n` passes stand: the first `m` of the events that were unlogged at the start are logged. */
  ghost predicate Reached(l: Limits, s: State, s': State, p: Peer, m: nat) {
    var log := LogOf(s, p);
    && m <= |Unlogged(s.pending, log)|
    && s'.pending == s.pending
    && LogOf(s', p) == LastN(log + Ids(Unlogged(s.pending, log)[..m]), l.perPeer)
  }

  lemma BatchIs(pending: seq<MeshEvent>, log: seq<Text>, all: seq<MeshEvent>, m: nat)
    requires m <= |all| && Unlogged(pending, log) == all[m..]
    ensures Select(pending, log, PUMP_BATCH_MAX_EVENTS) == all[m..m + Least(PUMP_BATCH_MAX_EVENTS, |all| - m)]
  {
    SelectTakes(pending, log, PUMP_BATCH_MAX_EVENTS, |pending|);
    var n := Least(PUMP_BATCH_MAX_EVENTS, |all| - m);
    assert all[m..][..n] == all[m..m + n];
  }

  lemma NextBatch(wire: MeshEvent -> Option<seq<byte>>, pending: seq<MeshEvent>, log: seq<Text>,
                  all: seq<MeshEvent>, m: nat)
    requires m <= FlushCount(wire, all) && Unlogged(pending, log) == all[m..]
    ensures var batch := Select(pending, log, PUMP_BATCH_MAX_EVENTS);
            var sent := FlushCount(wire, batch);
            && m + sent == Least(m + PUMP_BATCH_MAX_EVENTS, FlushCount(wire, all))
            && batch[..sent] == all[m..m + sent]
  {
    BatchIs(pending, log, all, m);
    var batch := Select(pending, log, PUMP_BATCH_MAX_EVENTS);
    FlushCountOfPart(wire, all, m, |batch|, batch);
    SlicePrefix(all, m, |batch|, FlushCount(wire, batch));
  }

  lemma SlicePrefix<T>(s: seq<T>, m: nat, n: nat, k: nat)
    requires k <= n && m + n <= |s|
    ensures s[m..m + n][..k] == s[m..m + k]
  {}

  lemma LogGrows(log: seq<Text>, ids: seq<Text>, more: seq<Text>, cap: nat)
    requires cap >= 1
    ensures Marked(LastN(log + ids, cap), more, cap) == LastN(log + (ids + more), cap)
  {
    MarkedIsLastN(LastN(log + ids, cap), more, cap);
    LastNAppend(log + ids, more, cap);
    Glue(log, ids, more);
  }

  lemma IdsSplit(all: seq<MeshEvent>, m: nat, n: nat)
    requires m <= n <= |all|
    ensures Ids(all[..n]) == Ids(all[..m]) + Ids(all[m..n])
  {}

  lemma MarkingNext(log0: seq<Text>, all: seq<MeshEvent>, m: nat, m': nat, part: seq<MeshEvent>, cap: nat)
    requires cap >= 1 && m <= m' <= |all| && part == all[m..m']
    ensures Marked(LastN(log0 + Ids(all[..m]), cap), Ids(part), cap) == LastN(log0 + Ids(all[..m']), cap)
  {
    LogGrows(log0, Ids(all[..m]), Ids(part), cap);
    IdsSplit(all, m, m');
  }

  lemma PassFromUnlogged(l: Limits, wire: MeshEvent -> Option<seq<byte>>, s: State, s': State, p: Peer, m: nat)
    requires l.perPeer >= 1 && Reached(l, s, s', p, m) && m <= FlushCount(wire, Unlogged(s.pending, LogOf(s, p)))
    requires Unlogged(s.pending, LogOf(s', p)) == Unlogged(s.pending, LogOf(s, p))[m..]
    ensures var k := FlushCount(wire, Unlogged(s.pending, LogOf(s, p)));
            Reached(l, s, Passed(l, wire, s', p), p, Least(m + PUMP_BATCH_MAX_EVENTS, k))
  {
    PassedLog(l, wire, s', p);
    ReachedNext(l, wire, s, s', Passed(l, wire, s', p), p, m);
  }

  lemma ReachedNext(l: Limits, wire: MeshEvent -> Option<seq<byte>>, s: State, s': State, s'': State, p: Peer, m: nat)
    requires l.perPeer >= 1 && Reached(l, s, s', p, m) && m <= FlushCount(wire, Unlogged(s.pending, LogOf(s, p)))
    requires Unlogged(s.pending, LogOf(s', p)) == Unlogged(s.pending, LogOf(s, p))[m..] && s''.pending == s'.pending
    requires var batch := Batch(s', p);
             LogOf(s'', p) == Marked(LogOf(s', p), Ids(batch[..FlushCount(wire, batch)]), l.perPeer)
    ensures var k := FlushCount(wire, Unlogged(s.pending, LogOf(s, p)));
            Reached(l, s, s'', p, Least(m + PUMP_BATCH_MAX_EVENTS, k))
  {
    var all, batch := Unlogged(s.pending, LogOf(s, p)), Batch(s', p);
    var sent := FlushCount(wire, batch);
    NextBatch(wire, s.pending, LogOf(s', p), all, m);
    var m' := Least(m + PUMP_BATCH_MAX_EVENTS, FlushCount(wire, all));
    assert m + sent == m' && batch[..sent] == all[m..m'];
    assert LogOf(s'', p) == LastN(LogOf(s, p) + Ids(all[..m']), l.perPeer) by {
      MarkingNext(LogOf(s, p), all, m, m', batch[..sent], l.perPeer);
    }
  }

  lemma PassedLog(l: Limits, wire: MeshEvent -> Option<seq<byte>>, s: State, p: Peer)
    ensures var batch := Batch(s, p);
            && Passed(l, wire, s, p).pending == s.pending
            && LogOf(Passed(l, wire, s, p), p)
            == Marked(LogOf(s, p), Ids(batch[..FlushCount(wire, batch)]), l.perPeer)
  {
    HandedLog(l, s, p, PUMP_BATCH_MAX_EVENTS, FlushCount(wire, Batch(s, p)));
  }

  lemma PassReaches(l: Limits, wire: MeshEvent -> Option<seq<byte>>, s: State, s': State, p: Peer, m: nat)
    requires Pumpable(l, wire, s, p) && Reached(l, s, s', p, m)
    requires m <= FlushCount(wire, Unlogged(s.pending, LogOf(s, p)))
    ensures var k := FlushCount(wire, Unlogged(s.pending, LogOf(s, p)));
            Reached(l, s, Passed(l, wire, s', p), p, Least(m + PUMP_BATCH_MAX_EVENTS, k))
  {
    UnloggedAfter(s.pending, LogOf(s, p), l.perPeer, FlushCount(wire, Unlogged(s.pending, LogOf(s, p))), m);
    PassFromUnlogged(l, wire, s, s', p, m);
  }

  /** After `n` passes without insertions the events logged anew are the first unlogged ones, in order, 64
      a pass, up to the first oversized event and never past it. */
  lemma {:induction false} PassesReachOversized(l: Limits, wire: MeshEvent -> Option<seq<byte>>, s: State, p: Peer,
                                                n: nat)
    requires Pumpable(l, wire, s, p)
    ensures var k := FlushCount(wire, Unlogged(s.pending, LogOf(s, p)));
            Reached(l, s, Passes(l, wire, s, p, n), p, Least(n * PUMP_BATCH_MAX_EVENTS, k))
  {
    if n == 0 {
      NothingReached(l, s, p);
    } else {
      var k := FlushCount(wire, Unlogged(s.pending, LogOf(s, p)));
      var m := Least((n - 1) * PUMP_BATCH_MAX_EVENTS, k);
      PassesReachOversized(l, wire, s, p, n - 1);
      PassReaches(l, wire, s, Passes(l, wire, s, p, n - 1), p, m);
      assert Least(m + PUMP_BATCH_MAX_EVENTS, k) == Least(n * PUMP_BATCH_MAX_EVENTS, k);
    }
  }

  lemma NothingReached(l: Limits, s: State, p: Peer)
    requires |LogOf(s, p)| <= l.perPeer
    ensures Reached(l, s, s, p, 0)
  {
    assert LogOf(s, p) + Ids(Unlogged(s.pending, LogOf(s, p))[..0]) == LogOf(s, p);
  }

  /** Enough passes log every pending event before the first oversized one that was unlogged, and leave
      that one and all unlogged ones behind it; so all are logged exactly if none was oversized. */
  lemma PumpingIsComplete(l: Limits, wire: MeshEvent -> Option<seq<byte>>, s: State, p: Peer, n: nat)
    requires Pumpable(l, wire, s, p) && n * PUMP_BATCH_MAX_EVENTS >= |s.pending|
    ensures var all := Unlogged(s.pending, LogOf(s, p));
            var left := Unlogged(s.pending, LogOf(Passes(l, wire, s, p, n), p));
            && left == all[FlushCount(wire, all)..]
            && (left == [] <==> forall i :: 0 <= i < |all| ==> !Oversized(wire, all[i]))
  {
    var all := Unlogged(s.pending, LogOf(s, p));
    var k := FlushCount(wire, all);
    FlushCountIs(wire, all, k);
    SelectTakes(s.pending, LogOf(s, p), |s.pending|, |s.pending|);
    PassesReachOversized(l, wire, s, p, n);
    UnloggedAfter(s.pending, LogOf(s, p), l.perPeer, k, k);
  }

  // ---------------------------------------------------------------------------------------------
  // Runs are pumpable
  // ---------------------------------------------------------------------------------------------

  /** Nothing in the outbox is logged because of an earlier stay of the same id. */
  ghost predicate NoStaleEntry(h: History, p: Peer) {
    forall n: nat :: Oldest(h) <= n < |h.stays| && h.stays[n].id in LogOf(h.s, p) ==> n in HandedTo(h, p)
  }

  lemma UnloggedIsPicked(stays: seq<MeshEvent>, oldest: nat, log: seq<Text>)
    requires oldest <= |stays|
    ensures var all, picks := Unlogged(stays[oldest..], log), Picks(stays, oldest, log, |stays| - oldest);
            |picks| == |all| && Distinct(picks)
            && forall i :: 0 <= i < |picks| ==> oldest <= picks[i] < |stays| && stays[picks[i]].id !in log
  {
    SelectAtPicks(stays, oldest, log, |stays| - oldest);
    PicksProperties(stays, oldest, log, |stays| - oldest);
  }

  /** The pigeonhole again: what was handed since a stay in the outbox, and what is still unlogged, all
      lies within the outbox's reach of it. */
  lemma HandedSurvives(l: Limits, stays: seq<MeshEvent>, oldest: nat, ns: seq<nat>, log: seq<Text>, picks: seq<nat>,
                       i: nat)
    requires Sound(l) && PeerInv(l, stays, oldest, ns, log) && |stays| - oldest <= l.pending
    requires i < |ns| && oldest <= ns[i] < |stays| && Distinct(picks)
    requires forall j :: 0 <= j < |picks| ==> oldest <= picks[j] < |stays| && stays[picks[j]].id !in log
    ensures |picks| <= l.perPeer && stays[ns[i]].id in LastN(log, l.perPeer - |picks|)
  {
    var later, window := ns[i + 1..] + picks, Interval(ns[i] - l.pending + 1, ns[i] + l.pending);
    forall j, k | 0 <= j < k < |later| ensures later[j] != later[k] {
      LaterDistinct(l, stays, oldest, ns, log, picks, i, j, k);
    }
    forall j | 0 <= j < |later| ensures later[j] in window - {ns[i] as int} {
      if j < |ns| - i - 1 {
        assert later[j] == ns[i + 1 + j];
      } else {
        InOutboxImpliesInLog(l, stays, oldest, ns, log, i);
      }
    }
    DistinctFitsInt(later, window - {ns[i] as int});
    var ids := IdsAt(stays, ns);
    assert ids[i] == stays[ns[i]].id;
    var recent := LastN(log, l.perPeer - |picks|);
    assert recent[i - (|ns| - |recent|)] == ids[i];
  }

  lemma LaterDistinct(l: Limits, stays: seq<MeshEvent>, oldest: nat, ns: seq<nat>, log: seq<Text>, picks: seq<nat>,
                      i: nat, j: nat, k: nat)
    requires Sound(l) && PeerInv(l, stays, oldest, ns, log) && Distinct(picks)
    requires forall j :: 0 <= j < |picks| ==> oldest <= picks[j] < |stays| && stays[picks[j]].id !in log
    requires i < |ns| && j < k < |ns| - i - 1 + |picks|
    ensures var later := ns[i + 1..] + picks; later[j] != later[k]
  {
    var cut := |ns| - i - 1;
    var later := ns[i + 1..] + picks;
    assert later[j] == if j < cut then ns[i + 1 + j] else picks[j - cut];
    assert later[k] == if k < cut then ns[i + 1 + k] else picks[k - cut];
    if j < cut <= k && oldest <= ns[i + 1 + j] {
      InOutboxImpliesInLog(l, stays, oldest, ns, log, i + 1 + j);
    }
  }

  lemma PendingSurvives(l: Limits, stays: seq<MeshEvent>, oldest: nat, ns: seq<nat>, log: seq<Text>, k: nat, n: nat)
    requires Sound(l) && PeerInv(l, stays, oldest, ns, log) && |stays| - oldest <= l.pending
    requires oldest <= n < |stays| && n in ns && k <= |Unlogged(stays[oldest..], log)|
    ensures k <= l.perPeer && stays[n].id in LastN(log, l.perPeer - k)
  {
    UnloggedIsPicked(stays, oldest, log);
    var picks := Picks(stays, oldest, log, |stays| - oldest)[..k];
    var i :| 0 <= i < |ns| && ns[i] == n;
    HandedSurvives(l, stays, oldest, ns, log, picks, i);
  }

  /** In every run, whatever steps it took, the pump reaches a peer for whom nothing is stale. */
  lemma RunsArePumpable(l: Limits, wire: MeshEvent -> Option<seq<byte>>, h: History, p: Peer)
    requires Sound(l) && Inv(l, h) && NoStaleEntry(h, p)
    ensures Pumpable(l, wire, h.s, p)
  {
    var log := LogOf(h.s, p);
    var k := FlushCount(wire, Unlogged(h.s.pending, log));
    assert PeerOk(l, h, p);
    SelectTakes(h.s.pending, log, 0, |h.s.pending|);
    forall n | 0 <= n < |h.s.pending| && h.s.pending[n].id in log
      ensures h.s.pending[n].id in LastN(log, l.perPeer - k)
    {
      assert h.stays[Oldest(h) + n] == h.s.pending[n];
      PendingSurvives(l, h.stays, Oldest(h), HandedTo(h, p), log, k, Oldest(h) + n);
    }
  }

  // ---------------------------------------------------------------------------------------------
  // The pump from any state of a run
  // ---------------------------------------------------------------------------------------------

  /** The stays that one pass hands over. */
  ghost function PassPicks(wire: MeshEvent -> Option<seq<byte>>, h: History, p: Peer): (picks: seq<nat>)
    requires Oldest(h) >= 0 && h.s.pending == h.stays[Oldest(h)..]
    ensures |picks| == FlushCount(wire, Batch(h.s, p))
    ensures forall i :: 0 <= i < |picks| ==> Oldest(h) <= picks[i] < |h.stays|
  {
    PicksProperties(h.stays, Oldest(h), LogOf(h.s, p), PUMP_BATCH_MAX_EVENTS);
    SelectAtPicks(h.stays, Oldest(h), LogOf(h.s, p), PUMP_BATCH_MAX_EVENTS);
    Picks(h.stays, Oldest(h), LogOf(h.s, p), PUMP_BATCH_MAX_EVENTS)[..FlushCount(wire, Batch(h.s, p))]
  }

  ghost function AfterPass(l: Limits, wire: MeshEvent -> Option<seq<byte>>, h: History, p: Peer): History
    requires Oldest(h) >= 0 && h.s.pending == h.stays[Oldest(h)..]
  {
    History(Passed(l, wire, h.s, p), h.stays, h.handed[p := HandedTo(h, p) + PassPicks(wire, h, p)])
  }

  lemma PassIsStep(l: Limits, wire: MeshEvent -> Option<seq<byte>>, h: History, p: Peer)
    requires Sound(l) && Inv(l, h)
    ensures PumpStep(l, wire, h, p, AfterPass(l, wire, h, p)) && Inv(l, AfterPass(l, wire, h, p))
    ensures AfterPass(l, wire, h, p).s.pending == h.s.pending
  {
    var k := FlushCount(wire, Batch(h.s, p));
    SelectAtPicks(h.stays, Oldest(h), LogOf(h.s, p), PUMP_BATCH_MAX_EVENTS);
    HandedLog(l, h.s, p, PUMP_BATCH_MAX_EVENTS, k);
    HandKeepsInv(l, h, p, PUMP_BATCH_MAX_EVENTS, k, AfterPass(l, wire, h, p));
  }

  /** Nothing can be handed over: all is logged, or the first unlogged event is oversized. */
  ghost predicate Stuck(wire: MeshEvent -> Option<seq<byte>>, s: State, p: Peer) {
    FlushCount(wire, Batch(s, p)) == 0
  }

  lemma StuckMeans(wire: MeshEvent -> Option<seq<byte>>, s: State, p: Peer)
    ensures var left := Unlogged(s.pending, LogOf(s, p));
            Stuck(wire, s, p) <==> left == [] || Oversized(wire, left[0])
  {
    SelectTakes(s.pending, LogOf(s, p), PUMP_BATCH_MAX_EVENTS, |s.pending|);
    FlushCountIs(wire, Batch(s, p), 0);
  }

  lemma StuckStays(l: Limits, wire: MeshEvent -> Option<seq<byte>>, s: State, p: Peer)
    requires Stuck(wire, s, p)
    ensures Stuck(wire, Passed(l, wire, s, p), p)
  {
    HandedLog(l, s, p, PUMP_BATCH_MAX_EVENTS, 0);
    assert Batch(s, p)[..0] == [] && Ids([]) == [];
  }

  /** Where `n` passes lead: to a state of the same run, with the stays `extra` handed over since. */
  ghost predicate Pumped(l: Limits, wire: MeshEvent -> Option<seq<byte>>, h: History, p: Peer, n: nat, h': History,
                         extra: seq<nat>) {
    && Inv(l, h') && h'.s == Passes(l, wire, h.s, p, n) && h'.stays == h.stays && h'.s.pending == h.s.pending
    && HandedTo(h', p) == HandedTo(h, p) + extra
    && forall i :: 0 <= i < |extra| ==> Oldest(h) <= extra[i] < |h.stays|
  }

  lemma NextPass(l: Limits, wire: MeshEvent -> Option<seq<byte>>, h: History, p: Peer, n: nat, h': History,
                 extra: seq<nat>)
    requires Sound(l) && Inv(l, h) && Pumped(l, wire, h, p, n, h', extra)
    ensures Pumped(l, wire, h, p, n + 1, AfterPass(l, wire, h', p), extra + PassPicks(wire, h', p))
  {
    PassIsStep(l, wire, h', p);
    Glue(HandedTo(h, p), extra, PassPicks(wire, h', p));
  }

  /** Each pass hands over a stay it never handed over, or is stuck. */
  lemma {:induction false} PassesProgress(l: Limits, wire: MeshEvent -> Option<seq<byte>>, h: History, p: Peer, n: nat)
    returns (h': History, extra: seq<nat>)
    requires Sound(l) && Inv(l, h)
    ensures Pumped(l, wire, h, p, n, h', extra) && (Stuck(wire, h'.s, p) || |extra| >= n)
  {
    if n == 0 {
      h', extra := h, [];
    } else {
      var h0, extra0 := PassesProgress(l, wire, h, p, n - 1);
      NextPass(l, wire, h, p, n - 1, h0, extra0);
      h', extra := AfterPass(l, wire, h0, p), extra0 + PassPicks(wire, h0, p);
      if Stuck(wire, h0.s, p) { StuckStays(l, wire, h0.s, p); }
    }
  }

  /** No more stays are handed over than the outbox holds. */
  lemma ExtraFits(l: Limits, wire: MeshEvent -> Option<seq<byte>>, h: History, p: Peer, n: nat, h': History,
                  extra: seq<nat>)
    requires Inv(l, h) && Pumped(l, wire, h, p, n, h', extra)
    ensures |extra| <= |h.s.pending|
  {
    assert PeerOk(l, h', p);
    var all := HandedTo(h', p);
    forall i, j | 0 <= i < j < |extra| ensures extra[i] != extra[j] {
      assert all[|HandedTo(h, p)| + i] == extra[i] && all[|HandedTo(h, p)| + j] == extra[j];
    }
    DistinctFitsInt(extra, Interval(Oldest(h), |h.stays|));
  }

  /** From any state a run reaches, with ids logged from earlier stays or not: more passes than the outbox
      holds leave nothing unlogged, or an oversized event and what follows it. */
  lemma PumpingEnds(l: Limits, wire: MeshEvent -> Option<seq<byte>>, h: History, p: Peer, n: nat)
    requires Sound(l) && Inv(l, h) && n > |h.s.pending|
    ensures var s := Passes(l, wire, h.s, p, n);
            var left := Unlogged(h.s.pending, LogOf(s, p));
            s.pending == h.s.pending && (left == [] || Oversized(wire, left[0]))
  {
    var h', extra := PassesProgress(l, wire, h, p, n);
    ExtraFits(l, wire, h, p, n, h', extra);
    StuckMeans(wire, h'.s, p);
  }

  /** And no number of passes logs an oversized event that was not logged. */
  lemma {:induction false} OversizedStaysUnlogged(l: Limits, wire: MeshEvent -> Option<seq<byte>>, s: State, p: Peer,
                                                  n: nat, i: nat)
    requires l.perPeer >= 1 && |LogOf(s, p)| <= l.perPeer && Distinct(Ids(s.pending))
    requires i < |s.pending| && Oversized(wire, s.pending[i]) && s.pending[i].id !in LogOf(s, p)
    ensures var s' := Passes(l, wire, s, p, n);
            s'.pending == s.pending && |LogOf(s', p)| <= l.perPeer && s.pending[i].id !in LogOf(s', p)
  {
    if n > 0 {
      var before := Passes(l, wire, s, p, n - 1);
      OversizedStaysUnlogged(l, wire, s, p, n - 1, i);
      PassLeavesOversized(l, wire, before, p, i);
    }
  }

  lemma PassLeavesOversized(l: Limits, wire: MeshEvent -> Option<seq<byte>>, s: State, p: Peer, i: nat)
    requires l.perPeer >= 1 && |LogOf(s, p)| <= l.perPeer && Distinct(Ids(s.pending))
    requires i < |s.pending| && Oversized(wire, s.pending[i]) && s.pending[i].id !in LogOf(s, p)
    ensures var s' := Passed(l, wire, s, p);
            s'.pending == s.pending && |LogOf(s', p)| <= l.perPeer && s.pending[i].id !in LogOf(s', p)
  {
    var batch := Batch(s, p);
    assert s.pending[0..] == s.pending;
    PassLeavesUnlogged(wire, s.pending, 0, LogOf(s, p), l.perPeer, i);
    PassedLog(l, wire, s, p);
    MarkedIsLastN(LogOf(s, p), Ids(batch[..FlushCount(wire, batch)]), l.perPeer);
  }

  /** So pumping hands everything over if no pending event is oversized, and only if every oversized one was
      logged before. */
  lemma PumpingEmpties(l: Limits, wire: MeshEvent -> Option<seq<byte>>, h: History, p: Peer, n: nat)
    requires Sound(l) && Inv(l, h) && n > |h.s.pending|
    ensures var left := Unlogged(h.s.pending, LogOf(Passes(l, wire, h.s, p, n), p));
            && ((forall i :: 0 <= i < |h.s.pending| ==> !Oversized(wire, h.s.pending[i])) ==> left == [])
            && (left == [] ==> forall i :: 0 <= i < |h.s.pending| && Oversized(wire, h.s.pending[i]) ==>
                  h.s.pending[i].id in LogOf(h.s, p))
  {
    var log := LogOf(Passes(l, wire, h.s, p, n), p);
    var left := Unlogged(h.s.pending, log);
    PumpingEnds(l, wire, h, p, n);
    UnloggedHolds(h.s.pending, log);
    assert left != [] ==> left[0] in left;
    forall i | 0 <= i < |h.s.pending| && Oversized(wire, h.s.pending[i]) && h.s.pending[i].id !in LogOf(h.s, p)
      ensures h.s.pending[i].id !in log
    {
      assert PeerOk(l, h, p);
      OversizedStaysUnlogged(l, wire, h.s, p, n, i);
    }
  }

  lemma {:induction false} UnloggedHolds(pending: seq<MeshEvent>, log: seq<Text>)
    ensures var left := Unlogged(pending, log);
            && (forall e :: e in left <==> e in pending && e.id !in log)
  {
    if pending != [] {
      UnloggedHead(pending, log);
      UnloggedHolds(pending[1..], log);
      assert pending == [pending[0]] + pending[1..];
    }
  }
}
