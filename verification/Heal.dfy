/** Catch-up between two nodes after a partition: each drains `take_heal_batch` into the other.

    Every received event is taken to be admitted. The nodes share at most one outbox of events, so
    nothing is evicted, and each node has marked as delivered only what the other already knows. */
module Heal {
  import opened Bytes
  import opened Wire
  import opened Gossip

  lemma InsertWithinOutbox(s: State, e: MeshEvent, s': State)
    requires OutboxInv(LIMITS, s) && Inserted(LIMITS, s, e, s')
    requires |s.known + {e.id}| <= LIMITS.pending
    ensures OutboxInv(LIMITS, s') && s'.known == s.known + {e.id} && s'.delivered == s.delivered
  {
    InsertKeepsOutbox(LIMITS, s, e, s');
    if e.id in s.known {
      assert s.known + {e.id} == s.known;
    } else {
      IdSetCardinality(s'.pending);
      PushedIds(s.pending, e, LIMITS.pending);
      ExpiryMeetsBound(s.known + {e.id}, IdSet(s'.pending), LIMITS.known, s'.known);
    }
  }

  lemma InsertAddsOne(s: State, e: MeshEvent, s': State)
    requires OutboxInv(LIMITS, s) && Inserted(LIMITS, s, e, s')
    ensures OutboxInv(LIMITS, s') && s'.known <= s.known + {e.id} && e.id in s'.known && s'.delivered == s.delivered
  {
    InsertKeepsOutbox(LIMITS, s, e, s');
    if e.id !in s.known {
      assert s'.pending[|s'.pending| - 1] == e;
      assert e in s'.pending;
    }
  }

  method ReceiveEvent(to: GossipProtocol, e: MeshEvent)
    requires OutboxInv(LIMITS, to.View())
    modifies to
    ensures OutboxInv(LIMITS, to.View()) && to.delivered == old(to.delivered)
    ensures e.id in to.knownEvents && to.knownEvents <= old(to.knownEvents) + {e.id}
    ensures |old(to.knownEvents) + {e.id}| <= LIMITS.pending ==> to.knownEvents == old(to.knownEvents) + {e.id}
    ensures e.id in old(to.knownEvents) ==> to.View() == old(to.View())
  {
    ghost var before := to.View();
    var _ := to.InsertNew(e);
    InsertAddsOne(before, e, to.View());
    if |before.known + {e.id}| <= LIMITS.pending { InsertWithinOutbox(before, e, to.View()); }
  }

  lemma IdSetSnoc(es: seq<MeshEvent>, i: nat)
    requires i < |es|
    ensures IdSet(es[..i + 1]) == IdSet(es[..i]) + {es[i].id} <= IdSet(es)
  {
    assert es[..i + 1] == es[..i] + [es[i]];
    forall e | e in es[..i + 1] ensures e in es {}
  }

  method ReceiveNext(to: GossipProtocol, batch: seq<MeshEvent>, i: nat, ghost known0: set<Text>)
    requires i < |batch| && OutboxInv(LIMITS, to.View()) && to.knownEvents <= known0 + IdSet(batch[..i])
    requires |known0 + IdSet(batch)| <= LIMITS.pending ==> to.knownEvents == known0 + IdSet(batch[..i])
    modifies to
    ensures OutboxInv(LIMITS, to.View()) && to.delivered == old(to.delivered)
    ensures to.knownEvents <= known0 + IdSet(batch[..i + 1])
    ensures |known0 + IdSet(batch)| <= LIMITS.pending ==> to.knownEvents == known0 + IdSet(batch[..i + 1])
    ensures batch[i].id in old(to.knownEvents) ==> to.View() == old(to.View())
  {
    IdSetSnoc(batch, i);
    if |known0 + IdSet(batch)| <= LIMITS.pending { KnownFits(known0, IdSet(batch), to.knownEvents + {batch[i].id}); }
    ReceiveEvent(to, batch[i]);
  }

  /** The receiving half of a batch: nothing else becomes known, and all of it does while everything known
      fits one outbox. */
  method Receive(to: GossipProtocol, batch: seq<MeshEvent>)
    requires OutboxInv(LIMITS, to.View())
    modifies to
    ensures OutboxInv(LIMITS, to.View()) && to.delivered == old(to.delivered)
    ensures to.knownEvents <= old(to.knownEvents) + IdSet(batch)
    ensures |old(to.knownEvents) + IdSet(batch)| <= LIMITS.pending ==>
      to.knownEvents == old(to.knownEvents) + IdSet(batch)
    ensures IdSet(batch) <= old(to.knownEvents) ==> to.View() == old(to.View())
  {
    assert batch[..|batch|] == batch;
    ghost var start := to.View();
    for i := 0 to |batch|
      invariant OutboxInv(LIMITS, to.View()) && to.delivered == start.delivered
      invariant to.knownEvents <= start.known + IdSet(batch[..i])
      invariant |start.known + IdSet(batch)| <= LIMITS.pending ==> to.knownEvents == start.known + IdSet(batch[..i])
      invariant IdSet(batch) <= start.known ==> to.View() == start
    {
      assert batch[i].id in IdSet(batch) by { IdSetSnoc(batch, i); }
      ReceiveNext(to, batch, i, start.known);
    }
  }

  lemma KnownFits(known: set<Text>, more: set<Text>, now: set<Text>)
    requires |known + more| <= LIMITS.pending && now <= known + more
    ensures |now| <= LIMITS.pending
  {
    SubsetCardinality(now, known + more);
  }

  // ---------------------------------------------------------------------------------------------
  // One drain
  // ---------------------------------------------------------------------------------------------

  lemma {:induction false} SelectProperties(pending: seq<MeshEvent>, log: seq<Text>, max: nat)
    requires Distinct(Ids(pending))
    ensures var b := Select(pending, log, max);
            && Distinct(Ids(b))
            && (forall e :: e in b ==> e in pending && e.id !in log)
            && (max > 0 && b == [] ==> forall e :: e in pending ==> e.id in log)
  {
    if max != 0 && pending != [] {
      var rest := pending[1..];
      assert forall i :: 0 <= i < |rest| ==> Ids(rest)[i] == Ids(pending)[i + 1];
      if pending[0].id in log {
        SelectProperties(rest, log, max);
      } else {
        SelectProperties(rest, log, max - 1);
        ConsDistinct(pending[0], Select(rest, log, max - 1), pending);
      }
    }
  }

  lemma ConsDistinct(e: MeshEvent, b: seq<MeshEvent>, pending: seq<MeshEvent>)
    requires pending != [] && pending[0] == e && Distinct(Ids(pending)) && Distinct(Ids(b))
    requires forall f :: f in b ==> f in pending[1..]
    ensures Distinct(Ids([e] + b))
  {
    forall i | 0 <= i < |b| ensures b[i].id != e.id {
      assert b[i] in pending[1..];
      var k :| 0 <= k < |pending| - 1 && pending[1..][k] == b[i];
      assert Ids(pending)[k + 1] != Ids(pending)[0];
    }
    var all := Ids([e] + b);
    forall i, j | 0 <= i < j < |all| ensures all[i] != all[j] {
      assert all[j] == Ids(b)[j - 1];
      if i > 0 { assert all[i] == Ids(b)[i - 1]; }
    }
  }

  /** `sent` is what one drain of an outbox holding `pending` handed to a peer, whose log has gone from
      `log0` to `log` meanwhile. */
  ghost predicate Session(pending: seq<MeshEvent>, log0: seq<Text>, sent: seq<MeshEvent>, log: seq<Text>) {
    && Distinct(Ids(sent))
    && (forall e :: e in sent ==> e in pending && e.id !in Recent(log0))
    && log == LastN(log0 + Ids(sent), LIMITS.perPeer)
  }

  /** The entries no single drain can push out of a log. */
  function Recent(log: seq<Text>): seq<Text> { LastN(log, LIMITS.perPeer - LIMITS.pending) }

  lemma SentFits(pending: seq<MeshEvent>, sent: seq<MeshEvent>)
    requires Distinct(Ids(pending)) && Distinct(Ids(sent)) && |pending| <= LIMITS.pending
    requires forall e :: e in sent ==> e in pending
    ensures |sent| <= |pending|
  {
    IdSetCardinality(pending);
    IdSetCardinality(sent);
    SubsetCardinality(IdSet(sent), IdSet(pending));
  }

  lemma LoggedStays(log0: seq<Text>, ids: seq<Text>, log: seq<Text>, id: Text)
    requires log == LastN(log0 + ids, LIMITS.perPeer) && |ids| <= LIMITS.pending
    requires id in ids || id in Recent(log0)
    ensures id in log
  {
    var all := log0 + ids;
    var cut := |all| - |log|;
    if id in ids {
      var i :| 0 <= i < |ids| && ids[i] == id;
      assert log[|log0| + i - cut] == id;
    } else {
      var r := Recent(log0);
      var i :| 0 <= i < |r| && r[i] == id;
      assert all[|log0| - |r| + i] == id;
      assert log[|log0| - |r| + i - cut] == id;
    }
  }

  lemma JoinedDistinct(sent: seq<MeshEvent>, batch: seq<MeshEvent>)
    requires Distinct(Ids(sent)) && Distinct(Ids(batch)) && forall e :: e in batch ==> e.id !in Ids(sent)
    ensures Ids(sent + batch) == Ids(sent) + Ids(batch) && Distinct(Ids(sent + batch))
  {
    var all := Ids(sent + batch);
    assert all == Ids(sent) + Ids(batch);
    forall i, j | 0 <= i < j < |all| ensures all[i] != all[j] {
      if i < |sent| <= j { assert batch[j - |sent|] in batch && Ids(sent)[i] in Ids(sent); }
    }
  }

  lemma SessionStep(pending: seq<MeshEvent>, log0: seq<Text>, sent: seq<MeshEvent>, log: seq<Text>,
                    batch: seq<MeshEvent>, log': seq<Text>)
    requires Distinct(Ids(pending)) && |pending| <= LIMITS.pending && |log0| <= LIMITS.perPeer
    requires Session(pending, log0, sent, log)
    requires batch == Select(pending, log, HEAL_BATCH_MAX_EVENTS)
    requires log' == Marked(log, Ids(batch), LIMITS.perPeer)
    ensures Session(pending, log0, sent + batch, log') && |sent + batch| <= |pending|
  {
    SelectProperties(pending, log, HEAL_BATCH_MAX_EVENTS);
    SentFits(pending, sent);
    forall e | e in batch ensures e.id !in Ids(sent) && e.id !in Recent(log0) {
      if e.id in Ids(sent) || e.id in Recent(log0) { LoggedStays(log0, Ids(sent), log, e.id); }
    }
    JoinedDistinct(sent, batch);
    SentFits(pending, sent + batch);
    MarkedIsLastN(log, Ids(batch), LIMITS.perPeer);
    LastNAppend(log0 + Ids(sent), Ids(batch), LIMITS.perPeer);
    Glue(log0, Ids(sent), Ids(batch));
  }

  /** Everything `from` holds is logged as delivered to `p`: nothing is left to send. */
  ghost predicate Drained(s: State, p: Peer) {
    forall i :: 0 <= i < |s.pending| ==> s.pending[i].id in LogOf(s, p)
  }

  /** One `take_heal_batch` continues the session of a drain. */
  method DrainBatch(from: GossipProtocol, p: Peer, ghost log0: seq<Text>, ghost sent: seq<MeshEvent>)
    returns (batch: seq<MeshEvent>)
    requires |from.pendingBroadcasts| <= LIMITS.pending && Distinct(Ids(from.pendingBroadcasts))
    requires |log0| <= LIMITS.perPeer
    requires Session(from.pendingBroadcasts, log0, sent, LogOf(from.View(), p))
    modifies from`delivered
    ensures Session(from.pendingBroadcasts, log0, sent + batch, LogOf(from.View(), p))
    ensures |sent + batch| <= |from.pendingBroadcasts|
    ensures forall e :: e in batch ==> e in from.pendingBroadcasts
    ensures batch == [] <==> Drained(old(from.View()), p)
    ensures batch == [] ==> LogOf(from.View(), p) == LogOf(old(from.View()), p)
    ensures forall q :: q != p ==> LogOf(from.View(), q) == LogOf(old(from.View()), q)
  {
    ghost var before := from.View();
    batch := from.TakeHealBatch(p);
    SelectProperties(from.pendingBroadcasts, LogOf(before, p), HEAL_BATCH_MAX_EVENTS);
    HandedLog(LIMITS, before, p, HEAL_BATCH_MAX_EVENTS, |batch|);
    assert batch[..|batch|] == batch;
    SessionStep(from.pendingBroadcasts, log0, sent, LogOf(before, p), batch, LogOf(from.View(), p));
    if batch != [] { assert batch[0] in batch; }
  }

  lemma BatchFits(known0: set<Text>, pending: seq<MeshEvent>, fromKnown: set<Text>, sent: seq<MeshEvent>,
                  batch: seq<MeshEvent>)
    requires IdSet(pending) <= fromKnown && |known0 + fromKnown| <= LIMITS.pending
    requires forall e :: e in sent + batch ==> e in pending
    ensures IdSet(sent + batch) == IdSet(sent) + IdSet(batch)
    ensures |(known0 + IdSet(sent)) + IdSet(batch)| <= LIMITS.pending
  {
    assert IdSet(sent + batch) == IdSet(sent) + IdSet(batch);
    assert IdSet(sent + batch) <= IdSet(pending);
    SubsetCardinality((known0 + IdSet(sent)) + IdSet(batch), known0 + fromKnown);
  }

  /** Where a drain stands once it has sent `sent`: `log0` is the sender's log and `known0` the ids the
      receiver knew when it began. */
  ghost predicate Draining(from: GossipProtocol, to: GossipProtocol, p: Peer, log0: seq<Text>,
                           known0: set<Text>, sent: seq<MeshEvent>)
    reads from, to
  {
    && from != to && OutboxInv(LIMITS, from.View()) && OutboxInv(LIMITS, to.View())
    && |log0| <= LIMITS.perPeer && |known0 + from.knownEvents| <= LIMITS.pending
    && Session(from.pendingBroadcasts, log0, sent, LogOf(from.View(), p))
    && to.knownEvents == known0 + IdSet(sent)
  }

  ghost predicate OtherLogsKept(s: State, s': State, p: Peer) {
    forall q :: q != p ==> LogOf(s', q) == LogOf(s, q)
  }

  method DrainStep(from: GossipProtocol, to: GossipProtocol, p: Peer, ghost log0: seq<Text>,
                   ghost known0: set<Text>, ghost sent: seq<MeshEvent>)
    returns (batch: seq<MeshEvent>)
    requires Draining(from, to, p, log0, known0, sent)
    modifies from`delivered, to
    ensures Draining(from, to, p, log0, known0, sent + batch)
    ensures |sent + batch| <= |from.pendingBroadcasts|
    ensures batch == [] <==> Drained(old(from.View()), p)
    ensures batch == [] ==> LogOf(from.View(), p) == LogOf(old(from.View()), p)
    ensures IdSet(sent + batch) <= old(to.knownEvents) ==> to.View() == old(to.View())
    ensures OtherLogsKept(old(from.View()), from.View(), p) && to.delivered == old(to.delivered)
  {
    batch := DrainBatch(from, p, log0, sent);
    BatchFits(known0, from.pendingBroadcasts, from.knownEvents, sent, batch);
    Receive(to, batch);
  }

  method Drain(from: GossipProtocol, to: GossipProtocol, p: Peer) returns (sent: seq<MeshEvent>)
    requires Draining(from, to, p, LogOf(from.View(), p), to.knownEvents, [])
    modifies from`delivered, to
    ensures Draining(from, to, p, LogOf(old(from.View()), p), old(to.knownEvents), sent)
    ensures Drained(from.View(), p)
    ensures sent == [] <==> Drained(old(from.View()), p)
    ensures IdSet(sent) <= old(to.knownEvents) ==> to.View() == old(to.View())
    ensures OtherLogsKept(old(from.View()), from.View(), p) && to.delivered == old(to.delivered)
  {
    sent := [];
    ghost var log0, known0 := LogOf(from.View(), p), to.knownEvents;
    while true
      invariant from.pendingBroadcasts == old(from.pendingBroadcasts)
      invariant Draining(from, to, p, log0, known0, sent) && |sent| <= |from.pendingBroadcasts|
      invariant IdSet(sent) <= known0 ==> to.View() == old(to.View())
      invariant sent == [] ==> LogOf(from.View(), p) == log0
      invariant sent != [] ==> !Drained(old(from.View()), p)
      invariant OtherLogsKept(old(from.View()), from.View(), p) && to.delivered == old(to.delivered)
      decreases |from.pendingBroadcasts| - |sent|
    {
      var batch := DrainStep(from, to, p, log0, known0, sent);
      if batch == [] {
        assert sent + batch == sent;
        break;
      }
      sent := sent + batch;
    }
  }

  // ---------------------------------------------------------------------------------------------
  // Draining both ways
  // ---------------------------------------------------------------------------------------------

  /** Two nodes whose events fit in one outbox; `pa` names `a` to `b`, and `pb` names `b` to `a`. */
  ghost predicate Pair(a: GossipProtocol, b: GossipProtocol, pa: Peer, pb: Peer)
    reads a, b
  {
    && a != b && OutboxInv(LIMITS, a.View()) && OutboxInv(LIMITS, b.View())
    && |a.knownEvents + b.knownEvents| <= LIMITS.pending
    && |LogOf(a.View(), pb)| <= LIMITS.perPeer && |LogOf(b.View(), pa)| <= LIMITS.perPeer
    && LogKnown(LogOf(a.View(), pb), b.knownEvents) && LogKnown(LogOf(b.View(), pa), a.knownEvents)
  }

  ghost predicate LogKnown(log: seq<Text>, known: set<Text>) {
    forall i :: 0 <= i < |log| ==> log[i] in known
  }

  lemma LogStaysKnown(log0: seq<Text>, known0: set<Text>, sent: seq<MeshEvent>, log: seq<Text>)
    requires LogKnown(log0, known0) && log == LastN(log0 + Ids(sent), LIMITS.perPeer)
    ensures LogKnown(log, known0 + IdSet(sent))
  {
    var all := log0 + Ids(sent);
    var cut := |all| - |log|;
    forall i | 0 <= i < |log| ensures log[i] in known0 + IdSet(sent) {
      assert log[i] == all[cut + i];
      if cut + i >= |log0| { assert sent[cut + i - |log0|] in sent; }
    }
  }

  lemma SentIsRecent(log0: seq<Text>, sent: seq<MeshEvent>, log: seq<Text>)
    requires log == LastN(log0 + Ids(sent), LIMITS.perPeer) && |sent| <= LIMITS.pending
    ensures AllIn(sent, Recent(log))
  {
    var all, r := log0 + Ids(sent), Recent(log);
    forall i | 0 <= i < |sent| ensures sent[i].id in r {
      assert all[|log0| + i] == sent[i].id;
      assert r[|log0| + i - (|all| - |r|)] == sent[i].id;
    }
  }

  /** A drained sender whose log lists only what the receiver knows leaves the receiver with every id
      the sender knows. */
  lemma DrainedReceiverKnowsAll(s: State, p: Peer, known: set<Text>, sent: seq<MeshEvent>)
    requires s.known == IdSet(s.pending) && Drained(s, p) && LogKnown(LogOf(s, p), known)
    requires forall e :: e in sent ==> e in s.pending
    ensures IdSet(sent) <= s.known <= known
  {
    forall e | e in s.pending ensures e.id in known {
      var i :| 0 <= i < |s.pending| && s.pending[i] == e;
      var log := LogOf(s, p);
      var k :| 0 <= k < |log| && log[k] == e.id;
    }
    forall e | e in sent ensures e.id in s.known { assert e in s.pending; }
  }

  ghost predicate AllIn(es: seq<MeshEvent>, ids: seq<Text>) { forall i :: 0 <= i < |es| ==> es[i].id in ids }
  ghost predicate NoneIn(es: seq<MeshEvent>, ids: seq<Text>) { forall i :: 0 <= i < |es| ==> es[i].id !in ids }

  lemma EmptySession(s: State, p: Peer)
    requires |LogOf(s, p)| <= LIMITS.perPeer
    ensures Session(s.pending, LogOf(s, p), [], LogOf(s, p)) && IdSet([]) == {}
  {
    assert LogOf(s, p) + Ids([]) == LogOf(s, p);
  }

  lemma PairFits(known: set<Text>, other: set<Text>)
    requires |known + other| <= LIMITS.pending
    ensures |known| <= LIMITS.pending && |other + known| <= LIMITS.pending
    ensures known + (other + known) == known + other && (other + known) + known == known + other
  {
    SubsetCardinality(known, known + other);
    assert other + known == known + other;
    assert known + (other + known) == known + other;
  }

  lemma DrainOutcome(s: State, p: Peer, log0: seq<Text>, known0: set<Text>, sent: seq<MeshEvent>)
    requires OutboxInv(LIMITS, s) && |s.known| <= LIMITS.pending && Drained(s, p)
    requires Session(s.pending, log0, sent, LogOf(s, p)) && LogKnown(log0, known0)
    ensures IdSet(sent) <= s.known && known0 + IdSet(sent) == known0 + s.known
    ensures LogKnown(LogOf(s, p), known0 + s.known) && |LogOf(s, p)| <= LIMITS.perPeer
    ensures |sent| <= LIMITS.pending && AllIn(sent, Recent(LogOf(s, p))) && NoneIn(sent, Recent(log0))
  {
    LogStaysKnown(log0, known0, sent, LogOf(s, p));
    DrainedReceiverKnowsAll(s, p, known0 + IdSet(sent), sent);
    SentFits(s.pending, sent);
    SentIsRecent(log0, sent, LogOf(s, p));
    assert known0 + IdSet(sent) == known0 + s.known;
    forall i | 0 <= i < |sent| ensures sent[i].id !in Recent(log0) { assert sent[i] in sent; }
  }

  /** A drain inside a pair. */
  method DrainPair(from: GossipProtocol, to: GossipProtocol, pFrom: Peer, pTo: Peer)
    returns (sent: seq<MeshEvent>)
    requires Pair(from, to, pFrom, pTo)
    modifies from`delivered, to
    ensures Pair(to, from, pTo, pFrom)
    ensures to.knownEvents == old(to.knownEvents) + from.knownEvents
    ensures Drained(from.View(), pTo) && to.delivered == old(to.delivered)
    ensures sent == [] <==> Drained(old(from.View()), pTo)
    ensures from.knownEvents <= old(to.knownEvents) ==> to.View() == old(to.View())
    ensures Distinct(Ids(sent))
    ensures NoneIn(sent, Recent(LogOf(old(from.View()), pTo)))
    ensures |sent| <= LIMITS.pending && AllIn(sent, Recent(LogOf(from.View(), pTo)))
  {
    ghost var log0, known0 := LogOf(from.View(), pTo), to.knownEvents;
    EmptySession(from.View(), pTo);
    PairFits(from.knownEvents, to.knownEvents);
    sent := Drain(from, to, pTo);
    DrainOutcome(from.View(), pTo, log0, known0, sent);
  }

  lemma UnionBothWays(known: set<Text>, other: set<Text>)
    ensures known + (other + known) == known + other == other + known
  {}

  /** One drain each way: both nodes end up knowing the union. */
  method Exchange(a: GossipProtocol, b: GossipProtocol, pa: Peer, pb: Peer)
    returns (ab: seq<MeshEvent>, ba: seq<MeshEvent>)
    requires Pair(a, b, pa, pb)
    modifies a, b
    ensures Pair(a, b, pa, pb)
    ensures a.knownEvents == b.knownEvents == old(a.knownEvents) + old(b.knownEvents)
    ensures Drained(b.View(), pa)
    ensures Distinct(Ids(ab)) && Distinct(Ids(ba))
    ensures |ab| <= LIMITS.pending && AllIn(ab, Recent(LogOf(a.View(), pb)))
  {
    ghost var knownA, knownB := a.knownEvents, b.knownEvents;
    ab := DrainPair(a, b, pa, pb);
    ba := DrainPair(b, a, pb, pa);
    UnionBothWays(knownA, knownB);
  }

  /** After an exchange one more drain may echo what `a` has just learnt; nothing is sent after that,
      however many drains follow. */
  method Settle(a: GossipProtocol, b: GossipProtocol, pa: Peer, pb: Peer, rounds: nat)
    returns (echo: seq<MeshEvent>, later: seq<MeshEvent>)
    requires Pair(a, b, pa, pb) && a.knownEvents == b.knownEvents && Drained(b.View(), pa)
    modifies a, b
    ensures a.knownEvents == b.knownEvents == old(a.knownEvents)
    ensures Distinct(Ids(echo)) && NoneIn(echo, Recent(LogOf(old(a.View()), pb)))
    ensures later == []
  {
    echo := DrainPair(a, b, pa, pb);
    later := [];
    for i := 0 to rounds
      invariant Pair(b, a, pb, pa) && a.knownEvents == b.knownEvents == old(a.knownEvents)
      invariant Drained(a.View(), pb) && Drained(b.View(), pa) && later == []
    {
      var toA := DrainPair(b, a, pb, pa);
      var toB := DrainPair(a, b, pa, pb);
      later := later + toA + toB;
    }
  }

  lemma NoSecondCrossing(ab: seq<MeshEvent>, echo: seq<MeshEvent>, recent: seq<Text>)
    requires Distinct(Ids(ab)) && Distinct(Ids(echo))
    requires AllIn(ab, recent) && NoneIn(echo, recent)
    ensures Distinct(Ids(ab + echo))
  {
    var all := Ids(ab + echo);
    forall i, j | 0 <= i < j < |all| ensures all[i] != all[j] {
      assert all[j] == if j < |ab| then Ids(ab)[j] else Ids(echo)[j - |ab|];
      assert all[i] == if i < |ab| then Ids(ab)[i] else Ids(echo)[i - |ab|];
      if i < |ab| <= j { assert ab[i] in ab && echo[j - |ab|] in echo; }
    }
  }

  /** The whole catch-up: after one drain each way the nodes know the union, no id crosses either way
      twice, and from the fourth drain on nothing crosses at all. */
  method Reconcile(a: GossipProtocol, b: GossipProtocol, pa: Peer, pb: Peer, rounds: nat)
    returns (ab: seq<MeshEvent>, ba: seq<MeshEvent>, later: seq<MeshEvent>)
    requires Pair(a, b, pa, pb)
    modifies a, b
    ensures a.knownEvents == b.knownEvents == old(a.knownEvents) + old(b.knownEvents)
    ensures Distinct(Ids(ab)) && Distinct(Ids(ba)) && later == []
  {
    ab, ba := Exchange(a, b, pa, pb);
    ghost var recent := Recent(LogOf(a.View(), pb));
    var echo;
    echo, later := Settle(a, b, pa, pb, rounds);
    NoSecondCrossing(ab, echo, recent);
    ab := ab + echo;
  }
}
