/** The gossip outbox (`GossipProtocol`): a bounded set of known ids, a bounded FIFO outbox and one
    bounded delivery log per peer.

    The outbox never empties by sending: each peer is offered what its own log does not list. The
    logs forget, so the central result is that forgetting is harmless: during one stay in the outbox
    an event is handed to a given peer at most once. */
module Gossip {
  import opened Bytes
  import opened Wire

  type Peer = string

  /** `MAX_KNOWN_EVENTS`, `MAX_PENDING_BROADCASTS` and `MAX_DELIVERED_PER_PEER`. */
  datatype Limits = Limits(known: nat, pending: nat, perPeer: nat)

  const LIMITS := Limits(10_000, 1_000, 2_000)

  /** The relation between the limits on which the results below rest. */
  predicate Sound(l: Limits) {
    1 <= l.pending < l.known && 2 * l.pending - 1 <= l.perPeer
  }

  datatype State = State(known: set<Text>, pending: seq<MeshEvent>, delivered: map<Peer, seq<Text>>)

  const EMPTY := State({}, [], map[])

  function LogOf(s: State, p: Peer): seq<Text> {
    if p in s.delivered then s.delivered[p] else []
  }

  function Ids(es: seq<MeshEvent>): (ids: seq<Text>)
    ensures |ids| == |es|
  {
    seq(|es|, i requires 0 <= i < |es| => es[i].id)
  }

  function IdSet(es: seq<MeshEvent>): set<Text> { set e | e in es :: e.id }

  // ---------------------------------------------------------------------------------------------
  // The operations as functions and relations on states
  // ---------------------------------------------------------------------------------------------

  /** What `expire_old_known` may leave, whatever order the hash set is iterated in: the outbox ids
      stay, and others go until the bound is met or none is left. */
  ghost predicate Expired(before: set<Text>, keep: set<Text>, cap: nat, after: set<Text>) {
    && before * keep <= after <= before
    && |after| == if |before| <= cap then |before|
                  else if |before - keep| <= |before| - cap then |before * keep|
                  else cap
  }

  function Pushed(pending: seq<MeshEvent>, e: MeshEvent, cap: nat): seq<MeshEvent> {
    (if |pending| >= cap && pending != [] then pending[1..] else pending) + [e]
  }

  ghost predicate Inserted(l: Limits, s: State, e: MeshEvent, s': State) {
    if e.id in s.known then s' == s
    else
      && s'.pending == Pushed(s.pending, e, l.pending)
      && s'.delivered == s.delivered
      && Expired(s.known + {e.id}, IdSet(s'.pending), l.known, s'.known)
  }

  /** The first `max` outbox events whose id is not in `log`, oldest first. */
  function Select(pending: seq<MeshEvent>, log: seq<Text>, max: nat): (batch: seq<MeshEvent>)
    ensures |batch| <= max
  {
    if max == 0 || pending == [] then []
    else if pending[0].id in log then Select(pending[1..], log, max)
    else [pending[0]] + Select(pending[1..], log, max - 1)
  }

  function Marked(log: seq<Text>, ids: seq<Text>, cap: nat): seq<Text>
    decreases |ids|
  {
    if ids == [] then log
    else Marked((if |log| >= cap && log != [] then log[1..] else log) + [ids[0]], ids[1..], cap)
  }

  function Touched(s: State, p: Peer): State {
    if p in s.delivered then s else s.(delivered := s.delivered[p := []])
  }

  function MarkedFor(l: Limits, s: State, p: Peer, ids: seq<Text>): State {
    if ids == [] then s
    else s.(delivered := s.delivered[p := Marked(LogOf(s, p), ids, l.perPeer)])
  }

  /** Peek at most `max` events for `p`, then mark the first `k` of them delivered. `k` is the whole
      batch for `get_pending_for_peer` and `take_heal_batch`, and what was queued for
      `flush_outbound`. */
  function Handed(l: Limits, s: State, p: Peer, max: nat, k: nat): State
    requires k <= |Select(s.pending, LogOf(s, p), max)|
  {
    var peeked := if max == 0 then s else Touched(s, p);
    MarkedFor(l, peeked, p, Ids(Select(s.pending, LogOf(s, p), max)[..k]))
  }

  /** Marking keeps the last `cap` ids of everything ever marked. */
  lemma {:induction false} MarkedIsLastN(log: seq<Text>, ids: seq<Text>, cap: nat)
    requires cap >= 1 && |log| <= cap
    ensures Marked(log, ids, cap) == LastN(log + ids, cap)
    decreases |ids|
  {
    if ids == [] {
      assert log + ids == log;
    } else {
      var log' := (if |log| >= cap then log[1..] else log) + [ids[0]];
      MarkedIsLastN(log', ids[1..], cap);
      if |log| >= cap {
        assert log + ids == [log[0]] + (log' + ids[1..]);
        LastNForgets(log[0], log' + ids[1..], cap);
      } else {
        assert log + ids == log' + ids[1..];
      }
    }
  }

  lemma LastNForgets<T>(x: T, s: seq<T>, n: nat)
    requires n <= |s|
    ensures LastN([x] + s, n) == LastN(s, n)
  {}

  // ---------------------------------------------------------------------------------------------
  // Runs, with every stay in the outbox numbered
  // ---------------------------------------------------------------------------------------------

  /** A state with its history: `stays[n]` is the event of the n-th stay in the outbox, and
      `handed[p]` lists, in order, the stays whose event was handed to `p`. */
  datatype History = History(s: State, stays: seq<MeshEvent>, handed: map<Peer, seq<nat>>)

  const START := History(EMPTY, [], map[])

  function HandedTo(h: History, p: Peer): seq<nat> {
    if p in h.handed then h.handed[p] else []
  }

  /** Stays are numbered in insertion order, so the outbox is the interval from here to the end. */
  function Oldest(h: History): int { |h.stays| - |h.s.pending| }

  ghost predicate InsertStep(l: Limits, h: History, e: MeshEvent, h': History) {
    && Inserted(l, h.s, e, h'.s)
    && h'.stays == (if e.id in h.s.known then h.stays else h.stays + [e])
    && h'.handed == h.handed
  }

  /** The numbers of the stays `Select` picks. */
  function Picks(stays: seq<MeshEvent>, from: nat, log: seq<Text>, max: nat): (picks: seq<nat>)
    decreases |stays| - from
  {
    if max == 0 || from >= |stays| then []
    else if stays[from].id in log then Picks(stays, from + 1, log, max)
    else [from] + Picks(stays, from + 1, log, max - 1)
  }

  function IdsAt(stays: seq<MeshEvent>, ns: seq<nat>): (ids: seq<Text>)
    requires forall i :: 0 <= i < |ns| ==> ns[i] < |stays|
    ensures |ids| == |ns|
  {
    seq(|ns|, i requires 0 <= i < |ns| => stays[ns[i]].id)
  }

  lemma PicksOneMore(stays: seq<MeshEvent>, from: nat, picks: seq<nat>, rest: seq<MeshEvent>)
    requires from < |stays| && forall i :: 0 <= i < |picks| ==> picks[i] < |stays|
    requires Ids(rest) == IdsAt(stays, picks)
    ensures Ids([stays[from]] + rest) == IdsAt(stays, [from] + picks)
  {
    assert Ids([stays[from]] + rest) == [stays[from].id] + Ids(rest);
    assert IdsAt(stays, [from] + picks) == [stays[from].id] + IdsAt(stays, picks);
  }

  lemma {:induction false} PicksProperties(stays: seq<MeshEvent>, from: nat, log: seq<Text>, max: nat)
    requires from <= |stays|
    ensures var ps := Picks(stays, from, log, max);
            && (forall i :: 0 <= i < |ps| ==> from <= ps[i] < |stays| && stays[ps[i]].id !in log)
            && (forall i, j :: 0 <= i < j < |ps| ==> ps[i] < ps[j])
            && Ids(Select(stays[from..], log, max)) == IdsAt(stays, ps)
    decreases |stays| - from
  {
    if max != 0 && from < |stays| {
      assert stays[from..][1..] == stays[from + 1..];
      if stays[from].id in log {
        PicksProperties(stays, from + 1, log, max);
      } else {
        PicksProperties(stays, from + 1, log, max - 1);
        PicksOneMore(stays, from, Picks(stays, from + 1, log, max - 1), Select(stays[from + 1..], log, max - 1));
      }
    }
  }

  ghost predicate HandStep(l: Limits, h: History, p: Peer, max: nat, k: nat, h': History) {
    && Oldest(h) >= 0
    && k <= |Select(h.s.pending, LogOf(h.s, p), max)|
    && h'.s == Handed(l, h.s, p, max, k)
    && h'.stays == h.stays
    && var picks := Picks(h.stays, Oldest(h), LogOf(h.s, p), max);
       k <= |picks| && h'.handed == h.handed[p := HandedTo(h, p) + picks[..k]]
  }

  ghost predicate Step(l: Limits, h: History, h': History) {
    || (exists e :: InsertStep(l, h, e, h'))
    || (exists p, max, k :: HandStep(l, h, p, max, k, h'))
  }

  ghost predicate IsRun(l: Limits, run: seq<History>) {
    && run != [] && run[0] == START
    && forall i :: 0 <= i < |run| - 1 ==> Step(l, run[i], run[i + 1])
  }

  // ---------------------------------------------------------------------------------------------
  // The invariant of every run
  // ---------------------------------------------------------------------------------------------

  ghost predicate OutboxInv(l: Limits, s: State) {
    && |s.pending| <= l.pending && |s.known| <= l.known
    && Distinct(Ids(s.pending))
    && IdSet(s.pending) <= s.known
    && (|s.known| <= l.pending ==> s.known == IdSet(s.pending))
  }

  /** The log of a peer is the end of everything handed to it; a stay still in the outbox is within
      `l.pending` of every stay handed after it. */
  ghost predicate PeerInv(l: Limits, stays: seq<MeshEvent>, oldest: int, ns: seq<nat>, log: seq<Text>) {
    && Distinct(ns)
    && (forall i :: 0 <= i < |ns| ==> ns[i] < |stays|)
    && log == LastN(IdsAt(stays, ns), l.perPeer)
    && (forall i, j :: 0 <= i < j < |ns| && oldest <= ns[i] ==> ns[j] < ns[i] + l.pending && ns[i] < ns[j] + l.pending)
  }

  ghost predicate Inv(l: Limits, h: History) {
    && OutboxInv(l, h.s)
    && Oldest(h) >= 0 && h.s.pending == h.stays[Oldest(h)..]
    && forall p :: PeerOk(l, h, p)
  }

  ghost predicate PeerOk(l: Limits, h: History, p: Peer) {
    PeerInv(l, h.stays, Oldest(h), HandedTo(h, p), LogOf(h.s, p))
  }

  lemma {:induction false} IdSetCardinality(es: seq<MeshEvent>)
    requires Distinct(Ids(es))
    ensures |IdSet(es)| == |es|
  {
    if es != [] {
      var e := es[|es| - 1];
      var rest := es[..|es| - 1];
      assert forall i :: 0 <= i < |rest| ==> Ids(rest)[i] == Ids(es)[i];
      IdSetCardinality(rest);
      assert e.id !in IdSet(rest) by {
        forall f | f in rest ensures f.id != e.id {
          var i :| 0 <= i < |rest| && rest[i] == f;
          assert Ids(es)[i] != Ids(es)[|es| - 1];
        }
      }
      assert es == rest + [e];
      assert IdSet(es) == IdSet(rest) + {e.id};
    }
  }

  /** Expiry always finds enough ids outside the outbox, so the bound on known ids is met exactly. */
  lemma ExpiryMeetsBound(before: set<Text>, keep: set<Text>, cap: nat, after: set<Text>)
    requires Expired(before, keep, cap, after) && keep <= before && |keep| <= cap
    ensures |after| == (if |before| <= cap then |before| else cap)
    ensures keep <= after && (|before| <= cap ==> after == before)
  {
    assert before * keep == keep;
    assert before == keep + (before - keep);
    assert |before| == |keep| + |before - keep|;
    SubsetCardinality(after, before);
  }

  /** Any ids outside the outbox, as many as overflow, may be the ones that go, and nothing else may. */
  lemma ExpiryIsAnyChoice(before: set<Text>, keep: set<Text>, cap: nat, after: set<Text>)
    requires keep <= before && |keep| <= cap < |before|
    ensures Expired(before, keep, cap, after) <==>
            after <= before && (before - after) !! keep && |before - after| == |before| - cap
  {
    assert before * keep == keep && before == keep + (before - keep);
    assert after <= before ==> before == after + (before - after);
    assert keep <= after <==> before * keep <= after;
  }

  /** So the oldest need not be the one: if two may go and one must, either may. */
  lemma ExpiryIsNotFifo(before: set<Text>, keep: set<Text>, cap: nat, x: Text, y: Text)
    requires keep <= before && |keep| <= cap && |before| == cap + 1
    requires x in before - keep && y in before - keep && x != y
    ensures Expired(before, keep, cap, before - {x}) && Expired(before, keep, cap, before - {y})
  {
    assert before - (before - {x}) == {x} && before - (before - {y}) == {y};
    ExpiryIsAnyChoice(before, keep, cap, before - {x});
    ExpiryIsAnyChoice(before, keep, cap, before - {y});
  }

  lemma PushedIds(pending: seq<MeshEvent>, e: MeshEvent, cap: nat)
    requires cap >= 1 && |pending| <= cap
    requires Distinct(Ids(pending)) && e.id !in IdSet(pending)
    ensures var out := Pushed(pending, e, cap);
            |out| <= cap && Distinct(Ids(out)) && IdSet(out) <= IdSet(pending) + {e.id}
            && (|pending| < cap ==> IdSet(out) == IdSet(pending) + {e.id})
  {
    var out := Pushed(pending, e, cap);
    var shift := |pending| + 1 - |out|;
    forall i | 0 <= i < |out| - 1
      ensures Ids(out)[i] == Ids(pending)[i + shift] && out[i] in pending && Ids(out)[i] != e.id
    {
      assert out[i] == pending[i + shift];
    }
    assert IdSet(out) <= IdSet(pending) + {e.id};
    if |pending| < cap {
      assert out == pending + [e];
      assert e in out;
    }
  }

  lemma InsertKeepsOutbox(l: Limits, s: State, e: MeshEvent, s': State)
    requires Sound(l) && OutboxInv(l, s) && Inserted(l, s, e, s')
    ensures OutboxInv(l, s')
  {
    if e.id !in s.known {
      PushedIds(s.pending, e, l.pending);
      IdSetCardinality(s'.pending);
      var before := s.known + {e.id};
      ExpiryMeetsBound(before, IdSet(s'.pending), l.known, s'.known);
      if |s.known| <= l.pending { IdSetCardinality(s.pending); }
    }
  }

  lemma InsertKeepsPeer(l: Limits, h: History, e: MeshEvent, h': History, p: Peer)
    requires PeerOk(l, h, p) && Oldest(h) <= Oldest(h')
    requires h'.stays == h.stays + [e] && h'.handed == h.handed && h'.s.delivered == h.s.delivered
    ensures PeerOk(l, h', p)
  {
    assert IdsAt(h'.stays, HandedTo(h, p)) == IdsAt(h.stays, HandedTo(h, p));
  }

  lemma PushedIsSuffix(l: Limits, h: History, e: MeshEvent, h': History)
    requires Sound(l) && Oldest(h) >= 0 && h.s.pending == h.stays[Oldest(h)..]
    requires h'.stays == h.stays + [e] && h'.s.pending == Pushed(h.s.pending, e, l.pending)
    ensures 0 <= Oldest(h) <= Oldest(h') && h'.s.pending == h'.stays[Oldest(h')..]
  {}

  lemma InsertKeepsInv(l: Limits, h: History, e: MeshEvent, h': History)
    requires Sound(l) && Inv(l, h) && InsertStep(l, h, e, h')
    ensures Inv(l, h')
  {
    if e.id in h.s.known {
      assert h' == h;
    } else {
      assert OutboxInv(l, h'.s) by { InsertKeepsOutbox(l, h.s, e, h'.s); }
      PushedIsSuffix(l, h, e, h');
      forall p ensures PeerOk(l, h', p) {
        assert PeerOk(l, h, p);
        InsertKeepsPeer(l, h, e, h', p);
      }
    }
  }

  /** The pigeonhole step: while a stay is in the outbox, fewer than `2 * l.pending - 1` other stays
      can have been handed to the peer after it, so its id is still in the peer's log. */
  lemma InOutboxImpliesInLog(l: Limits, stays: seq<MeshEvent>, oldest: int, ns: seq<nat>, log: seq<Text>, i: nat)
    requires Sound(l) && PeerInv(l, stays, oldest, ns, log)
    requires i < |ns| && oldest <= ns[i]
    ensures stays[ns[i]].id in log
  {
    var later := ns[i + 1..];
    var low := ns[i] - l.pending + 1;
    var high := ns[i] + l.pending;
    var window := Interval(low, high);
    assert forall k :: 0 <= k < |later| ==> later[k] == ns[i + 1 + k];
    DistinctFitsInt(later, window - {ns[i] as int});
    assert |later| <= 2 * l.pending - 2;
    var ids := IdsAt(stays, ns);
    assert ids[i] == stays[ns[i]].id;
    assert i >= |ns| - l.perPeer;
    if |ids| > l.perPeer { assert log[i - (|ids| - l.perPeer)] == ids[i]; }
  }

  ghost function Interval(low: int, high: int): (window: set<int>)
    requires low <= high
    ensures |window| == high - low && forall n :: n in window <==> low <= n < high
    decreases high - low
  {
    if low == high then {} else Interval(low, high - 1) + {high - 1}
  }

  lemma DistinctFitsInt(s: seq<nat>, pool: set<int>)
    requires Distinct(s)
    requires forall i :: 0 <= i < |s| ==> s[i] in pool
    ensures |s| <= |pool|
  {
    DistinctFits<int>(s, pool);
  }

  lemma SelectedIds(stays: seq<MeshEvent>, oldest: nat, log: seq<Text>, max: nat, k: nat)
    requires oldest <= |stays| && k <= |Select(stays[oldest..], log, max)|
    ensures var picks := Picks(stays, oldest, log, max);
            && k <= |picks|
            && (forall i :: 0 <= i < k ==> oldest <= picks[i] < |stays| && stays[picks[i]].id !in log)
            && (forall i, j :: 0 <= i < j < k ==> picks[i] < picks[j])
            && Ids(Select(stays[oldest..], log, max)[..k]) == IdsAt(stays, picks[..k])
  {
    PicksProperties(stays, oldest, log, max);
    var batch := Select(stays[oldest..], log, max);
    var picks := Picks(stays, oldest, log, max);
    assert |Ids(batch)| == |IdsAt(stays, picks)|;
    assert Ids(batch[..k]) == Ids(batch)[..k];
    assert IdsAt(stays, picks[..k]) == IdsAt(stays, picks)[..k];
  }

  /** Handing changes one log only, by marking the ids of the handed events. */
  lemma HandedLog(l: Limits, s: State, p: Peer, max: nat, k: nat)
    requires k <= |Select(s.pending, LogOf(s, p), max)|
    ensures var s' := Handed(l, s, p, max, k);
            && s'.pending == s.pending && s'.known == s.known
            && LogOf(s', p) == Marked(LogOf(s, p), Ids(Select(s.pending, LogOf(s, p), max)[..k]), l.perPeer)
            && forall q :: q != p ==> LogOf(s', q) == LogOf(s, q)
  {}

  lemma HandKeepsPeer(l: Limits, h: History, p: Peer, max: nat, k: nat, h': History)
    requires Sound(l) && |h.s.pending| <= l.pending && PeerOk(l, h, p)
    requires Oldest(h) >= 0 && h.s.pending == h.stays[Oldest(h)..]
    requires h'.s.pending == h.s.pending && h'.stays == h.stays
    requires k <= |Select(h.s.pending, LogOf(h.s, p), max)|
    requires LogOf(h'.s, p)
          == Marked(LogOf(h.s, p), Ids(Select(h.s.pending, LogOf(h.s, p), max)[..k]), l.perPeer)
    requires var picks := Picks(h.stays, Oldest(h), LogOf(h.s, p), max);
             k <= |picks| && HandedTo(h', p) == HandedTo(h, p) + picks[..k]
    ensures PeerOk(l, h', p)
  {
    var log := LogOf(h.s, p);
    var picks := Picks(h.stays, Oldest(h), log, max)[..k];
    SelectedIds(h.stays, Oldest(h), log, max, k);
    MarkedIsLastN(log, IdsAt(h.stays, picks), l.perPeer);
    HandExtendsPeer(l, h.stays, Oldest(h), HandedTo(h, p), log, picks);
  }

  lemma HandKeepsInv(l: Limits, h: History, p: Peer, max: nat, k: nat, h': History)
    requires Sound(l) && Inv(l, h) && HandStep(l, h, p, max, k, h')
    ensures Inv(l, h')
  {
    HandedLog(l, h.s, p, max, k);
    forall q ensures PeerOk(l, h', q) {
      assert PeerOk(l, h, q);
      if q == p { HandKeepsPeer(l, h, p, max, k, h'); }
    }
  }

  lemma LastNAppend<T>(a: seq<T>, b: seq<T>, n: nat)
    ensures LastN(LastN(a, n) + b, n) == LastN(a + b, n)
  {}

  lemma HandExtendsPeer(l: Limits, stays: seq<MeshEvent>, oldest: int, ns: seq<nat>, log: seq<Text>, picks: seq<nat>)
    requires Sound(l) && PeerInv(l, stays, oldest, ns, log)
    requires 0 <= |stays| - oldest <= l.pending
    requires forall i :: 0 <= i < |picks| ==> oldest <= picks[i] < |stays| && stays[picks[i]].id !in log
    requires forall i, j :: 0 <= i < j < |picks| ==> picks[i] < picks[j]
    ensures PeerInv(l, stays, oldest, ns + picks, LastN(log + IdsAt(stays, picks), l.perPeer))
  {
    var all := ns + picks;
    forall i, j | 0 <= i < j < |all| ensures all[i] != all[j] {
      if i < |ns| <= j && oldest <= ns[i] {
        InOutboxImpliesInLog(l, stays, oldest, ns, log, i);
        assert all[j] == picks[j - |ns|];
      }
    }
    assert IdsAt(stays, all) == IdsAt(stays, ns) + IdsAt(stays, picks);
    LastNAppend(IdsAt(stays, ns), IdsAt(stays, picks), l.perPeer);
  }

  lemma StepKeepsInv(l: Limits, h: History, h': History)
    requires Sound(l) && Inv(l, h) && Step(l, h, h')
    ensures Inv(l, h')
  {
    if e :| InsertStep(l, h, e, h') {
      InsertKeepsInv(l, h, e, h');
    } else {
      var p, max, k :| HandStep(l, h, p, max, k, h');
      HandKeepsInv(l, h, p, max, k, h');
    }
  }

  lemma {:induction false} RunKeepsInv(l: Limits, run: seq<History>)
    requires Sound(l) && IsRun(l, run)
    ensures Inv(l, run[|run| - 1])
  {
    if |run| > 1 {
      RunKeepsInv(l, run[..|run| - 1]);
      assert Step(l, run[|run| - 2], run[|run| - 1]);
      StepKeepsInv(l, run[|run| - 2], run[|run| - 1]);
    }
  }

  /** In every run no stay is handed twice to the same peer, the outbox holds distinct known ids,
      and the three structures stay within their limits. */
  lemma AtMostOncePerStay(l: Limits, run: seq<History>, p: Peer)
    requires Sound(l) && IsRun(l, run)
    ensures var h := run[|run| - 1];
            && Distinct(HandedTo(h, p))
            && Distinct(Ids(h.s.pending)) && IdSet(h.s.pending) <= h.s.known
            && |h.s.pending| <= l.pending && |h.s.known| <= l.known && |LogOf(h.s, p)| <= l.perPeer
  {
    RunKeepsInv(l, run);
    var h := run[|run| - 1];
    assert PeerOk(l, h, p);
  }

  // ---------------------------------------------------------------------------------------------
  // The class
  // ---------------------------------------------------------------------------------------------

  const HEAL_BATCH_MAX_EVENTS: nat := 32
  const USIZE_MAX: nat := U64_LIMIT - 1

  class GossipProtocol {
    var knownEvents: set<Text>
    var pendingBroadcasts: seq<MeshEvent>
    var delivered: map<Peer, seq<Text>>

    ghost function View(): State
      reads this
    {
      State(knownEvents, pendingBroadcasts, delivered)
    }

    constructor ()
      ensures View() == EMPTY
    {
      knownEvents, pendingBroadcasts, delivered := {}, [], map[];
    }

    /** `receive_event` and `add_event` for an event that passed validation. */
    method InsertNew(e: MeshEvent) returns (isNew: bool)
      modifies this
      ensures Inserted(LIMITS, old(View()), e, View())
      ensures isNew <==> e.id !in old(knownEvents)
    {
      if e.id in knownEvents { return false; }
      knownEvents := knownEvents + {e.id};
      if |pendingBroadcasts| >= LIMITS.pending {
        pendingBroadcasts := pendingBroadcasts[1..];
      }
      pendingBroadcasts := pendingBroadcasts + [e];
      if |knownEvents| > LIMITS.known {
        ExpireOldKnown();
      }
      return true;
    }

    /** The iteration order of the hash set is whatever `:|` picks. */
    method ExpireOldKnown()
      modifies this`knownEvents
      ensures Expired(old(knownEvents), IdSet(pendingBroadcasts), LIMITS.known, knownEvents)
    {
      if |knownEvents| <= LIMITS.known { return; }
      var keep := IdSet(pendingBroadcasts);
      var overflow := |knownEvents| - LIMITS.known;
      var evicted := 0;
      var ids := knownEvents;
      ghost var before := knownEvents;
      while ids != {}
        invariant ids <= knownEvents <= before && before * keep <= knownEvents
        invariant knownEvents - ids <= keep
        invariant |knownEvents| == |before| - evicted && evicted <= overflow
        decreases |ids|
      {
        if evicted >= overflow { break; }
        var id :| id in ids;
        ids := ids - {id};
        if id !in keep {
          knownEvents := knownEvents - {id};
          evicted := evicted + 1;
        }
      }
      ExpiredCount(before, keep, knownEvents);
    }

    method PeekPendingForPeer(p: Peer, max: nat) returns (batch: seq<MeshEvent>)
      modifies this`delivered
      ensures batch == Select(pendingBroadcasts, LogOf(old(View()), p), max)
      ensures View() == if max == 0 then old(View()) else Touched(old(View()), p)
    {
      if max == 0 { return []; }
      if p !in delivered { delivered := delivered[p := []]; }
      var deliveredSet := delivered[p];
      batch := [];
      for i := 0 to |pendingBroadcasts|
        invariant View() == Touched(old(View()), p) && |batch| <= max
        invariant Select(pendingBroadcasts, deliveredSet, max)
               == batch + Select(pendingBroadcasts[i..], deliveredSet, max - |batch|)
      {
        if |batch| >= max { break; }
        var event := pendingBroadcasts[i];
        assert pendingBroadcasts[i..][1..] == pendingBroadcasts[i + 1..];
        if event.id !in deliveredSet {
          Glue(batch, [event], Select(pendingBroadcasts[i + 1..], deliveredSet, max - |batch| - 1));
          batch := batch + [event];
        }
      }
    }

    method MarkDeliveredToPeer(p: Peer, ids: seq<Text>)
      modifies this`delivered
      ensures View() == MarkedFor(LIMITS, old(View()), p, ids)
    {
      if ids == [] { return; }
      var deliveredSet := if p in delivered then delivered[p] else [];
      for i := 0 to |ids|
        invariant Marked(LogOf(old(View()), p), ids, LIMITS.perPeer)
               == Marked(deliveredSet, ids[i..], LIMITS.perPeer)
      {
        if |deliveredSet| >= LIMITS.perPeer { deliveredSet := deliveredSet[1..]; }
        deliveredSet := deliveredSet + [ids[i]];
      }
      delivered := delivered[p := deliveredSet];
    }

    method GetPendingForPeer(p: Peer) returns (sent: seq<MeshEvent>)
      modifies this`delivered
      ensures sent == Select(pendingBroadcasts, LogOf(old(View()), p), USIZE_MAX)
      ensures View() == Handed(LIMITS, old(View()), p, USIZE_MAX, |sent|)
    {
      sent := PeekPendingForPeer(p, USIZE_MAX);
      assert sent[..|sent|] == sent;
      MarkDeliveredToPeer(p, Ids(sent));
    }

    method TakeHealBatch(p: Peer) returns (batch: seq<MeshEvent>)
      modifies this`delivered
      ensures batch == Select(pendingBroadcasts, LogOf(old(View()), p), HEAL_BATCH_MAX_EVENTS)
      ensures View() == Handed(LIMITS, old(View()), p, HEAL_BATCH_MAX_EVENTS, |batch|)
    {
      batch := PeekPendingForPeer(p, HEAL_BATCH_MAX_EVENTS);
      assert batch[..|batch|] == batch;
      if batch == [] { return; }
      MarkDeliveredToPeer(p, Ids(batch));
    }
  }

  lemma ExpiredCount(before: set<Text>, keep: set<Text>, after: set<Text>)
    requires before * keep <= after <= before
    ensures |before| - |after| <= |before - keep|
    ensures after <= keep ==> after == before * keep && |before| - |after| == |before - keep|
  {
    assert before == after + (before - after);
    assert |before| == |after| + |before - after|;
    SubsetCardinality(before - after, before - keep);
    if after <= keep { assert before - after == before - keep; }
  }
}
