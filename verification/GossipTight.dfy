/** The per-peer bound of `Gossip.Sound` is exact: with any shorter log, whatever the other limits, there is
    a run in which one stay in the outbox is handed to the same peer twice. */
module GossipTight {
  import opened Bytes
  import opened Wire
  import opened Gossip

  // ---------------------------------------------------------------------------------------------
  // Scripted runs
  // ---------------------------------------------------------------------------------------------

  /** Events told apart by a number. */
  function Event(n: nat): MeshEvent {
    MeshEvent(seq(n, _ => 120), [], 0, Alert, [], [], [], 0, 0, 0)
  }

  lemma EventsDiffer(i: nat, j: nat)
    requires i != j
    ensures Event(i).id != Event(j).id
  {
    assert |Event(i).id| == i && |Event(j).id| == j;
  }

  function Events(numbers: seq<nat>): (es: seq<MeshEvent>)
    ensures |es| == |numbers| && forall i :: 0 <= i < |numbers| ==> es[i] == Event(numbers[i])
  {
    seq(|numbers|, i requires 0 <= i < |numbers| => Event(numbers[i]))
  }

  /** The numbers of the events inserted, in order, and the stays handed to the only peer, in order. */
  datatype Script = Script(numbers: seq<nat>, handed: seq<nat>)

  ghost predicate Within(c: Script) {
    forall m :: 0 <= m < |c.handed| ==> c.handed[m] < |c.numbers|
  }

  /** An event is inserted again only after more insertions than there are known ids. */
  ghost predicate Spaced(l: Limits, c: Script) {
    forall i, j :: 0 <= i < j < |c.numbers| && j <= i + l.known ==> c.numbers[i] != c.numbers[j]
  }

  /** The log of the peer after `m` deliveries. */
  function LogAfter(l: Limits, c: Script, m: nat): seq<Text>
    requires Within(c) && m <= |c.handed|
  {
    LastN(IdsAt(Events(c.numbers), c.handed[..m]), l.perPeer)
  }

  /** The history after `n` insertions and `m` deliveries, when the oldest known id expires first. */
  function After(l: Limits, c: Script, n: nat, m: nat): History
    requires Within(c) && n <= |c.numbers| && m <= |c.handed|
  {
    var stays := Events(c.numbers)[..n];
    History(State(IdSet(LastN(stays, l.known)), LastN(stays, l.pending),
                  if m == 0 then map[] else map["p" := LogAfter(l, c, m)]),
            stays,
            if m == 0 then map[] else map["p" := c.handed[..m]])
  }

  ghost predicate Reachable(l: Limits, h: History) {
    exists run :: IsRun(l, run) && run[|run| - 1] == h
  }

  lemma Reach(l: Limits, h: History, h': History)
    requires Reachable(l, h) && Step(l, h, h')
    ensures Reachable(l, h')
  {
    var run :| IsRun(l, run) && run[|run| - 1] == h;
    var longer := run + [h'];
    forall i | 0 <= i < |longer| - 1 ensures Step(l, longer[i], longer[i + 1]) {
      if i < |run| - 1 { assert Step(l, run[i], run[i + 1]); }
    }
    assert IsRun(l, longer) && longer[|longer| - 1] == h';
  }

  lemma Start(l: Limits, c: Script)
    requires Within(c)
    ensures Reachable(l, After(l, c, 0, 0))
  {
    assert IdSet([]) == {};
    assert After(l, c, 0, 0) == START;
    assert IsRun(l, [START]) && [START][|[START]| - 1] == START;
  }

  // ---------------------------------------------------------------------------------------------
  // Insertions
  // ---------------------------------------------------------------------------------------------

  lemma IdSetContains(es: seq<MeshEvent>, e: MeshEvent)
    ensures IdSet(es + [e]) == IdSet(es) + {e.id}
  {
    assert forall f :: f in es + [e] <==> f in es || f == e;
  }

  function Latest(c: Script, n: nat, k: nat): set<Text>
    requires n <= |c.numbers|
  {
    IdSet(LastN(Events(c.numbers)[..n], k))
  }

  lemma LatestAreDistinct(l: Limits, c: Script, n: nat, k: nat)
    requires Spaced(l, c) && n <= |c.numbers| && k <= l.known + 1
    ensures Distinct(Ids(LastN(Events(c.numbers)[..n], k)))
  {
    var latest := LastN(Events(c.numbers)[..n], k);
    forall i, j | 0 <= i < j < |latest| ensures latest[i].id != latest[j].id {
      LatestDiffer(l, c, n - |latest| + i, n - |latest| + j);
    }
  }

  lemma LatestDiffer(l: Limits, c: Script, i: nat, j: nat)
    requires Spaced(l, c) && i < j < |c.numbers| && j <= i + l.known
    ensures Events(c.numbers)[i].id != Events(c.numbers)[j].id
  {
    EventsDiffer(c.numbers[i], c.numbers[j]);
  }

  /** The known ids after the next insertion, before any expires. */
  lemma KnownAfterNext(l: Limits, c: Script, n: nat)
    requires Spaced(l, c) && n < |c.numbers|
    ensures Event(c.numbers[n]).id !in Latest(c, n, l.known)
    ensures Latest(c, n, l.known) + {Event(c.numbers[n]).id} == Latest(c, n + 1, l.known + 1)
  {
    var es := Events(c.numbers);
    var latest := LastN(es[..n], l.known);
    PrefixGrows(es, n);
    assert LastN(es[..n + 1], l.known + 1) == latest + [es[n]];
    IdSetContains(latest, es[n]);
    forall e | e in latest ensures e.id != es[n].id {
      var i :| 0 <= i < |latest| && latest[i] == e;
      LatestDiffer(l, c, n - |latest| + i, n);
    }
  }

  lemma PrefixGrows<T>(s: seq<T>, n: nat)
    requires n < |s|
    ensures s[..n + 1] == s[..n] + [s[n]]
  {}

  lemma LastNIsSubset(es: seq<MeshEvent>, j: nat, k: nat)
    requires j <= k
    ensures IdSet(LastN(es, j)) <= IdSet(LastN(es, k))
  {
    var small, large := LastN(es, j), LastN(es, k);
    forall e | e in small ensures e in large {
      var i :| 0 <= i < |small| && small[i] == e;
      assert large[|large| - |small| + i] == e;
    }
  }

  lemma MayExpire(before: set<Text>, keep: set<Text>, after: set<Text>, cap: nat)
    requires keep <= after <= before && |keep| < cap && |before| <= cap + 1
    requires |after| == if |before| <= cap then |before| else cap
    ensures Expired(before, keep, cap, after)
  {
    assert before * keep == keep && before == keep + (before - keep);
  }

  lemma LatestCount(l: Limits, c: Script, n: nat, k: nat)
    requires Spaced(l, c) && n <= |c.numbers| && k <= l.known + 1
    ensures |Latest(c, n, k)| == if n <= k then n else k
  {
    LatestAreDistinct(l, c, n, k);
    IdSetCardinality(LastN(Events(c.numbers)[..n], k));
  }

  lemma LatestNest(c: Script, n: nat, j: nat, k: nat)
    requires n <= |c.numbers| && j <= k
    ensures Latest(c, n, j) <= Latest(c, n, k)
  {
    LastNIsSubset(Events(c.numbers)[..n], j, k);
  }

  lemma LatestCounts(l: Limits, c: Script, n: nat)
    requires Spaced(l, c) && l.pending < l.known && n <= |c.numbers|
    ensures |Latest(c, n, l.pending)| <= l.pending
    ensures |Latest(c, n, l.known)| == if n <= l.known then n else l.known
    ensures |Latest(c, n, l.known + 1)| == if n <= l.known then n else l.known + 1
  {
    LatestCount(l, c, n, l.pending);
    LatestCount(l, c, n, l.known);
    LatestCount(l, c, n, l.known + 1);
  }

  /** The oldest known id is one that may expire. */
  lemma OldestExpires(l: Limits, c: Script, n: nat, before: set<Text>, keep: set<Text>, after: set<Text>)
    requires Spaced(l, c) && 1 <= l.pending < l.known && n <= |c.numbers|
    requires before == Latest(c, n, l.known + 1) && keep == Latest(c, n, l.pending) && after == Latest(c, n, l.known)
    ensures Expired(before, keep, l.known, after)
  {
    assert keep <= after <= before by {
      LatestNest(c, n, l.pending, l.known);
      LatestNest(c, n, l.known, l.known + 1);
    }
    LatestCounts(l, c, n);
    MayExpire(before, keep, after, l.known);
  }

  lemma InsertedNext(l: Limits, c: Script, n: nat, m: nat)
    requires Within(c) && Spaced(l, c) && 1 <= l.pending < l.known && n < |c.numbers| && m <= |c.handed|
    ensures Inserted(l, After(l, c, n, m).s, Event(c.numbers[n]), After(l, c, n + 1, m).s)
    ensures Event(c.numbers[n]).id !in After(l, c, n, m).s.known
  {
    var es := Events(c.numbers);
    KnownAfterNext(l, c, n);
    OldestExpires(l, c, n + 1, Latest(c, n + 1, l.known + 1), Latest(c, n + 1, l.pending), Latest(c, n + 1, l.known));
    PushedIsLastN(es, n, l.pending);
  }

  lemma PushedIsLastN(es: seq<MeshEvent>, n: nat, cap: nat)
    requires n < |es| && cap >= 1
    ensures Pushed(LastN(es[..n], cap), es[n], cap) == LastN(es[..n + 1], cap)
  {}

  lemma InsertStepNext(l: Limits, c: Script, n: nat, m: nat)
    requires Within(c) && Spaced(l, c) && 1 <= l.pending < l.known && n < |c.numbers| && m <= |c.handed|
    ensures InsertStep(l, After(l, c, n, m), Event(c.numbers[n]), After(l, c, n + 1, m))
  {
    InsertedNext(l, c, n, m);
    PrefixGrows(Events(c.numbers), n);
  }

  // ---------------------------------------------------------------------------------------------
  // Deliveries
  // ---------------------------------------------------------------------------------------------

  /** The event is among the last that were handed over, as far as the log remembers. */
  ghost predicate Logged(l: Limits, c: Script, m: nat, number: nat)
    requires Within(c) && m <= |c.handed|
  {
    exists q :: m - l.perPeer <= q < m && LoggedAt(c, q, number)
  }

  ghost predicate LoggedAt(c: Script, q: int, number: nat)
    requires Within(c)
  {
    0 <= q < |c.handed| && c.numbers[c.handed[q]] == number
  }

  lemma LogHolds(l: Limits, c: Script, m: nat, number: nat)
    requires Within(c) && m <= |c.handed|
    ensures Event(number).id in LogAfter(l, c, m) <==> Logged(l, c, m, number)
  {
    var all := IdsAt(Events(c.numbers), c.handed[..m]);
    var log := LogAfter(l, c, m);
    var low := m - |log|;
    assert |Event(number).id| == number;
    forall i | 0 <= i < |log| ensures log[i] == Event(c.numbers[c.handed[low + i]]).id {
      assert log[i] == all[low + i];
    }
    if Logged(l, c, m, number) {
      var q :| m - l.perPeer <= q < m && LoggedAt(c, q, number);
      assert log[q - low] == Event(number).id;
    }
    if Event(number).id in log {
      var i :| 0 <= i < |log| && log[i] == Event(number).id;
      assert |Event(c.numbers[c.handed[low + i]]).id| == c.numbers[c.handed[low + i]];
      assert LoggedAt(c, low + i, number);
    }
  }

  /** Where the outbox begins after `n` insertions. */
  function OutboxFrom(l: Limits, n: nat): nat {
    SaturatingSub(n, l.pending)
  }

  /** The next stay to be handed is the first in the outbox whose event is not logged. */
  ghost predicate Offered(l: Limits, c: Script, n: nat, m: nat)
    requires Within(c) && n <= |c.numbers|
  {
    m < |c.handed| && forall u: nat :: OfferedAt(l, c, n, m, u)
  }

  ghost predicate OfferedAt(l: Limits, c: Script, n: nat, m: nat, u: nat)
    requires Within(c) && n <= |c.numbers| && m < |c.handed|
  {
    var from, t := OutboxFrom(l, n), c.handed[m];
    from <= t < n && (from <= u <= t ==> (Logged(l, c, m, c.numbers[u]) <==> u < t))
  }

  lemma {:induction false} PickedFirst(stays: seq<MeshEvent>, from: nat, t: nat, log: seq<Text>)
    requires from <= t < |stays| && stays[t].id !in log
    requires forall u :: from <= u < t ==> stays[u].id in log
    ensures Picks(stays, from, log, 1) == [t] && Select(stays[from..], log, 1) == [stays[t]]
    decreases t - from
  {
    assert stays[from..][1..] == stays[from + 1..];
    if from < t {
      PickedFirst(stays, from + 1, t, log);
    } else {
      assert Picks(stays, from + 1, log, 0) == [] && Select(stays[from + 1..], log, 0) == [];
    }
  }

  lemma OfferedIsPicked(l: Limits, c: Script, n: nat, m: nat)
    requires Within(c) && n <= |c.numbers| && Offered(l, c, n, m)
    ensures var stays, log, t := Events(c.numbers)[..n], LogAfter(l, c, m), c.handed[m];
            && Picks(stays, OutboxFrom(l, n), log, 1) == [t]
            && Select(LastN(stays, l.pending), log, 1) == [Event(c.numbers[t])]
  {
    var stays, log, t := Events(c.numbers)[..n], LogAfter(l, c, m), c.handed[m];
    assert OfferedAt(l, c, n, m, t);
    forall u: nat | OutboxFrom(l, n) <= u <= t ensures stays[u].id in log <==> u < t {
      assert OfferedAt(l, c, n, m, u);
      LogHolds(l, c, m, c.numbers[u]);
    }
    assert LastN(stays, l.pending) == stays[OutboxFrom(l, n)..];
    PickedFirst(stays, OutboxFrom(l, n), t, log);
  }

  lemma NextLog(l: Limits, c: Script, m: nat)
    requires Within(c) && m < |c.handed| && l.perPeer >= 1
    ensures Marked(LogAfter(l, c, m), [Event(c.numbers[c.handed[m]]).id], l.perPeer) == LogAfter(l, c, m + 1)
  {
    var es, id := Events(c.numbers), Event(c.numbers[c.handed[m]]).id;
    PrefixGrows(c.handed, m);
    assert IdsAt(es, c.handed[..m + 1]) == IdsAt(es, c.handed[..m]) + [id];
    MarkedIsLastN(LogAfter(l, c, m), [id], l.perPeer);
    LastNAppend(IdsAt(es, c.handed[..m]), [id], l.perPeer);
  }

  lemma HandStepNext(l: Limits, c: Script, n: nat, m: nat)
    requires Within(c) && l.perPeer >= 1 && n <= |c.numbers| && m < |c.handed| && Offered(l, c, n, m)
    ensures HandStep(l, After(l, c, n, m), "p", 1, 1, After(l, c, n, m + 1))
  {
    var h, h' := After(l, c, n, m), After(l, c, n, m + 1);
    var t := c.handed[m];
    HandedNext(l, c, n, m);
    OfferedIsPicked(l, c, n, m);
    assert LogOf(h.s, "p") == LogAfter(l, c, m);
    assert Oldest(h) == OutboxFrom(l, n);
    PrefixGrows(c.handed, m);
    assert [t][..1] == [t];
    assert h.handed["p" := HandedTo(h, "p") + [t]] == h'.handed;
  }

  lemma HandedOne(l: Limits, s: State, p: Peer, e: MeshEvent)
    requires Select(s.pending, LogOf(s, p), 1) == [e]
    ensures Handed(l, s, p, 1, 1) == s.(delivered := s.delivered[p := Marked(LogOf(s, p), [e.id], l.perPeer)])
  {
    assert [e][..1] == [e] && Ids([e]) == [e.id];
    assert LogOf(Touched(s, p), p) == LogOf(s, p);
  }

  lemma HandedNext(l: Limits, c: Script, n: nat, m: nat)
    requires Within(c) && l.perPeer >= 1 && n <= |c.numbers| && m < |c.handed| && Offered(l, c, n, m)
    ensures var h := After(l, c, n, m);
            && |Select(h.s.pending, LogOf(h.s, "p"), 1)| == 1
            && Handed(l, h.s, "p", 1, 1) == After(l, c, n, m + 1).s
  {
    var h, e := After(l, c, n, m), Event(c.numbers[c.handed[m]]);
    assert LogOf(h.s, "p") == LogAfter(l, c, m);
    assert Select(h.s.pending, LogAfter(l, c, m), 1) == [e] by { OfferedIsPicked(l, c, n, m); }
    HandedOne(l, h.s, "p", e);
    NextLog(l, c, m);
  }

  // ---------------------------------------------------------------------------------------------
  // Playing a script
  // ---------------------------------------------------------------------------------------------

  /** Some order of `n` insertions and `m` deliveries hands every stay when it is offered. */
  ghost predicate Played(l: Limits, c: Script, n: nat, m: nat)
    requires Within(c)
    decreases n + m
  {
    && n <= |c.numbers| && m <= |c.handed|
    && (n == m == 0 || (n > 0 && Played(l, c, n - 1, m))
        || (m > 0 && Offered(l, c, n, m - 1) && Played(l, c, n, m - 1)))
  }

  lemma HandIsStep(l: Limits, c: Script, n: nat, m: nat)
    requires Within(c) && l.perPeer >= 1 && n <= |c.numbers| && m < |c.handed| && Offered(l, c, n, m)
    ensures Step(l, After(l, c, n, m), After(l, c, n, m + 1))
  {
    HandStepNext(l, c, n, m);
  }

  lemma InsertIsStep(l: Limits, c: Script, n: nat, m: nat)
    requires Within(c) && Spaced(l, c) && 1 <= l.pending < l.known && n < |c.numbers| && m <= |c.handed|
    ensures Step(l, After(l, c, n, m), After(l, c, n + 1, m))
  {
    InsertStepNext(l, c, n, m);
  }

  lemma {:induction false} PlayedIsReachable(l: Limits, c: Script, n: nat, m: nat)
    requires Within(c) && Spaced(l, c) && 1 <= l.pending < l.known && l.perPeer >= 1 && Played(l, c, n, m)
    ensures Reachable(l, After(l, c, n, m))
    decreases n + m, 1
  {
    if n == m == 0 {
      Start(l, c);
    } else if n > 0 && Played(l, c, n - 1, m) {
      InsertedLast(l, c, n, m);
    } else {
      HandedLast(l, c, n, m);
    }
  }

  lemma {:induction false} InsertedLast(l: Limits, c: Script, n: nat, m: nat)
    requires Within(c) && Spaced(l, c) && 1 <= l.pending < l.known && l.perPeer >= 1
    requires 0 < n <= |c.numbers| && m <= |c.handed| && Played(l, c, n - 1, m)
    ensures Reachable(l, After(l, c, n, m))
    decreases n + m, 0
  {
    PlayedIsReachable(l, c, n - 1, m);
    InsertReaches(l, c, n - 1, m, n);
  }

  lemma {:induction false} HandedLast(l: Limits, c: Script, n: nat, m: nat)
    requires Within(c) && Spaced(l, c) && 1 <= l.pending < l.known && l.perPeer >= 1
    requires n <= |c.numbers| && 0 < m <= |c.handed| && Offered(l, c, n, m - 1) && Played(l, c, n, m - 1)
    ensures Reachable(l, After(l, c, n, m))
    decreases n + m, 0
  {
    PlayedIsReachable(l, c, n, m - 1);
    HandReaches(l, c, n, m - 1, m);
  }

  lemma InsertReaches(l: Limits, c: Script, n: nat, m: nat, n': nat)
    requires Within(c) && Spaced(l, c) && 1 <= l.pending < l.known && n < |c.numbers| && m <= |c.handed|
    requires Reachable(l, After(l, c, n, m)) && n' == n + 1
    ensures Reachable(l, After(l, c, n', m))
  {
    InsertIsStep(l, c, n, m);
    Reach(l, After(l, c, n, m), After(l, c, n + 1, m));
  }

  lemma HandReaches(l: Limits, c: Script, n: nat, m: nat, m': nat)
    requires Within(c) && l.perPeer >= 1 && n <= |c.numbers| && m < |c.handed| && Offered(l, c, n, m)
    requires Reachable(l, After(l, c, n, m)) && m' == m + 1
    ensures Reachable(l, After(l, c, n, m'))
  {
    HandIsStep(l, c, n, m);
    Reach(l, After(l, c, n, m), After(l, c, n, m + 1));
  }

  lemma {:induction false} InsertMany(l: Limits, c: Script, n: nat, n': nat, m: nat)
    requires Within(c) && n <= n' <= |c.numbers| && Played(l, c, n, m)
    ensures Played(l, c, n', m)
    decreases n' - n
  {
    if n < n' { InsertMany(l, c, n, n' - 1, m); }
  }

  lemma {:induction false} HandMany(l: Limits, c: Script, n: nat, m: nat, m': nat)
    requires Within(c) && n <= |c.numbers| && m <= m' <= |c.handed| && Played(l, c, n, m)
    requires forall k: nat :: m <= k < m' ==> Offered(l, c, n, k)
    ensures Played(l, c, n, m')
    decreases m' - m
  {
    if m < m' { HandMany(l, c, n, m, m' - 1); }
  }

  /** `count` events are inserted, each handed as it comes. */
  lemma {:induction false} InsertAndHandMany(l: Limits, c: Script, n: nat, m: nat, count: nat)
    requires Within(c) && n + count <= |c.numbers| && m + count <= |c.handed| && Played(l, c, n, m)
    requires forall k: nat :: k < count ==> OfferedOnArrival(l, c, n, m, k)
    ensures Played(l, c, n + count, m + count)
    decreases count
  {
    if count > 0 {
      InsertAndHandMany(l, c, n, m, count - 1);
      assert OfferedOnArrival(l, c, n, m, count - 1);
      assert Played(l, c, n + count, m + count - 1);
    }
  }

  ghost predicate OfferedOnArrival(l: Limits, c: Script, n: nat, m: nat, k: nat)
    requires Within(c) && n + k < |c.numbers|
  {
    Offered(l, c, n + k + 1, m + k)
  }

  // ---------------------------------------------------------------------------------------------
  // A log shorter than the outbox
  // ---------------------------------------------------------------------------------------------

  /** One more event than the log holds, each handed as it comes, and then the first again. */
  function ShortScript(l: Limits): Script {
    Script(seq(l.perPeer + 1, i => i), seq(l.perPeer + 1, i => i) + [0])
  }

  lemma LogsOne(l: Limits, c: Script, m: nat, q: nat, number: nat)
    requires Within(c) && q < m <= |c.handed| && m - l.perPeer <= q && c.numbers[c.handed[q]] == number
    ensures Logged(l, c, m, number)
  {
    assert LoggedAt(c, q, number);
  }

  lemma ShortOffered(l: Limits, n: nat, m: nat)
    requires 1 <= l.perPeer < l.pending && m <= l.perPeer + 1 && (n == m + 1 || n == m == l.perPeer + 1)
    requires n <= l.perPeer + 1
    ensures Within(ShortScript(l)) && Offered(l, ShortScript(l), n, m)
  {
    var c := ShortScript(l);
    forall u: nat | u < c.handed[m] ensures Logged(l, c, m, c.numbers[u]) { LogsOne(l, c, m, u, u); }
  }

  lemma ShortFails(l: Limits)
    requires 1 <= l.perPeer < l.pending < l.known
    ensures exists h :: Reachable(l, h) && !Distinct(HandedTo(h, "p"))
  {
    var c, n := ShortScript(l), l.perPeer + 1;
    ShortOffered(l, n, n);
    forall k: nat | k < n ensures OfferedOnArrival(l, c, 0, 0, k) { ShortOffered(l, k + 1, k); }
    InsertAndHandMany(l, c, 0, 0, n);
    assert Played(l, c, n, n + 1);
    PlayedIsReachable(l, c, n, n + 1);
    var h := After(l, c, n, n + 1);
    assert HandedTo(h, "p")[0] == HandedTo(h, "p")[n];
  }

  // ---------------------------------------------------------------------------------------------
  // A log shorter than twice the outbox
  // ---------------------------------------------------------------------------------------------

  /** `a` events are handed, all known ids expire, and the `a` events come back while their ids are still
      logged. Then `s` arrives and is handed before them, for it is not logged; they follow, one by one, as
      each delivery pushes the next out of the log. `b` more events push `s` out, which is still in the
      outbox. */
  datatype Plan = Plan(a: nat, b: nat, gap: nat)

  function PlanFor(l: Limits): Plan
    requires 1 <= l.pending <= l.perPeer < 2 * l.pending - 1
  {
    Plan(l.pending - 1, l.perPeer - (l.pending - 1), l.known)
  }

  /** The stay of `s`. */
  function Pivot(p: Plan): nat { p.a + p.b + p.gap + p.a }

  function NumberAt(p: Plan, t: nat): nat {
    if t < p.a + p.b + p.gap then t else if t < Pivot(p) then t - (p.a + p.b + p.gap) else t - p.a
  }

  function HandedAt(p: Plan, m: nat): nat {
    if m < p.a + p.b then m
    else if m == p.a + p.b || m > 2 * p.a + 2 * p.b then Pivot(p)
    else if m <= p.a + p.b + p.a then p.a + p.b + p.gap + (m - (p.a + p.b) - 1)
    else Pivot(p) + (m - (p.a + p.b + p.a))
  }

  function LongScript(p: Plan): Script {
    Script(seq(Pivot(p) + 1 + p.b, t requires 0 <= t => NumberAt(p, t)),
           seq(2 * p.a + 2 * p.b + 2, m requires 0 <= m => HandedAt(p, m)))
  }

  ghost predicate Fits(l: Limits, p: Plan) {
    && 1 <= l.pending < l.known && p.gap == l.known && p.a == l.pending - 1 && 1 <= p.b <= p.a
    && l.perPeer == p.a + p.b
  }

  lemma LongIsSpaced(l: Limits, p: Plan)
    requires Fits(l, p)
    ensures Within(LongScript(p)) && Spaced(l, LongScript(p))
  {}

  lemma FirstOffered(l: Limits, p: Plan, k: nat)
    requires Fits(l, p) && k < p.a + p.b && Within(LongScript(p))
    ensures OfferedOnArrival(l, LongScript(p), 0, 0, k)
  {
    var c := LongScript(p);
    forall u: nat | u < k ensures Logged(l, c, k, c.numbers[u]) { LogsOne(l, c, k, u, u); }
  }

  /** `s` is offered although older stays are in the outbox. */
  lemma PivotOffered(l: Limits, p: Plan)
    requires Fits(l, p) && Within(LongScript(p))
    ensures Offered(l, LongScript(p), Pivot(p) + 1, p.a + p.b)
  {
    var c, d := LongScript(p), p.a + p.b;
    forall u: nat | OutboxFrom(l, Pivot(p) + 1) <= u < Pivot(p) ensures Logged(l, c, d, c.numbers[u]) {
      LogsOne(l, c, d, u - (d + p.gap), c.numbers[u]);
    }
  }

  /** The returned events are offered after it, one by one. */
  lemma ReturnedOffered(l: Limits, p: Plan, m: nat)
    requires Fits(l, p) && Within(LongScript(p)) && p.a + p.b < m <= p.a + p.b + p.a
    ensures Offered(l, LongScript(p), Pivot(p) + 1, m)
  {
    var c, d := LongScript(p), p.a + p.b;
    forall u: nat | OutboxFrom(l, Pivot(p) + 1) <= u < c.handed[m] ensures Logged(l, c, m, c.numbers[u]) {
      LogsOne(l, c, m, d + 1 + (u - (d + p.gap)), c.numbers[u]);
    }
  }

  lemma NewerLogged(l: Limits, p: Plan, j: nat, u: nat)
    requires Fits(l, p) && Within(LongScript(p)) && 1 <= j <= p.b
    requires Pivot(p) + j - p.a <= u < Pivot(p) + j
    ensures Logged(l, LongScript(p), 2 * p.a + p.b + j, LongScript(p).numbers[u])
  {
    var c, d := LongScript(p), p.a + p.b;
    var q := if u < Pivot(p) then d + 1 + (u - (d + p.gap)) else if u == Pivot(p) then d else d + p.a + (u - Pivot(p));
    LogsOne(l, c, d + p.a + j, q, c.numbers[u]);
  }

  /** Newer events are offered as they arrive. */
  lemma NewerOffered(l: Limits, p: Plan, k: nat)
    requires Fits(l, p) && Within(LongScript(p)) && k < p.b
    ensures OfferedOnArrival(l, LongScript(p), Pivot(p) + 1, 2 * p.a + p.b + 1, k)
  {
    var c, n, m := LongScript(p), Pivot(p) + 2 + k, 2 * p.a + p.b + 1 + k;
    assert c.handed[m] == Pivot(p) + k + 1 && OutboxFrom(l, n) == Pivot(p) + k + 1 - p.a;
    forall u: nat | OutboxFrom(l, n) <= u < c.handed[m] ensures Logged(l, c, m, c.numbers[u]) {
      NewerLogged(l, p, k + 1, u);
    }
  }

  /** And `s` is offered once more. */
  lemma PivotOfferedAgain(l: Limits, p: Plan)
    requires Fits(l, p) && Within(LongScript(p))
    ensures Offered(l, LongScript(p), Pivot(p) + 1 + p.b, 2 * p.a + 2 * p.b + 1)
  {
    var c, n, m := LongScript(p), Pivot(p) + 1 + p.b, 2 * p.a + 2 * p.b + 1;
    forall u: nat | OutboxFrom(l, n) <= u < Pivot(p) ensures Logged(l, c, m, c.numbers[u]) {
      LogsOne(l, c, m, p.a + p.b + 1 + (u - (p.a + p.b + p.gap)), c.numbers[u]);
    }
  }

  lemma HandedBefore(l: Limits, p: Plan)
    requires Fits(l, p) && Within(LongScript(p))
    ensures Played(l, LongScript(p), Pivot(p) + 1, p.a + p.b)
  {
    var c, d := LongScript(p), p.a + p.b;
    forall k: nat | k < d ensures OfferedOnArrival(l, c, 0, 0, k) { FirstOffered(l, p, k); }
    InsertAndHandMany(l, c, 0, 0, d);
    InsertMany(l, c, d, Pivot(p) + 1, d);
  }

  lemma HandedOutOfOrder(l: Limits, p: Plan)
    requires Fits(l, p) && Within(LongScript(p))
    ensures Played(l, LongScript(p), Pivot(p) + 1, 2 * p.a + p.b + 1)
  {
    var c, n, d := LongScript(p), Pivot(p) + 1, p.a + p.b;
    HandedBefore(l, p);
    forall m: nat | d <= m < d + p.a + 1 ensures Offered(l, c, n, m) {
      if m == d { PivotOffered(l, p); } else { ReturnedOffered(l, p, m); }
    }
    HandMany(l, c, n, d, d + p.a + 1);
  }

  lemma NewerHanded(l: Limits, p: Plan)
    requires Fits(l, p) && Within(LongScript(p))
    ensures Played(l, LongScript(p), Pivot(p) + 1 + p.b, 2 * p.a + 2 * p.b + 1)
  {
    var c, n, m := LongScript(p), Pivot(p) + 1, 2 * p.a + p.b + 1;
    assert |c.numbers| == n + p.b && |c.handed| == m + p.b + 1;
    HandedOutOfOrder(l, p);
    forall k: nat | k < p.b ensures OfferedOnArrival(l, c, n, m, k) { NewerOffered(l, p, k); }
    InsertAndHandMany(l, c, n, m, p.b);
  }

  lemma HandedTwice(l: Limits, p: Plan)
    requires Fits(l, p) && Within(LongScript(p))
    ensures Played(l, LongScript(p), Pivot(p) + 1 + p.b, 2 * p.a + 2 * p.b + 2)
  {
    var c, n, m := LongScript(p), Pivot(p) + 1 + p.b, 2 * p.a + 2 * p.b + 1;
    NewerHanded(l, p);
    forall k: nat | m <= k < m + 1 ensures Offered(l, c, n, k) { PivotOfferedAgain(l, p); }
    HandMany(l, c, n, m, m + 1);
  }

  lemma LongFails(l: Limits)
    requires l.pending < l.known && l.pending <= l.perPeer < 2 * l.pending - 1
    ensures exists h :: Reachable(l, h) && !Distinct(HandedTo(h, "p"))
  {
    var p := PlanFor(l);
    var c := LongScript(p);
    LongIsSpaced(l, p);
    HandedTwice(l, p);
    PlayedIsReachable(l, c, Pivot(p) + 1 + p.b, 2 * p.a + 2 * p.b + 2);
    var h := After(l, c, Pivot(p) + 1 + p.b, 2 * p.a + 2 * p.b + 2);
    assert HandedTo(h, "p")[p.a + p.b] == HandedTo(h, "p")[2 * p.a + 2 * p.b + 1];
  }

  /** No peer is ever handed one stay twice. */
  ghost predicate NeverTwice(l: Limits) {
    forall h, p :: Reachable(l, h) ==> Distinct(HandedTo(h, p))
  }

  /** The bound is exact: no stay is ever handed twice to a peer if and only if the log holds at least twice
      the outbox less one. */
  lemma PerPeerBoundIsTight(l: Limits)
    requires 1 <= l.pending < l.known && 1 <= l.perPeer
    ensures NeverTwice(l) <==> 2 * l.pending - 1 <= l.perPeer
  {
    if 2 * l.pending - 1 <= l.perPeer {
      forall h, p | Reachable(l, h) ensures Distinct(HandedTo(h, p)) {
        var run :| IsRun(l, run) && run[|run| - 1] == h;
        AtMostOncePerStay(l, run, p);
      }
    } else if l.perPeer < l.pending {
      ShortFails(l);
    } else {
      LongFails(l);
    }
  }
}
