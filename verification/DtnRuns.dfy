/** What holds over whole runs of the store-and-forward router. */
module DtnRuns {
  import opened Bytes
  import opened Dtn

  // ---------------------------------------------------------------------------------------------
  // Eviction keeps the most urgent messages
  // ---------------------------------------------------------------------------------------------

  function Priorities(buf: Buffer): seq<byte> {
    seq(|buf|, i requires 0 <= i < |buf| => buf[i].priority)
  }

  /** The buffer after offering `msgs` one by one to an empty buffer of capacity `k`. */
  function StoreAll(msgs: seq<DtnMessage>, k: nat): Buffer {
    if msgs == [] then []
    else StoreInto(StoreAll(msgs[..|msgs| - 1], k), msgs[|msgs| - 1], k)
  }

  /** `kept` consists of the `k` smallest of `offered`, or of all of them if there are fewer. */
  ghost predicate KSmallest(kept: multiset<byte>, offered: multiset<byte>, k: nat) {
    && kept <= offered
    && |kept| == (if |offered| <= k then |offered| else k)
    && forall p, q :: p in kept && q in offered - kept ==> p <= q
  }

  lemma SameSize<T>(a: multiset<T>, b: multiset<T>)
    requires a <= b && |a| == |b|
    ensures a == b
  {
    assert b == a + (b - a);
    assert |b - a| == 0;
  }

  lemma ExcessIsAbove(a: multiset<byte>, b: multiset<byte>, offered: multiset<byte>, k: nat, p: byte)
    requires a <= offered && KSmallest(b, offered, k) && a[p] > b[p]
    ensures forall q :: q in b ==> q <= p
  {
    assert p in offered - b;
  }

  /** At most one multiset consists of the `k` smallest. */
  lemma KSmallestUnique(a: multiset<byte>, b: multiset<byte>, offered: multiset<byte>, k: nat)
    requires KSmallest(a, offered, k) && KSmallest(b, offered, k)
    ensures a == b
  {
    if forall p :: p in a ==> a[p] <= b[p] {
      SameSize(a, b);
    } else if forall q :: q in b ==> b[q] <= a[q] {
      SameSize(b, a);
    } else {
      var p :| p in a && a[p] > b[p];
      var q :| q in b && b[q] > a[q];
      ExcessIsAbove(a, b, offered, k, p);
      ExcessIsAbove(b, a, offered, k, q);
      assert false;
    }
  }

  function Truncated(s: seq<byte>, k: nat): seq<byte> {
    if |s| <= k then s else s[..k]
  }

  /** Sorting the offers and truncating to `k` yields the `k` smallest. */
  lemma SortAndTruncate(sorted: seq<byte>, k: nat)
    requires forall i, j :: 0 <= i < j < |sorted| ==> sorted[i] <= sorted[j]
    ensures KSmallest(multiset(Truncated(sorted, k)), multiset(sorted), k)
  {
    if |sorted| > k {
      var low, high := sorted[..k], sorted[k..];
      assert sorted == low + high;
      assert multiset(sorted) - multiset(low) == multiset(high);
      forall p, q | p in multiset(low) && q in multiset(high) ensures p <= q {
        assert p in low && q in high;
        var i :| 0 <= i < k && sorted[i] == p;
        var j :| k <= j < |sorted| && sorted[j] == q;
      }
    }
  }

  lemma EvictionStep(kept: multiset<byte>, offered: multiset<byte>, k: nat, w: byte, p: byte)
    requires KSmallest(kept, offered, k) && |kept| >= k && w in kept && p < w && forall q :: q in kept ==> q <= w
    ensures KSmallest(kept - multiset{w} + multiset{p}, offered + multiset{p}, k)
  {
    var kept' := kept - multiset{w} + multiset{p};
    assert offered + multiset{p} - kept' == offered - kept + multiset{w};
  }

  lemma RejectionStep(kept: multiset<byte>, offered: multiset<byte>, k: nat, w: byte, p: byte)
    requires KSmallest(kept, offered, k) && |kept| >= k && p >= w && forall q :: q in kept ==> q <= w
    ensures KSmallest(kept, offered + multiset{p}, k)
  {
    assert offered + multiset{p} - kept == offered - kept + multiset{p};
  }

  lemma RoomStep(kept: multiset<byte>, offered: multiset<byte>, k: nat, p: byte)
    requires KSmallest(kept, offered, k) && |kept| < k
    ensures KSmallest(kept + multiset{p}, offered + multiset{p}, k)
  {
    SameSize(kept, offered);
  }

  lemma PrioritiesWithout(buf: Buffer, w: nat, m: DtnMessage)
    requires w < |buf|
    ensures multiset(Priorities(Without1(buf, w) + [m]))
         == multiset(Priorities(buf)) - multiset{buf[w].priority} + multiset{m.priority}
  {
    var ps := Priorities(buf);
    assert ps == ps[..w] + [ps[w]] + ps[w + 1..];
    assert Priorities(Without1(buf, w) + [m]) == ps[..w] + ps[w + 1..] + [m.priority];
  }

  lemma WorstIsLargest(buf: Buffer)
    requires buf != []
    ensures var kept, w := multiset(Priorities(buf)), buf[WorstBelow(buf, |buf|)].priority;
            w in kept && forall q :: q in kept ==> q <= w
  {
    var ps, w := Priorities(buf), WorstBelow(buf, |buf|);
    forall i | 0 <= i < |ps| ensures ps[i] <= ps[w] {
      assert !Worse(buf[i], buf[w]);
    }
    assert forall q :: q in multiset(ps) ==> q in ps;
    assert ps[w] in multiset(ps);
  }

  lemma PrioritiesWith(buf: Buffer, m: DtnMessage)
    ensures |multiset(Priorities(buf))| == |buf|
    ensures multiset(Priorities(buf + [m])) == multiset(Priorities(buf)) + multiset{m.priority}
  {
    assert Priorities(buf + [m]) == Priorities(buf) + [m.priority];
  }

  lemma StoreKeepsSmallest(buf: Buffer, m: DtnMessage, k: nat, offered: multiset<byte>)
    requires k >= 1 && KSmallest(multiset(Priorities(buf)), offered, k)
    ensures KSmallest(multiset(Priorities(StoreInto(buf, m, k))), offered + multiset{m.priority}, k)
  {
    PrioritiesWith(buf, m);
    if |buf| < k {
      RoomStep(multiset(Priorities(buf)), offered, k, m.priority);
    } else {
      FullKeepsSmallest(buf, m, k, offered);
    }
  }

  lemma FullKeepsSmallest(buf: Buffer, m: DtnMessage, k: nat, offered: multiset<byte>)
    requires |buf| >= k >= 1 && KSmallest(multiset(Priorities(buf)), offered, k)
    ensures KSmallest(multiset(Priorities(StoreInto(buf, m, k))), offered + multiset{m.priority}, k)
  {
    var kept, p, w := multiset(Priorities(buf)), m.priority, buf[WorstBelow(buf, |buf|)].priority;
    assert |kept| == |buf| by { PrioritiesWith(buf, m); }
    assert w in kept && forall q :: q in kept ==> q <= w by { WorstIsLargest(buf); }
    if p < w {
      assert multiset(Priorities(StoreInto(buf, m, k))) == kept - multiset{w} + multiset{p} by {
        PrioritiesWithout(buf, WorstBelow(buf, |buf|), m);
      }
      EvictionStep(kept, offered, k, w, p);
    } else {
      assert StoreInto(buf, m, k) == buf;
      RejectionStep(kept, offered, k, w, p);
    }
  }

  lemma {:induction false} StoreAllKeepsSmallest(msgs: seq<DtnMessage>, k: nat)
    requires k >= 1
    ensures KSmallest(multiset(Priorities(StoreAll(msgs, k))), multiset(Priorities(msgs)), k)
  {
    if msgs == [] {
    } else {
      var init, m := msgs[..|msgs| - 1], msgs[|msgs| - 1];
      StoreAllKeepsSmallest(init, k);
      StoreKeepsSmallest(StoreAll(init, k), m, k, multiset(Priorities(init)));
      assert Priorities(msgs) == Priorities(init) + [m.priority];
    }
  }

  /** Online eviction refines sort-and-truncate: whatever the order of the offers, the kept priorities
      are the first `k` of all offered priorities in ascending order. */
  lemma EvictionRefinesSorting(msgs: seq<DtnMessage>, k: nat, sorted: seq<byte>)
    requires k >= 1
    requires multiset(sorted) == multiset(Priorities(msgs))
    requires forall i, j :: 0 <= i < j < |sorted| ==> sorted[i] <= sorted[j]
    ensures multiset(Priorities(StoreAll(msgs, k))) == multiset(Truncated(sorted, k))
  {
    StoreAllKeepsSmallest(msgs, k);
    SortAndTruncate(sorted, k);
    KSmallestUnique(multiset(Priorities(StoreAll(msgs, k))), multiset(Truncated(sorted, k)), multiset(sorted), k);
  }

  // ---------------------------------------------------------------------------------------------
  // Runs of a whole network
  // ---------------------------------------------------------------------------------------------

  /** A message together with what the router does not record: the nodes that carried it up to the
      present holder, the peers this very copy was handed to, and the TTL it started with. */
  datatype Copy = Copy(msg: DtnMessage, path: seq<Node>, handed: seq<Node>, lifetime: byte)

  datatype Mail = Mail(addressee: Node, copy: Copy)

  /** All buffers, everything ever handed over, and whether any buffer was aged. */
  datatype World = World(held: map<Node, seq<Copy>>, mail: seq<Mail>, ticked: bool)

  function Erase(cs: seq<Copy>): Buffer {
    seq(|cs|, i requires 0 <= i < |cs| => cs[i].msg)
  }

  function StoreCopy(cs: seq<Copy>, c: Copy, cap: nat): seq<Copy> {
    match StoreOutcome(Erase(cs), c.msg, cap)
    case Stored => cs + [c]
    case Replaced => Without1(cs, WorstBelow(Erase(cs), |cs|)) + [c]
    case Rejected => cs
  }

  function KeptCopy(c: Copy, from: Node, to: Node): Copy {
    if FateOf(c.msg, to) == Copied then c.(msg := Noted(c.msg, from, to), handed := c.handed + [to]) else c
  }

  function HandedCopy(c: Copy, from: Node, to: Node): Copy
    requires FateOf(c.msg, to) == HandedOver || FateOf(c.msg, to) == Copied
  {
    Copy(Deliverable(c.msg, from, to), c.path + [to], [], c.lifetime)
  }

  function KeptCopies(cs: seq<Copy>, from: Node, to: Node): seq<Copy> {
    if cs == [] then []
    else (if Leaves(cs[0].msg, to) then [] else [KeptCopy(cs[0], from, to)]) + KeptCopies(cs[1..], from, to)
  }

  function HandedCopies(cs: seq<Copy>, from: Node, to: Node): seq<Copy> {
    if cs == [] then []
    else
      var fate := FateOf(cs[0].msg, to);
      (if fate == HandedOver || fate == Copied then [HandedCopy(cs[0], from, to)] else [])
      + HandedCopies(cs[1..], from, to)
  }

  function TickedCopies(cs: seq<Copy>): seq<Copy> {
    if cs == [] then []
    else (if SaturatingSub(cs[0].msg.ttl, 1) == 0 then [] else [cs[0].(msg := cs[0].msg.(ttl := cs[0].msg.ttl - 1))])
         + TickedCopies(cs[1..])
  }

  lemma StoreErases(cs: seq<Copy>, c: Copy, cap: nat)
    ensures Erase(StoreCopy(cs, c, cap)) == StoreInto(Erase(cs), c.msg, cap)
  {
    assert Erase(cs + [c]) == Erase(cs) + [c.msg];
    if StoreOutcome(Erase(cs), c.msg, cap) == Replaced {
      var w := WorstBelow(Erase(cs), |cs|);
      assert Erase(Without1(cs, w) + [c]) == Without1(Erase(cs), w) + [c.msg];
    }
  }

  lemma ErasePrepends(c: Copy, cs: seq<Copy>)
    ensures Erase([c] + cs) == [c.msg] + Erase(cs) && Erase([] + cs) == Erase(cs)
  {
    assert [] + cs == cs;
  }

  lemma {:induction false} MeetingsErase(cs: seq<Copy>, from: Node, to: Node)
    ensures Erase(KeptCopies(cs, from, to)) == Kept(Erase(cs), from, to)
    ensures Erase(HandedCopies(cs, from, to)) == Forwarded(Erase(cs), from, to)
  {
    if cs != [] {
      var c := cs[0];
      MeetingsErase(cs[1..], from, to);
      assert Erase(cs)[1..] == Erase(cs[1..]);
      ErasePrepends(KeptCopy(c, from, to), KeptCopies(cs[1..], from, to));
      if FateOf(c.msg, to) == HandedOver || FateOf(c.msg, to) == Copied {
        ErasePrepends(HandedCopy(c, from, to), HandedCopies(cs[1..], from, to));
      }
    }
  }

  lemma {:induction false} TicksErase(cs: seq<Copy>)
    ensures Erase(TickedCopies(cs)) == Ticked(Erase(cs))
  {
    if cs != [] {
      TicksErase(cs[1..]);
      assert Erase(cs)[1..] == Erase(cs[1..]);
    }
  }

  datatype Step =
    | Inject(node: Node, msg: DtnMessage)
    | Meet(a: Node, b: Node)
    | Restore(index: nat)
    | Tick(node: Node)

  function CopiesAt(w: World, n: Node): seq<Copy> { if n in w.held then w.held[n] else [] }

  function Posted(cs: seq<Copy>, addressee: Node): seq<Mail> {
    seq(|cs|, i requires 0 <= i < |cs| => Mail(addressee, cs[i]))
  }

  /** `from` hands to `to`. */
  function Hand(w: World, from: Node, to: Node): World {
    if from !in w.held then w
    else w.(held := w.held[from := KeptCopies(w.held[from], from, to)],
            mail := w.mail + Posted(HandedCopies(w.held[from], from, to), to))
  }

  function Age(w: World, n: Node): World {
    if n !in w.held then w else w.(held := w.held[n := TickedCopies(w.held[n])], ticked := true)
  }

  function Put(w: World, node: Node, c: Copy, cap: nat): World {
    w.(held := w.held[node := StoreCopy(CopiesAt(w, node), c, cap)])
  }

  /** One step of a network. New messages start with hop count 0; only distinct nodes meet; a
      receiver may store anything it was ever handed, as often as it likes, or never. */
  function Next(w: World, s: Step, cap: nat): World {
    match s
    case Inject(n, m) => if m.hopCount == 0 then Put(w, n, Copy(m, [n], [], m.ttl), cap) else w
    case Meet(a, b) => if a != b then Hand(Hand(w, b, a), a, b) else w
    case Restore(i) => if i < |w.mail| then Put(w, w.mail[i].addressee, w.mail[i].copy, cap) else w
    case Tick(n) => Age(w, n)
  }

  function Run(steps: seq<Step>, cap: nat): World {
    if steps == [] then World(map[], [], false)
    else Next(Run(steps[..|steps| - 1], cap), steps[|steps| - 1], cap)
  }

  function Buffers(w: World): map<Node, Buffer> {
    map n | n in w.held :: Erase(w.held[n])
  }

  /** Forgetting the history, these are the buffers of the router's own operations. */
  lemma StepsFollowRouter(w: World, n: Node, to: Node, c: Copy, cap: nat)
    ensures Buffers(Put(w, n, c, cap)) == Buffers(w)[n := StoreInto(HeldBy(Buffers(w), n), c.msg, cap)]
    ensures Buffers(Hand(w, n, to)) == AfterCollect(Buffers(w), n, to)
    ensures Buffers(Age(w, n)) == if n in w.held then Buffers(w)[n := Ticked(Buffers(w)[n])] else Buffers(w)
  {
    var cs := CopiesAt(w, n);
    MeetingsErase(cs, n, to);
    TicksErase(cs);
    StoreErases(cs, c, cap);
  }

  /** So are the steps of a run: a new message is stored, a meeting is an encounter, a restored copy is stored
      by its addressee, and a tick ages one buffer. */
  lemma NextFollowsRouter(w: World, n: Node, to: Node, m: DtnMessage, i: nat, cap: nat)
    requires n != to && m.hopCount == 0
    ensures Buffers(Next(w, Inject(n, m), cap)) == Buffers(w)[n := StoreInto(HeldBy(Buffers(w), n), m, cap)]
    ensures Buffers(Next(w, Meet(n, to), cap)) == AfterCollect(AfterCollect(Buffers(w), to, n), n, to)
    ensures i < |w.mail| ==>
              var Mail(at, c) := w.mail[i];
              Buffers(Next(w, Restore(i), cap)) == Buffers(w)[at := StoreInto(HeldBy(Buffers(w), at), c.msg, cap)]
    ensures n in w.held ==> Buffers(Next(w, Tick(n), cap)) == Buffers(w)[n := Ticked(Buffers(w)[n])]
  {
    StepsFollowRouter(w, n, to, Copy(m, [n], [], m.ttl), cap);
    StepsFollowRouter(w, to, n, Copy(m, [n], [], m.ttl), cap);
    StepsFollowRouter(Hand(w, to, n), n, to, Copy(m, [n], [], m.ttl), cap);
    if i < |w.mail| { StepsFollowRouter(w, w.mail[i].addressee, to, w.mail[i].copy, cap); }
  }

  /** A copy that stays is the one it was, or was handed to `to` and says so. */
  lemma HandingIsRecorded(c: Copy, from: Node, to: Node)
    ensures |HandedCopies([c], from, to)| <= 1 && |KeptCopies([c], from, to)| <= 1
    ensures KeptCopies([c], from, to) != [] ==>
              KeptCopies([c], from, to)[0].handed
              == if HandedCopies([c], from, to) == [] then c.handed else c.handed + [to]
    ensures HandedCopies([c], from, to) != [] ==> HandedCopies([c], from, to)[0].handed == []
  {
    assert [c][1..] == [] && KeptCopies([c][1..], from, to) == [] && HandedCopies([c][1..], from, to) == [];
  }

  /** The copy never visited a node twice, was never handed to one peer twice, and its hop count is
      the length of its path, within the TTL. */
  ghost predicate Loopless(c: Copy, holder: Node, ticked: bool) {
    && c.path != [] && c.path[|c.path| - 1] == holder
    && Distinct(c.path)
    && Distinct(c.handed)
    && c.msg.hopCount == |c.path| - 1 <= c.lifetime
    && (!ticked ==> c.msg.hopCount <= c.msg.ttl)
  }

  /** What makes that so: `delivered_to` covers the path and the peers served. */
  ghost predicate Covered(c: Copy, ticked: bool) {
    && c.msg.ttl <= c.lifetime && (!ticked ==> c.msg.ttl == c.lifetime)
    && match c.msg.destination
       case Some(d) => c.handed == [] && |c.path| <= 2 && (|c.path| == 2 ==> c.path[1] == d)
       case None =>
         && (forall i :: 0 <= i < |c.path| - 1 ==> c.path[i] in c.msg.deliveredTo)
         && (forall i :: 0 <= i < |c.handed| ==> c.handed[i] in c.msg.deliveredTo)
  }

  ghost predicate CopyOk(c: Copy, holder: Node, ticked: bool) {
    Loopless(c, holder, ticked) && Covered(c, ticked)
  }

  ghost predicate AllOk(cs: seq<Copy>, holder: Node, ticked: bool) {
    forall i :: 0 <= i < |cs| ==> CopyOk(cs[i], holder, ticked)
  }

  ghost predicate WorldOk(w: World) {
    && (forall n :: n in w.held ==> AllOk(w.held[n], n, w.ticked))
    && (forall i :: 0 <= i < |w.mail| ==> CopyOk(w.mail[i].copy, w.mail[i].addressee, w.ticked))
  }

  lemma ServedCovers(list: seq<Node>, from: Node, to: Node)
    ensures forall p :: p in Served(list, from, to) <==> p in list || p == from || p == to
  {}

  lemma HandedCopyOk(c: Copy, from: Node, to: Node, ticked: bool)
    requires CopyOk(c, from, ticked) && from != to
    requires FateOf(c.msg, to) == HandedOver || FateOf(c.msg, to) == Copied
    ensures CopyOk(HandedCopy(c, from, to), to, ticked)
  {
    HandedIsLoopless(c, from, to, ticked);
    HandedIsCovered(c, from, to, ticked);
  }

  /** `to` is the addressee of a message that never left its origin, or not yet served. */
  lemma HandedIsNew(c: Copy, from: Node, to: Node, ticked: bool)
    requires CopyOk(c, from, ticked) && from != to
    requires FateOf(c.msg, to) == HandedOver || FateOf(c.msg, to) == Copied
    ensures forall i :: 0 <= i < |c.path| ==> c.path[i] != to
  {
    forall i | 0 <= i < |c.path| ensures c.path[i] != to {
      if i < |c.path| - 1 && c.msg.destination.None? { assert c.path[i] in c.msg.deliveredTo; }
    }
  }

  lemma HandedIsLoopless(c: Copy, from: Node, to: Node, ticked: bool)
    requires CopyOk(c, from, ticked) && from != to
    requires FateOf(c.msg, to) == HandedOver || FateOf(c.msg, to) == Copied
    ensures Loopless(HandedCopy(c, from, to), to, ticked)
  {
    HandedIsNew(c, from, to, ticked);
    assert Distinct(c.path + [to]);
  }

  lemma HandedIsCovered(c: Copy, from: Node, to: Node, ticked: bool)
    requires CopyOk(c, from, ticked) && from != to
    requires FateOf(c.msg, to) == HandedOver || FateOf(c.msg, to) == Copied
    ensures Covered(HandedCopy(c, from, to), ticked)
  {
    ServedCovers(c.msg.deliveredTo, from, to);
    forall i | 0 <= i < |c.path| && c.msg.destination.None?
      ensures (c.path + [to])[i] in Served(c.msg.deliveredTo, from, to)
    {
      if i < |c.path| - 1 { assert c.path[i] in c.msg.deliveredTo; }
    }
  }

  lemma KeptCopyOk(c: Copy, from: Node, to: Node, ticked: bool)
    requires CopyOk(c, from, ticked) && !Leaves(c.msg, to)
    ensures CopyOk(KeptCopy(c, from, to), from, ticked)
  {
    ServedCovers(c.msg.deliveredTo, from, to);
  }

  lemma {:induction false} CopiesOk(cs: seq<Copy>, from: Node, to: Node, ticked: bool)
    requires AllOk(cs, from, ticked) && from != to
    ensures AllOk(KeptCopies(cs, from, to), from, ticked)
    ensures AllOk(HandedCopies(cs, from, to), to, ticked)
  {
    if cs != [] {
      var c := cs[0];
      CopiesOk(cs[1..], from, to, ticked);
      assert CopyOk(c, from, ticked);
      if !Leaves(c.msg, to) { KeptCopyOk(c, from, to, ticked); }
      if FateOf(c.msg, to) == HandedOver || FateOf(c.msg, to) == Copied { HandedCopyOk(c, from, to, ticked); }
    }
  }

  lemma {:induction false} TickedCopiesOk(cs: seq<Copy>, holder: Node, ticked: bool)
    requires AllOk(cs, holder, ticked)
    ensures AllOk(TickedCopies(cs), holder, true)
  {
    if cs != [] {
      TickedCopiesOk(cs[1..], holder, ticked);
      assert CopyOk(cs[0], holder, ticked);
    }
  }

  lemma HandOk(w: World, from: Node, to: Node)
    requires WorldOk(w) && from != to
    ensures WorldOk(Hand(w, from, to))
  {
    if from in w.held { CopiesOk(w.held[from], from, to, w.ticked); }
  }

  lemma PutOk(w: World, node: Node, c: Copy, cap: nat)
    requires WorldOk(w) && CopyOk(c, node, w.ticked)
    ensures WorldOk(Put(w, node, c, cap))
  {
    assert AllOk(CopiesAt(w, node), node, w.ticked);
    assert AllOk(StoreCopy(CopiesAt(w, node), c, cap), node, w.ticked);
  }

  lemma TickOk(w: World, n: Node)
    requires WorldOk(w)
    ensures WorldOk(Age(w, n))
  {
    if n in w.held { TickedCopiesOk(w.held[n], n, w.ticked); }
  }

  /** In every run, every copy, buffered or handed over, is loopless. */
  lemma {:induction false} RunsAreLoopless(steps: seq<Step>, cap: nat)
    ensures var w := Run(steps, cap);
            && (forall n, i :: n in w.held && 0 <= i < |w.held[n]| ==> Loopless(w.held[n][i], n, w.ticked))
            && (forall i :: 0 <= i < |w.mail| ==> Loopless(w.mail[i].copy, w.mail[i].addressee, w.ticked))
    ensures WorldOk(Run(steps, cap))
  {
    if steps == [] {
    } else {
      RunsAreLoopless(steps[..|steps| - 1], cap);
      NextOk(Run(steps[..|steps| - 1], cap), steps[|steps| - 1], cap);
    }
  }

  lemma NextOk(w: World, s: Step, cap: nat)
    requires WorldOk(w)
    ensures WorldOk(Next(w, s, cap))
  {
    match s
    case Inject(n, m) => if m.hopCount == 0 { PutOk(w, n, Copy(m, [n], [], m.ttl), cap); }
    case Meet(a, b) => if a != b { HandOk(w, b, a); HandOk(Hand(w, b, a), a, b); }
    case Restore(i) => if i < |w.mail| { PutOk(w, w.mail[i].addressee, w.mail[i].copy, cap); }
    case Tick(n) => TickOk(w, n);
  }

  // ---------------------------------------------------------------------------------------------
  // Messages arrive
  // ---------------------------------------------------------------------------------------------

  /** `d` was handed the message of `c`, one hop older. */
  ghost predicate InMail(w: World, d: Node, c: Copy)
    requires c.path != []
  {
    exists i :: 0 <= i < |w.mail| && w.mail[i].addressee == d && w.mail[i].copy.path == c.path + [d]
                && OneHopOlder(c.msg, w.mail[i].copy.msg, c.path[|c.path| - 1], d)
  }

  lemma {:induction false} HandedFromBuffer(cs: seq<Copy>, i: nat, from: Node, to: Node) returns (k: nat)
    requires i < |cs| && cs[i].path != [] && cs[i].path[|cs[i].path| - 1] == from
    requires cs[i].msg.hopCount < cs[i].msg.ttl
    requires cs[i].msg.destination == Some(to)
             || (cs[i].msg.destination == None && to !in cs[i].msg.deliveredTo)
    ensures k < |HandedCopies(cs, from, to)|
    ensures var c := HandedCopies(cs, from, to)[k];
            c.path == cs[i].path + [to] && OneHopOlder(cs[i].msg, c.msg, from, to)
  {
    var m := cs[0].msg;
    EncounterWithOne(m, from, to);
    assert [m][1..] == [];
    if i == 0 {
      k := 0;
    } else {
      k := HandedFromBuffer(cs[1..], i - 1, from, to);
      var fate := FateOf(m, to);
      if fate == HandedOver || fate == Copied { k := k + 1; }
    }
  }

  /** When the holder of a message meets its addressee, or a peer a broadcast has not reached, that node is
      handed it. */
  lemma HandingArrives(w: World, from: Node, to: Node, i: nat)
    requires from in w.held && i < |w.held[from]|
    requires var c := w.held[from][i];
             && c.path != [] && c.path[|c.path| - 1] == from && c.msg.hopCount < c.msg.ttl
             && (c.msg.destination == Some(to) || (c.msg.destination == None && to !in c.msg.deliveredTo))
    ensures InMail(Hand(w, from, to), to, w.held[from][i])
  {
    var cs := w.held[from];
    var k := HandedFromBuffer(cs, i, from, to);
    assert Hand(w, from, to).mail[|w.mail| + k] == Mail(to, HandedCopies(cs, from, to)[k]);
  }

  /** A message injected and not rejected is with its addressee as soon as the two nodes meet, whichever comes
      first. */
  lemma InjectedArrives(steps: seq<Step>, n: Node, d: Node, m: DtnMessage, cap: nat)
    requires n != d && m.hopCount == 0 < m.ttl && m.destination == Some(d)
    requires StoreOutcome(Erase(CopiesAt(Run(steps, cap), n)), m, cap) != Rejected
    ensures InMail(Run(steps + [Inject(n, m)] + [Meet(n, d)], cap), d, Copy(m, [n], [], m.ttl))
    ensures InMail(Run(steps + [Inject(n, m)] + [Meet(d, n)], cap), d, Copy(m, [n], [], m.ttl))
  {
    var c := Copy(m, [n], [], m.ttl);
    var w := Run(steps + [Inject(n, m)], cap);
    RunOneMore(steps, Inject(n, m), cap);
    RunOneMore(steps + [Inject(n, m)], Meet(n, d), cap);
    RunOneMore(steps + [Inject(n, m)], Meet(d, n), cap);
    var i := |w.held[n]| - 1;
    assert w.held[n][i] == c;
    HandingArrives(w, n, d, i);
    HandingArrives(Hand(w, d, n), n, d, i);
    MailStays(Hand(w, n, d), d, n, d, c);
  }

  lemma RunOneMore(steps: seq<Step>, s: Step, cap: nat)
    ensures Run(steps + [s], cap) == Next(Run(steps, cap), s, cap)
  {
    assert (steps + [s])[..|steps|] == steps;
  }

  lemma MailStays(w: World, from: Node, to: Node, d: Node, c: Copy)
    requires c.path != [] && InMail(w, d, c)
    ensures InMail(Hand(w, from, to), d, c)
  {
    var i :| 0 <= i < |w.mail| && w.mail[i].addressee == d && w.mail[i].copy.path == c.path + [d]
             && OneHopOlder(c.msg, w.mail[i].copy.msg, c.path[|c.path| - 1], d);
    assert Hand(w, from, to).mail[i] == w.mail[i];
  }
}
