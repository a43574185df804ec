/** The store-and-forward router: bounded priority buffers, broadcast copies, hop limits and TTL. */
module Dtn {
  import opened Bytes

  type Node = string

  datatype DtnMessage = DtnMessage(
    id: string,
    sender: Node,
    destination: Option<Node>,
    payload: seq<byte>,
    ttl: byte,
    hopCount: byte,
    timestampMs: u64,
    priority: byte,
    deliveredTo: seq<Node>)

  type Buffer = seq<DtnMessage>

  // ---------------------------------------------------------------------------------------------
  // Storing
  // ---------------------------------------------------------------------------------------------

  predicate Worse(m: DtnMessage, w: DtnMessage) {
    m.priority > w.priority || (m.priority == w.priority && m.timestampMs < w.timestampMs)
  }

  /** The index of the least urgent of the first `n` messages: the first of the oldest among those
      with the largest priority number. */
  function WorstBelow(buf: Buffer, n: nat): (w: nat)
    requires 1 <= n <= |buf|
    ensures w < n
    ensures forall i :: 0 <= i < n ==> !Worse(buf[i], buf[w])
    ensures forall i :: 0 <= i < w ==> Worse(buf[w], buf[i])
  {
    if n == 1 then 0
    else
      var w := WorstBelow(buf, n - 1);
      if Worse(buf[n - 1], buf[w]) then n - 1 else w
  }

  datatype StoreResult = Stored | Replaced | Rejected

  function Without1<T>(s: seq<T>, i: nat): seq<T>
    requires i < |s|
  {
    s[..i] + s[i + 1..]
  }

  function StoreOutcome(buf: Buffer, m: DtnMessage, cap: nat): StoreResult {
    if |buf| < cap || buf == [] then Stored
    else if m.priority < buf[WorstBelow(buf, |buf|)].priority then Replaced
    else Rejected
  }

  function StoreInto(buf: Buffer, m: DtnMessage, cap: nat): Buffer {
    match StoreOutcome(buf, m, cap)
    case Stored => buf + [m]
    case Replaced => Without1(buf, WorstBelow(buf, |buf|)) + [m]
    case Rejected => buf
  }

  /** A full buffer gives up the first of its oldest among its least urgent messages, for a more urgent one. */
  lemma StoreExact(buf: Buffer, m: DtnMessage, cap: nat) returns (w: nat)
    requires buf != []
    ensures w < |buf| && forall i :: 0 <= i < |buf| ==> buf[i].priority <= buf[w].priority
    ensures forall i :: 0 <= i < |buf| && buf[i].priority == buf[w].priority ==>
              buf[w].timestampMs <= buf[i].timestampMs
    ensures forall i :: 0 <= i < w ==> buf[i].priority < buf[w].priority || buf[w].timestampMs < buf[i].timestampMs
    ensures StoreInto(buf, m, cap) == if |buf| < cap then buf + [m]
                                      else if m.priority < buf[w].priority then buf[..w] + buf[w + 1..] + [m]
                                      else buf
    ensures StoreInto([], m, cap) == [m]
  {
    w := WorstBelow(buf, |buf|);
  }

  // ---------------------------------------------------------------------------------------------
  // Forwarding
  // ---------------------------------------------------------------------------------------------

  function PushUnique(list: seq<Node>, peer: Node): seq<Node> {
    if peer in list then list else list + [peer]
  }

  function Served(list: seq<Node>, from: Node, to: Node): seq<Node> {
    var l := PushUnique(list, to);
    if from != to then PushUnique(l, from) else l
  }

  /** Nobody is listed twice, and nobody is forgotten. */
  lemma ServedIsDuplicateFree(list: seq<Node>, from: Node, to: Node)
    requires Distinct(list)
    ensures Distinct(Served(list, from, to)) && list <= Served(list, from, to)
  {
    var l := PushUnique(list, to);
    forall i, j | 0 <= i < j < |l| ensures l[i] != l[j] { if j == |list| { assert l[i] in list; } }
  }

  datatype Fate = Dies | HandedOver | Copied | Stays

  /** What an encounter of the holder with `to` does to a message. */
  function FateOf(m: DtnMessage, to: Node): Fate {
    if m.hopCount >= m.ttl then Dies
    else match m.destination
      case Some(d) => if d == to then HandedOver else Stays
      case None => if to in m.deliveredTo then Stays else Copied
  }

  function Deliverable(m: DtnMessage, from: Node, to: Node): DtnMessage
    requires FateOf(m, to) == HandedOver || FateOf(m, to) == Copied
  {
    m.(hopCount := m.hopCount + 1, deliveredTo := Served(m.deliveredTo, from, to))
  }

  /** What stays in the buffer of `from`. */
  function Kept(buf: Buffer, from: Node, to: Node): Buffer {
    if buf == [] then []
    else
      var rest := Kept(buf[1..], from, to);
      match FateOf(buf[0], to)
      case Dies => rest
      case HandedOver => rest
      case Copied => [buf[0].(deliveredTo := Served(buf[0].deliveredTo, from, to))] + rest
      case Stays => [buf[0]] + rest
  }

  /** What is handed to `to`. */
  function Forwarded(buf: Buffer, from: Node, to: Node): Buffer {
    if buf == [] then []
    else
      var rest := Forwarded(buf[1..], from, to);
      match FateOf(buf[0], to)
      case HandedOver => [Deliverable(buf[0], from, to)] + rest
      case Copied => [Deliverable(buf[0], from, to)] + rest
      case _ => rest
  }

  function CountFate(buf: Buffer, to: Node, f: Fate): nat {
    if buf == [] then 0 else (if FateOf(buf[0], to) == f then 1 else 0) + CountFate(buf[1..], to, f)
  }

  /** An encounter loses exactly the messages that die and the unicast messages handed over. */
  lemma {:induction false} ForwardingConserves(buf: Buffer, from: Node, to: Node)
    ensures |Kept(buf, from, to)| == |buf| - CountFate(buf, to, Dies) - CountFate(buf, to, HandedOver)
    ensures |Forwarded(buf, from, to)| == CountFate(buf, to, HandedOver) + CountFate(buf, to, Copied)
  {
    if buf != [] { ForwardingConserves(buf[1..], from, to); }
  }

  /** `d` is `m` one hop older, with `from` and `to` listed as served. */
  ghost predicate OneHopOlder(m: DtnMessage, d: DtnMessage, from: Node, to: Node) {
    d.hopCount == m.hopCount + 1 && ServedBy(m, d.(hopCount := m.hopCount), from, to)
  }

  /** `d` is `m` with `from` and `to` listed as served, and nothing else changed. */
  ghost predicate ServedBy(m: DtnMessage, d: DtnMessage, from: Node, to: Node) {
    && d == m.(deliveredTo := d.deliveredTo) && m.deliveredTo <= d.deliveredTo
    && forall p :: p in d.deliveredTo <==> p in m.deliveredTo || p == from || p == to
  }

  /** What an encounter does to one message: at its hop limit it goes; its addressee takes it over; another
      unicast message stays as it is; and a broadcast is copied to a peer not yet served. */
  lemma EncounterWithOne(m: DtnMessage, from: Node, to: Node)
    ensures m.hopCount >= m.ttl ==> Kept([m], from, to) == [] && Forwarded([m], from, to) == []
    ensures m.hopCount < m.ttl && m.destination == Some(to) ==>
      Kept([m], from, to) == [] && |Forwarded([m], from, to)| == 1
      && OneHopOlder(m, Forwarded([m], from, to)[0], from, to)
    ensures m.hopCount < m.ttl && m.destination.Some? && m.destination != Some(to) ==>
      Kept([m], from, to) == [m] && Forwarded([m], from, to) == []
    ensures m.hopCount < m.ttl && m.destination.None? && to in m.deliveredTo ==>
      Kept([m], from, to) == [m] && Forwarded([m], from, to) == []
    ensures m.hopCount < m.ttl && m.destination.None? && to !in m.deliveredTo ==>
      |Kept([m], from, to)| == 1 && ServedBy(m, Kept([m], from, to)[0], from, to)
      && |Forwarded([m], from, to)| == 1 && OneHopOlder(m, Forwarded([m], from, to)[0], from, to)
  {
    assert [m][1..] == [] && Kept([m][1..], from, to) == [] && Forwarded([m][1..], from, to) == [];
  }

  /** And it does so to each message, in order. */
  lemma {:induction false} EncounterWithEach(xs: Buffer, ys: Buffer, from: Node, to: Node)
    ensures Kept(xs + ys, from, to) == Kept(xs, from, to) + Kept(ys, from, to)
    ensures Forwarded(xs + ys, from, to) == Forwarded(xs, from, to) + Forwarded(ys, from, to)
  {
    if xs == [] {
      assert xs + ys == ys;
    } else {
      EncounterWithEach(xs[1..], ys, from, to);
      assert xs == [xs[0]] + xs[1..] && xs + ys == [xs[0]] + (xs[1..] + ys);
      EncounterWithFirst(xs[0], xs[1..], from, to);
      EncounterWithFirst(xs[0], xs[1..] + ys, from, to);
      Glue(Kept([xs[0]], from, to), Kept(xs[1..], from, to), Kept(ys, from, to));
      Glue(Forwarded([xs[0]], from, to), Forwarded(xs[1..], from, to), Forwarded(ys, from, to));
    }
  }

  lemma EncounterWithFirst(m: DtnMessage, rest: Buffer, from: Node, to: Node)
    ensures Kept([m] + rest, from, to) == Kept([m], from, to) + Kept(rest, from, to)
    ensures Forwarded([m] + rest, from, to) == Forwarded([m], from, to) + Forwarded(rest, from, to)
  {
    assert [m][1..] == [] && ([m] + rest)[1..] == rest;
  }

  /** So a unicast message below its hop limit reaches its addressee and leaves the holder. */
  lemma UnicastIsDelivered(buf: Buffer, i: nat, from: Node, to: Node)
    requires i < |buf| && buf[i].hopCount < buf[i].ttl && buf[i].destination == Some(to)
    ensures exists d :: d in Forwarded(buf, from, to) && OneHopOlder(buf[i], d, from, to)
    ensures forall k :: k in Kept(buf, from, to) ==> k.destination != Some(to)
  {
    var m := buf[i];
    assert buf == buf[..i] + ([m] + buf[i + 1..]);
    EncounterWithEach(buf[..i], [m] + buf[i + 1..], from, to);
    EncounterWithEach([m], buf[i + 1..], from, to);
    EncounterWithOne(m, from, to);
    var d := Forwarded([m], from, to)[0];
    assert d in Forwarded([m], from, to);
    KeepsNoneFor(buf, from, to);
  }

  lemma {:induction false} KeepsNoneFor(buf: Buffer, from: Node, to: Node)
    ensures forall k :: k in Kept(buf, from, to) ==> k.destination != Some(to)
  {
    if buf != [] { KeepsNoneFor(buf[1..], from, to); }
  }

  // ---------------------------------------------------------------------------------------------
  // Ageing
  // ---------------------------------------------------------------------------------------------

  /** What one tick leaves of a buffer, and what it expires. */
  function Ticked(buf: Buffer): Buffer {
    if buf == [] then []
    else if SaturatingSub(buf[0].ttl, 1) == 0 then Ticked(buf[1..])
    else [buf[0].(ttl := buf[0].ttl - 1)] + Ticked(buf[1..])
  }

  function ExpiredBy(buf: Buffer): Buffer {
    if buf == [] then []
    else if SaturatingSub(buf[0].ttl, 1) == 0 then [buf[0]] + ExpiredBy(buf[1..])
    else ExpiredBy(buf[1..])
  }

  function TickedTimes(buf: Buffer, n: nat): Buffer {
    if n == 0 then buf else Ticked(TickedTimes(buf, n - 1))
  }

  /** The messages with more than `n` ticks left, each `n` older. */
  function Aged(buf: Buffer, n: nat): Buffer {
    if buf == [] then []
    else if buf[0].ttl <= n then Aged(buf[1..], n)
    else [buf[0].(ttl := buf[0].ttl - n)] + Aged(buf[1..], n)
  }

  lemma {:induction false} TickAges(buf: Buffer, n: nat)
    ensures Ticked(buf) == Aged(buf, 1)
    ensures n >= 1 ==> Ticked(Aged(buf, n)) == Aged(buf, n + 1)
    ensures |Ticked(buf)| + |ExpiredBy(buf)| == |buf|
  {
    if buf != [] {
      TickAges(buf[1..], n);
      var rest := Aged(buf[1..], n);
      if buf[0].ttl > n {
        var m := buf[0].(ttl := buf[0].ttl - n);
        assert ([m] + rest)[1..] == rest;
      }
    }
  }

  /** A message left alone with `t >= 1` ticks to live stays for `t - 1` ticks and leaves at the t-th;
      with none left it leaves at the first. */
  lemma {:induction false} LifetimeInTicks(buf: Buffer, n: nat)
    requires n >= 1
    ensures TickedTimes(buf, n) == Aged(buf, n)
  {
    if n == 1 {
      TickAges(buf, 1);
      assert TickedTimes(buf, 0) == buf;
    } else {
      LifetimeInTicks(buf, n - 1);
      TickAges(buf, n - 1);
    }
  }

  /** A tick expires a message with at most one tick left, as it is. */
  lemma TickOfOne(m: DtnMessage)
    ensures ExpiredBy([m]) == if m.ttl <= 1 then [m] else []
    ensures Ticked([m]) == if m.ttl <= 1 then [] else [m.(ttl := m.ttl - 1)]
  {
    assert [m][1..] == [];
  }

  /** And it treats each message by itself, in order. */
  lemma {:induction false} TicksApart(xs: Buffer, ys: Buffer)
    ensures ExpiredBy(xs + ys) == ExpiredBy(xs) + ExpiredBy(ys)
    ensures Ticked(xs + ys) == Ticked(xs) + Ticked(ys)
  {
    if xs == [] {
      assert xs + ys == ys;
    } else {
      TicksApart(xs[1..], ys);
      assert xs == [xs[0]] + xs[1..] && xs + ys == [xs[0]] + (xs[1..] + ys);
      TickOfFirst(xs[0], xs[1..]);
      TickOfFirst(xs[0], xs[1..] + ys);
      ExpiryOfFirst(xs[0], xs[1..]);
      ExpiryOfFirst(xs[0], xs[1..] + ys);
      Glue(ExpiredBy([xs[0]]), ExpiredBy(xs[1..]), ExpiredBy(ys));
      Glue(Ticked([xs[0]]), Ticked(xs[1..]), Ticked(ys));
    }
  }

  lemma TickOfFirst(m: DtnMessage, rest: Buffer)
    ensures Ticked([m] + rest) == Ticked([m]) + Ticked(rest)
  {
    var all := [m] + rest;
    assert all[0] == m && all[1..] == rest;
    TickOfOne(m);
  }

  lemma ExpiryOfFirst(m: DtnMessage, rest: Buffer)
    ensures ExpiredBy([m] + rest) == ExpiredBy([m]) + ExpiredBy(rest)
  {
    var all := [m] + rest;
    assert all[0] == m && all[1..] == rest;
    TickOfOne(m);
  }

  lemma LeavesAtItsTick(m: DtnMessage, n: nat)
    requires n >= 1
    ensures TickedTimes([m], n) == if m.ttl > n then [m.(ttl := m.ttl - n)] else []
  {
    LifetimeInTicks([m], n);
    assert [m][1..] == [];
  }

  // ---------------------------------------------------------------------------------------------
  // Removing collected indices from the back
  // ---------------------------------------------------------------------------------------------

  function Without<T>(s: seq<T>, drop: set<nat>, from: nat): seq<T>
    decreases |s| - from
  {
    if from >= |s| then []
    else (if from in drop then [] else [s[from]]) + Without(s, drop, from + 1)
  }

  lemma {:induction false} WithoutRun<T>(s: seq<T>, drop: set<nat>, from: nat, end: nat)
    requires from <= end <= |s| && forall i :: from <= i < end ==> i !in drop
    ensures Without(s, drop, from) == s[from..end] + Without(s, drop, end)
    decreases end - from
  {
    if from < end {
      WithoutRun(s, drop, from + 1, end);
      var rest := Without(s, drop, end);
      assert s[from..end] == [s[from]] + s[from + 1..end];
      Glue([s[from]], s[from + 1..end], rest);
    }
  }

  ghost predicate Ascending(s: seq<nat>, bound: nat) {
    (forall i, j :: 0 <= i < j < |s| ==> s[i] < s[j]) && forall i :: 0 <= i < |s| ==> s[i] < bound
  }

  /** The `for idx in to_remove.into_iter().rev() { buf.remove(idx) }` loops. */
  method RemoveIndices<T>(s: seq<T>, toRemove: seq<nat>) returns (out: seq<T>)
    requires Ascending(toRemove, |s|)
    ensures out == Without(s, set k | k in toRemove, 0)
  {
    ghost var drop := set k | k in toRemove;
    out := s;
    var bound := |s|;
    var n := |toRemove|;
    while n > 0
      invariant 0 <= n <= |toRemove| && bound == (if n == |toRemove| then |s| else toRemove[n])
      invariant bound <= |s| && out == s[..bound] + Without(s, drop, bound)
    {
      n := n - 1;
      var idx := toRemove[n];
      assert forall k :: 0 <= k < |toRemove| ==> toRemove[k] <= idx || toRemove[k] >= bound;
      WithoutRun(s, drop, idx + 1, bound);
      assert idx in drop;
      assert out[..idx] == s[..idx] && out[idx + 1..] == s[idx + 1..bound] + Without(s, drop, bound);
      out := Without1(out, idx);
      bound := idx;
    }
    assert forall k :: 0 <= k < |toRemove| ==> toRemove[k] >= bound;
    WithoutRun(s, drop, 0, bound);
  }

  // ---------------------------------------------------------------------------------------------
  // The router
  // ---------------------------------------------------------------------------------------------

  predicate Leaves(m: DtnMessage, to: Node) { FateOf(m, to) == Dies || FateOf(m, to) == HandedOver }

  /** A message after the in-place pass of `collect_forwarded`. */
  function Noted(m: DtnMessage, from: Node, to: Node): DtnMessage {
    if FateOf(m, to) == Copied then m.(deliveredTo := Served(m.deliveredTo, from, to)) else m
  }

  lemma {:induction false} RemovalIsKept(buf: Buffer, noted: Buffer, from: Node, to: Node, drop: set<nat>, i: nat)
    requires |noted| == |buf| && i <= |buf|
    requires forall k :: i <= k < |buf| ==> noted[k] == Noted(buf[k], from, to)
    requires forall k :: i <= k < |buf| ==> (k in drop <==> Leaves(buf[k], to))
    ensures Without(noted, drop, i) == Kept(buf[i..], from, to)
    decreases |buf| - i
  {
    if i < |buf| {
      RemovalIsKept(buf, noted, from, to, drop, i + 1);
      assert buf[i..][1..] == buf[i + 1..];
    }
  }

  function Older(buf: Buffer): Buffer {
    seq(|buf|, i requires 0 <= i < |buf| => buf[i].(ttl := SaturatingSub(buf[i].ttl, 1)))
  }

  lemma {:induction false} RemovalIsTicked(buf: Buffer, drop: set<nat>, i: nat)
    requires i <= |buf|
    requires forall k :: i <= k < |buf| ==> (k in drop <==> SaturatingSub(buf[k].ttl, 1) == 0)
    ensures Older(Without(buf, drop, i)) == Ticked(buf[i..])
    decreases |buf| - i
  {
    if i < |buf| {
      RemovalIsTicked(buf, drop, i + 1);
      assert buf[i..][1..] == buf[i + 1..];
      var rest := Without(buf, drop, i + 1);
      assert i !in drop ==> Older([buf[i]] + rest) == [buf[i].(ttl := SaturatingSub(buf[i].ttl, 1))] + Older(rest);
    }
  }

  /** All messages held by all nodes. */
  ghost function Total(m: map<Node, Buffer>): nat
    decreases |m|
  {
    if m == map[] then 0
    else
      var n :| n in m;
      |m[n]| + Total(m - {n})
  }

  lemma {:induction false} TotalSplit(m: map<Node, Buffer>, n: Node)
    requires n in m
    ensures Total(m) == |m[n]| + Total(m - {n})
    decreases |m|
  {
    var k :| k in m && Total(m) == |m[k]| + Total(m - {k});
    if k != n {
      TotalSplit(m - {k}, n);
      TotalSplit(m - {n}, k);
      assert m - {k} - {n} == m - {n} - {k};
    }
  }

  function HeldBy(m: map<Node, Buffer>, n: Node): Buffer { if n in m then m[n] else [] }

  lemma TotalUpdate(m: map<Node, Buffer>, n: Node, buf: Buffer)
    ensures Total(m[n := buf]) == Total(m) - |HeldBy(m, n)| + |buf|
  {
    var m' := m[n := buf];
    TotalSplit(m', n);
    if n in m {
      TotalSplit(m, n);
      assert m' - {n} == m - {n};
    } else {
      assert m' - {n} == m;
    }
  }

  class DtnRouter {
    const maxBuffer: nat
    var buffers: map<Node, Buffer>
    var totalStored: nat
    var totalForwarded: nat
    var totalExpired: nat
    var totalDropped: nat
    var totalDelivered: nat
    ghost var totalReplaced: nat
    ghost var totalUnicast: nat

    /** Buffers are bounded, and every message stored is still buffered, or was replaced, expired, or
        delivered as unicast. */
    ghost predicate Valid()
      reads this
    {
      && (forall n :: n in buffers ==> |buffers[n]| <= if maxBuffer == 0 then 1 else maxBuffer)
      && Total(buffers) + totalReplaced + totalExpired + totalUnicast == totalStored
    }

    constructor (capacity: nat)
      ensures Valid() && maxBuffer == capacity && buffers == map[]
      ensures totalStored == totalForwarded == totalExpired == totalDropped == totalDelivered == 0
    {
      maxBuffer := capacity;
      buffers := map[];
      totalStored, totalForwarded, totalExpired, totalDropped, totalDelivered := 0, 0, 0, 0, 0;
      totalReplaced, totalUnicast := 0, 0;
    }

    method Store(node: Node, m: DtnMessage) returns (stored: bool)
      requires Valid()
      modifies this
      ensures Valid()
      ensures buffers == old(buffers)[node := StoreInto(HeldBy(old(buffers), node), m, maxBuffer)]
      ensures var outcome := StoreOutcome(HeldBy(old(buffers), node), m, maxBuffer);
              && stored == (outcome != Rejected)
              && totalStored == old(totalStored) + (if stored then 1 else 0)
              && totalDropped == old(totalDropped) + (if outcome == Stored then 0 else 1)
              && totalReplaced == old(totalReplaced) + (if outcome == Replaced then 1 else 0)
      ensures totalForwarded == old(totalForwarded) && totalExpired == old(totalExpired)
              && totalDelivered == old(totalDelivered) && totalUnicast == old(totalUnicast)
    {
      var buf := if node in buffers then buffers[node] else [];
      ghost var before := buf;
      var replaced, rejected;
      buf, replaced, rejected := MakeRoom(buf, m, maxBuffer);
      if !rejected { buf := buf + [m]; }
      TotalUpdate(buffers, node, buf);
      buffers := buffers[node := buf];
      if replaced || rejected { totalDropped := totalDropped + 1; }
      if replaced { totalReplaced := totalReplaced + 1; }
      if !rejected { totalStored := totalStored + 1; }
      stored := !rejected;
    }

    method Collect(from: Node, to: Node) returns (forwarded: Buffer, delivered: nat, expired: nat)
      modifies this`buffers
      ensures buffers == AfterCollect(old(buffers), from, to)
      ensures forwarded == Forwarded(HeldBy(old(buffers), from), from, to) && delivered == |forwarded|
      ensures expired == CountFate(HeldBy(old(buffers), from), to, Dies)
    {
      forwarded, delivered, expired := [], 0, 0;
      if from !in buffers { return; }
      var buf := buffers[from];
      ghost var before := buf;
      var toRemove;
      buf, toRemove, forwarded, expired := CollectFrom(buf, from, to);
      delivered := |forwarded|;
      RemovalIsKept(before, buf, from, to, set k | k in toRemove, 0);
      buf := RemoveIndices(buf, toRemove);
      buffers := buffers[from := buf];
    }

    /** Each side hands to the other; `a` receives first. */
    method Encounter(a: Node, b: Node) returns (toA: Buffer, toB: Buffer)
      requires Valid()
      modifies this
      ensures Valid()
      ensures var middle := AfterCollect(old(buffers), b, a);
              && toA == Forwarded(HeldBy(old(buffers), b), b, a)
              && toB == Forwarded(HeldBy(middle, a), a, b)
              && buffers == AfterCollect(middle, a, b)
              && totalExpired == old(totalExpired) + CountFate(HeldBy(old(buffers), b), a, Dies)
                                 + CountFate(HeldBy(middle, a), b, Dies)
      ensures totalForwarded == old(totalForwarded) + |toA| + |toB|
      ensures totalDelivered == old(totalDelivered) + |toA| + |toB|
      ensures totalUnicast == old(totalUnicast) + CountFate(HeldBy(old(buffers), b), a, HandedOver)
                              + CountFate(HeldBy(AfterCollect(old(buffers), b, a), a), b, HandedOver)
      ensures totalStored == old(totalStored) && totalDropped == old(totalDropped)
              && totalReplaced == old(totalReplaced)
    {
      ghost var start := buffers;
      var deliveredA, expiredA, deliveredB, expiredB;
      toA, deliveredA, expiredA := Collect(b, a);
      ghost var middle := buffers;
      CollectConserves(start, b, a, maxBuffer);
      toB, deliveredB, expiredB := Collect(a, b);
      CollectConserves(middle, a, b, maxBuffer);
      totalForwarded := totalForwarded + (deliveredA + deliveredB);
      totalDelivered := totalDelivered + (deliveredA + deliveredB);
      totalExpired := totalExpired + (expiredA + expiredB);
      totalUnicast := totalUnicast + CountFate(HeldBy(start, b), a, HandedOver)
                      + CountFate(HeldBy(middle, a), b, HandedOver);
    }

    method Tick(node: Node) returns (expired: Buffer)
      requires Valid()
      modifies this
      ensures Valid() && expired == ExpiredBy(HeldBy(old(buffers), node))
      ensures buffers == if node in old(buffers) then old(buffers)[node := Ticked(old(buffers)[node])] else old(buffers)
      ensures totalExpired == old(totalExpired) + |expired|
      ensures totalForwarded == old(totalForwarded) && totalDropped == old(totalDropped)
              && totalDelivered == old(totalDelivered)
      ensures totalStored == old(totalStored) && totalReplaced == old(totalReplaced)
              && totalUnicast == old(totalUnicast)
    {
      expired := [];
      if node !in buffers { return; }
      var buf := buffers[node];
      var toRemove;
      expired, toRemove := FindExpired(buf);
      ghost var before := buf;
      RemovalIsTicked(before, set k | k in toRemove, 0);
      TickAges(before, 1);
      buf := RemoveIndices(buf, toRemove);
      buf := AgeAll(buf);
      TotalUpdate(buffers, node, buf);
      buffers := buffers[node := buf];
      totalExpired := totalExpired + |expired|;
    }
  }

  /** The in-place pass of `collect_forwarded` has reached `idx`. */
  ghost predicate Collecting(before: Buffer, buf: Buffer, toRemove: seq<nat>, idx: nat, from: Node, to: Node) {
    && |buf| == |before| && idx <= |buf| && Ascending(toRemove, idx)
    && (forall k :: 0 <= k < idx ==> buf[k] == Noted(before[k], from, to))
    && (forall k :: idx <= k < |buf| ==> buf[k] == before[k])
    && (forall k :: 0 <= k < idx ==> (k in toRemove <==> Leaves(before[k], to)))
  }

  ghost predicate Collected(before: Buffer, forwarded: Buffer, expired: nat, idx: nat, from: Node, to: Node) {
    && idx <= |before|
    && Forwarded(before, from, to) == forwarded + Forwarded(before[idx..], from, to)
    && CountFate(before, to, Dies) == expired + CountFate(before[idx..], to, Dies)
  }

  lemma CollectStep(before: Buffer, buf: Buffer, toRemove: seq<nat>, forwarded: Buffer, expired: nat, idx: nat,
                    from: Node, to: Node)
    requires Collecting(before, buf, toRemove, idx, from, to) && idx < |buf|
    requires Collected(before, forwarded, expired, idx, from, to)
    ensures buf[idx] == before[idx]
    ensures var toRemove' := if Leaves(buf[idx], to) then toRemove + [idx] else toRemove;
            Collecting(before, buf[idx := Noted(buf[idx], from, to)], toRemove', idx + 1, from, to)
    ensures var fate := FateOf(buf[idx], to);
            var forwarded' := if fate == HandedOver || fate == Copied
                              then forwarded + [Deliverable(buf[idx], from, to)] else forwarded;
            Collected(before, forwarded', expired + (if fate == Dies then 1 else 0), idx + 1, from, to)
  {
    var m, rest := before[idx], Forwarded(before[idx + 1..], from, to);
    assert before[idx..][0] == m && before[idx..][1..] == before[idx + 1..];
    if FateOf(m, to) == HandedOver || FateOf(m, to) == Copied {
      Glue(forwarded, [Deliverable(m, from, to)], rest);
    }
  }

  function AfterCollect(m: map<Node, Buffer>, from: Node, to: Node): map<Node, Buffer> {
    if from in m then m[from := Kept(m[from], from, to)] else m
  }

  lemma CollectConserves(m: map<Node, Buffer>, from: Node, to: Node, cap: nat)
    requires forall n :: n in m ==> |m[n]| <= if cap == 0 then 1 else cap
    ensures var m' := AfterCollect(m, from, to);
            && (forall n :: n in m' ==> |m'[n]| <= if cap == 0 then 1 else cap)
            && Total(m') + CountFate(HeldBy(m, from), to, Dies) + CountFate(HeldBy(m, from), to, HandedOver) == Total(m)
  {
    if from in m {
      ForwardingConserves(m[from], from, to);
      TotalUpdate(m, from, Kept(m[from], from, to));
    }
  }

  /** The loop of `worst_index`. */
  method WorstIndex(buf: Buffer) returns (w: Option<nat>)
    ensures w == if buf == [] then None else Some(WorstBelow(buf, |buf|))
  {
    w := None;
    for i := 0 to |buf|
      invariant w == if i == 0 then None else Some(WorstBelow(buf, i))
    {
      if w.None? || Worse(buf[i], buf[w.value]) { w := Some(i); }
    }
  }

  /** The first half of `store`: evict the least urgent message, or reject the new one. */
  method MakeRoom(buf: Buffer, m: DtnMessage, cap: nat) returns (room: Buffer, replaced: bool, rejected: bool)
    ensures rejected == (StoreOutcome(buf, m, cap) == Rejected)
    ensures replaced == (StoreOutcome(buf, m, cap) == Replaced)
    ensures StoreInto(buf, m, cap) == if rejected then room else room + [m]
  {
    room, replaced, rejected := buf, false, false;
    if |buf| >= cap {
      var idx := WorstIndex(buf);
      if idx.Some? {
        if m.priority < buf[idx.value].priority {
          room := Without1(buf, idx.value);
          replaced := true;
        } else {
          rejected := true;
        }
      }
    }
  }

  /** The first loop of `tick`. */
  method FindExpired(buf: Buffer) returns (expired: Buffer, toRemove: seq<nat>)
    ensures expired == ExpiredBy(buf) && Ascending(toRemove, |buf|)
    ensures forall k :: 0 <= k < |buf| ==> (k in toRemove <==> SaturatingSub(buf[k].ttl, 1) == 0)
  {
    expired, toRemove := [], [];
    for idx := 0 to |buf|
      invariant Ascending(toRemove, idx)
      invariant forall k :: 0 <= k < idx ==> (k in toRemove <==> SaturatingSub(buf[k].ttl, 1) == 0)
      invariant ExpiredBy(buf) == expired + ExpiredBy(buf[idx..])
    {
      assert buf[idx..][1..] == buf[idx + 1..];
      if SaturatingSub(buf[idx].ttl, 1) == 0 {
        Glue(expired, [buf[idx]], ExpiredBy(buf[idx + 1..]));
        expired := expired + [buf[idx]];
        toRemove := toRemove + [idx];
      }
    }
  }

  /** The last loop of `tick`. */
  method AgeAll(buf: Buffer) returns (older: Buffer)
    ensures older == Older(buf)
  {
    older := buf;
    for idx := 0 to |buf|
      invariant |older| == |buf|
      invariant forall k :: 0 <= k < idx ==> older[k] == Older(buf)[k]
      invariant forall k :: idx <= k < |buf| ==> older[k] == buf[k]
    {
      older := older[idx := older[idx].(ttl := SaturatingSub(older[idx].ttl, 1))];
    }
  }

  /** The first half of `collect_forwarded`: hand copies over and note what has to leave the buffer. */
  method CollectFrom(before: Buffer, from: Node, to: Node)
    returns (buf: Buffer, toRemove: seq<nat>, forwarded: Buffer, expired: nat)
    ensures Collecting(before, buf, toRemove, |before|, from, to)
    ensures forwarded == Forwarded(before, from, to) && expired == CountFate(before, to, Dies)
  {
    buf, toRemove, forwarded, expired := before, [], [], 0;
    for idx := 0 to |buf|
      invariant Collecting(before, buf, toRemove, idx, from, to)
      invariant Collected(before, forwarded, expired, idx, from, to)
    {
      buf, toRemove, forwarded, expired := CollectOne(before, buf, toRemove, forwarded, expired, idx, from, to);
    }
    assert before[|before|..] == [] && forwarded + [] == forwarded;
  }

  /** One turn of that loop. */
  method CollectOne(before: Buffer, buf: Buffer, toRemove: seq<nat>, forwarded: Buffer, expired: nat, idx: nat,
                    from: Node, to: Node)
    returns (buf': Buffer, toRemove': seq<nat>, forwarded': Buffer, expired': nat)
    requires Collecting(before, buf, toRemove, idx, from, to) && idx < |buf|
    requires Collected(before, forwarded, expired, idx, from, to)
    ensures Collecting(before, buf', toRemove', idx + 1, from, to)
    ensures Collected(before, forwarded', expired', idx + 1, from, to)
  {
    CollectStep(before, buf, toRemove, forwarded, expired, idx, from, to);
    var kept, handed, dies, leaves := Offer(buf[idx], from, to);
    buf' := buf[idx := kept];
    forwarded' := if handed.Some? then forwarded + [handed.value] else forwarded;
    expired' := expired + if dies then 1 else 0;
    toRemove' := if leaves then toRemove + [idx] else toRemove;
  }

  /** The loop body of `collect_forwarded`. */
  method Offer(m: DtnMessage, from: Node, to: Node)
    returns (kept: DtnMessage, handed: Option<DtnMessage>, dies: bool, leaves: bool)
    ensures kept == Noted(m, from, to) && leaves == Leaves(m, to) && dies == (FateOf(m, to) == Dies)
    ensures handed == if FateOf(m, to) == HandedOver || FateOf(m, to) == Copied
                      then Some(Deliverable(m, from, to)) else None
  {
    kept, handed, dies, leaves := m, None, false, false;
    if m.hopCount >= m.ttl {
      dies, leaves := true, true;
      return;
    }
    var shouldDeliver := match m.destination
      case Some(d) => d == to
      case None => to !in m.deliveredTo;
    if shouldDeliver {
      var deliverable := m.(hopCount := m.hopCount + 1);
      deliverable := deliverable.(deliveredTo := PushUnique(deliverable.deliveredTo, to));
      if from != to { deliverable := deliverable.(deliveredTo := PushUnique(deliverable.deliveredTo, from)); }
      handed := Some(deliverable);
      if m.destination.None? {
        kept := kept.(deliveredTo := PushUnique(kept.deliveredTo, to));
        if from != to { kept := kept.(deliveredTo := PushUnique(kept.deliveredTo, from)); }
      } else {
        leaves := true;
      }
    }
  }
}
