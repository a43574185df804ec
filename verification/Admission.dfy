/** The gate every event from a peer passes: rate budget, heal grace and graduated abuse. */
module Admission {
  import opened Bytes
  import opened Abuse
  import opened Spam

  const PARTITION_SILENCE_THRESHOLD_SECS: nat := 300
  const HEAL_GRACE_SECS: nat := 120
  const HEAL_WINDOW_BUDGET_FACTOR: nat := 4
  const GRACE_BUDGET: nat := SPAM_BUDGET_PER_WINDOW * HEAL_WINDOW_BUDGET_FACTOR

  type Peer = string

  datatype Decision = Admitted | BadSignature | AuthorIgnored | RateLimited

  function SaturatingAdd(a: u64, b: nat): u64 {
    if a + b < U64_LIMIT then a + b else U64_LIMIT - 1
  }

  /** At least one peer is known and all have been silent for the threshold. */
  ghost predicate PartitionSuspected(lastSeen: map<Peer, u64>, now: u64) {
    lastSeen != map[] &&
    forall p :: p in lastSeen ==> SaturatingSub(now, lastSeen[p]) >= PARTITION_SILENCE_THRESHOLD_SECS
  }

  // ---------------------------------------------------------------------------------------------
  // What the gate knows about the past
  // ---------------------------------------------------------------------------------------------

  /** Grace openings are at least one silence threshold apart, and a peer was seen at the last one. */
  ghost predicate OpeningsOk(openings: seq<u64>, lastSeen: map<Peer, u64>, graceUntil: u64, clock: nat) {
    && (forall i :: 0 <= i < |openings| - 1 ==> openings[i] + PARTITION_SILENCE_THRESHOLD_SECS <= openings[i + 1])
    && (forall p :: p in lastSeen ==> lastSeen[p] <= clock)
    && if openings == [] then graceUntil == 0
       else
         var last := openings[|openings| - 1];
         && graceUntil == SaturatingAdd(last, HEAL_GRACE_SECS)
         && last <= clock
         && exists p :: p in lastSeen && lastSeen[p] >= last
  }

  /** The admission happened within a grace. */
  ghost predicate InGrace(openings: seq<u64>, time: u64) {
    exists i :: 0 <= i < |openings| && openings[i] <= time < openings[i] + HEAL_GRACE_SECS
  }

  ghost predicate BudgetJustified(a: Admission, openings: seq<u64>) {
    a.budget == SPAM_BUDGET_PER_WINDOW || (a.budget == GRACE_BUDGET && InGrace(openings, a.time))
  }

  ghost predicate LogJustified(log: Log, openings: seq<u64>) {
    forall i :: 0 <= i < |log| ==> BudgetJustified(log[i], openings)
  }

  ghost predicate AllJustified(log: map<Author, Log>, openings: seq<u64>) {
    forall a :: a in log ==> LogJustified(log[a], openings)
  }

  ghost function HistoryOf(history: map<Author, seq<Entry>>, a: Author): seq<Entry> {
    if a in history then history[a] else []
  }

  function RecordFor(abuse: map<Author, AbuseRecord>, a: Author): AbuseRecord {
    if a in abuse then abuse[a] else NO_ABUSE
  }

  ghost predicate HistoryOk(history: seq<Entry>, rec: AbuseRecord, clock: nat) {
    Legal(history) && rec == RecordOf(history) && (history != [] ==> history[|history| - 1].at <= clock)
  }

  ghost predicate AbuseOk(abuse: map<Author, AbuseRecord>, history: map<Author, seq<Entry>>, clock: nat) {
    forall a :: HistoryOk(HistoryOf(history, a), RecordFor(abuse, a), clock)
  }

  /** A violation or folding at `now` extends one author's history. */
  lemma HistoryExtends(abuse: map<Author, AbuseRecord>, history: map<Author, seq<Entry>>, clock: nat,
                       author: Author, e: Entry)
    requires AbuseOk(abuse, history, clock) && clock <= e.at
    requires e.Violation? && e.reason == ExcessiveRate ==> RecordFor(abuse, author).LevelAt(e.at) < IGNORE_THRESHOLD
    ensures AbuseOk(abuse[author := After(RecordFor(abuse, author), e)],
                    history[author := HistoryOf(history, author) + [e]], e.at)
  {
    var h := HistoryOf(history, author);
    assert HistoryOk(h, RecordFor(abuse, author), clock);
    assert (h + [e])[..|h|] == h;
    var abuse', history' := abuse[author := After(RecordFor(abuse, author), e)], history[author := h + [e]];
    forall a ensures HistoryOk(HistoryOf(history', a), RecordFor(abuse', a), e.at) {
      assert HistoryOk(HistoryOf(history, a), RecordFor(abuse, a), clock);
    }
  }

  lemma AbuseTimePasses(abuse: map<Author, AbuseRecord>, history: map<Author, seq<Entry>>, clock: nat, now: nat)
    requires AbuseOk(abuse, history, clock) && clock <= now
    ensures AbuseOk(abuse, history, now)
  {
    forall a ensures HistoryOk(HistoryOf(history, a), RecordFor(abuse, a), now) {
      assert HistoryOk(HistoryOf(history, a), RecordFor(abuse, a), clock);
    }
  }

  lemma OpeningExtends(openings: seq<u64>, log: map<Author, Log>, now: u64)
    requires AllJustified(log, openings)
    ensures AllJustified(log, openings + [now])
  {
    forall a | a in log ensures LogJustified(log[a], openings + [now]) {
      forall i | 0 <= i < |log[a]| ensures BudgetJustified(log[a][i], openings + [now]) {
        assert BudgetJustified(log[a][i], openings);
        if InGrace(openings, log[a][i].time) {
          var k :| 0 <= k < |openings| && openings[k] <= log[a][i].time < openings[k] + HEAL_GRACE_SECS;
          assert (openings + [now])[k] == openings[k];
        }
      }
    }
  }

  /** Along any run of the gate up to `clock`, an author first charged at t has been charged for its
      rate fewer than 5 + H / 20 times, H the whole hours since t. */
  lemma ChargesAreBounded(abuse: map<Author, AbuseRecord>, history: map<Author, seq<Entry>>, clock: nat, author: Author)
    requires AbuseOk(abuse, history, clock) && author in history && history[author] != []
    ensures 20 * ExcessCount(history[author]) < 100 + Hours(history[author][0].at, clock)
    ensures 0.0 <= RecordFor(abuse, author).LevelAt(clock) <= 1.0
  {
    var h := history[author];
    assert HistoryOk(HistoryOf(history, author), RecordFor(abuse, author), clock);
    ExcessIsBounded(h);
    HoursSplit(h[0].at, h[|h| - 1].at, clock);
  }

  /** A window with more than the ordinary budget contains an admission made under a heal grace. */
  lemma OverBudgetOnlyInGrace(log: Log, openings: seq<u64>, window: nat, clock: nat, start: nat)
    requires Chronological(log, clock) && WithinBudget(log, window) && LogJustified(log, openings)
    ensures InWindow(log, start, start + window) <= GRACE_BUDGET
    ensures InWindow(log, start, start + window) > SPAM_BUDGET_PER_WINDOW ==>
              exists i :: 0 <= i < |log| && start <= log[i].time <= start + window && InGrace(openings, log[i].time)
  {
    NoWindowOverBudget(log, window, clock, start);
    if InWindow(log, start, start + window) != 0 {
      var i :| 0 <= i < |log| && start <= log[i].time <= start + window
               && InWindow(log, start, start + window) <= log[i].budget;
      assert BudgetJustified(log[i], openings);
    }
  }

  /** A rate charge at or above the ignore threshold. */
  predicate Excessive(rec: AbuseRecord, reason: Reason, now: nat) {
    reason == ExcessiveRate && rec.LevelAt(now) >= IGNORE_THRESHOLD
  }

  /** As long as a gate is used in order, a window of an author never evicted holds more admissions than the
      ordinary budget only if one of them was made under a heal grace. */
  lemma GateWithinBudget(gate: Gate, author: Author, start: nat)
    requires gate.Valid() && gate.orderly && author !in gate.guard.evicted
    ensures var log, end := LogOf(gate.guard.full, author), start + SPAM_WINDOW_SECS;
            && InWindow(log, start, end) <= GRACE_BUDGET
            && (InWindow(log, start, end) > SPAM_BUDGET_PER_WINDOW ==>
                  exists i :: 0 <= i < |log| && start <= log[i].time <= end && InGrace(gate.openings, log[i].time))
  {
    var guard, log := gate.guard, LogOf(gate.guard.full, author);
    assert LogOf(guard.log, author) == log;
    assert AuthorOk(StampsOf(guard.entries, author), log, guard.windowSecs, guard.clock);
    OverBudgetOnlyInGrace(log, gate.openings, SPAM_WINDOW_SECS, guard.clock, start);
  }

  class Gate {
    const me: Author
    const guard: SpamGuard
    var abuse: map<Author, AbuseRecord>
    var lastSeen: map<Peer, u64>
    var graceUntil: u64
    ghost var history: map<Author, seq<Entry>>
    ghost var openings: seq<u64>
    ghost var clock: nat
    /** Time never went back, and rates were charged below the ignore threshold only, as `AdmitPeerEvent`
        does. */
    ghost var orderly: bool

    ghost predicate Valid()
      reads this, guard
    {
      && guard.Valid() && guard.windowSecs == SPAM_WINDOW_SECS
      && (orderly ==>
            && guard.steady && guard.clock <= clock && AbuseOk(abuse, history, clock)
            && OpeningsOk(openings, lastSeen, graceUntil, clock) && AllJustified(guard.full, openings))
    }

    constructor (me: Author)
      ensures Valid() && fresh(guard) && this.me == me && clock == 0 && orderly
      ensures abuse == map[] && history == map[] && lastSeen == map[] && graceUntil == 0 && openings == []
      ensures guard.entries == map[] && guard.log == guard.full == map[] && guard.evicted == {}
    {
      this.me := me;
      guard := new SpamGuard(SPAM_WINDOW_SECS, SPAM_BUDGET_PER_WINDOW);
      abuse, lastSeen, graceUntil := map[], map[], 0;
      history, openings, clock, orderly := map[], [], 0, true;
    }

    /** The decision, in the order of the checks; only a rate limit is charged to the author, and no
        author is ever charged more often than the recovery allows. */
    method AdmitPeerEvent(now: u64, author: Author, signatureValid: bool, known: bool) returns (decision: Decision)
      requires Valid()
      modifies this`abuse, this`history, this`clock, this`orderly, guard
      ensures Valid() && clock == now && orderly == (old(orderly) && old(clock) <= now)
      ensures !signatureValid ==> decision == BadSignature
      ensures signatureValid && (author == me || known) ==> decision == Admitted
      ensures signatureValid && author != me && !known ==>
                (decision == AuthorIgnored
                 <==> ActionFor(RecordFor(old(abuse), author).LevelAt(now)) == Ignore)
      ensures signatureValid && author != me && !known && decision != AuthorIgnored ==>
                var budget := if now < graceUntil then GRACE_BUDGET else SPAM_BUDGET_PER_WINDOW;
                var horizon := SaturatingSub(now, SPAM_WINDOW_SECS);
                && decision == (if |Kept(StampsOf(old(guard.entries), author), horizon)| < budget
                                then Admitted else RateLimited)
                && (orderly ==> decision == if InWindow(LogOf(old(guard.log), author), horizon, now) < budget
                                            then Admitted else RateLimited)
      ensures var counted := signatureValid && author != me && !known && decision == Admitted;
              var budget := if now < graceUntil then GRACE_BUDGET else SPAM_BUDGET_PER_WINDOW;
              guard.full == if counted then WithAdmission(old(guard.full), author, now, budget) else old(guard.full)
      ensures abuse == if decision == RateLimited
                       then old(abuse)[author := RecordFor(old(abuse), author).Record(Penalty(ExcessiveRate), now)]
                       else old(abuse)
      ensures history == if decision == RateLimited
                         then old(history)[author := HistoryOf(old(history), author) + [Violation(ExcessiveRate, now)]]
                         else old(history)
    {
      PassTime(now);
      if !signatureValid { return BadSignature; }
      if author == me || known { return Admitted; }
      if ActionFor(RecordFor(abuse, author).LevelAt(now)) == Ignore { return AuthorIgnored; }
      var budget := if now < graceUntil then GRACE_BUDGET else SPAM_BUDGET_PER_WINDOW;
      var admitted := SpendBudget(now, author, budget);
      if !admitted {
        var _ := RecordViolation(author, ExcessiveRate, now);
        return RateLimited;
      }
      return Admitted;
    }

    ghost method PassTime(now: u64)
      requires Valid()
      modifies this`clock, this`orderly
      ensures Valid() && clock == now && orderly == (old(orderly) && old(clock) <= now)
    {
      if orderly && clock <= now { AbuseTimePasses(abuse, history, clock, now); }
      orderly := orderly && clock <= now;
      clock := now;
    }

    /** The sliding window's verdict, with the budget noted as justified. */
    method SpendBudget(now: u64, author: Author, budget: nat) returns (admitted: bool)
      requires Valid() && clock == now && budget == if now < graceUntil then GRACE_BUDGET else SPAM_BUDGET_PER_WINDOW
      modifies guard
      ensures Valid()
      ensures admitted
           == (|Kept(StampsOf(old(guard.entries), author), SaturatingSub(now, SPAM_WINDOW_SECS))| < budget)
      ensures orderly ==>
        admitted == (InWindow(LogOf(old(guard.log), author), SaturatingSub(now, SPAM_WINDOW_SECS), now) < budget)
      ensures guard.full == if admitted then WithAdmission(old(guard.full), author, now, budget) else old(guard.full)
    {
      if orderly { GraceIsOpen(openings, lastSeen, graceUntil, now, budget); }
      ghost var full := guard.full;
      admitted := guard.AdmitWithBudget(author, now, budget);
      if orderly { AdmissionJustified(full, guard.full, openings, author, Spam.Admission(now, budget)); }
    }

    /** Rate violations are charged below the ignore threshold only; invalid payloads and insufficient
        work at any level. */
    method RecordViolation(author: Author, reason: Reason, now: u64) returns (level: real)
      requires Valid()
      modifies this`abuse, this`history, this`clock, this`orderly
      ensures Valid() && clock == now
      ensures orderly <==> && old(orderly) && old(clock) <= now
                           && (reason == ExcessiveRate ==> RecordFor(old(abuse), author).LevelAt(now) < 0.80)
      ensures abuse == old(abuse)[author := RecordFor(old(abuse), author).Record(Penalty(reason), now)]
      ensures 0.0 <= level == abuse[author].score <= 1.0
      ensures history == old(history)[author := HistoryOf(old(history), author) + [Violation(reason, now)]]
    {
      ghost var allowed := orderly && clock <= now && !Excessive(RecordFor(abuse, author), reason, now);
      if allowed { HistoryExtends(abuse, history, clock, author, Violation(reason, now)); }
      history := history[author := HistoryOf(history, author) + [Violation(reason, now)]];
      abuse := abuse[author := RecordFor(abuse, author).Record(Penalty(reason), now)];
      clock, orderly := now, allowed;
      level := abuse[author].score;
    }

    method FoldAbuseDecay(author: Author, now: u64) returns (level: real)
      requires Valid()
      modifies this`abuse, this`history, this`clock, this`orderly
      ensures Valid() && clock == now && orderly == (old(orderly) && old(clock) <= now)
      ensures level == RecordFor(old(abuse), author).LevelAt(now)
      ensures abuse == if author in old(abuse) then old(abuse)[author := old(abuse)[author].Fold(now)] else old(abuse)
    {
      if author !in abuse {
        PassTime(now);
        return 0.0;
      }
      ghost var allowed := orderly && clock <= now;
      if allowed { HistoryExtends(abuse, history, clock, author, Folded(now)); }
      history := history[author := HistoryOf(history, author) + [Folded(now)]];
      level := abuse[author].LevelAt(now);
      abuse := abuse[author := abuse[author].Fold(now)];
      clock, orderly := now, allowed;
    }

    /** A contact; when it ends a suspected partition it opens a heal grace. */
    method NotePeerTraffic(peer: Peer, now: u64)
      requires Valid()
      modifies this`lastSeen, this`graceUntil, this`openings, this`clock, this`orderly
      ensures Valid() && clock == now && orderly == (old(orderly) && old(clock) <= now)
      ensures lastSeen == old(lastSeen)[peer := now]
      ensures var ended := PartitionSuspected(old(lastSeen), now);
              && openings == (if ended then old(openings) + [now] else old(openings))
              && graceUntil == if ended then SaturatingAdd(now, HEAL_GRACE_SECS) else old(graceUntil)
    {
      var ended := SuspectPartition(lastSeen, now);
      ghost var allowed := orderly && clock <= now;
      if allowed {
        ContactKeepsOpenings(openings, lastSeen, graceUntil, clock, peer, now);
        AbuseTimePasses(abuse, history, clock, now);
        OpeningExtends(openings, guard.full, now);
      }
      lastSeen := lastSeen[peer := now];
      clock, orderly := now, allowed;
      if ended {
        openings := openings + [now];
        graceUntil := SaturatingAdd(now, HEAL_GRACE_SECS);
      }
    }
  }

  method SuspectPartition(lastSeen: map<Peer, u64>, now: u64) returns (suspected: bool)
    ensures suspected == PartitionSuspected(lastSeen, now)
  {
    if lastSeen == map[] { return false; }
    var rest := lastSeen.Keys;
    while rest != {}
      invariant rest <= lastSeen.Keys
      invariant forall p :: p in lastSeen && p !in rest ==>
                  SaturatingSub(now, lastSeen[p]) >= PARTITION_SILENCE_THRESHOLD_SECS
    {
      var p :| p in rest;
      if SaturatingSub(now, lastSeen[p]) < PARTITION_SILENCE_THRESHOLD_SECS { return false; }
      rest := rest - {p};
    }
    return true;
  }

  lemma ContactKeepsOpenings(openings: seq<u64>, lastSeen: map<Peer, u64>, graceUntil: u64, clock: nat,
                             peer: Peer, now: u64)
    requires OpeningsOk(openings, lastSeen, graceUntil, clock) && clock <= now
    ensures var ended := PartitionSuspected(lastSeen, now);
            OpeningsOk(if ended then openings + [now] else openings, lastSeen[peer := now],
                       if ended then SaturatingAdd(now, HEAL_GRACE_SECS) else graceUntil, now)
  {
    var lastSeen' := lastSeen[peer := now];
    assert peer in lastSeen' && lastSeen'[peer] == now;
  }

  lemma GraceIsOpen(openings: seq<u64>, lastSeen: map<Peer, u64>, graceUntil: u64, now: u64, budget: nat)
    requires OpeningsOk(openings, lastSeen, graceUntil, now)
    requires budget == if now < graceUntil then GRACE_BUDGET else SPAM_BUDGET_PER_WINDOW
    ensures BudgetJustified(Spam.Admission(now, budget), openings)
  {
    if now < graceUntil {
      var i := |openings| - 1;
      assert openings[i] <= now < openings[i] + HEAL_GRACE_SECS;
    }
  }

  lemma AdmissionJustified(log: map<Author, Log>, log': map<Author, Log>, openings: seq<u64>, author: Author,
                           a: Spam.Admission)
    requires AllJustified(log, openings) && BudgetJustified(a, openings)
    requires log' == log || log' == log[author := LogOf(log, author) + [a]]
    ensures AllJustified(log', openings)
  {}
}
