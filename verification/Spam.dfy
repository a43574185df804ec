/** The sliding-window admission budget per author, and what it says about the full admission log. */
module Spam {
  import opened Bytes

  type Author = string

  const SPAM_WINDOW_SECS: nat := 60
  const SPAM_BUDGET_PER_WINDOW: nat := 12
  const MAX_TRACKED_AUTHORS: nat := 1024

  /** One admission of an author and the budget in force then. */
  datatype Admission = Admission(time: u64, budget: nat)

  type Log = seq<Admission>

  /** How many admissions fall in the closed interval `[lo, hi]`. */
  function InWindow(log: Log, lo: int, hi: int): (n: nat)
    ensures n <= |log|
  {
    if log == [] then 0
    else InWindow(log[..|log| - 1], lo, hi) + if lo <= log[|log| - 1].time <= hi then 1 else 0
  }

  ghost predicate Within(a: Admission, lo: int, hi: int) { lo <= a.time <= hi }

  lemma {:induction false} WindowIsCounted(log: Log, lo: int, hi: int)
    ensures InWindow(log, lo, hi) == |set i | 0 <= i < |log| && Within(log[i], lo, hi)|
  {
    if log != [] {
      var n := |log| - 1;
      WindowIsCounted(log[..n], lo, hi);
      var before := set i | 0 <= i < n && Within(log[..n][i], lo, hi);
      var all := set i | 0 <= i < |log| && Within(log[i], lo, hi);
      assert all == before + if Within(log[n], lo, hi) then {n} else {};
    }
  }

  ghost predicate Chronological(log: Log, clock: nat) {
    && (forall i, j :: 0 <= i < j < |log| ==> log[i].time <= log[j].time)
    && (forall i :: 0 <= i < |log| ==> log[i].time <= clock)
  }

  lemma {:induction false} NoneInWindow(log: Log, lo: int, hi: int)
    requires forall i :: 0 <= i < |log| ==> !(lo <= log[i].time <= hi)
    ensures InWindow(log, lo, hi) == 0
  {
    if log != [] { NoneInWindow(log[..|log| - 1], lo, hi); }
  }

  /** In a chronological log the admissions of a window are a suffix. */
  lemma {:induction false} SuffixInWindow(log: Log, k: nat, lo: int, hi: int)
    requires k <= |log|
    requires forall i :: 0 <= i < k ==> log[i].time < lo
    requires forall i :: k <= i < |log| ==> lo <= log[i].time <= hi
    ensures InWindow(log, lo, hi) == |log| - k
  {
    if k == |log| {
      NoneInWindow(log, lo, hi);
    } else {
      SuffixInWindow(log[..|log| - 1], k, lo, hi);
    }
  }

  /** Every admission found fewer admissions than its budget in the window ending with it. */
  ghost predicate WithinBudget(log: Log, window: nat) {
    forall i :: 0 <= i < |log| ==> AdmissionWithin(log, i, window)
  }

  ghost predicate AdmissionWithin(log: Log, i: nat, window: nat)
    requires i < |log|
  {
    InWindow(log[..i], SaturatingSub(log[i].time, window), log[i].time) < log[i].budget
  }

  lemma {:induction false} WiderWindow(log: Log, lo: int, hi: int, lo': int, hi': int)
    requires lo' <= lo && (hi <= hi' || forall i :: 0 <= i < |log| ==> log[i].time <= hi')
    ensures InWindow(log, lo, hi) <= InWindow(log, lo', hi')
  {
    if log != [] { WiderWindow(log[..|log| - 1], lo, hi, lo', hi'); }
  }

  /** No closed window of the guard's length, wherever it starts, holds more admissions than the
      budget in force at one of them, so never more than the largest budget. */
  lemma {:induction false} NoWindowOverBudget(log: Log, window: nat, clock: nat, start: nat)
    requires Chronological(log, clock) && WithinBudget(log, window)
    ensures InWindow(log, start, start + window) == 0 || exists i ::
              && 0 <= i < |log| && start <= log[i].time <= start + window
              && InWindow(log, start, start + window) <= log[i].budget
  {
    if log == [] {
    } else {
      var n := |log| - 1;
      var last := log[n];
      if start <= last.time <= start + window {
        WiderWindow(log[..n], start, start + window, SaturatingSub(last.time, window), last.time);
        assert AdmissionWithin(log, n, window);
      } else {
        var init := log[..n];
        forall i | 0 <= i < |init| ensures AdmissionWithin(init, i, window) {
          assert AdmissionWithin(log, i, window) && init[..i] == log[..i];
        }
        NoWindowOverBudget(init, window, clock, start);
        assert InWindow(log, start, start + window) == InWindow(init, start, start + window);
        if i :| 0 <= i < |init| && start <= init[i].time <= start + window
                && InWindow(init, start, start + window) <= init[i].budget {
          assert log[i] == init[i];
        }
      }
    }
  }

  /** The stamps kept are the end of the log; everything forgotten is older than the window. */
  ghost predicate Summarises(stamps: seq<u64>, log: Log, window: nat, clock: nat) {
    && |stamps| <= |log| && Chronological(log, clock)
    && (forall i :: 0 <= i < |stamps| ==> stamps[i] == log[|log| - |stamps| + i].time)
    && (forall i :: 0 <= i < |log| - |stamps| ==> log[i].time < SaturatingSub(clock, window))
  }

  /** So the last stamp is that of the last admission. */
  lemma LastStampIsLastAdmission(stamps: seq<u64>, log: Log, window: nat, clock: nat)
    requires Summarises(stamps, log, window, clock)
    ensures stamps != [] ==> LastStamp(stamps) == log[|log| - 1].time
    ensures stamps == [] ==> LastStamp(stamps) == 0
  {
    if stamps != [] { assert stamps[|stamps| - 1] == log[|log| - 1].time; }
  }

  ghost predicate AuthorOk(stamps: seq<u64>, log: Log, window: nat, clock: nat) {
    Summarises(stamps, log, window, clock) && WithinBudget(log, window)
  }

  function StampsOf(entries: map<Author, seq<u64>>, a: Author): seq<u64> { if a in entries then entries[a] else [] }

  ghost function LogOf(log: map<Author, Log>, a: Author): Log { if a in log then log[a] else [] }

  /** The last admission kept, 0 if there is none. */
  function LastStamp(stamps: seq<u64>): u64 { if stamps == [] then 0 else stamps[|stamps| - 1] }

  ghost predicate IsPruned(stamps: seq<u64>, kept: seq<u64>, horizon: nat) {
    && |kept| <= |stamps| && kept == stamps[|stamps| - |kept|..]
    && (forall i :: 0 <= i < |stamps| - |kept| ==> stamps[i] < horizon)
    && (kept == [] || kept[0] >= horizon)
  }

  /** The stamps from the first one that is in the window on. */
  function Kept(stamps: seq<u64>, horizon: nat): seq<u64> {
    if stamps != [] && stamps[0] < horizon then Kept(stamps[1..], horizon) else stamps
  }

  /** Drop the stamps that left the window from the front. */
  method Prune(stamps: seq<u64>, horizon: nat) returns (kept: seq<u64>)
    ensures kept == Kept(stamps, horizon) && IsPruned(stamps, kept, horizon)
  {
    kept := stamps;
    while kept != [] && kept[0] < horizon
      invariant |kept| <= |stamps| && kept == stamps[|stamps| - |kept|..]
      invariant Kept(kept, horizon) == Kept(stamps, horizon)
      invariant forall i :: 0 <= i < |stamps| - |kept| ==> stamps[i] < horizon
    {
      kept := kept[1..];
    }
  }

  /** After pruning, what is kept is exactly the log's share of the window, so its length decides. */
  lemma PrunedIsWindow(stamps: seq<u64>, kept: seq<u64>, log: Log, window: nat, clock: nat, now: nat)
    requires Summarises(stamps, log, window, clock) && clock <= now
    requires IsPruned(stamps, kept, SaturatingSub(now, window))
    ensures Summarises(kept, log, window, now)
    ensures |kept| == InWindow(log, SaturatingSub(now, window), now)
  {
    var k := |log| - |kept|;
    assert forall i :: 0 <= i < |kept| ==> kept[i] == log[k + i].time;
    forall i | 0 <= i < k ensures log[i].time < SaturatingSub(now, window) {
      if i >= |log| - |stamps| { assert log[i].time == stamps[i - (|log| - |stamps|)]; }
    }
    forall i | k <= i < |log| ensures SaturatingSub(now, window) <= log[i].time <= now {
      assert kept[0] == log[k].time;
    }
    SuffixInWindow(log, k, SaturatingSub(now, window), now);
  }

  lemma WithinBudgetExtends(log: Log, window: nat, now: u64, budget: nat)
    requires WithinBudget(log, window)
    requires InWindow(log, SaturatingSub(now, window), now) < budget
    ensures WithinBudget(log + [Admission(now, budget)], window)
  {
    var log' := log + [Admission(now, budget)];
    forall i | 0 <= i < |log'| ensures AdmissionWithin(log', i, window) {
      if i < |log| {
        assert AdmissionWithin(log, i, window) && log'[..i] == log[..i];
      } else {
        assert log'[..i] == log;
      }
    }
  }

  lemma AdmissionExtends(kept: seq<u64>, log: Log, window: nat, now: u64, budget: nat)
    requires Summarises(kept, log, window, now)
    ensures Summarises(kept + [now], log + [Admission(now, budget)], window, now)
  {}

  /** Every author's stamps summarise its admissions. */
  ghost predicate AllOk(entries: map<Author, seq<u64>>, log: map<Author, Log>, window: nat, clock: nat) {
    forall a :: AuthorOk(StampsOf(entries, a), LogOf(log, a), window, clock)
  }

  lemma AllTimePasses(entries: map<Author, seq<u64>>, log: map<Author, Log>, window: nat, clock: nat, now: nat)
    requires AllOk(entries, log, window, clock) && clock <= now
    ensures AllOk(entries, log, window, now)
  {
    forall a ensures AuthorOk(StampsOf(entries, a), LogOf(log, a), window, now) {
      assert AuthorOk(StampsOf(entries, a), LogOf(log, a), window, clock);
    }
  }

  lemma AuthorAfterPruning(stamps: seq<u64>, kept: seq<u64>, log: Log, window: nat, clock: nat, now: nat)
    requires AuthorOk(stamps, log, window, clock) && clock <= now
    requires IsPruned(stamps, kept, SaturatingSub(now, window))
    ensures AuthorOk(kept, log, window, now)
    ensures |kept| == InWindow(log, SaturatingSub(now, window), now)
  {
    PrunedIsWindow(stamps, kept, log, window, clock, now);
  }

  lemma AllUpdated(entries: map<Author, seq<u64>>, log: map<Author, Log>, window: nat, now: nat,
                   author: Author, stamps: seq<u64>, history: Log)
    requires AllOk(entries, log, window, now) && AuthorOk(stamps, history, window, now)
    ensures AllOk(entries[author := stamps], log[author := history], window, now)
    ensures history == LogOf(log, author) ==> AllOk(entries[author := stamps], log, window, now)
  {
    var entries', log' := entries[author := stamps], log[author := history];
    forall a
      ensures AuthorOk(StampsOf(entries', a), LogOf(log', a), window, now)
      ensures history == LogOf(log, author) ==> LogOf(log', a) == LogOf(log, a)
    {
      assert a != author ==> StampsOf(entries', a) == StampsOf(entries, a) && LogOf(log', a) == LogOf(log, a);
    }
  }

  lemma AllAfterPruning(entries: map<Author, seq<u64>>, log: map<Author, Log>, window: nat, clock: nat, now: nat,
                        author: Author, kept: seq<u64>)
    requires AllOk(entries, log, window, clock) && clock <= now
    requires IsPruned(StampsOf(entries, author), kept, SaturatingSub(now, window))
    ensures AllOk(entries[author := kept], log, window, now)
    ensures |kept| == InWindow(LogOf(log, author), SaturatingSub(now, window), now)
  {
    AuthorAfterPruning(StampsOf(entries, author), kept, LogOf(log, author), window, clock, now);
    AllTimePasses(entries, log, window, clock, now);
    AllUpdated(entries, log, window, now, author, kept, LogOf(log, author));
  }

  lemma AllAfterAdmission(entries: map<Author, seq<u64>>, log: map<Author, Log>, window: nat,
                          author: Author, now: u64, budget: nat)
    requires AllOk(entries, log, window, now) && author in entries
    requires InWindow(LogOf(log, author), SaturatingSub(now, window), now) < budget
    ensures AllOk(entries[author := entries[author] + [now]], WithAdmission(log, author, now, budget), window, now)
  {
    var stamps, history := entries[author], LogOf(log, author);
    assert AuthorOk(StampsOf(entries, author), history, window, now);
    AdmissionExtends(stamps, history, window, now, budget);
    WithinBudgetExtends(history, window, now, budget);
    AllUpdated(entries, log, window, now, author, stamps + [now], history + [Admission(now, budget)]);
  }

  lemma AllAfterEviction(entries: map<Author, seq<u64>>, log: map<Author, Log>, window: nat, clock: nat, k: Author)
    requires AllOk(entries, log, window, clock)
    ensures AllOk(entries - {k}, log - {k}, window, clock)
  {
    forall a ensures AuthorOk(StampsOf(entries - {k}, a), LogOf(log - {k}, a), window, clock) {
      if a != k {
        assert StampsOf(entries - {k}, a) == StampsOf(entries, a) && LogOf(log - {k}, a) == LogOf(log, a);
      }
    }
  }

  ghost function WithAdmission(log: map<Author, Log>, author: Author, now: u64, budget: nat): map<Author, Log> {
    log[author := LogOf(log, author) + [Admission(now, budget)]]
  }

  ghost predicate IsOldest(entries: map<Author, seq<u64>>, k: Author) {
    k in entries && forall a :: a in entries ==> LastStamp(entries[k]) <= LastStamp(entries[a])
  }

  /** Every last stamp is the largest time there is. */
  ghost predicate AtTheEnd(entries: map<Author, seq<u64>>) {
    forall a :: a in entries ==> LastStamp(entries[a]) == U64_LIMIT - 1
  }

  /** One author with the oldest last stamp is forgotten, unless all are at the end of time. */
  ghost predicate ForgotOldest(entries: map<Author, seq<u64>>, log: map<Author, Log>, evicted: set<Author>,
                               entries': map<Author, seq<u64>>, log': map<Author, Log>, evicted': set<Author>) {
    if AtTheEnd(entries) then entries' == entries && log' == log && evicted' == evicted
    else exists k :: IsOldest(entries, k) && entries' == entries - {k} && log' == log - {k} && evicted' == evicted + {k}
  }

  /** An admission that brings the authors beyond the memory bound costs one its record. */
  ghost predicate Shrunk(entries: map<Author, seq<u64>>, log: map<Author, Log>, evicted: set<Author>,
                         entries': map<Author, seq<u64>>, log': map<Author, Log>, evicted': set<Author>,
                         admitted: bool) {
    if admitted && |entries.Keys| > MAX_TRACKED_AUTHORS
    then ForgotOldest(entries, log, evicted, entries', log', evicted')
    else entries' == entries && log' == log && evicted' == evicted
  }

  lemma ShrunkIsBounded(before: map<Author, seq<u64>>, author: Author,
                        entries: map<Author, seq<u64>>, log: map<Author, Log>, evicted: set<Author>,
                        entries': map<Author, seq<u64>>, log': map<Author, Log>, evicted': set<Author>, admitted: bool)
    requires entries.Keys <= before.Keys + {author} && (admitted || entries.Keys <= before.Keys)
    requires Shrunk(entries, log, evicted, entries', log', evicted', admitted)
    ensures |before.Keys| <= MAX_TRACKED_AUTHORS ==> |entries'.Keys| <= MAX_TRACKED_AUTHORS || AtTheEnd(entries')
  {
    SubsetCardinality(entries.Keys, before.Keys + {author});
    if !admitted { SubsetCardinality(entries.Keys, before.Keys); }
    if admitted && |entries.Keys| > MAX_TRACKED_AUTHORS && !AtTheEnd(entries) {
      var k :| IsOldest(entries, k) && entries' == entries - {k} && log' == log - {k} && evicted' == evicted + {k};
      assert entries'.Keys == entries.Keys - {k};
    }
  }

  /** The stamps of `author` after a call: pruned, and with `now` when it is admitted. */
  ghost function Recorded(entries: map<Author, seq<u64>>, author: Author, horizon: nat, now: u64, budget: nat)
    : map<Author, seq<u64>>
  {
    var kept := Kept(StampsOf(entries, author), horizon);
    if budget == 0 then entries else entries[author := if |kept| < budget then kept + [now] else kept]
  }

  /** Of an author never evicted nothing is forgotten. */
  ghost predicate Complete(log: map<Author, Log>, full: map<Author, Log>, evicted: set<Author>) {
    forall a :: a !in evicted ==> LogOf(log, a) == LogOf(full, a)
  }

  lemma CompleteAfterAdmission(log: map<Author, Log>, full: map<Author, Log>, evicted: set<Author>,
                               author: Author, now: u64, budget: nat)
    requires Complete(log, full, evicted)
    ensures Complete(WithAdmission(log, author, now, budget), WithAdmission(full, author, now, budget), evicted)
  {
    var log', full' := WithAdmission(log, author, now, budget), WithAdmission(full, author, now, budget);
    forall a | a !in evicted ensures LogOf(log', a) == LogOf(full', a) {
      assert LogOf(log, a) == LogOf(full, a);
    }
  }

  lemma CompleteAfterEviction(log: map<Author, Log>, full: map<Author, Log>, evicted: set<Author>, k: Author)
    requires Complete(log, full, evicted)
    ensures Complete(log - {k}, full, evicted + {k})
  {
    forall a | a !in evicted + {k} ensures LogOf(log - {k}, a) == LogOf(full, a) {
      assert LogOf(log - {k}, a) == LogOf(log, a);
    }
  }

  class SpamGuard {
    const windowSecs: nat
    const budget: nat
    var entries: map<Author, seq<u64>>
    /** Per author, the admissions since it was last evicted, and all of them; the authors ever evicted;
        the time of the last call, and whether time never went back. */
    ghost var log: map<Author, Log>
    ghost var full: map<Author, Log>
    ghost var evicted: set<Author>
    ghost var clock: nat
    ghost var steady: bool

    ghost predicate Valid()
      reads this
    {
      (steady ==> AllOk(entries, log, windowSecs, clock)) && Complete(log, full, evicted)
    }

    constructor (windowSecs: nat, budget: nat)
      ensures Valid() && this.windowSecs == windowSecs && this.budget == budget
      ensures entries == map[] && log == full == map[] && evicted == {} && clock == 0 && steady
    {
      this.windowSecs, this.budget := windowSecs, budget;
      entries, log, full, evicted, clock, steady := map[], map[], map[], {}, 0, true;
    }

    method Admit(author: Author, now: u64) returns (admitted: bool)
      requires Valid()
      modifies this
      ensures Valid() && clock == now && steady == (old(steady) && old(clock) <= now)
      ensures admitted == (|Kept(StampsOf(old(entries), author), SaturatingSub(now, windowSecs))| < budget)
      ensures steady ==> admitted == (InWindow(LogOf(old(log), author), SaturatingSub(now, windowSecs), now) < budget)
      ensures full == if admitted then WithAdmission(old(full), author, now, budget) else old(full)
      ensures var recorded := Recorded(old(entries), author, SaturatingSub(now, windowSecs), now, budget);
              var log' := if admitted then WithAdmission(old(log), author, now, budget) else old(log);
              Shrunk(recorded, log', old(evicted), entries, log, evicted, admitted)
    {
      admitted := AdmitWithBudget(author, now, budget);
    }

    /** As long as time does not go back, an author is admitted exactly when fewer than `budget` of its
        admissions since it was last evicted (all of them, if it never was) lie in the window ending now.
        Only an admission is recorded, and only an admission beyond the memory bound evicts. */
    method AdmitWithBudget(author: Author, now: u64, budget: nat) returns (admitted: bool)
      requires Valid()
      modifies this
      ensures Valid() && clock == now && steady == (old(steady) && old(clock) <= now)
      ensures admitted == (|Kept(StampsOf(old(entries), author), SaturatingSub(now, windowSecs))| < budget)
      ensures steady ==> admitted == (InWindow(LogOf(old(log), author), SaturatingSub(now, windowSecs), now) < budget)
      ensures full == if admitted then WithAdmission(old(full), author, now, budget) else old(full)
      ensures var recorded := Recorded(old(entries), author, SaturatingSub(now, windowSecs), now, budget);
              var log' := if admitted then WithAdmission(old(log), author, now, budget) else old(log);
              Shrunk(recorded, log', old(evicted), entries, log, evicted, admitted)
      ensures |old(entries).Keys| <= MAX_TRACKED_AUTHORS ==> |entries.Keys| <= MAX_TRACKED_AUTHORS || AtTheEnd(entries)
    {
      admitted := Record(author, now, budget);
      ghost var recorded, log', evicted' := entries, log, evicted;
      Shrink(admitted);
      ShrunkIsBounded(old(entries), author, recorded, log', evicted', entries, log, evicted, admitted);
    }

    /** The memory bound. */
    method Shrink(admitted: bool)
      requires Valid()
      modifies this`entries, this`log, this`evicted
      ensures Valid() && Shrunk(old(entries), old(log), old(evicted), entries, log, evicted, admitted)
    {
      if admitted && |entries.Keys| > MAX_TRACKED_AUTHORS { EvictOldest(); }
    }

    /** Everything but the memory bound. */
    method Record(author: Author, now: u64, budget: nat) returns (admitted: bool)
      requires Valid()
      modifies this`entries, this`log, this`full, this`clock, this`steady
      ensures Valid() && clock == now && steady == (old(steady) && old(clock) <= now)
      ensures admitted == (|Kept(StampsOf(old(entries), author), SaturatingSub(now, windowSecs))| < budget)
      ensures steady ==> admitted == (InWindow(LogOf(old(log), author), SaturatingSub(now, windowSecs), now) < budget)
      ensures log == if admitted then WithAdmission(old(log), author, now, budget) else old(log)
      ensures full == if admitted then WithAdmission(old(full), author, now, budget) else old(full)
      ensures entries == Recorded(old(entries), author, SaturatingSub(now, windowSecs), now, budget)
    {
      var kept := Look(author, now);
      if budget == 0 { return false; }
      admitted := Keep(author, kept, now, budget);
    }

    method Keep(author: Author, kept: seq<u64>, now: u64, budget: nat) returns (admitted: bool)
      requires Valid() && clock == now && budget > 0
      requires steady ==> AllOk(entries[author := kept], log, windowSecs, now)
      requires steady ==> |kept| == InWindow(LogOf(log, author), SaturatingSub(now, windowSecs), now)
      modifies this`entries, this`log, this`full
      ensures Valid() && admitted == (|kept| < budget)
      ensures log == if admitted then WithAdmission(old(log), author, now, budget) else old(log)
      ensures full == if admitted then WithAdmission(old(full), author, now, budget) else old(full)
      ensures entries == old(entries)[author := if admitted then kept + [now] else kept]
    {
      entries := entries[author := kept];
      admitted := |kept| < budget;
      if admitted {
        Stamp(author, now, budget);
      } else {
        assert kept != [];  // so no emptied entry is ever left to remove
      }
    }

    /** The author's stamps still in the window; the clock moves on. */
    method Look(author: Author, now: u64) returns (kept: seq<u64>)
      requires Valid()
      modifies this`clock, this`steady
      ensures clock == now && steady == (old(steady) && old(clock) <= now)
      ensures kept == Kept(StampsOf(entries, author), SaturatingSub(now, windowSecs))
      ensures steady ==> AllOk(entries, log, windowSecs, now) && AllOk(entries[author := kept], log, windowSecs, now)
      ensures steady ==> |kept| == InWindow(LogOf(log, author), SaturatingSub(now, windowSecs), now)
    {
      kept := Prune(StampsOf(entries, author), SaturatingSub(now, windowSecs));
      if steady && clock <= now {
        AllTimePasses(entries, log, windowSecs, clock, now);
        AllAfterPruning(entries, log, windowSecs, clock, now, author, kept);
      }
      steady := steady && clock <= now;
      clock := now;
    }

    method Stamp(author: Author, now: u64, budget: nat)
      requires Valid() && clock == now && author in entries
      requires steady ==> InWindow(LogOf(log, author), SaturatingSub(now, windowSecs), now) < budget
      modifies this`entries, this`log, this`full
      ensures Valid() && entries == old(entries)[author := old(entries)[author] + [now]]
      ensures log == WithAdmission(old(log), author, now, budget)
              && full == WithAdmission(old(full), author, now, budget)
    {
      if steady { AllAfterAdmission(entries, log, windowSecs, author, now, budget); }
      CompleteAfterAdmission(log, full, evicted, author, now, budget);
      entries := entries[author := entries[author] + [now]];
      log := WithAdmission(log, author, now, budget);
      full := WithAdmission(full, author, now, budget);
    }

    method EvictOldest()
      requires Valid()
      modifies this`entries, this`log, this`evicted
      ensures Valid()
      ensures ForgotOldest(old(entries), old(log), old(evicted), entries, log, evicted)
    {
      var oldest := FindOldest(entries);
      if oldest.Some? {
        if steady { AllAfterEviction(entries, log, windowSecs, clock, oldest.value); }
        CompleteAfterEviction(log, full, evicted, oldest.value);
        entries := entries - {oldest.value};
        log := log - {oldest.value};
        evicted := evicted + {oldest.value};
      }
    }
  }

  /** The search of `evict_oldest`; the map's iteration order is arbitrary. */
  method FindOldest(entries: map<Author, seq<u64>>) returns (oldestKey: Option<Author>)
    ensures oldestKey.None? <==> AtTheEnd(entries)
    ensures oldestKey.Some? ==> IsOldest(entries, oldestKey.value)
  {
    oldestKey := None;
    var oldestTime: u64 := U64_LIMIT - 1;
    var rest := entries.Keys;
    while rest != {}
      invariant rest <= entries.Keys
      invariant match oldestKey
        case None => oldestTime == U64_LIMIT - 1
        case Some(k) => k in entries && oldestTime == LastStamp(entries[k]) < U64_LIMIT - 1
      invariant forall a :: a in entries && a !in rest ==> oldestTime <= LastStamp(entries[a])
      decreases |rest|
    {
      var k :| k in rest;
      rest := rest - {k};
      if LastStamp(entries[k]) < oldestTime {
        oldestTime := LastStamp(entries[k]);
        oldestKey := Some(k);
      }
    }
  }
}
