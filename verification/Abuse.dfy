/** Decaying abuse levels: how much an author can misbehave before being ignored. */
module Abuse {
  import opened Bytes

  const IGNORE_THRESHOLD: real := 0.80
  const DEPRIORITIZE_THRESHOLD: real := 0.40
  const THROTTLE_THRESHOLD: real := 0.15
  const RECOVERY_PER_HOUR: real := 0.01
  const SECS_PER_HOUR: nat := 3600

  datatype Reason = ExcessiveRate | InvalidEvent | InsufficientPow | RemoteReport

  function Penalty(reason: Reason): (p: real)
    ensures 0.0 < p <= 0.3
  {
    match reason
    case ExcessiveRate => 0.30
    case InvalidEvent => 0.10
    case InsufficientPow => 0.20
    case RemoteReport => 0.10
  }

  datatype Action = Accept | Throttle | Deprioritize | Ignore

  function ActionFor(abuse: real): Action {
    if abuse >= IGNORE_THRESHOLD then Ignore
    else if abuse >= DEPRIORITIZE_THRESHOLD then Deprioritize
    else if abuse >= THROTTLE_THRESHOLD then Throttle
    else Accept
  }

  function Hours(start: nat, end: nat): nat {
    SaturatingSub(end, start) / SECS_PER_HOUR
  }

  datatype AbuseRecord = AbuseRecord(score: real, updatedAt: u64) {
    /** The level seen at `now`: whole hours of recovery are taken off. */
    function LevelAt(now: nat): real {
      var level := score - Hours(updatedAt, now) as real * RECOVERY_PER_HOUR;
      if level < 0.0 then 0.0 else level
    }

    function Record(amount: real, now: u64): AbuseRecord {
      var level := LevelAt(now) + amount;
      AbuseRecord(if level > 1.0 then 1.0 else level, now)
    }

    function Fold(now: u64): AbuseRecord {
      AbuseRecord(LevelAt(now), now)
    }
  }

  const NO_ABUSE: AbuseRecord := AbuseRecord(0.0, 0)

  // ---------------------------------------------------------------------------------------------
  // What charges lead to
  // ---------------------------------------------------------------------------------------------

  function Charged(rec: AbuseRecord, reason: Reason, n: nat, now: u64): AbuseRecord {
    if n == 0 then rec else Charged(rec, reason, n - 1, now).Record(Penalty(reason), now)
  }

  /** In hundredths: a charge weighs 30, 10, 20 or 10 by its reason, all of them together 100 at most, and
      each whole hour takes off one. */
  ghost function Points(reason: Reason, n: nat, hours: nat): nat {
    var weight := match reason
      case ExcessiveRate => 30
      case InvalidEvent => 10
      case InsufficientPow => 20
      case RemoteReport => 10;
    SaturatingSub(if weight * n < 100 then weight * n else 100, hours)
  }

  lemma {:induction false} ChargesAddUp(reason: Reason, n: nat, now: u64)
    ensures var rec := Charged(NO_ABUSE, reason, n, now);
            rec.score * 100.0 == Points(reason, n, 0) as real && (n > 0 ==> rec.updatedAt == now)
  {
    if n > 0 { ChargesAddUp(reason, n - 1, now); }
  }

  /** So 15 points throttle an author, 40 put it last and 80 shut it out, until it has recovered. */
  lemma Sanctions(reason: Reason, n: nat, now: u64, later: nat)
    requires n > 0 && now <= later
    ensures var level := Charged(NO_ABUSE, reason, n, now).LevelAt(later);
            var points := Points(reason, n, (later - now) / 3600);
            && level * 100.0 == points as real
            && (ActionFor(level) == Ignore <==> points >= 80)
            && (ActionFor(level) == Deprioritize <==> 40 <= points < 80)
            && (ActionFor(level) == Throttle <==> 15 <= points < 40)
            && (ActionFor(level) == Accept <==> points < 15)
  {
    ChargesAddUp(reason, n, now);
  }

  // ---------------------------------------------------------------------------------------------
  // Folding early
  // ---------------------------------------------------------------------------------------------

  /** Whole hours of two consecutive spans: at most one is lost by splitting. */
  lemma HoursSplit(a: nat, b: nat, c: nat)
    requires a <= b <= c
    ensures Hours(a, b) + Hours(b, c) <= Hours(a, c) <= Hours(a, b) + Hours(b, c) + 1
  {}

  function FoldAll(rec: AbuseRecord, times: seq<u64>): AbuseRecord
    decreases |times|
  {
    if times == [] then rec else FoldAll(rec.Fold(times[0]), times[1..])
  }

  lemma {:induction false} FoldsInTurn(rec: AbuseRecord, times: seq<u64>, t: u64)
    ensures FoldAll(rec, times + [t]) == FoldAll(rec, times).Fold(t)
    decreases |times|
  {
    if times == [] {
      assert times + [t] == [t] && [t][1..] == [];
    } else {
      FoldsInTurn(rec.Fold(times[0]), times[1..], t);
      assert (times + [t])[1..] == times[1..] + [t];
    }
  }

  /** Writing the decayed level back early never lowers what is seen later, and each time delays the
      recovery by at most one hour. */
  lemma {:induction false} FoldingDelaysByAnHour(rec: AbuseRecord, times: seq<u64>, now: u64)
    requires rec.score >= 0.0
    requires forall i :: 0 <= i < |times| ==> rec.updatedAt <= times[i] <= now
    requires forall i, j :: 0 <= i < j < |times| ==> times[i] <= times[j]
    ensures rec.LevelAt(now) <= FoldAll(rec, times).LevelAt(now)
                             <= rec.LevelAt(now) + |times| as real * RECOVERY_PER_HOUR
    decreases |times|
  {
    if times != [] {
      HoursSplit(rec.updatedAt, times[0], now);
      FoldingDelaysByAnHour(rec.Fold(times[0]), times[1..], now);
    }
  }

  // ---------------------------------------------------------------------------------------------
  // Reports carry their own date
  // ---------------------------------------------------------------------------------------------

  /** `apply_remote_abuse_report`: the report's own date is the clock, whatever it is. */
  function Reported(rec: AbuseRecord, dated: u64): AbuseRecord {
    rec.Record(Penalty(RemoteReport), dated)
  }

  /** What a report can still add on top of `level`. */
  function Added(level: real): real {
    if level + Penalty(RemoteReport) > 1.0 then 1.0 - level else Penalty(RemoteReport)
  }

  /** The hours taken off through a report's date beyond those that have passed by `now`: positive for a
      date before the last update or after `now`. */
  function ExtraHours(updatedAt: nat, dated: nat, now: nat): int {
    Hours(updatedAt, dated) + Hours(dated, now) - Hours(updatedAt, now)
  }

  /** For every record, date and time, a report leaves the level seen no lower exactly when there was no
      level to lower, or the extra hours recover no more than the report adds, or, where the record has
      decayed completely by the report's date, the level seen is no more than what a report adds. */
  lemma ReportLowersNothing(rec: AbuseRecord, dated: u64, now: u64)
    requires 0.0 <= rec.score <= 1.0
    ensures Reported(rec, dated).LevelAt(now) >= rec.LevelAt(now) <==>
            || rec.LevelAt(now) == 0.0
            || (rec.LevelAt(dated) > 0.0
                && ExtraHours(rec.updatedAt, dated, now) as real * RECOVERY_PER_HOUR <= Added(rec.LevelAt(dated)))
            || (rec.LevelAt(dated) == 0.0 && rec.LevelAt(now) <= Penalty(RemoteReport))
  {
    if rec.LevelAt(now) > 0.0 && rec.LevelAt(dated) == 0.0 {
      assert Hours(rec.updatedAt, dated) > Hours(rec.updatedAt, now);
      assert dated > now;
    }
  }

  /** A date between the last update and now costs no extra hours, so such a report lowers nothing; a
      date outside may cost any number. */
  lemma TimelyReportLowersNothing(rec: AbuseRecord, dated: u64, now: u64)
    requires 0.0 <= rec.score <= 1.0 && rec.updatedAt <= dated <= now
    ensures -1 <= ExtraHours(rec.updatedAt, dated, now) <= 0
    ensures Reported(rec, dated).LevelAt(now) >= rec.LevelAt(now)
  {
    HoursSplit(rec.updatedAt, dated, now);
    ReportLowersNothing(rec, dated, now);
  }

  /** Outside that span the level can fall: four days before the last update, and four days ahead. */
  lemma UntimelyReportsErase()
    ensures var rec := AbuseRecord(1.0, 360_000);
            && rec.LevelAt(360_000) == 1.0
            && Reported(rec, 0).LevelAt(360_000) == 0.0
            && Reported(rec, 720_000).LevelAt(360_000) == 0.1
  {}

  // ---------------------------------------------------------------------------------------------
  // Violations against one author
  // ---------------------------------------------------------------------------------------------

  datatype Entry = Violation(reason: Reason, at: u64) | Folded(at: u64)

  function After(rec: AbuseRecord, e: Entry): AbuseRecord {
    match e
    case Violation(reason, at) => rec.Record(Penalty(reason), at)
    case Folded(at) => rec.Fold(at)
  }

  function RecordOf(history: seq<Entry>): AbuseRecord {
    if history == [] then NO_ABUSE else After(RecordOf(history[..|history| - 1]), history[|history| - 1])
  }

  function ExcessCount(history: seq<Entry>): nat {
    if history == [] then 0
    else
      var last := history[|history| - 1];
      ExcessCount(history[..|history| - 1]) + if last.Violation? && last.reason == ExcessiveRate then 1 else 0
  }

  ghost predicate IsExcess(e: Entry) { e.Violation? && e.reason == ExcessiveRate }

  lemma {:induction false} ExcessIsCounted(history: seq<Entry>)
    ensures ExcessCount(history) == |set i | 0 <= i < |history| && IsExcess(history[i])|
  {
    if history != [] {
      var n := |history| - 1;
      ExcessIsCounted(history[..n]);
      var before := set i | 0 <= i < n && IsExcess(history[..n][i]);
      var all := set i | 0 <= i < |history| && IsExcess(history[i]);
      assert all == before + if IsExcess(history[n]) then {n} else {};
    }
  }

  /** Time does not run backwards, and an author already ignored is not charged for its rate. */
  ghost predicate Legal(history: seq<Entry>) {
    history == [] ||
    var init, last := history[..|history| - 1], history[|history| - 1];
    && Legal(init)
    && (init != [] ==> init[|init| - 1].at <= last.at)
    && (last.Violation? && last.reason == ExcessiveRate ==> RecordOf(init).LevelAt(last.at) < IGNORE_THRESHOLD)
  }

  lemma {:induction false} LevelPaysForExcess(history: seq<Entry>)
    requires Legal(history) && history != []
    ensures var rec, n := RecordOf(history), ExcessCount(history);
            && history[0].at <= rec.updatedAt == history[|history| - 1].at
            && 0.0 <= rec.score <= 1.0
            && (n == 0 || rec.score > 0.2 * n as real - RECOVERY_PER_HOUR * Hours(history[0].at, rec.updatedAt) as real)
  {
    var init, last := history[..|history| - 1], history[|history| - 1];
    if init == [] {
      assert RecordOf(init) == NO_ABUSE && ExcessCount(init) == 0;
    } else {
      LevelPaysForExcess(init);
      HoursSplit(history[0].at, init[|init| - 1].at, last.at);
    }
  }

  /** Over a span of H whole hours an author is charged fewer than 5 + H / 20 times for its rate,
      whatever other violations and foldings come between; its level stays between 0 and 1. */
  lemma ExcessIsBounded(history: seq<Entry>)
    requires Legal(history) && history != []
    ensures 20 * ExcessCount(history) < 100 + Hours(history[0].at, history[|history| - 1].at)
    ensures history[0].at <= history[|history| - 1].at && 0.0 <= RecordOf(history).score <= 1.0
  {
    LevelPaysForExcess(history);
  }

  /** From a clean record, the fourth charge within an hour never comes: the third already ignores. */
  lemma IgnoredAfterThree(start: u64, a: u64, b: u64, c: u64)
    requires start <= a <= b <= c < start + SECS_PER_HOUR
    ensures var history := [Violation(ExcessiveRate, start), Violation(ExcessiveRate, a), Violation(ExcessiveRate, b)];
            Legal(history) && ActionFor(RecordOf(history).LevelAt(c)) == Ignore
  {
    var e0, e1, e2 := Violation(ExcessiveRate, start), Violation(ExcessiveRate, a), Violation(ExcessiveRate, b);
    assert [e0][..0] == [] && [e0, e1][..1] == [e0] && [e0, e1, e2][..2] == [e0, e1];
    assert Legal([]) && RecordOf([]) == NO_ABUSE;
    assert Legal([e0]) && RecordOf([e0]) == AbuseRecord(0.3, start);
    assert Legal([e0, e1]) && RecordOf([e0, e1]) == AbuseRecord(0.6, a);
    assert RecordOf([e0, e1, e2]) == AbuseRecord(0.9, b);
  }
}
