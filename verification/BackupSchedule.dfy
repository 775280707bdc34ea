/**
 * The backup scheduler's "claim as failed, overwrite on success" protocol (backend/src/services/backupScheduler.ts),
 * over whole runs in which the process may die anywhere.
 */
module BackupSchedule {
  import opened Common

  const HOUR: nat := 60 * 60 * 1000
  const DAY: nat := 24 * HOUR
  const CHECK_INTERVAL: nat := HOUR
  const MAX_FAST_RETRIES: nat := 3

  datatype Frequency = Daily | Weekly {
    function Ms(): (ms: nat)
      ensures ms >= DAY
    {
      match this
      case Daily => DAY
      case Weekly => 7 * DAY
    }
  }

  datatype Outcome = Success | Failed

  /** A stored timestamp: no row, a row that does not parse, or a point in time. */
  datatype Stamp = Absent | Unreadable | At(ms: int)

  /** The settings rows of the schedule: what the user chose, and what the last run did. */
  datatype Rows = Rows(
    enabled: bool, frequency: Frequency, runAtHour: int,
    lastRunAt: Stamp, lastOutcome: Option<Outcome>, consecutiveFailures: nat, lastSuccessAt: Stamp)

  /** The hour a point in time reads as in the dashboard's time zone. */
  type Zone = int -> int

  predicate Retrying(rows: Rows) {
    rows.lastOutcome == Some(Failed) && rows.consecutiveFailures <= MAX_FAST_RETRIES
  }

  predicate ShouldRun(now: int, rows: Rows, zone: Zone) {
    && (Retrying(rows) || zone(now) == rows.runAtHour)
    && (rows.lastRunAt.At? ==>
          now - rows.lastRunAt.ms >= if Retrying(rows) then CHECK_INTERVAL else rows.frequency.Ms())
  }

  /** One row to write. */
  datatype Write =
    | LastRunAt(at: int)
    | LastOutcome(outcome: Outcome)
    | ConsecutiveFailures(count: nat)
    | LastSuccessAt(at: int)

  function Put(rows: Rows, w: Write): Rows {
    match w
    case LastRunAt(at) => rows.(lastRunAt := At(at))
    case LastOutcome(outcome) => rows.(lastOutcome := Some(outcome))
    case ConsecutiveFailures(count) => rows.(consecutiveFailures := count)
    case LastSuccessAt(at) => rows.(lastSuccessAt := At(at))
  }

  function PutAll(rows: Rows, ws: seq<Write>): Rows {
    if ws == [] then rows else Put(PutAll(rows, ws[..|ws| - 1]), ws[|ws| - 1])
  }

  /** The rows one record writes, in order. */
  function Writes(rows: Rows, outcome: Outcome, at: int): seq<Write> {
    [LastRunAt(at), LastOutcome(outcome),
     ConsecutiveFailures(if outcome == Success then 0 else rows.consecutiveFailures + 1)] +
    if outcome == Success then [LastSuccessAt(at)] else []
  }

  /** The rows after a record that was written completely. */
  function Recorded(rows: Rows, outcome: Outcome, at: int): Rows {
    rows.(lastRunAt := At(at), lastOutcome := Some(outcome),
          consecutiveFailures := if outcome == Success then 0 else rows.consecutiveFailures + 1,
          lastSuccessAt := if outcome == Success then At(at) else rows.lastSuccessAt)
  }

  lemma WritesRecord(rows: Rows, outcome: Outcome, at: int)
    ensures PutAll(rows, Writes(rows, outcome, at)) == Recorded(rows, outcome, at)
  {
    var ws := Writes(rows, outcome, at);
    var r1 := Put(rows, ws[0]);
    var r2 := Put(r1, ws[1]);
    assert PutAll(rows, ws[..1]) == r1 by {
      assert ws[..1][..0] == [];
    }
    assert PutAll(rows, ws[..2]) == r2 by {
      assert ws[..2][..1] == ws[..1];
    }
    assert PutAll(rows, ws[..3]) == Put(r2, ws[2]) by {
      assert ws[..3][..2] == ws[..2];
    }
    if outcome == Failed {
      assert ws[..3] == ws;
    }
  }

  /** The settings table, and the one process that writes to it. */
  class Settings {
    var rows: Rows

    constructor (rows: Rows)
      ensures this.rows == rows
    {
      this.rows := rows;
    }

    /** Writes the rows of one record in order; the process dies before the write numbered `death`, if it gets there. */
    method RecordBackupScheduleRun(outcome: Outcome, at: int, death: Option<nat>) returns (alive: bool)
      modifies this
      ensures alive ==> rows == Recorded(old(rows), outcome, at)
      ensures !alive ==> death.Some? && death.value < |Writes(old(rows), outcome, at)|
      ensures !alive ==> rows == PutAll(old(rows), Writes(old(rows), outcome, at)[..death.value])
      ensures death.None? ==> alive
    {
      var values := Writes(rows, outcome, at);
      var i := 0;
      while i < |values|
        invariant 0 <= i <= |values|
        invariant rows == PutAll(old(rows), values[..i])
      {
        if death == Some(i) {
          return false;
        }
        assert values[..i + 1][..i] == values[..i];
        rows := Put(rows, values[i]);
        i := i + 1;
      }
      assert values[..i] == values;
      WritesRecord(old(rows), outcome, at);
      return true;
    }

    /**
     * One scheduled check: claim as failed, do the work, and stamp success only when the work ended well
     * at `finished`.
     */
    method RunScheduledBackupCheck(now: int, zone: Zone, finished: Option<int>) returns (attempted: bool)
      modifies this
      ensures attempted == (old(rows).enabled && ShouldRun(now, old(rows), zone))
      ensures rows == Run(old(rows), [Check(now)] + if attempted && finished.Some? then [Succeed(finished.value)] else [], zone)
    {
      RunOfOne(rows, Check(now), zone);
      assert [Check(now)] + [] == [Check(now)];
      if !rows.enabled || !ShouldRun(now, rows, zone) {
        return false;
      }
      var _ := RecordBackupScheduleRun(Failed, now, None);
      if finished.Some? {
        RunOfOne(rows, Succeed(finished.value), zone);
        RunConcat(old(rows), [Check(now)], [Succeed(finished.value)], zone);
        var _ := RecordBackupScheduleRun(Success, finished.value, None);
      }
      return true;
    }
  }

  lemma RunOfOne(rows: Rows, e: Event, zone: Zone)
    ensures Run(rows, [e], zone) == Step(rows, e, zone)
  {
    assert [e][1..] == [];
  }

  // ----- Whole runs, one complete record at a time -----

  /**
   * What happens to the rows: a check, the success stamp of some attempt still running, or the user
   * saving the schedule. A crash is an attempt whose success never comes; the boot that follows it is
   * just another check.
   */
  datatype Event =
    | Check(now: int)
    | Succeed(at: int)
    | Configure(enabled: bool, frequency: Frequency, runAtHour: int)

  predicate Attempts(rows: Rows, e: Event, zone: Zone) {
    e.Check? && rows.enabled && ShouldRun(e.now, rows, zone)
  }

  function Step(rows: Rows, e: Event, zone: Zone): Rows {
    match e
    case Check(now) => if Attempts(rows, e, zone) then Recorded(rows, Failed, now) else rows
    case Succeed(at) => Recorded(rows, Success, at)
    case Configure(enabled, frequency, hour) => rows.(enabled := enabled, frequency := frequency, runAtHour := hour)
  }

  function Run(rows: Rows, es: seq<Event>, zone: Zone): Rows
    decreases |es|
  {
    if es == [] then rows else Run(Step(rows, es[0], zone), es[1..], zone)
  }

  /** When the attempts of a run started. */
  function AttemptTimes(rows: Rows, es: seq<Event>, zone: Zone): seq<int>
    decreases |es|
  {
    if es == [] then []
    else (if Attempts(rows, es[0], zone) then [es[0].now] else []) + AttemptTimes(Step(rows, es[0], zone), es[1..], zone)
  }

  predicate NoSuccess(es: seq<Event>) {
    forall e :: e in es ==> !e.Succeed?
  }

  // ----- The crash-loop bound -----

  /** The least time that `m` further attempts take after one that left `failures` failures behind. */
  function Backoff(failures: nat, m: nat): nat
    decreases m
  {
    if m == 0 then 0
    else (if failures <= MAX_FAST_RETRIES then CHECK_INTERVAL else DAY) + Backoff(failures + 1, m - 1)
  }

  lemma {:induction false} SpacedAfterFailure(rows: Rows, es: seq<Event>, zone: Zone)
    requires NoSuccess(es) && rows.lastRunAt.At? && rows.lastOutcome == Some(Failed)
    ensures var times := AttemptTimes(rows, es, zone);
            times != [] ==> times[|times| - 1] >= rows.lastRunAt.ms + Backoff(rows.consecutiveFailures, |times|)
    decreases |es|
  {
    if es != [] {
      var e := es[0];
      assert e in es && NoSuccess(es[1..]);
      var next := Step(rows, e, zone);
      SpacedAfterFailure(next, es[1..], zone);
      if Attempts(rows, e, zone) {
        assert Backoff(rows.consecutiveFailures, 1) ==
               if rows.consecutiveFailures <= MAX_FAST_RETRIES then CHECK_INTERVAL else DAY;
      }
    }
  }

  lemma {:induction false} BackoffFromFirst(failures: nat, m: nat)
    requires failures >= 1
    ensures m >= 3 ==> Backoff(failures, m) >= 3 * CHECK_INTERVAL + (m - 3) * DAY
    ensures Backoff(failures, m) >= (if failures > MAX_FAST_RETRIES then m * DAY else 0)
    ensures failures == 2 && m >= 2 ==> Backoff(failures, m) >= 2 * CHECK_INTERVAL + (m - 2) * DAY
    ensures failures == 3 && m >= 1 ==> Backoff(failures, m) >= CHECK_INTERVAL + (m - 1) * DAY
    decreases m
  {
    if m > 0 {
      BackoffFromFirst(failures + 1, m - 1);
    }
  }

  /**
   * However often the process dies and reboots, n attempts with no success among them span at least
   * three hours and n - 4 days. No assumption is made on the clock, nor on what an earlier run
   * left behind.
   */
  lemma {:induction false} CrashLoopBound(rows: Rows, es: seq<Event>, zone: Zone)
    requires NoSuccess(es)
    ensures var times := AttemptTimes(rows, es, zone);
            |times| >= 4 ==>
              times[|times| - 1] - times[0] >= 3 * 3_600_000 + (|times| - 4) * 86_400_000
    decreases |es|
  {
    if es != [] {
      assert es[0] in es && NoSuccess(es[1..]);
      var next := Step(rows, es[0], zone);
      if Attempts(rows, es[0], zone) {
        SpacedAfterFailure(next, es[1..], zone);
        BackoffFromFirst(next.consecutiveFailures, |AttemptTimes(next, es[1..], zone)|);
      } else {
        CrashLoopBound(next, es[1..], zone);
      }
    }
  }

  /** So within any day at most four attempts can start without a success among them. */
  lemma FourAttemptsADay(rows: Rows, es: seq<Event>, zone: Zone)
    requires NoSuccess(es)
    ensures var times := AttemptTimes(rows, es, zone);
            |times| >= 5 ==> times[|times| - 1] - times[0] > 86_400_000
  {
    CrashLoopBound(rows, es, zone);
  }

  // ----- Crashes between the row writes of one record -----

  /** The rows and, for each record still being written, the writes that are left. */
  datatype Live = Live(rows: Rows, jobs: seq<seq<Write>>)

  /**
   * A check that is due claims at once: it takes the time and writes the first row. The success of a run takes its
   * time first and waits, and all its rows are still to be written.
   */
  datatype Tick =
    | CheckBegins(now: int)
    | SuccessBegins(at: int)
    | NextWrite(job: nat)
    | Crash
    | Reconfigure(enabled: bool, frequency: Frequency, runAtHour: int)

  function Begin(live: Live, outcome: Outcome, at: int): Live {
    var ws := Writes(live.rows, outcome, at);
    Live(Put(live.rows, ws[0]), live.jobs + [ws[1..]])
  }

  predicate Claims(live: Live, tick: Tick, zone: Zone) {
    tick.CheckBegins? && live.rows.enabled && ShouldRun(tick.now, live.rows, zone)
  }

  function Advance(live: Live, tick: Tick, zone: Zone): Live {
    match tick
    case CheckBegins(now) => if Claims(live, tick, zone) then Begin(live, Failed, now) else live
    case SuccessBegins(at) => live.(jobs := live.jobs + [Writes(live.rows, Success, at)])
    case NextWrite(job) =>
      if job < |live.jobs| && live.jobs[job] != [] then
        Live(Put(live.rows, live.jobs[job][0]), live.jobs[job := live.jobs[job][1..]])
      else live
    case Crash => Live(live.rows, [])
    case Reconfigure(enabled, frequency, hour) =>
      live.(rows := live.rows.(enabled := enabled, frequency := frequency, runAtHour := hour))
  }

  function ClaimTimes(live: Live, ticks: seq<Tick>, zone: Zone): seq<int>
    decreases |ticks|
  {
    if ticks == [] then []
    else (if Claims(live, ticks[0], zone) then [ticks[0].now] else []) + ClaimTimes(Advance(live, ticks[0], zone), ticks[1..], zone)
  }

  predicate Monotone(ticks: seq<Tick>, clock: int) {
    ticks == [] ||
    match ticks[0]
    case CheckBegins(now) => clock <= now && Monotone(ticks[1..], now)
    case SuccessBegins(at) => clock <= at && Monotone(ticks[1..], at)
    case _ => Monotone(ticks[1..], clock)
  }

  /** The times of stamps that wait for their first row to be written. */
  predicate Waits(live: Live, at: int) {
    exists job <- live.jobs :: LastRunAt(at) in job
  }

  /** The stamp row and all waiting stamps are of the past. */
  ghost predicate StampsPast(live: Live, clock: int) {
    && (live.rows.lastRunAt.At? ==> live.rows.lastRunAt.ms <= clock)
    && forall at :: Waits(live, at) ==> at <= clock
  }

  /** A success's stamp is written first: a record that has begun holds no other. */
  predicate StampFirst(live: Live) {
    forall job: seq<Write> <- live.jobs, i | 0 < i < |job| :: !job[i].LastRunAt?
  }

  lemma StampStaysFirst(live: Live, tick: Tick, zone: Zone)
    requires StampFirst(live)
    ensures StampFirst(Advance(live, tick, zone))
  {
    var live' := Advance(live, tick, zone);
    forall job: seq<Write> <- live'.jobs, i | 0 < i < |job| ensures !job[i].LastRunAt? {
      if job !in live.jobs && tick.NextWrite? {
        assert live.jobs[tick.job] in live.jobs && job[i] == live.jobs[tick.job][i + 1];
      }
    }
  }

  function After(live: Live, ticks: seq<Tick>, zone: Zone): Live
    decreases |ticks|
  {
    if ticks == [] then live else After(Advance(live, ticks[0], zone), ticks[1..], zone)
  }

  predicate NotBefore(later: Stamp, earlier: Stamp) {
    earlier.At? ==> later.At? && earlier.ms <= later.ms
  }

  /** No tick of the run sets the stamp row back. */
  predicate NeverSetBack(live: Live, ticks: seq<Tick>, zone: Zone)
    decreases |ticks|
  {
    ticks == [] ||
    (var next := Advance(live, ticks[0], zone);
     NotBefore(next.rows.lastRunAt, live.rows.lastRunAt) && NeverSetBack(next, ticks[1..], zone))
  }

  /** A success writes its first row at once, or the process dies: nothing comes between the two. */
  predicate Prompt(live: Live, ticks: seq<Tick>, zone: Zone)
    decreases |ticks|
  {
    ticks == [] ||
    (&& (ticks[0].SuccessBegins? && |ticks| > 1 ==> ticks[1] in [NextWrite(|live.jobs|), Crash])
     && Prompt(Advance(live, ticks[0], zone), ticks[1..], zone))
  }

  lemma WaitingComesFrom(live: Live, tick: Tick, zone: Zone, at: int)
    requires Waits(Advance(live, tick, zone), at)
    ensures Waits(live, at) || (tick.SuccessBegins? && at == tick.at)
  {
    var job :| job in Advance(live, tick, zone).jobs && LastRunAt(at) in job;
    if job !in live.jobs && tick.NextWrite? {
      assert job == live.jobs[tick.job][1..];
      assert LastRunAt(at) in live.jobs[tick.job] && live.jobs[tick.job] in live.jobs;
    }
  }

  function ClockAfter(tick: Tick, clock: int): int {
    if tick.CheckBegins? then tick.now else if tick.SuccessBegins? then tick.at else clock
  }

  /** Every time lies a check interval behind the stamp and behind every earlier time. */
  predicate Spaced(times: seq<int>, stamp: Stamp) {
    && (stamp.At? ==> forall i :: 0 <= i < |times| ==> times[i] >= stamp.ms + 3_600_000)
    && (forall i, j :: 0 <= i < j < |times| ==> times[j] - times[i] >= 3_600_000)
  }

  lemma SpacedAfter(now: int, rest: seq<int>, stamp: Stamp)
    requires Spaced(rest, At(now)) && (stamp.At? ==> now >= stamp.ms + CHECK_INTERVAL)
    ensures Spaced([now] + rest, stamp)
  {
  }

  lemma SpacedFromEarlier(times: seq<int>, earlier: Stamp, later: Stamp)
    requires Spaced(times, later) && (earlier.At? ==> later.At? && earlier.ms <= later.ms)
    ensures Spaced(times, earlier)
  {
  }

  /** A check claims only a check interval behind the stamp row, and sets it to its time. */
  lemma ClaimSetsStamp(live: Live, tick: Tick, zone: Zone)
    requires Claims(live, tick, zone)
    ensures Advance(live, tick, zone).rows.lastRunAt == At(tick.now)
    ensures live.rows.lastRunAt.At? ==> tick.now >= live.rows.lastRunAt.ms + CHECK_INTERVAL
  {
  }

  /**
   * Any two attempts start at least one check interval apart, though the process may die between any two row writes
   * and records interleave, as long as no write sets the stamp row back.
   */
  lemma {:induction false} AttemptsSpacedThroughCrashes(live: Live, ticks: seq<Tick>, zone: Zone)
    requires NeverSetBack(live, ticks, zone)
    ensures Spaced(ClaimTimes(live, ticks, zone), live.rows.lastRunAt)
    decreases |ticks|
  {
    if ticks != [] {
      hide Spaced;
      hide Advance;
      hide Claims;
      var tick := ticks[0];
      var next := Advance(live, tick, zone);
      AttemptsSpacedThroughCrashes(next, ticks[1..], zone);
      var rest := ClaimTimes(next, ticks[1..], zone);
      if Claims(live, tick, zone) {
        ClaimSetsStamp(live, tick, zone);
        SpacedAfter(tick.now, rest, live.rows.lastRunAt);
      } else {
        SpacedFromEarlier(rest, live.rows.lastRunAt, next.rows.lastRunAt);
        assert [] + rest == rest;
      }
    }
  }

  // ----- When the stamp row is never set back -----

  predicate StampPast(live: Live, clock: int) {
    live.rows.lastRunAt.At? ==> live.rows.lastRunAt.ms <= clock
  }

  predicate NothingWaits(live: Live) {
    forall job: seq<Write> <- live.jobs, w <- job :: !w.LastRunAt?
  }

  /** A tick other than a success keeps the stamp row in order while nothing waits. */
  lemma QuietTick(live: Live, tick: Tick, clock: int, zone: Zone)
    requires NothingWaits(live) && StampPast(live, clock) && Monotone([tick], clock) && !tick.SuccessBegins?
    ensures var next := Advance(live, tick, zone);
            NothingWaits(next) && StampPast(next, ClockAfter(tick, clock)) && NotBefore(next.rows.lastRunAt, live.rows.lastRunAt)
  {
    var next := Advance(live, tick, zone);
    assert [tick][0] == tick;
    forall job: seq<Write> <- next.jobs, w <- job ensures !w.LastRunAt? {
      if job !in live.jobs && tick.NextWrite? {
        assert live.jobs[tick.job] in live.jobs && w in live.jobs[tick.job];
      }
    }
    if tick.NextWrite? && tick.job < |live.jobs| && live.jobs[tick.job] != [] {
      assert live.jobs[tick.job] in live.jobs && live.jobs[tick.job][0] in live.jobs[tick.job];
    }
  }

  /** A success and the write or the death right behind it do, too. */
  lemma PromptSuccess(live: Live, at: int, second: Tick, clock: int, zone: Zone)
    requires NothingWaits(live) && StampPast(live, clock) && clock <= at
    requires second in [NextWrite(|live.jobs|), Crash]
    ensures var begun := Advance(live, SuccessBegins(at), zone);
            var next := Advance(begun, second, zone);
            && begun.rows == live.rows
            && NothingWaits(next) && StampPast(next, at) && NotBefore(next.rows.lastRunAt, live.rows.lastRunAt)
  {
    var begun := Advance(live, SuccessBegins(at), zone);
    var next := Advance(begun, second, zone);
    var ws := Writes(live.rows, Success, at);
    assert begun.jobs == live.jobs + [ws];
    if second.NextWrite? {
      assert next.jobs == live.jobs + [ws[1..]];
    }
  }

  lemma {:induction false} PromptNeverSetsBack(live: Live, ticks: seq<Tick>, clock: int, zone: Zone)
    requires NothingWaits(live) && StampPast(live, clock) && Monotone(ticks, clock) && Prompt(live, ticks, zone)
    ensures NeverSetBack(live, ticks, zone)
    decreases |ticks|
  {
    if ticks != [] {
      hide Advance;
      hide NothingWaits;
      hide StampPast;
      var tick, rest := ticks[0], ticks[1..];
      var next := Advance(live, tick, zone);
      if !tick.SuccessBegins? {
        assert [tick][1..] == [];
        QuietTick(live, tick, clock, zone);
        PromptNeverSetsBack(next, rest, ClockAfter(tick, clock), zone);
      } else if rest == [] {
        PromptSuccess(live, tick.at, Crash, clock, zone);
      } else {
        PromptSuccess(live, tick.at, rest[0], clock, zone);
        assert Monotone(rest[1..], tick.at) && Prompt(Advance(next, rest[0], zone), rest[1..], zone);
        PromptNeverSetsBack(Advance(next, rest[0], zone), rest[1..], tick.at, zone);
      }
    }
  }

  /** A stamp that waits in one of these places. */
  lemma PlaceOfWaiting(live: Live, at: int) returns (j: nat)
    requires StampFirst(live) && Waits(live, at)
    ensures j < |live.jobs| && live.jobs[j] != [] && live.jobs[j][0] == LastRunAt(at)
  {
    var job :| job in live.jobs && LastRunAt(at) in job;
    j :| 0 <= j < |live.jobs| && live.jobs[j] == job;
    var i :| 0 <= i < |job| && job[i] == LastRunAt(at);
    assert i == 0;
  }

  // ----- Exactly when attempts are sure to be spaced -----

  /** Whatever comes, as long as later successes write their first row at once: attempts stay a check interval apart. */
  ghost predicate SpacingIsSure(live: Live, clock: int) {
    forall ticks: seq<Tick>, zone: Zone ::
      Monotone(ticks, clock) && Prompt(live, ticks, zone) ==> Spaced(ClaimTimes(live, ticks, zone), live.rows.lastRunAt)
  }

  lemma SpacingIsBroken(live: Live, clock: int, ticks: seq<Tick>, zone: Zone)
    requires Monotone(ticks, clock) && Prompt(live, ticks, zone) && !Spaced(ClaimTimes(live, ticks, zone), live.rows.lastRunAt)
    ensures !SpacingIsSure(live, clock)
  {
  }

  /**
   * From a state with stamps of the past, attempts are sure to be spaced exactly when no stamp waits for its first
   * write. If one does, a claim may come before that write, and the next attempt one millisecond after the claim.
   */
  lemma SpacingIsSureIff(live: Live, clock: int)
    requires StampsPast(live, clock) && StampFirst(live)
    ensures SpacingIsSure(live, clock) <==> forall at :: !Waits(live, at)
  {
    if at :| Waits(live, at) {
      var j := PlaceOfWaiting(live, at);
      var zone: Zone := _ => 0;
      var ticks := SetBack(j, clock);
      TwoClaims(live, j, at, clock, zone);
      assert ClaimTimes(live, ticks, zone)[1] - ClaimTimes(live, ticks, zone)[0] == 1;
      SpacingIsBroken(live, clock, ticks, zone);
    } else {
      NothingWaitsIff(live);
      forall ticks: seq<Tick>, zone: Zone | Monotone(ticks, clock) && Prompt(live, ticks, zone)
        ensures Spaced(ClaimTimes(live, ticks, zone), live.rows.lastRunAt)
      {
        PromptNeverSetsBack(live, ticks, clock, zone);
        AttemptsSpacedThroughCrashes(live, ticks, zone);
      }
    }
  }

  lemma NothingWaitsIff(live: Live)
    ensures NothingWaits(live) <==> forall at :: !Waits(live, at)
  {
    if !NothingWaits(live) {
      var job: seq<Write>, w :| job in live.jobs && w in job && w.LastRunAt?;
      assert Waits(live, w.at);
    }
  }

  /** A claim comes before the waiting write of job `j`, and a check right behind it. */
  function SetBack(j: nat, clock: int): seq<Tick> {
    [Reconfigure(true, Daily, 0), CheckBegins(clock + DAY), NextWrite(j), CheckBegins(clock + DAY + 1)]
  }

  lemma TwoClaims(live: Live, j: nat, at: int, clock: int, zone: Zone)
    requires j < |live.jobs| && live.jobs[j] != [] && live.jobs[j][0] == LastRunAt(at) && at <= clock
    requires StampPast(live, clock) && forall t :: zone(t) == 0
    ensures var ticks := SetBack(j, clock);
            && Monotone(ticks, clock) && Prompt(live, ticks, zone)
            && ClaimTimes(live, ticks, zone) == [clock + DAY, clock + DAY + 1]
  {
    var ticks := SetBack(j, clock);
    SetBackIsPrompt(live, j, clock, zone);
    hide Claims;
    hide Advance;
    hide Monotone;
    hide Prompt;
    var l1 := Advance(live, ticks[0], zone);
    Reconfigured(live, zone);
    var l2 := Advance(l1, ticks[1], zone);
    DailyClaim(l1, clock + DAY, j, zone);
    var l3 := Advance(l2, ticks[2], zone);
    LateWrite(l2, j, at, zone);
    DailyClaim(l3, clock + DAY + 1, j, zone);
    ClaimTimesStep(l3, ticks[3], [], zone);
    ClaimTimesStep(l2, ticks[2], [ticks[3]], zone);
    ClaimTimesStep(l1, ticks[1], [ticks[2], ticks[3]], zone);
    ClaimTimesStep(live, ticks[0], [ticks[1], ticks[2], ticks[3]], zone);
  }

  lemma SetBackIsPrompt(live: Live, j: nat, clock: int, zone: Zone)
    ensures Monotone(SetBack(j, clock), clock) && Prompt(live, SetBack(j, clock), zone)
  {
    hide Advance;
    var ticks := SetBack(j, clock);
    var t1, t2, t3 := ticks[1..], ticks[2..], ticks[3..];
    assert t1[1..] == t2 && t2[1..] == t3 && t3[1..] == [];
    assert Monotone(t3, clock + DAY) && Monotone(t2, clock + DAY) && Monotone(t1, clock);
    var l1 := Advance(live, ticks[0], zone);
    var l2 := Advance(l1, t1[0], zone);
    var l3 := Advance(l2, t2[0], zone);
    assert Prompt(l3, t3, zone);
    assert Prompt(l2, t2, zone);
    assert Prompt(l1, t1, zone);
  }

  lemma Reconfigured(live: Live, zone: Zone)
    ensures var tick := Reconfigure(true, Daily, 0);
            !Claims(live, tick, zone) && Advance(live, tick, zone) == live.(rows := live.rows.(enabled := true, frequency := Daily, runAtHour := 0))
  {
  }

  lemma DailyClaim(live: Live, now: int, j: nat, zone: Zone)
    requires live.rows.enabled && live.rows.frequency == Daily && zone(now) == live.rows.runAtHour
    requires (live.rows.lastRunAt.At? ==> live.rows.lastRunAt.ms + DAY <= now) && j < |live.jobs|
    ensures Claims(live, CheckBegins(now), zone)
    ensures var l := Advance(live, CheckBegins(now), zone);
            l.rows == live.rows.(lastRunAt := At(now)) && j < |l.jobs| && l.jobs[j] == live.jobs[j]
  {
  }

  lemma LateWrite(live: Live, j: nat, at: int, zone: Zone)
    requires j < |live.jobs| && live.jobs[j] != [] && live.jobs[j][0] == LastRunAt(at)
    ensures var next := Advance(live, NextWrite(j), zone);
            next.rows == live.rows.(lastRunAt := At(at)) && |next.jobs| == |live.jobs|
    ensures !Claims(live, NextWrite(j), zone)
  {
  }

  lemma ClaimTimesStep(live: Live, tick: Tick, rest: seq<Tick>, zone: Zone)
    ensures ClaimTimes(live, [tick] + rest, zone) ==
            (if Claims(live, tick, zone) then [tick.now] else []) + ClaimTimes(Advance(live, tick, zone), rest, zone)
  {
    assert ([tick] + rest)[1..] == rest;
  }

  /**
   * An overtaken stamp brings attempts closer together: a success takes its time, a check claims `gap` later, the
   * late first row sets the stamp back, and the process dies. The next attempt may start `gap` too early.
   */
  lemma OvertakenStampSetsBack(live: Live, at: int, gap: nat, zone: Zone)
    requires live.jobs == [] && live.rows.enabled && 0 < gap < CHECK_INTERVAL
    requires live.rows.lastOutcome == Some(Failed) && live.rows.consecutiveFailures < MAX_FAST_RETRIES
    requires live.rows.lastRunAt == At(at - CHECK_INTERVAL)
    ensures var ticks := [SuccessBegins(at), CheckBegins(at + gap), NextWrite(0), Crash, CheckBegins(at + CHECK_INTERVAL)];
            Monotone(ticks, at) && ClaimTimes(live, ticks, zone) == [at + gap, at + CHECK_INTERVAL]
  {
    hide Claims;
    hide Advance;
    hide Writes;
    var first, claim, late := SuccessBegins(at), CheckBegins(at + gap), NextWrite(0);
    var next := CheckBegins(at + CHECK_INTERVAL);
    MonotoneTail([first, claim, late, Crash, next], at, gap);
    var l1 := Advance(live, first, zone);
    StampWaits(live, at, zone);
    var l2 := Advance(l1, claim, zone);
    RetryClaims(l1, at + gap, zone);
    var l3 := Advance(l2, late, zone);
    LateWrite(l2, 0, at, zone);
    var l4 := Advance(l3, Crash, zone);
    CrashLosesJobs(l3, zone);
    RetryClaims(l4, at + CHECK_INTERVAL, zone);
    ClaimTimesStep(l4, next, [], zone);
    ClaimTimesStep(l3, Crash, [next], zone);
    ClaimTimesStep(l2, late, [Crash, next], zone);
    ClaimTimesStep(l1, claim, [late, Crash, next], zone);
    ClaimTimesStep(live, first, [claim, late, Crash, next], zone);
  }

  lemma StampWaits(live: Live, at: int, zone: Zone)
    requires live.jobs == []
    ensures var l := Advance(live, SuccessBegins(at), zone);
            l.rows == live.rows && |l.jobs| > 0 && l.jobs[0] != [] && l.jobs[0][0] == LastRunAt(at)
    ensures !Claims(live, SuccessBegins(at), zone)
  {
  }

  lemma RetryClaims(live: Live, now: int, zone: Zone)
    requires live.rows.enabled && Retrying(live.rows)
    requires live.rows.lastRunAt.At? && now - live.rows.lastRunAt.ms >= CHECK_INTERVAL
    ensures Claims(live, CheckBegins(now), zone)
    ensures var l := Advance(live, CheckBegins(now), zone);
            l.rows == live.rows.(lastRunAt := At(now)) && (|live.jobs| > 0 ==> |l.jobs| > 0 && l.jobs[0] == live.jobs[0])
  {
  }

  lemma CrashLosesJobs(live: Live, zone: Zone)
    ensures Advance(live, Crash, zone) == Live(live.rows, []) && !Claims(live, Crash, zone)
  {
  }

  lemma MonotoneTail(ticks: seq<Tick>, at: int, gap: nat)
    requires ticks == [SuccessBegins(at), CheckBegins(at + gap), NextWrite(0), Crash, CheckBegins(at + CHECK_INTERVAL)]
    requires gap < CHECK_INTERVAL
    ensures Monotone(ticks, at)
  {
    assert ticks[1..][1..] == ticks[2..] && ticks[2..][1..] == ticks[3..] && ticks[3..][1..] == ticks[4..] && ticks[4..][1..] == [];
    assert Monotone(ticks[4..], at + gap);
    assert Monotone(ticks[3..], at + gap);
    assert Monotone(ticks[2..], at + gap);
    assert Monotone(ticks[1..], at);
  }

  /** The stamps of a state stay of the past. */
  lemma StampsStayPast(live: Live, tick: Tick, clock: int, zone: Zone)
    requires StampsPast(live, clock) && Monotone([tick], clock)
    ensures StampsPast(Advance(live, tick, zone), ClockAfter(tick, clock))
  {
    assert [tick][0] == tick;
    var next := Advance(live, tick, zone);
    forall at | Waits(next, at) ensures at <= ClockAfter(tick, clock) {
      WaitingComesFrom(live, tick, zone, at);
    }
    if tick.NextWrite? && tick.job < |live.jobs| && live.jobs[tick.job] != [] {
      var w := live.jobs[tick.job][0];
      assert live.jobs[tick.job] in live.jobs && w in live.jobs[tick.job];
      assert w.LastRunAt? ==> Waits(live, w.at);
    }
  }

  // ----- The crash-loop bound row by row -----

  /** An attempt that dies after so many rows of its claim were written, or later. */
  datatype Attempt = Attempt(now: int, written: nat)

  /** The claim got as far as the failure count. */
  predicate Counted(a: Attempt) {
    a.written >= 3
  }

  function ClaimedRows(rows: Rows, a: Attempt): Rows {
    PutAll(rows, Writes(rows, Failed, a.now)[..if a.written < 3 then a.written else 3])
  }

  /** Each attempt is due when it is made, and gets at least its time written. */
  predicate AllMade(rows: Rows, attempts: seq<Attempt>, zone: Zone)
    decreases |attempts|
  {
    attempts == [] ||
    (rows.enabled && ShouldRun(attempts[0].now, rows, zone) && attempts[0].written >= 1
     && AllMade(ClaimedRows(rows, attempts[0]), attempts[1..], zone))
  }

  lemma ClaimedRowsAre(rows: Rows, a: Attempt)
    requires a.written >= 1
    ensures ClaimedRows(rows, a) ==
            rows.(lastRunAt := At(a.now),
                  lastOutcome := if a.written >= 2 then Some(Failed) else rows.lastOutcome,
                  consecutiveFailures := rows.consecutiveFailures + if Counted(a) then 1 else 0)
  {
    var ws := Writes(rows, Failed, a.now);
    assert ws[..1][..0] == [] && ws[..2][..1] == ws[..1] && ws[..3][..2] == ws[..2];
    assert PutAll(rows, ws[..1]) == Put(rows, ws[0]);
    assert PutAll(rows, ws[..2]) == Put(Put(rows, ws[0]), ws[1]);
    assert PutAll(rows, ws[..3]) == Put(Put(Put(rows, ws[0]), ws[1]), ws[2]);
  }

  /** Once the fast retries are used up, every further attempt is a day behind the one before. */
  lemma {:induction false} SlowAfterward(rows: Rows, attempts: seq<Attempt>, zone: Zone)
    requires AllMade(rows, attempts, zone) && attempts != []
    requires rows.lastRunAt.At? && rows.lastOutcome == Some(Failed) && rows.consecutiveFailures > MAX_FAST_RETRIES
    ensures attempts[|attempts| - 1].now >= rows.lastRunAt.ms + |attempts| * DAY
    decreases |attempts|
  {
    ClaimedRowsAre(rows, attempts[0]);
    if |attempts| > 1 {
      SlowAfterward(ClaimedRows(rows, attempts[0]), attempts[1..], zone);
    }
  }

  /** Each counted attempt uses up a fast retry. */
  lemma {:induction false} CountedAttempts(rows: Rows, attempts: seq<Attempt>, zone: Zone, k: nat)
    requires AllMade(rows, attempts, zone) && attempts != []
    requires rows.lastRunAt.At? && rows.lastOutcome == Some(Failed)
    requires k + rows.consecutiveFailures >= MAX_FAST_RETRIES + 1
    requires forall i :: 0 <= i < k && i < |attempts| ==> Counted(attempts[i])
    ensures |attempts| >= k ==> attempts[|attempts| - 1].now >= rows.lastRunAt.ms + k * CHECK_INTERVAL + (|attempts| - k) * DAY
    decreases |attempts|
  {
    ClaimedRowsAre(rows, attempts[0]);
    var next, rest := ClaimedRows(rows, attempts[0]), attempts[1..];
    if k == 0 {
      SlowAfterward(rows, attempts, zone);
    } else if rest != [] {
      assert forall i :: 0 <= i < k - 1 && i < |rest| ==> Counted(rest[i]) by {
        assert forall i :: 0 <= i < |rest| ==> rest[i] == attempts[i + 1];
      }
      CountedAttempts(next, rest, zone, k - 1);
    }
  }

  /** If the first four attempts got their failure counts written, the crash-loop bound holds row by row. */
  lemma CountedCrashLoopBound(rows: Rows, attempts: seq<Attempt>, zone: Zone)
    requires AllMade(rows, attempts, zone) && |attempts| >= 4
    requires forall i :: 0 <= i < 4 ==> Counted(attempts[i])
    ensures attempts[|attempts| - 1].now - attempts[0].now >= 3 * 3_600_000 + (|attempts| - 4) * 86_400_000
  {
    ClaimedRowsAre(rows, attempts[0]);
    var rest := attempts[1..];
    assert forall i :: 0 <= i < |rest| ==> rest[i] == attempts[i + 1];
    CountedAttempts(ClaimedRows(rows, attempts[0]), rest, zone, 3);
  }

  /** Hourly up to the fifth attempt, and daily from then on. */
  function ClosestTime(k: nat): int {
    if k <= 4 then k * CHECK_INTERVAL else 4 * CHECK_INTERVAL + (k - 4) * DAY
  }

  function ClosestFrom(written: seq<nat>, k: nat): (attempts: seq<Attempt>)
    ensures |attempts| == |written|
    ensures forall i :: 0 <= i < |written| ==> attempts[i] == Attempt(ClosestTime(k + i), written[i])
    decreases |written|
  {
    if written == [] then [] else [Attempt(ClosestTime(k), written[0])] + ClosestFrom(written[1..], k + 1)
  }

  function CountedIn(written: seq<nat>): nat {
    if written == [] then 0 else (if written[0] >= 3 then 1 else 0) + CountedIn(written[1..])
  }

  lemma {:induction false} ClosestIsMade(rows: Rows, written: seq<nat>, k: nat, zone: Zone)
    requires rows.enabled && rows.frequency == Daily && rows.lastOutcome == Some(Failed)
    requires k == 0 || rows.lastRunAt == At(ClosestTime(k - 1))
    requires k == 0 ==> rows.lastRunAt.Absent?
    requires forall t :: zone(t) == rows.runAtHour
    requires forall i :: 0 <= i < |written| ==> written[i] >= 1
    requires k <= 4 ==> rows.consecutiveFailures + CountedIn(written[..if |written| < 4 - k then |written| else 4 - k]) <= MAX_FAST_RETRIES
    ensures AllMade(rows, ClosestFrom(written, k), zone)
    decreases |written|
  {
    if written != [] {
      var a := Attempt(ClosestTime(k), written[0]);
      ClaimedRowsAre(rows, a);
      var n := if |written| < 4 - k then |written| else 4 - k;
      if k < 4 {
        assert written[..n][1..] == written[1..][..n - 1];
      }
      ClosestIsMade(ClaimedRows(rows, a), written[1..], k + 1, zone);
      assert ClosestFrom(written, k)[1..] == ClosestFrom(written[1..], k + 1);
    }
  }

  predicate WrittenAs(attempts: seq<Attempt>, written: seq<nat>) {
    |attempts| == |written| && forall i :: 0 <= i < |written| ==> attempts[i].written == written[i]
  }

  predicate KeepsBound(attempts: seq<Attempt>)
    requires |attempts| >= 4
  {
    attempts[|attempts| - 1].now - attempts[0].now >= 3 * 3_600_000 + (|attempts| - 4) * 86_400_000
  }

  /** Whatever the rows, the times and the time zone: attempts that get so many rows written keep the bound. */
  ghost predicate BoundIsSure(written: seq<nat>)
    requires |written| >= 4
  {
    forall rows: Rows, attempts: seq<Attempt>, zone: Zone ::
      WrittenAs(attempts, written) && AllMade(rows, attempts, zone) ==> KeepsBound(attempts)
  }

  lemma BoundIsBroken(written: seq<nat>, rows: Rows, attempts: seq<Attempt>, zone: Zone)
    requires |written| >= 4 && WrittenAs(attempts, written) && AllMade(rows, attempts, zone) && !KeepsBound(attempts)
    ensures !BoundIsSure(written)
  {
  }

  /**
   * Exactly when five or more attempts are sure to keep the crash-loop bound, by how many rows each got written:
   * when the first four all got as far as the failure count. One death just before it, and a fifth attempt may
   * follow within the hour.
   */
  lemma CrashLoopBoundRowByRowIff(written: seq<nat>)
    requires |written| >= 5 && forall i :: 0 <= i < |written| ==> written[i] >= 1
    ensures BoundIsSure(written) <==> forall i :: 0 <= i < 4 ==> written[i] >= 3
  {
    if i :| 0 <= i < 4 && written[i] < 3 {
      var rows := Rows(true, Daily, 0, Absent, Some(Failed), 0, Absent);
      var zone: Zone := _ => 0;
      assert written[..4][i] == written[i];
      FewCounted(written[..4], i);
      ClosestIsMade(rows, written, 0, zone);
      var attempts := ClosestFrom(written, 0);
      BoundIsBroken(written, rows, attempts, zone);
    } else {
      forall rows: Rows, attempts: seq<Attempt>, zone: Zone | WrittenAs(attempts, written) && AllMade(rows, attempts, zone)
        ensures KeepsBound(attempts)
      {
        CountedCrashLoopBound(rows, attempts, zone);
      }
    }
  }

  lemma {:induction false} FewCounted(written: seq<nat>, i: nat)
    requires i < |written| && written[i] < 3
    ensures CountedIn(written) < |written|
  {
    AtMostAllCounted(written[1..]);
    if i > 0 {
      FewCounted(written[1..], i - 1);
    }
  }

  lemma {:induction false} AtMostAllCounted(written: seq<nat>)
    ensures CountedIn(written) <= |written|
  {
    if written != [] {
      AtMostAllCounted(written[1..]);
    }
  }

  // ----- The success rows -----

  predicate Ordered(es: seq<Event>, clock: int) {
    es == [] ||
    match es[0]
    case Check(now) => clock <= now && Ordered(es[1..], now)
    case Succeed(at) => clock <= at && Ordered(es[1..], at)
    case Configure(_, _, _) => Ordered(es[1..], clock)
  }

  /** The stamps agree with one another and none lies in the future. */
  predicate StampsInOrder(rows: Rows, clock: int) {
    && (rows.lastRunAt.At? ==> rows.lastRunAt.ms <= clock)
    && (rows.lastSuccessAt.At? ==> rows.lastRunAt.At? && rows.lastSuccessAt.ms <= rows.lastRunAt.ms)
  }

  /** In every run with a monotone clock, the last success is never later than the last run. */
  lemma {:induction false} SuccessNeverAfterRun(rows: Rows, es: seq<Event>, clock: int, zone: Zone)
    requires Ordered(es, clock) && StampsInOrder(rows, clock)
    ensures var last := Run(rows, es, zone);
            last.lastSuccessAt.At? ==> last.lastRunAt.At? && last.lastSuccessAt.ms <= last.lastRunAt.ms
    decreases |es|
  {
    if es != [] {
      var clock' := match es[0] case Check(now) => now case Succeed(at) => at case Configure(_, _, _) => clock;
      SuccessNeverAfterRun(Step(rows, es[0], zone), es[1..], clock', zone);
    }
  }

  // ----- The success rows, row by row -----

  /** A success that waits to be written still has its stamp before it, or that stamp is not behind the stamp row. */
  predicate SuccessFollowsRun(live: Live) {
    && NotBefore(live.rows.lastRunAt, live.rows.lastSuccessAt)
    && forall job: seq<Write> <- live.jobs, w <- job ::
         w.LastSuccessAt? ==> job[0] == LastRunAt(w.at) || NotBefore(live.rows.lastRunAt, At(w.at))
  }

  lemma SuccessKeepsFollowing(live: Live, tick: Tick, zone: Zone)
    requires SuccessFollowsRun(live)
    requires NotBefore(Advance(live, tick, zone).rows.lastRunAt, live.rows.lastRunAt)
    ensures SuccessFollowsRun(Advance(live, tick, zone))
  {
    var next := Advance(live, tick, zone);
    if tick.NextWrite? && tick.job < |live.jobs| && live.jobs[tick.job] != [] {
      assert live.jobs[tick.job] in live.jobs && live.jobs[tick.job][0] in live.jobs[tick.job];
    }
    forall job: seq<Write> <- next.jobs, w <- job | w.LastSuccessAt?
      ensures job[0] == LastRunAt(w.at) || NotBefore(next.rows.lastRunAt, At(w.at))
    {
      if job !in live.jobs && tick.NextWrite? {
        assert live.jobs[tick.job] in live.jobs && w in live.jobs[tick.job];
      }
    }
  }

  /** As long as the stamp row is never set back, the last success is not later than the last run after any write. */
  lemma {:induction false} SuccessFollowsThroughCrashes(live: Live, ticks: seq<Tick>, zone: Zone)
    requires SuccessFollowsRun(live) && NeverSetBack(live, ticks, zone)
    ensures SuccessFollowsRun(After(live, ticks, zone))
    decreases |ticks|
  {
    if ticks != [] {
      hide Advance;
      hide SuccessFollowsRun;
      SuccessKeepsFollowing(live, ticks[0], zone);
      SuccessFollowsThroughCrashes(Advance(live, ticks[0], zone), ticks[1..], zone);
    }
  }

  /** Whatever comes, as long as later successes write their first row at once. */
  ghost predicate SuccessOrderIsSure(live: Live, clock: int) {
    forall ticks: seq<Tick>, zone: Zone :: Monotone(ticks, clock) && Prompt(live, ticks, zone) ==>
      (var rows := After(live, ticks, zone).rows; NotBefore(rows.lastRunAt, rows.lastSuccessAt))
  }

  lemma SuccessOrderIsBroken(live: Live, clock: int, ticks: seq<Tick>, zone: Zone)
    requires Monotone(ticks, clock) && Prompt(live, ticks, zone)
    requires var rows := After(live, ticks, zone).rows; !NotBefore(rows.lastRunAt, rows.lastSuccessAt)
    ensures !SuccessOrderIsSure(live, clock)
  {
  }

  /**
   * Row by row, the last success is sure never to be later than the last run exactly when no stamp waits for its
   * first write: a younger success may be written completely before it.
   */
  lemma SuccessOrderIsSureIff(live: Live, clock: int)
    requires StampsPast(live, clock) && StampFirst(live) && SuccessFollowsRun(live)
    ensures SuccessOrderIsSure(live, clock) <==> forall at :: !Waits(live, at)
  {
    hide Waits;
    if at :| Waits(live, at) {
      var j := PlaceOfWaiting(live, at);
      var zone: Zone := _ => 0;
      var ticks := LateBehindSuccess(live, j, clock);
      SuccessOvertakes(live, j, at, clock, zone);
      SuccessOrderIsBroken(live, clock, ticks, zone);
    } else {
      NothingWaitsIff(live);
      forall ticks: seq<Tick>, zone: Zone | Monotone(ticks, clock) && Prompt(live, ticks, zone)
        ensures var rows := After(live, ticks, zone).rows; NotBefore(rows.lastRunAt, rows.lastSuccessAt)
      {
        PromptNeverSetsBack(live, ticks, clock, zone);
        SuccessFollowsThroughCrashes(live, ticks, zone);
      }
    }
  }

  /** A success begins and is written completely before the waiting write of job `j`. */
  function LateBehindSuccess(live: Live, j: nat, clock: int): seq<Tick> {
    var n := |live.jobs|;
    [SuccessBegins(clock + 1), NextWrite(n), NextWrite(n), NextWrite(n), NextWrite(n), NextWrite(j)]
  }

  lemma SuccessOvertakes(live: Live, j: nat, at: int, clock: int, zone: Zone)
    requires j < |live.jobs| && live.jobs[j] != [] && live.jobs[j][0] == LastRunAt(at) && at <= clock
    ensures var ticks := LateBehindSuccess(live, j, clock);
            && Monotone(ticks, clock) && Prompt(live, ticks, zone)
            && After(live, ticks, zone).rows.lastRunAt == At(at)
            && After(live, ticks, zone).rows.lastSuccessAt == At(clock + 1)
  {
    var n := |live.jobs|;
    var ticks := LateBehindSuccess(live, j, clock);
    var ws := Writes(live.rows, Success, clock + 1);
    var l0 := Advance(live, ticks[0], zone);
    assert l0 == live.(jobs := live.jobs + [ws]);
    var l1 := Live(Put(l0.rows, ws[0]), live.jobs + [ws[1..]]);
    var l2 := Live(Put(l1.rows, ws[1]), live.jobs + [ws[2..]]);
    var l3 := Live(Put(l2.rows, ws[2]), live.jobs + [ws[3..]]);
    var l4 := Live(Put(l3.rows, ws[3]), live.jobs + [ws[4..]]);
    NextOfLast(l0.rows, live.jobs, ws, zone);
    NextOfLast(l1.rows, live.jobs, ws[1..], zone);
    NextOfLast(l2.rows, live.jobs, ws[2..], zone);
    NextOfLast(l3.rows, live.jobs, ws[3..], zone);
    LateWrite(l4, j, at, zone);
    OnlyWritesArePrompt(l0, ticks[1..], clock + 1, zone);
    hide Advance;
    AfterStep(l4, NextWrite(j), [], zone);
    AfterStep(l3, NextWrite(n), [NextWrite(j)], zone);
    AfterStep(l2, NextWrite(n), [NextWrite(n), NextWrite(j)], zone);
    AfterStep(l1, NextWrite(n), [NextWrite(n), NextWrite(n), NextWrite(j)], zone);
    AfterStep(l0, NextWrite(n), [NextWrite(n), NextWrite(n), NextWrite(n), NextWrite(j)], zone);
    assert After(live, ticks, zone) == After(l0, ticks[1..], zone);
  }

  lemma NextOfLast(rows: Rows, jobs: seq<seq<Write>>, ws: seq<Write>, zone: Zone)
    requires ws != []
    ensures Advance(Live(rows, jobs + [ws]), NextWrite(|jobs|), zone) == Live(Put(rows, ws[0]), jobs + [ws[1..]])
  {
  }

  lemma AfterStep(live: Live, tick: Tick, rest: seq<Tick>, zone: Zone)
    ensures After(live, [tick] + rest, zone) == After(Advance(live, tick, zone), rest, zone)
  {
    assert ([tick] + rest)[1..] == rest;
  }

  lemma {:induction false} OnlyWritesArePrompt(live: Live, ticks: seq<Tick>, clock: int, zone: Zone)
    requires forall tick <- ticks :: tick.NextWrite?
    ensures Monotone(ticks, clock) && Prompt(live, ticks, zone)
    decreases |ticks|
  {
    if ticks != [] {
      hide Advance;
      assert ticks[0] in ticks && forall tick <- ticks[1..] :: tick in ticks;
      OnlyWritesArePrompt(Advance(live, ticks[0], zone), ticks[1..], clock, zone);
    }
  }

  // ----- Undisturbed records -----

  /** A claim whose rows are written with nothing in between is the attempt of a whole record. */
  lemma UndisturbedClaim(live: Live, now: int, zone: Zone)
    requires Claims(live, CheckBegins(now), zone)
    ensures var n := |live.jobs|;
            After(live, [CheckBegins(now), NextWrite(n), NextWrite(n)], zone) ==
            Live(Step(live.rows, Check(now), zone), live.jobs + [[]])
  {
    var n, ws := |live.jobs|, Writes(live.rows, Failed, now);
    var l1 := Advance(live, CheckBegins(now), zone);
    assert l1 == Live(Put(live.rows, ws[0]), live.jobs + [ws[1..]]);
    NextOfLast(l1.rows, live.jobs, ws[1..], zone);
    var l2 := Advance(l1, NextWrite(n), zone);
    assert ws[1..][1..] == ws[2..] && ws[1..][0] == ws[1];
    NextOfLast(l2.rows, live.jobs, ws[2..], zone);
    assert ws[2..][1..] == [] && ws[2..][0] == ws[2];
    hide Advance;
    AfterStep(l2, NextWrite(n), [], zone);
    AfterStep(l1, NextWrite(n), [NextWrite(n)], zone);
    AfterStep(live, CheckBegins(now), [NextWrite(n), NextWrite(n)], zone);
  }

  /** So is a success that is. */
  lemma UndisturbedSuccess(live: Live, at: int, zone: Zone)
    ensures var n := |live.jobs|;
            After(live, [SuccessBegins(at), NextWrite(n), NextWrite(n), NextWrite(n), NextWrite(n)], zone) ==
            Live(Step(live.rows, Succeed(at), zone), live.jobs + [[]])
  {
    var n, ws := |live.jobs|, Writes(live.rows, Success, at);
    var l0 := Advance(live, SuccessBegins(at), zone);
    assert l0 == live.(jobs := live.jobs + [ws]);
    var l1 := Live(Put(l0.rows, ws[0]), live.jobs + [ws[1..]]);
    var l2 := Live(Put(l1.rows, ws[1]), live.jobs + [ws[2..]]);
    var l3 := Live(Put(l2.rows, ws[2]), live.jobs + [ws[3..]]);
    NextOfLast(l0.rows, live.jobs, ws, zone);
    NextOfLast(l1.rows, live.jobs, ws[1..], zone);
    NextOfLast(l2.rows, live.jobs, ws[2..], zone);
    NextOfLast(l3.rows, live.jobs, ws[3..], zone);
    var l4 := Live(Put(l3.rows, ws[3]), live.jobs + [ws[4..]]);
    assert ws[4..] == [];
    hide Advance;
    AfterStep(l3, NextWrite(n), [], zone);
    AfterStep(l2, NextWrite(n), [NextWrite(n)], zone);
    AfterStep(l1, NextWrite(n), [NextWrite(n), NextWrite(n)], zone);
    AfterStep(l0, NextWrite(n), [NextWrite(n), NextWrite(n), NextWrite(n)], zone);
    AfterStep(live, SuccessBegins(at), [NextWrite(n), NextWrite(n), NextWrite(n), NextWrite(n)], zone);
  }

  // ----- The failure count, row by row -----

  /** No count that waits to be written is above the bound. */
  predicate CountsWithin(live: Live, bound: nat) {
    && live.rows.consecutiveFailures <= bound
    && forall job: seq<Write> <- live.jobs, w <- job :: w.ConsecutiveFailures? ==> w.count <= bound
  }

  lemma CountsStayWithin(live: Live, tick: Tick, bound: nat, zone: Zone)
    requires CountsWithin(live, bound)
    ensures CountsWithin(Advance(live, tick, zone), bound + if Claims(live, tick, zone) then 1 else 0)
  {
    var next := Advance(live, tick, zone);
    if tick.NextWrite? && tick.job < |live.jobs| && live.jobs[tick.job] != [] {
      assert live.jobs[tick.job] in live.jobs && live.jobs[tick.job][0] in live.jobs[tick.job];
    }
    forall job: seq<Write> <- next.jobs, w <- job | w.ConsecutiveFailures?
      ensures w.count <= bound + if Claims(live, tick, zone) then 1 else 0
    {
      if job !in live.jobs && tick.NextWrite? {
        assert live.jobs[tick.job] in live.jobs && w in live.jobs[tick.job];
      }
    }
  }

  /** However records die and interleave, the failure count never grows by more than the attempts made. */
  lemma {:induction false} CountNeverAboveAttempts(live: Live, ticks: seq<Tick>, bound: nat, zone: Zone)
    requires CountsWithin(live, bound)
    ensures CountsWithin(After(live, ticks, zone), bound + |ClaimTimes(live, ticks, zone)|)
    decreases |ticks|
  {
    if ticks != [] {
      hide Advance;
      hide CountsWithin;
      hide Claims;
      var next := Advance(live, ticks[0], zone);
      var more := bound + if Claims(live, ticks[0], zone) then 1 else 0;
      CountsStayWithin(live, ticks[0], bound, zone);
      CountNeverAboveAttempts(next, ticks[1..], more, zone);
    }
  }

  /** The rows after a success that gets so many of its rows written. */
  function SuccessRows(rows: Rows, at: int, written: nat): Rows {
    PutAll(rows, Writes(rows, Success, at)[..if written < 4 then written else 4])
  }

  /** The rows after attempts that each get so many of their rows written. */
  function AttemptRows(rows: Rows, attempts: seq<Attempt>): Rows
    decreases |attempts|
  {
    if attempts == [] then rows else AttemptRows(ClaimedRows(rows, attempts[0]), attempts[1..])
  }

  /** How many rows each attempt got written. */
  function WrittenBy(attempts: seq<Attempt>): (written: seq<nat>)
    ensures WrittenAs(attempts, written)
  {
    seq(|attempts|, i requires 0 <= i < |attempts| => attempts[i].written)
  }

  lemma {:induction false} AllCountedIff(written: seq<nat>)
    ensures CountedIn(written) == |written| <==> forall i :: 0 <= i < |written| ==> written[i] >= 3
  {
    if written != [] {
      AllCountedIff(written[1..]);
      AtMostAllCounted(written[1..]);
      assert forall i :: 1 <= i < |written| ==> written[i] == written[1..][i - 1];
    }
  }

  lemma EveryAttemptCounted(attempts: seq<Attempt>)
    ensures CountedIn(WrittenBy(attempts)) == |attempts| <==> forall a <- attempts :: Counted(a)
  {
    hide CountedIn;
    var written := WrittenBy(attempts);
    AllCountedIff(written);
    if forall i :: 0 <= i < |written| ==> written[i] >= 3 {
      assert forall a <- attempts :: Counted(a);
    } else {
      var i :| 0 <= i < |written| && written[i] < 3;
      assert attempts[i] in attempts && !Counted(attempts[i]);
    }
  }

  lemma SuccessRowsCount(rows: Rows, at: int, written: nat)
    ensures SuccessRows(rows, at, written).consecutiveFailures == if written >= 3 then 0 else rows.consecutiveFailures
  {
    var ws := Writes(rows, Success, at);
    assert ws[..1][..0] == [] && ws[..2][..1] == ws[..1] && ws[..3][..2] == ws[..2] && ws[..4][..3] == ws[..3];
    assert PutAll(rows, ws[..0]) == rows;
    assert PutAll(rows, ws[..1]) == Put(rows, ws[0]);
    assert PutAll(rows, ws[..2]) == Put(Put(rows, ws[0]), ws[1]);
    assert PutAll(rows, ws[..3]) == Put(PutAll(rows, ws[..2]), ws[2]);
    assert PutAll(rows, ws[..4]) == Put(PutAll(rows, ws[..3]), ws[3]);
  }

  lemma ClaimedRowsCount(rows: Rows, a: Attempt)
    ensures ClaimedRows(rows, a).consecutiveFailures == rows.consecutiveFailures + if Counted(a) then 1 else 0
  {
    if a.written >= 1 {
      ClaimedRowsAre(rows, a);
    }
  }

  lemma {:induction false} AttemptRowsCount(rows: Rows, attempts: seq<Attempt>)
    ensures AttemptRows(rows, attempts).consecutiveFailures == rows.consecutiveFailures + CountedIn(WrittenBy(attempts))
    decreases |attempts|
  {
    if attempts != [] {
      ClaimedRowsCount(rows, attempts[0]);
      assert WrittenBy(attempts)[1..] == WrittenBy(attempts[1..]);
      AttemptRowsCount(ClaimedRows(rows, attempts[0]), attempts[1..]);
    }
  }

  /**
   * With deaths between rows, the count is that of the attempts since the last success exactly when each of them got as
   * far as its count, if the success did. A success that died before its third row leaves the older failures standing.
   */
  lemma FailuresSinceLastSuccessIff(rows: Rows, at: int, written: nat, since: seq<Attempt>)
    ensures var count := AttemptRows(SuccessRows(rows, at, written), since).consecutiveFailures;
            && (written >= 3 ==> (count == |since| <==> forall a <- since :: Counted(a)))
            && (written < 3 ==> count == rows.consecutiveFailures + CountedIn(WrittenBy(since)))
  {
    SuccessRowsCount(rows, at, written);
    AttemptRowsCount(SuccessRows(rows, at, written), since);
    EveryAttemptCounted(since);
    hide SuccessRows;
    hide AttemptRows;
    hide CountedIn;
    hide Counted;
  }

  /** Between two successes the failure count grows by exactly one with each attempt. */
  lemma {:induction false} FailuresCountAttempts(rows: Rows, es: seq<Event>, zone: Zone)
    requires NoSuccess(es)
    ensures Run(rows, es, zone).consecutiveFailures == rows.consecutiveFailures + |AttemptTimes(rows, es, zone)|
    decreases |es|
  {
    if es != [] {
      assert es[0] in es && NoSuccess(es[1..]);
      FailuresCountAttempts(Step(rows, es[0], zone), es[1..], zone);
    }
  }

  lemma {:induction false} RunConcat(rows: Rows, es: seq<Event>, more: seq<Event>, zone: Zone)
    ensures Run(rows, es + more, zone) == Run(Run(rows, es, zone), more, zone)
    decreases |es|
  {
    if es == [] {
      assert es + more == more;
    } else {
      assert (es + more)[0] == es[0] && (es + more)[1..] == es[1..] + more;
      RunConcat(Step(rows, es[0], zone), es[1..], more, zone);
    }
  }

  /** After any history, the count is the number of attempts claimed since the last success. */
  lemma FailuresSinceLastSuccess(rows: Rows, before: seq<Event>, at: int, since: seq<Event>, zone: Zone)
    requires NoSuccess(since)
    ensures var stamped := Run(rows, before + [Succeed(at)], zone);
            Run(rows, before + [Succeed(at)] + since, zone).consecutiveFailures == |AttemptTimes(stamped, since, zone)|
  {
    var stamped := Run(rows, before + [Succeed(at)], zone);
    RunConcat(rows, before + [Succeed(at)], since, zone);
    RunConcat(rows, before, [Succeed(at)], zone);
    var r := Run(rows, before, zone);
    assert [Succeed(at)][1..] == [];
    assert stamped == Recorded(r, Success, at);
    FailuresCountAttempts(stamped, since, zone);
  }

  // ----- Progress -----

  /** A time zone without daylight saving. */
  function FixedOffset(offset: int): Zone {
    (now: int) => ((now + offset) / HOUR) % 24
  }

  lemma HoursAdvance(now: int, k: nat, offset: int)
    ensures FixedOffset(offset)(now + k * HOUR) == (FixedOffset(offset)(now) + k) % 24
  {
    var x := now + offset;
    assert now + k * HOUR + offset == x + k * HOUR;
    assert (x + k * HOUR) / HOUR == x / HOUR + k;
  }

  /** Checks exactly one hour apart, from `first` on. */
  function HourlyChecks(first: int, n: nat): (es: seq<Event>)
    ensures |es| == n
    ensures forall k :: 0 <= k < n ==> es[k] == Check(first + k * HOUR)
  {
    seq(n, k requires 0 <= k < n => Check(first + k * HOUR))
  }

  /** If one of a series of checks would find the backup due, an attempt starts at that check or before. */
  lemma {:induction false} AttemptByCheck(rows: Rows, first: int, n: nat, k: nat, zone: Zone)
    requires k < n && rows.enabled && ShouldRun(first + k * HOUR, rows, zone)
    ensures var times := AttemptTimes(rows, HourlyChecks(first, n), zone);
            times != [] && times[0] <= first + k * HOUR
    decreases n
  {
    var es := HourlyChecks(first, n);
    assert es[0] == Check(first + 0 * HOUR);
    if !Attempts(rows, es[0], zone) {
      assert k > 0;
      assert first + HOUR + (k - 1) * HOUR == first + k * HOUR;
      AttemptByCheck(rows, first + HOUR, n - 1, k - 1, zone);
      assert es[1..] == HourlyChecks(first + HOUR, n - 1) by {
        forall j | 0 <= j < n - 1 ensures es[1..][j] == HourlyChecks(first + HOUR, n - 1)[j] {
          assert first + (j + 1) * HOUR == first + HOUR + j * HOUR;
        }
      }
    }
  }

  /** How many hourly checks it takes to come to `due`. */
  function ChecksUntil(first: int, due: int): (j: nat)
    requires first <= due
    ensures due <= first + j * HOUR < due + HOUR
  {
    (due - first + HOUR - 1) / HOUR
  }

  /** Among the first 24 checks from `due` on, one falls into the chosen hour. */
  lemma CheckInHour(first: int, due: int, hour: int, offset: int) returns (k: nat)
    requires first <= due && 0 <= hour < 24
    ensures due <= first + k * HOUR < due + DAY
    ensures FixedOffset(offset)(first + k * HOUR) == hour
  {
    var j := ChecksUntil(first, due);
    var start := first + j * HOUR;
    var at := FixedOffset(offset)(start);
    var wait := (hour - at) % 24;
    HoursAdvance(start, wait, offset);
    assert (at + wait) % 24 == hour;
    k := j + wait;
    assert first + k * HOUR == start + wait * HOUR;
  }

  /** How long a schedule waits between two runs, in milliseconds. */
  function Period(frequency: Frequency): int {
    if frequency.Daily? then 86_400_000 else 604_800_000
  }

  /** The last run failed, for the first, second or third time in a row. */
  predicate FailedLately(rows: Rows) {
    rows.lastOutcome == Some(Failed) && rows.consecutiveFailures <= 3
  }

  /**
   * With checks exactly an hour apart and a fixed UTC offset, an enabled schedule that has not failed lately starts its
   * next attempt within a day of the end of its period, or of the first check if it has never run.
   */
  lemma NextAttemptInTime(rows: Rows, first: int, offset: int, n: nat)
    requires rows.enabled && !FailedLately(rows) && 0 <= rows.runAtHour < 24
    requires rows.lastRunAt.At? ==> first <= rows.lastRunAt.ms + Period(rows.frequency)
    requires var due := if rows.lastRunAt.At? then rows.lastRunAt.ms + Period(rows.frequency) else first;
             first + n * 3_600_000 >= due + 86_400_000
    ensures var due := if rows.lastRunAt.At? then rows.lastRunAt.ms + Period(rows.frequency) else first;
            var times := AttemptTimes(rows, HourlyChecks(first, n), FixedOffset(offset));
            times != [] && times[0] < due + 86_400_000
  {
    var due := if rows.lastRunAt.At? then rows.lastRunAt.ms + Period(rows.frequency) else first;
    var k := CheckInHour(first, due, rows.runAtHour, offset);
    assert k < n by {
      assert first + k * HOUR < first + n * HOUR;
    }
    AttemptByCheck(rows, first, n, k, FixedOffset(offset));
  }

  /** After a first, second or third failure in a row the next attempt starts within two hours, whatever the hour of the day. */
  lemma RetryInTime(rows: Rows, first: int, n: nat, zone: Zone)
    requires rows.enabled && FailedLately(rows) && rows.lastRunAt.At? && first <= rows.lastRunAt.ms + 3_600_000
    requires first + n * 3_600_000 >= rows.lastRunAt.ms + 7_200_000
    ensures var times := AttemptTimes(rows, HourlyChecks(first, n), zone);
            times != [] && times[0] < rows.lastRunAt.ms + 7_200_000
  {
    var k := ChecksUntil(first, rows.lastRunAt.ms + HOUR);
    assert k < n by {
      assert first + k * HOUR < first + n * HOUR;
    }
    AttemptByCheck(rows, first, n, k, zone);
  }

  // ----- No attempt too early -----

  /** The schedule's period stays, and no success comes. */
  predicate Undisturbed(es: seq<Event>, frequency: Frequency) {
    forall e <- es :: !e.Succeed? && (e.Configure? ==> e.frequency == frequency)
  }

  /** After a success no attempt starts before the period is over. */
  lemma {:induction false} NoAttemptTooEarly(rows: Rows, es: seq<Event>, zone: Zone)
    requires rows.lastRunAt.At? && rows.lastOutcome == Some(Success) && Undisturbed(es, rows.frequency)
    ensures forall t <- AttemptTimes(rows, es, zone) :: t >= rows.lastRunAt.ms + Period(rows.frequency)
    decreases |es|
  {
    if es != [] {
      var e := es[0];
      assert e in es && forall x <- es[1..] :: x in es;
      var next := Step(rows, e, zone);
      if Attempts(rows, e, zone) {
        assert NoSuccess(es[1..]);
        NotBeforeStamp(next, es[1..], zone);
      } else {
        NoAttemptTooEarly(next, es[1..], zone);
      }
    }
  }

  /** Whatever comes but a success: no attempt starts earlier than the stamp. */
  lemma {:induction false} NotBeforeStamp(rows: Rows, es: seq<Event>, zone: Zone)
    requires rows.lastRunAt.At? && NoSuccess(es)
    ensures forall t <- AttemptTimes(rows, es, zone) :: t >= rows.lastRunAt.ms
    decreases |es|
  {
    if es != [] {
      assert es[0] in es && NoSuccess(es[1..]);
      NotBeforeStamp(Step(rows, es[0], zone), es[1..], zone);
    }
  }

  /** The history of one scheduled success and what follows: the next attempt waits out the period. */
  lemma AttemptsAfterSuccess(rows: Rows, before: seq<Event>, at: int, since: seq<Event>, zone: Zone)
    requires Undisturbed(since, Run(rows, before, zone).frequency)
    ensures var stamped := Run(rows, before + [Succeed(at)], zone);
            forall t <- AttemptTimes(stamped, since, zone) :: t >= at + Period(Run(rows, before, zone).frequency)
  {
    RunConcat(rows, before, [Succeed(at)], zone);
    RunOfOne(Run(rows, before, zone), Succeed(at), zone);
    NoAttemptTooEarly(Run(rows, before + [Succeed(at)], zone), since, zone);
  }

  predicate PassedSince(stamp: Stamp, now: int, wait: int) {
    stamp.At? ==> now >= stamp.ms + wait
  }

  /**
   * What the user saves counts from the next check on: an attempt starts exactly if the schedule is enabled and, after at
   * most three failures in a row, an hour has passed since the last run, whatever the hour of the day; otherwise, if the
   * check falls into the chosen hour and the chosen period has passed.
   */
  lemma ScheduleIsObeyed(rows: Rows, enabled: bool, frequency: Frequency, hour: int, now: int, zone: Zone)
    ensures Attempts(Step(rows, Configure(enabled, frequency, hour), zone), Check(now), zone) <==>
              enabled && if FailedLately(rows) then PassedSince(rows.lastRunAt, now, 3_600_000)
                         else zone(now) == hour && PassedSince(rows.lastRunAt, now, Period(frequency))
    ensures forall jobs :: Claims(Advance(Live(rows, jobs), Reconfigure(enabled, frequency, hour), zone), CheckBegins(now), zone) <==>
              Attempts(Step(rows, Configure(enabled, frequency, hour), zone), Check(now), zone)
  {
  }
}
