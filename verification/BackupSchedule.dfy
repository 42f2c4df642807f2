/**
 * Scheduled backups: what a schedule does at each pass of the scheduler, above all
 * an on-change schedule, and how it counts failures
 * (apps/server/src/services/backup-schedule-service.ts,
 * apps/server/src/db/repositories/backup-schedules.ts). A pass over one schedule is
 * one step; what the pass finds out about the world is a parameter of it.
 */
module BackupSchedule {
  import opened Bytes
  import ScheduleTime

  const MINUTE_MS := 60_000

  datatype Result =
    | Queued | SkippedUnchanged | SkippedActive | SkippedDestination | WaitingQuiet
    | Completed | Failed | Cancelled | Paused | Error

  /** The stored row; times are milliseconds. */
  datatype Row = Row(
    enabled: bool, onChange: bool, skipIfUnchanged: bool, quietMs: int, maxWaitMs: int,
    nextRunAt: Option<int>, lastCheckedAt: Option<int>, lastOutcome: Option<Result>,
    failures: nat, pendingSince: Option<int>)

  datatype Config = Config(minIntervalMinutes: int, maxConsecutiveFailures: int)

  predicate ValidConfig(c: Config) { c.minIntervalMinutes >= 1 && c.maxConsecutiveFailures >= 1 }

  datatype Account = Gone | Healthy | NeedsReconnecting

  /**
   * What comes of queueing a run: it may throw before the run is there, or when a
   * write that follows fails, with the run already queued.
   */
  datatype Creation = Created | CreatedThenThrows | AlreadyActive | Invalid | Throws

  predicate Queues(creation: Creation) { creation.Created? || creation.CreatedThenThrows? }

  /**
   * What a pass finds: the next slot (none when the timing is no longer valid), the
   * bucket and the destination, the last write, whether objects need copying, and
   * what queueing a run would do.
   */
  datatype Look = Look(
    nextSlot: Option<int>, owned: bool, account: Account, lastWrite: Option<int>, work: bool, creation: Creation)

  // ---- One pass, as functions of the row

  function Outcome(r: Row, o: Result): Row { r.(lastOutcome := Some(o)) }

  function PauseRow(r: Row): Row { r.(enabled := false, lastOutcome := Some(Paused)) }

  function CountedFailure(c: Config, seen: Row, r: Row, o: Result): Row {
    var failures := seen.failures + 1;
    var counted := Outcome(r, o).(failures := failures);
    if failures >= c.maxConsecutiveFailures && seen.enabled then PauseRow(counted) else counted
  }

  /** The row after trying to queue a run, and whether one was queued. */
  function AfterQueueing(c: Config, seen: Row, r: Row, creation: Creation): (Row, bool) {
    match creation
    case Created => (Outcome(r, Queued), true)
    case CreatedThenThrows => (Outcome(r, Error), true)
    case AlreadyActive => (Outcome(r, SkippedActive), false)
    case Invalid => (CountedFailure(c, seen, r, SkippedDestination), false)
    case Throws => (Outcome(r, Error), false)
  }

  function FloorDiv(a: int, b: int): int
    requires b > 0
  {
    a / b
  }

  predicate MayHaveNewWork(c: Config, seen: Row, lastWrite: int, now: int)
    requires ValidConfig(c)
  {
    seen.lastCheckedAt.None? || lastWrite > seen.lastCheckedAt.value
    || FloorDiv(now, c.minIntervalMinutes * MINUTE_MS)
       != FloorDiv(seen.lastCheckedAt.value, c.minIntervalMinutes * MINUTE_MS)
  }

  predicate Quiet(r: Row, lastWrite: Option<int>, now: int) {
    lastWrite.None? || lastWrite.value <= now - r.quietMs
  }

  predicate Overdue(r: Row, pendingSince: int, now: int) { pendingSince <= now - r.maxWaitMs }

  /** When the changes a pass holds were first noticed, if it holds any. */
  function HeldSince(c: Config, seen: Row, look: Look, now: int): Option<int>
    requires ValidConfig(c)
  {
    if seen.pendingSince.Some? then seen.pendingSince
    else if look.lastWrite.Some? && MayHaveNewWork(c, seen, look.lastWrite.value, now) && look.work then Some(now)
    else None
  }

  function OnChange(c: Config, seen: Row, r: Row, look: Look, now: int): (Row, bool)
    requires ValidConfig(c)
  {
    var held := HeldSince(c, seen, look, now);
    if held.None? then (r, false)
    else
      var noted := r.(pendingSince := held);
      if !Quiet(seen, look.lastWrite, now) && !Overdue(seen, held.value, now) then (Outcome(noted, WaitingQuiet), false)
      else if !look.work then
        var cleared := r.(pendingSince := None);
        (if seen.lastOutcome == Some(WaitingQuiet) || seen.lastOutcome == Some(SkippedActive)
         then Outcome(cleared, SkippedUnchanged) else cleared, false)
      else if look.account.NeedsReconnecting? then (CountedFailure(c, seen, noted, SkippedDestination), false)
      else
        var (next, queued) := AfterQueueing(c, seen, noted, look.creation);
        (if look.creation.Created? then next.(pendingSince := None) else next, queued)
  }

  function Fired(c: Config, seen: Row, r: Row, look: Look, now: int): (Row, bool)
    requires ValidConfig(c)
  {
    if !look.owned || look.account.Gone? then (PauseRow(r), false)
    else if seen.onChange then OnChange(c, seen, r, look, now)
    else if look.account.NeedsReconnecting? then (CountedFailure(c, seen, r, SkippedDestination), false)
    else if seen.skipIfUnchanged && !look.work then (Outcome(r, SkippedUnchanged), false)
    else AfterQueueing(c, seen, r, look.creation)
  }

  predicate Due(r: Row, now: int) { r.enabled && r.nextRunAt.Some? && r.nextRunAt.value <= now }

  /** The condition of the UPDATE that takes a slot. */
  predicate Claimable(r: Row, expected: int) { r.enabled && r.nextRunAt == Some(expected) }

  /** The slot is taken: it moves on, and the look is dated. */
  function Claimed(r: Row, next: int, now: int): Row { r.(nextRunAt := Some(next), lastCheckedAt := Some(now)) }

  /** A pass of the scheduler over the schedule. */
  function Pass(c: Config, r: Row, look: Look, now: int): (Row, bool)
    requires ValidConfig(c)
  {
    if !Due(r, now) then (r, false)
    else if look.nextSlot.None? then (PauseRow(r), false)
    else Fired(c, r, Claimed(r, look.nextSlot.value, now), look, now)
  }

  // ---- How runs end, and edits

  datatype Ending = RunCompleted | RunCancelled | RunFailed

  /** `recordRunResult`, when a run the schedule queued ends. */
  function AfterRun(c: Config, r: Row, e: Ending): Row {
    match e
    case RunCompleted => Outcome(r, Completed).(failures := 0)
    case RunCancelled => Outcome(r, Cancelled)
    case RunFailed => CountedFailure(c, r, r, Failed)
  }

  /** `update`: switching on forgives the failures and forgets when changes started waiting. */
  function Edited(r: Row, enabled: bool, onChange: bool, skipIfUnchanged: bool, quietMs: int, maxWaitMs: int,
        next: Option<int>): Row {
    r.(enabled := enabled, onChange := onChange, skipIfUnchanged := skipIfUnchanged,
       quietMs := quietMs, maxWaitMs := maxWaitMs, nextRunAt := next,
       failures := if enabled && !r.enabled then 0 else r.failures,
       pendingSince := if onChange != r.onChange || (enabled && !r.enabled) then None else r.pendingSince)
  }

  // ---- The service

  class BackupScheduleService {
    const config: Config
    /** The schedule's row in the database. */
    var row: Row
    /** When its runs were queued. */
    ghost var queuedAt: seq<int>

    constructor (config: Config, row: Row)
      ensures this.config == config && this.row == row && queuedAt == []
    {
      this.config, this.row := config, row;
      queuedAt := [];
    }

    /** The conditional UPDATE; a slot that has been taken cannot be taken again. */
    method ClaimSlot(expected: int, next: int, now: int) returns (taken: bool)
      modifies this`row
      ensures taken <==> Claimable(old(row), expected)
      ensures row == if taken then Claimed(old(row), next, now) else old(row)
      ensures next != expected ==> !Claimable(row, expected)
    {
      taken := row.enabled && row.nextRunAt == Some(expected);
      if taken {
        row := row.(nextRunAt := Some(next), lastCheckedAt := Some(now));
      }
    }

    /**
     * Two passes that have read the same due row, one after the other: whatever their
     * clocks say, exactly the first takes the slot, because both next runs lie later.
     */
    method RacingPasses(z: ScheduleTime.Zone, timing: ScheduleTime.ScheduleTiming, first: int, second: int,
          next: int, other: int)
      returns (firstTakes: bool, secondTakes: bool)
      requires ScheduleTime.Normalized(timing) && ScheduleTime.Regular(z)
      requires ScheduleTime.NextRun(z, timing, first) == Some(next)
      requires ScheduleTime.NextRun(z, timing, second) == Some(other)
      requires Due(row, first) && Due(row, second)
      modifies this`row
      ensures firstTakes && !secondTakes
      ensures row == Claimed(old(row), next, first) && next > first
    {
      ScheduleTime.NextRunIsLater(z, timing, first);
      var slot := row.nextRunAt.value;
      firstTakes := ClaimSlot(slot, next, first);
      secondTakes := ClaimSlot(slot, other, second);
    }

    method RecordOutcome(o: Result)
      modifies this`row
      ensures row == Outcome(old(row), o)
    {
      row := row.(lastOutcome := Some(o));
    }

    method SetPendingSince(since: Option<int>)
      modifies this`row
      ensures row == old(row).(pendingSince := since)
    {
      row := row.(pendingSince := since);
    }

    method Pause()
      modifies this`row
      ensures row == PauseRow(old(row))
    {
      row := row.(enabled := false, lastOutcome := Some(Paused));
    }

    method CountFailure(schedule: Row, o: Result)
      modifies this`row
      ensures row == CountedFailure(config, schedule, old(row), o)
    {
      var failures := schedule.failures + 1;
      row := row.(lastOutcome := Some(o), failures := failures);
      if failures >= config.maxConsecutiveFailures && schedule.enabled {
        Pause();
      }
    }

    /** True when all went well; a throw ends the pass with the outcome that its catch block records. */
    method QueueRun(schedule: Row, creation: Creation, now: int) returns (queued: bool)
      modifies this`row, this`queuedAt
      ensures row == AfterQueueing(config, schedule, old(row), creation).0
      ensures queuedAt == old(queuedAt) + if AfterQueueing(config, schedule, old(row), creation).1 then [now] else []
      ensures queued <==> creation.Created?
    {
      queued := false;
      match creation {
        case Created =>
          RecordOutcome(Queued);
          queuedAt := queuedAt + [now];
          queued := true;
        case CreatedThenThrows =>
          queuedAt := queuedAt + [now];
          RecordOutcome(Error);
        case AlreadyActive => RecordOutcome(SkippedActive);
        case Invalid => CountFailure(schedule, SkippedDestination);
        case Throws => RecordOutcome(Error);
      }
    }

    method FireOnChange(schedule: Row, look: Look, now: int)
      requires ValidConfig(config) && row.pendingSince == schedule.pendingSince
      modifies this`row, this`queuedAt
      ensures row == OnChange(config, schedule, old(row), look, now).0
      ensures queuedAt == old(queuedAt) + if OnChange(config, schedule, old(row), look, now).1 then [now] else []
    {
      var pendingSince := schedule.pendingSince;
      var checked := false;
      if pendingSince.None? {
        if look.lastWrite.None? || !MayHaveNewWork(config, schedule, look.lastWrite.value, now) {
          return;
        }
        if !look.work {
          return;
        }
        pendingSince := Some(now);
        SetPendingSince(pendingSince);
        checked := true;
      }
      var quiet := look.lastWrite.None? || look.lastWrite.value <= now - schedule.quietMs;
      var overdue := pendingSince.value <= now - schedule.maxWaitMs;
      if !quiet && !overdue {
        RecordOutcome(WaitingQuiet);
        return;
      }
      if !checked && !look.work {
        SetPendingSince(None);
        if schedule.lastOutcome == Some(WaitingQuiet) || schedule.lastOutcome == Some(SkippedActive) {
          RecordOutcome(SkippedUnchanged);
        }
        return;
      }
      if look.account.NeedsReconnecting? {
        CountFailure(schedule, SkippedDestination);
        return;
      }
      var queued := QueueRun(schedule, look.creation, now);
      if queued {
        SetPendingSince(None);
      }
    }

    method Fire(schedule: Row, look: Look, now: int)
      requires ValidConfig(config) && row.pendingSince == schedule.pendingSince
      modifies this`row, this`queuedAt
      ensures row == Fired(config, schedule, old(row), look, now).0
      ensures queuedAt == old(queuedAt) + if Fired(config, schedule, old(row), look, now).1 then [now] else []
    {
      hide OnChange, AfterQueueing, CountedFailure;
      if !look.owned || look.account.Gone? {
        Pause();
      } else if schedule.onChange {
        FireOnChange(schedule, look, now);
      } else if look.account.NeedsReconnecting? {
        CountFailure(schedule, SkippedDestination);
      } else if schedule.skipIfUnchanged && !look.work {
        RecordOutcome(SkippedUnchanged);
      } else {
        var queued := QueueRun(schedule, look.creation, now);
      }
    }

    method RunDue(look: Look, now: int)
      requires ValidConfig(config)
      modifies this`row, this`queuedAt
      ensures row == Pass(config, old(row), look, now).0
      ensures queuedAt == old(queuedAt) + if Pass(config, old(row), look, now).1 then [now] else []
      ensures BelowLimit(config, old(row)) ==> BelowLimit(config, row)
    {
      hide Fired, BelowLimit;
      var schedule := row;
      if BelowLimit(config, row) {
        StepBelowLimit(config, row, Ticked(Tick(look, now)));
      }
      if !Due(schedule, now) {
        return;
      }
      if look.nextSlot.None? {
        Pause();
        return;
      }
      var taken := ClaimSlot(schedule.nextRunAt.value, look.nextSlot.value, now);
      if taken {
        Fire(schedule, look, now);
      }
    }

    /** Called by the worker when a run the schedule queued ends. */
    method RecordRunResult(ending: Ending)
      modifies this`row
      ensures row == AfterRun(config, old(row), ending)
      ensures BelowLimit(config, old(row)) ==> BelowLimit(config, row)
      ensures row.failures == match ending
                              case RunCompleted => 0
                              case RunCancelled => old(row).failures
                              case RunFailed => old(row).failures + 1
      ensures row.enabled != old(row).enabled ==>
                !row.enabled && ending.RunFailed? && row.failures >= config.maxConsecutiveFailures
      ensures row.pendingSince == old(row).pendingSince && row.nextRunAt == old(row).nextRunAt
    {
      match ending {
        case RunCompleted => row := row.(lastOutcome := Some(Completed), failures := 0);
        case RunCancelled => RecordOutcome(Cancelled);
        case RunFailed => CountFailure(row, Failed);
      }
    }

    /** The UPDATE behind an edit, whose CASEs read the row as it was. */
    method Update(enabled: bool, onChange: bool, skipIfUnchanged: bool, quietMs: int, maxWaitMs: int, next: Option<int>)
      modifies this`row
      ensures row == Edited(old(row), enabled, onChange, skipIfUnchanged, quietMs, maxWaitMs, next)
      ensures ValidConfig(config) && BelowLimit(config, old(row)) ==> BelowLimit(config, row)
      ensures enabled && !old(row).enabled ==> row.failures == 0 && row.pendingSince.None?
      ensures enabled && old(row).enabled ==> row.failures == old(row).failures
      ensures !enabled ==> row.failures == old(row).failures
      ensures onChange != old(row).onChange ==> row.pendingSince.None?
      ensures onChange == old(row).onChange && (enabled ==> old(row).enabled) ==>
                row.pendingSince == old(row).pendingSince
      ensures (row.enabled, row.onChange, row.skipIfUnchanged) == (enabled, onChange, skipIfUnchanged)
      ensures (row.quietMs, row.maxWaitMs, row.nextRunAt) == (quietMs, maxWaitMs, next)
      ensures row.lastOutcome == old(row).lastOutcome && row.lastCheckedAt == old(row).lastCheckedAt
    {
      var before := row;
      row := row.(onChange := onChange, skipIfUnchanged := skipIfUnchanged, quietMs := quietMs, maxWaitMs := maxWaitMs,
                  enabled := enabled, nextRunAt := next);
      if enabled && !before.enabled {
        row := row.(failures := 0, pendingSince := None);
      }
      if onChange != before.onChange {
        row := row.(pendingSince := None);
      }
    }
  }

  // ---- When a run is queued

  /** The pass gets as far as looking at the changes. */
  predicate Looks(r: Row, look: Look, now: int) {
    Due(r, now) && look.nextSlot.Some? && look.owned && !look.account.Gone?
  }

  /**
   * An on-change schedule queues a run in exactly these passes: it holds changes,
   * the bucket is quiet or they have waited the maximum, there is still something
   * to copy, and the run can start.
   */
  lemma QueuedExactly(c: Config, r: Row, look: Look, now: int)
    requires ValidConfig(c) && r.onChange
    ensures Pass(c, r, look, now).1 <==>
      && Looks(r, look, now) && HeldSince(c, r, look, now).Some?
      && (Quiet(r, look.lastWrite, now) || Overdue(r, HeldSince(c, r, look, now).value, now))
      && look.work && look.account.Healthy? && Queues(look.creation)
  {
    hide MayHaveNewWork;
  }

  /**
   * A schedule by the clock queues a run in exactly these passes: it gets as far as
   * looking, the destination is healthy, there is something to copy or it does not
   * mind, and the run can be created.
   */
  lemma TimedQueuedExactly(c: Config, r: Row, look: Look, now: int)
    requires ValidConfig(c) && !r.onChange
    ensures Pass(c, r, look, now).1 <==>
      && r.enabled && r.nextRunAt.Some? && r.nextRunAt.value <= now
      && look.nextSlot.Some? && look.owned && look.account.Healthy?
      && (r.skipIfUnchanged ==> look.work) && Queues(look.creation)
  {
  }

  /** The row as a pass that takes the slot leaves it before it fires. */
  function Taken(r: Row, look: Look, now: int): Row { r.(nextRunAt := look.nextSlot, lastCheckedAt := Some(now)) }

  /** A failure more, with its reason, or the pause that the last one allowed brings. */
  predicate FailedOnce(c: Config, r: Row, before: Row, next: Row) {
    && next.failures == r.failures + 1
    && next == before.(failures := next.failures, enabled := next.enabled, lastOutcome := next.lastOutcome)
    && if r.failures + 1 < c.maxConsecutiveFailures || !r.enabled
       then next.enabled == before.enabled && next.lastOutcome == Some(SkippedDestination)
       else !next.enabled && next.lastOutcome == Some(Paused)
  }

  /** All that a pass does to a schedule by the clock. */
  lemma TimedPassExactly(c: Config, r: Row, look: Look, now: int)
    requires ValidConfig(c) && !r.onChange
    ensures var next, taken := Pass(c, r, look, now).0, Taken(r, look, now);
            if !(r.enabled && r.nextRunAt.Some? && r.nextRunAt.value <= now) then next == r
            else if look.nextSlot.None? then next == r.(enabled := false, lastOutcome := Some(Paused))
            else if !look.owned || look.account.Gone?
            then next == taken.(enabled := false, lastOutcome := Some(Paused))
            else if look.account.NeedsReconnecting? || (look.creation.Invalid? && (r.skipIfUnchanged ==> look.work))
            then FailedOnce(c, r, taken, next)
            else next == taken.(lastOutcome := Some(
              if r.skipIfUnchanged && !look.work then SkippedUnchanged
              else if look.creation.Created? then Queued
              else if look.creation.AlreadyActive? then SkippedActive
              else Error))
  {
  }

  /** All that a pass does to an on-change schedule, from the time since when it holds changes, if it does. */
  lemma OnChangePassExactly(c: Config, r: Row, look: Look, now: int)
    requires ValidConfig(c) && r.onChange
    ensures var next, taken := Pass(c, r, look, now).0, Taken(r, look, now);
            if !(r.enabled && r.nextRunAt.Some? && r.nextRunAt.value <= now) then next == r
            else if look.nextSlot.None? then next == r.(enabled := false, lastOutcome := Some(Paused))
            else if !look.owned || look.account.Gone?
            then next == taken.(enabled := false, lastOutcome := Some(Paused))
            else
              var held := HeldSince(c, r, look, now);
              var noted := taken.(pendingSince := held);
              if held.None? then next == taken
              else if (look.lastWrite.Some? && look.lastWrite.value > now - r.quietMs)
                      && held.value > now - r.maxWaitMs
              then next == noted.(lastOutcome := Some(WaitingQuiet))
              else if !look.work then
                next == taken.(pendingSince := None, lastOutcome :=
                  if r.lastOutcome in {Some(WaitingQuiet), Some(SkippedActive)} then Some(SkippedUnchanged)
                  else r.lastOutcome)
              else if look.account.NeedsReconnecting? || look.creation.Invalid? then FailedOnce(c, r, noted, next)
              else match look.creation
                case Created => next == taken.(pendingSince := None, lastOutcome := Some(Queued))
                case AlreadyActive => next == noted.(lastOutcome := Some(SkippedActive))
                case _ => next == noted.(lastOutcome := Some(Error))
  {
    hide MayHaveNewWork;
  }

  /** When a pass looks for new changes: at first, after a write, and once in each period of whole minutes. */
  lemma HeldSinceExactly(c: Config, r: Row, look: Look, now: int)
    requires ValidConfig(c)
    ensures var period := c.minIntervalMinutes * 60_000;
            HeldSince(c, r, look, now) ==
              if r.pendingSince.Some? then r.pendingSince
              else if look.work && look.lastWrite.Some?
                      && (r.lastCheckedAt.None? || look.lastWrite.value > r.lastCheckedAt.value
                          || !exists k {:trigger k * period} ::
                               k * period <= now < k * period + period
                               && k * period <= r.lastCheckedAt.value < k * period + period)
              then Some(now) else None
  {
    var period := c.minIntervalMinutes * 60_000;
    if r.lastCheckedAt.Some? {
      var was := r.lastCheckedAt.value;
      FloorBounds(now, period);
      FloorBounds(was, period);
      if k :| k * period <= now < k * period + period && k * period <= was < k * period + period {
        FloorIs(now, period, k);
        FloorIs(was, period, k);
      }
    }
  }

  lemma FloorBounds(a: int, b: int)
    requires b > 0
    ensures FloorDiv(a, b) * b <= a < FloorDiv(a, b) * b + b
  {
  }

  lemma FloorIs(a: int, b: int, k: int)
    requires b > 0 && k * b <= a < k * b + b
    ensures FloorDiv(a, b) == k
  {
    FloorBounds(a, b);
    var d := FloorDiv(a, b) - k;
    assert -b < d * b < b;
  }

  /** How the end of a run changes the row. */
  lemma EndExactly(c: Config, r: Row, ending: Ending)
    ensures var next := AfterRun(c, r, ending);
            && next == r.(lastOutcome := next.lastOutcome, failures := next.failures, enabled := next.enabled)
            && match ending
               case RunCompleted =>
                 next.failures == 0 && next.enabled == r.enabled && next.lastOutcome == Some(Completed)
               case RunCancelled =>
                 next.failures == r.failures && next.enabled == r.enabled && next.lastOutcome == Some(Cancelled)
               case RunFailed =>
                 && next.failures == r.failures + 1
                 && if r.enabled && r.failures + 1 >= c.maxConsecutiveFailures
                    then !next.enabled && next.lastOutcome == Some(Paused)
                    else next.enabled == r.enabled && next.lastOutcome == Some(Failed)
  {
  }

  /** While the bucket is being written to, nothing is queued before the maximum wait. */
  lemma NothingQueuedWhileBusy(c: Config, r: Row, look: Look, now: int)
    requires ValidConfig(c) && r.onChange && r.maxWaitMs >= 1
    requires look.lastWrite.Some? && look.lastWrite.value > now - r.quietMs
    requires r.pendingSince.Some? ==> r.pendingSince.value > now - r.maxWaitMs
    ensures !Pass(c, r, look, now).1
  {
    hide MayHaveNewWork;
    QueuedExactly(c, r, look, now);
  }

  /** What a pass does to the time since when changes wait. */
  lemma PendingMoves(c: Config, r: Row, look: Look, now: int)
    requires ValidConfig(c) && r.onChange
    ensures var (next, queued) := Pass(c, r, look, now);
            && next.onChange && next.quietMs == r.quietMs && next.maxWaitMs == r.maxWaitMs
            && (queued && look.creation.Created? ==> next.pendingSince.None?)
            && (r.pendingSince.Some? && !queued && look.work ==> next.pendingSince == r.pendingSince)
            && (r.pendingSince.Some? && next.pendingSince != r.pendingSince ==> next.pendingSince.None?)
            && (r.pendingSince.None? && next.pendingSince.Some? ==> next.pendingSince == Some(now) && look.work)
  {
    hide MayHaveNewWork;
  }

  // ---- Runs

  datatype Tick = Tick(look: Look, now: int)

  datatype Event =
    | Ticked(tick: Tick)
    | Ended(ending: Ending)
    | Edit(enabled: bool, onChange: bool, skipIfUnchanged: bool, quietMs: int, maxWaitMs: int, next: Option<int>)
    | RunNow

  function Step(c: Config, r: Row, e: Event): Row
    requires ValidConfig(c)
  {
    match e
    case Ticked(t) => Pass(c, r, t.look, t.now).0
    case Ended(ending) => AfterRun(c, r, ending)
    case Edit(enabled, onChange, skip, quietMs, maxWaitMs, next) =>
      Edited(r, enabled, onChange, skip, quietMs, maxWaitMs, next)
    case RunNow => Outcome(r, Queued)
  }

  function EndOf(c: Config, r: Row, events: seq<Event>): Row
    requires ValidConfig(c)
    decreases |events|
  {
    if events == [] then r else EndOf(c, Step(c, r, events[0]), events[1..])
  }

  /** How many runs the passes among the events queue. */
  function QueuedIn(c: Config, r: Row, events: seq<Event>): nat
    requires ValidConfig(c)
    decreases |events|
  {
    if events == [] then 0
    else
      (if events[0].Ticked? && Pass(c, r, events[0].tick.look, events[0].tick.now).1 then 1 else 0)
      + QueuedIn(c, Step(c, r, events[0]), events[1..])
  }

  predicate NoEdits(events: seq<Event>) { forall e :: e in events ==> !e.Edit? }

  predicate WorkThroughout(events: seq<Event>) { forall e :: e in events && e.Ticked? ==> e.tick.look.work }

  /** What an event that is no pass and no edit leaves of the waiting changes and of how they wait. */
  lemma OthersLeavePending(c: Config, r: Row, e: Event)
    requires ValidConfig(c) && !e.Ticked? && !e.Edit?
    ensures var next := Step(c, r, e);
            && next.onChange == r.onChange && next.pendingSince == r.pendingSince
            && next.quietMs == r.quietMs && next.maxWaitMs == r.maxWaitMs
  {
  }

  /**
   * The time stays fixed over any passes, ends of runs and runs by hand, until a
   * pass queues a run or finds nothing left to copy.
   */
  lemma {:induction false} PendingStays(c: Config, r: Row, events: seq<Event>)
    requires ValidConfig(c) && r.onChange && r.pendingSince.Some?
    requires NoEdits(events) && WorkThroughout(events) && QueuedIn(c, r, events) == 0
    ensures var e := EndOf(c, r, events);
            e.onChange && e.pendingSince == r.pendingSince && e.quietMs == r.quietMs && e.maxWaitMs == r.maxWaitMs
    decreases |events|
  {
    hide Pass, AfterRun, Edited;
    if events != [] {
      var e := events[0];
      assert e in events;
      match e {
        case Ticked(t) => PendingMoves(c, r, t.look, t.now);
        case _ => OthersLeavePending(c, r, e);
      }
      PendingStays(c, Step(c, r, e), events[1..]);
    }
  }

  /**
   * The maximum wait holds: whatever happened without a run being queued or the
   * schedule edited, the first pass past the wait that can start a run queues one.
   */
  lemma MaximumWaitHolds(c: Config, r: Row, events: seq<Event>, last: Tick)
    requires ValidConfig(c) && r.onChange && r.pendingSince.Some?
    requires NoEdits(events) && WorkThroughout(events) && QueuedIn(c, r, events) == 0
    requires Looks(EndOf(c, r, events), last.look, last.now) && last.look.work
    requires last.look.account.Healthy? && Queues(last.look.creation)
    requires last.now >= r.pendingSince.value + r.maxWaitMs
    ensures Pass(c, EndOf(c, r, events), last.look, last.now).1
  {
    hide Pass, MayHaveNewWork, EndOf, Looks;
    PendingStays(c, r, events);
    QueuedExactly(c, EndOf(c, r, events), last.look, last.now);
  }

  predicate BusyPass(r: Row, t: Tick, since: int) {
    t.look.lastWrite.Some? && t.look.lastWrite.value > t.now - r.quietMs && since <= t.now < since + r.maxWaitMs
  }

  predicate BusyThroughout(r: Row, events: seq<Event>, since: int) {
    forall e :: e in events && e.Ticked? ==> BusyPass(r, e.tick, since)
  }

  /**
   * A bulk upload is copied whole: while writes keep coming and the wait is not
   * over, no pass queues a run, whatever runs end or are started by hand.
   */
  lemma {:induction false} BulkUploadWaits(c: Config, r: Row, events: seq<Event>, since: int)
    requires ValidConfig(c) && r.onChange && r.maxWaitMs >= 1 && NoEdits(events)
    requires (r.pendingSince.Some? ==> r.pendingSince.value >= since) && BusyThroughout(r, events, since)
    ensures QueuedIn(c, r, events) == 0
    decreases |events|
  {
    hide Pass, AfterRun, Edited;
    if events != [] {
      var e := events[0];
      assert e in events;
      match e {
        case Ticked(t) =>
          assert BusyPass(r, t, since);
          NothingQueuedWhileBusy(c, r, t.look, t.now);
          PendingMoves(c, r, t.look, t.now);
        case _ => OthersLeavePending(c, r, e);
      }
      BulkUploadWaits(c, Step(c, r, e), events[1..], since);
    }
  }

  // ---- Noticing

  /** Each look is dated, so the next one knows what period it fell in. */
  lemma LooksAreDated(c: Config, r: Row, look: Look, now: int)
    requires ValidConfig(c) && Due(r, now) && look.nextSlot.Some?
    ensures Pass(c, r, look, now).0.lastCheckedAt == Some(now)
  {
    hide MayHaveNewWork;
  }

  predicate SamePeriod(c: Config, a: int, b: int)
    requires ValidConfig(c)
  {
    FloorDiv(a, c.minIntervalMinutes * MINUTE_MS) == FloorDiv(b, c.minIntervalMinutes * MINUTE_MS)
  }

  /**
   * Work in a bucket that has been written to is noticed by exactly these passes:
   * the first, one after a newer write, and the first in a new period. A noticed
   * change is held from then on or copied at once.
   */
  lemma NoticedExactly(c: Config, r: Row, look: Look, now: int)
    requires ValidConfig(c) && r.onChange && r.pendingSince.None? && Looks(r, look, now)
    requires look.work && look.lastWrite.Some?
    ensures var (next, queued) := Pass(c, r, look, now);
            (queued || next.pendingSince == Some(now)) <==>
            r.lastCheckedAt.None? || look.lastWrite.value > r.lastCheckedAt.value
            || !SamePeriod(c, now, r.lastCheckedAt.value)
    ensures Pass(c, r, look, now).0.pendingSince.None? || Pass(c, r, look, now).0.pendingSince == Some(now)
  {
  }

  /**
   * Over two passes that look: work that the first left unnoticed is noticed by the
   * second if it falls in a new period, whatever the clock of the writes says.
   */
  lemma NoticedInNewPeriod(c: Config, r: Row, before: Tick, after: Tick)
    requires ValidConfig(c) && r.onChange && Due(r, before.now) && before.look.nextSlot.Some?
    requires var held := Pass(c, r, before.look, before.now).0;
             held.pendingSince.None? && Looks(held, after.look, after.now)
    requires after.look.work && after.look.lastWrite.Some? && !SamePeriod(c, after.now, before.now)
    ensures var (next, queued) := Pass(c, Pass(c, r, before.look, before.now).0, after.look, after.now);
            queued || next.pendingSince == Some(after.now)
  {
    hide Pass, MayHaveNewWork, Looks, SamePeriod;
    LooksAreDated(c, r, before.look, before.now);
    PendingMoves(c, r, before.look, before.now);
    NoticedExactly(c, Pass(c, r, before.look, before.now).0, after.look, after.now);
  }

  // ---- Slots

  /**
   * A due pass moves the slot to a time after now, whatever normalized timing and
   * zone gave it, and no pass before that time does anything.
   */
  lemma SlotClaimedOnce(c: Config, r: Row, look: Look, z: ScheduleTime.Zone,
        timing: ScheduleTime.ScheduleTiming, now: int, other: Look, later: int)
    requires ValidConfig(c) && Due(r, now)
    requires ScheduleTime.Normalized(timing) && ScheduleTime.Regular(z)
    requires look.nextSlot == ScheduleTime.NextRun(z, timing, now)
    ensures var next := Pass(c, r, look, now).0;
            && next.nextRunAt.Some? && next.nextRunAt.value > now && next.nextRunAt != r.nextRunAt
            && (later < next.nextRunAt.value ==> Pass(c, next, other, later) == (next, false))
  {
    hide MayHaveNewWork;
    ScheduleTime.NextRunIsLater(z, timing, now);
  }

  // ---- Failures

  predicate BelowLimit(c: Config, r: Row) { r.enabled ==> r.failures < c.maxConsecutiveFailures }

  lemma StepBelowLimit(c: Config, r: Row, e: Event)
    requires ValidConfig(c) && BelowLimit(c, r)
    ensures BelowLimit(c, Step(c, r, e))
  {
    hide MayHaveNewWork, Quiet, Overdue;
  }

  /** In every run of passes, results, edits and runs by hand, an enabled schedule is below the failure limit. */
  lemma {:induction false} EnabledBelowLimit(c: Config, r: Row, events: seq<Event>)
    requires ValidConfig(c) && BelowLimit(c, r)
    ensures BelowLimit(c, EndOf(c, r, events))
    decreases |events|
  {
    hide Step;
    if events != [] {
      StepBelowLimit(c, r, events[0]);
      EnabledBelowLimit(c, Step(c, r, events[0]), events[1..]);
    }
  }

  /** Events that count a failure, or leave the count alone. */
  predicate Counts(c: Config, r: Row, e: Event)
    requires ValidConfig(c)
  {
    Step(c, r, e).failures == r.failures + 1
  }

  predicate AllFail(c: Config, r: Row, events: seq<Event>)
    requires ValidConfig(c)
    decreases |events|
  {
    events == [] || (Counts(c, r, events[0]) && !events[0].Edit? && AllFail(c, Step(c, r, events[0]), events[1..]))
  }

  lemma CountingPauses(c: Config, r: Row, e: Event)
    requires ValidConfig(c) && Counts(c, r, e) && !e.Edit?
    ensures var next := Step(c, r, e);
            && (next.enabled ==> r.enabled)
            && (r.failures + 1 >= c.maxConsecutiveFailures ==> !next.enabled)
  {
    hide MayHaveNewWork, Quiet, Overdue;
  }

  /** A schedule that keeps failing is paused at the limit, and not before switched on again. */
  lemma {:induction false} PausedAtLimit(c: Config, r: Row, events: seq<Event>)
    requires ValidConfig(c) && AllFail(c, r, events) && BelowLimit(c, r)
    ensures EndOf(c, r, events).failures == r.failures + |events|
    ensures events != [] && r.failures + |events| >= c.maxConsecutiveFailures ==> !EndOf(c, r, events).enabled
    decreases |events|
  {
    hide Step;
    if events != [] {
      StepBelowLimit(c, r, events[0]);
      CountingPauses(c, r, events[0]);
      PausedAtLimit(c, Step(c, r, events[0]), events[1..]);
      StaysOff(c, Step(c, r, events[0]), events[1..]);
    }
  }

  lemma {:induction false} StaysOff(c: Config, r: Row, events: seq<Event>)
    requires ValidConfig(c) && AllFail(c, r, events)
    ensures !r.enabled ==> !EndOf(c, r, events).enabled
    decreases |events|
  {
    hide Step;
    if events != [] {
      CountingPauses(c, r, events[0]);
      StaysOff(c, Step(c, r, events[0]), events[1..]);
    }
  }

  /** A pass counts a failure only when a run was due and could not start. */
  lemma FailureMeansBlocked(c: Config, r: Row, look: Look, now: int)
    requires ValidConfig(c) && r.onChange
    ensures Pass(c, r, look, now).0.failures != r.failures ==>
      && Looks(r, look, now) && look.work && HeldSince(c, r, look, now).Some?
      && (Quiet(r, look.lastWrite, now) || Overdue(r, HeldSince(c, r, look, now).value, now))
      && (look.account.NeedsReconnecting? || look.creation.Invalid?)
      && Pass(c, r, look, now).0.pendingSince == HeldSince(c, r, look, now)
  {
    hide MayHaveNewWork, Quiet, Overdue;
  }
}
