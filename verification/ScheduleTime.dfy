/**
 * When a backup schedule falls due (apps/server/src/backup/schedule-time.ts). A
 * time zone is a function from instants to offsets; wall-clock times are
 * milliseconds since the epoch on the zone's own clock, so a calendar date is a
 * whole number of days.
 */
module ScheduleTime {
  import opened Bytes
  import opened Digits

  const SECOND: int := 1000
  const MINUTE: int := 60_000
  const HOUR: int := 3_600_000
  const DAY: int := 86_400_000
  /** How far either side of a wall-clock time the offsets are sampled: a day and a half. */
  const REACH: int := 129_600_000

  /** How far the zone's clock is ahead of UTC at an instant. */
  type Zone = int -> int

  function FloorTo(x: int, unit: int): int
    requires unit > 0
  {
    x - x % unit
  }

  /** What the zone's clock shows at an instant. */
  function Local(z: Zone, t: int): int { t + z(t) }

  function DateOf(local: int): int { local / DAY }

  /** The offset as the formatter's whole seconds give it. */
  function OffsetAt(z: Zone, t: int): int {
    FloorTo(Local(z, t), SECOND) - FloorTo(t, SECOND)
  }

  /** The zone's clock shows the minute that starts at wall-clock time w. */
  predicate Shows(z: Zone, t: int, w: int) {
    FloorTo(Local(z, t), MINUTE) == w
  }

  // ---- A wall-clock time as an instant

  /** `zonedTimeToInstant` for the wall-clock minute w. */
  function ZonedTime(z: Zone, w: int): int {
    var before := OffsetAt(z, w - REACH);
    var after := OffsetAt(z, w + REACH);
    var first := if before >= after then w - before else w - after;
    var second := if before >= after then w - after else w - before;
    if Shows(z, first, w) then first
    else if Shows(z, second, w) then second
    else w - before
  }

  /**
   * The least instant at which the zone's clock reads w; when w was skipped by a
   * forward jump, the instant that reads w plus the size of the jump.
   */
  ghost predicate FirstReading(z: Zone, w: int, r: int) {
    if exists t :: Local(z, t) == w
    then Local(z, r) == w && forall t :: Local(z, t) == w ==> r <= t
    else
      var jump := z(w + REACH) - z(w - REACH);
      jump > 0 && Local(z, r) == w + jump && z(r) == z(w + REACH)
  }

  method ZonedTimeToInstant(z: Zone, w: int) returns (instant: int)
    ensures instant == ZonedTime(z, w)
    ensures WholeMinutes(z) && OneChange(z, w) && w % MINUTE == 0 ==> FirstReading(z, w, instant)
  {
    hide FirstReading, WholeMinutes, OneChange;
    if WholeMinutes(z) && OneChange(z, w) && w % MINUTE == 0 {
      ZonedTimeSharp(z, w);
    }
    var before := OffsetAt(z, w - REACH);
    var after := OffsetAt(z, w + REACH);
    var candidates := if before == after then [w - before]
                      else if before > after then [w - before, w - after]
                      else [w - after, w - before];
    for i := 0 to |candidates|
      invariant forall k :: 0 <= k < i ==> !Shows(z, candidates[k], w)
    {
      assert i == 1 ==> !Shows(z, candidates[0], w);
      if Shows(z, candidates[i], w) {
        return candidates[i];
      }
    }
    assert !Shows(z, candidates[0], w) && !Shows(z, candidates[|candidates| - 1], w);
    return w - before;
  }

  /** The answer goes by one of two offsets: those a day and a half before and after. */
  lemma SampledOffsets(z: Zone, w: int)
    ensures var r := ZonedTime(z, w);
            r == w - OffsetAt(z, w - 36 * 3_600_000) || r == w - OffsetAt(z, w + 36 * 3_600_000)
  {
  }

  /** Whole-minute offsets of at most fourteen hours. */
  ghost predicate WholeMinutes(z: Zone) {
    forall t: int :: z(t) % MINUTE == 0 && -14 * HOUR <= z(t) <= 14 * HOUR
  }

  /** Around w the offset changes at most once, at T. */
  ghost predicate ChangesAt(z: Zone, w: int, T: int) {
    && (forall t: int :: w - REACH <= t < T && t <= w + REACH ==> z(t) == z(w - REACH))
    && (forall t: int :: T <= t <= w + REACH && w - REACH <= t ==> z(t) == z(w + REACH))
  }

  ghost predicate OneChange(z: Zone, w: int) {
    exists T :: ChangesAt(z, w, T)
  }

  lemma WholeOffset(z: Zone, t: int)
    requires WholeMinutes(z)
    ensures OffsetAt(z, t) == z(t)
  {
    WholeSeconds(t, z(t));
  }

  lemma WholeSeconds(t: int, shift: int)
    requires shift % MINUTE == 0
    ensures FloorTo(t + shift, SECOND) == FloorTo(t, SECOND) + shift
  {
    assert shift == shift / MINUTE * MINUTE;
    assert shift % SECOND == 0;
  }

  lemma FloorMinute(x: int, shift: int)
    requires shift % MINUTE == 0
    ensures FloorTo(x, MINUTE) % MINUTE == 0 && FloorTo(x, MINUTE) <= x < FloorTo(x, MINUTE) + MINUTE
    ensures FloorTo(x + shift, MINUTE) == FloorTo(x, MINUTE) + shift
  {
  }

  /** An instant shows w exactly when its whole minute reads w sharp. */
  lemma ShowsWholeMinute(z: Zone, t: int, w: int)
    requires WholeMinutes(z)
    ensures Shows(z, t, w) <==> FloorTo(t, MINUTE) + z(t) == w
  {
    FloorMinute(t, z(t));
  }

  /** On a whole-minute zone, a candidate shows w exactly when its clock reads w sharp. */
  lemma ShowsSharp(z: Zone, w: int, offset: int)
    requires WholeMinutes(z) && w % MINUTE == 0 && offset % MINUTE == 0
    ensures Shows(z, w - offset, w) <==> z(w - offset) == offset
  {
    var t := w - offset;
    assert z(t) % MINUTE == 0;
    assert Local(z, t) % MINUTE == 0;
  }

  lemma ZonedTimeSharp(z: Zone, w: int)
    requires WholeMinutes(z) && OneChange(z, w) && w % MINUTE == 0
    ensures FirstReading(z, w, ZonedTime(z, w))
    ensures w - 14 * HOUR <= ZonedTime(z, w) <= w + 14 * HOUR
  {
    var before, after := z(w - REACH), z(w + REACH);
    WholeOffset(z, w - REACH);
    WholeOffset(z, w + REACH);
    ShowsSharp(z, w, before);
    ShowsSharp(z, w, after);
    var T :| ChangesAt(z, w, T);
    var r := ZonedTime(z, w);
    assert z(w - before) == before || z(w - before) == after;
    assert z(w - after) == before || z(w - after) == after;
    forall t | Local(z, t) == w
      ensures r <= t && Local(z, r) == w
    {
      assert -14 * HOUR <= z(t) <= 14 * HOUR;
      assert z(t) == before || z(t) == after;
    }
  }

  /**
   * At the clock's own resolution, minutes, the same holds when the change falls
   * on a whole minute.
   */
  lemma ZonedTimeShows(z: Zone, w: int, T: int)
    requires WholeMinutes(z) && ChangesAt(z, w, T) && T % MINUTE == 0 && w % MINUTE == 0
    requires exists t :: Shows(z, t, w)
    ensures var r := ZonedTime(z, w);
            Shows(z, r, w) && forall t :: Shows(z, t, w) ==> r <= t
  {
    hide FloorTo;
    ZonedTimeSharp(z, w);
    forall t | Shows(z, t, w)
      ensures Local(z, FloorTo(t, MINUTE)) == w && FloorTo(t, MINUTE) <= t
    {
      FloorWithinChange(z, w, T, t);
    }
    var t :| Shows(z, t, w);
    assert Local(z, FloorTo(t, MINUTE)) == w;
    var r := ZonedTime(z, w);
    SharpShows(z, r, w);
  }

  lemma SharpShows(z: Zone, t: int, w: int)
    requires Local(z, t) == w && w % MINUTE == 0
    ensures Shows(z, t, w)
  {
  }

  lemma FloorWithinChange(z: Zone, w: int, T: int, t: int)
    requires WholeMinutes(z) && ChangesAt(z, w, T) && T % MINUTE == 0
    requires Shows(z, t, w)
    ensures Local(z, FloorTo(t, MINUTE)) == w && FloorTo(t, MINUTE) <= t
  {
    hide FloorTo;
    FloorMinute(t, 0);
    ShowsWholeMinute(z, t, w);
    assert -14 * HOUR <= z(t) <= 14 * HOUR;
    var s := FloorTo(t, MINUTE);
    SameSide(s, t, T);
    assert z(s) == z(t);
  }

  lemma SameSide(s: int, t: int, T: int)
    requires s % MINUTE == 0 && s <= t < s + MINUTE && T % MINUTE == 0
    ensures s < T <==> t < T
  {
  }

  /** A zone that changes once, from a to b at T. */
  function OnceChanging(a: int, b: int, T: int): Zone {
    t => if t < T then a else b
  }

  /**
   * Exactly when the minute reading is right for every wall-clock minute of such a
   * zone: when the jump is backward, or falls on a whole minute. A forward jump
   * within a minute leaves a minute that instants show but no candidate does.
   */
  lemma MinuteReadingExact(a: int, b: int, T: int)
    requires WholeMinutes(OnceChanging(a, b, T))
    ensures var z := OnceChanging(a, b, T);
            (forall w {:trigger ZonedTime(z, w)} :: w % MINUTE == 0 && (exists t :: Shows(z, t, w)) ==>
               Shows(z, ZonedTime(z, w), w))
            <==> b <= a || T % MINUTE == 0
  {
    hide FloorTo, ZonedTime;
    var z := OnceChanging(a, b, T);
    if b <= a || T % MINUTE == 0 {
      forall w | w % MINUTE == 0 && exists t :: Shows(z, t, w)
        ensures Shows(z, ZonedTime(z, w), w)
      {
        OnceChangingMinute(a, b, T, w);
      }
    } else {
      var w := FloorTo(T + b, MINUTE);
      FloorMinute(T + b, 0);
      assert z(T) == b;
      assert Shows(z, T, w);
      SkippedWithinMinute(a, b, T, w);
      assert !Shows(z, ZonedTime(z, w), w);
    }
  }

  lemma OnceChangingMinute(a: int, b: int, T: int, w: int)
    requires WholeMinutes(OnceChanging(a, b, T)) && w % MINUTE == 0
    requires b <= a || T % MINUTE == 0
    requires exists t :: Shows(OnceChanging(a, b, T), t, w)
    ensures Shows(OnceChanging(a, b, T), ZonedTime(OnceChanging(a, b, T), w), w)
  {
    hide FloorTo, ZonedTime, Shows;
    var z := OnceChanging(a, b, T);
    assert z(T - 1) == a && z(T) == b;
    assert ChangesAt(z, w, T);
    if b > a {
      ZonedTimeShows(z, w, T);
    } else {
      var t :| Shows(z, t, w);
      ShowsWholeMinute(z, t, w);
      FloorMinute(t, 0);
      ZonedTimeSharp(z, w);
      if w - a < T {
        assert Local(z, w - a) == w;
      } else {
        assert Local(z, w - b) == w;
      }
      SharpShows(z, ZonedTime(z, w), w);
    }
  }

  lemma SkippedWithinMinute(a: int, b: int, T: int, w: int)
    requires WholeMinutes(OnceChanging(a, b, T)) && b > a && T % MINUTE != 0
    requires w == FloorTo(T + b, MINUTE)
    ensures !Shows(OnceChanging(a, b, T), ZonedTime(OnceChanging(a, b, T), w), w)
  {
    hide ZonedTime;
    var z := OnceChanging(a, b, T);
    assert z(T - 1) == a && z(T) == b;
    assert a % MINUTE == 0 && b % MINUTE == 0;
    FloorMinute(T, b);
    assert T - MINUTE < FloorTo(T, MINUTE) < T;
    assert w - b < T <= w - a;
    assert ChangesAt(z, w, T);
    assert forall t :: Local(z, t) != w;
    ZonedTimeSharp(z, w);
    var r := ZonedTime(z, w);
    assert Local(z, r) == w + (b - a);
    FloorMinute(w, b - a);
    assert FloorTo(w, MINUTE) == w;
  }

  // ---- Timings

  datatype Frequency = IntervalEvery | Daily | Weekly | OnChange

  datatype ScheduleTiming = ScheduleTiming(
    frequency: Frequency,
    intervalMinutes: Option<int>,
    timeOfDay: Option<string>,
    daysOfWeek: Option<seq<int>>,
    timezone: string,
    quietMinutes: Option<int>,
    maxWaitMinutes: Option<int>)

  const MAX_INTERVAL_MINUTES: int := 10_080
  const MAX_QUIET_MINUTES: int := 1_440
  const MAX_WAIT_MINUTES: int := 10_080
  const DEFAULT_QUIET_MINUTES: int := 10
  const DEFAULT_MAX_WAIT_MINUTES: int := 360

  /** "HH:MM" on a 24-hour clock. */
  predicate IsTimeOfDay(s: string) {
    && |s| == 5 && s[2] == ':'
    && IsDigit(s[0]) && IsDigit(s[1]) && IsDigit(s[3]) && IsDigit(s[4])
    && DigitValue(s[0]) * 10 + DigitValue(s[1]) <= 23
    && s[3] <= '5'
  }

  /** The time of day in milliseconds since midnight. */
  function TimeOfDay(s: string): (ms: int)
    requires IsTimeOfDay(s)
    ensures 0 <= ms < DAY && ms % MINUTE == 0
  {
    (DigitValue(s[0]) * 10 + DigitValue(s[1])) * HOUR + (DigitValue(s[3]) * 10 + DigitValue(s[4])) * MINUTE
  }

  predicate IsoDays(days: seq<int>) { forall d :: d in days ==> 1 <= d <= 7 }

  /** The ISO weekdays listed, each once and in order. */
  function SortedDays(days: seq<int>): (r: seq<int>)
    ensures forall d :: d in r <==> d in days && 1 <= d <= 7
    ensures forall i, j :: 0 <= i < j < |r| ==> r[i] < r[j]
  {
    Listed(days, 7)
  }

  function Listed(days: seq<int>, upTo: nat): (r: seq<int>)
    ensures forall d :: d in r <==> d in days && 1 <= d <= upTo
    ensures forall i, j :: 0 <= i < j < |r| ==> r[i] < r[j]
    ensures forall i :: 0 <= i < |r| ==> r[i] <= upTo
  {
    if upTo == 0 then [] else Listed(days, upTo - 1) + if upTo in days then [upTo] else []
  }

  /** The timing in normal form, in which unused fields are empty, or None if it is refused. */
  function NormalizeTiming(validZone: string -> bool, input: ScheduleTiming, minIntervalMinutes: int,
                           allowOnChange: bool): Option<ScheduleTiming>
  {
    var unused := ScheduleTiming(input.frequency, None, None, None, input.timezone, None, None);
    if !validZone(input.timezone) then None
    else match input.frequency
         case IntervalEvery =>
           if input.intervalMinutes.None? || input.intervalMinutes.value < minIntervalMinutes
              || input.intervalMinutes.value > MAX_INTERVAL_MINUTES then None
           else Some(unused.(intervalMinutes := input.intervalMinutes))
         case OnChange =>
           if !allowOnChange then None
           else
             var quiet := if input.quietMinutes.Some? then input.quietMinutes.value else DEFAULT_QUIET_MINUTES;
             if quiet < 1 || quiet > MAX_QUIET_MINUTES then None
             else
               var maxWait := if input.maxWaitMinutes.Some? then input.maxWaitMinutes.value
                              else if quiet > DEFAULT_MAX_WAIT_MINUTES then quiet else DEFAULT_MAX_WAIT_MINUTES;
               if maxWait < quiet || maxWait > MAX_WAIT_MINUTES then None
               else Some(unused.(quietMinutes := Some(quiet), maxWaitMinutes := Some(maxWait)))
         case Daily =>
           if input.timeOfDay.None? || !IsTimeOfDay(input.timeOfDay.value) then None
           else Some(unused.(timeOfDay := input.timeOfDay))
         case Weekly =>
           if input.timeOfDay.None? || !IsTimeOfDay(input.timeOfDay.value) then None
           else
             var days := if input.daysOfWeek.Some? then input.daysOfWeek.value else [];
             if days == [] || !IsoDays(days) then None
             else Some(unused.(timeOfDay := input.timeOfDay, daysOfWeek := Some(SortedDays(days))))
  }

  /** What scheduling may rely on. */
  predicate Normalized(timing: ScheduleTiming) {
    match timing.frequency
    case IntervalEvery => timing.intervalMinutes.Some? && timing.intervalMinutes.value > 0
    case OnChange =>
      && timing.quietMinutes.Some? && timing.maxWaitMinutes.Some?
      && 1 <= timing.quietMinutes.value <= timing.maxWaitMinutes.value
    case Daily => timing.timeOfDay.Some? && IsTimeOfDay(timing.timeOfDay.value)
    case Weekly =>
      && timing.timeOfDay.Some? && IsTimeOfDay(timing.timeOfDay.value)
      && timing.daysOfWeek.Some? && exists d :: 1 <= d <= 7 && d in timing.daysOfWeek.value
  }

  /** Normalizing gives a normalized timing of the same frequency, and changes nothing the second time. */
  lemma NormalizeNormalizes(validZone: string -> bool, input: ScheduleTiming, minIntervalMinutes: int,
        allowOnChange: bool)
    requires minIntervalMinutes > 0
    ensures var r := NormalizeTiming(validZone, input, minIntervalMinutes, allowOnChange);
            r.Some? ==>
              && Normalized(r.value) && r.value.frequency == input.frequency
              && (r.value.frequency == OnChange ==> allowOnChange)
              && NormalizeTiming(validZone, r.value, minIntervalMinutes, allowOnChange) == r
  {
    var r := NormalizeTiming(validZone, input, minIntervalMinutes, allowOnChange);
    if r.Some? && input.frequency == Weekly {
      var days := input.daysOfWeek.value;
      assert IsoDays(days) && days[0] in days;
      ListedSame(days, SortedDays(days), 7);
    }
  }

  lemma {:induction false} ListedSame(a: seq<int>, b: seq<int>, upTo: nat)
    requires forall d :: d in a <==> d in b
    ensures Listed(a, upTo) == Listed(b, upTo)
  {
    if upTo > 0 {
      ListedSame(a, b, upTo - 1);
    }
  }

  // ---- The next run

  /** ISO weekday of a date: day 0 of the epoch was a Thursday. */
  function IsoWeekday(date: int): (d: int)
    ensures 1 <= d <= 7
  {
    if (date + 4) % 7 == 0 then 7 else (date + 4) % 7
  }

  /** The dates a daily or weekly timing runs on. */
  predicate Matches(timing: ScheduleTiming, date: int)
    requires Normalized(timing)
  {
    timing.frequency == Daily || (timing.frequency == Weekly && IsoWeekday(date) in timing.daysOfWeek.value)
  }

  predicate OnClock(timing: ScheduleTiming) {
    Normalized(timing) && (timing.frequency == Daily || timing.frequency == Weekly)
  }

  /** The moment the schedule falls due on a date. */
  function DueOn(z: Zone, timing: ScheduleTiming, date: int): int
    requires OnClock(timing)
  {
    ZonedTime(z, date * DAY + TimeOfDay(timing.timeOfDay.value))
  }

  /** The search from a date on; None is running past the eighth day. */
  function SearchFrom(z: Zone, timing: ScheduleTiming, after: int, today: int, offset: nat): Option<int>
    requires OnClock(timing)
    decreases 9 - offset
  {
    if offset > 8 then None
    else if Matches(timing, today + offset) && DueOn(z, timing, today + offset) > after
    then Some(DueOn(z, timing, today + offset))
    else SearchFrom(z, timing, after, today, offset + 1)
  }

  function NextRun(z: Zone, timing: ScheduleTiming, after: int): Option<int>
    requires Normalized(timing)
  {
    match timing.frequency
    case IntervalEvery => Some(after + timing.intervalMinutes.value * MINUTE)
    case OnChange => Some(after + MINUTE)
    case _ => SearchFrom(z, timing, after, DateOf(Local(z, after)), 0)
  }

  method NextRunAt(z: Zone, timing: ScheduleTiming, after: int) returns (next: Option<int>)
    requires Normalized(timing)
    ensures next == NextRun(z, timing, after)
    ensures Regular(z) ==> next.Some? && next.value > after
  {
    hide ZonedTime, TimeOfDay, IsoWeekday, Regular, WholeMinutes, OneChange, FirstReading;
    if Regular(z) {
      NextRunIsLater(z, timing, after);
    }
    if timing.frequency == IntervalEvery {
      return Some(after + timing.intervalMinutes.value * MINUTE);
    }
    if timing.frequency == OnChange {
      return Some(after + MINUTE);
    }
    var today := DateOf(Local(z, after));
    for offset := 0 to 9
      invariant SearchFrom(z, timing, after, today, 0) == SearchFrom(z, timing, after, today, offset)
    {
      if timing.frequency == Weekly && IsoWeekday(today + offset) !in timing.daysOfWeek.value {
        continue;
      }
      var candidate := ZonedTimeToInstant(z, (today + offset) * DAY + TimeOfDay(timing.timeOfDay.value));
      if candidate > after {
        return Some(candidate);
      }
    }
    return None;
  }

  // ---- What the schedule promises

  /** Real zones: whole-minute offsets, changes under a day, and never two within three days. */
  ghost predicate Regular(z: Zone) {
    && WholeMinutes(z)
    && forall w: int {:trigger OneChange(z, w)} :: OneChange(z, w) && -DAY < z(w + REACH) - z(w - REACH) < DAY
  }

  /** Where the clock stands when a wall-clock time is due. */
  lemma DueReads(z: Zone, w: int)
    requires Regular(z) && w % MINUTE == 0
    ensures var r := ZonedTime(z, w);
            && w <= Local(z, r) < w + DAY
            && w - 14 * HOUR <= r <= w + 14 * HOUR
  {
    hide ZonedTime;
    assert OneChange(z, w);
    ZonedTimeSharp(z, w);
  }

  lemma MinuteOfDate(timing: ScheduleTiming, date: int)
    requires OnClock(timing)
    ensures (date * DAY + TimeOfDay(timing.timeOfDay.value)) % MINUTE == 0
    ensures DateOf(date * DAY + TimeOfDay(timing.timeOfDay.value)) == date
  {
    hide TimeOfDay;
    var ms := TimeOfDay(timing.timeOfDay.value);
    assert (date * DAY + ms) % MINUTE == ms % MINUTE;
  }

  lemma TwoOffsets(z: Zone, w: int, t: int)
    requires OneChange(z, w) && w - REACH <= t <= w + REACH
    ensures z(t) == z(w - REACH) || z(t) == z(w + REACH)
  {
    var T :| ChangesAt(z, w, T);
  }

  lemma OffsetsClose(z: Zone, w: int, t: int, u: int)
    requires Regular(z)
    requires w - REACH <= t <= w + REACH && w - REACH <= u <= w + REACH
    ensures -DAY < z(t) - z(u) < DAY
  {
    assert OneChange(z, w);
    var T :| ChangesAt(z, w, T);
  }

  /** A later day's run is later, even across a change of the clock. */
  lemma DueNextDay(z: Zone, w: int)
    requires Regular(z) && w % MINUTE == 0
    ensures ZonedTime(z, w) < ZonedTime(z, w + DAY)
  {
    hide ZonedTime;
    var r1, r2 := ZonedTime(z, w), ZonedTime(z, w + DAY);
    DueReads(z, w);
    assert (w + DAY) % MINUTE == 0;
    DueReads(z, w + DAY);
    assert OneChange(z, w);
    ZonedTimeSharp(z, w);
    if r2 <= r1 {
      TwoOffsets(z, w, r2);
      OffsetsClose(z, w, r2, r1);
      assert false;
    }
  }

  /** A date at least two days ahead is still to come. */
  lemma DueAhead(z: Zone, w: int, x: int)
    requires Regular(z) && w % MINUTE == 0 && w > Local(z, x) + DAY
    ensures ZonedTime(z, w) > x
  {
    hide ZonedTime;
    DueReads(z, w);
    var r := ZonedTime(z, w);
    assert -14 * HOUR <= z(x) <= 14 * HOUR;
    if r <= x {
      OffsetsClose(z, w, r, x);
      assert false;
    }
  }

  /** A date at least two days back is over. */
  lemma DueBehind(z: Zone, w: int, x: int)
    requires Regular(z) && w % MINUTE == 0 && Local(z, x) > w + DAY
    ensures ZonedTime(z, w) <= x
  {
    hide ZonedTime;
    DueReads(z, w);
    var r := ZonedTime(z, w);
    assert -14 * HOUR <= z(x) <= 14 * HOUR;
    assert OneChange(z, w);
    ZonedTimeSharp(z, w);
    if x < r {
      TwoOffsets(z, w, x);
      OffsetsClose(z, w, x, r);
      assert false;
    }
  }

  lemma {:induction false} DueIncreases(z: Zone, timing: ScheduleTiming, d: int, e: int)
    requires Regular(z) && OnClock(timing) && d < e
    ensures DueOn(z, timing, d) < DueOn(z, timing, e)
    decreases e - d
  {
    hide ZonedTime, TimeOfDay;
    MinuteOfDate(timing, d);
    DueNextDay(z, d * DAY + TimeOfDay(timing.timeOfDay.value));
    if d + 1 < e {
      DueIncreases(z, timing, d + 1, e);
    }
  }

  lemma DatesAhead(z: Zone, timing: ScheduleTiming, d: int, x: int)
    requires Regular(z) && OnClock(timing)
    ensures d >= DateOf(Local(z, x)) + 2 ==> DueOn(z, timing, d) > x
    ensures d <= DateOf(Local(z, x)) - 2 ==> DueOn(z, timing, d) <= x
  {
    hide ZonedTime, TimeOfDay;
    MinuteOfDate(timing, d);
    var w := d * DAY + TimeOfDay(timing.timeOfDay.value);
    if d >= DateOf(Local(z, x)) + 2 {
      DueAhead(z, w, x);
    } else if d <= DateOf(Local(z, x)) - 2 {
      DueBehind(z, w, x);
    }
  }

  // ---- Matching dates

  lemma WeekHasMatch(timing: ScheduleTiming, date: int)
    requires OnClock(timing)
    ensures exists e :: date <= e <= date + 6 && Matches(timing, e)
  {
    if timing.frequency == Daily {
      assert Matches(timing, date);
    } else {
      var d :| 1 <= d <= 7 && d in timing.daysOfWeek.value;
      var e := date + (d - IsoWeekday(date) + 7) % 7;
      assert IsoWeekday(e) == d;
      assert Matches(timing, e);
    }
  }

  /** The first matching date from a date on. */
  function FirstMatch(timing: ScheduleTiming, date: int): (d: int)
    requires OnClock(timing)
    ensures date <= d <= date + 6 && Matches(timing, d)
    ensures forall e :: date <= e < d ==> !Matches(timing, e)
  {
    WeekHasMatch(timing, date);
    MatchWithin(timing, date, 7)
  }

  function MatchWithin(timing: ScheduleTiming, date: int, n: nat): (d: int)
    requires OnClock(timing)
    requires exists e :: date <= e < date + n && Matches(timing, e)
    ensures date <= d < date + n && Matches(timing, d)
    ensures forall e :: date <= e < d ==> !Matches(timing, e)
    decreases n
  {
    if Matches(timing, date) then date else MatchWithin(timing, date + 1, n - 1)
  }

  // ---- The search

  predicate Candidate(z: Zone, timing: ScheduleTiming, after: int, date: int)
    requires OnClock(timing)
  {
    Matches(timing, date) && DueOn(z, timing, date) > after
  }

  lemma {:induction false} SearchFinds(z: Zone, timing: ScheduleTiming, after: int, today: int, offset: nat, k: nat)
    requires OnClock(timing) && offset <= k <= 8
    requires Candidate(z, timing, after, today + k)
    requires forall e :: today + offset <= e < today + k ==> !Candidate(z, timing, after, e)
    ensures SearchFrom(z, timing, after, today, offset) == Some(DueOn(z, timing, today + k))
    decreases k - offset
  {
    hide DueOn, Matches;
    if offset < k {
      assert !Candidate(z, timing, after, today + offset);
      SearchFinds(z, timing, after, today, offset + 1, k);
    }
  }

  /** The search always ends at the first candidate from today on; the eighth day is never passed. */
  lemma SearchEnds(z: Zone, timing: ScheduleTiming, after: int) returns (date: int)
    requires Regular(z) && OnClock(timing)
    ensures var today := DateOf(Local(z, after));
            && today <= date <= today + 8
            && Candidate(z, timing, after, date)
            && (forall e :: today <= e < date ==> !Candidate(z, timing, after, e))
            && NextRun(z, timing, after) == Some(DueOn(z, timing, date))
  {
    hide DueOn, Matches;
    var today := DateOf(Local(z, after));
    var far := FirstMatch(timing, today + 2);
    DatesAhead(z, timing, far, after);
    date := today;
    while !Candidate(z, timing, after, date)
      invariant today <= date <= far
      invariant forall e :: today <= e < date ==> !Candidate(z, timing, after, e)
      decreases far - date
    {
      date := date + 1;
    }
    SearchFinds(z, timing, after, today, 0, date - today);
  }

  /** The next run is never missing and always strictly later, for every normalized timing. */
  lemma NextRunIsLater(z: Zone, timing: ScheduleTiming, after: int)
    requires Normalized(timing) && Regular(z)
    ensures NextRun(z, timing, after).Some? && NextRun(z, timing, after).value > after
  {
    hide DueOn, Matches, SearchFrom;
    if OnClock(timing) {
      var date := SearchEnds(z, timing, after);
    }
  }

  /** From the moment one date is due, the next run is that of the next matching date. */
  lemma NextRunFromDue(z: Zone, timing: ScheduleTiming, d: int)
    requires Regular(z) && OnClock(timing)
    ensures NextRun(z, timing, DueOn(z, timing, d)) == Some(DueOn(z, timing, FirstMatch(timing, d + 1)))
  {
    hide ZonedTime, TimeOfDay, Matches, FirstMatch;
    var x := DueOn(z, timing, d);
    MinuteOfDate(timing, d);
    DueReads(z, d * DAY + TimeOfDay(timing.timeOfDay.value));
    var today := DateOf(Local(z, x));
    assert today == d || today == d + 1;
    var next := FirstMatch(timing, d + 1);
    DueIncreases(z, timing, d, next);
    hide DueOn;
    forall e | today <= e < next ensures !Candidate(z, timing, x, e) {
      if e > d {
        assert !Matches(timing, e);
      }
    }
    SearchFinds(z, timing, x, today, 0, next - today);
  }

  /** The date of the k-th matching day, counting from a matching date. */
  function VisitedDate(timing: ScheduleTiming, first: int, k: nat): int
    requires OnClock(timing)
  {
    if k == 0 then first else FirstMatch(timing, VisitedDate(timing, first, k - 1) + 1)
  }

  /** The schedule's k-th run after `after`, each computed from the one before. */
  function IteratedRun(z: Zone, timing: ScheduleTiming, after: int, k: nat): Option<int>
    requires Normalized(timing)
  {
    if k == 0 then NextRun(z, timing, after)
    else match IteratedRun(z, timing, after, k - 1)
         case None => None
         case Some(previous) => NextRun(z, timing, previous)
  }

  /** Iterating from its own results, the schedule runs on the matching dates, one by one. */
  lemma {:induction false} IterationVisits(z: Zone, timing: ScheduleTiming, after: int, first: int, k: nat)
    requires Regular(z) && OnClock(timing)
    requires NextRun(z, timing, after) == Some(DueOn(z, timing, first))
    ensures IteratedRun(z, timing, after, k) == Some(DueOn(z, timing, VisitedDate(timing, first, k)))
  {
    hide DueOn, NextRun, FirstMatch;
    if k > 0 {
      IterationVisits(z, timing, after, first, k - 1);
      NextRunFromDue(z, timing, VisitedDate(timing, first, k - 1));
    }
  }

  /** No matching date from the first on is missed, and each is visited once, in order. */
  lemma {:induction false} EveryMatchVisited(timing: ScheduleTiming, first: int, date: int) returns (k: nat)
    requires OnClock(timing) && Matches(timing, first) && Matches(timing, date) && first <= date
    ensures VisitedDate(timing, first, k) == date
    ensures forall j :: 0 <= j && VisitedDate(timing, first, j) == date ==> j == k
  {
    hide Matches;
    k := 0;
    while VisitedDate(timing, first, k) < date
      invariant VisitedDate(timing, first, k) <= date
      decreases date - VisitedDate(timing, first, k)
    {
      k := k + 1;
    }
    forall j: nat | VisitedDate(timing, first, j) == date ensures j == k {
      if j < k {
        VisitedIncreases(timing, first, j, k);
      } else if k < j {
        VisitedIncreases(timing, first, k, j);
      }
    }
  }

  lemma {:induction false} VisitedIncreases(timing: ScheduleTiming, first: int, j: nat, k: nat)
    requires OnClock(timing) && j < k
    ensures VisitedDate(timing, first, j) < VisitedDate(timing, first, k)
  {
    if j < k - 1 {
      VisitedIncreases(timing, first, j, k - 1);
    }
  }

  /**
   * "The first moment strictly after" holds exactly when yesterday's run (by the
   * zone's own clock) is not still to come, which takes a jump across midnight.
   */
  lemma NextRunIsFirst(z: Zone, timing: ScheduleTiming, after: int)
    requires Regular(z) && OnClock(timing)
    ensures NextRun(z, timing, after).Some?
    ensures (forall d :: Candidate(z, timing, after, d) ==> NextRun(z, timing, after).value <= DueOn(z, timing, d))
            <==> !Candidate(z, timing, after, DateOf(Local(z, after)) - 1)
  {
    hide DueOn, Matches, NextRun;
    var today := DateOf(Local(z, after));
    var date := SearchEnds(z, timing, after);
    if Candidate(z, timing, after, today - 1) {
      DueIncreases(z, timing, today - 1, date);
    } else {
      forall d | Candidate(z, timing, after, d)
        ensures DueOn(z, timing, date) <= DueOn(z, timing, d)
      {
        DatesAhead(z, timing, d, after);
        if d > date {
          DueIncreases(z, timing, date, d);
        }
      }
    }
  }

  // ---- The calendar and the clock

  /** A two-digit number as text. */
  function TwoDigits(n: int): string
    requires 0 <= n < 100
  {
    [('0' as int + n / 10) as char, ('0' as int + n % 10) as char]
  }

  /** The accepted times of day are the minutes of a day, written with two digits each. */
  lemma TimesOfDay(text: string)
    ensures IsTimeOfDay(text) <==>
              exists h, m :: 0 <= h <= 23 && 0 <= m <= 59 && text == TwoDigits(h) + ":" + TwoDigits(m)
  {
    if IsTimeOfDay(text) {
      var h, m := DigitValue(text[0]) * 10 + DigitValue(text[1]), DigitValue(text[3]) * 10 + DigitValue(text[4]);
      assert text == TwoDigits(h) + ":" + TwoDigits(m);
    }
    if h, m :| 0 <= h <= 23 && 0 <= m <= 59 && text == TwoDigits(h) + ":" + TwoDigits(m) {
      ClockReads(h, m);
    }
  }

  lemma ClockReads(h: int, m: int)
    requires 0 <= h <= 23 && 0 <= m <= 59
    ensures var text := TwoDigits(h) + ":" + TwoDigits(m);
            IsTimeOfDay(text) && TimeOfDay(text) == h * 3_600_000 + m * 60_000
  {
    var text := TwoDigits(h) + ":" + TwoDigits(m);
    assert text[0] == TwoDigits(h)[0] && text[1] == TwoDigits(h)[1] && text[2] == ':';
    assert text[3] == TwoDigits(m)[0] && text[4] == TwoDigits(m)[1];
  }

  /** A date is one of the listed weekdays, counted from Monday 5 January 1970. */
  predicate IsListed(days: seq<int>, date: int) {
    exists wd :: wd in days && 1 <= wd <= 7 && (date - 4 - (wd - 1)) % 7 == 0
  }

  lemma WeekdayListed(days: seq<int>, date: int)
    ensures IsoWeekday(date) in days <==> IsListed(days, date)
  {
    var d := IsoWeekday(date);
    assert (date - 4 - (d - 1)) % 7 == 0;
    forall wd | wd in days && 1 <= wd <= 7 && (date - 4 - (wd - 1)) % 7 == 0 ensures wd == d {
    }
  }

  /** On which dates a daily or weekly schedule runs. */
  lemma MatchesExactly(timing: ScheduleTiming, date: int)
    requires OnClock(timing)
    ensures Matches(timing, date) <==>
              timing.frequency.Daily? || IsListed(timing.daysOfWeek.value, date)
  {
    hide IsoWeekday, IsListed;
    if timing.frequency.Weekly? {
      WeekdayListed(timing.daysOfWeek.value, date);
    }
  }

  /** When h:m of a date comes, on the zone's clock. */
  function At(z: Zone, date: int, h: int, m: int): int {
    ZonedTime(z, date * 86_400_000 + h * 3_600_000 + m * 60_000)
  }

  lemma DueAt(z: Zone, timing: ScheduleTiming, date: int, h: int, m: int)
    requires OnClock(timing) && 0 <= h <= 23 && 0 <= m <= 59
    requires timing.timeOfDay == Some(TwoDigits(h) + ":" + TwoDigits(m))
    ensures DueOn(z, timing, date) == At(z, date, h, m)
  {
    hide ZonedTime, TimeOfDay;
    ClockReads(h, m);
  }

  lemma AtReads(z: Zone, date: int, h: int, m: int)
    requires Regular(z)
    ensures FirstReading(z, date * 86_400_000 + h * 3_600_000 + m * 60_000, At(z, date, h, m))
  {
    hide ZonedTime, FirstReading;
    var w := date * 86_400_000 + h * 3_600_000 + m * 60_000;
    assert OneChange(z, w);
    assert w == (date * 1440 + h * 60 + m) * MINUTE;
    ZonedTimeSharp(z, w);
  }

  /** A date a schedule may run on: any, if it is daily, and the listed weekdays, if it is weekly. */
  predicate RunsOn(timing: ScheduleTiming, date: int) {
    timing.frequency.Daily? || (timing.daysOfWeek.Some? && IsListed(timing.daysOfWeek.value, date))
  }

  /**
   * The next run of a daily or weekly schedule at h:m: it is due at h:m on the zone's
   * clock of a date that is today or later and, if weekly, a listed weekday, it is
   * still to come, and no earlier such date from today on is.
   */
  lemma NextRunOnClock(z: Zone, timing: ScheduleTiming, after: int, h: int, m: int) returns (date: int)
    requires Regular(z) && OnClock(timing) && 0 <= h <= 23 && 0 <= m <= 59
    requires timing.timeOfDay == Some(TwoDigits(h) + ":" + TwoDigits(m))
    ensures NextRun(z, timing, after) == Some(At(z, date, h, m)) && At(z, date, h, m) > after
    ensures FirstReading(z, date * 86_400_000 + h * 3_600_000 + m * 60_000, At(z, date, h, m))
    ensures date >= (after + z(after)) / 86_400_000 && RunsOn(timing, date)
    ensures forall d :: (after + z(after)) / 86_400_000 <= d < date && RunsOn(timing, d) ==> At(z, d, h, m) <= after
  {
    hide DueOn, At, Matches, IsListed, FirstReading, NextRun, Regular, IsTimeOfDay;
    date := SearchEnds(z, timing, after);
    MatchesExactly(timing, date);
    DueAt(z, timing, date, h, m);
    AtReads(z, date, h, m);
    var today := DateOf(Local(z, after));
    forall d | today <= d < date && RunsOn(timing, d) ensures At(z, d, h, m) <= after {
      MatchesExactly(timing, d);
      DueAt(z, timing, d, h, m);
      assert !Candidate(z, timing, after, d);
    }
  }

  /** An interval schedule runs at equal distances, whatever the zone; an on-change one looks every minute. */
  lemma {:induction false} IntervalRuns(z: Zone, timing: ScheduleTiming, after: int, k: nat)
    requires Normalized(timing) && (timing.frequency.IntervalEvery? || timing.frequency.OnChange?)
    ensures var minutes := if timing.frequency.OnChange? then 1 else timing.intervalMinutes.value;
            IteratedRun(z, timing, after, k) == Some(after + (k + 1) * minutes * 60_000)
  {
    var minutes := if timing.frequency.OnChange? then 1 else timing.intervalMinutes.value;
    if k > 0 {
      IntervalRuns(z, timing, after, k - 1);
      assert (k + 1) * minutes == k * minutes + minutes;
    }
  }

  /** Exactly what is accepted, and as what. */
  lemma NormalizeExactly(validZone: string -> bool, input: ScheduleTiming, least: int, allowOnChange: bool)
    ensures var r := NormalizeTiming(validZone, input, least, allowOnChange);
            var blank := ScheduleTiming(input.frequency, None, None, None, input.timezone, None, None);
            match input.frequency
            case IntervalEvery =>
              && (r.Some? <==> validZone(input.timezone) && input.intervalMinutes.Some?
                               && least <= input.intervalMinutes.value <= 10_080)
              && (r.Some? ==> r.value == blank.(intervalMinutes := input.intervalMinutes))
            case OnChange =>
              var quiet := match input.quietMinutes case Some(q) => q case None => 10;
              var wait := match input.maxWaitMinutes
                          case Some(w) => w
                          case None => if quiet > 360 then quiet else 360;
              && (r.Some? <==> validZone(input.timezone) && allowOnChange
                               && 1 <= quiet <= 1_440 && quiet <= wait <= 10_080)
              && (r.Some? ==> r.value == blank.(quietMinutes := Some(quiet), maxWaitMinutes := Some(wait)))
            case Daily =>
              && (r.Some? <==> validZone(input.timezone) && input.timeOfDay.Some?
                               && IsTimeOfDay(input.timeOfDay.value))
              && (r.Some? ==> r.value == blank.(timeOfDay := input.timeOfDay))
            case Weekly =>
              && (r.Some? <==> validZone(input.timezone) && input.timeOfDay.Some?
                               && IsTimeOfDay(input.timeOfDay.value)
                               && input.daysOfWeek.Some? && input.daysOfWeek.value != []
                               && forall d :: d in input.daysOfWeek.value ==> 1 <= d <= 7)
              && (r.Some? ==>
                    && r.value == blank.(timeOfDay := input.timeOfDay, daysOfWeek := r.value.daysOfWeek)
                    && r.value.daysOfWeek.Some?
                    && (forall d :: d in r.value.daysOfWeek.value <==> d in input.daysOfWeek.value)
                    && forall i, j :: 0 <= i < j < |r.value.daysOfWeek.value| ==>
                         r.value.daysOfWeek.value[i] < r.value.daysOfWeek.value[j])
  {
    hide IsTimeOfDay;
  }

  /** A jump of an hour across midnight, at 23:30 of day 0. */
  function MidnightJump(): Zone { OnceChanging(0, HOUR, 84_600_000) }

  lemma MidnightJumpRegular()
    ensures Regular(MidnightJump())
  {
    var z := MidnightJump();
    forall t: int ensures z(t) % MINUTE == 0 && -14 * HOUR <= z(t) <= 14 * HOUR {
    }
    forall w: int ensures OneChange(z, w) {
      assert ChangesAt(z, w, 84_600_000);
    }
  }

  /**
   * Such a run is lost: at the moment of the jump a daily 23:45 schedule still has
   * day 0's run ahead of it, and the next run it computes is a day later.
   */
  lemma MidnightJumpSkipsARun()
    ensures var z := MidnightJump();
            var timing := ScheduleTiming(Daily, None, Some("23:45"), None, "zone", None, None);
            var jump := 84_600_000;
            && OnClock(timing) && Regular(z)
            && DueOn(z, timing, 0) == jump + 15 * MINUTE
            && NextRun(z, timing, jump) == Some(DAY + 81_900_000)
  {
    MidnightJumpRegular();
    var z := MidnightJump();
    var timing := ScheduleTiming(Daily, None, Some("23:45"), None, "zone", None, None);
    var jump := 84_600_000;
    assert OnClock(timing) && TimeOfDay("23:45") == 85_500_000;
    assert z(jump) == HOUR && DateOf(Local(z, jump)) == 1;
    SharpAt(z, 85_500_000);
    SharpAt(z, 171_900_000);
    assert DueOn(z, timing, 1) == 168_300_000;
    assert Candidate(z, timing, jump, 1);
    SearchFinds(z, timing, jump, 1, 0, 0);
  }

  lemma SharpAt(z: Zone, w: int)
    requires z == MidnightJump() && (w == 85_500_000 || w == 171_900_000)
    ensures ZonedTime(z, w) == if w == 85_500_000 then w else w - HOUR
  {
    MidnightJumpRegular();
    assert OneChange(z, w);
    ZonedTimeSharp(z, w);
    assert w == 171_900_000 ==> Local(z, w - HOUR) == w;
    assert w == 85_500_000 ==> forall t :: Local(z, t) != w;
  }
}
