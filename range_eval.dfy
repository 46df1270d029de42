/** Evaluation of a range schedule at one tick: the day gate, the in-range
    test with midnight wrap, the expected mode and the edge trigger. */
module RangeEval {
  import opened Wrappers
  import opened Clock
  import opened Schema
  import JsRecurrence

  const MinutesPerDay: int := 1440

  /** `shouldRunToday`: whether a range schedule is evaluated on weekday `dow`. */
  function ShouldRunToday(repeatType: string, repeatDays: Option<seq<int>>, dow: int): (b: bool)
    ensures repeatType == "weekdays" ==> (b <==> 1 <= dow <= 5)
    ensures repeatType == "weekends" ==> (b <==> IsWeekendDay(dow))
    ensures repeatType == "weekly" ==> (b <==> repeatDays.Some? && dow in repeatDays.value)
    ensures repeatType !in {"weekdays", "weekends", "weekly"} ==> b
  {
    match repeatType
    case "once" => true
    case "daily" => true
    case "weekdays" => dow >= 1 && dow <= 5
    case "weekends" => dow == 0 || dow == 6
    case "weekly" => repeatDays.Some? && dow in repeatDays.value
    case _ => true
  }

  /** The day gate accepts exactly the weekdays on which the fixed-time
      calculator would fire: for a candidate on weekday w, the calculator
      keeps the candidate iff the gate passes on w. */
  lemma DayGateMatchesCalculator(hour: int, minute: int, repeatType: string, repeatDays: Option<seq<int>>, now: Instant)
    requires ValidHour(hour) && ValidMinute(minute)
    requires repeatType == "weekly" ==> repeatDays.Some? && |repeatDays.value| > 0 && DaysInWeek(repeatDays.value)
    ensures var c := Candidate(hour, minute, now);
      ShouldRunToday(repeatType, repeatDays, Weekday(c)) <==> JsRecurrence.JsNext(hour, minute, repeatType, repeatDays, now) == c
  {
    if repeatType == "weekly" {
      JsRecurrence.WeeklyNext(hour, minute, repeatDays.value, now);
    }
  }

  function Minutes(hour: int, minute: int): int { hour * 60 + minute }

  /** The in-range test: `end <= start` is a range across midnight. */
  predicate InRange(cur: int, start: int, end: int)
  {
    if end <= start then cur >= start || cur < end else start <= cur && cur < end
  }

  /** Length in minutes of the range from `start` to `end`; equal bounds are a whole day. */
  function RangeLength(start: int, end: int): int
  {
    if end <= start then MinutesPerDay - start + end else end - start
  }

  /** On minutes of the day, in range means fewer minutes have passed since the
      start (going round midnight) than the range lasts. */
  lemma InRangeIsElapsedTime(cur: int, start: int, end: int)
    requires 0 <= cur < MinutesPerDay && 0 <= start < MinutesPerDay && 0 <= end < MinutesPerDay
    ensures InRange(cur, start, end) <==> (cur - start) % MinutesPerDay < RangeLength(start, end)
  {
    if cur >= start {
      assert (cur - start) % MinutesPerDay == cur - start;
    } else {
      assert (cur - start) % MinutesPerDay == cur - start + MinutesPerDay;
    }
  }

  /** Whole-day ranges: equal bounds are in range at every minute. */
  lemma EqualBoundsAlwaysInRange(cur: int, start: int)
    ensures InRange(cur, start, start)
  {
  }

  lemma InRangeExamples()
    ensures InRange(Minutes(10, 0), Minutes(8, 0), Minutes(20, 0))
    ensures !InRange(Minutes(21, 0), Minutes(8, 0), Minutes(20, 0))
    ensures InRange(Minutes(23, 0), Minutes(22, 0), Minutes(6, 0))
    ensures InRange(Minutes(2, 0), Minutes(22, 0), Minutes(6, 0))
    ensures !InRange(Minutes(12, 0), Minutes(22, 0), Minutes(6, 0))
  {
  }

  /** `isInRange ? targetMode : effectiveSecondaryMode`. */
  function ExpectedMode(inRange: bool, targetMode: string, secondaryMode: Option<string>): (m: string)
    ensures IsMode(targetMode) && (secondaryMode.None? || secondaryMode.value == "" || IsMode(secondaryMode.value))
            ==> IsMode(m)
    ensures IsMode(targetMode) && !inRange && secondaryMode.None? ==> m != targetMode
  {
    if inRange then targetMode else EffectiveSecondary(targetMode, secondaryMode)
  }

  predicate HasRangeBounds(r: ScheduleRow)
  {
    r.startHour.Some? && r.startMinute.Some? && r.endHour.Some? && r.endMinute.Some?
  }

  function StartMinutes(r: ScheduleRow): int
    requires HasRangeBounds(r)
  {
    Minutes(r.startHour.value, r.startMinute.value)
  }

  function EndMinutes(r: ScheduleRow): int
    requires HasRangeBounds(r)
  {
    Minutes(r.endHour.value, r.endMinute.value)
  }

  /** The mode the range schedule wants at hour:minute. */
  function RowExpectedMode(r: ScheduleRow, hour: int, minute: int): string
    requires HasRangeBounds(r)
  {
    ExpectedMode(InRange(Minutes(hour, minute), StartMinutes(r), EndMinutes(r)), r.targetMode, r.secondaryMode)
  }

  predicate AtStart(r: ScheduleRow, hour: int, minute: int)
    requires HasRangeBounds(r)
  {
    hour == r.startHour.value && minute == r.startMinute.value
  }

  predicate AtEnd(r: ScheduleRow, hour: int, minute: int)
    requires HasRangeBounds(r)
  {
    hour == r.endHour.value && minute == r.endMinute.value
  }

  /** The day gate passes and the clock is on one of the range's boundary minutes. */
  predicate OnGatedBoundary(r: ScheduleRow, hour: int, minute: int, dow: int)
  {
    && HasRangeBounds(r)
    && ShouldRunToday(r.repeatType, r.repeatDays, dow)
    && (AtStart(r, hour, minute) || AtEnd(r, hour, minute))
  }

  /** The decision of `checkAndExecuteRangeSchedule`: the mode to switch to, or
      None when the day gate fails, the clock is not on a boundary minute, or
      the device is already in the expected mode. `currentMode` is None when
      the device has no mode row. */
  function RangeTransition(r: ScheduleRow, hour: int, minute: int, dow: int, currentMode: Option<string>): Option<string>
    requires HasRangeBounds(r)
  {
    if !ShouldRunToday(r.repeatType, r.repeatDays, dow) then None
    else
      var expected := RowExpectedMode(r, hour, minute);
      if (AtStart(r, hour, minute) || AtEnd(r, hour, minute)) && currentMode != Some(expected) then Some(expected)
      else None
  }

  /** A transition fires exactly on a gated boundary minute with a mode
      mismatch, and it switches to the expected mode. */
  lemma RangeTransitionFires(r: ScheduleRow, hour: int, minute: int, dow: int, currentMode: Option<string>)
    requires HasRangeBounds(r)
    ensures var t := RangeTransition(r, hour, minute, dow, currentMode);
      && (t.Some? <==>
            (&& ShouldRunToday(r.repeatType, r.repeatDays, dow)
             && (AtStart(r, hour, minute) || AtEnd(r, hour, minute))
             && currentMode != Some(RowExpectedMode(r, hour, minute))))
      && (t.Some? ==> t.value == RowExpectedMode(r, hour, minute))
      && (t.Some? ==> RangeTransition(r, hour, minute, dow, t) == None)
  {
  }

  /** At the start minute the range wants its target mode. */
  lemma StartBoundaryExpectsTarget(r: ScheduleRow, hour: int, minute: int)
    requires HasRangeBounds(r) && AtStart(r, hour, minute)
    ensures RowExpectedMode(r, hour, minute) == r.targetMode
  {
  }

  /** At the end minute of a range with distinct bounds it wants the secondary mode. */
  lemma EndBoundaryExpectsSecondary(r: ScheduleRow, hour: int, minute: int)
    requires HasRangeBounds(r) && AtEnd(r, hour, minute)
    requires StartMinutes(r) != EndMinutes(r)
    ensures RowExpectedMode(r, hour, minute) == EffectiveSecondary(r.targetMode, r.secondaryMode)
  {
  }

  /** Off the boundary minutes nothing fires, whatever mode the device is in. */
  lemma NoTransitionOffBoundary(r: ScheduleRow, hour: int, minute: int, dow: int, currentMode: Option<string>)
    requires HasRangeBounds(r) && !AtStart(r, hour, minute) && !AtEnd(r, hour, minute)
    ensures RangeTransition(r, hour, minute, dow, currentMode) == None
  {
  }

  /** A valid range row only ever asks for a valid mode. */
  lemma ExpectedModeOfValidRow(r: ScheduleRow, hour: int, minute: int)
    requires ScheduleChecks(r) && HasRangeBounds(r)
    ensures IsMode(RowExpectedMode(r, hour, minute))
  {
  }

  /** 08:00-20:00 solar over grid, device in grid: the tick at 07:59 does not
      fire, the tick at 08:00 switches to solar. */
  lemma MorningRangeScenario(r: ScheduleRow, dow: int)
    requires r.startHour == Some(8) && r.startMinute == Some(0) && r.endHour == Some(20) && r.endMinute == Some(0)
    requires r.targetMode == "solar" && r.secondaryMode == Some("grid") && r.repeatType == "daily"
    ensures RangeTransition(r, 7, 59, dow, Some("grid")) == None
    ensures RangeTransition(r, 8, 0, dow, Some("grid")) == Some("solar")
    ensures RangeTransition(r, 20, 0, dow, Some("solar")) == Some("grid")
    ensures RangeTransition(r, 8, 0, dow, Some("solar")) == None
  {
  }
}
