/** The server's own next-firing calculator (`calculateNextExecution`), used
    when a fixed-time schedule is created or edited. */
module JsRecurrence {
  import opened Wrappers
  import opened Clock

  /** Days the `weekdays` loop moves on from weekday `w`. */
  function WeekdaysSkip(w: int): int { if w == 6 then 2 else if w == 0 then 1 else 0 }

  /** Days the `weekends` loop moves on from weekday `w`. */
  function WeekendsSkip(w: int): int { if 1 <= w <= 5 then 6 - w else 0 }

  /** A same-day match that is no longer pending counts as a week ahead. */
  function Adjusted(daysAhead: int): int { if daysAhead == 0 then 7 else daysAhead }

  function Min(a: int, b: int): int { if a <= b then a else b }

  /** Smallest adjusted days-ahead over `days`, starting from 7. */
  function MinDaysAhead(days: seq<int>, current: int): int
  {
    if |days| == 0 then 7
    else Min(MinDaysAhead(days[..|days| - 1], current), Adjusted(DaysAhead(days[|days| - 1], current)))
  }

  /** Some listed day is the candidate's own weekday (by the truncating formula). */
  predicate HasSameDay(days: seq<int>, current: int)
  {
    exists i :: 0 <= i < |days| && DaysAhead(days[i], current) == 0
  }

  /** Offset in days chosen by the weekly branch; `pending` is "candidate after reference". */
  function WeeklyOffset(days: seq<int>, current: int, pending: bool): int
  {
    if pending && HasSameDay(days, current) then 0 else MinDaysAhead(days, current)
  }

  /** Reference definition of the next firing instant computed by the server. */
  function JsNext(hour: int, minute: int, repeatType: string, repeatDays: Option<seq<int>>, now: Instant): Instant
  {
    var c := Candidate(hour, minute, now);
    if repeatType == "once" || repeatType == "daily" then c
    else if repeatType == "weekdays" then c + WeekdaysSkip(Weekday(c)) * MsPerDay
    else if repeatType == "weekends" then c + WeekendsSkip(Weekday(c)) * MsPerDay
    else if repeatType == "weekly" then
      if repeatDays.None? || |repeatDays.value| == 0 then c
      else c + WeeklyOffset(repeatDays.value, Weekday(c), c > now) * MsPerDay
    else c
  }

  /** The calculator as the server runs it: a Date moved in place by whole days. */
  method CalculateNextExecution(hour: int, minute: int, repeatType: string, repeatDays: Option<seq<int>>, now: Instant)
    returns (nextTime: Instant)
    ensures nextTime == JsNext(hour, minute, repeatType, repeatDays, now)
  {
    nextTime := DayStart(now) + Slot(hour, minute);
    if nextTime <= now {
      nextTime := nextTime + MsPerDay;
    }
    assert nextTime == Candidate(hour, minute, now);

    if repeatType == "once" || repeatType == "daily" {
      return;
    } else if repeatType == "weekdays" {
      nextTime := SkipToWeekday(nextTime);
    } else if repeatType == "weekends" {
      nextTime := SkipToWeekend(nextTime);
    } else if repeatType == "weekly" {
      if repeatDays.None? || |repeatDays.value| == 0 {
        return;
      }
      var daysAhead := ScanWeeklyDays(repeatDays.value, nextTime, now);
      nextTime := nextTime + daysAhead * MsPerDay;
    }
  }

  /** The `weekdays` loop, the same in both calculators: step a day at a time past Saturday and Sunday. */
  method SkipToWeekday(start: Instant) returns (t: Instant)
    ensures t == start + WeekdaysSkip(Weekday(start)) * MsPerDay
  {
    t := start;
    while Weekday(t) == 0 || Weekday(t) == 6
      invariant t == start + (WeekdaysSkip(Weekday(start)) - WeekdaysSkip(Weekday(t))) * MsPerDay
      decreases WeekdaysSkip(Weekday(t))
    {
      ShiftDays(t, 1);
      t := t + MsPerDay;
    }
  }

  /** The `weekends` loop, the same in both calculators: step a day at a time until Saturday or Sunday. */
  method SkipToWeekend(start: Instant) returns (t: Instant)
    ensures t == start + WeekendsSkip(Weekday(start)) * MsPerDay
  {
    t := start;
    while Weekday(t) != 0 && Weekday(t) != 6
      invariant t == start + (WeekendsSkip(Weekday(start)) - WeekendsSkip(Weekday(t))) * MsPerDay
      decreases WeekendsSkip(Weekday(t))
    {
      ShiftDays(t, 1);
      t := t + MsPerDay;
    }
  }

  /** The `weekly` scan over the listed days from candidate `t`: 0 as soon as a
      listed day is the candidate's weekday and the candidate is still ahead
      of `now`, else the smallest adjusted distance. */
  method ScanWeeklyDays(days: seq<int>, t: Instant, now: Instant) returns (daysAhead: int)
    ensures daysAhead == WeeklyOffset(days, Weekday(t), t > now)
  {
    var currentDay := Weekday(t);
    var minDaysAhead := 7;
    for i := 0 to |days|
      invariant minDaysAhead == MinDaysAhead(days[..i], currentDay)
      invariant !(t > now && HasSameDay(days[..i], currentDay))
    {
      var ahead := DaysAhead(days[i], currentDay);
      if ahead == 0 && t > now {
        assert DaysAhead(days[i], currentDay) == 0;
        return 0;
      }
      if ahead == 0 {
        ahead := 7;
      }
      if ahead < minDaysAhead {
        minDaysAhead := ahead;
      }
      assert days[..i + 1][..i] == days[..i];
    }
    assert days[..|days|] == days;
    daysAhead := minDaysAhead;
  }

  /** With in-range days none of which is the candidate's weekday, the minimum is
      a real distance to a listed day, at most six, and no listed day is nearer. */
  lemma {:induction false} MinDaysAheadNearest(days: seq<int>, current: int)
    requires |days| > 0 && DaysInWeek(days) && 0 <= current <= 6
    requires !HasSameDay(days, current)
    ensures 1 <= MinDaysAhead(days, current) <= 6
    ensures exists i :: 0 <= i < |days| && DaysAhead(days[i], current) == MinDaysAhead(days, current)
    ensures forall i :: 0 <= i < |days| ==> MinDaysAhead(days, current) <= DaysAhead(days[i], current)
  {
    var n := |days| - 1;
    var init := days[..n];
    DaysAheadInWeek(days[n], current);
    assert DaysAhead(days[n], current) != 0;
    if n > 0 {
      assert !HasSameDay(init, current) by {
        forall i | 0 <= i < n ensures DaysAhead(init[i], current) != 0 {
          assert init[i] == days[i];
        }
      }
      assert DaysInWeek(init) by {
        forall i | 0 <= i < n ensures 0 <= init[i] <= 6 { assert init[i] == days[i]; }
      }
      MinDaysAheadNearest(init, current);
      var k :| 0 <= k < n && DaysAhead(init[k], current) == MinDaysAhead(init, current);
      assert init[k] == days[k];
      forall i | 0 <= i < |days| ensures MinDaysAhead(days, current) <= DaysAhead(days[i], current) {
        if i < n { assert init[i] == days[i]; }
      }
    } else {
      assert MinDaysAhead(days, current) == DaysAhead(days[0], current);
    }
  }

  /** `once` and `daily` return the candidate: strictly after the reference, on
      hour:minute:00.000 of the reference day when that is still ahead, else of the next day. */
  lemma OnceDailyNext(hour: int, minute: int, repeatType: string, repeatDays: Option<seq<int>>, now: Instant)
    requires ValidHour(hour) && ValidMinute(minute)
    requires repeatType == "once" || repeatType == "daily"
    ensures var r := JsNext(hour, minute, repeatType, repeatDays, now);
      && now < r
      && r - DayStart(r) == Slot(hour, minute)
      && (r == DayStart(now) + Slot(hour, minute) || r == DayStart(now) + Slot(hour, minute) + MsPerDay)
      && (r == DayStart(now) + Slot(hour, minute) <==> DayStart(now) + Slot(hour, minute) > now)
  {
    CandidateFacts(hour, minute, now);
  }

  /** `weekdays` returns the first day at or after the candidate that is Monday to Friday. */
  lemma WeekdaysNext(hour: int, minute: int, repeatDays: Option<seq<int>>, now: Instant)
    requires ValidHour(hour) && ValidMinute(minute)
    ensures var c := Candidate(hour, minute, now);
      var r := JsNext(hour, minute, "weekdays", repeatDays, now);
      && (r - c) % MsPerDay == 0 && 0 <= r - c <= 2 * MsPerDay
      && !IsWeekendDay(Weekday(r))
      && (forall j :: 0 <= j < (r - c) / MsPerDay ==> IsWeekendDay(Weekday(c + j * MsPerDay)))
      && now < r && r - DayStart(r) == Slot(hour, minute)
  {
    var c := Candidate(hour, minute, now);
    CandidateFacts(hour, minute, now);
    var k := WeekdaysSkip(Weekday(c));
    ShiftDays(c, k);
    forall j | 0 <= j < k ensures IsWeekendDay(Weekday(c + j * MsPerDay)) {
      ShiftDays(c, j);
    }
  }

  /** `weekends` returns the first day at or after the candidate that is Saturday or Sunday. */
  lemma WeekendsNext(hour: int, minute: int, repeatDays: Option<seq<int>>, now: Instant)
    requires ValidHour(hour) && ValidMinute(minute)
    ensures var c := Candidate(hour, minute, now);
      var r := JsNext(hour, minute, "weekends", repeatDays, now);
      && (r - c) % MsPerDay == 0 && 0 <= r - c <= 5 * MsPerDay
      && IsWeekendDay(Weekday(r))
      && (forall j :: 0 <= j < (r - c) / MsPerDay ==> !IsWeekendDay(Weekday(c + j * MsPerDay)))
      && now < r && r - DayStart(r) == Slot(hour, minute)
  {
    var c := Candidate(hour, minute, now);
    CandidateFacts(hour, minute, now);
    var k := WeekendsSkip(Weekday(c));
    ShiftDays(c, k);
    forall j | 0 <= j < k ensures !IsWeekendDay(Weekday(c + j * MsPerDay)) {
      ShiftDays(c, j);
    }
  }

  /** With no listed day on the weekday of `c`, the weekly offset from `c`
      lands on a listed weekday and passes no listed weekday on the way. */
  lemma WeeklyShiftAhead(c: Instant, days: seq<int>)
    requires |days| > 0 && DaysInWeek(days)
    requires !HasSameDay(days, Weekday(c))
    ensures var k := MinDaysAhead(days, Weekday(c));
      && 1 <= k <= 6
      && Weekday(c + k * MsPerDay) in days
      && (forall j :: 0 <= j < k ==> Weekday(c + j * MsPerDay) !in days)
      && Weekday(c) !in days
  {
    var w := Weekday(c);
    var k := MinDaysAhead(days, w);
    MinDaysAheadNearest(days, w);
    var i :| 0 <= i < |days| && DaysAhead(days[i], w) == k;
    DaysAheadInWeek(days[i], w);
    ShiftDays(c, k);
    assert Weekday(c + k * MsPerDay) == days[i];
    forall j | 0 <= j < k ensures Weekday(c + j * MsPerDay) !in days {
      ShiftDays(c, j);
      if Weekday(c + j * MsPerDay) in days {
        var i' :| 0 <= i' < |days| && days[i'] == Weekday(c + j * MsPerDay);
        DaysAheadUnique(days[i'], w, j);
      }
    }
    assert w !in days by {
      forall i' | 0 <= i' < |days| ensures days[i'] != w {
        DaysAheadInWeek(days[i'], w);
      }
    }
  }

  /** From any instant, the weekly offset moves to the nearest listed weekday:
      none when the instant's own weekday is listed, else within six days with
      no listed weekday in between. */
  lemma WeeklyShift(c: Instant, days: seq<int>)
    requires |days| > 0 && DaysInWeek(days)
    ensures var k := WeeklyOffset(days, Weekday(c), true);
      && 0 <= k <= 6
      && Weekday(c + k * MsPerDay) in days
      && (forall j :: 0 <= j < k ==> Weekday(c + j * MsPerDay) !in days)
      && (k == 0 <==> Weekday(c) in days)
  {
    var w := Weekday(c);
    if HasSameDay(days, w) {
      var i :| 0 <= i < |days| && DaysAhead(days[i], w) == 0;
      DaysAheadInWeek(days[i], w);
      assert days[i] == w;
      assert c + 0 * MsPerDay == c;
    } else {
      WeeklyShiftAhead(c, days);
    }
  }

  /** `weekly` with a non-empty list of in-range days returns the nearest listed
      weekday at or after the candidate: the candidate itself when its weekday is
      listed, otherwise at most six days later, with no listed weekday in between. */
  lemma WeeklyNext(hour: int, minute: int, days: seq<int>, now: Instant)
    requires ValidHour(hour) && ValidMinute(minute)
    requires |days| > 0 && DaysInWeek(days)
    ensures var c := Candidate(hour, minute, now);
      var r := JsNext(hour, minute, "weekly", Some(days), now);
      && (r - c) % MsPerDay == 0 && 0 <= r - c <= 6 * MsPerDay
      && Weekday(r) in days
      && (forall j :: 0 <= j < (r - c) / MsPerDay ==> Weekday(c + j * MsPerDay) !in days)
      && (r == c <==> Weekday(c) in days)
      && now < r && r - DayStart(r) == Slot(hour, minute)
  {
    var c := Candidate(hour, minute, now);
    CandidateFacts(hour, minute, now);
    var k := WeeklyOffset(days, Weekday(c), true);
    assert JsNext(hour, minute, "weekly", Some(days), now) == c + k * MsPerDay;
    WeeklyShift(c, days);
    ShiftDays(c, k);
    assert (c + k * MsPerDay - c) / MsPerDay == k;
  }

  /** `weekly` without days, and any unknown repeat rule, fall back to the candidate. */
  lemma FallbackNext(hour: int, minute: int, repeatType: string, repeatDays: Option<seq<int>>, now: Instant)
    requires repeatType !in {"once", "daily", "weekdays", "weekends", "weekly"}
          || (repeatType == "weekly" && (repeatDays.None? || repeatDays.value == []))
    ensures JsNext(hour, minute, repeatType, repeatDays, now) == Candidate(hour, minute, now)
  {
  }

  /** For in-range days the weekly offset is the least distance to a listed day. */
  lemma WeeklyOffsetIsLeastDistance(days: seq<int>, current: int)
    requires |days| > 0 && DaysInWeek(days) && 0 <= current <= 6
    ensures var k := WeeklyOffset(days, current, true);
      && (exists i :: 0 <= i < |days| && DaysAhead(days[i], current) == k)
      && (forall i :: 0 <= i < |days| ==> k <= DaysAhead(days[i], current))
  {
    if HasSameDay(days, current) {
      forall i | 0 <= i < |days| ensures 0 <= DaysAhead(days[i], current) {
        DaysAheadInWeek(days[i], current);
      }
    } else {
      MinDaysAheadNearest(days, current);
    }
  }
}
