/** Calendar arithmetic over instants given as milliseconds since the Unix epoch.
    Time zones and daylight-saving shifts are not modelled: a day is always
    86 400 000 ms and weekday 0 is Sunday, as JavaScript's getDay and
    Postgres' EXTRACT(DOW ...) report it. */
module Clock {

  type Instant = int

  const MsPerMinute: int := 60000
  const MsPerHour: int := 3600000
  const MsPerDay: int := 86400000

  /** Number of whole days since the epoch (floor division). */
  function Day(t: Instant): int { t / MsPerDay }

  /** Midnight of the day of `t` (DATE_TRUNC('day', t)). */
  function DayStart(t: Instant): Instant { Day(t) * MsPerDay }

  /** Day of the week, Sunday = 0 (1 January 1970 was a Thursday). */
  function Weekday(t: Instant): int { (Day(t) + 4) % 7 }

  /** Offset of hour:minute:00.000 from midnight. */
  function Slot(hour: int, minute: int): int { hour * MsPerHour + minute * MsPerMinute }

  predicate ValidHour(h: int) { 0 <= h <= 23 }
  predicate ValidMinute(m: int) { 0 <= m <= 59 }

  predicate IsWeekendDay(w: int) { w == 0 || w == 6 }

  /** A list of weekday numbers each within 0..6. */
  predicate DaysInWeek(days: seq<int>) { forall i :: 0 <= i < |days| ==> 0 <= days[i] <= 6 }

  /** The first firing candidate shared by every implementation: the reference
      day at hour:minute, moved one day on when that is not after the reference. */
  function Candidate(hour: int, minute: int, from: Instant): Instant
  {
    var today := DayStart(from) + Slot(hour, minute);
    if today <= from then today + MsPerDay else today
  }

  /** Remainder by 7 with the sign of the dividend, as `%` behaves in JavaScript and Postgres. */
  function TruncMod7(a: int): (r: int)
    ensures a >= 0 ==> 0 <= r < 7
    ensures a < 0 ==> -7 < r <= 0
    ensures (a - r) % 7 == 0
  {
    if a >= 0 then a % 7 else -((-a) % 7)
  }

  /** `(target - current + 7) % 7` as both implementations write it. */
  function DaysAhead(target: int, current: int): int
  {
    TruncMod7(target - current + 7)
  }

  lemma DayStartBounds(t: Instant)
    ensures DayStart(t) <= t < DayStart(t) + MsPerDay
    ensures Day(DayStart(t)) == Day(t)
  {
  }

  /** Moving by whole days moves the day number and the weekday with it and keeps the time of day. */
  lemma ShiftDays(t: Instant, k: int)
    ensures Day(t + k * MsPerDay) == Day(t) + k
    ensures DayStart(t + k * MsPerDay) == DayStart(t) + k * MsPerDay
    ensures Weekday(t + k * MsPerDay) == (Weekday(t) + k) % 7
  {
    var q, r := t / MsPerDay, t % MsPerDay;
    assert t + k * MsPerDay == (q + k) * MsPerDay + r;
  }

  /** An instant built as midnight plus a slot within the day lies in that day. */
  lemma DayOfSlot(d: int, s: int)
    requires 0 <= s < MsPerDay
    ensures Day(d * MsPerDay + s) == d
    ensures (d * MsPerDay + s) - DayStart(d * MsPerDay + s) == s
  {
  }

  /** The candidate is strictly after the reference, at most one day after the
      reference day's slot, and falls on hour:minute:00.000. */
  lemma CandidateFacts(hour: int, minute: int, from: Instant)
    requires ValidHour(hour) && ValidMinute(minute)
    ensures from < Candidate(hour, minute, from)
    ensures Candidate(hour, minute, from) - DayStart(from) == Slot(hour, minute)
         || Candidate(hour, minute, from) - DayStart(from) == Slot(hour, minute) + MsPerDay
    ensures Candidate(hour, minute, from) == DayStart(from) + Slot(hour, minute)
        <==> DayStart(from) + Slot(hour, minute) > from
    ensures Candidate(hour, minute, from) - DayStart(Candidate(hour, minute, from)) == Slot(hour, minute)
  {
    DayStartBounds(from);
    var c := Candidate(hour, minute, from);
    var s := Slot(hour, minute);
    if DayStart(from) + s <= from {
      DayOfSlot(Day(from) + 1, s);
      assert c == (Day(from) + 1) * MsPerDay + s;
    } else {
      DayOfSlot(Day(from), s);
    }
  }

  /** For weekday numbers in range the distance is within a week and lands on the target. */
  lemma DaysAheadInWeek(target: int, current: int)
    requires 0 <= target <= 6 && 0 <= current <= 6
    ensures 0 <= DaysAhead(target, current) <= 6
    ensures (current + DaysAhead(target, current)) % 7 == target
    ensures DaysAhead(target, current) == 0 <==> target == current
  {
  }

  /** Within a week the distance to a weekday is determined by where it lands. */
  lemma DaysAheadUnique(target: int, current: int, j: int)
    requires 0 <= target <= 6 && 0 <= current <= 6 && 0 <= j <= 6
    requires (current + j) % 7 == target
    ensures DaysAhead(target, current) == j
  {
  }
}
