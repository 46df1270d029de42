/** The database's next-firing calculator, the PL/pgSQL function
    `calculate_next_execution`, in the three versions the repository installs.
    It is the one the per-minute tick and the row trigger use. */
module SqlRecurrence {
  import opened Wrappers
  import opened Clock
  import JsRecurrence

  /** Which script installed the function. The later two skip the weekly branch
      for an empty day array; the first lets it reach a NULL array element. The
      third differs from the second only in using time-zone-aware timestamps,
      which this model does not distinguish. */
  datatype Variant = ResetDatabase | MigrateEnergyModes | FixAllFunctions

  predicate HasEmptyArrayGuard(v: Variant) { v != ResetDatabase }

  predicate SortedAsc(s: seq<int>) { forall i, j :: 0 <= i < j < |s| ==> s[i] <= s[j] }

  /** Inserts `x` into an ascending sequence. */
  function InsertSorted(x: int, s: seq<int>): (r: seq<int>)
    requires SortedAsc(s)
    ensures SortedAsc(r)
    ensures multiset(r) == multiset(s) + multiset{x}
    ensures |r| == |s| + 1
    ensures r[0] == if |s| == 0 || x <= s[0] then x else s[0]
  {
    if |s| == 0 then [x]
    else if x <= s[0] then [x] + s
    else
      var rest := InsertSorted(x, s[1..]);
      assert s == [s[0]] + s[1..];
      assert s[0] <= rest[0];
      [s[0]] + rest
  }

  /** The day array in ascending order (`SELECT UNNEST(days) ORDER BY 1`). */
  function SortAscending(s: seq<int>): (r: seq<int>)
    ensures SortedAsc(r)
    ensures multiset(r) == multiset(s)
  {
    if |s| == 0 then []
    else
      assert s == [s[0]] + s[1..];
      InsertSorted(s[0], SortAscending(s[1..]))
  }

  /** A day on which the weekly FOR loop returns: a same-day match while the
      candidate is still ahead of the reference, or a positive distance. */
  predicate Qualifies(d: int, current: int, pending: bool)
  {
    (DaysAhead(d, current) == 0 && pending) || DaysAhead(d, current) > 0
  }

  /** The smallest listed day that qualifies, if any. */
  function MinQualifying(days: seq<int>, current: int, pending: bool): Option<int>
  {
    if |days| == 0 then None
    else
      var rest := MinQualifying(days[1..], current, pending);
      if !Qualifies(days[0], current, pending) then rest
      else if rest.Some? && rest.value < days[0] then rest
      else Some(days[0])
  }

  /** The smallest element of a non-empty sequence. */
  function SmallestDay(days: seq<int>): (m: int)
    requires |days| > 0
    ensures m in days
    ensures forall i :: 0 <= i < |days| ==> m <= days[i]
  {
    if |days| == 1 then days[0]
    else
      var rest := SmallestDay(days[1..]);
      assert forall i :: 1 <= i < |days| ==> days[i] == days[1..][i - 1];
      if days[0] <= rest then days[0] else rest
  }

  /** Distance used after the loop, from the FIRST listed day (`p_repeat_days[1]`). */
  function FallbackAhead(first: int, current: int): int
  {
    if DaysAhead(first, current) == 0 then 7 else DaysAhead(first, current)
  }

  /** Reference definition of the weekly branch for a non-empty day array. */
  function WeeklyResult(days: seq<int>, c: Instant, from: Instant): Instant
    requires |days| > 0
  {
    match MinQualifying(days, Weekday(c), c > from)
    case Some(d) => c + DaysAhead(d, Weekday(c)) * MsPerDay
    case None => c + FallbackAhead(days[0], Weekday(c)) * MsPerDay
  }

  /** Reference definition of `calculate_next_execution`; NULL is `None`. */
  function SqlNext(v: Variant, hour: int, minute: int, repeatType: string, repeatDays: Option<seq<int>>, from: Instant)
    : Option<Instant>
  {
    var c := Candidate(hour, minute, from);
    if repeatType == "once" || repeatType == "daily" then Some(c)
    else if repeatType == "weekdays" then Some(c + JsRecurrence.WeekdaysSkip(Weekday(c)) * MsPerDay)
    else if repeatType == "weekends" then Some(c + JsRecurrence.WeekendsSkip(Weekday(c)) * MsPerDay)
    else if repeatType == "weekly" && repeatDays.Some? && (!HasEmptyArrayGuard(v) || |repeatDays.value| > 0) then
      if |repeatDays.value| == 0 then None else Some(WeeklyResult(repeatDays.value, c, from))
    else Some(c)
  }

  /** MinQualifying is the least qualifying listed day, and is absent exactly when none qualifies. */
  lemma {:induction false} MinQualifyingIsLeast(days: seq<int>, current: int, pending: bool)
    ensures MinQualifying(days, current, pending).None?
        <==> forall i :: 0 <= i < |days| ==> !Qualifies(days[i], current, pending)
    ensures MinQualifying(days, current, pending).Some? ==>
      var d := MinQualifying(days, current, pending).value;
      && d in days && Qualifies(d, current, pending)
      && forall i :: 0 <= i < |days| && Qualifies(days[i], current, pending) ==> d <= days[i]
  {
    if |days| > 0 {
      MinQualifyingIsLeast(days[1..], current, pending);
      assert forall i :: 1 <= i < |days| ==> days[i] == days[1..][i - 1];
    }
  }

  /** In an ascending sequence with the same elements, the first qualifying entry
      is the least qualifying day of the original. */
  lemma FirstSortedQualifying(days: seq<int>, sorted: seq<int>, i: int, current: int, pending: bool)
    requires SortedAsc(sorted) && multiset(sorted) == multiset(days)
    requires 0 <= i < |sorted| && Qualifies(sorted[i], current, pending)
    requires forall j :: 0 <= j < i ==> !Qualifies(sorted[j], current, pending)
    ensures MinQualifying(days, current, pending) == Some(sorted[i])
  {
    MinQualifyingIsLeast(days, current, pending);
    assert sorted[i] in multiset(days);
    var k :| 0 <= k < |days| && days[k] == sorted[i];
    var d := MinQualifying(days, current, pending).value;
    assert d in multiset(sorted);
    var j :| 0 <= j < |sorted| && sorted[j] == d;
    assert d <= sorted[i];
    assert i <= j;
  }

  /** No sorted entry qualifies, so no listed day does. */
  lemma NoneSortedQualifying(days: seq<int>, sorted: seq<int>, current: int, pending: bool)
    requires multiset(sorted) == multiset(days)
    requires forall j :: 0 <= j < |sorted| ==> !Qualifies(sorted[j], current, pending)
    ensures MinQualifying(days, current, pending) == None
  {
    MinQualifyingIsLeast(days, current, pending);
    forall i | 0 <= i < |days| ensures !Qualifies(days[i], current, pending) {
      assert days[i] in multiset(sorted);
    }
  }

  /** The weekly result when the loop stops at sorted entry `i`. */
  lemma WeeklyResultAt(days: seq<int>, sorted: seq<int>, i: int, c: Instant, from: Instant)
    requires SortedAsc(sorted) && multiset(sorted) == multiset(days)
    requires 0 <= i < |sorted| && Qualifies(sorted[i], Weekday(c), c > from)
    requires forall j :: 0 <= j < i ==> !Qualifies(sorted[j], Weekday(c), c > from)
    ensures |days| > 0 && WeeklyResult(days, c, from) == c + DaysAhead(sorted[i], Weekday(c)) * MsPerDay
  {
    assert |days| == |multiset(days)| == |sorted|;
    FirstSortedQualifying(days, sorted, i, Weekday(c), c > from);
  }

  /** The weekly result when the loop finds no qualifying entry. */
  lemma WeeklyResultFallback(days: seq<int>, sorted: seq<int>, c: Instant, from: Instant)
    requires multiset(sorted) == multiset(days) && |days| > 0
    requires forall j :: 0 <= j < |sorted| ==> !Qualifies(sorted[j], Weekday(c), c > from)
    ensures WeeklyResult(days, c, from) == c + FallbackAhead(days[0], Weekday(c)) * MsPerDay
  {
    NoneSortedQualifying(days, sorted, Weekday(c), c > from);
  }

  /** The PL/pgSQL function as written: WHILE loops that step a day at a time and a
      FOR loop over the sorted days that returns on the first qualifying one. */
  method CalculateNextExecutionSql(v: Variant, hour: int, minute: int, repeatType: string,
                                   repeatDays: Option<seq<int>>, from: Instant)
    returns (r: Option<Instant>)
    ensures r == SqlNext(v, hour, minute, repeatType, repeatDays, from)
  {
    var nextTime := DayStart(from) + Slot(hour, minute);
    if nextTime <= from {
      nextTime := nextTime + MsPerDay;
    }
    assert nextTime == Candidate(hour, minute, from);

    if repeatType == "once" {
      return Some(nextTime);
    }
    if repeatType == "daily" {
      return Some(nextTime);
    }
    if repeatType == "weekdays" {
      nextTime := JsRecurrence.SkipToWeekday(nextTime);
      return Some(nextTime);
    }
    if repeatType == "weekends" {
      nextTime := JsRecurrence.SkipToWeekend(nextTime);
      return Some(nextTime);
    }
    if repeatType == "weekly" && repeatDays.Some? && (!HasEmptyArrayGuard(v) || |repeatDays.value| > 0) {
      r := WeeklyBranch(repeatDays.value, nextTime, from);
      return;
    }
    return Some(nextTime);
  }

  /** The weekly branch: days ahead of the candidate's weekday, taken over the
      days in ascending order, with the fallback on the first listed day. */
  method WeeklyBranch(days: seq<int>, nextTime: Instant, from: Instant) returns (r: Option<Instant>)
    ensures |days| == 0 ==> r == None
    ensures |days| > 0 ==> r == Some(WeeklyResult(days, nextTime, from))
  {
    var currentDow := Weekday(nextTime);
    var sorted := SortAscending(days);
    for i := 0 to |sorted|
      invariant forall j :: 0 <= j < i ==> !Qualifies(sorted[j], currentDow, nextTime > from)
    {
      var daysAhead := DaysAhead(sorted[i], currentDow);
      if daysAhead == 0 && nextTime > from {
        WeeklyResultAt(days, sorted, i, nextTime, from);
        return Some(nextTime);
      } else if daysAhead > 0 {
        WeeklyResultAt(days, sorted, i, nextTime, from);
        return Some(nextTime + daysAhead * MsPerDay);
      }
    }
    if |days| == 0 {
      // p_repeat_days[1] of an empty array is NULL, and so is every sum with it.
      return None;
    }
    WeeklyResultFallback(days, sorted, nextTime, from);
    var targetDow := days[0];
    var daysAhead := DaysAhead(targetDow, currentDow);
    if daysAhead == 0 {
      daysAhead := 7;
    }
    return Some(nextTime + daysAhead * MsPerDay);
  }

  /** For every rule but `weekly`, the database and the server compute the same instant. */
  lemma SqlAgreesWithJsOffWeekly(v: Variant, hour: int, minute: int, repeatType: string,
                                 repeatDays: Option<seq<int>>, from: Instant)
    requires repeatType != "weekly"
    ensures SqlNext(v, hour, minute, repeatType, repeatDays, from)
         == Some(JsRecurrence.JsNext(hour, minute, repeatType, repeatDays, from))
  {
  }

  /** With in-range days every listed day qualifies, so the loop stops at the
      smallest one; the least qualifying day is then the smallest day. */
  lemma AllQualify(days: seq<int>, current: int)
    requires |days| > 0 && DaysInWeek(days) && 0 <= current <= 6
    ensures MinQualifying(days, current, true) == Some(SmallestDay(days))
  {
    MinQualifyingIsLeast(days, current, true);
    forall i | 0 <= i < |days| ensures Qualifies(days[i], current, true) {
      DaysAheadInWeek(days[i], current);
    }
    var d := MinQualifying(days, current, true).value;
    var s := SmallestDay(days);
    var k :| 0 <= k < |days| && days[k] == s;
    assert d <= days[k];
  }

  /** `weekly` with a non-empty list of in-range days returns the candidate moved
      to the SMALLEST listed weekday (ascending day-number order), within six days. */
  lemma SqlWeeklySmallestDay(v: Variant, hour: int, minute: int, days: seq<int>, from: Instant)
    requires ValidHour(hour) && ValidMinute(minute)
    requires |days| > 0 && DaysInWeek(days)
    ensures var c := Candidate(hour, minute, from);
      var r := SqlNext(v, hour, minute, "weekly", Some(days), from);
      && r.Some?
      && r.value == c + DaysAhead(SmallestDay(days), Weekday(c)) * MsPerDay
      && Weekday(r.value) == SmallestDay(days)
      && 0 <= r.value - c <= 6 * MsPerDay
      && from < r.value && r.value - DayStart(r.value) == Slot(hour, minute)
  {
    CandidateFacts(hour, minute, from);
    WeeklyUnfold(v, hour, minute, days, from);
    WeeklyResultSmallest(days, Candidate(hour, minute, from), from);
  }

  lemma WeeklyResultSmallest(days: seq<int>, c: Instant, from: Instant)
    requires |days| > 0 && DaysInWeek(days) && from < c
    ensures var r := WeeklyResult(days, c, from);
      && r == c + DaysAhead(SmallestDay(days), Weekday(c)) * MsPerDay
      && Weekday(r) == SmallestDay(days)
      && 0 <= r - c <= 6 * MsPerDay
      && r - DayStart(r) == c - DayStart(c)
  {
    var w := Weekday(c);
    var sd := SmallestDay(days);
    AllQualify(days, w);
    var a := DaysAhead(sd, w);
    DaysAheadInWeek(sd, w);
    ShiftDays(c, a);
  }

  lemma WeeklyUnfold(v: Variant, hour: int, minute: int, days: seq<int>, from: Instant)
    requires |days| > 0
    ensures SqlNext(v, hour, minute, "weekly", Some(days), from)
         == Some(WeeklyResult(days, Candidate(hour, minute, from), from))
  {
  }

  /** Two different answers for the same schedule: weekly on Monday and Friday,
      evaluated when the candidate falls on a Wednesday (8:00 on day 6 after the
      epoch). The server picks Friday, two days on; the database picks Monday, five days on. */
  lemma WeeklyDivergenceExample()
    ensures JsRecurrence.JsNext(8, 0, "weekly", Some([1, 5]), 6 * MsPerDay) == 8 * MsPerDay + 8 * MsPerHour
    ensures SqlNext(ResetDatabase, 8, 0, "weekly", Some([1, 5]), 6 * MsPerDay) == Some(11 * MsPerDay + 8 * MsPerHour)
  {
    var c := Candidate(8, 0, 6 * MsPerDay);
    DayOfSlot(6, 8 * MsPerHour);
    assert c == 6 * MsPerDay + 8 * MsPerHour;
    assert Weekday(c) == 3;
    assert !JsRecurrence.HasSameDay([1, 5], 3);
    assert [1, 5][..1] == [1];
    assert JsRecurrence.MinDaysAhead([1, 5], 3) == 2;
    assert MinQualifying([1, 5], 3, true) == Some(1);
  }

  /** The two calculators agree on a weekly schedule exactly when the smallest
      listed weekday is also the nearest one. */
  lemma WeeklyAgreementIffSmallestIsNearest(v: Variant, hour: int, minute: int, days: seq<int>, from: Instant)
    requires ValidHour(hour) && ValidMinute(minute)
    requires |days| > 0 && DaysInWeek(days)
    ensures var w := Weekday(Candidate(hour, minute, from));
      SqlNext(v, hour, minute, "weekly", Some(days), from) == Some(JsRecurrence.JsNext(hour, minute, "weekly", Some(days), from))
      <==> forall i :: 0 <= i < |days| ==> DaysAhead(SmallestDay(days), w) <= DaysAhead(days[i], w)
  {
    var c := Candidate(hour, minute, from);
    var w := Weekday(c);
    CandidateFacts(hour, minute, from);
    var k := JsRecurrence.WeeklyOffset(days, w, true);
    assert JsRecurrence.JsNext(hour, minute, "weekly", Some(days), from) == c + k * MsPerDay;
    JsRecurrence.WeeklyOffsetIsLeastDistance(days, w);
    WeeklyUnfold(v, hour, minute, days, from);
    WeeklyResultSmallest(days, c, from);
    var sd := SmallestDay(days);
    var a := DaysAhead(sd, w);
    if forall i :: 0 <= i < |days| ==> a <= DaysAhead(days[i], w) {
      var i :| 0 <= i < |days| && DaysAhead(days[i], w) == k;
      assert a <= k;
      var m :| 0 <= m < |days| && days[m] == sd;
      assert k <= a;
    } else {
      var i :| 0 <= i < |days| && DaysAhead(days[i], w) < a;
      assert k != a;
    }
  }

  /** From the candidate, the reference's own weekday is zero days ahead when
      the time is still to come today, and six days ahead when the candidate
      is tomorrow. */
  lemma SameWeekdayDistance(hour: int, minute: int, from: Instant)
    requires ValidHour(hour) && ValidMinute(minute)
    ensures var today := DayStart(from) + Slot(hour, minute);
      var c := Candidate(hour, minute, from);
      c + DaysAhead(Weekday(from), Weekday(c)) * MsPerDay
        == if today > from then today else today + 7 * MsPerDay
  {
    var c := Candidate(hour, minute, from);
    CandidateFacts(hour, minute, from);
    DayStartBounds(from);
    var today := DayStart(from) + Slot(hour, minute);
    DayOfSlot(Day(from), Slot(hour, minute));
    assert Weekday(today) == Weekday(from);
    if today <= from {
      assert c == today + MsPerDay;
      ShiftDays(today, 1);
      DaysAheadUnique(Weekday(from), Weekday(c), 6);
    } else {
      DaysAheadUnique(Weekday(from), Weekday(c), 0);
    }
  }

  /** The database's side of the same-weekday scenario. */
  lemma SqlSameWeekday(v: Variant, hour: int, minute: int, from: Instant)
    requires ValidHour(hour) && ValidMinute(minute)
    ensures var today := DayStart(from) + Slot(hour, minute);
      SqlNext(v, hour, minute, "weekly", Some([Weekday(from)]), from)
        == Some(if today > from then today else today + 7 * MsPerDay)
  {
    var days := [Weekday(from)];
    SqlWeeklySmallestDay(v, hour, minute, days, from);
    assert SmallestDay(days) == Weekday(from);
    SameWeekdayDistance(hour, minute, from);
  }

  /** A weekly schedule on the reference's own weekday fires later that day when
      its time is still ahead, and otherwise exactly seven days later; both
      calculators agree. */
  lemma WeeklySameWeekdayScenario(v: Variant, hour: int, minute: int, from: Instant)
    requires ValidHour(hour) && ValidMinute(minute)
    ensures var today := DayStart(from) + Slot(hour, minute);
      var expected := if today > from then today else today + 7 * MsPerDay;
      && JsRecurrence.JsNext(hour, minute, "weekly", Some([Weekday(from)]), from) == expected
      && SqlNext(v, hour, minute, "weekly", Some([Weekday(from)]), from) == Some(expected)
  {
    var days := [Weekday(from)];
    SqlSameWeekday(v, hour, minute, from);
    WeeklyAgreementIffSmallestIsNearest(v, hour, minute, days, from);
    assert SmallestDay(days) == days[0];
  }

  /** The first version returns NULL for `weekly` with an empty (non-NULL) day array,
      and the candidate for a NULL one. */
  lemma ResetWeeklyWithoutDays(hour: int, minute: int, from: Instant)
    ensures SqlNext(ResetDatabase, hour, minute, "weekly", Some([]), from) == None
    ensures SqlNext(ResetDatabase, hour, minute, "weekly", None, from) == Some(Candidate(hour, minute, from))
  {
  }

  /** The guarded versions return the candidate for a NULL or empty day array. */
  lemma GuardedWeeklyWithoutDays(v: Variant, hour: int, minute: int, repeatDays: Option<seq<int>>, from: Instant)
    requires HasEmptyArrayGuard(v)
    requires repeatDays.None? || repeatDays.value == []
    ensures SqlNext(v, hour, minute, "weekly", repeatDays, from) == Some(Candidate(hour, minute, from))
  {
  }

  /** The time-zone-aware version computes what the time-only migration's does. */
  lemma FixMatchesMigrate(hour: int, minute: int, repeatType: string, repeatDays: Option<seq<int>>, from: Instant)
    ensures SqlNext(FixAllFunctions, hour, minute, repeatType, repeatDays, from)
         == SqlNext(MigrateEnergyModes, hour, minute, repeatType, repeatDays, from)
  {
  }

  /** For a valid time of day and in-range days, any instant the database returns
      is strictly after the reference, on hour:minute, within a week of the candidate. */
  lemma SqlNextAfterReference(v: Variant, hour: int, minute: int, repeatType: string,
                              repeatDays: Option<seq<int>>, from: Instant)
    requires ValidHour(hour) && ValidMinute(minute)
    requires repeatDays.Some? ==> DaysInWeek(repeatDays.value)
    ensures var r := SqlNext(v, hour, minute, repeatType, repeatDays, from);
      r.Some? ==> && from < r.value
                  && r.value - DayStart(r.value) == Slot(hour, minute)
                  && r.value <= Candidate(hour, minute, from) + 6 * MsPerDay
  {
    CandidateFacts(hour, minute, from);
    if repeatType == "weekly" && repeatDays.Some? && |repeatDays.value| > 0 {
      SqlWeeklySmallestDay(v, hour, minute, repeatDays.value, from);
    } else if repeatType == "weekdays" {
      JsRecurrence.WeekdaysNext(hour, minute, repeatDays, from);
    } else if repeatType == "weekends" {
      JsRecurrence.WeekendsNext(hour, minute, repeatDays, from);
    }
  }
}
