/** The three energy tables, their CHECK constraints, and the BEFORE INSERT OR
    UPDATE trigger that recomputes `next_execution` on every schedule write. */
module Schema {
  import opened Wrappers
  import opened Clock
  import SqlRecurrence

  predicate IsMode(s: string) { s == "solar" || s == "grid" }

  predicate IsRepeatType(s: string) {
    s == "once" || s == "daily" || s == "weekly" || s == "weekdays" || s == "weekends"
  }

  predicate IsScheduleType(s: string) { s == "time" || s == "range" }

  /** The other mode (`targetMode === 'solar' ? 'grid' : 'solar'`). */
  function Complement(mode: string): string { if mode == "solar" then "grid" else "solar" }

  /** `secondaryMode || complement(targetMode)`: an absent or empty secondary mode
      falls back to the complement of the target. */
  function EffectiveSecondary(targetMode: string, secondaryMode: Option<string>): string
  {
    if secondaryMode.Some? && secondaryMode.value != "" then secondaryMode.value else Complement(targetMode)
  }

  /** A row of `energy_schedules` in the schema that supports both schedule types.
      Nullable columns are options. */
  datatype ScheduleRow = ScheduleRow(
    id: nat,
    deviceId: string,
    userId: int,
    name: string,
    targetMode: string,
    scheduleType: string,
    hour: Option<int>,
    minute: Option<int>,
    startHour: Option<int>,
    startMinute: Option<int>,
    endHour: Option<int>,
    endMinute: Option<int>,
    secondaryMode: Option<string>,
    repeatType: string,
    repeatDays: Option<seq<int>>,
    isEnabled: bool,
    lastExecuted: Option<Instant>,
    nextExecution: Option<Instant>,
    updatedAt: Instant)

  predicate OptWithin(x: Option<int>, lo: int, hi: int) { x.None? || lo <= x.value <= hi }

  /** Every CHECK constraint of `energy_schedules` in the two-type schema. */
  predicate ScheduleChecks(r: ScheduleRow)
  {
    && OptWithin(r.hour, 0, 23) && OptWithin(r.minute, 0, 59)
    && OptWithin(r.startHour, 0, 23) && OptWithin(r.startMinute, 0, 59)
    && OptWithin(r.endHour, 0, 23) && OptWithin(r.endMinute, 0, 59)
    && (r.secondaryMode.None? || IsMode(r.secondaryMode.value))
    && IsMode(r.targetMode)
    && IsRepeatType(r.repeatType)
    && IsScheduleType(r.scheduleType)
    && (r.scheduleType != "time" || (r.hour.Some? && r.minute.Some?))
    && (r.scheduleType != "range" ||
          (r.startHour.Some? && r.startMinute.Some? && r.endHour.Some? && r.endMinute.Some?))
  }

  /** NOT NULL and CHECK constraints of the time-only `energy_schedules` table. */
  predicate TimeOnlyScheduleChecks(r: ScheduleRow)
  {
    && r.hour.Some? && 0 <= r.hour.value <= 23
    && r.minute.Some? && 0 <= r.minute.value <= 59
    && IsMode(r.targetMode)
    && IsRepeatType(r.repeatType)
  }

  /** A row of `device_energy_modes`; the map key is the UNIQUE `device_id`. */
  datatype ModeRow = ModeRow(currentMode: string, changedBy: string, lastChanged: Instant)

  /** A row of `energy_mode_history`. */
  datatype HistoryRow = HistoryRow(
    deviceId: string,
    fromMode: Option<string>,
    toMode: string,
    changedBy: string,
    scheduleId: Option<nat>,
    timestamp: Instant)

  /** SQL's three truth values, needed to read a CHECK constraint correctly:
      a CHECK rejects a row only when its condition is FALSE. */
  datatype SqlBool = SqlTrue | SqlFalse | SqlNull

  /** `x IN (list)`: TRUE on a match; otherwise NULL if `x` or any entry is NULL; else FALSE. */
  function SqlIn(x: Option<string>, list: seq<Option<string>>): SqlBool
  {
    if x.None? then SqlNull
    else if Some(x.value) in list then SqlTrue
    else if None in list then SqlNull
    else SqlFalse
  }

  function SqlOr(a: SqlBool, b: SqlBool): SqlBool
  {
    if a == SqlTrue || b == SqlTrue then SqlTrue
    else if a == SqlNull || b == SqlNull then SqlNull
    else SqlFalse
  }

  function SqlIsNull(x: Option<string>): SqlBool { if x.None? then SqlTrue else SqlFalse }

  predicate CheckPasses(b: SqlBool) { b != SqlFalse }

  /** `CHECK (from_mode IN ('solar', 'grid', NULL))` of the two-type schema, as written. */
  predicate ResetFromModeCheck(fromMode: Option<string>)
  {
    CheckPasses(SqlIn(fromMode, [Some("solar"), Some("grid"), None]))
  }

  /** `CHECK (from_mode IN ('solar', 'grid') OR from_mode IS NULL)` of the time-only schema. */
  predicate TimeOnlyFromModeCheck(fromMode: Option<string>)
  {
    CheckPasses(SqlOr(SqlIn(fromMode, [Some("solar"), Some("grid")]), SqlIsNull(fromMode)))
  }

  /** The NULL in the IN list makes the first form accept every value: an
      unknown mode yields NULL, not FALSE. */
  lemma ResetFromModeCheckAcceptsAnyMode(fromMode: Option<string>)
    ensures ResetFromModeCheck(fromMode)
    ensures ResetFromModeCheck(Some("hydro"))
  {
  }

  /** The second form accepts exactly NULL or a valid mode. */
  lemma TimeOnlyFromModeCheckIsExact(fromMode: Option<string>)
    ensures TimeOnlyFromModeCheck(fromMode) <==> (fromMode.None? || IsMode(fromMode.value))
  {
    if fromMode.Some? && !IsMode(fromMode.value) {
      assert Some(fromMode.value) !in [Some("solar"), Some("grid")];
    }
  }

  /** History constraints the store keeps: the intended from-mode rule and a valid to-mode. */
  predicate HistoryChecks(h: HistoryRow)
  {
    TimeOnlyFromModeCheck(h.fromMode) && IsMode(h.toMode)
  }

  /** `calculate_next_execution(NEW.hour, NEW.minute, ...)`: a NULL hour or minute makes the result NULL. */
  function CalcForRow(v: SqlRecurrence.Variant, r: ScheduleRow, from: Instant): Option<Instant>
  {
    if r.hour.Some? && r.minute.Some? then
      SqlRecurrence.SqlNext(v, r.hour.value, r.minute.value, r.repeatType, r.repeatDays, from)
    else None
  }

  /** `update_next_execution` of the two-type schema. */
  function ResetTrigger(r: ScheduleRow, now: Instant): ScheduleRow
  {
    var next :=
      if r.scheduleType == "time" then
        (if r.isEnabled then CalcForRow(SqlRecurrence.ResetDatabase, r, r.lastExecuted.GetOr(now)) else None)
      else None;
    r.(nextExecution := next, updatedAt := now)
  }

  /** `update_next_execution` of the time-only migration and of the function fix:
      no schedule-type branch. */
  function PlainTrigger(v: SqlRecurrence.Variant, r: ScheduleRow, now: Instant): ScheduleRow
  {
    var next := if r.isEnabled then CalcForRow(v, r, r.lastExecuted.GetOr(now)) else None;
    r.(nextExecution := next, updatedAt := now)
  }

  /** The two-type trigger as PL/pgSQL runs it: assign `NEW.next_execution`
      by branch, then stamp `NEW.updated_at`. */
  method UpdateNextExecution(newRow: ScheduleRow, now: Instant) returns (r: ScheduleRow)
    ensures r == ResetTrigger(newRow, now)
  {
    r := newRow;
    if r.scheduleType == "time" {
      if r.isEnabled && r.hour.Some? && r.minute.Some? {
        var next := SqlRecurrence.CalculateNextExecutionSql(SqlRecurrence.ResetDatabase, r.hour.value, r.minute.value,
                                                            r.repeatType, r.repeatDays, r.lastExecuted.GetOr(now));
        r := r.(nextExecution := next);
      } else {
        r := r.(nextExecution := None);
      }
    } else {
      r := r.(nextExecution := None);
    }
    r := r.(updatedAt := now);
  }

  /** A row as the trigger left it at its last write. */
  predicate TriggerFixed(r: ScheduleRow) { ResetTrigger(r, r.updatedAt) == r }

  /** The type-agnostic trigger of the time-only migration and of the function fix. */
  method PlainUpdateNextExecution(v: SqlRecurrence.Variant, newRow: ScheduleRow, now: Instant) returns (r: ScheduleRow)
    ensures r == PlainTrigger(v, newRow, now)
  {
    r := newRow;
    if r.isEnabled && r.hour.Some? && r.minute.Some? {
      var next := SqlRecurrence.CalculateNextExecutionSql(v, r.hour.value, r.minute.value,
                                                          r.repeatType, r.repeatDays, r.lastExecuted.GetOr(now));
      r := r.(nextExecution := next);
    } else {
      r := r.(nextExecution := None);
    }
    r := r.(updatedAt := now);
  }

  /** Whatever the written row held, the trigger leaves every column but
      `next_execution` and `updated_at` alone, stamps `updated_at`, and sets
      `next_execution` from the schedule's own fields: NULL for ranges and
      disabled rows, else the database calculator from the last firing (or now). */
  lemma ResetTriggerResult(r: ScheduleRow, now: Instant)
    ensures var t := ResetTrigger(r, now);
      && t.(nextExecution := r.nextExecution, updatedAt := r.updatedAt) == r
      && t.updatedAt == now
      && (r.scheduleType != "time" || !r.isEnabled ==> t.nextExecution.None?)
      && (r.scheduleType == "time" && r.isEnabled && r.hour.Some? && r.minute.Some? ==>
            t.nextExecution == SqlRecurrence.SqlNext(SqlRecurrence.ResetDatabase, r.hour.value, r.minute.value,
                                                     r.repeatType, r.repeatDays, r.lastExecuted.GetOr(now)))
      && ResetTrigger(t, now) == t
  {
  }

  /** What a store needs of a row the trigger wrote: same id, stamped now,
      within the CHECKs exactly when the input was, and a fixed point. */
  lemma TriggerStores(r: ScheduleRow, now: Instant)
    ensures var t := ResetTrigger(r, now);
      && t.id == r.id && t.updatedAt == now
      && (ScheduleChecks(t) <==> ScheduleChecks(r))
      && TriggerFixed(t)
  {
  }

  /** The trigger cannot break a CHECK constraint, since it only touches unchecked columns. */
  lemma TriggerKeepsChecks(r: ScheduleRow, now: Instant)
    ensures ScheduleChecks(ResetTrigger(r, now)) <==> ScheduleChecks(r)
  {
  }

  /** For an enabled time row with a valid time and in-range days, the value the
      trigger writes is NULL or strictly after the instant it is computed from. */
  lemma TriggerNextIsAhead(r: ScheduleRow, now: Instant)
    requires ScheduleChecks(r) && r.scheduleType == "time" && r.isEnabled
    requires r.repeatDays.Some? ==> DaysInWeek(r.repeatDays.value)
    ensures var t := ResetTrigger(r, now);
      t.nextExecution.Some? ==> t.nextExecution.value > r.lastExecuted.GetOr(now)
  {
    SqlRecurrence.SqlNextAfterReference(SqlRecurrence.ResetDatabase, r.hour.value, r.minute.value,
                                        r.repeatType, r.repeatDays, r.lastExecuted.GetOr(now));
  }

  /** The type-agnostic trigger computes what the two-type trigger does on every
      row whose range variant carries no hour or minute, as the handlers write them. */
  lemma PlainTriggerMatchesReset(r: ScheduleRow, now: Instant)
    requires IsScheduleType(r.scheduleType)
    requires r.scheduleType == "range" ==> r.hour.None?
    ensures PlainTrigger(SqlRecurrence.ResetDatabase, r, now) == ResetTrigger(r, now)
  {
  }

  /** The fixed trigger computes what the migration's does. */
  lemma FixTriggerMatchesMigrate(r: ScheduleRow, now: Instant)
    ensures PlainTrigger(SqlRecurrence.FixAllFunctions, r, now) == PlainTrigger(SqlRecurrence.MigrateEnergyModes, r, now)
  {
    if r.hour.Some? && r.minute.Some? {
      SqlRecurrence.FixMatchesMigrate(r.hour.value, r.minute.value, r.repeatType, r.repeatDays, r.lastExecuted.GetOr(now));
    }
  }

  /** A time row of the two-type schema is a valid row of the time-only schema. */
  lemma TimeRowsMeetTimeOnlyChecks(r: ScheduleRow)
    requires ScheduleChecks(r) && r.scheduleType == "time"
    ensures TimeOnlyScheduleChecks(r)
  {
  }
}
