# Energy-mode scheduler: a Dafny model

This project models the energy-mode scheduling engine of a solar/grid
switching service. A device is in one of two energy modes, `solar` or
`grid`. Users change the mode by hand or through schedules of two kinds:

- a **time** schedule switches the device to a target mode at hour:minute,
  once or on a repeat rule (`once`, `daily`, `weekdays`, `weekends`,
  `weekly` with a day list);
- a **range** schedule wants the target mode inside a daily window and a
  secondary mode outside it. The window may wrap past midnight. The switch
  happens only on the window's boundary minutes.

A once-a-minute tick runs two passes. The first executes every due
enabled time schedule. The second evaluates every enabled range schedule.
Each switch updates the per-device mode ledger, appends a history row,
rewrites the schedule row and publishes a `setEnergyMode` command on
`solar/<device>/command`.

Two next-firing calculators exist and this model has both. One is the
server's own (`calculateNextExecution`). The other is the database
function `calculate_next_execution`, which the BEFORE INSERT OR UPDATE
trigger runs on every schedule write. It was installed in three versions:
by the two-type schema reset, by the time-only migration, and by the
function fix.

Modules and files:

| file | module | contents |
|---|---|---|
| `wrappers.dfy` | `Wrappers` | `Option`, the rendering of SQL NULL and JavaScript null/undefined |
| `clock.dfy` | `Clock` | instants in ms, day numbers, weekdays, candidate instants, truncating `%` |
| `js_recurrence.dfy` | `JsRecurrence` | the server calculator: a reference function and the loop method proved equal to it |
| `sql_recurrence.dfy` | `SqlRecurrence` | the database calculator in its three versions, as a reference function and as the loop method |
| `schema.dfy` | `Schema` | rows of the three energy tables, their CHECK constraints under SQL's three-valued logic, the trigger |
| `schedule_requests.dfy` | `ScheduleRequests` | create validation, the row a create inserts, the row an update merges |
| `range_eval.dfy` | `RangeEval` | the day gate, the in-range test, the expected mode, the edge trigger |
| `store.dfy` | `Store` | class `EnergyStore`: the tables, the handlers, the two executions, the tick |
| `status_cache.dfy` | `StatusCache` | class `DeviceStatusCache`: the in-memory status map and its two sweeps |

Design points:

- **Wall-clock inputs.** The tick receives `now` together with the
  wall-clock hour, minute and weekday. The server reads these from a
  clock in a fixed time zone, so here they are parameters.
- **Order of visits.** Each pass takes its query result as a snapshot. It
  then visits the rows in an unspecified order, written as a `:|` choice.
  Each pass returns the order it took as a ghost sequence. Its new tables
  are a left fold of one visit per id over that order (`TimeRun`,
  `RangeRun`), and each range visit decides from the ledger the earlier
  visits left. The lemmas about the folds hold for every order.
  The server hands each visit its snapshot row. A visit rewrites only its
  own row, so the row a visit reads is still the snapshot row
  (`RangeRunKeepsUnvisited`, `TimeRunRows`).
- **Ledger and history.** `LedgerFollowsHistory` relates the ledger and the
  history as they grow together. A device without appended rows keeps its
  ledger row, and each device holds the mode of its last appended row. A
  device's first appended row records the old ledger mode; each later row
  records the mode its predecessor switched to.
- **Validity predicate.** `EnergyStore.Valid()` states that every stored
  schedule:
  - meets its CHECK constraints;
  - is a fixed point of the trigger;
  - has its id as its key, below the next serial value.

  It also states that every history row meets the intended history
  constraints and refers to an existing schedule or NULL, and that the
  outbox announces the history one command per row, in the same order.
  Every method preserves it.

## Model

| member | source | states |
|---|---|---|
| Clock.TruncMod7 | backend/server.js:2187 | `%` keeps the sign of the dividend, as in JavaScript and Postgres: non-negative and below 7 for a non-negative operand, in (-7, 0] for a negative one, always congruent mod 7 |
| Clock.DayStartBounds | backend/reset-database.js:242-243 | the truncated day start is at or before the instant and less than a day before it, and lies in the same day |
| Clock.ShiftDays | backend/server.js:2153 | adding k whole days moves the day number and the weekday by k and keeps the time of day |
| Clock.DayOfSlot | backend/server.js:2148-2150 | midnight plus a time of day lies in that day, at that offset |
| Clock.CandidateFacts | backend/server.js:2146-2154 | the first candidate (today at hour:minute, or tomorrow if not after the reference) is strictly after the reference, at the requested time of day, at most one day ahead |
| Clock.DaysAheadInWeek | backend/server.js:2187 | for weekday numbers 0..6 the days-ahead formula is within 0..6, lands on the target, and is 0 exactly on the same weekday |
| Clock.DaysAheadUnique | backend/server.js:2187 | within a week the days-ahead value is the only distance that lands on the target |
| JsRecurrence.CalculateNextExecution | backend/server.js:2144-2209 | the loops of the server calculator compute exactly the reference instant `JsNext` |
| JsRecurrence.SkipToWeekday | backend/server.js:2165-2167 | the `weekdays` loop moves a Saturday candidate two days and a Sunday one day on, and leaves any other day alone; the PL/pgSQL loop at backend/reset-database.js:258-260 steps the same way |
| JsRecurrence.SkipToWeekend | backend/server.js:2172-2174 | the `weekends` loop moves a Monday-to-Friday candidate on to Saturday and leaves a weekend day alone; the PL/pgSQL loop at backend/reset-database.js:265-267 steps the same way |
| JsRecurrence.ScanWeeklyDays | backend/server.js:2183-2202 | the scan returns 0 when a listed day is the candidate's weekday and the candidate is still ahead, and otherwise the smallest distance with 0 counted as 7 |
| JsRecurrence.MinDaysAheadNearest | backend/server.js:2183-2204 | with in-range days and no same-day match, the weekly minimum is in 1..6, reached by some listed day and no larger than any listed day's distance |
| JsRecurrence.OnceDailyNext | backend/server.js:2157-2161 | `once` and `daily` return an instant strictly after the reference at hour:minute: on the reference day exactly when that is still ahead, else on the next day |
| JsRecurrence.WeekdaysNext | backend/server.js:2163-2168 | `weekdays` returns the first Monday-to-Friday day at or after the candidate, whole days later and at most two, with only weekend days skipped; strictly after the reference, at hour:minute |
| JsRecurrence.WeekendsNext | backend/server.js:2170-2175 | `weekends` returns the first Saturday or Sunday at or after the candidate, whole days later and at most five, with only working days skipped; strictly after the reference, at hour:minute |
| JsRecurrence.WeeklyNext | backend/server.js:2177-2205 | `weekly` with in-range days returns the nearest listed weekday at or after the candidate: the candidate itself exactly when its weekday is listed, otherwise within six days with no listed weekday in between; strictly after the reference, at hour:minute |
| JsRecurrence.FallbackNext | backend/server.js:2178-2179 | `weekly` without days and any unknown repeat rule return the candidate |
| JsRecurrence.WeeklyOffsetIsLeastDistance | backend/server.js:2186-2204 | for in-range days the weekly offset is reached by some listed day and is no larger than the distance to any listed day |
| SqlRecurrence.InsertSorted | backend/reset-database.js:273 | insertion keeps the list ascending and keeps its multiset, plus the new element |
| SqlRecurrence.SortAscending | backend/reset-database.js:273 | `UNNEST(days) ORDER BY 1` yields an ascending permutation of the day array |
| SqlRecurrence.SmallestDay | backend/reset-database.js:273-281 | the smallest listed day is listed and no larger than any listed day |
| SqlRecurrence.MinQualifyingIsLeast | backend/reset-database.js:273-281 | the day the FOR loop returns on is the least qualifying listed day, and there is none exactly when no listed day qualifies |
| SqlRecurrence.CalculateNextExecutionSql | backend/reset-database.js:229-294 | the PL/pgSQL loops of every version compute exactly the reference result `SqlNext`, NULL included |
| SqlRecurrence.WeeklyBranch | backend/reset-database.js:271-290 | the weekly branch returns NULL for an empty array and otherwise the reference weekly result (first day in ascending order, else the fallback from `p_repeat_days[1]`) |
| SqlRecurrence.SqlAgreesWithJsOffWeekly | backend/reset-database.js:242-269 | for every rule but `weekly` each database version returns the server calculator's instant |
| SqlRecurrence.SqlWeeklySmallestDay | backend/reset-database.js:273-281 | `weekly` with in-range days always returns the candidate moved to the smallest listed weekday, within six days, strictly after the reference, at hour:minute |
| SqlRecurrence.WeeklyResultSmallest | backend/reset-database.js:273-289 | with in-range days and a candidate after the reference, the weekly result is the candidate moved by whole days to the smallest listed weekday, within six days |
| SqlRecurrence.WeeklyDivergenceExample | backend/server.js:2186-2204 | weekly on Monday and Friday at 08:00, asked on a Wednesday: the server gives Friday and the database gives Monday |
| SqlRecurrence.WeeklyAgreementIffSmallestIsNearest | backend/reset-database.js:271-290 | for weekly schedules with in-range days the two calculators agree exactly when the smallest listed weekday is also the nearest one |
| SqlRecurrence.WeeklySameWeekdayScenario | backend/reset-database.js:276-278 | a weekly schedule listing only the reference's weekday fires later that day when the time is still ahead, else exactly seven days later, and both calculators agree |
| SqlRecurrence.SqlSameWeekday | backend/reset-database.js:271-289 | with only the reference's weekday listed, the database returns today's slot when it is still ahead and the slot seven days later otherwise |
| SqlRecurrence.ResetWeeklyWithoutDays | backend/reset-database.js:271-292 | the first version returns NULL for an empty day array and the candidate for a NULL one |
| SqlRecurrence.GuardedWeeklyWithoutDays | backend/fix-all-functions.js:141 | the guarded versions return the candidate for a NULL or empty day array |
| SqlRecurrence.FixMatchesMigrate | backend/fix-all-functions.js:92-162 | the function fix computes what the time-only migration's calculator computes, on every input |
| SqlRecurrence.SqlNextAfterReference | backend/reset-database.js:243-292 | for a valid time and in-range days, any non-NULL result is strictly after the reference, at hour:minute, at most six days after the candidate |
| Schema.ResetFromModeCheckAcceptsAnyMode | backend/reset-database.js:191 | the two-type schema's `from_mode IN ('solar','grid',NULL)` check passes every value, `hydro` included |
| Schema.TimeOnlyFromModeCheckIsExact | backend/migrate-energy-modes.js:111 | `from_mode IN ('solar','grid') OR from_mode IS NULL` passes exactly NULL and the two modes |
| Schema.UpdateNextExecution | backend/reset-database.js:300-320 | the trigger as PL/pgSQL runs it computes the reference trigger row |
| Schema.PlainUpdateNextExecution | backend/migrate-energy-modes.js:209-227 | the type-agnostic trigger as written computes the reference plain trigger row |
| Schema.ResetTriggerResult | backend/reset-database.js:300-320 | the trigger changes only `next_execution` and `updated_at`; sets `updated_at` to now; gives NULL for ranges and disabled rows and the database result from the last firing (else now) for enabled time rows; a second application changes nothing |
| Schema.TriggerKeepsChecks | backend/reset-database.js:133-176 | a row passes the CHECK constraints after the trigger exactly when it did before |
| Schema.TriggerNextIsAhead | backend/reset-database.js:304-311 | for an enabled valid time row with in-range days, a stored next execution is strictly after the instant it was computed from |
| Schema.PlainTriggerMatchesReset | backend/fix-all-functions.js:173-190 | on rows whose range variant has no hour, the type-agnostic trigger computes what the two-type trigger computes |
| Schema.FixTriggerMatchesMigrate | backend/fix-all-functions.js:173-190 | the fixed trigger computes what the migration's trigger computes |
| Schema.TimeRowsMeetTimeOnlyChecks | backend/migrate-energy-modes.js:71-93 | a valid time row of the two-type table is a valid row of the time-only table |
| ScheduleRequests.ValidateCreate | backend/server.js:1129-1176 | the create checks accept exactly the well-formed requests, and each error is returned exactly when every earlier check passed and its own check fails: missing name or mode, bad mode, bad type, bad repeat rule, missing time, bad time, missing bounds, bad bounds, bad secondary mode |
| ScheduleRequests.NewScheduleRow | backend/server.js:1194-1217 | an accepted request yields a row within every CHECK, carrying the request's values with defaults; the other variant's fields are NULL; a range gets the effective secondary mode and a NULL next execution |
| ScheduleRequests.MergeUpdate | backend/server.js:1286-1356 | each field is the provided value, else the current one; the row keeps the variant the final type selects, with the other variant's fields NULL; a type other than `time` writes a range, whose secondary mode is the provided one, else the current one, else the other mode |
| ScheduleRequests.MergeKeepsChecks | backend/server.js:1286-1356 | merging valid provided values into a valid row gives a valid row when the final variant has all its fields |
| ScheduleRequests.SwitchToRangeWithoutBoundsIsRefused | backend/server.js:1327-1356 | turning a time schedule into a range without bounds writes a row the range CHECK refuses |
| ScheduleRequests.JsNextIsOverwritten | backend/server.js:1302-1321 | the next execution the update handler computes has no effect on the stored row |
| ScheduleRequests.JsNextIsOverwrittenOnCreate | backend/server.js:1196-1206 | the next execution the create handler computes has no effect on the stored row |
| ScheduleRequests.CreateJsNextMatchesTrigger | backend/server.js:1196-1217 | for an accepted request, the next execution the create handler computes is the one the trigger stores for an enabled non-weekly time schedule; for a range or disabled schedule the handler computes 0 and the trigger stores NULL |
| ScheduleRequests.UpdateJsNextMatchesTrigger | backend/server.js:1299-1321 | for a schedule that has never fired and whose merged hour and minute are set, the next execution the update handler computes is the one the trigger stores for an enabled non-weekly time schedule; for a range or disabled schedule the handler computes 0 and the trigger stores NULL |
| ScheduleRequests.EditRecomputesFromLastExecuted | backend/reset-database.js:304-311 | editing a schedule that has already fired stores a next execution computed from its last firing, not from the time of the edit |
| RangeEval.ShouldRunToday | backend/server.js:362-379 | the day gate: Monday-Friday for `weekdays`, Saturday and Sunday for `weekends`, the listed days for `weekly`, every day otherwise |
| RangeEval.DayGateMatchesCalculator | backend/server.js:362-379 | the day gate passes on the candidate's weekday exactly when the server calculator keeps the candidate |
| RangeEval.InRangeIsElapsedTime | backend/server.js:312-324 | inside the window means fewer minutes have passed since the start, going round midnight, than the window lasts |
| RangeEval.EqualBoundsAlwaysInRange | backend/server.js:318-320 | equal bounds make a whole-day window |
| RangeEval.InRangeExamples | backend/server.js:316-324 | 10:00 is inside 08:00-20:00, 21:00 is not; 23:00 and 02:00 are inside 22:00-06:00, 12:00 is not |
| RangeEval.ExpectedMode | backend/server.js:327-328 | the expected mode is a valid mode for valid inputs, and outside the window with no secondary it is the other mode |
| RangeEval.RangeTransitionFires | backend/server.js:290-359 | a range switches exactly on a gated boundary minute when the device is not already in the expected mode, to the expected mode, and not again once switched |
| RangeEval.StartBoundaryExpectsTarget | backend/server.js:312-341 | at the start minute the range wants its target mode |
| RangeEval.EndBoundaryExpectsSecondary | backend/server.js:312-341 | at the end minute of a window with distinct bounds the range wants the effective secondary mode |
| RangeEval.NoTransitionOffBoundary | backend/server.js:339-346 | off the boundary minutes nothing fires, whatever mode the device is in |
| RangeEval.ExpectedModeOfValidRow | backend/server.js:327-328 | a valid range row wants only `solar` or `grid` |
| RangeEval.MorningRangeScenario | backend/server.js:290-359 | 08:00-20:00 solar over grid: 07:59 does nothing, 08:00 switches a grid device to solar, 20:00 switches it back, 08:00 on a solar device does nothing |
| Store.TimeRunRow | backend/server.js:235-256 | after a fixed-time run the row records the firing; a one-shot is disabled with no next execution; a repeating row's next execution is the database result from now; no other column changes; the row is a trigger fixed point |
| Store.WriteTimeRun | backend/server.js:235-256 | the UPDATE of a fixed-time run, followed by the trigger, writes the reference row |
| Store.TimeRunRows | backend/server.js:170-172 | the fixed-time pass over any enumeration of distinct ids keeps the key set, gives each visited row its fixed-time run and leaves every other row as it was |
| Store.TimeRunHistory | backend/server.js:170-172 | the fixed-time pass appends exactly one history row per visited schedule, in visit order, each recording that schedule's device, target mode, `schedule`, its id and now |
| Store.RangeRunRows | backend/server.js:183-185 | after the range pass a row is unchanged, or it was visited, sat on a gated boundary, and holds its range run |
| Store.RangeRunHistory | backend/server.js:183-185 | every row the range pass appends names a visited range schedule on a gated boundary and moves that schedule's device to the mode the range expects at this minute, away from a different mode, by `schedule_range` at now |
| Store.ChainStep | backend/server.js:208-233 | appending a history row whose previous mode is the ledger's current mode, and upserting the ledger to that row's mode, keeps the ledger and the history consistent |
| Store.SwitchFollows | backend/server.js:208-256 | one recorded switch keeps the ledger and the history consistent: untouched devices keep their ledger row, each device holds its last appended row, first rows record the old ledger, later rows chain |
| Store.TimeRunFollows | backend/server.js:170-172 | the fixed-time pass, in any visit order, keeps the ledger and the history consistent |
| Store.RangeRunFollows | backend/server.js:183-185 | the range pass, in any visit order, keeps the ledger and the history consistent |
| Store.LedgerChangeExplained | backend/server.js:208-233 | when the ledger and the history are consistent, every device whose ledger row changed has an appended history row that wrote that ledger row |
| Store.NoDueRowKeepsMode | backend/server.js:155-172 | after the fixed-time pass a device with no due schedule keeps its ledger row and its current mode |
| Store.DueDeviceHoldsTarget | backend/server.js:155-172 | after the fixed-time pass a device with a due schedule is in the target mode of one of its due schedules, set by `schedule` at now |
| Store.SoleDueRowFromLedger | backend/server.js:155-172 | the history row of a device's only due schedule records the mode the ledger held before the pass |
| Store.TimePassFacts | backend/server.js:155-172 | for any enumeration of the due set, the fixed-time pass runs exactly the due rows, appends one record per run in visit order, keeps ledger and history consistent, and leaves the modes as the three lemmas above state |
| Store.RangePassFacts | backend/server.js:175-185 | for any visit order, the range pass moves only gated-boundary rows, appends only range entries, keeps ledger and history consistent, and changes a ledger row only by an appended range entry |
| Store.TickRows | backend/server.js:147-185 | after both passes the keys are unchanged, due rows hold their fixed-time run, other rows are unchanged or are range rows on a gated boundary holding their range run, and due rows with in-range days are not due again |
| Store.TickHistory | backend/server.js:147-185 | after both passes the history starts with the old history, then one record per due run in visit order, then only range entries of rows the server's range query returned |
| Store.TickWriteAgreesWithTrigger | backend/server.js:246-254 | for an enabled repeating time row, the next execution the UPDATE writes is the one the trigger recomputes |
| Store.FiredNotDueAgain | backend/server.js:235-256 | a valid time schedule with in-range days that has just fired is not due again at the same instant |
| Store.RangeRunRow | backend/server.js:408-412 | after a range switch the row records the firing, keeps a NULL next execution, and changes nothing else |
| Store.DetachSchedule | backend/reset-database.js:189 | deleting a schedule sets the history references to it to NULL and leaves every other history row and column unchanged |
| Store.RangeSetAfterTimePass | backend/server.js:155-185 | the fixed-time pass leaves the range pass's query result unchanged, and no due row is in it |
| Store.DetachKeepsValid | backend/reset-database.js:183-193 | detaching a deleted schedule keeps the history within its constraints and still announced by the outbox |
| Store.EnergyStore.constructor | backend/reset-database.js:118-193 | empty tables, serial at 1, valid |
| Store.EnergyStore.GetMode | backend/server.js:853-885 | 403 without access; the stored mode, or a new `solar`/`default` ledger row for a device without one, with no history row |
| Store.EnergyStore.SetModeManual | backend/server.js:906-991 | 400 for a missing or unknown mode, 403 without access, no write when unchanged; otherwise one ledger upsert, one history row with the previous mode and one `manual` command; the previous mode is returned |
| Store.EnergyStore.CreateSchedule | backend/server.js:1129-1217 | 400 with the failed check, 403 without access, otherwise one insert at the next serial value of the trigger's row for the request; nothing else changes |
| Store.EnergyStore.UpdateSchedule | backend/server.js:1272-1356 | 403 unless the schedule belongs to this user and device; otherwise the merged row after the trigger is written if it meets the CHECKs and refused with nothing written if not |
| Store.EnergyStore.DeleteSchedule | backend/server.js:1385-1395 | deletes exactly when the schedule belongs to this user and device, and detaches its history rows |
| Store.EnergyStore.ExecuteTimeSchedule | backend/server.js:196-287 | the new tables are one fixed-time visit of the old ones: the device is set to the target mode by `schedule`; one history row with the previous mode and the schedule id; the row after the run; one command carrying the schedule name |
| Store.EnergyStore.ExecuteRangeModeChange | backend/server.js:382-440 | the ledger upsert, history row, schedule write and `schedule_range` command, or no change at all when a constraint refuses the write |
| Store.EnergyStore.CheckAndExecuteRangeSchedule | backend/server.js:290-359 | it fires exactly the transition `RangeTransition` decides from the stored row and the device's current mode at this visit; the new tables are one range visit of the old ones, which change only when it fires |
| Store.EnergyStore.ExecuteTimeSchedules | backend/server.js:170-172 | the loop visits each given id once; the new tables are the fixed-time fold over the returned visit order |
| Store.EnergyStore.CheckRangeSchedules | backend/server.js:183-185 | the loop visits each given range id once; the new tables are the range fold over the returned visit order |
| Store.EnergyStore.FixedTimePass | backend/server.js:155-172 | it executes exactly the due set, each row once, in the returned order; the new tables are the fixed-time fold over that order; one record per execution appended in that order; devices without a due row keep their mode, devices with one hold the target of one of their due rows, an only due row records the previous ledger mode |
| Store.EnergyStore.RangePass | backend/server.js:175-185 | it visits exactly the enabled range rows of registered devices, once each, and each visit decides from the ledger as left by the visits before it; only rows on a gated boundary change, to their range run; each appended row is a range entry moving the device to the expected mode; a ledger row changes only by such a row, and holds the device's last one |
| Store.EnergyStore.Tick | backend/server.js:147-185 | the new tables are the range fold over the fixed-time fold over the two returned orders; the fixed-time pass's ledger facts hold for the tables between; due rows hold their run and are no longer due; other rows are unchanged or are range rows on a gated boundary holding their range run; the history appends the due records in visit order and then only range entries; ledger changes are explained by appended rows |
| StatusCache.Swept | backend/server.js:2109-2114 | an entry goes offline exactly when it was online and silent for more than 30 s; its last-seen time is kept |
| StatusCache.MarkedOffline | backend/server.js:2105-2120 | the offline sweep keeps the device set and last-seen times and leaves a device online exactly when it was online and not silent past 30 s |
| StatusCache.CodesKept | backend/server.js:2123-2140 | a code survives the code sweep exactly when its device is not silent past 10 minutes |
| StatusCache.DeviceStatusCache.constructor | backend/server.js:55-56 | both maps start empty |
| StatusCache.DeviceStatusCache.MarkOffline | backend/server.js:2105-2120 | the loop over the status map computes the swept map and counts exactly the devices it switched off |
| StatusCache.DeviceStatusCache.ClearStaleCodes | backend/server.js:2123-2140 | the loop drops exactly the codes of devices silent past 10 minutes, counts them, and leaves the status map alone |
| StatusCache.MarkOfflineIdempotent | backend/server.js:2105-2120 | a second sweep at the same instant changes nothing and counts nobody |
| StatusCache.RecentDeviceStaysOnline | backend/server.js:2110-2111 | an entry heard from within 30 s, or with no last-seen time, is left as it is |
| StatusCache.ClearPartitionsCodes | backend/server.js:2127-2133 | every code is either kept or counted as cleared, never both, and the counts add up to the table size |
| StatusCache.ClearedCodeMeansOffline | backend/server.js:2105-2140 | a device whose code is cleared is offline after the offline sweep at the same instant |

## Left out

- Time zones and daylight saving: instants are UTC milliseconds, and the
  tick's wall-clock hour, minute and weekday are parameters. The database
  versions differ in `TIMESTAMP` against `TIMESTAMP WITH TIME ZONE`; that
  difference is modelled only as which day-array guard each has.
- `CURRENT_TIMESTAMP`, `NOW()`, `new Date()` and `Date.now()` within one
  transaction are one `now`.
- HTTP, JWT and OAuth: the caller is a user id, and access is the set
  of (user, device) pairs of `user_devices`. The model does not relate
  these pairs to the registered devices. The MQTT transport is the outbox.
  A publish that fails after commit is not modelled: the command is
  appended anyway, as the database has committed already.
- Concurrency: every handler and every per-schedule execution is one
  atomic step. Overlapping ticks and races between a handler and the tick
  are not modelled.
- JavaScript values of the wrong type: strings for hours, `null` where a
  destructuring default applies, numbers that are not integers, NULL
  elements in a day array. Request fields are options of the right type.
- `is_enabled` is a boolean. Its SQL NULL case is not modelled.
- The schedule list and the history query handlers are read-only views,
  and device CRUD, telemetry, energy statistics and the midnight cleanup
  are outside this core. So are `migrate-database.js`, the catalogue loop
  of the function fix that drops old overloads, and the scripts' console
  output.
- Store.EnergyStore.Valid: the two-type schema as written accepts any
  `from_mode` (see Findings). The store keeps the intended rule, which its
  writes meet.
- Store.FiredNotDueAgain: requires in-range repeat days. Neither handler
  validates `repeatDays`, and a negative day can make the database
  fallback step backwards. So the tick's "not due again" holds only for
  rows whose days are in range.
- Store.EnergyStore.UpdateSchedule: a merged row that breaks a CHECK is
  an error response with nothing written. Which constraint fails and the
  exact error body are not modelled.
- Schema.UpdateNextExecution: the trigger mutates `NEW` in place. Here
  it is a method on row values whose result is the row the trigger
  returns.
- StatusCache: only `online` and `lastSeen` of a status entry are
  modelled, and the writers of the status map (the MQTT message handlers
  and the relay command) are not. Iteration order of the JavaScript `Map`
  is left unspecified, which does not affect the result.

## Findings

| source | as written | input that shows it | evidently intended | confidence | as-written member | corrected member |
|---|---|---|---|---|---|---|
| backend/reset-database.js:191 | `CHECK (from_mode IN ('solar', 'grid', NULL))`: the NULL in the list makes the test NULL instead of FALSE for every other value, and a CHECK rejects only FALSE | a history row with `from_mode = 'hydro'` passes the constraint | `from_mode IN ('solar', 'grid') OR from_mode IS NULL`, as the time-only migration writes it | not executed | Schema.ResetFromModeCheckAcceptsAnyMode | Schema.TimeOnlyFromModeCheckIsExact |
