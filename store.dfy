/** The schedule store, the mode ledger and the command outbox, with one
    method per transaction of the server: the manual mode handlers, the
    schedule create/update/delete handlers, the two per-schedule executions of
    the tick and the tick itself. */
module Store {
  import opened Wrappers
  import opened Clock
  import opened Schema
  import SqlRecurrence
  import JsRecurrence
  import opened ScheduleRequests
  import opened RangeEval

  /** A message published on the device's command topic. */
  datatype Command = Command(
    topic: string,
    command: string,
    mode: string,
    source: string,
    scheduleName: Option<string>,
    timestamp: Instant)

  function CommandTopic(deviceId: string): string { "solar/" + deviceId + "/command" }

  function SetModeCommand(deviceId: string, mode: string, source: string,
                          scheduleName: Option<string>, now: Instant): Command
  {
    Command(CommandTopic(deviceId), "setEnergyMode", mode, source, scheduleName, now)
  }

  /** The ledger's mode for a device; None when it has no row. */
  function CurrentMode(modes: map<string, ModeRow>, deviceId: string): Option<string>
  {
    if deviceId in modes then Some(modes[deviceId].currentMode) else None
  }

  /** Stored schedules: keyed by their id, below the next serial value, within
      every CHECK, and as the trigger left them at their last write. */
  predicate SchedulesValid(s: map<nat, ScheduleRow>, nextId: nat)
  {
    forall id :: id in s ==>
      && s[id].id == id && id < nextId
      && ScheduleChecks(s[id])
      && TriggerFixed(s[id])
  }

  predicate ModesValid(m: map<string, ModeRow>)
  {
    forall d :: d in m ==> IsMode(m[d].currentMode)
  }

  /** History rows meet their constraints and refer only to existing schedules. */
  predicate HistoryValid(h: seq<HistoryRow>, s: map<nat, ScheduleRow>)
  {
    forall k :: 0 <= k < |h| ==> HistoryChecks(h[k]) && (h[k].scheduleId.Some? ==> h[k].scheduleId.value in s)
  }

  /** The command that announces a recorded transition to the device. */
  predicate Announces(c: Command, h: HistoryRow)
  {
    && c.topic == CommandTopic(h.deviceId) && c.command == "setEnergyMode"
    && c.mode == h.toMode && c.source == h.changedBy && c.timestamp == h.timestamp
  }

  /** Every recorded transition was published exactly once, in the same order. */
  predicate Dispatched(h: seq<HistoryRow>, o: seq<Command>)
  {
    |o| == |h| && forall k :: 0 <= k < |h| ==> Announces(o[k], h[k])
  }

  /** Enabled time schedules due at `now` on registered devices (the fixed-time pass's query). */
  predicate DueAt(r: ScheduleRow, now: Instant)
  {
    r.isEnabled && r.scheduleType == "time" && r.nextExecution.Some? && r.nextExecution.value <= now
  }

  function DueSet(s: map<nat, ScheduleRow>, devices: set<string>, now: Instant): set<nat>
  {
    set id | id in s && DueAt(s[id], now) && s[id].deviceId in devices
  }

  /** Enabled range schedules on registered devices (the range pass's query). */
  function RangeSet(s: map<nat, ScheduleRow>, devices: set<string>): set<nat>
  {
    set id | id in s && s[id].isEnabled && s[id].scheduleType == "range" && s[id].deviceId in devices
  }

  /** The schedule row after a fixed-time execution at `now`, trigger included. */
  function TimeRunRow(r: ScheduleRow, now: Instant): (t: ScheduleRow)
    ensures t.lastExecuted == Some(now) && t.updatedAt == now
    ensures t.(lastExecuted := r.lastExecuted, nextExecution := r.nextExecution,
               isEnabled := r.isEnabled, updatedAt := r.updatedAt) == r
    ensures r.repeatType == "once" ==> !t.isEnabled && t.nextExecution.None?
    ensures r.repeatType != "once" ==> t.isEnabled == r.isEnabled
    ensures r.repeatType != "once" && r.isEnabled && r.scheduleType == "time" && r.hour.Some? && r.minute.Some? ==>
      t.nextExecution == SqlRecurrence.SqlNext(SqlRecurrence.ResetDatabase, r.hour.value, r.minute.value,
                                               r.repeatType, r.repeatDays, now)
    ensures TriggerFixed(t)
  {
    if r.repeatType == "once" then
      ResetTrigger(r.(lastExecuted := Some(now), nextExecution := None, isEnabled := false), now)
    else
      ResetTrigger(r.(lastExecuted := Some(now), nextExecution := CalcForRow(SqlRecurrence.ResetDatabase, r, now)), now)
  }

  /** The schedule UPDATE of `executeTimeSchedule`, followed by the trigger. */
  method WriteTimeRun(schedule: ScheduleRow, now: Instant) returns (written: ScheduleRow)
    ensures written == TimeRunRow(schedule, now)
  {
    var update: ScheduleRow;
    if schedule.repeatType == "once" {
      update := schedule.(lastExecuted := Some(now), nextExecution := None, isEnabled := false);
    } else {
      var next: Option<Instant> := None;
      if schedule.hour.Some? && schedule.minute.Some? {
        next := SqlRecurrence.CalculateNextExecutionSql(SqlRecurrence.ResetDatabase, schedule.hour.value, schedule.minute.value,
                                                        schedule.repeatType, schedule.repeatDays, now);
      }
      update := schedule.(lastExecuted := Some(now), nextExecution := next);
    }
    written := UpdateNextExecution(update, now);
  }

  /** The value the tick's UPDATE writes into `next_execution` is the one the
      trigger then computes, so the two never disagree for an enabled time row. */
  lemma TickWriteAgreesWithTrigger(r: ScheduleRow, now: Instant)
    requires r.repeatType != "once" && r.isEnabled && r.scheduleType == "time"
    ensures TimeRunRow(r, now).nextExecution == CalcForRow(SqlRecurrence.ResetDatabase, r, now)
  {
  }

  /** A schedule that fired is not due again at the same instant: a one-shot is
      disabled, a repeating one moves strictly past `now`. */
  lemma FiredNotDueAgain(r: ScheduleRow, now: Instant)
    requires ScheduleChecks(r) && r.scheduleType == "time"
    requires r.repeatDays.Some? ==> DaysInWeek(r.repeatDays.value)
    ensures !DueAt(TimeRunRow(r, now), now)
  {
    if r.repeatType != "once" && r.isEnabled {
      SqlRecurrence.SqlNextAfterReference(SqlRecurrence.ResetDatabase, r.hour.value, r.minute.value,
                                          r.repeatType, r.repeatDays, now);
    }
  }

  /** The schedule row after a range transition at `now`, trigger included. */
  function RangeRunRow(r: ScheduleRow, now: Instant): (t: ScheduleRow)
    ensures t.lastExecuted == Some(now) && t.updatedAt == now
    ensures r.scheduleType != "time" ==> t.nextExecution.None?
    ensures t.(lastExecuted := r.lastExecuted, nextExecution := r.nextExecution, updatedAt := r.updatedAt) == r
  {
    ResetTrigger(r.(lastExecuted := Some(now)), now)
  }

  /** `ON DELETE SET NULL`: history rows that named schedule `id` keep
      everything but that reference. */
  function DetachSchedule(h: seq<HistoryRow>, id: nat): (r: seq<HistoryRow>)
    ensures |r| == |h|
    ensures forall k :: 0 <= k < |h| ==> r[k].(scheduleId := h[k].scheduleId) == h[k] && r[k].scheduleId != Some(id)
    ensures forall k :: 0 <= k < |h| && h[k].scheduleId != Some(id) ==> r[k] == h[k]
  {
    seq(|h|, k requires 0 <= k < |h| => if h[k].scheduleId == Some(id) then h[k].(scheduleId := None) else h[k])
  }

  /** Every day number a weekly schedule lists is a weekday. */
  predicate DaysOk(r: ScheduleRow)
  {
    r.repeatDays.Some? ==> DaysInWeek(r.repeatDays.value)
  }

  /** The fixed-time pass touches only time rows, so the range pass sees the
      same range schedules as the tick began with. */
  lemma RangeSetAfterTimePass(s0: map<nat, ScheduleRow>, s1: map<nat, ScheduleRow>,
                              due: set<nat>, devices: set<string>, now: Instant)
    requires due == DueSet(s0, devices, now)
    requires TimeVisited(s0, s1, due, now)
    ensures RangeSet(s1, devices) == RangeSet(s0, devices)
    ensures forall id :: id in due ==> id !in RangeSet(s1, devices)
    ensures forall id :: id in RangeSet(s0, devices) ==> id in s1 && s1[id] == s0[id]
  {
  }

  /** `h` is `h0` with rows appended. */
  predicate Extends(h: seq<HistoryRow>, h0: seq<HistoryRow>)
  {
    |h| >= |h0| && h[..|h0|] == h0
  }

  lemma ExtendsTrans(h2: seq<HistoryRow>, h1: seq<HistoryRow>, h0: seq<HistoryRow>)
    requires Extends(h2, h1) && Extends(h1, h0)
    ensures Extends(h2, h0)
  {
    assert h2[..|h0|] == h2[..|h1|][..|h0|];
  }

  /** `order` lists the elements of `s`, each exactly once. */
  predicate Distinct(order: seq<nat>)
  {
    forall i, j :: 0 <= i < j < |order| ==> order[i] != order[j]
  }

  predicate Enumerates(order: seq<nat>, s: set<nat>)
  {
    && Distinct(order)
    && (forall i :: 0 <= i < |order| ==> order[i] in s)
    && (forall x :: x in s ==> x in order)
  }

  lemma VisitOneMore(all: set<nat>, pending: set<nat>, id: nat)
    requires pending <= all && id in pending
    ensures all - (pending - {id}) == (all - pending) + {id}
    ensures |all - (pending - {id})| == |all - pending| + 1
  {
    assert all - (pending - {id}) == (all - pending) + {id};
  }

  /** A pass that has visited `visited` and now visits `id` from `pending`. */
  lemma EnumeratesStep(visited: seq<nat>, all: set<nat>, pending: set<nat>, id: nat)
    requires Enumerates(visited, all - pending) && |visited| == |all - pending|
    requires pending <= all && id in pending
    ensures Enumerates(visited + [id], all - (pending - {id}))
    ensures |visited + [id]| == |all - (pending - {id})|
  {
    var v := visited + [id];
    VisitOneMore(all, pending, id);
    forall i | 0 <= i < |visited|
      ensures v[i] == visited[i] && v[i] != id
    {
      assert visited[i] in all - pending;
    }
    forall x | x in all - (pending - {id})
      ensures x in v
    {
      if x != id {
        assert x in visited;
      }
    }
  }

  /** The four tables a tick writes, as one value. */
  datatype Tables = Tables(
    schedules: map<nat, ScheduleRow>,
    modes: map<string, ModeRow>,
    history: seq<HistoryRow>,
    outbox: seq<Command>)

  /** One recorded switch of schedule `id`'s device to `toMode` by `changedBy`:
      the schedule row rewritten, the ledger upserted, a history row with the
      ledger's previous mode and its command appended. */
  function Switch(t: Tables, id: nat, row: ScheduleRow, toMode: string, changedBy: string, now: Instant): Tables
    requires id in t.schedules
  {
    var r := t.schedules[id];
    Tables(t.schedules[id := row],
           t.modes[r.deviceId := ModeRow(toMode, changedBy, now)],
           t.history + [HistoryRow(r.deviceId, CurrentMode(t.modes, r.deviceId), toMode, changedBy, Some(id), now)],
           t.outbox + [SetModeCommand(r.deviceId, toMode, changedBy, Some(r.name), now)])
  }

  /** One fixed-time execution of schedule `id` (`executeTimeSchedule`). */
  function TimeVisit(t: Tables, id: nat, now: Instant): Tables
  {
    if id !in t.schedules then t
    else Switch(t, id, TimeRunRow(t.schedules[id], now), t.schedules[id].targetMode, "schedule", now)
  }

  /** One range evaluation of schedule `id` (`checkAndExecuteRangeSchedule`):
      the transition is decided from the row and the ledger as they stand at
      this visit. */
  function RangeVisit(t: Tables, id: nat, hour: int, minute: int, dow: int, now: Instant): Tables
  {
    if id !in t.schedules || !HasRangeBounds(t.schedules[id]) then t
    else
      var r := t.schedules[id];
      var fired := RangeTransition(r, hour, minute, dow, CurrentMode(t.modes, r.deviceId));
      if fired.None? then t else Switch(t, id, RangeRunRow(r, now), fired.value, "schedule_range", now)
  }

  /** The fixed-time pass visiting the rows in `order`, one after another. */
  function TimeRun(t: Tables, order: seq<nat>, now: Instant): Tables
    decreases |order|
  {
    if |order| == 0 then t
    else TimeVisit(TimeRun(t, order[..|order| - 1], now), order[|order| - 1], now)
  }

  /** The range pass visiting the rows in `order`, one after another. */
  function RangeRun(t: Tables, order: seq<nat>, hour: int, minute: int, dow: int, now: Instant): Tables
    decreases |order|
  {
    if |order| == 0 then t
    else RangeVisit(RangeRun(t, order[..|order| - 1], hour, minute, dow, now), order[|order| - 1], hour, minute, dow, now)
  }

  lemma TimeRunStep(t: Tables, order: seq<nat>, id: nat, now: Instant)
    ensures TimeRun(t, order + [id], now) == TimeVisit(TimeRun(t, order, now), id, now)
  {
    assert (order + [id])[..|order|] == order;
  }

  lemma RangeRunStep(t: Tables, order: seq<nat>, id: nat, hour: int, minute: int, dow: int, now: Instant)
    ensures RangeRun(t, order + [id], hour, minute, dow, now) == RangeVisit(RangeRun(t, order, hour, minute, dow, now), id, hour, minute, dow, now)
  {
    assert (order + [id])[..|order|] == order;
  }

  /** Rows of `s0` are unchanged in `s` except the visited ones, which ran their fixed-time execution. */
  predicate TimeVisited(s0: map<nat, ScheduleRow>, s: map<nat, ScheduleRow>, visited: set<nat>, now: Instant)
  {
    && s.Keys == s0.Keys
    && forall id :: id in s0 ==> s[id] == if id in visited then TimeRunRow(s0[id], now) else s0[id]
  }

  /** The history row a fixed-time execution of schedule `id`, stored as `r`, appends at `now`. */
  predicate RecordsRun(e: HistoryRow, id: nat, r: ScheduleRow, now: Instant)
  {
    && e.deviceId == r.deviceId && e.toMode == r.targetMode && e.changedBy == "schedule"
    && e.scheduleId == Some(id) && e.timestamp == now
  }

  /** Rows of `s1` are unchanged in `s` except rows listed in `order` that were
      on a gated boundary, which ran their range transition. */
  predicate RangeRowsMoved(s1: map<nat, ScheduleRow>, s: map<nat, ScheduleRow>, order: seq<nat>,
                           hour: int, minute: int, dow: int, now: Instant)
  {
    && s.Keys == s1.Keys
    && forall id :: id in s1 ==>
         || s[id] == s1[id]
         || (id in order && OnGatedBoundary(s1[id], hour, minute, dow) && s[id] == RangeRunRow(s1[id], now))
  }

  /** The history row a range transition appends: a schedule listed in `order`,
      stored in `s1` on a gated boundary, moves its device to the mode the range
      expects at this minute, which is not the mode the ledger held. */
  predicate RangeEntry(e: HistoryRow, s1: map<nat, ScheduleRow>, order: seq<nat>,
                       hour: int, minute: int, dow: int, now: Instant)
  {
    && e.scheduleId.Some? && e.scheduleId.value in order && e.scheduleId.value in s1
    && OnGatedBoundary(s1[e.scheduleId.value], hour, minute, dow)
    && e.deviceId == s1[e.scheduleId.value].deviceId
    && e.toMode == RowExpectedMode(s1[e.scheduleId.value], hour, minute)
    && e.fromMode != Some(e.toMode)
    && e.changedBy == "schedule_range" && e.timestamp == now
  }

  /** Some row appended to `h0` in `h` is about device `d`. */
  ghost predicate Touched(h0: seq<HistoryRow>, h: seq<HistoryRow>, d: string)
  {
    exists k :: |h0| <= k < |h| && h[k].deviceId == d
  }

  /** No later row of `h` is about the device of row `k`. */
  predicate LastFor(h: seq<HistoryRow>, k: int)
    requires 0 <= k < |h|
  {
    forall j :: k < j < |h| ==> h[j].deviceId != h[k].deviceId
  }

  /** No row strictly between `j` and `k` is about the device of row `k`. */
  predicate NoneBetween(h: seq<HistoryRow>, j: int, k: int)
    requires -1 <= j && 0 <= k < |h|
  {
    forall i :: j < i < k ==> h[i].deviceId != h[k].deviceId
  }

  /** Row `k` is the first row after `h0` about its device. */
  predicate FirstFor(h0: seq<HistoryRow>, h: seq<HistoryRow>, k: int)
    requires 0 <= k < |h|
  {
    NoneBetween(h, |h0| - 1, k)
  }

  /** No device leaves the ledger. */
  predicate LedgerKeysKept(m0: map<string, ModeRow>, m: map<string, ModeRow>)
  {
    forall d :: d in m0 ==> d in m
  }

  /** A device without appended rows keeps its ledger row. */
  ghost predicate UntouchedKept(m0: map<string, ModeRow>, h0: seq<HistoryRow>, m: map<string, ModeRow>, h: seq<HistoryRow>)
  {
    forall d :: d in m && !Touched(h0, h, d) ==> d in m0 && m[d] == m0[d]
  }

  /** The ledger holds, for each device, what its last appended row wrote. */
  predicate HoldsLast(h0: seq<HistoryRow>, m: map<string, ModeRow>, h: seq<HistoryRow>)
  {
    forall k {:trigger LastFor(h, k)} :: |h0| <= k < |h| && LastFor(h, k) ==>
      h[k].deviceId in m && m[h[k].deviceId] == ModeRow(h[k].toMode, h[k].changedBy, h[k].timestamp)
  }

  /** A device's first appended row records the mode `m0` held for it. */
  predicate FirstFromLedger(m0: map<string, ModeRow>, h0: seq<HistoryRow>, h: seq<HistoryRow>)
  {
    forall k {:trigger FirstFor(h0, h, k)} :: |h0| <= k < |h| && FirstFor(h0, h, k) ==>
      h[k].fromMode == CurrentMode(m0, h[k].deviceId)
  }

  /** A device's later appended rows record the mode its preceding row switched to. */
  predicate ChainedRows(h0: seq<HistoryRow>, h: seq<HistoryRow>)
  {
    forall j, k {:trigger NoneBetween(h, j, k)} :: |h0| <= j < k < |h| && h[j].deviceId == h[k].deviceId && NoneBetween(h, j, k) ==>
      h[k].fromMode == Some(h[j].toMode)
  }

  /** How the ledger `m` and the history `h` grew from `m0` and `h0` together:
      the ledger changed only for devices with appended rows and holds the last
      of them; each appended row's previous mode is the device's mode just
      before it, from `m0` for its first row and from its preceding row after. */
  ghost predicate LedgerFollowsHistory(m0: map<string, ModeRow>, h0: seq<HistoryRow>,
                                       m: map<string, ModeRow>, h: seq<HistoryRow>)
  {
    && |h0| <= |h|
    && LedgerKeysKept(m0, m)
    && UntouchedKept(m0, h0, m, h)
    && HoldsLast(h0, m, h)
    && FirstFromLedger(m0, h0, h)
    && ChainedRows(h0, h)
  }

  /** Every ledger row that changed was written by an appended history row about its device. */
  ghost predicate LedgerChangesRecorded(m0: map<string, ModeRow>, h0: seq<HistoryRow>,
                                        m: map<string, ModeRow>, h: seq<HistoryRow>)
  {
    forall d :: d in m && !(d in m0 && m[d] == m0[d]) ==>
      exists k :: |h0| <= k < |h| && h[k].deviceId == d && m[d] == ModeRow(h[k].toMode, h[k].changedBy, h[k].timestamp)
  }

  /** The last row of `h` about the device of row `k`. */
  lemma {:induction false} LastRowFor(h: seq<HistoryRow>, k: int) returns (last: int)
    requires 0 <= k < |h|
    ensures k <= last < |h| && h[last].deviceId == h[k].deviceId && LastFor(h, last)
    decreases |h| - k
  {
    if LastFor(h, k) {
      last := k;
    } else {
      var j :| k < j < |h| && h[j].deviceId == h[k].deviceId;
      last := LastRowFor(h, j);
    }
  }

  lemma LedgerChangeExplained(m0: map<string, ModeRow>, h0: seq<HistoryRow>,
                              m: map<string, ModeRow>, h: seq<HistoryRow>)
    requires UntouchedKept(m0, h0, m, h) && HoldsLast(h0, m, h)
    ensures LedgerChangesRecorded(m0, h0, m, h)
  {
    forall d | d in m && !(d in m0 && m[d] == m0[d])
      ensures exists k :: |h0| <= k < |h| && h[k].deviceId == d && m[d] == ModeRow(h[k].toMode, h[k].changedBy, h[k].timestamp)
    {
      var k :| |h0| <= k < |h| && h[k].deviceId == d;
      var last := LastRowFor(h, k);
      assert m[d] == ModeRow(h[last].toMode, h[last].changedBy, h[last].timestamp);
    }
  }

  lemma StepUntouched(m0: map<string, ModeRow>, h0: seq<HistoryRow>, m: map<string, ModeRow>, h: seq<HistoryRow>,
                      e: HistoryRow, mr: ModeRow)
    requires |h0| <= |h| && UntouchedKept(m0, h0, m, h)
    ensures UntouchedKept(m0, h0, m[e.deviceId := mr], h + [e])
  {
    var h' := h + [e];
    forall x | x in m[e.deviceId := mr] && !Touched(h0, h', x)
      ensures x in m0 && m[e.deviceId := mr][x] == m0[x]
    {
      assert h'[|h|].deviceId == e.deviceId;
      assert !Touched(h0, h, x) by {
        forall k | |h0| <= k < |h|
          ensures h[k].deviceId != x
        {
          assert h'[k] == h[k];
        }
      }
    }
  }

  lemma StepHoldsLast(h0: seq<HistoryRow>, m: map<string, ModeRow>, h: seq<HistoryRow>, e: HistoryRow)
    requires |h0| <= |h| && HoldsLast(h0, m, h)
    ensures HoldsLast(h0, m[e.deviceId := ModeRow(e.toMode, e.changedBy, e.timestamp)], h + [e])
  {
    var h' := h + [e];
    forall k | |h0| <= k < |h'| && LastFor(h', k)
      ensures h'[k].deviceId in m[e.deviceId := ModeRow(e.toMode, e.changedBy, e.timestamp)]
      ensures m[e.deviceId := ModeRow(e.toMode, e.changedBy, e.timestamp)][h'[k].deviceId]
           == ModeRow(h'[k].toMode, h'[k].changedBy, h'[k].timestamp)
    {
      if k < |h| {
        assert h'[|h|].deviceId != h'[k].deviceId;
        assert h'[k] == h[k];
        assert LastFor(h, k) by {
          forall j | k < j < |h|
            ensures h[j].deviceId != h[k].deviceId
          {
            assert h'[j] == h[j];
          }
        }
      }
    }
  }

  lemma StepFirstFrom(m0: map<string, ModeRow>, h0: seq<HistoryRow>, m: map<string, ModeRow>, h: seq<HistoryRow>,
                      e: HistoryRow)
    requires |h0| <= |h| && LedgerKeysKept(m0, m) && UntouchedKept(m0, h0, m, h) && FirstFromLedger(m0, h0, h)
    requires e.fromMode == CurrentMode(m, e.deviceId)
    ensures FirstFromLedger(m0, h0, h + [e])
  {
    var h' := h + [e];
    forall k | |h0| <= k < |h'| && FirstFor(h0, h', k)
      ensures h'[k].fromMode == CurrentMode(m0, h'[k].deviceId)
    {
      if k == |h| {
        assert !Touched(h0, h, e.deviceId) by {
          forall j | |h0| <= j < |h|
            ensures h[j].deviceId != e.deviceId
          {
            assert h'[j] == h[j];
          }
        }
      } else {
        assert h'[k] == h[k];
        assert FirstFor(h0, h, k) by {
          forall i | |h0| - 1 < i < k
            ensures h[i].deviceId != h[k].deviceId
          {
            assert h'[i] == h[i];
          }
        }
      }
    }
  }

  lemma StepChained(h0: seq<HistoryRow>, m: map<string, ModeRow>, h: seq<HistoryRow>, e: HistoryRow)
    requires |h0| <= |h| && HoldsLast(h0, m, h) && ChainedRows(h0, h)
    requires e.fromMode == CurrentMode(m, e.deviceId)
    ensures ChainedRows(h0, h + [e])
  {
    var h' := h + [e];
    forall j, k | |h0| <= j < k < |h'| && h'[j].deviceId == h'[k].deviceId && NoneBetween(h', j, k)
      ensures h'[k].fromMode == Some(h'[j].toMode)
    {
      assert h'[j] == h[j];
      if k == |h| {
        assert LastFor(h, j) by {
          forall i | j < i < |h|
            ensures h[i].deviceId != h[j].deviceId
          {
            assert h'[i] == h[i];
          }
        }
      } else {
        assert h'[k] == h[k];
        assert NoneBetween(h, j, k) by {
          forall i | j < i < k
            ensures h[i].deviceId != h[k].deviceId
          {
            assert h'[i] == h[i];
          }
        }
      }
    }
  }

  /** Upserting the ledger and appending the matching history row keeps the two in step. */
  lemma ChainStep(m0: map<string, ModeRow>, h0: seq<HistoryRow>, m: map<string, ModeRow>, h: seq<HistoryRow>,
                  e: HistoryRow)
    requires LedgerFollowsHistory(m0, h0, m, h)
    requires e.fromMode == CurrentMode(m, e.deviceId)
    ensures LedgerFollowsHistory(m0, h0, m[e.deviceId := ModeRow(e.toMode, e.changedBy, e.timestamp)], h + [e])
  {
    StepUntouched(m0, h0, m, h, e, ModeRow(e.toMode, e.changedBy, e.timestamp));
    StepHoldsLast(h0, m, h, e);
    StepFirstFrom(m0, h0, m, h, e);
    StepChained(h0, m, h, e);
  }

  lemma SwitchFollows(m0: map<string, ModeRow>, h0: seq<HistoryRow>, t: Tables, id: nat, row: ScheduleRow,
                      toMode: string, changedBy: string, now: Instant)
    requires id in t.schedules && LedgerFollowsHistory(m0, h0, t.modes, t.history)
    ensures var t' := Switch(t, id, row, toMode, changedBy, now);
      LedgerFollowsHistory(m0, h0, t'.modes, t'.history)
  {
    var r := t.schedules[id];
    ChainStep(m0, h0, t.modes, t.history,
              HistoryRow(r.deviceId, CurrentMode(t.modes, r.deviceId), toMode, changedBy, Some(id), now));
  }

  /** The fixed-time pass, in any order, keeps the ledger in step with the history. */
  lemma {:induction false} TimeRunFollows(m0: map<string, ModeRow>, h0: seq<HistoryRow>, t: Tables,
                                          order: seq<nat>, now: Instant)
    requires LedgerFollowsHistory(m0, h0, t.modes, t.history)
    ensures LedgerFollowsHistory(m0, h0, TimeRun(t, order, now).modes, TimeRun(t, order, now).history)
    decreases |order|
  {
    if |order| > 0 {
      var p := TimeRun(t, order[..|order| - 1], now);
      TimeRunFollows(m0, h0, t, order[..|order| - 1], now);
      var id := order[|order| - 1];
      if id in p.schedules {
        SwitchFollows(m0, h0, p, id, TimeRunRow(p.schedules[id], now), p.schedules[id].targetMode, "schedule", now);
      }
    }
  }

  /** The range pass, in any order, keeps the ledger in step with the history. */
  lemma {:induction false} RangeRunFollows(m0: map<string, ModeRow>, h0: seq<HistoryRow>, t: Tables,
                                           order: seq<nat>, hour: int, minute: int, dow: int, now: Instant)
    requires LedgerFollowsHistory(m0, h0, t.modes, t.history)
    ensures var t' := RangeRun(t, order, hour, minute, dow, now);
      LedgerFollowsHistory(m0, h0, t'.modes, t'.history)
    decreases |order|
  {
    if |order| > 0 {
      var p := RangeRun(t, order[..|order| - 1], hour, minute, dow, now);
      RangeRunFollows(m0, h0, t, order[..|order| - 1], hour, minute, dow, now);
      var id := order[|order| - 1];
      if id in p.schedules && HasRangeBounds(p.schedules[id]) {
        var r := p.schedules[id];
        var fired := RangeTransition(r, hour, minute, dow, CurrentMode(p.modes, r.deviceId));
        if fired.Some? {
          SwitchFollows(m0, h0, p, id, RangeRunRow(r, now), fired.value, "schedule_range", now);
        }
      }
    }
  }

  lemma LastNotInPrefix(order: seq<nat>)
    requires Distinct(order) && |order| > 0
    ensures Distinct(order[..|order| - 1]) && order[|order| - 1] !in order[..|order| - 1]
    ensures order == order[..|order| - 1] + [order[|order| - 1]]
  {
    var q := order[..|order| - 1];
    forall i | 0 <= i < |q|
      ensures q[i] != order[|order| - 1]
    {
      assert q[i] == order[i];
    }
  }

  /** Visiting distinct rows, the fixed-time pass rewrites exactly the visited
      rows, each from the row it started with. */
  /** The fixed-time fold keeps the set of schedule ids. */
  lemma TimeRunKeepsKeys(t: Tables, order: seq<nat>, now: Instant)
    requires Distinct(order)
    ensures TimeRun(t, order, now).schedules.Keys == t.schedules.Keys
  {
    TimeRunRows(t, order, now);
  }

  lemma {:induction false} TimeRunRows(t: Tables, order: seq<nat>, now: Instant)
    requires Distinct(order)
    ensures TimeRun(t, order, now).schedules.Keys == t.schedules.Keys
    ensures forall id :: id in t.schedules ==>
      TimeRun(t, order, now).schedules[id] == if id in order then TimeRunRow(t.schedules[id], now) else t.schedules[id]
    decreases |order|
  {
    if |order| > 0 {
      var q, x := order[..|order| - 1], order[|order| - 1];
      LastNotInPrefix(order);
      TimeRunRows(t, q, now);
      forall id | id in t.schedules
        ensures id in order <==> id in q || id == x
      {
      }
    }
  }

  /** Visiting distinct stored rows, the fixed-time pass appends one history row
      per visit, in visit order, and leaves the earlier history alone. */
  lemma {:induction false} TimeRunHistory(t: Tables, order: seq<nat>, now: Instant)
    requires Distinct(order) && forall i :: 0 <= i < |order| ==> order[i] in t.schedules
    ensures var h := TimeRun(t, order, now).history;
      && |h| == |t.history| + |order| && Extends(h, t.history)
      && forall i :: 0 <= i < |order| ==> RecordsRun(h[|t.history| + i], order[i], t.schedules[order[i]], now)
    decreases |order|
  {
    if |order| > 0 {
      var q, x := order[..|order| - 1], order[|order| - 1];
      LastNotInPrefix(order);
      TimeRunHistory(t, q, now);
      TimeRunRows(t, q, now);
      var p := TimeRun(t, q, now);
      var h := TimeRun(t, order, now).history;
      assert h[..|p.history|] == p.history;
      ExtendsTrans(h, p.history, t.history);
      forall i | 0 <= i < |order|
        ensures RecordsRun(h[|t.history| + i], order[i], t.schedules[order[i]], now)
      {
        if i < |q| {
          assert h[|t.history| + i] == p.history[|t.history| + i];
          assert order[i] == q[i];
        }
      }
    }
  }

  /** Visiting distinct rows, the range pass changes only rows on a gated
      boundary, each once, from the row it started with. */
  /** A row the range fold has not visited yet is still the row it started from. */
  lemma RangeRunKeepsUnvisited(t: Tables, order: seq<nat>, id: nat, hour: int, minute: int, dow: int, now: Instant)
    requires Distinct(order) && id in t.schedules && id !in order
    ensures id in RangeRun(t, order, hour, minute, dow, now).schedules
    ensures RangeRun(t, order, hour, minute, dow, now).schedules[id] == t.schedules[id]
  {
    RangeRunRows(t, order, hour, minute, dow, now);
  }

  lemma {:induction false} RangeRunRows(t: Tables, order: seq<nat>, hour: int, minute: int, dow: int, now: Instant)
    requires Distinct(order)
    ensures RangeRowsMoved(t.schedules, RangeRun(t, order, hour, minute, dow, now).schedules, order, hour, minute, dow, now)
    ensures forall id :: id in t.schedules && id !in order ==>
      RangeRun(t, order, hour, minute, dow, now).schedules[id] == t.schedules[id]
    decreases |order|
  {
    if |order| > 0 {
      var q, x := order[..|order| - 1], order[|order| - 1];
      LastNotInPrefix(order);
      RangeRunRows(t, q, hour, minute, dow, now);
      var p := RangeRun(t, q, hour, minute, dow, now);
      if x in p.schedules && HasRangeBounds(p.schedules[x]) {
        var r := p.schedules[x];
        RangeTransitionFires(r, hour, minute, dow, CurrentMode(p.modes, r.deviceId));
      }
    }
  }

  /** Visiting distinct rows, every row the range pass appends is a range entry
      of one of them, and the earlier history is left alone. */
  lemma {:induction false} RangeRunHistory(t: Tables, order: seq<nat>, hour: int, minute: int, dow: int, now: Instant)
    requires Distinct(order)
    ensures var h := RangeRun(t, order, hour, minute, dow, now).history;
      && Extends(h, t.history)
      && forall k :: |t.history| <= k < |h| ==> RangeEntry(h[k], t.schedules, order, hour, minute, dow, now)
    decreases |order|
  {
    if |order| > 0 {
      var q, x := order[..|order| - 1], order[|order| - 1];
      LastNotInPrefix(order);
      RangeRunHistory(t, q, hour, minute, dow, now);
      RangeRunRows(t, q, hour, minute, dow, now);
      var p := RangeRun(t, q, hour, minute, dow, now);
      var h := RangeRun(t, order, hour, minute, dow, now).history;
      assert h[..|p.history|] == p.history;
      ExtendsTrans(h, p.history, t.history);
      if x in p.schedules && HasRangeBounds(p.schedules[x]) {
        var r := p.schedules[x];
        RangeTransitionFires(r, hour, minute, dow, CurrentMode(p.modes, r.deviceId));
      }
      forall k | |t.history| <= k < |h|
        ensures RangeEntry(h[k], t.schedules, order, hour, minute, dow, now)
      {
        if k < |p.history| {
          assert h[k] == p.history[k];
          assert RangeEntry(p.history[k], t.schedules, q, hour, minute, dow, now);
        }
      }
    }
  }

  /** The device has no due row. */
  predicate NoDueRowOn(s0: map<nat, ScheduleRow>, due: set<nat>, d: string)
  {
    forall id :: id in due && id in s0 ==> s0[id].deviceId != d
  }

  /** Schedule `id` is the only due row on its device. */
  predicate SoleDueRow(s0: map<nat, ScheduleRow>, due: set<nat>, id: nat)
    requires id in s0
  {
    forall j :: j in due && j in s0 && s0[j].deviceId == s0[id].deviceId ==> j == id
  }

  /** Device `d`'s ledger row is the one a fixed-time run of one of its due rows writes. */
  ghost predicate HoldsDueTarget(m: map<string, ModeRow>, s0: map<nat, ScheduleRow>, due: set<nat>,
                                 d: string, now: Instant)
  {
    d in m && exists j :: j in due && j in s0 && s0[j].deviceId == d && m[d] == ModeRow(s0[j].targetMode, "schedule", now)
  }

  /** The history rows the fixed-time pass appends: one per visit, in visit order. */
  predicate TimeEntries(h0: seq<HistoryRow>, h: seq<HistoryRow>, s0: map<nat, ScheduleRow>, order: seq<nat>, now: Instant)
  {
    && |h| == |h0| + |order|
    && forall i :: 0 <= i < |order| && order[i] in s0 ==> RecordsRun(h[|h0| + i], order[i], s0[order[i]], now)
  }

  /** What the fixed-time pass does to the ledger, whatever the visit order: a
      device without a due row keeps its mode; a device with one holds the
      target of one of its due rows; a device's only due row records the mode
      the ledger held before the pass. */
  ghost predicate TimeLedger(m0: map<string, ModeRow>, h0: seq<HistoryRow>, m: map<string, ModeRow>, h: seq<HistoryRow>,
                             s0: map<nat, ScheduleRow>, due: set<nat>, now: Instant)
  {
    && (forall d :: NoDueRowOn(s0, due, d) ==>
          CurrentMode(m, d) == CurrentMode(m0, d) && (d in m0 ==> d in m && m[d] == m0[d]))
    && (forall id :: id in due && id in s0 ==> HoldsDueTarget(m, s0, due, s0[id].deviceId, now))
    && (forall id :: id in due && id in s0 && SoleDueRow(s0, due, id) ==>
          exists k :: |h0| <= k < |h| && h[k].scheduleId == Some(id)
                   && h[k].fromMode == CurrentMode(m0, s0[id].deviceId))
  }

  lemma NoDueRowKeepsMode(m0: map<string, ModeRow>, h0: seq<HistoryRow>, m: map<string, ModeRow>, h: seq<HistoryRow>,
                          s0: map<nat, ScheduleRow>, due: set<nat>, order: seq<nat>, now: Instant)
    requires LedgerKeysKept(m0, m) && UntouchedKept(m0, h0, m, h)
    requires TimeEntries(h0, h, s0, order, now) && Enumerates(order, due) && due <= s0.Keys
    ensures forall d :: NoDueRowOn(s0, due, d) ==>
      CurrentMode(m, d) == CurrentMode(m0, d) && (d in m0 ==> d in m && m[d] == m0[d])
  {
    forall d | NoDueRowOn(s0, due, d)
      ensures CurrentMode(m, d) == CurrentMode(m0, d) && (d in m0 ==> d in m && m[d] == m0[d])
    {
      assert !Touched(h0, h, d) by {
        forall k | |h0| <= k < |h|
          ensures h[k].deviceId != d
        {
          var i := k - |h0|;
          assert RecordsRun(h[|h0| + i], order[i], s0[order[i]], now);
        }
      }
    }
  }

  lemma DueDeviceHoldsTarget(h0: seq<HistoryRow>, m: map<string, ModeRow>, h: seq<HistoryRow>,
                             s0: map<nat, ScheduleRow>, due: set<nat>, order: seq<nat>, now: Instant)
    requires HoldsLast(h0, m, h)
    requires TimeEntries(h0, h, s0, order, now) && Enumerates(order, due) && due <= s0.Keys
    ensures forall id :: id in due && id in s0 ==> HoldsDueTarget(m, s0, due, s0[id].deviceId, now)
  {
    forall id | id in due && id in s0
      ensures HoldsDueTarget(m, s0, due, s0[id].deviceId, now)
    {
      var i :| 0 <= i < |order| && order[i] == id;
      assert RecordsRun(h[|h0| + i], id, s0[id], now);
      var k := LastRowFor(h, |h0| + i);
      var j := order[k - |h0|];
      assert j in due && j in s0;
      assert RecordsRun(h[|h0| + (k - |h0|)], j, s0[j], now);
      assert h[k] == h[|h0| + (k - |h0|)];
      assert m[s0[id].deviceId] == ModeRow(s0[j].targetMode, "schedule", now);
      assert s0[j].deviceId == s0[id].deviceId;
    }
  }

  lemma SoleDueRowFromLedger(m0: map<string, ModeRow>, h0: seq<HistoryRow>, h: seq<HistoryRow>,
                             s0: map<nat, ScheduleRow>, due: set<nat>, order: seq<nat>, now: Instant)
    requires FirstFromLedger(m0, h0, h)
    requires TimeEntries(h0, h, s0, order, now) && Enumerates(order, due) && due <= s0.Keys
    ensures forall id :: id in due && id in s0 && SoleDueRow(s0, due, id) ==>
      exists k :: |h0| <= k < |h| && h[k].scheduleId == Some(id) && h[k].fromMode == CurrentMode(m0, s0[id].deviceId)
  {
    forall id | id in due && id in s0 && SoleDueRow(s0, due, id)
      ensures exists k :: |h0| <= k < |h| && h[k].scheduleId == Some(id) && h[k].fromMode == CurrentMode(m0, s0[id].deviceId)
    {
      var i :| 0 <= i < |order| && order[i] == id;
      var k := |h0| + i;
      assert RecordsRun(h[k], id, s0[id], now);
      assert FirstFor(h0, h, k) by {
        forall j | |h0| - 1 < j < k
          ensures h[j].deviceId != h[k].deviceId
        {
          var jj := j - |h0|;
          assert order[jj] in due && order[jj] in s0 && order[jj] != order[i];
          assert RecordsRun(h[|h0| + jj], order[jj], s0[order[jj]], now);
          assert h[j] == h[|h0| + jj];
        }
      }
      assert h[k].fromMode == CurrentMode(m0, h[k].deviceId);
    }
  }

  /** Everything the fixed-time pass promises, read off the fold over its visit order. */
  lemma TimePassFacts(s0: map<nat, ScheduleRow>, m0: map<string, ModeRow>, h0: seq<HistoryRow>, o0: seq<Command>,
                      s: map<nat, ScheduleRow>, m: map<string, ModeRow>, h: seq<HistoryRow>, o: seq<Command>,
                      due: set<nat>, order: seq<nat>, now: Instant)
    requires due <= s0.Keys && Enumerates(order, due)
    requires Tables(s, m, h, o) == TimeRun(Tables(s0, m0, h0, o0), order, now)
    ensures TimeVisited(s0, s, due, now)
    ensures TimeEntries(h0, h, s0, order, now) && Extends(h, h0)
    ensures LedgerFollowsHistory(m0, h0, m, h)
    ensures TimeLedger(m0, h0, m, h, s0, due, now)
  {
    var t0 := Tables(s0, m0, h0, o0);
    TimeRunRows(t0, order, now);
    TimeRunHistory(t0, order, now);
    TimeRunFollows(m0, h0, t0, order, now);
    NoDueRowKeepsMode(m0, h0, m, h, s0, due, order, now);
    DueDeviceHoldsTarget(h0, m, h, s0, due, order, now);
    SoleDueRowFromLedger(m0, h0, h, s0, due, order, now);
  }

  /** Every row appended from position `n` on is a range entry. */
  predicate RangeEntriesFrom(n: int, h: seq<HistoryRow>, s1: map<nat, ScheduleRow>, order: seq<nat>,
                             hour: int, minute: int, dow: int, now: Instant)
  {
    forall k :: 0 <= n <= k < |h| ==> RangeEntry(h[k], s1, order, hour, minute, dow, now)
  }

  /** Everything the range pass promises, read off the fold over its visit order. */
  lemma RangePassFacts(s1: map<nat, ScheduleRow>, m1: map<string, ModeRow>, h1: seq<HistoryRow>, o1: seq<Command>,
                       s: map<nat, ScheduleRow>, m: map<string, ModeRow>, h: seq<HistoryRow>, o: seq<Command>,
                       order: seq<nat>, hour: int, minute: int, dow: int, now: Instant)
    requires Distinct(order)
    requires Tables(s, m, h, o) == RangeRun(Tables(s1, m1, h1, o1), order, hour, minute, dow, now)
    ensures RangeRowsMoved(s1, s, order, hour, minute, dow, now)
    ensures Extends(h, h1) && RangeEntriesFrom(|h1|, h, s1, order, hour, minute, dow, now)
    ensures LedgerFollowsHistory(m1, h1, m, h) && LedgerChangesRecorded(m1, h1, m, h)
  {
    var t1 := Tables(s1, m1, h1, o1);
    RangeRunRows(t1, order, hour, minute, dow, now);
    RangeRunHistory(t1, order, hour, minute, dow, now);
    RangeRunFollows(m1, h1, t1, order, hour, minute, dow, now);
    LedgerChangeExplained(m1, h1, m, h);
  }

  /** The two passes' rows together: due rows ran once, only range rows on a
      gated boundary changed otherwise, and no due row is due again. */
  lemma TickRows(s0: map<nat, ScheduleRow>, s1: map<nat, ScheduleRow>, s2: map<nat, ScheduleRow>,
                 due: set<nat>, rangeOrder: seq<nat>, devices: set<string>, n: nat,
                 hour: int, minute: int, dow: int, now: Instant)
    requires SchedulesValid(s0, n)
    requires due == DueSet(s0, devices, now)
    requires TimeVisited(s0, s1, due, now)
    requires Enumerates(rangeOrder, RangeSet(s0, devices))
    requires RangeRowsMoved(s1, s2, rangeOrder, hour, minute, dow, now)
    requires forall id :: id in RangeSet(s0, devices) ==> id in s1 && s1[id] == s0[id]
    ensures s2.Keys == s0.Keys
    ensures forall id :: id in due ==> s2[id] == TimeRunRow(s0[id], now)
    ensures forall id :: id in s0 && id !in due ==>
      || s2[id] == s0[id]
      || (id in RangeSet(s0, devices) && OnGatedBoundary(s0[id], hour, minute, dow) && s2[id] == RangeRunRow(s0[id], now))
    ensures forall id :: id in due && DaysOk(s0[id]) ==> !DueAt(s2[id], now)
  {
    forall id | id in due
      ensures s2[id] == TimeRunRow(s0[id], now)
    {
      assert id !in RangeSet(s0, devices);
      assert id !in rangeOrder;
    }
    forall id | id in due && DaysOk(s0[id])
      ensures !DueAt(s2[id], now)
    {
      FiredNotDueAgain(s0[id], now);
    }
  }

  /** The two passes' history together: the time entries of the due rows in
      visit order, then range entries. */
  lemma TickHistory(s0: map<nat, ScheduleRow>, s1: map<nat, ScheduleRow>,
                    h0: seq<HistoryRow>, h1: seq<HistoryRow>, h2: seq<HistoryRow>,
                    timeOrder: seq<nat>, rangeOrder: seq<nat>, ranges: set<nat>,
                    hour: int, minute: int, dow: int, now: Instant)
    requires TimeEntries(h0, h1, s0, timeOrder, now) && Extends(h1, h0) && Extends(h2, h1)
    requires Enumerates(rangeOrder, ranges)
    requires forall id :: id in ranges ==> id in s1 && id in s0 && s1[id] == s0[id]
    requires RangeEntriesFrom(|h1|, h2, s1, rangeOrder, hour, minute, dow, now)
    ensures TimeEntriesWithin(h0, h2, s0, timeOrder, now) && Extends(h2, h0)
    ensures RangeEntriesFrom(|h0| + |timeOrder|, h2, s0, rangeOrder, hour, minute, dow, now)
  {
    ExtendsTrans(h2, h1, h0);
    forall i | 0 <= i < |timeOrder| && timeOrder[i] in s0
      ensures RecordsRun(h2[|h0| + i], timeOrder[i], s0[timeOrder[i]], now)
    {
      assert h2[..|h1|][|h0| + i] == h2[|h0| + i];
    }
    forall k | 0 <= |h0| + |timeOrder| <= k < |h2|
      ensures RangeEntry(h2[k], s0, rangeOrder, hour, minute, dow, now)
    {
      assert RangeEntry(h2[k], s1, rangeOrder, hour, minute, dow, now);
      var id := h2[k].scheduleId.value;
      var i :| 0 <= i < |rangeOrder| && rangeOrder[i] == id;
    }
  }

  /** The rows of `h` after position `|h0|` begin with the time entries of `order`. */
  predicate TimeEntriesWithin(h0: seq<HistoryRow>, h: seq<HistoryRow>, s0: map<nat, ScheduleRow>, order: seq<nat>, now: Instant)
  {
    && |h0| + |order| <= |h|
    && forall i :: 0 <= i < |order| && order[i] in s0 ==> RecordsRun(h[|h0| + i], order[i], s0[order[i]], now)
  }

  lemma FromModeOfLedger(m: map<string, ModeRow>, deviceId: string)
    requires ModesValid(m)
    ensures TimeOnlyFromModeCheck(CurrentMode(m, deviceId))
  {
    TimeOnlyFromModeCheckIsExact(CurrentMode(m, deviceId));
  }

  lemma SchedulesValidWrite(s: map<nat, ScheduleRow>, n: nat, id: nat, row: ScheduleRow)
    requires SchedulesValid(s, n) && id < n
    requires row.id == id && ScheduleChecks(row) && TriggerFixed(row)
    ensures SchedulesValid(s[id := row], n)
  {
  }

  lemma HistoryValidWiderStore(h: seq<HistoryRow>, s: map<nat, ScheduleRow>, s2: map<nat, ScheduleRow>)
    requires HistoryValid(h, s) && s.Keys <= s2.Keys
    ensures HistoryValid(h, s2)
  {
    forall k | 0 <= k < |h| && h[k].scheduleId.Some?
      ensures h[k].scheduleId.value in s2
    {
      assert h[k].scheduleId.value in s;
    }
  }

  lemma RecordKeepsValid(h: seq<HistoryRow>, o: seq<Command>, s: map<nat, ScheduleRow>, row: HistoryRow, c: Command)
    requires HistoryValid(h, s) && Dispatched(h, o)
    requires HistoryChecks(row) && (row.scheduleId.Some? ==> row.scheduleId.value in s)
    requires Announces(c, row)
    ensures HistoryValid(h + [row], s) && Dispatched(h + [row], o + [c])
  {
    forall k | 0 <= k < |h| + 1
      ensures (h + [row])[k] == if k < |h| then h[k] else row
      ensures (o + [c])[k] == if k < |h| then o[k] else c
    {
    }
  }

  /** One recorded switch keeps every table valid: the schedule row rewritten,
      the ledger upserted, one history row and its command appended. */
  lemma SwitchKeepsValid(s: map<nat, ScheduleRow>, m: map<string, ModeRow>, h: seq<HistoryRow>, o: seq<Command>,
                         n: nat, id: nat, row: ScheduleRow, deviceId: string, mr: ModeRow, entry: HistoryRow, c: Command)
    requires SchedulesValid(s, n) && ModesValid(m) && HistoryValid(h, s) && Dispatched(h, o)
    requires id in s && row.id == id && ScheduleChecks(row) && TriggerFixed(row)
    requires IsMode(mr.currentMode)
    requires HistoryChecks(entry) && (entry.scheduleId.Some? ==> entry.scheduleId.value in s) && Announces(c, entry)
    ensures SchedulesValid(s[id := row], n) && ModesValid(m[deviceId := mr])
    ensures HistoryValid(h + [entry], s[id := row]) && Dispatched(h + [entry], o + [c])
  {
    RecordKeepsValid(h, o, s, entry, c);
    HistoryValidWiderStore(h + [entry], s, s[id := row]);
  }

  lemma DetachKeepsValid(h: seq<HistoryRow>, o: seq<Command>, s: map<nat, ScheduleRow>, id: nat)
    requires HistoryValid(h, s) && Dispatched(h, o)
    ensures HistoryValid(DetachSchedule(h, id), s - {id}) && Dispatched(DetachSchedule(h, id), o)
  {
    var r := DetachSchedule(h, id);
    forall k | 0 <= k < |r|
      ensures HistoryChecks(r[k]) && (r[k].scheduleId.Some? ==> r[k].scheduleId.value in s - {id})
      ensures Announces(o[k], r[k])
    {
      assert r[k].(scheduleId := h[k].scheduleId) == h[k];
    }
  }

  datatype ModeReply = ModeAccessDenied | ModeIs(row: ModeRow)

  datatype SetModeReply =
    | InvalidMode
    | SetModeAccessDenied
    | AlreadySet(mode: string)
    | Changed(previousMode: Option<string>)

  datatype CreateReply = CreateInvalid(reason: CreateError) | CreateAccessDenied | Created(row: ScheduleRow)

  datatype UpdateReply = UpdateNotFound | UpdateRefused | Updated(row: ScheduleRow)

  class EnergyStore {
    /** `energy_schedules`, by id. */
    var schedules: map<nat, ScheduleRow>
    /** `device_energy_modes`, by the UNIQUE device id. */
    var modes: map<string, ModeRow>
    /** `energy_mode_history`, oldest first; rows are only appended. */
    var history: seq<HistoryRow>
    /** Commands published to the transport, oldest first. */
    var outbox: seq<Command>
    /** Device ids present in `devices`. */
    var devices: set<string>
    /** (user id, device id) pairs of `user_devices`; the model does not
        relate them to `devices`. */
    var access: set<(int, string)>
    /** The next value of the schedule id serial. */
    var nextId: nat

    predicate Valid()
      reads this
    {
      && SchedulesValid(schedules, nextId)
      && ModesValid(modes)
      && HistoryValid(history, schedules)
      && Dispatched(history, outbox)
    }

    /** The four tables a tick writes. */
    function State(): Tables
      reads this
    {
      Tables(schedules, modes, history, outbox)
    }

    constructor(devices: set<string>, access: set<(int, string)>)
      ensures Valid()
      ensures this.devices == devices && this.access == access
      ensures schedules == map[] && modes == map[] && history == [] && outbox == [] && nextId == 1
    {
      this.devices := devices;
      this.access := access;
      schedules := map[];
      modes := map[];
      history := [];
      outbox := [];
      nextId := 1;
    }

    /** Read a device's mode; a device without a row gets `solar` by `default`,
        written to the ledger without a history row. */
    method GetMode(userId: int, deviceId: string, now: Instant) returns (res: ModeReply)
      requires Valid()
      modifies this
      ensures Valid()
      ensures (userId, deviceId) !in access ==> res == ModeAccessDenied && modes == old(modes)
      ensures (userId, deviceId) in access && deviceId in old(modes) ==>
        res == ModeIs(old(modes)[deviceId]) && modes == old(modes)
      ensures (userId, deviceId) in access && deviceId !in old(modes) ==>
        && res == ModeIs(ModeRow("solar", "default", now))
        && modes == old(modes)[deviceId := ModeRow("solar", "default", now)]
      ensures schedules == old(schedules) && history == old(history) && outbox == old(outbox)
      ensures devices == old(devices) && access == old(access) && nextId == old(nextId)
    {
      if (userId, deviceId) !in access {
        return ModeAccessDenied;
      }
      if deviceId !in modes {
        modes := modes[deviceId := ModeRow("solar", "default", now)];
      }
      res := ModeIs(modes[deviceId]);
    }

    /** The manual mode change: 400 for a missing or unknown mode, 403 without
        access, no write when the mode is already set, otherwise one ledger
        upsert, one history row and one command. */
    method SetModeManual(userId: int, deviceId: string, mode: Option<string>, now: Instant) returns (res: SetModeReply)
      requires Valid()
      modifies this
      ensures Valid()
      ensures !(mode.Some? && IsMode(mode.value)) ==> res == InvalidMode
      ensures mode.Some? && IsMode(mode.value) && (userId, deviceId) !in access ==> res == SetModeAccessDenied
      ensures mode.Some? && IsMode(mode.value) && (userId, deviceId) in access && CurrentMode(old(modes), deviceId) == mode ==>
        res == AlreadySet(mode.value)
      ensures !res.Changed? ==> modes == old(modes) && history == old(history) && outbox == old(outbox)
      ensures mode.Some? && IsMode(mode.value) && (userId, deviceId) in access && CurrentMode(old(modes), deviceId) != mode ==>
        && res == Changed(CurrentMode(old(modes), deviceId))
        && modes == old(modes)[deviceId := ModeRow(mode.value, "manual", now)]
        && history == old(history) + [HistoryRow(deviceId, res.previousMode, mode.value, "manual", None, now)]
        && outbox == old(outbox) + [SetModeCommand(deviceId, mode.value, "manual", None, now)]
      ensures schedules == old(schedules) && devices == old(devices) && access == old(access) && nextId == old(nextId)
    {
      if mode.None? || mode.value == "" || !IsMode(mode.value) {
        return InvalidMode;
      }
      if (userId, deviceId) !in access {
        return SetModeAccessDenied;
      }
      var oldMode := CurrentMode(modes, deviceId);
      if oldMode == mode {
        return AlreadySet(mode.value);
      }
      FromModeOfLedger(modes, deviceId);
      var entry := HistoryRow(deviceId, oldMode, mode.value, "manual", None, now);
      var command := SetModeCommand(deviceId, mode.value, "manual", None, now);
      RecordKeepsValid(history, outbox, schedules, entry, command);
      modes := modes[deviceId := ModeRow(mode.value, "manual", now)];
      history := history + [entry];
      outbox := outbox + [command];
      res := Changed(oldMode);
    }

    /** Create a schedule: validation (400), then access (403), then one insert
        through the trigger. The JavaScript next execution is computed for an
        enabled time schedule, and the trigger replaces it. */
    method CreateSchedule(userId: int, deviceId: string, q: CreateRequest, now: Instant) returns (res: CreateReply)
      requires Valid()
      modifies this
      ensures Valid()
      ensures ValidateCreate(q).Reject? ==> res == CreateInvalid(ValidateCreate(q).reason)
      ensures ValidateCreate(q) == Accept && (userId, deviceId) !in access ==> res == CreateAccessDenied
      ensures !res.Created? ==> schedules == old(schedules) && nextId == old(nextId)
      ensures ValidateCreate(q) == Accept && (userId, deviceId) in access ==>
        && res == Created(ResetTrigger(NewScheduleRow(q, old(nextId), deviceId, userId, 0, now), now))
        && schedules == old(schedules)[old(nextId) := res.row]
        && nextId == old(nextId) + 1
      ensures modes == old(modes) && history == old(history) && outbox == old(outbox)
      ensures devices == old(devices) && access == old(access)
    {
      var verdict := ValidateCreate(q);
      if verdict.Reject? {
        return CreateInvalid(verdict.reason);
      }
      if (userId, deviceId) !in access {
        return CreateAccessDenied;
      }
      var jsNext := ComputeCreateJsNext(q, now);
      var row := NewScheduleRow(q, nextId, deviceId, userId, jsNext, now);
      var stored := UpdateNextExecution(row, now);
      JsNextIsOverwrittenOnCreate(q, nextId, deviceId, userId, jsNext, 0, now);
      TriggerStores(row, now);
      HistoryValidWiderStore(history, schedules, schedules[nextId := stored]);
      schedules := schedules[nextId := stored];
      nextId := nextId + 1;
      res := Created(stored);
    }

    /** Update a schedule: 403 unless it exists on this device for this user;
        the merged row goes through the trigger, and a row that breaks a CHECK
        is refused (500) with nothing written. */
    method UpdateSchedule(userId: int, deviceId: string, id: nat, p: UpdateRequest, now: Instant) returns (res: UpdateReply)
      requires Valid()
      modifies this
      ensures Valid()
      ensures !(id in old(schedules) && old(schedules)[id].deviceId == deviceId && old(schedules)[id].userId == userId) ==>
        res == UpdateNotFound
      ensures id in old(schedules) && old(schedules)[id].deviceId == deviceId && old(schedules)[id].userId == userId ==>
        var written := ResetTrigger(MergeUpdate(old(schedules)[id], p, 0, now), now);
        && (ScheduleChecks(written) ==> res == Updated(written) && schedules == old(schedules)[id := written])
        && (!ScheduleChecks(written) ==> res == UpdateRefused)
      ensures !res.Updated? ==> schedules == old(schedules)
      ensures modes == old(modes) && history == old(history) && outbox == old(outbox)
      ensures devices == old(devices) && access == old(access) && nextId == old(nextId)
    {
      if id !in schedules || schedules[id].deviceId != deviceId || schedules[id].userId != userId {
        return UpdateNotFound;
      }
      var current := schedules[id];
      var jsNext := ComputeUpdateJsNext(current, p, now);
      var row := MergeUpdate(current, p, jsNext, now);
      var written := UpdateNextExecution(row, now);
      JsNextIsOverwritten(current, p, jsNext, 0, now);
      if !ScheduleChecks(written) {
        return UpdateRefused;
      }
      TriggerStores(row, now);
      HistoryValidWiderStore(history, schedules, schedules[id := written]);
      schedules := schedules[id := written];
      res := Updated(written);
    }

    /** Delete a schedule owned by this user on this device; its history rows
        stay, with the schedule reference set to NULL. */
    method DeleteSchedule(userId: int, deviceId: string, id: nat) returns (deleted: bool)
      requires Valid()
      modifies this
      ensures Valid()
      ensures deleted <==> id in old(schedules) && old(schedules)[id].deviceId == deviceId && old(schedules)[id].userId == userId
      ensures deleted ==> schedules == old(schedules) - {id} && history == DetachSchedule(old(history), id)
      ensures !deleted ==> schedules == old(schedules) && history == old(history)
      ensures modes == old(modes) && outbox == old(outbox)
      ensures devices == old(devices) && access == old(access) && nextId == old(nextId)
    {
      if id !in schedules || schedules[id].deviceId != deviceId || schedules[id].userId != userId {
        return false;
      }
      DetachKeepsValid(history, outbox, schedules, id);
      schedules := schedules - {id};
      history := DetachSchedule(history, id);
      deleted := true;
    }

    /** `executeTimeSchedule`: switch the device to the schedule's target mode,
        record it, disable a one-shot or recompute the next execution from now,
        commit, then publish. */
    method ExecuteTimeSchedule(id: nat, now: Instant)
      requires Valid() && id in schedules
      modifies this
      ensures Valid()
      ensures State() == TimeVisit(old(State()), id, now)
      ensures devices == old(devices) && access == old(access) && nextId == old(nextId)
    {
      var schedule := schedules[id];
      var oldMode := CurrentMode(modes, schedule.deviceId);
      FromModeOfLedger(modes, schedule.deviceId);
      var entry := HistoryRow(schedule.deviceId, oldMode, schedule.targetMode, "schedule", Some(id), now);
      var command := SetModeCommand(schedule.deviceId, schedule.targetMode, "schedule", Some(schedule.name), now);
      var written := WriteTimeRun(schedule, now);
      SwitchKeepsValid(schedules, modes, history, outbox, nextId, id, written,
                       schedule.deviceId, ModeRow(schedule.targetMode, "schedule", now), entry, command);
      modes := modes[schedule.deviceId := ModeRow(schedule.targetMode, "schedule", now)];
      history := history + [entry];
      schedules := schedules[id := written];
      outbox := outbox + [command];
    }

    /** `executeRangeModeChange`: the write unit of a range transition. A write
        the constraints refuse (an unknown mode, a missing schedule) rolls the
        whole unit back. The guard on `oldMode` follows the exact from-mode
        check of `Schema.TimeOnlyFromModeCheckIsExact`, not the check as
        written at backend/reset-database.js:191, which lets any from-mode through
        (`Schema.ResetFromModeCheckAcceptsAnyMode`). Under `ModesValid` the
        ledger only holds modes, so a call with `oldMode` from the ledger
        never takes that branch. */
    method ExecuteRangeModeChange(deviceId: string, oldMode: Option<string>, newMode: string, id: nat, now: Instant)
      requires Valid()
      modifies this
      ensures Valid()
      ensures IsMode(newMode) && (oldMode.None? || IsMode(oldMode.value)) && id in old(schedules) ==>
        && schedules == old(schedules)[id := RangeRunRow(old(schedules)[id], now)]
        && modes == old(modes)[deviceId := ModeRow(newMode, "schedule_range", now)]
        && history == old(history) + [HistoryRow(deviceId, oldMode, newMode, "schedule_range", Some(id), now)]
        && outbox == old(outbox) + [SetModeCommand(deviceId, newMode, "schedule_range", Some(old(schedules)[id].name), now)]
      ensures !(IsMode(newMode) && (oldMode.None? || IsMode(oldMode.value)) && id in old(schedules)) ==>
        schedules == old(schedules) && modes == old(modes) && history == old(history) && outbox == old(outbox)
      ensures devices == old(devices) && access == old(access) && nextId == old(nextId)
    {
      if !IsMode(newMode) || !(oldMode.None? || IsMode(oldMode.value)) || id !in schedules {
        return;
      }
      var schedule := schedules[id];
      TimeOnlyFromModeCheckIsExact(oldMode);
      var entry := HistoryRow(deviceId, oldMode, newMode, "schedule_range", Some(id), now);
      var command := SetModeCommand(deviceId, newMode, "schedule_range", Some(schedule.name), now);
      var written := UpdateNextExecution(schedule.(lastExecuted := Some(now)), now);
      TriggerStores(schedule.(lastExecuted := Some(now)), now);
      SwitchKeepsValid(schedules, modes, history, outbox, nextId, id, written,
                       deviceId, ModeRow(newMode, "schedule_range", now), entry, command);
      modes := modes[deviceId := ModeRow(newMode, "schedule_range", now)];
      history := history + [entry];
      schedules := schedules[id := written];
      outbox := outbox + [command];
    }

    /** `checkAndExecuteRangeSchedule`: evaluate one range schedule at the
        tick's clock and switch the device when its edge trigger fires. */
    method CheckAndExecuteRangeSchedule(id: nat, hour: int, minute: int, dow: int, now: Instant)
      returns (fired: Option<string>)
      requires Valid() && id in schedules && schedules[id].scheduleType == "range"
      modifies this
      ensures Valid()
      ensures var r := old(schedules)[id];
        HasRangeBounds(r) && fired == RangeTransition(r, hour, minute, dow, CurrentMode(old(modes), r.deviceId))
      ensures State() == RangeVisit(old(State()), id, hour, minute, dow, now)
      ensures devices == old(devices) && access == old(access) && nextId == old(nextId)
    {
      var schedule := schedules[id];
      assert ScheduleChecks(schedule);
      if !ShouldRunToday(schedule.repeatType, schedule.repeatDays, dow) {
        return None;
      }
      var currentTimeMinutes := hour * 60 + minute;
      var startTimeMinutes := schedule.startHour.value * 60 + schedule.startMinute.value;
      var endTimeMinutes := schedule.endHour.value * 60 + schedule.endMinute.value;
      var isInRange: bool;
      if endTimeMinutes <= startTimeMinutes {
        isInRange := currentTimeMinutes >= startTimeMinutes || currentTimeMinutes < endTimeMinutes;
      } else {
        isInRange := currentTimeMinutes >= startTimeMinutes && currentTimeMinutes < endTimeMinutes;
      }
      var effectiveSecondaryMode := EffectiveSecondary(schedule.targetMode, schedule.secondaryMode);
      var expectedMode := if isInRange then schedule.targetMode else effectiveSecondaryMode;
      var currentMode := CurrentMode(modes, schedule.deviceId);
      var isStartTransition := hour == schedule.startHour.value && minute == schedule.startMinute.value;
      var isEndTransition := hour == schedule.endHour.value && minute == schedule.endMinute.value;
      if (isStartTransition || isEndTransition) && currentMode != Some(expectedMode) {
        ExpectedModeOfValidRow(schedule, hour, minute);
        FromModeOfLedger(modes, schedule.deviceId);
        TimeOnlyFromModeCheckIsExact(currentMode);
        ExecuteRangeModeChange(schedule.deviceId, currentMode, expectedMode, id, now);
        fired := Some(expectedMode);
      } else {
        fired := None;
      }
    }

    /** The fixed-time pass: execute every enabled time schedule of a
        registered device whose next execution is at or before `now`, in the
        visit order `order`. */
    /** Checks each range schedule of `ids` once, in the order it returns. */
    method CheckRangeSchedules(ids: set<nat>, hour: int, minute: int, dow: int, now: Instant)
      returns (ghost order: seq<nat>)
      requires Valid()
      requires forall id :: id in ids ==> id in schedules && schedules[id].scheduleType == "range"
      modifies this
      ensures Valid()
      ensures Enumerates(order, ids)
      ensures State() == RangeRun(old(State()), order, hour, minute, dow, now)
      ensures devices == old(devices) && access == old(access) && nextId == old(nextId)
    {
      ghost var t1 := State();
      assert forall id :: id in ids ==> id in t1.schedules && t1.schedules[id].scheduleType == "range";
      var pending := ids;
      order := [];
      while pending != {}
        invariant Valid()
        invariant pending <= ids && Enumerates(order, ids - pending) && |order| == |ids - pending|
        invariant State() == RangeRun(t1, order, hour, minute, dow, now)
        invariant devices == old(devices) && access == old(access) && nextId == old(nextId)
        decreases |pending|
      {
        var id :| id in pending;
        RangeRunKeepsUnvisited(t1, order, id, hour, minute, dow, now);
        var fired := CheckAndExecuteRangeSchedule(id, hour, minute, dow, now);
        RangeRunStep(t1, order, id, hour, minute, dow, now);
        EnumeratesStep(order, ids, pending, id);
        order := order + [id];
        pending := pending - {id};
      }
      assert ids - {} == ids;
    }

    method FixedTimePass(now: Instant) returns (due: set<nat>, ghost order: seq<nat>)
      requires Valid()
      modifies this
      ensures Valid()
      ensures due == DueSet(old(schedules), old(devices), now) && Enumerates(order, due)
      ensures State() == TimeRun(old(State()), order, now)
      ensures TimeVisited(old(schedules), schedules, due, now)
      ensures TimeEntries(old(history), history, old(schedules), order, now) && Extends(history, old(history))
      ensures LedgerFollowsHistory(old(modes), old(history), modes, history)
      ensures TimeLedger(old(modes), old(history), modes, history, old(schedules), due, now)
      ensures devices == old(devices) && access == old(access) && nextId == old(nextId)
    {
      ghost var t0 := State();
      due := DueSet(schedules, devices, now);
      order := ExecuteTimeSchedules(due, now);
      TimePassFacts(t0.schedules, t0.modes, t0.history, t0.outbox, schedules, modes, history, outbox, due, order, now);
    }

    /** Executes each schedule of `ids` once, in the order it returns. */
    method ExecuteTimeSchedules(ids: set<nat>, now: Instant) returns (ghost order: seq<nat>)
      requires Valid() && ids <= schedules.Keys
      modifies this
      ensures Valid()
      ensures Enumerates(order, ids)
      ensures State() == TimeRun(old(State()), order, now)
      ensures devices == old(devices) && access == old(access) && nextId == old(nextId)
    {
      ghost var t0 := State();
      var pending := ids;
      order := [];
      while pending != {}
        invariant Valid()
        invariant pending <= ids && Enumerates(order, ids - pending) && |order| == |ids - pending|
        invariant State() == TimeRun(t0, order, now)
        invariant devices == old(devices) && access == old(access) && nextId == old(nextId)
        decreases |pending|
      {
        var id :| id in pending;
        TimeRunKeepsKeys(t0, order, now);
        ExecuteTimeSchedule(id, now);
        TimeRunStep(t0, order, id, now);
        EnumeratesStep(order, ids, pending, id);
        order := order + [id];
        pending := pending - {id};
      }
      assert ids - {} == ids;
    }

    /** The range pass: evaluate every enabled range schedule of a registered
        device at wall-clock hour:minute on weekday `dow`, in the visit order
        `order`. */
    method RangePass(hour: int, minute: int, dow: int, now: Instant) returns (ghost order: seq<nat>)
      requires Valid()
      modifies this
      ensures Valid()
      ensures Enumerates(order, RangeSet(old(schedules), old(devices)))
      ensures State() == RangeRun(old(State()), order, hour, minute, dow, now)
      ensures RangeRowsMoved(old(schedules), schedules, order, hour, minute, dow, now)
      ensures Extends(history, old(history))
      ensures RangeEntriesFrom(|old(history)|, history, old(schedules), order, hour, minute, dow, now)
      ensures LedgerFollowsHistory(old(modes), old(history), modes, history)
      ensures LedgerChangesRecorded(old(modes), old(history), modes, history)
      ensures devices == old(devices) && access == old(access) && nextId == old(nextId)
    {
      ghost var t1 := State();
      var ranges := RangeSet(schedules, devices);
      order := CheckRangeSchedules(ranges, hour, minute, dow, now);
      RangePassFacts(t1.schedules, t1.modes, t1.history, t1.outbox, schedules, modes, history, outbox,
                     order, hour, minute, dow, now);
    }

    /** One tick of the scheduler: the fixed-time pass, then the range pass.
        Each pass takes its query result when it starts and visits the rows
        in an order the model leaves open (`timeOrder`, `rangeOrder`). */
    method Tick(now: Instant, hour: int, minute: int, dow: int) returns (ghost timeOrder: seq<nat>, ghost rangeOrder: seq<nat>)
      requires Valid()
      modifies this
      ensures Valid()
      ensures Enumerates(timeOrder, DueSet(old(schedules), old(devices), now))
      ensures Enumerates(rangeOrder, RangeSet(old(schedules), old(devices)))
      ensures State() == RangeRun(TimeRun(old(State()), timeOrder, now), rangeOrder, hour, minute, dow, now)
      ensures var mid := TimeRun(old(State()), timeOrder, now);
        TimeLedger(old(modes), old(history), mid.modes, mid.history, old(schedules), DueSet(old(schedules), old(devices), now), now)
      ensures schedules.Keys == old(schedules).Keys
      ensures forall id :: id in DueSet(old(schedules), old(devices), now) ==>
        schedules[id] == TimeRunRow(old(schedules)[id], now)
      ensures forall id :: id in DueSet(old(schedules), old(devices), now) && DaysOk(old(schedules)[id]) ==>
        !DueAt(schedules[id], now)
      ensures forall id :: id in old(schedules) && id !in DueSet(old(schedules), old(devices), now) ==>
        || schedules[id] == old(schedules)[id]
        || (&& id in RangeSet(old(schedules), old(devices))
            && OnGatedBoundary(old(schedules)[id], hour, minute, dow)
            && schedules[id] == RangeRunRow(old(schedules)[id], now))
      ensures TimeEntriesWithin(old(history), history, old(schedules), timeOrder, now) && Extends(history, old(history))
      ensures RangeEntriesFrom(|old(history)| + |timeOrder|, history, old(schedules), rangeOrder, hour, minute, dow, now)
      ensures LedgerFollowsHistory(old(modes), old(history), modes, history)
      ensures LedgerChangesRecorded(old(modes), old(history), modes, history)
      ensures devices == old(devices) && access == old(access) && nextId == old(nextId)
    {
      ghost var t0 := State();
      var due;
      due, timeOrder := FixedTimePass(now);
      ghost var t1 := State();
      RangeSetAfterTimePass(t0.schedules, t1.schedules, due, devices, now);
      rangeOrder := RangePass(hour, minute, dow, now);
      RangeRunFollows(t0.modes, t0.history, t1, rangeOrder, hour, minute, dow, now);
      LedgerChangeExplained(t0.modes, t0.history, modes, history);
      TickRows(t0.schedules, t1.schedules, schedules, due, rangeOrder, devices, nextId, hour, minute, dow, now);
      TickHistory(t0.schedules, t1.schedules, t0.history, t1.history, history, timeOrder, rangeOrder,
                  RangeSet(t0.schedules, devices), hour, minute, dow, now);
    }
  }
}
