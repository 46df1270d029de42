/** The decision logic of the schedule create and update handlers: request
    validation, the row a create inserts, and the field merge an update writes. */
module ScheduleRequests {
  import opened Wrappers
  import opened Clock
  import opened Schema
  import JsRecurrence

  /** Body of a create request. `None` is an absent (undefined) field. */
  datatype CreateRequest = CreateRequest(
    name: Option<string>,
    targetMode: Option<string>,
    scheduleType: Option<string>,
    hour: Option<int>,
    minute: Option<int>,
    startHour: Option<int>,
    startMinute: Option<int>,
    endHour: Option<int>,
    endMinute: Option<int>,
    secondaryMode: Option<string>,
    repeatType: Option<string>,
    repeatDays: Option<seq<int>>,
    isEnabled: Option<bool>)

  /** The 400 answers of the create handler, in the order it tests them. */
  datatype CreateError =
    | MissingRequiredFields
    | InvalidTargetMode
    | InvalidScheduleType
    | InvalidRepeatType
    | MissingTime
    | InvalidTimeValues
    | MissingRangeBounds
    | InvalidSecondaryMode

  datatype Verdict = Accept | Reject(reason: CreateError)

  /** JavaScript truthiness of an optional string: present and non-empty. */
  predicate Truthy(s: Option<string>) { s.Some? && s.value != "" }

  function CreateScheduleType(q: CreateRequest): string { q.scheduleType.GetOr("time") }
  function CreateRepeatType(q: CreateRequest): string { q.repeatType.GetOr("once") }

  predicate HasTimeInput(q: CreateRequest) { q.hour.Some? && q.minute.Some? }

  predicate TimeInputInRange(q: CreateRequest)
    requires HasTimeInput(q)
  {
    ValidHour(q.hour.value) && ValidMinute(q.minute.value)
  }

  predicate HasRangeInput(q: CreateRequest)
  {
    q.startHour.Some? && q.startMinute.Some? && q.endHour.Some? && q.endMinute.Some?
  }

  predicate RangeInputInRange(q: CreateRequest)
    requires HasRangeInput(q)
  {
    && ValidHour(q.startHour.value) && ValidMinute(q.startMinute.value)
    && ValidHour(q.endHour.value) && ValidMinute(q.endMinute.value)
  }

  /** What a create request must satisfy to be accepted, stated as one conjunction. */
  predicate CreateWellFormed(q: CreateRequest)
  {
    && Truthy(q.name)
    && q.targetMode.Some? && IsMode(q.targetMode.value)
    && IsScheduleType(CreateScheduleType(q))
    && IsRepeatType(CreateRepeatType(q))
    && (CreateScheduleType(q) == "time" ==> HasTimeInput(q) && TimeInputInRange(q))
    && (CreateScheduleType(q) == "range" ==>
          && HasRangeInput(q) && RangeInputInRange(q)
          && (Truthy(q.secondaryMode) ==> IsMode(q.secondaryMode.value)))
  }

  /** The create handler's tests up to and including the target-mode test pass. */
  predicate PassesModeTest(q: CreateRequest)
  {
    Truthy(q.name) && Truthy(q.targetMode) && IsMode(q.targetMode.value)
  }

  /** ... and the schedule-type and repeat-type tests pass as well. */
  predicate PassesTypeTests(q: CreateRequest)
  {
    PassesModeTest(q) && IsScheduleType(CreateScheduleType(q)) && IsRepeatType(CreateRepeatType(q))
  }

  /** The create handler's validation: the first failing test decides the answer,
      so each rejection holds exactly when every earlier test passes and its own fails. */
  function ValidateCreate(q: CreateRequest): (v: Verdict)
    ensures v == Accept <==> CreateWellFormed(q)
    ensures v == Reject(MissingRequiredFields) <==> !Truthy(q.name) || !Truthy(q.targetMode)
    ensures v == Reject(InvalidTargetMode) <==>
      Truthy(q.name) && Truthy(q.targetMode) && !IsMode(q.targetMode.value)
    ensures v == Reject(InvalidScheduleType) <==>
      PassesModeTest(q) && !IsScheduleType(CreateScheduleType(q))
    ensures v == Reject(InvalidRepeatType) <==>
      PassesModeTest(q) && IsScheduleType(CreateScheduleType(q)) && !IsRepeatType(CreateRepeatType(q))
    ensures v == Reject(MissingTime) <==>
      PassesTypeTests(q) && CreateScheduleType(q) == "time" && !HasTimeInput(q)
    ensures v == Reject(InvalidTimeValues) <==>
      && PassesTypeTests(q)
      && (|| (CreateScheduleType(q) == "time" && HasTimeInput(q) && !TimeInputInRange(q))
          || (CreateScheduleType(q) == "range" && HasRangeInput(q) && !RangeInputInRange(q)))
    ensures v == Reject(MissingRangeBounds) <==>
      PassesTypeTests(q) && CreateScheduleType(q) == "range" && !HasRangeInput(q)
    ensures v == Reject(InvalidSecondaryMode) <==>
      && PassesTypeTests(q) && CreateScheduleType(q) == "range"
      && HasRangeInput(q) && RangeInputInRange(q)
      && Truthy(q.secondaryMode) && !IsMode(q.secondaryMode.value)
  {
    var st := CreateScheduleType(q);
    if !Truthy(q.name) || !Truthy(q.targetMode) then Reject(MissingRequiredFields)
    else if !IsMode(q.targetMode.value) then Reject(InvalidTargetMode)
    else if !IsScheduleType(st) then Reject(InvalidScheduleType)
    else if !IsRepeatType(CreateRepeatType(q)) then Reject(InvalidRepeatType)
    else if st == "time" && !HasTimeInput(q) then Reject(MissingTime)
    else if st == "time" && !TimeInputInRange(q) then Reject(InvalidTimeValues)
    else if st == "range" && !HasRangeInput(q) then Reject(MissingRangeBounds)
    else if st == "range" && !RangeInputInRange(q) then Reject(InvalidTimeValues)
    else if st == "range" && Truthy(q.secondaryMode) && !IsMode(q.secondaryMode.value) then Reject(InvalidSecondaryMode)
    else Accept
  }

  /** The row an accepted create inserts, before the trigger runs. A time row
      carries the JavaScript next execution when enabled; a range row stores
      the effective secondary mode and no next execution. */
  function NewScheduleRow(q: CreateRequest, id: nat, deviceId: string, userId: int,
                          jsNext: Instant, now: Instant): (r: ScheduleRow)
    requires ValidateCreate(q) == Accept
    ensures ScheduleChecks(r)
    ensures r.id == id && r.deviceId == deviceId && r.userId == userId
    ensures r.name == q.name.value && r.targetMode == q.targetMode.value
    ensures r.scheduleType == CreateScheduleType(q) && r.repeatType == CreateRepeatType(q)
    ensures r.repeatDays == q.repeatDays && r.isEnabled == q.isEnabled.GetOr(true)
    ensures r.lastExecuted.None?
    ensures r.scheduleType == "time" ==>
      && r.hour == q.hour && r.minute == q.minute
      && r.startHour.None? && r.startMinute.None? && r.endHour.None? && r.endMinute.None?
      && r.secondaryMode.None?
    ensures r.scheduleType == "range" ==>
      && r.hour.None? && r.minute.None?
      && r.startHour == q.startHour && r.startMinute == q.startMinute
      && r.endHour == q.endHour && r.endMinute == q.endMinute
      && r.secondaryMode == Some(EffectiveSecondary(r.targetMode, q.secondaryMode))
      && r.nextExecution.None?
  {
    var enabled := q.isEnabled.GetOr(true);
    if CreateScheduleType(q) == "time" then
      ScheduleRow(id, deviceId, userId, q.name.value, q.targetMode.value, "time",
                  q.hour, q.minute, None, None, None, None, None,
                  CreateRepeatType(q), q.repeatDays, enabled, None,
                  if enabled then Some(jsNext) else None, now)
    else
      ScheduleRow(id, deviceId, userId, q.name.value, q.targetMode.value, "range",
                  None, None, q.startHour, q.startMinute, q.endHour, q.endMinute,
                  Some(EffectiveSecondary(q.targetMode.value, q.secondaryMode)),
                  CreateRepeatType(q), q.repeatDays, enabled, None, None, now)
  }

  /** The JavaScript next execution the create handler computes for an enabled
      time schedule. Other rows do not use it. */
  function CreateJsNext(q: CreateRequest, now: Instant): Instant
    requires ValidateCreate(q) == Accept
  {
    if CreateScheduleType(q) == "time" && q.isEnabled.GetOr(true) then
      JsRecurrence.JsNext(q.hour.value, q.minute.value, CreateRepeatType(q), q.repeatDays, now)
    else 0
  }

  method ComputeCreateJsNext(q: CreateRequest, now: Instant) returns (jsNext: Instant)
    requires ValidateCreate(q) == Accept
    ensures jsNext == CreateJsNext(q, now)
  {
    jsNext := 0;
    if CreateScheduleType(q) == "time" && q.isEnabled.GetOr(true) {
      jsNext := JsRecurrence.CalculateNextExecution(q.hour.value, q.minute.value, CreateRepeatType(q), q.repeatDays, now);
    }
  }

  /** Body of an update request. `None` is an absent or null field, which `??` skips. */
  datatype UpdateRequest = UpdateRequest(
    name: Option<string>,
    targetMode: Option<string>,
    scheduleType: Option<string>,
    hour: Option<int>,
    minute: Option<int>,
    startHour: Option<int>,
    startMinute: Option<int>,
    endHour: Option<int>,
    endMinute: Option<int>,
    secondaryMode: Option<string>,
    repeatType: Option<string>,
    repeatDays: Option<seq<int>>,
    isEnabled: Option<bool>)

  /** `scheduleType ?? current.schedule_type`: any value other than "time" takes the range branch. */
  function FinalScheduleType(cur: ScheduleRow, p: UpdateRequest): string
  {
    p.scheduleType.GetOr(cur.scheduleType)
  }

  function FinalIsEnabled(cur: ScheduleRow, p: UpdateRequest): bool
  {
    p.isEnabled.GetOr(cur.isEnabled)
  }

  /** The row an update writes, before the trigger runs. `jsNext` is what the
      JavaScript calculator returned for the merged time fields. */
  function MergeUpdate(cur: ScheduleRow, p: UpdateRequest, jsNext: Instant, now: Instant): (r: ScheduleRow)
    ensures r.id == cur.id && r.deviceId == cur.deviceId && r.userId == cur.userId
    ensures r.lastExecuted == cur.lastExecuted && r.updatedAt == now
    ensures r.name == p.name.GetOr(cur.name) && r.targetMode == p.targetMode.GetOr(cur.targetMode)
    ensures r.repeatType == p.repeatType.GetOr(cur.repeatType)
    ensures r.repeatDays == p.repeatDays.OrElse(cur.repeatDays)
    ensures r.isEnabled == FinalIsEnabled(cur, p)
    ensures FinalScheduleType(cur, p) == "time" ==>
      && r.scheduleType == "time"
      && r.hour == p.hour.OrElse(cur.hour) && r.minute == p.minute.OrElse(cur.minute)
      && r.startHour.None? && r.startMinute.None? && r.endHour.None? && r.endMinute.None?
      && r.secondaryMode.None?
    ensures FinalScheduleType(cur, p) != "time" ==>
      && r.scheduleType == "range"
      && r.hour.None? && r.minute.None?
      && r.startHour == p.startHour.OrElse(cur.startHour) && r.startMinute == p.startMinute.OrElse(cur.startMinute)
      && r.endHour == p.endHour.OrElse(cur.endHour) && r.endMinute == p.endMinute.OrElse(cur.endMinute)
      && r.secondaryMode == Some(p.secondaryMode.OrElse(cur.secondaryMode).GetOr(Complement(r.targetMode)))
      && r.nextExecution.None?
  {
    var target := p.targetMode.GetOr(cur.targetMode);
    var enabled := FinalIsEnabled(cur, p);
    var common := cur.(name := p.name.GetOr(cur.name), targetMode := target,
                       repeatType := p.repeatType.GetOr(cur.repeatType),
                       repeatDays := p.repeatDays.OrElse(cur.repeatDays),
                       isEnabled := enabled, updatedAt := now);
    if FinalScheduleType(cur, p) == "time" then
      common.(scheduleType := "time", hour := p.hour.OrElse(cur.hour), minute := p.minute.OrElse(cur.minute),
              startHour := None, startMinute := None, endHour := None, endMinute := None,
              secondaryMode := None,
              nextExecution := if enabled then Some(jsNext) else None)
    else
      common.(scheduleType := "range", hour := None, minute := None,
              startHour := p.startHour.OrElse(cur.startHour), startMinute := p.startMinute.OrElse(cur.startMinute),
              endHour := p.endHour.OrElse(cur.endHour), endMinute := p.endMinute.OrElse(cur.endMinute),
              secondaryMode := Some(p.secondaryMode.GetOr(cur.secondaryMode.GetOr(Complement(target)))),
              nextExecution := None)
  }

  /** The JavaScript next execution the update handler computes for an enabled
      time row, from the merged time fields; a NULL hour or minute reaches
      `setHours` as 0. Other rows do not use it. */
  function UpdateJsNext(cur: ScheduleRow, p: UpdateRequest, now: Instant): Instant
  {
    if FinalScheduleType(cur, p) == "time" && FinalIsEnabled(cur, p) then
      JsRecurrence.JsNext(p.hour.OrElse(cur.hour).GetOr(0), p.minute.OrElse(cur.minute).GetOr(0),
                          p.repeatType.GetOr(cur.repeatType), p.repeatDays.OrElse(cur.repeatDays), now)
    else 0
  }

  method ComputeUpdateJsNext(cur: ScheduleRow, p: UpdateRequest, now: Instant) returns (jsNext: Instant)
    ensures jsNext == UpdateJsNext(cur, p, now)
  {
    jsNext := 0;
    if FinalScheduleType(cur, p) == "time" && FinalIsEnabled(cur, p) {
      jsNext := JsRecurrence.CalculateNextExecution(p.hour.OrElse(cur.hour).GetOr(0), p.minute.OrElse(cur.minute).GetOr(0),
                                                    p.repeatType.GetOr(cur.repeatType), p.repeatDays.OrElse(cur.repeatDays), now);
    }
  }

  /** Every value the request provides is one the table accepts. */
  predicate ProvidedValuesValid(p: UpdateRequest)
  {
    && (p.targetMode.Some? ==> IsMode(p.targetMode.value))
    && (p.scheduleType.Some? ==> IsScheduleType(p.scheduleType.value))
    && (p.repeatType.Some? ==> IsRepeatType(p.repeatType.value))
    && OptWithin(p.hour, 0, 23) && OptWithin(p.minute, 0, 59)
    && OptWithin(p.startHour, 0, 23) && OptWithin(p.startMinute, 0, 59)
    && OptWithin(p.endHour, 0, 23) && OptWithin(p.endMinute, 0, 59)
    && (p.secondaryMode.Some? ==> IsMode(p.secondaryMode.value))
  }

  /** An update of a valid row with valid values writes a valid row, provided
      the variant it ends in has all its fields after the merge. */
  lemma MergeKeepsChecks(cur: ScheduleRow, p: UpdateRequest, jsNext: Instant, now: Instant)
    requires ScheduleChecks(cur) && ProvidedValuesValid(p)
    requires FinalScheduleType(cur, p) == "time" ==> p.hour.OrElse(cur.hour).Some? && p.minute.OrElse(cur.minute).Some?
    requires FinalScheduleType(cur, p) == "range" ==>
      && p.startHour.OrElse(cur.startHour).Some? && p.startMinute.OrElse(cur.startMinute).Some?
      && p.endHour.OrElse(cur.endHour).Some? && p.endMinute.OrElse(cur.endMinute).Some?
    ensures ScheduleChecks(MergeUpdate(cur, p, jsNext, now))
  {
  }

  /** Turning a time row into a range without giving the bounds writes a row
      the range CHECK refuses, so the update fails. */
  lemma SwitchToRangeWithoutBoundsIsRefused(cur: ScheduleRow, p: UpdateRequest, jsNext: Instant, now: Instant)
    requires cur.startHour.None? && p.startHour.None? && FinalScheduleType(cur, p) == "range"
    ensures !ScheduleChecks(MergeUpdate(cur, p, jsNext, now))
  {
  }

  /** A time row written by a create or an update gets its next execution from
      the trigger alone: the JavaScript value never reaches the table. */
  lemma JsNextIsOverwritten(cur: ScheduleRow, p: UpdateRequest, js1: Instant, js2: Instant, now: Instant)
    ensures ResetTrigger(MergeUpdate(cur, p, js1, now), now) == ResetTrigger(MergeUpdate(cur, p, js2, now), now)
  {
  }

  lemma JsNextIsOverwrittenOnCreate(q: CreateRequest, id: nat, deviceId: string, userId: int,
                                    js1: Instant, js2: Instant, now: Instant)
    requires ValidateCreate(q) == Accept
    ensures ResetTrigger(NewScheduleRow(q, id, deviceId, userId, js1, now), now)
         == ResetTrigger(NewScheduleRow(q, id, deviceId, userId, js2, now), now)
  {
  }

  /** After editing a schedule that has already fired, the stored next execution
      is computed from its last firing, not from the time of the edit. */
  lemma EditRecomputesFromLastExecuted(cur: ScheduleRow, p: UpdateRequest, jsNext: Instant, now: Instant)
    requires FinalScheduleType(cur, p) == "time" && FinalIsEnabled(cur, p)
    requires cur.lastExecuted.Some?
    requires p.hour.OrElse(cur.hour).Some? && p.minute.OrElse(cur.minute).Some?
    ensures var r := MergeUpdate(cur, p, jsNext, now);
      ResetTrigger(r, now).nextExecution
        == SqlRecurrence.SqlNext(SqlRecurrence.ResetDatabase, r.hour.value, r.minute.value,
                                 r.repeatType, r.repeatDays, cur.lastExecuted.value)
  {
  }

  /** The value the create handler computes in JavaScript is the one the trigger
      then stores, for every rule except `weekly`; a range or disabled schedule
      gets no next execution and the handler's value is 0. */
  lemma CreateJsNextMatchesTrigger(q: CreateRequest, id: nat, deviceId: string, userId: int, now: Instant)
    requires ValidateCreate(q) == Accept
    ensures var stored := ResetTrigger(NewScheduleRow(q, id, deviceId, userId, CreateJsNext(q, now), now), now);
      && (CreateScheduleType(q) == "time" && q.isEnabled.GetOr(true) && CreateRepeatType(q) != "weekly" ==>
            stored.nextExecution == Some(CreateJsNext(q, now)))
      && (!(CreateScheduleType(q) == "time" && q.isEnabled.GetOr(true)) ==>
            stored.nextExecution.None? && CreateJsNext(q, now) == 0)
  {
  }

  /** The same agreement after an update of a schedule that has never fired: the
      trigger then also counts from the time of the edit. */
  lemma UpdateJsNextMatchesTrigger(cur: ScheduleRow, p: UpdateRequest, now: Instant)
    requires cur.lastExecuted.None?
    requires p.hour.OrElse(cur.hour).Some? && p.minute.OrElse(cur.minute).Some?
    ensures var stored := ResetTrigger(MergeUpdate(cur, p, UpdateJsNext(cur, p, now), now), now);
      && (FinalScheduleType(cur, p) == "time" && FinalIsEnabled(cur, p) && p.repeatType.GetOr(cur.repeatType) != "weekly" ==>
            stored.nextExecution == Some(UpdateJsNext(cur, p, now)))
      && (!(FinalScheduleType(cur, p) == "time" && FinalIsEnabled(cur, p)) ==>
            stored.nextExecution.None? && UpdateJsNext(cur, p, now) == 0)
  {
  }
}
