/** backend/schemas.py: the validators, as predicates that hold when the Python function returns
    instead of raising. */
module Schemas {
  import opened Wrappers
  import opened Domain

  /** `CronTrigger.from_crontab(str(v))` does not raise. A crontab has five blank-separated fields,
      so the rendering of a number, a bool or `None` is never one. */
  predicate CronAccepts(lib: Library, v: Json) {
    v.JStr? && lib.validCrontab(v.s)
  }

  /** `validate_routine_schedule` */
  predicate ValidSchedule(lib: Library, t: ScheduleType, cfg: Option<JsonObject>) {
    match t
    case Manual => cfg.None?
    case Cron => cfg.Some? && "cron" in cfg.value && CronAccepts(lib, cfg.value["cron"])
    case Interval =>
      && cfg.Some? && "seconds" in cfg.value
      && IsInt(cfg.value["seconds"]) && IntOf(cfg.value["seconds"]) > 0
  }

  /** `validate_action_config` */
  predicate ValidActionConfig(lib: Library, t: ActionType, cfg: JsonObject) {
    match t
    case Echo =>
      var message := Get(cfg, "message", JNull);
      message.JStr? && !lib.isBlank(message.s)
    case Sleep =>
      var seconds := Get(cfg, "seconds", JNull);
      IsInt(seconds) && IntOf(seconds) >= 0
  }

  /** A field of an update payload: left out, sent as `null`, or sent with a value. Pydantic's
      `model_fields_set` tells the first from the second. */
  datatype Field<+T> = Absent | Null | Given(value: T)

  function AsOption<T>(f: Field<T>): Option<T> {
    if f.Given? then Some(f.value) else None
  }

  datatype RoutineUpdate = RoutineUpdate(
    scheduleType: Field<ScheduleType>,
    scheduleConfig: Field<JsonObject>,
    isActive: Field<bool>)

  /** `RoutineUpdate.validate_schedule_config` */
  predicate AcceptedUpdate(lib: Library, p: RoutineUpdate) {
    if p.scheduleType.Given? then
      (p.scheduleType.value.Manual? && p.scheduleConfig.Absent?)
      || ValidSchedule(lib, p.scheduleType.value, AsOption(p.scheduleConfig))
    else
      p.scheduleConfig.Given? ==> "cron" in p.scheduleConfig.value || "seconds" in p.scheduleConfig.value
  }

  datatype RoutineCreate = RoutineCreate(
    scheduleType: ScheduleType,
    scheduleConfig: Option<JsonObject>,
    isActive: bool)

  datatype ActionUpdate = ActionUpdate(
    actionType: Option<ActionType>,
    config: Option<JsonObject>,
    position: Option<int>)

  /** `ActionUpdate.validate_config` */
  predicate AcceptedActionUpdate(lib: Library, p: ActionUpdate) {
    p.actionType.Some? && p.config.Some? ==> ValidActionConfig(lib, p.actionType.value, p.config.value)
  }
}
