/** backend/scheduler.py: the in-memory job store and the two functions that change it. */
module Scheduler {
  import opened Wrappers
  import opened Domain
  import opened Schemas

  /** The scheduling columns of a routine row, and the fields of a `RoutineSchedulerSnapshot`. */
  datatype Routine = Routine(
    scheduleType: ScheduleType,
    scheduleConfig: Option<JsonObject>,
    isActive: bool)

  datatype Trigger = CronTrigger(expr: string) | IntervalTrigger(seconds: int)

  /** A registered job with the arguments `run_routine` will be called with. */
  datatype Job = Job(trigger: Trigger, routineId: int, scheduleType: ScheduleType)

  /** A row that is meant to have a job. */
  predicate Scheduled(r: Routine) {
    r.isActive && !r.scheduleType.Manual?
  }

  /** The job `register_routine` adds for a routine, `None` when building its trigger raises. */
  function JobFor(lib: Library, id: int, r: Routine): Option<Job>
    requires !r.scheduleType.Manual?
  {
    var cfg := if r.scheduleConfig.Some? then r.scheduleConfig.value else map[];
    if r.scheduleType.Cron? then
      var expr := Get(cfg, "cron", JStr(""));
      if CronAccepts(lib, expr) then Some(Job(CronTrigger(expr.s), id, Cron)) else None
    else
      var seconds := Get(cfg, "seconds", JInt(60));
      if IsInt(seconds) && IntOf(seconds) <= lib.intervalLimit
      then Some(Job(IntervalTrigger(IntOf(seconds)), id, Interval))
      else None
  }

  /** The job runs the routine of the row, at the row's own crontab or with the row's own number of seconds
      between two runs. */
  predicate Matches(id: int, r: Routine, job: Job) {
    && job.routineId == id && job.scheduleType == r.scheduleType
    && r.scheduleConfig.Some?
    && match r.scheduleType
       case Cron =>
         "cron" in r.scheduleConfig.value && job.trigger.CronTrigger?
         && r.scheduleConfig.value["cron"] == JStr(job.trigger.expr)
       case Interval =>
         "seconds" in r.scheduleConfig.value && job.trigger.IntervalTrigger?
         && PyEq(r.scheduleConfig.value["seconds"], JInt(job.trigger.seconds))
       case Manual => false
  }

  /** The interval of the row, if it has one, does not overflow. */
  predicate Representable(lib: Library, r: Routine) {
    (r.scheduleType.Interval? && r.scheduleConfig.Some? && "seconds" in r.scheduleConfig.value
     && IsInt(r.scheduleConfig.value["seconds"]))
    ==> IntOf(r.scheduleConfig.value["seconds"]) <= lib.intervalLimit
  }

  /** On a valid row the job that is registered is the one that matches the row. */
  lemma JobMatchesRow(lib: Library, id: int, r: Routine)
    requires ValidSchedule(lib, r.scheduleType, r.scheduleConfig) && !r.scheduleType.Manual?
    ensures JobFor(lib, id, r).Some? <==> Representable(lib, r)
    ensures forall job :: JobFor(lib, id, r) == Some(job) <==> Representable(lib, r) && Matches(id, r, job)
    ensures JobFor(lib, id, r).Some? ==>
              match JobFor(lib, id, r).value.trigger
              case CronTrigger(expr) => lib.validCrontab(expr)
              case IntervalTrigger(seconds) => 0 < seconds <= lib.intervalLimit
  {
  }

  /** The validator refuses no schedule that could be registered, but for intervals that are not positive. */
  lemma RegistrableIsValid(lib: Library, id: int, r: Routine)
    requires r.scheduleConfig.Some?
    ensures r.scheduleType.Cron? && "cron" in r.scheduleConfig.value ==>
              (ValidSchedule(lib, r.scheduleType, r.scheduleConfig) <==> JobFor(lib, id, r).Some?)
    ensures r.scheduleType.Interval? && "seconds" in r.scheduleConfig.value && JobFor(lib, id, r).Some? ==>
              (ValidSchedule(lib, r.scheduleType, r.scheduleConfig)
               <==> NumberOf(r.scheduleConfig.value["seconds"]) > 0.0)
  {
  }

  class JobStore {
    // Jobs by routine id; the store's own key is `routine_<id>`.
    var jobs: map<int, Job>

    constructor ()
      ensures jobs == map[]
    {
      jobs := map[];
    }

    /** `register_routine`. `fails` is a failure of `add_job` itself. */
    method RegisterRoutine(lib: Library, id: int, r: Routine, fails: bool) returns (raised: bool)
      modifies this
      ensures raised <==> !r.scheduleType.Manual? && (fails || JobFor(lib, id, r).None?)
      ensures jobs == if r.scheduleType.Manual? || raised then old(jobs)
                      else old(jobs)[id := JobFor(lib, id, r).value]
      ensures ValidSchedule(lib, r.scheduleType, r.scheduleConfig) && !r.scheduleType.Manual? ==>
                && (raised <==> fails || !Representable(lib, r))
                && (!raised ==> id in jobs && Matches(id, r, jobs[id]))
    {
      if ValidSchedule(lib, r.scheduleType, r.scheduleConfig) && !r.scheduleType.Manual? {
        JobMatchesRow(lib, id, r);
      }
      if r.scheduleType.Manual? {
        return false;
      }
      var cfg := if r.scheduleConfig.Some? then r.scheduleConfig.value else map[];
      var trigger;
      if r.scheduleType.Cron? {
        var expr := Get(cfg, "cron", JStr(""));
        if !CronAccepts(lib, expr) {
          return true;
        }
        trigger := CronTrigger(expr.s);
      } else {
        var seconds := Get(cfg, "seconds", JInt(60));
        if !IsInt(seconds) || IntOf(seconds) > lib.intervalLimit {
          return true;
        }
        trigger := IntervalTrigger(IntOf(seconds));
      }
      if fails {
        return true;
      }
      jobs := jobs[id := Job(trigger, id, r.scheduleType)];
      return false;
    }

    /** `unregister_routine`. `fails` is a failure of the job store. */
    method UnregisterRoutine(id: int, fails: bool) returns (raised: bool)
      modifies this
      ensures raised <==> fails
      ensures jobs == if raised then old(jobs) else old(jobs) - {id}
    {
      if fails {
        return true;
      }
      if id in jobs {
        jobs := jobs - {id};
      }
      return false;
    }
  }
}
