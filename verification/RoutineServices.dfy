/** backend/routine_services.py, routines half: rows in the database against jobs in the scheduler,
    two stores with no common transaction. */
module RoutineServices {
  import opened Wrappers
  import opened Domain
  import opened Schemas
  import opened Scheduler

  /** Committed rows and registered jobs. */
  datatype World = World(rows: map<int, Routine>, jobs: map<int, Job>)

  /** What becomes of a commit: answered, refused, or taken into effect with the answer lost. The last two
      raise. */
  datatype Commit = Committed | Refused | AnswerLost

  /** Which calls of one handler fail: the flush, the scheduler call, the commit, the compensating
      scheduler call, and the refresh after the commit. */
  datatype Faults = Faults(flush: bool, scheduler: bool, commit: Commit, restore: bool, refresh: bool)

  const NO_FAULTS := Faults(false, false, Committed, false, false)

  // ---------------------------------------------------------------------------
  // What one handler does to the two stores
  // ---------------------------------------------------------------------------

  /** The merged schedule type; `None` when an explicit null was sent. */
  function NextType(r: Routine, p: RoutineUpdate): Option<ScheduleType> {
    match p.scheduleType
    case Absent => Some(r.scheduleType)
    case Null => None
    case Given(t) => Some(t)
  }

  function NextConfig(r: Routine, p: RoutineUpdate): Option<JsonObject> {
    if p.scheduleType == Given(Manual) then None
    else if p.scheduleConfig.Absent? then r.scheduleConfig
    else AsOption(p.scheduleConfig)
  }

  /** The merged pair passes `validate_routine_schedule`. */
  predicate MergeAccepted(lib: Library, r: Routine, p: RoutineUpdate) {
    NextType(r, p).Some? && ValidSchedule(lib, NextType(r, p).value, NextConfig(r, p))
  }

  /** `r'` is `r` with the fields the payload gives, `null` included, and without a configuration when it is
      made manual. */
  ghost predicate Written(r: Routine, p: RoutineUpdate, r': Routine) {
    && !p.scheduleType.Null?
    && (p.scheduleType.Given? ==> r'.scheduleType == p.scheduleType.value)
    && (p.scheduleType.Absent? ==> r'.scheduleType == r.scheduleType)
    && (p.scheduleType == Given(Manual) ==> r'.scheduleConfig.None?)
    && (p.scheduleType != Given(Manual) ==>
          && (p.scheduleConfig.Given? ==> r'.scheduleConfig == Some(p.scheduleConfig.value))
          && (p.scheduleConfig.Null? ==> r'.scheduleConfig.None?)
          && (p.scheduleConfig.Absent? ==> r'.scheduleConfig == r.scheduleConfig))
    && (p.isActive.Given? ==> r'.isActive == p.isActive.value)
    && (!p.isActive.Given? ==> r'.isActive == r.isActive)
  }

  function Merged(r: Routine, p: RoutineUpdate): Routine
    requires NextType(r, p).Some?
  {
    Routine(NextType(r, p).value, NextConfig(r, p), if p.isActive.Given? then p.isActive.value else r.isActive)
  }

  datatype Effect = Keep | Put | Drop

  /** The scheduler call an update makes. */
  function EffectOf(r: Routine, r': Routine): Effect {
    if r.isActive && !r'.isActive then Drop
    else if !r'.isActive || r'.scheduleType.Manual? then Keep
    else if r.isActive && r.scheduleType == r'.scheduleType && PyEqConfig(r'.scheduleConfig, r.scheduleConfig) then Keep
    else Put
  }

  /** The scheduler call of an update from `r` to `r'` takes effect. */
  predicate SchedulerCalled(lib: Library, id: int, r: Routine, r': Routine, f: Faults) {
    match EffectOf(r, r')
    case Keep => false
    case Drop => !f.flush && !f.scheduler
    case Put => !f.flush && !f.scheduler && JobFor(lib, id, r').Some?
  }

  /** The new row is stored, whether the handler learns of it or not. */
  predicate UpdateStored(lib: Library, id: int, r: Routine, p: RoutineUpdate, f: Faults) {
    && MergeAccepted(lib, r, p)
    && !f.flush && !f.commit.Refused?
    && (EffectOf(r, Merged(r, p)).Keep? || SchedulerCalled(lib, id, r, Merged(r, p), f))
  }

  function AfterEffect(lib: Library, jobs: map<int, Job>, id: int, r: Routine, r': Routine, f: Faults): map<int, Job> {
    if !SchedulerCalled(lib, id, r, r', f) then jobs
    else if EffectOf(r, r').Drop? then jobs - {id}
    else jobs[id := JobFor(lib, id, r').value]
  }

  /** `restore_previous_scheduler_state`, with its own failure swallowed. */
  function Restored(lib: Library, jobs: map<int, Job>, id: int, r: Routine, f: Faults): map<int, Job> {
    if f.restore then jobs
    else if !r.isActive then jobs - {id}
    else if r.scheduleType.Manual? || JobFor(lib, id, r).None? then jobs
    else jobs[id := JobFor(lib, id, r).value]
  }

  function AfterUpdate(lib: Library, w: World, id: int, p: RoutineUpdate, f: Faults): World
    requires id in w.rows
  {
    var r := w.rows[id];
    if !MergeAccepted(lib, r, p) then w
    else
      var r' := Merged(r, p);
      var jobs := AfterEffect(lib, w.jobs, id, r, r', f);
      World(if UpdateStored(lib, id, r, p, f) then w.rows[id := r'] else w.rows,
            if SchedulerCalled(lib, id, r, r', f) && !f.commit.Committed? then Restored(lib, jobs, id, r, f) else jobs)
  }

  function NewRow(p: RoutineCreate): Routine {
    Routine(p.scheduleType, p.scheduleConfig, p.isActive)
  }

  function AfterCreate(lib: Library, w: World, id: int, p: RoutineCreate, f: Faults): World {
    var r := NewRow(p);
    if f.commit.Refused? then w
    else if Scheduled(r) && f.commit.Committed? && !f.refresh && !f.scheduler && JobFor(lib, id, r).Some?
    then World(w.rows[id := r], w.jobs[id := JobFor(lib, id, r).value])
    else World(w.rows[id := r], w.jobs)
  }

  function AfterDelete(w: World, id: int, f: Faults): World {
    if f.scheduler then w
    else if f.commit.Refused? then World(w.rows, w.jobs - {id})
    else World(w.rows - {id}, w.jobs - {id})
  }

  /** The row an update writes is the one that is `Written`, and without failures an update that makes a valid
      and representable row is accepted. */
  lemma UpdateWrites(lib: Library, w: World, id: int, p: RoutineUpdate, f: Faults)
    requires id in w.rows
    ensures UpdateStored(lib, id, w.rows[id], p, f) ==>
              var r' := AfterUpdate(lib, w, id, p, f).rows[id];
              Written(w.rows[id], p, r') && ValidSchedule(lib, r'.scheduleType, r'.scheduleConfig)
    ensures forall r' | Written(w.rows[id], p, r') && ValidSchedule(lib, r'.scheduleType, r'.scheduleConfig) ::
              f == NO_FAULTS && Representable(lib, r') ==> UpdateStored(lib, id, w.rows[id], p, f)
  {
    forall r' | Written(w.rows[id], p, r') && ValidSchedule(lib, r'.scheduleType, r'.scheduleConfig)
      ensures f == NO_FAULTS && Representable(lib, r') ==> UpdateStored(lib, id, w.rows[id], p, f)
    {
      assert Merged(w.rows[id], p) == r';
      if !r'.scheduleType.Manual? {
        JobMatchesRow(lib, id, r');
      }
    }
  }

  /** Every active scheduled row can be registered, so the start-up loop raises on none. */
  ghost predicate Bootable(lib: Library, rows: map<int, Routine>) {
    forall id | id in rows && Scheduled(rows[id]) :: JobFor(lib, id, rows[id]).Some?
  }

  /** The jobs the rows ask for. */
  ghost function WantedJobs(lib: Library, rows: map<int, Routine>): map<int, Job>
    requires Bootable(lib, rows)
  {
    map id | id in rows && Scheduled(rows[id]) :: JobFor(lib, id, rows[id]).value
  }

  // ---------------------------------------------------------------------------
  // The handlers
  // ---------------------------------------------------------------------------

  class RoutineService {
    const lib: Library
    const store: JobStore
    // The committed `routines` table.
    var rows: map<int, Routine>

    constructor (lib: Library, store: JobStore, rows: map<int, Routine>)
      ensures this.lib == lib && this.store == store && this.rows == rows
    {
      this.lib := lib;
      this.store := store;
      this.rows := rows;
    }

    ghost function Now(): World
      reads this, store
    {
      World(rows, store.jobs)
    }

    /** `create_routine`: the commit comes first; neither the refresh nor the registration after it has a
        compensation. */
    method CreateRoutine(id: int, p: RoutineCreate, f: Faults) returns (ok: bool)
      requires id !in rows
      modifies this, store
      ensures Now() == AfterCreate(lib, old(Now()), id, p, f)
      ensures ok ==>
                && id in rows && rows == old(rows)[id := rows[id]]
                && rows[id].scheduleType == p.scheduleType && rows[id].scheduleConfig == p.scheduleConfig
                && rows[id].isActive == p.isActive
      ensures f.commit.Refused? ==> Now() == old(Now())
      ensures ok && ValidSchedule(lib, p.scheduleType, p.scheduleConfig) && p.isActive && !p.scheduleType.Manual? ==>
                id in store.jobs && Matches(id, rows[id], store.jobs[id])
      ensures f == NO_FAULTS && ValidSchedule(lib, p.scheduleType, p.scheduleConfig) && Representable(lib, NewRow(p)) ==> ok
      ensures ok <==>
              f.commit.Committed? && !f.refresh
              && (Scheduled(NewRow(p)) ==> !f.scheduler && JobFor(lib, id, NewRow(p)).Some?)
    {
      var routine := Routine(p.scheduleType, p.scheduleConfig, p.isActive);
      if ValidSchedule(lib, p.scheduleType, p.scheduleConfig) && !p.scheduleType.Manual? {
        JobMatchesRow(lib, id, routine);
      }
      if f.commit.Refused? {
        return false;
      }
      rows := rows[id := routine];
      if f.commit.AnswerLost? || f.refresh {
        return false;
      }
      if routine.isActive && !routine.scheduleType.Manual? {
        var raised := store.RegisterRoutine(lib, id, routine, f.scheduler);
        return !raised;
      }
      return true;
    }

    /** The assignments of `update_routine` to the ORM object, lines 212 to 223. */
    method AssignFields(snapshot: Routine, p: RoutineUpdate) returns (routine: Routine)
      requires NextType(snapshot, p).Some?
      ensures routine == Merged(snapshot, p) && Written(snapshot, p, routine)
    {
      var nextType := NextType(snapshot, p).value;
      routine := snapshot;
      if !p.scheduleType.Absent? {
        routine := routine.(scheduleType := nextType);
      }
      if !p.scheduleType.Absent? && nextType.Manual? {
        routine := routine.(scheduleConfig := None);
      } else if !p.scheduleConfig.Absent? {
        routine := routine.(scheduleConfig := AsOption(p.scheduleConfig));
      }
      if p.isActive.Given? {
        routine := routine.(isActive := p.isActive.value);
      }
    }

    /** The scheduler branches of `update_routine`, lines 229 to 246. */
    method SyncScheduler(id: int, snapshot: Routine, routine: Routine, fails: bool)
      returns (raised: bool, action: Effect)
      modifies store
      ensures raised <==> !EffectOf(snapshot, routine).Keep?
                          && !SchedulerCalled(lib, id, snapshot, routine, NO_FAULTS.(scheduler := fails))
      ensures action == if raised then Keep else EffectOf(snapshot, routine)
      ensures store.jobs == AfterEffect(lib, old(store.jobs), id, snapshot, routine, NO_FAULTS.(scheduler := fails))
    {
      raised, action := false, Keep;
      if snapshot.isActive && !routine.isActive {
        raised := store.UnregisterRoutine(id, fails);
        action := if raised then Keep else Drop;
      } else if !snapshot.isActive && routine.isActive {
        if !routine.scheduleType.Manual? {
          raised := store.RegisterRoutine(lib, id, routine, fails);
          action := if raised then Keep else Put;
        }
      } else if routine.isActive {
        var scheduleChanged := routine.scheduleType != snapshot.scheduleType
                               || !PyEqConfig(routine.scheduleConfig, snapshot.scheduleConfig);
        if scheduleChanged && !routine.scheduleType.Manual? {
          raised := store.RegisterRoutine(lib, id, routine, fails);
          action := if raised then Keep else Put;
        }
      }
    }

    /** `restore_previous_scheduler_state`; the caller swallows what it raises. */
    method RestorePreviousSchedulerState(id: int, snapshot: Routine, f: Faults)
      modifies store
      ensures store.jobs == Restored(lib, old(store.jobs), id, snapshot, f)
    {
      var swallowed: bool;
      if snapshot.isActive && !snapshot.scheduleType.Manual? {
        swallowed := store.RegisterRoutine(lib, id, snapshot, f.restore);
      } else if !snapshot.isActive {
        swallowed := store.UnregisterRoutine(id, f.restore);
      }
    }

    /** `update_routine`. A refresh that raises after the commit is reported as a failure, but both stores
        keep the update. A commit that takes effect and raises is compensated although the row is stored. */
    method UpdateRoutine(id: int, p: RoutineUpdate, f: Faults) returns (ok: bool)
      requires id in rows
      modifies this, store
      ensures Now() == AfterUpdate(lib, old(Now()), id, p, f)
      ensures ok <==> UpdateStored(lib, id, old(rows[id]), p, f) && f.commit.Committed? && !f.refresh
      ensures ok ==>
                && id in rows && rows == old(rows)[id := rows[id]] && Written(old(rows[id]), p, rows[id])
                && ValidSchedule(lib, rows[id].scheduleType, rows[id].scheduleConfig)
      ensures forall r' | Written(old(rows[id]), p, r') && ValidSchedule(lib, r'.scheduleType, r'.scheduleConfig) ::
                f == NO_FAULTS && Representable(lib, r') ==> ok
      ensures !ok && !f.commit.AnswerLost? && !f.refresh ==> rows == old(rows)
    {
      UpdateWrites(lib, Now(), id, p, f);
      var snapshot := rows[id];
      var nextType := NextType(snapshot, p);
      if nextType.None? || !ValidSchedule(lib, nextType.value, NextConfig(snapshot, p)) {
        return false;
      }
      var routine := AssignFields(snapshot, p);
      var raised, schedulerAction := f.flush, Keep;
      if !raised {
        raised, schedulerAction := SyncScheduler(id, snapshot, routine, f.scheduler);
      }
      if !raised && !f.commit.Refused? {
        rows := rows[id := routine];
      }
      if !raised && f.commit.Committed? {
        return !f.refresh;
      }
      if !schedulerAction.Keep? {
        RestorePreviousSchedulerState(id, snapshot, f);
      }
      return false;
    }

    /** `delete_routine`: the job goes first, and a failed commit does not bring it back. */
    method DeleteRoutine(id: int, f: Faults) returns (ok: bool)
      requires id in rows
      modifies this, store
      ensures Now() == AfterDelete(old(Now()), id, f)
      ensures ok <==> !f.scheduler && f.commit.Committed?
      ensures ok ==> rows == old(rows) - {id} && store.jobs == old(store.jobs) - {id}
      ensures !ok && !f.commit.AnswerLost? ==> rows == old(rows)
    {
      var raised := store.UnregisterRoutine(id, f.scheduler);
      if raised {
        return false;
      }
      if f.commit.Refused? {
        return false;
      }
      rows := rows - {id};
      return f.commit.Committed?;
    }
  }

  /** The start-up loop of `lifespan` over a job store that is empty because the process is new.
      `routines` is the answer of the unordered query at lines 118 to 123, and `fails` tells which calls of
      `add_job` fail; a registration that raises stops the start-up. */
  method Startup(lib: Library, rows: map<int, Routine>, routines: seq<int>, store: JobStore, fails: int -> bool)
    returns (booted: bool)
    requires store.jobs == map[]
    requires forall id :: id in routines <==> id in rows && Scheduled(rows[id])
    modifies store
    ensures booted <==> Bootable(lib, rows) && forall id | id in routines :: !fails(id)
    ensures booted ==> store.jobs == WantedJobs(lib, rows)
  {
    for i := 0 to |routines|
      invariant forall id :: id in store.jobs <==> id in routines[..i]
      invariant forall id | id in routines[..i] :: !fails(id)
      invariant forall id | id in routines[..i] :: JobFor(lib, id, rows[id]) == Some(store.jobs[id])
    {
      var raised := store.RegisterRoutine(lib, routines[i], rows[routines[i]], fails(routines[i]));
      if raised {
        assert routines[i] in routines;
        return false;
      }
    }
    assert routines[..|routines|] == routines;
    assert forall id :: id in store.jobs <==> id in routines;
    assert forall id :: id in WantedJobs(lib, rows) <==> id in routines;
    return true;
  }

  // ---------------------------------------------------------------------------
  // Runs
  // ---------------------------------------------------------------------------

  datatype Step =
    | Create(id: int, create: RoutineCreate, faults: Faults)
    | Update(id: int, update: RoutineUpdate, faults: Faults)
    | Delete(id: int, faults: Faults)
    | Restart

  /** The request reaches the handler: its payload passed the DTO validator and the row exists. A
      restart is a step when the application boots again. */
  ghost predicate Enabled(lib: Library, w: World, s: Step) {
    match s
    case Create(id, p, _) => id !in w.rows && ValidSchedule(lib, p.scheduleType, p.scheduleConfig)
    case Update(id, p, _) => id in w.rows && AcceptedUpdate(lib, p)
    case Delete(id, _) => id in w.rows
    case Restart => Bootable(lib, w.rows)
  }

  ghost function After(lib: Library, w: World, s: Step): World
    requires Enabled(lib, w, s)
  {
    match s
    case Create(id, p, f) => AfterCreate(lib, w, id, p, f)
    case Update(id, p, f) => AfterUpdate(lib, w, id, p, f)
    case Delete(id, f) => AfterDelete(w, id, f)
    case Restart => World(w.rows, WantedJobs(lib, w.rows))
  }

  /** `w'` is reached from `w` by the steps in order. */
  ghost predicate Reaches(lib: Library, w: World, steps: seq<Step>, w': World)
    decreases |steps|
  {
    if steps == [] then w' == w
    else Enabled(lib, w, steps[0]) && Reaches(lib, After(lib, w, steps[0]), steps[1..], w')
  }

  /** Row and job agree for every routine: a job exactly for the active scheduled rows, with the row's
      trigger and arguments. */
  ghost predicate Exact(lib: Library, w: World) {
    && (forall id :: id in w.jobs <==> id in w.rows && Scheduled(w.rows[id]))
    && (forall id | id in w.jobs :: JobFor(lib, id, w.rows[id]) == Some(w.jobs[id]))
  }

  /** The weaker agreement that survives more: every active scheduled row has its job, and every other
      job belongs to an active manual row. */
  ghost predicate Covered(lib: Library, w: World) {
    && (forall id | id in w.jobs :: id in w.rows && w.rows[id].isActive)
    && (forall id | id in w.rows && Scheduled(w.rows[id]) ::
          id in w.jobs && JobFor(lib, id, w.rows[id]) == Some(w.jobs[id]))
  }

  /** Jobs no row asks for. */
  ghost function ExtraJobs(w: World): set<int> {
    set id | id in w.jobs && !(id in w.rows && Scheduled(w.rows[id]))
  }

  /** The two transitions that leave the job of an active manual routine behind. */
  predicate LeavesStaleJob(lib: Library, w: World, s: Step) {
    && s.Update? && s.id in w.rows
    && var r := w.rows[s.id];
    && MergeAccepted(lib, r, s.update)
    && var r' := Merged(r, s.update);
    || (Scheduled(r) && r'.isActive && r'.scheduleType.Manual? && UpdateStored(lib, s.id, r, s.update, s.faults))
    || (r.isActive && r.scheduleType.Manual? && Scheduled(r')
        && SchedulerCalled(lib, s.id, r, r', s.faults) && s.faults.commit.Refused?)
  }

  /** The compensation after a scheduler call changes the job. */
  predicate RestoreMatters(lib: Library, id: int, r: Routine, r': Routine)
    requires !r'.scheduleType.Manual? || EffectOf(r, r').Drop?
  {
    if r.isActive then Scheduled(r) && (EffectOf(r, r').Drop? || JobFor(lib, id, r') != JobFor(lib, id, r)) else true
  }

  /** Failures that leave the job store wrong: a stored create that does not get to its registration or whose
      registration raises, a delete whose commit is refused after the job went, and an update whose
      compensation matters and fails after a refused commit, or works after one that took effect. */
  predicate LosesRepair(lib: Library, w: World, s: Step) {
    match s
    case Create(id, p, f) =>
      !f.commit.Refused? && Scheduled(NewRow(p))
      && (f.commit.AnswerLost? || f.refresh || f.scheduler || JobFor(lib, id, NewRow(p)).None?)
    case Update(id, p, f) =>
      && id in w.rows
      && var r := w.rows[id];
      && MergeAccepted(lib, r, p)
      && var r' := Merged(r, p);
      && SchedulerCalled(lib, id, r, r', f) && RestoreMatters(lib, id, r, r')
      && ((f.commit.Refused? && f.restore) || (f.commit.AnswerLost? && !f.restore))
    case Delete(id, f) => !f.scheduler && f.commit.Refused? && id in w.rows && Scheduled(w.rows[id])
    case Restart => false
  }

  /** Configurations that Python calls equal give the same job, so skipping the re-registration of an
      unchanged schedule is safe (`{"seconds": 1}` and `{"seconds": true}` are equal and different). */
  lemma EqualConfigsSameJob(lib: Library, id: int, r: Routine, r': Routine)
    requires !r.scheduleType.Manual? && r.scheduleType == r'.scheduleType
    requires ValidSchedule(lib, r.scheduleType, r.scheduleConfig)
    requires ValidSchedule(lib, r'.scheduleType, r'.scheduleConfig)
    requires PyEqConfig(r'.scheduleConfig, r.scheduleConfig)
    ensures JobFor(lib, id, r) == JobFor(lib, id, r')
  {
  }

  // ---------------------------------------------------------------------------
  // Rows stay valid, whatever fails
  // ---------------------------------------------------------------------------

  ghost predicate RowsValid(lib: Library, rows: map<int, Routine>) {
    forall id | id in rows :: ValidSchedule(lib, rows[id].scheduleType, rows[id].scheduleConfig)
  }

  /** An update that names a type and passed the DTO validator is never refused by the merge: the pair
      the service validates and writes is the pair the DTO validated (with no configuration for
      manual). */
  lemma TypedUpdatePassesMerge(lib: Library, r: Routine, p: RoutineUpdate)
    requires AcceptedUpdate(lib, p) && p.scheduleType.Given?
    ensures MergeAccepted(lib, r, p)
    ensures Merged(r, p).scheduleType == p.scheduleType.value
    ensures Merged(r, p).scheduleConfig == AsOption(p.scheduleConfig)
  {
  }

  /** A client may send back the schedule it was shown: the payload is accepted and changes nothing, and no
      scheduler call is made, so not even a failing scheduler stops it. */
  lemma OwnScheduleChangesNothing(lib: Library, id: int, r: Routine, f: Faults)
    requires ValidSchedule(lib, r.scheduleType, r.scheduleConfig)
    ensures var cfg := if r.scheduleConfig.Some? then Given(r.scheduleConfig.value) else Null;
            var p := RoutineUpdate(Given(r.scheduleType), cfg, Absent);
            && AcceptedUpdate(lib, p) && MergeAccepted(lib, r, p) && Merged(r, p) == r
            && !SchedulerCalled(lib, id, r, r, f)
            && (UpdateStored(lib, id, r, p, f) <==> !f.flush && !f.commit.Refused?)
  {
  }

  /** An update of the configuration alone is decided by the stored type. */
  lemma ConfigOnlyUpdateMerges(lib: Library, r: Routine, cfg: Field<JsonObject>, active: Field<bool>)
    requires !cfg.Absent?
    ensures MergeAccepted(lib, r, RoutineUpdate(Absent, cfg, active))
            <==> ValidSchedule(lib, r.scheduleType, AsOption(cfg))
  {
  }

  /** On a valid row registration raises exactly when the interval overflows. */
  lemma RegisterRaisesOnValidRow(lib: Library, id: int, r: Routine)
    requires ValidSchedule(lib, r.scheduleType, r.scheduleConfig) && !r.scheduleType.Manual?
    ensures JobFor(lib, id, r).None?
            <==> r.scheduleType.Interval? && IntOf(r.scheduleConfig.value["seconds"]) > lib.intervalLimit
  {
  }

  /** The step is a request about routine `id`. */
  predicate Touches(s: Step, id: int) {
    !s.Restart? && s.id == id
  }

  /** A row that cannot be registered stops every start-up until it is updated or deleted. */
  lemma {:induction false} UnregistrableRowStopsStartup(lib: Library, w: World, steps: seq<Step>, w': World, id: int)
    requires id in w.rows && Scheduled(w.rows[id]) && JobFor(lib, id, w.rows[id]).None?
    requires Reaches(lib, w, steps, w') && forall s | s in steps :: !Touches(s, id)
    ensures !Bootable(lib, w'.rows) && Restart !in steps
    decreases |steps|
  {
    if steps != [] {
      assert steps[0] in steps && forall s | s in steps[1..] :: s in steps;
      UnregistrableRowStopsStartup(lib, After(lib, w, steps[0]), steps[1..], w', id);
      assert steps == [steps[0]] + steps[1..];
    }
  }

  /** The validators know no upper bound: there is a create request they accept whose row is committed and
      never gets its job, with no call failing; no start-up boots until that row is touched again. */
  lemma OverflowingIntervalIsStored(lib: Library, w: World, id: int) returns (p: RoutineCreate)
    requires id !in w.rows
    ensures ValidSchedule(lib, p.scheduleType, p.scheduleConfig) && Scheduled(NewRow(p))
    ensures AfterCreate(lib, w, id, p, NO_FAULTS) == World(w.rows[id := NewRow(p)], w.jobs)
    ensures forall steps, w' |
              Reaches(lib, AfterCreate(lib, w, id, p, NO_FAULTS), steps, w') && (forall s | s in steps :: !Touches(s, id)) ::
              !Bootable(lib, w'.rows)
  {
    p := RoutineCreate(Interval, Some(map["seconds" := JInt(lib.intervalLimit + 1)]), true);
    var stored := AfterCreate(lib, w, id, p, NO_FAULTS);
    forall steps, w' | Reaches(lib, stored, steps, w') && (forall s | s in steps :: !Touches(s, id))
      ensures !Bootable(lib, w'.rows)
    {
      UnregistrableRowStopsStartup(lib, stored, steps, w', id);
    }
  }

  lemma {:induction false} RowsAlwaysValid(lib: Library, w: World, steps: seq<Step>, w': World)
    requires RowsValid(lib, w.rows) && Reaches(lib, w, steps, w')
    ensures RowsValid(lib, w'.rows)
    decreases |steps|
  {
    if steps != [] {
      RowsAlwaysValid(lib, After(lib, w, steps[0]), steps[1..], w');
    }
  }

  // ---------------------------------------------------------------------------
  // Jobs against rows
  // ---------------------------------------------------------------------------

  /** Under every pattern of failures no job outlives its row. */
  lemma {:induction false} NoJobOfDeletedRoutine(lib: Library, w: World, steps: seq<Step>, w': World)
    requires w.jobs.Keys <= w.rows.Keys && Reaches(lib, w, steps, w')
    ensures w'.jobs.Keys <= w'.rows.Keys
    decreases |steps|
  {
    if steps != [] {
      NoJobOfDeletedRoutine(lib, After(lib, w, steps[0]), steps[1..], w');
    }
  }

  /** An update touches its own row and job only. */
  lemma UpdateIsLocal(lib: Library, w: World, id: int, p: RoutineUpdate, f: Faults)
    requires id in w.rows
    ensures var w' := AfterUpdate(lib, w, id, p, f);
            && w'.rows.Keys == w.rows.Keys
            && (forall x | x in w.rows && x != id :: w'.rows[x] == w.rows[x])
            && (forall x | x != id :: (x in w'.jobs <==> x in w.jobs) && (x in w.jobs ==> w'.jobs[x] == w.jobs[x]))
  {
  }

  /** Coverage at one routine. */
  ghost predicate CoveredAt(lib: Library, w: World, id: int) {
    && (id in w.jobs ==> id in w.rows && w.rows[id].isActive)
    && (id in w.rows && Scheduled(w.rows[id]) ==> id in w.jobs && JobFor(lib, id, w.rows[id]) == Some(w.jobs[id]))
  }

  lemma UpdateKeepsCoveredAt(lib: Library, w: World, s: Step)
    requires RowsValid(lib, w.rows) && s.Update? && s.id in w.rows && CoveredAt(lib, w, s.id)
    requires !LosesRepair(lib, w, s)
    ensures CoveredAt(lib, AfterUpdate(lib, w, s.id, s.update, s.faults), s.id)
  {
    var r := w.rows[s.id];
    if MergeAccepted(lib, r, s.update) {
      var r' := Merged(r, s.update);
      if !r.scheduleType.Manual? && r.scheduleType == r'.scheduleType && PyEqConfig(r'.scheduleConfig, r.scheduleConfig) {
        EqualConfigsSameJob(lib, s.id, r, r');
      }
    }
  }

  /** One update keeps coverage, including when its flush, registration or commit fails. */
  lemma UpdateKeepsCovered(lib: Library, w: World, s: Step)
    requires RowsValid(lib, w.rows) && Covered(lib, w) && s.Update? && Enabled(lib, w, s)
    requires !LosesRepair(lib, w, s)
    ensures Covered(lib, After(lib, w, s))
  {
    var w' := After(lib, w, s);
    UpdateIsLocal(lib, w, s.id, s.update, s.faults);
    assert CoveredAt(lib, w, s.id);
    UpdateKeepsCoveredAt(lib, w, s);
    forall x | x != s.id ensures CoveredAt(lib, w', x) {
      assert x in w.rows <==> x in w'.rows;
      assert CoveredAt(lib, w, x);
    }
    assert forall x :: CoveredAt(lib, w', x);
  }

  /** In particular when a single call fails: whatever update it is and whichever call of it is refused, every
      active scheduled row keeps the job it asks for as long as the compensation works. */
  lemma RefusedCallKeepsCovered(lib: Library, w: World, id: int, p: RoutineUpdate, f: Faults)
    requires RowsValid(lib, w.rows) && Covered(lib, w) && id in w.rows && AcceptedUpdate(lib, p)
    requires !f.restore && !f.commit.AnswerLost?
    ensures Covered(lib, AfterUpdate(lib, w, id, p, f))
  {
    UpdateKeepsCovered(lib, w, Update(id, p, f));
  }

  /** `bad` holds of no step of the run. */
  ghost predicate Avoids(lib: Library, w: World, steps: seq<Step>, bad: (World, Step) -> bool)
    decreases |steps|
  {
    steps == []
    || (Enabled(lib, w, steps[0]) && !bad(w, steps[0]) && Avoids(lib, After(lib, w, steps[0]), steps[1..], bad))
  }

  /** Every run without a failure that leaves the job store wrong: each active scheduled row has the job it
      asks for, and no inactive row has one. */
  lemma {:induction false} AlwaysCovered(lib: Library, w: World, steps: seq<Step>, w': World)
    requires RowsValid(lib, w.rows) && Covered(lib, w) && Reaches(lib, w, steps, w')
    requires Avoids(lib, w, steps, (v, s) => LosesRepair(lib, v, s))
    ensures Covered(lib, w')
    decreases |steps|
  {
    if steps != [] {
      if steps[0].Update? {
        UpdateKeepsCovered(lib, w, steps[0]);
      }
      AlwaysCovered(lib, After(lib, w, steps[0]), steps[1..], w');
    }
  }

  /** Agreement at one routine. */
  ghost predicate ExactAt(lib: Library, w: World, id: int) {
    && (id in w.jobs <==> id in w.rows && Scheduled(w.rows[id]))
    && (id in w.jobs ==> JobFor(lib, id, w.rows[id]) == Some(w.jobs[id]))
  }

  lemma UpdateKeepsExactAt(lib: Library, w: World, s: Step)
    requires RowsValid(lib, w.rows) && s.Update? && s.id in w.rows && ExactAt(lib, w, s.id)
    ensures ExactAt(lib, AfterUpdate(lib, w, s.id, s.update, s.faults), s.id)
            <==> !LeavesStaleJob(lib, w, s) && !LosesRepair(lib, w, s)
  {
    var r := w.rows[s.id];
    if MergeAccepted(lib, r, s.update) {
      var r' := Merged(r, s.update);
      if !r.scheduleType.Manual? && r.scheduleType == r'.scheduleType && PyEqConfig(r'.scheduleConfig, r.scheduleConfig) {
        EqualConfigsSameJob(lib, s.id, r, r');
      }
    }
  }

  /** A change that is local to `id` keeps agreement exactly if it does so there. */
  lemma ExactIsLocal(lib: Library, w: World, w': World, id: int)
    requires Exact(lib, w) && w'.rows.Keys == w.rows.Keys
    requires forall x | x in w.rows && x != id :: w'.rows[x] == w.rows[x]
    requires forall x | x != id :: (x in w'.jobs <==> x in w.jobs) && (x in w.jobs ==> w'.jobs[x] == w.jobs[x])
    ensures Exact(lib, w') <==> ExactAt(lib, w', id)
  {
    forall x | x != id ensures ExactAt(lib, w', x) {
      assert x in w.rows <==> x in w'.rows;
      assert ExactAt(lib, w, x);
    }
    if ExactAt(lib, w', id) {
      forall x
        ensures x in w'.jobs <==> x in w'.rows && Scheduled(w'.rows[x])
        ensures x in w'.jobs ==> JobFor(lib, x, w'.rows[x]) == Some(w'.jobs[x])
      {
        assert ExactAt(lib, w', x);
      }
    }
  }

  lemma UpdateKeepsExact(lib: Library, w: World, s: Step)
    requires RowsValid(lib, w.rows) && Exact(lib, w) && s.Update? && Enabled(lib, w, s)
    ensures Exact(lib, After(lib, w, s)) <==> !LeavesStaleJob(lib, w, s) && !LosesRepair(lib, w, s)
  {
    assert ExactAt(lib, w, s.id);
    UpdateKeepsExactAt(lib, w, s);
    UpdateIsLocal(lib, w, s.id, s.update, s.faults);
    ExactIsLocal(lib, w, After(lib, w, s), s.id);
  }

  /** From agreement, one step keeps agreement exactly when it is neither of the two transitions nor a
      failure that leaves the job store wrong. */
  lemma StepKeepsExact(lib: Library, w: World, s: Step)
    requires RowsValid(lib, w.rows) && Exact(lib, w) && Enabled(lib, w, s)
    ensures Exact(lib, After(lib, w, s)) <==> !LeavesStaleJob(lib, w, s) && !LosesRepair(lib, w, s)
  {
    if s.Update? {
      UpdateKeepsExact(lib, w, s);
    }
  }

  /** Row and job agree, in terms of what the rows say: exactly the active scheduled rows have a job, which
      runs the row's routine at the row's crontab, or with the row's positive number of seconds. */
  ghost predicate Agree(lib: Library, w: World) {
    && (forall id :: id in w.jobs <==> id in w.rows && w.rows[id].isActive && !w.rows[id].scheduleType.Manual?)
    && forall id | id in w.jobs ::
         && Matches(id, w.rows[id], w.jobs[id])
         && (w.jobs[id].trigger.CronTrigger? ==> lib.validCrontab(w.jobs[id].trigger.expr))
         && (w.jobs[id].trigger.IntervalTrigger? ==> 0 < w.jobs[id].trigger.seconds <= lib.intervalLimit)
  }

  lemma ExactIsAgreement(lib: Library, w: World)
    requires RowsValid(lib, w.rows)
    ensures Exact(lib, w) <==> Agree(lib, w)
  {
    forall id | id in w.jobs && id in w.rows && Scheduled(w.rows[id])
      ensures JobFor(lib, id, w.rows[id]) == Some(w.jobs[id]) <==>
              && Matches(id, w.rows[id], w.jobs[id])
              && (w.jobs[id].trigger.CronTrigger? ==> lib.validCrontab(w.jobs[id].trigger.expr))
              && (w.jobs[id].trigger.IntervalTrigger? ==> 0 < w.jobs[id].trigger.seconds <= lib.intervalLimit)
    {
      JobMatchesRow(lib, id, w.rows[id]);
    }
  }

  /** An update between schedules, or between a schedule and inactivity, keeps exact agreement, whichever call
      of it is refused, as long as the compensation works. */
  lemma RefusedCallKeepsExact(lib: Library, w: World, id: int, p: RoutineUpdate, f: Faults)
    requires RowsValid(lib, w.rows) && Exact(lib, w) && id in w.rows && AcceptedUpdate(lib, p)
    requires !f.restore && !f.commit.AnswerLost? && !w.rows[id].scheduleType.Manual?
    requires forall r' | Written(w.rows[id], p, r') :: !r'.scheduleType.Manual?
    ensures Exact(lib, AfterUpdate(lib, w, id, p, f))
  {
    if MergeAccepted(lib, w.rows[id], p) {
      assert Written(w.rows[id], p, Merged(w.rows[id], p));
    }
    UpdateKeepsExact(lib, w, Update(id, p, f));
  }

  lemma {:induction false} AlwaysExact(lib: Library, w: World, steps: seq<Step>, w': World)
    requires RowsValid(lib, w.rows) && Exact(lib, w) && Reaches(lib, w, steps, w')
    requires Avoids(lib, w, steps, (v, s) => LeavesStaleJob(lib, v, s) || LosesRepair(lib, v, s))
    ensures Exact(lib, w')
    decreases |steps|
  {
    if steps != [] {
      StepKeepsExact(lib, w, steps[0]);
      AlwaysExact(lib, After(lib, w, steps[0]), steps[1..], w');
    }
  }

  /** From an empty application on, over every run that avoids those steps, the jobs fire as the rows say. */
  lemma JobsFireAsRowsSay(lib: Library, steps: seq<Step>, w: World)
    requires Reaches(lib, World(map[], map[]), steps, w)
    requires Avoids(lib, World(map[], map[]), steps, (v, s) => LeavesStaleJob(lib, v, s) || LosesRepair(lib, v, s))
    ensures Agree(lib, w)
  {
    AlwaysExact(lib, World(map[], map[]), steps, w);
    RowsAlwaysValid(lib, World(map[], map[]), steps, w);
    ExactIsAgreement(lib, w);
  }

  /** The two transitions are the only source of extra jobs, in every covered state and not only from
      agreement: the job of routine `id` is extra at the end only if one of them happened to it. */
  lemma {:induction false} ExtraJobsHaveTwoSources(lib: Library, w: World, steps: seq<Step>, w': World, id: int)
    requires RowsValid(lib, w.rows) && Covered(lib, w) && Reaches(lib, w, steps, w')
    requires Avoids(lib, w, steps, (v, s) => LosesRepair(lib, v, s) || (s.Update? && s.id == id && LeavesStaleJob(lib, v, s)))
    requires id !in ExtraJobs(w)
    ensures id !in ExtraJobs(w')
    decreases |steps|
  {
    if steps != [] {
      if steps[0].Update? {
        UpdateKeepsCovered(lib, w, steps[0]);
      }
      ExtraJobsHaveTwoSources(lib, After(lib, w, steps[0]), steps[1..], w', id);
    }
  }

  /** The compensation undoes a failed update completely, except after registering an active manual
      routine. */
  lemma FailedUpdateIsUndone(lib: Library, w: World, s: Step)
    requires RowsValid(lib, w.rows) && Exact(lib, w) && s.Update? && Enabled(lib, w, s)
    requires !UpdateStored(lib, s.id, w.rows[s.id], s.update, s.faults) && !s.faults.restore
    ensures After(lib, w, s) == w <==> !LeavesStaleJob(lib, w, s)
  {
    UpdateKeepsExact(lib, w, s);
    var jobs := After(lib, w, s).jobs;
    if Exact(lib, After(lib, w, s)) {
      assert jobs == w.jobs by {
        assert forall id :: id in jobs <==> id in w.jobs;
      }
    }
  }

  /** A restart that boots repairs everything. */
  lemma RestartRepairs(lib: Library, w: World)
    requires Bootable(lib, w.rows)
    ensures Exact(lib, After(lib, w, Restart))
  {
  }

  /** Both transitions happen, with every row valid and stores that agree. */
  lemma StaleJobsHappen(lib: Library)
    requires lib.intervalLimit >= 60
    ensures exists w: World, s: Step :: RowsValid(lib, w.rows) && Exact(lib, w) && Enabled(lib, w, s)
                           && s.Update? && s.faults == NO_FAULTS && 1 in ExtraJobs(After(lib, w, s))
    ensures exists w: World, s: Step :: RowsValid(lib, w.rows) && Exact(lib, w) && Enabled(lib, w, s)
                           && s.Update? && s.faults == NO_FAULTS.(commit := Refused) && 1 in ExtraJobs(After(lib, w, s))
  {
    var everyMinute := Routine(Interval, Some(map["seconds" := JInt(60)]), true);
    var job := Job(IntervalTrigger(60), 1, Interval);
    var w := World(map[1 := everyMinute], map[1 := job]);
    var s := Update(1, RoutineUpdate(Given(Manual), Absent, Absent), NO_FAULTS);
    assert RowsValid(lib, w.rows) && Exact(lib, w) && Enabled(lib, w, s);
    assert 1 in ExtraJobs(After(lib, w, s));

    var v := World(map[1 := Routine(Manual, None, true)], map[]);
    var t := Update(1, RoutineUpdate(Given(Interval), Given(map["seconds" := JInt(60)]), Absent),
                    NO_FAULTS.(commit := Refused));
    assert RowsValid(lib, v.rows) && Exact(lib, v) && Enabled(lib, v, t);
    assert 1 in ExtraJobs(After(lib, v, t));
  }

  /** Each kind of failure that leaves the job store wrong happens to a routine that runs every minute: a
      create whose refresh raises leaves the row without a job, a deactivation whose commit takes effect and
      raises leaves the job with an inactive row, a delete whose commit is refused takes the job of a row that
      stays. */
  lemma RepairsAreLost(lib: Library)
    requires lib.intervalLimit >= 60
    ensures exists p: RoutineCreate ::
              var w := AfterCreate(lib, World(map[], map[]), 1, p, NO_FAULTS.(refresh := true));
              ValidSchedule(lib, p.scheduleType, p.scheduleConfig) && 1 in w.rows && Scheduled(w.rows[1]) && 1 !in w.jobs
    ensures exists w: World, p: RoutineUpdate | Exact(lib, w) && 1 in w.rows && AcceptedUpdate(lib, p) ::
              var w' := AfterUpdate(lib, w, 1, p, NO_FAULTS.(commit := AnswerLost));
              !w'.rows[1].isActive && 1 in w'.jobs
    ensures exists w: World | Exact(lib, w) && 1 in w.rows ::
              var w' := AfterDelete(w, 1, NO_FAULTS.(commit := Refused));
              1 in w'.rows && Scheduled(w'.rows[1]) && 1 !in w'.jobs
  {
    var everyMinute := Some(map["seconds" := JInt(60)]);
    var p := RoutineCreate(Interval, everyMinute, true);
    assert ValidSchedule(lib, p.scheduleType, p.scheduleConfig) && Scheduled(NewRow(p));
    assert 1 !in AfterCreate(lib, World(map[], map[]), 1, p, NO_FAULTS.(refresh := true)).jobs;
    var w := World(map[1 := NewRow(p)], map[1 := Job(IntervalTrigger(60), 1, Interval)]);
    assert Exact(lib, w);
    var stop := RoutineUpdate(Absent, Absent, Given(false));
    assert AcceptedUpdate(lib, stop) && 1 in AfterUpdate(lib, w, 1, stop, NO_FAULTS.(commit := AnswerLost)).jobs;
    assert 1 !in AfterDelete(w, 1, NO_FAULTS.(commit := Refused)).jobs;
  }
}
