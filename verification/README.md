# Verified model of the home-automation backend

The backend runs *routines*: ordered lists of actions (sleep or echo), started by a schedule or by hand. Four
parts of it carry state whose correctness spans whole runs. This project models them in Dafny and proves what
they keep.

- **Routine rows against scheduler jobs** (`Scheduler.dfy`, `RoutineServices.dfy`, with the validators in
  `Schemas.dfy`). Rows live in the database, jobs in an in-memory scheduler, and no transaction covers both.
  The model has every failure of a handler (flush, scheduler call, commit, compensation) as a parameter.
- **The position table** (`Actions.dfy`). Actions are ordered by an integer column; create, swap, bulk reorder
  and delete refine operations on a plain sequence. A session has a staged copy of the table, and the deferred
  unique constraint is checked at commit.
- **The staged editor** (`RoutineForm.dfy`). The front end collects adds, removes and drags locally and
  reconciles its list with the server in one save.
- **The execution queue and the executor** (`ExecutionQueue.dfy`, `Executor.dfy`). Any number of workers claim
  queued rows, crash, restart and lose answers; a run writes its log best effort.
- **One-time tokens over Redis** (`Redis.dfy`, `GoogleOAuth.dfy`, `Sessions.dfy`). OAuth state and PKCE
  verifier, refresh-token rotation, and revocation of access tokens, under every interleaving of single Redis
  commands, each of which may fail before or after it took effect.

`EndToEnd.dfy` joins the editor, the table and the executor. `Domain.dfy` holds JSON values with Python's notion of
equality and of `isinstance(v, int)`, and the library functions whose code is not part of the repository; nothing
is assumed about the answers of the latter.

The handlers are methods on objects with the state the source changes. Each is proved against a specification
function over values (`RoutineServices.AfterUpdate`, `Actions.After`, `Executor.LogAt`, ...) or against the
steps of a state machine, and the theorems quantify over these functions and over all runs of these steps. Where
the source can be interrupted between two database or Redis commands, the state machine takes one step per
command; handlers that run without interruption are shown to be runs of these machines.

Run `dafny verify dfyconfig.toml`.

## Where the code differs from its own text

- The documentation of `get_active_executions` says the running item is always first. It is not when a row is
  committed that is scheduled before the row that is running or already selected to run. That happens with a
  back-dated request (`BackdatedRowOvertakesView`), and also without any: a request for an immediate run reads the
  clock before it commits, so of two such requests the first to read may be the last to commit
  (`ConcurrentRequestsOvertakeView`). With one worker such commits are the only cause: a step keeps the head of the
  queue right exactly when it is not one of them (`StepKeepsFront`), a whole run exactly when it has none of them
  (`FrontLeadsIff`), and in these runs, if no run is lost, the running row is the first of the view
  (`RunningRowIsLeast`). A row committed behind one that has finished does no harm to the view; it only breaks the
  order of the claims (`StepKeepsOrder`).
- A comment in `logout` says that logout always succeeds. The user dependency in its signature decodes the token
  first, so an expired or revoked token, or Redis being down, ends the request with an error before anything is
  revoked, deleted or cleared (`Sessions.Logout`, `ExpiredCookieKeepsSession`).
- Rows and jobs do not agree plainly. Besides failures that leave the job store wrong (`LosesRepair`) there are two
  transitions that leave the job of an active manual routine behind; `StepKeepsExact` is the exact condition, and a
  restart repairs it (`RestartRepairs`).
- The validators know no upper bound for an interval, but `register_routine` raises when it overflows
  (`RegisterRaisesOnValidRow`); `create_routine` has committed the row by then, and the application does not start
  again until that row is updated or deleted (`OverflowingIntervalIsStored`).
- `create_routine` and `update_routine` may report a failure although the row is stored: when the refresh after the
  commit raises, or when the commit takes effect and its answer is lost. A created row then never gets its job. An
  update whose refresh raises stays in both stores; one whose commit was not answered is compensated, so that, for
  example, a deactivated routine keeps its job (`LosesRepair`, `RepairsAreLost`).
- A validated routine completes without store faults except when a sleep is beyond what `time.sleep` can
  represent (`StoredRoutineCompletes`, `OversizedSleepFails`).
- A token logged out passes again between the end of its revocation entry, rounded down to whole seconds, and
  its expiry (`AcceptedAgain`, `LoggedOutTokenPasses`).
- A logout does not end the login when another request is rotating its refresh token at that moment
  (`DropEndsLogin`, `RotationOutlivesLogout`).
- A run that loses its worker, or its last write, stays `running` for ever (`OrphanStaysRunning`).

## Model

| member | source | states |
|---|---|---|
| Scheduler.JobStore.RegisterRoutine | backend/scheduler.py:38-71 | raises exactly when the trigger cannot be built or the store fails; otherwise the job of a valid row runs that row's routine at its own crontab or number of seconds, and a manual routine changes nothing |
| Scheduler.JobStore.UnregisterRoutine | backend/scheduler.py:74-83 | the job is gone unless the store failed, other jobs stay |
| Scheduler.JobMatchesRow | backend/scheduler.py:44-71 | on a valid row the job that is registered is exactly the one whose trigger and arguments are those of the row; its interval is positive, its crontab valid |
| Scheduler.RegistrableIsValid | backend/schemas.py:34-59 | the validator refuses nothing that could be registered, but for intervals that are not positive |
| RoutineServices.RoutineService.CreateRoutine | backend/routine_services.py:106-128 | the stored row has the payload's schedule and active flag and an active scheduled row has its matching job; rows and jobs afterwards for every failure; without failures every valid request that does not overflow succeeds |
| RoutineServices.RoutineService.AssignFields | backend/routine_services.py:212-223 | the row that is written has every field the payload gives, `null` included, its own value where the payload gives none, and no configuration when made manual |
| RoutineServices.RoutineService.SyncScheduler | backend/routine_services.py:227-246 | which scheduler call an update makes, what it does to the jobs and when it raises |
| RoutineServices.RoutineService.RestorePreviousSchedulerState | backend/routine_services.py:205-209 | the jobs after the compensation, its own failure swallowed |
| RoutineServices.RoutineService.UpdateRoutine | backend/routine_services.py:158-263 | a success stores exactly the fields the payload gives and a valid pair, a refusal changes no row, and without failures every update that makes a valid row without overflow succeeds; both stores under every failure of flush, scheduler, commit, compensation and refresh |
| RoutineServices.RoutineService.DeleteRoutine | backend/routine_services.py:266-278 | a success removes the row and its job and nothing else; the job goes first, so a refused commit keeps the row without it |
| RoutineServices.Startup | backend/main.py:116-126 | the start-up loop boots exactly when every active scheduled row can be registered and no call of the scheduler fails, and then the jobs are exactly those the rows ask for |
| RoutineServices.EqualConfigsSameJob | backend/routine_services.py:240-246 | configurations Python calls equal give the same job, so skipping the re-registration is safe |
| RoutineServices.TypedUpdatePassesMerge | backend/schemas.py:183-206 | an update naming a type that passed the DTO validator is never refused by the merge, and the pair written is the pair validated |
| RoutineServices.UpdateWrites | backend/routine_services.py:185-223 | an update that is stored writes the merged fields and a valid pair; without failures every such update is stored |
| RoutineServices.OwnScheduleChangesNothing | backend/routine_services.py:238-246 | sending back the stored schedule is accepted, changes nothing and makes no scheduler call, so not even a failing scheduler stops it |
| RoutineServices.ConfigOnlyUpdateMerges | backend/routine_services.py:189-201 | an update of the configuration alone is accepted exactly when it fits the stored type |
| RoutineServices.RegisterRaisesOnValidRow | backend/scheduler.py:44-61 | on a stored row registration raises exactly when its interval overflows |
| RoutineServices.OverflowingIntervalIsStored | backend/schemas.py:50-59 | whatever the limit is, a request the validators accept stores a row without its job although no call fails, and no start-up boots over any run until that row is touched |
| RoutineServices.UnregistrableRowStopsStartup | backend/main.py:116-126 | over every run, a row that cannot be registered stops every start-up until it is updated or deleted |
| RoutineServices.RowsAlwaysValid | backend/routine_services.py:185-221 | every stored row satisfies the schedule validator after any run of creates, updates, deletes and restarts with any failures |
| RoutineServices.NoJobOfDeletedRoutine | backend/routine_services.py:276-278 | no job outlives its row, in any run with any failures |
| RoutineServices.UpdateKeepsCovered | backend/routine_services.py:225-259 | an update that fails anywhere and is compensated leaves every active scheduled row with its job |
| RoutineServices.RefusedCallKeepsCovered | backend/routine_services.py:225-259 | whichever call of an update is refused, active scheduled rows keep their jobs as long as the compensation works |
| RoutineServices.AlwaysCovered | backend/routine_services.py:158-263 | in every run without a failure that leaves the job store wrong each active scheduled row has the job it asks for and no inactive row has one |
| RoutineServices.UpdateKeepsExactAt | backend/routine_services.py:203-259 | at its own routine an update keeps row and job in agreement if and only if it is neither of the two stale transitions nor a failure that leaves the job store wrong |
| RoutineServices.StepKeepsExact | backend/routine_services.py:106-278 | for every handler and restart: agreement of all rows and jobs is kept if and only if the step is neither of the two stale transitions nor a failure that leaves the job store wrong |
| RoutineServices.AlwaysExact | backend/routine_services.py:203-259 | jobs equal exactly the active scheduled rows on every run that avoids those steps |
| RoutineServices.ExactIsAgreement | backend/scheduler.py:44-71 | agreement of rows and jobs means: exactly the active scheduled rows have a job, with the row's own trigger and arguments |
| RoutineServices.JobsFireAsRowsSay | backend/routine_services.py:203-259 | from an empty application on, over every run that avoids those steps, the jobs have the triggers and arguments of the rows |
| RoutineServices.RefusedCallKeepsExact | backend/routine_services.py:225-259 | an update that stays away from manual schedules keeps exact agreement whichever call of it is refused, as long as the compensation works |
| RoutineServices.ExtraJobsHaveTwoSources | backend/routine_services.py:229-259 | a job nobody asks for appears only through one of the two transitions, from any covered state |
| RoutineServices.FailedUpdateIsUndone | backend/routine_services.py:249-259 | after an update that is not stored the compensation restores both stores completely if and only if the update did not register an active manual routine |
| RoutineServices.RestartRepairs | backend/main.py:111-128 | a restart that boots makes rows and jobs agree from any state |
| RoutineServices.StaleJobsHappen | backend/routine_services.py:238-246 | both stale transitions occur on valid rows with stores that agree |
| RoutineServices.RepairsAreLost | backend/routine_services.py:123-278 | each kind of such a failure on a concrete routine: a raising refresh, a commit that takes effect unanswered, a refused delete |
| Actions.WellOrderedIsUnique | alembic/versions/ce0b38a4532b_make_actions_position_constraint_.py:21-30 | positions 1..n per routine satisfy the unique constraint checked at commit |
| Actions.InsertRefines | backend/routine_services.py:326-344 | shifting the tail and writing the row inserts its id at the requested place of the sequence, other routines keep theirs |
| Actions.DeleteRefines | backend/routine_services.py:451-459 | deleting and compacting removes exactly that place of the sequence |
| Actions.SwapRefines | backend/routine_services.py:368-382 | the two position writes exchange the two places of the sequence |
| Actions.PermutationTest | backend/routine_services.py:427-431 | set equality with equal length is the permutation test |
| Actions.ReorderRefines | backend/routine_services.py:433-438 | after an accepted reorder the sequence of the routine is the submitted list |
| Actions.ReorderAccepted | backend/routine_services.py:424-435 | a list is accepted exactly when it is a permutation of the routine's ids, and each id gets its one-based index |
| Actions.EditRefines | backend/routine_services.py:305-460 | the commuting square: every accepted request does to the table what the sequence operation does to the list of its routine, and nothing to other lists |
| Actions.EditTouchesOneRoutine | backend/routine_services.py:305-460 | rows of other routines are not written, and other rows of the routine keep type and configuration |
| Actions.CreateWrites | backend/routine_services.py:321-347 | accepted exactly for valid content and a place in 1..n+1; the new row has its content and place, the rows from there on move up by one |
| Actions.ChangeWrites | backend/routine_services.py:368-396 | the updated row has the payload's type and configuration where given and its own where not; it moves only if a position was given, and then its partner takes its place |
| Actions.ChangeAccepted | backend/routine_services.py:368-398 | accepted exactly when another action is at the position, if one is given, and the merged content is valid |
| Actions.DeleteWrites | backend/routine_services.py:451-460 | the row is gone, the rows behind it move down by one, nothing else changes |
| Actions.EditKeepsConfigs | backend/routine_services.py:384-398 | stored configurations stay valid for the stored type, also when only one of the two is updated |
| Actions.HistoryKeepsTable | backend/routine_services.py:305-460 | over every history positions stay a bijection with 1..n, the constraint holds and configurations stay valid |
| Actions.SwapAccepted | backend/routine_services.py:368-378 | a position change is accepted exactly when a different action of the routine holds the position, and swaps with that one |
| Actions.SwapNeedsDeferredConstraint | alembic/versions/ce0b38a4532b_make_actions_position_constraint_.py:21-30 | between the two writes of any swap the constraint is broken, after both it holds |
| Actions.SelectOrdered | backend/routine_services.py:296-302 | the ordered query returns the sequence the table stands for |
| Actions.SelectMaxPosition | backend/routine_services.py:321-324 | the maximum position is the length of the sequence |
| Actions.ActionStore.Commit | alembic/versions/ce0b38a4532b_make_actions_position_constraint_.py:21-30 | a commit succeeds when nothing fails and the staged positions are unique, else the committed rows stay |
| Actions.ActionStore.ListActions | backend/routine_services.py:286-302 | the ids of the routine in position order |
| Actions.ActionStore.CreateAction | backend/routine_services.py:305-347 | succeeds exactly for valid content, a place in 1..n+1 or none, and no failure; the row then has that content and place, and nothing changes otherwise |
| Actions.ActionStore.UpdateAction | backend/routine_services.py:350-400 | succeeds exactly when a partner is there, the merged content is valid and nothing fails; the row then has the content and position asked for; otherwise nothing changes, also when the swap was flushed already |
| Actions.ActionStore.SwapPositions | backend/routine_services.py:369-382 | the staged rows after the swap, or a refusal |
| Actions.ActionStore.ReorderActions | backend/routine_services.py:403-438 | succeeds exactly for permutations, and then the routine has the submitted order |
| Actions.ActionStore.AssignPositions | backend/routine_services.py:433-435 | the loop gives every id its one-based index |
| Actions.ActionStore.DeleteAction | backend/routine_services.py:441-460 | removes the row and moves the rows behind it down by one, or changes nothing |
| RoutineForm.InitialForm | frontend/src/features/routines/useRoutineFormPage.ts:102-110 | the form starts with every listed id shown once and the contents of the rows |
| RoutineForm.EditKeepsForm | frontend/src/features/routines/useRoutineFormPage.ts:172-210 | an add, a remove or any drag keeps: every loaded id shown once or removed once, new keys used once, contents unchanged |
| RoutineForm.HistoryKeepsForm | frontend/src/features/routines/useRoutineFormPage.ts:172-215 | the same over every history of edits |
| RoutineForm.FilteredParts | frontend/src/features/routines/useRoutineFormPage.ts:180 | filtering by key drops that id and no other |
| RoutineForm.NewKeysDiffer | frontend/src/features/routines/useRoutineFormPage.ts:258-265 | two shown actions never share a new key, so the key-to-id map of a save is well defined |
| RoutineForm.FormKeysDiffer | frontend/src/features/routines/useRoutineFormPage.ts:176-181 | in every loaded and edited form all keys differ, so filtering by a key takes out one place |
| RoutineForm.FilterTakesOne | frontend/src/features/routines/useRoutineFormPage.ts:180 | where keys differ, filtering by the key of an action takes out exactly its place |
| RoutineForm.FormPage.Load | frontend/src/features/routines/useRoutineFormPage.ts:77-113 | the form shows the server's list in position order, entry by entry, and nothing removed |
| RoutineForm.FormPage.ReorderActions | frontend/src/features/routines/useRoutineFormPage.ts:172-174 | the list is the emitted one, entry by entry, with positions 1..n |
| RoutineForm.FormPage.RemoveAction | frontend/src/features/routines/useRoutineFormPage.ts:176-181 | exactly that place of the list is taken out, and a server id is noted for deletion |
| RoutineForm.FormPage.AddAction | frontend/src/features/routines/useRoutineFormPage.ts:183-215 | adds exactly when the checks pass, with a new key at the end of the list |
| RoutineForm.FormPage.DeleteRemoved | frontend/src/features/routines/useRoutineFormPage.ts:256 | in whatever order the deletes run each finds its row; if none fails the server lists exactly the shown ids |
| RoutineForm.FormPage.CreateNew | frontend/src/features/routines/useRoutineFormPage.ts:258-265 | after the creates every shown action has its row and the server lists exactly these rows |
| RoutineForm.FormPage.Save | frontend/src/features/routines/useRoutineFormPage.ts:236-273 | after any history of edits a successful save leaves the server's list equal to the shown list, entry by entry; the reorder is never rejected, every failure has its cause outside, other routines are untouched |
| RoutineForm.DraggedListIsSaved | frontend/src/features/routines/useRoutineFormPage.ts:172-273 | after any history that ends with a drag the saved list is the one the drag emitted, entry by entry |
| RoutineForm.RemovedActionIsNotSaved | frontend/src/features/routines/useRoutineFormPage.ts:176-273 | after any history that ends with a remove the saved list is the one before it without that place |
| RoutineForm.FormPage.SaveActionsOfNewRoutine | frontend/src/features/routines/useRoutineFormPage.ts:284-294 | after any history of edits of an empty form the creates alone put the shown list on the server in its order, the final reorder changes nothing, other routines are untouched |
| RoutineForm.ReorderToCurrentOrder | frontend/src/features/routines/useRoutineFormPage.ts:293 | reordering a routine to the order it has is the identity |
| Executor.FirstRaise | backend/execution_engine.py:67-94 | the first action whose branch raises |
| Executor.LoadActions | backend/execution_engine.py:119-128 | the rows of the routine in position order |
| Executor.RoutineExecutor.UpdateActionExecutionStatus | backend/execution_engine.py:166-200 | one best-effort status write, skipped without a row id |
| Executor.RoutineExecutor.UpdateExecutionStatus | backend/execution_engine.py:202-229 | one unconditional best-effort terminal write |
| Executor.RoutineExecutor.RunActions | backend/execution_engine.py:67-99 | actions are performed in order up to the first that raises, whose row id is kept for the handler; every state of the log on the way is the one of its moment |
| Executor.RoutineExecutor.RunLoaded | backend/execution_engine.py:63-117 | the sequence of all states the log goes through, each of them truthful |
| Executor.RoutineExecutor.Perform | backend/execution_engine.py:73-94 | raises exactly when the action lacks what it needs (a message; whole seconds, or a text of them, in range), otherwise the effect happens |
| Executor.RoutineExecutor.RecordFailure | backend/execution_engine.py:107-117 | the failed mark and the failed outcome of an action that raised |
| Executor.RoutineExecutor.Run | backend/execution_engine.py:42-128 | `run` always returns; exactly the actions before the first that cannot be performed happen, none if they cannot be loaded; if the terminal write takes effect it says completed exactly when all were loaded and performed, else failed |
| Executor.NeverOverstates | backend/execution_engine.py:60-117 | every state the log of a run goes through, so also the one a dying worker leaves, whatever writes are lost: completed means performed, failed means that action raised, and the outcome matches |
| Executor.FinalLogEndsRight | backend/execution_engine.py:60-117 | the same about the log a run leaves, for every pattern of lost writes |
| Executor.RunGoesStepByStep | backend/execution_engine.py:67-99 | without lost row writes every row goes from pending over running to completed or failed, and an action happens while its row reads running |
| Executor.RowsTellLastWrite | backend/execution_engine.py:166-200 | in the end each row tells the last of its writes that took effect |
| Executor.RowsWithoutIds | backend/execution_engine.py:130-164 | rows that could not be written do not exist, rows whose ids were lost stay pending |
| Executor.FaultFreeShape | backend/execution_engine.py:62-99 | without lost writes every state of the log reads completed..., at most one running or failed, pending..., and the completed rows are the performed actions but for one not yet marked |
| Executor.FaultFreeEnd | backend/execution_engine.py:62-117 | at the end all rows are completed, or the first raising action is the only failed one |
| Executor.ValidatedRaises | backend/schemas.py:62-74 | a configuration the validator accepts raises only on a sleep beyond the limit |
| Executor.ValidatorMatchesExecutor | backend/schemas.py:72-74 | of the whole seconds up to the limit the validator takes exactly those the executor can sleep |
| Executor.StoredRoutineCompletes | backend/execution_engine.py:73-105 | any stored routine completes without lost writes if and only if its sleeps fit the limit |
| Executor.OversizedSleepFails | backend/schemas.py:72-74 | whatever the limit is, a table of valid configurations whose run fails without any lost write |
| ExecutionQueue.StepKeepsInv | backend/execution_engine.py:254-305 | every step of workers, requests, failures and crashes keeps the single-claim invariant |
| ExecutionQueue.HandedAtMostOnce | backend/execution_engine.py:269-302 | with any number of workers no id is handed out twice, no two workers execute the same id, nothing starts before its time |
| ExecutionQueue.StatusMovesForward | backend/execution_engine.py:202-222 | statuses move queued, running, terminal only, and a terminal row is left alone by every step |
| ExecutionQueue.TerminalForever | backend/execution_engine.py:220-221 | a terminal row is never written again over any run |
| ExecutionQueue.QueuedRowsSurvive | backend/execution_engine.py:239-240 | only a committed claim or a delete takes a row out of the queue |
| ExecutionQueue.OrphanStaysRunning | backend/execution_engine.py:223-229 | a running row without its worker is never resumed and never finished |
| ExecutionQueue.ClaimsConserve | backend/execution_engine.py:279-302 | without new rows and deletes claimed and queued ids are together exactly the old queue, each once |
| ExecutionQueue.ClaimsAreBounded | backend/execution_engine.py:279-302 | in every run without new rows there are exactly as many claims as rows that left the queue, so claiming ends |
| ExecutionQueue.ReadyRowCanBeClaimed | backend/execution_engine.py:281-302 | an idle worker can claim whenever an unlocked row is ready |
| ExecutionQueue.SelectionSkipsOnlyLockedRows | backend/execution_engine.py:282-291 | every earlier row is claimed already or locked by another worker when a row is selected |
| ExecutionQueue.NoInversion | backend/execution_engine.py:279-297 | one worker, after any run: what was enqueued before `b` was selected and is scheduled strictly earlier was claimed before `b` |
| ExecutionQueue.StepKeepsOrder | backend/execution_engine.py:279-297 | one worker, from the empty table or any backlog: a step keeps claims in schedule order and leading the queue if and only if it does not commit a row scheduled before a claimed or selected one |
| ExecutionQueue.ClaimsFollowSchedule | backend/execution_engine.py:282-291 | over every run of one worker without such a commit, whatever fails, the claims are sorted by scheduled time |
| ExecutionQueue.InTimeOvertakesNothing | backend/execution_engine.py:332-341 | a row committed no later than its scheduled time is never such a commit |
| ExecutionQueue.StepKeepsFront | backend/routine_services.py:498-522 | one worker: a step keeps every queued row behind what is running or selected if and only if it does not commit a row scheduled before that |
| ExecutionQueue.FrontLeadsIff | backend/routine_services.py:498-522 | over whole runs of one worker, whatever fails: that holds in every state if and only if no step of the run is such a commit |
| ExecutionQueue.InTimeDoesNotCutIn | backend/execution_engine.py:332-341 | a row committed no later than its scheduled time is never such a commit |
| ExecutionQueue.CutInOvertakes | backend/execution_engine.py:282-291 | what cuts in overtakes, so the head of the view is right at least wherever claims stay in order |
| ExecutionQueue.RunningComesFirst | backend/routine_services.py:498-522 | in such runs the active view shows no queued row scheduled before a running one |
| ExecutionQueue.NoOrphansAlways | backend/execution_engine.py:202-229 | with any number of workers and no lost run every running row is in the hands of a worker |
| ExecutionQueue.RunningRowIsLeast | backend/routine_services.py:498-522 | one worker, no lost run, and no row committed that is scheduled before the one running or selected at that moment: the running row is the only one and has the least scheduled time of the active view |
| ExecutionQueue.DrainFollowsView | backend/execution_engine.py:282-291 | one worker and no new requests, whatever fails: once the queue is empty the new claims are the queued ids of the start, each once, in the order of the active view |
| ExecutionQueue.ViewsAgree | backend/routine_services.py:509-522 | where scheduled times differ that order is unique, so the claims follow the view exactly |
| ExecutionQueue.InsertKeepsLead | backend/execution_engine.py:332-341 | a leading row keeps leading over a new row exactly when the time written is not before its own |
| ExecutionQueue.BackdatedRowOvertakesView | backend/routine_services.py:498-500 | a run from the empty table in which a back-dated request is shown above the running row, with one worker and no failure |
| ExecutionQueue.ConcurrentRequestsOvertakeView | backend/execution_engine.py:344-354 | the same with two requests that name no time: the one that read the clock first commits last |
| ExecutionQueue.QueueWorker.EnqueueRoutineRun | backend/execution_engine.py:308-354 | a run of choosing the time, waiting and committing or giving up; the row is due at the given time, or at the clock reading before the commit; a call that raises has left no row, or has left it unknown |
| ExecutionQueue.QueueWorker.ChooseTime | backend/execution_engine.py:337-337 | one ask step: the given time, else the clock |
| ExecutionQueue.QueueWorker.InsertRow | backend/execution_engine.py:339-340 | one insert step of a call under way |
| ExecutionQueue.QueueWorker.AbandonRow | backend/execution_engine.py:340-340 | a call whose commit is refused ends without a row |
| ExecutionQueue.QueueWorker.QueryNext | backend/execution_engine.py:282-294 | an unlocked ready row with the least scheduled time, or none exactly when none is ready |
| ExecutionQueue.QueueWorker.SelectNext | backend/execution_engine.py:278-294 | the clock is read, then the query runs later: the answer is the earliest row ready at the reading, held from then on |
| ExecutionQueue.QueueWorker.CommitClaim | backend/execution_engine.py:295-302 | one commit step, answered or not |
| ExecutionQueue.QueueWorker.ClaimNext | backend/execution_engine.py:269-305 | a run of the machine for every fault; without one it claims a ready row exactly when there is one, with a fault none is handed out; the claimed row is running since the second reading of the clock |
| ExecutionQueue.QueueWorker.FinishRun | backend/execution_engine.py:218-222 | one finish step |
| ExecutionQueue.QueueWorker.RunClaimed | backend/execution_engine.py:258-261 | the claimed row is completed exactly when the actions of its routine were loaded and all can be performed, failed otherwise, running if the terminal write was lost |
| ExecutionQueue.QueueWorker.PollOnce | backend/execution_engine.py:256-264 | a turn of the poll loop is a run of the state machine; the claimed row ends with what the run of its own routine came to, with its start and end, and no other row changes |
| ExecutionQueue.QueueWorker.PollUntilEmpty | backend/execution_engine.py:239-267 | without new rows and failing claims, and when no other worker holds a lock, as after a restart, the poll loop empties every backlog, whatever the runs do, and claims each row once; without other workers in the order of the active view |
| GoogleOAuth.GenerateState | backend/google_oauth.py:64-110 | state and verifier are stored together or not at all |
| GoogleOAuth.ValidateAndConsumeState | backend/google_oauth.py:113-149 | passes exactly for a live state, and consumes it |
| GoogleOAuth.ConsumePkceVerifier | backend/google_oauth.py:152-186 | returns the live verifier and consumes it |
| GoogleOAuth.CallbackToExchange | backend/user_routes.py:126-146 | with which verifier a callback reaches the exchange, and what Redis holds afterwards |
| GoogleOAuth.CallbackIsRun | backend/user_routes.py:126-146 | an uninterrupted callback is a run of the state machine and exchanges exactly when, and with what, `CallbackToExchange` returns |
| GoogleOAuth.InvAlways | backend/user_routes.py:137-146 | a state is in Redis or in the hands of one callback, over every interleaving |
| GoogleOAuth.ExchangedOnceInTime | backend/google_oauth.py:86-186 | at most one exchange per state, state and verifier consumed within the ten minutes, and the verifier is the one generated with the state |
| GoogleOAuth.LoginGetsItsVerifier | backend/google_oauth.py:86-186 | the first callback with the state of a login gets that login's verifier if and only if it comes within the ten minutes, whatever other logins and callbacks do in between |
| Redis.Client.Setex | backend/google_oauth.py:93-94 | an entry with its expiry, written unless the command was refused |
| Redis.Client.Getdel | backend/google_oauth.py:129 | the live value, deleted in the same step |
| Redis.Client.Exists | backend/security.py:168 | whether a live entry exists |
| Sessions.DecodeTokenSubject | backend/security.py:130-209 | lets a token in exactly when it has not expired, Redis answers and it is not revoked |
| Sessions.StoreRefreshToken | backend/user_routes.py:216-223 | the refresh token of a new login is stored with its email and full lifetime |
| Sessions.RefreshToken | backend/user_routes.py:294-351 | succeeds exactly for a live token, a readable user row and an answering Redis; then the new token is stored with the same email and a full lifetime; the old one is gone, no other key changes |
| Sessions.Logout | backend/user_routes.py:386-461 | ends normally exactly when there is no token or it decodes; then the token of the cookie is refused up to one second before its expiry and the refresh token is gone, each unless its command was refused; no other key changes |
| Sessions.RefreshIsRun | backend/user_routes.py:294-351 | an uninterrupted refresh is the run of exactly a redemption and, if it gets that far, a reissue: the old token is redeemed, the new one joins its family |
| Sessions.LogoutIsRun | backend/user_routes.py:407-446 | an uninterrupted logout is the run of exactly a revocation, if there is a cookie, and a deletion, if there is a refresh token |
| Sessions.InvAlways | backend/user_routes.py:297-446 | the invariant of rotation and revocation over every interleaving |
| Sessions.OneLiveTokenPerLogin | backend/user_routes.py:297-351 | at most one refresh token per login, stored or in rotation; none redeemed twice; the email never changes |
| Sessions.DropEndsLogin | backend/user_routes.py:434-446 | deleting a refresh token ends its login if and only if no other token of the login is stored and no request is rotating one |
| Sessions.LogoutEndsLogin | backend/user_routes.py:434-446 | after a logout whose deletion took effect no token of that login is stored again, over every run |
| Sessions.RotationOutlivesLogout | backend/user_routes.py:332-446 | a rotation under way survives any logout and stores the next token of the login |
| Sessions.RevocationStays | backend/user_routes.py:417-419 | a revocation entry is never removed by later requests |
| Sessions.LogoutIsFinal | backend/user_routes.py:407-419 | a token logged out a second before expiry is refused up to one second before expiry, whatever happens in between |
| Sessions.AcceptedAgain | backend/user_routes.py:417-419 | exactly when a logged-out token passes again |
| Sessions.LoggedOutTokenPasses | backend/user_routes.py:417-419 | a concrete token that passes again half a second before it expires |
| Sessions.ExpiredCookieKeepsSession | backend/security.py:213-234 | a logout with an expired cookie leaves a stored refresh token alive, whatever Redis answers |
| EndToEnd.SavedRoutineRunsAsShown | backend/execution_engine.py:119-128 | a routine saved through the editor runs the shown actions in the shown order and completes if and only if its sleeps fit |
| EndToEnd.SavedRoutineLogIsTruthful | backend/execution_engine.py:60-117 | no state of the log of a saved routine overstates what of the shown list was performed |

## Left out

- Routing, status codes, logging, metrics, rate limiting and settings: no state of their own.
- Google's endpoints, password hashing, JWT signing and the S256 challenge: a token is a record that cannot be forged; malformed tokens and headers do not occur.
- The user rows written by `google_callback`: the email of a known account is not updated there, and nothing here depends on it.
- Cron grammar, trigger timing and the firing of jobs: `run_routine` only enqueues, and the library's answers are parameters.
- Names, descriptions, search, pagination, the history queries and the uniqueness check of `create_routine_handler`: no invariant follows from them.
- Interleaving inside one database handler of the routine and action services: these handlers are atomic here, and a failed commit of the action services changes nothing.
- Why a delete of an action fails, for instance because an execution log refers to it: a parameter.
- A second save after a failed one: the form does not reset its removed ids, so only the first save is covered.
- Numbers beyond what JavaScript prints as integers, and a drag that overlaps another edit of the same list.
- The log inside the queue machine: a crash there leaves one of the states in the trace of the run
  (`Executor.NeverOverstates`), without saying which.
- Timestamps of log rows other than `started_at` of an execution.
- ExecutionQueue.ClaimsFollowSchedule: with several workers no order is claimed, because a skipped locked row may be claimed later.
