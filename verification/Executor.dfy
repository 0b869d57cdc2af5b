/** backend/execution_engine.py, `RoutineExecutor`: one run of a routine and the log it leaves. The log
    is written best effort: every write may fail and every failure is swallowed. */
module Executor {
  import opened Wrappers
  import opened Domain
  import opened Schemas
  import opened Actions

  datatype ActionStatus = Pending | Running | Completed | Failed

  datatype ExecutionStatus = Queued | ExecutionRunning | ExecutionCompleted | ExecutionFailed

  /** `time.sleep` refuses negative arguments and overflows above the library's limit. */
  predicate SleepRaises(lib: Library, seconds: int) {
    seconds < 0 || seconds > lib.sleepLimit
  }

  /** The branches of `run` for one action, lines 73 to 94: true when they raise. */
  predicate Raises(lib: Library, a: Action) {
    match a.actionType
    case Sleep =>
      var raw := Get(a.config, "seconds", JNull);
      if raw.JNull? || (raw.JStr? && lib.isBlank(raw.s)) then true
      else if !IsInt(raw) && !raw.JStr? then true
      else if raw.JStr? then lib.parseInt(raw.s).None? || SleepRaises(lib, lib.parseInt(raw.s).value)
      else SleepRaises(lib, IntOf(raw))
    case Echo => "message" !in a.config
  }

  /** What an action needs to be performed: an echo its message; a sleep a whole number of seconds, or a text
      that is one, within what `time.sleep` takes. */
  predicate CanPerform(lib: Library, a: Action) {
    match a.actionType
    case Echo => "message" in a.config
    case Sleep =>
      && "seconds" in a.config
      && var raw := a.config["seconds"];
      || (IsInt(raw) && 0 <= IntOf(raw) <= lib.sleepLimit)
      || (raw.JStr? && !lib.isBlank(raw.s) && lib.parseInt(raw.s).Some? && 0 <= lib.parseInt(raw.s).value <= lib.sleepLimit)
  }

  /** Index of the first action that raises, the number of actions if none does. */
  function FirstRaise(lib: Library, actions: seq<Action>): (r: nat)
    ensures r <= |actions|
    ensures forall i | 0 <= i < r :: !Raises(lib, actions[i])
    ensures r < |actions| ==> Raises(lib, actions[r])
  {
    if actions == [] || Raises(lib, actions[0]) then 0 else 1 + FirstRaise(lib, actions[1..])
  }

  // ---------------------------------------------------------------------------
  // A run, moment by moment
  // ---------------------------------------------------------------------------

  /** What became of creating the pending rows: written and their ids known, not written, or written but
      the ids lost because a refresh raised after the commit. */
  datatype Creation = Created | NotCreated | CreatedUnseen

  /** Which later writes take effect; the others fail and are swallowed. */
  datatype Writes = Writes(creation: Creation, running: nat -> bool, completed: nat -> bool, failed: bool, outcome: bool)

  /** The log rows of one execution, and what really happened: the indices of the performed actions. */
  datatype Log = Log(marks: seq<ActionStatus>, performed: seq<nat>, outcome: ExecutionStatus)

  /** A moment of a run over `n` actions that raises at `r`: `i` actions are behind, and the current one is
      untouched (phase 0), marked running (1), or performed, or marked failed if it raised (2); or the run is
      over. */
  datatype Moment = At(i: nat, phase: nat) | Over

  predicate Reached(n: nat, r: nat, m: Moment) {
    r <= n && (m.At? ==> m.i <= r && m.phase <= 2 && (m.i == n ==> m.phase == 0))
  }

  function Pendings(n: nat): (s: seq<ActionStatus>)
    ensures |s| == n && forall i | 0 <= i < n :: s[i] == Pending
  {
    seq(n, i => Pending)
  }

  /** The actions before `m`, in order. */
  function Upto(m: nat): (s: seq<nat>)
    ensures |s| == m && forall i | 0 <= i < m :: s[i] == i
  {
    if m == 0 then [] else Upto(m - 1) + [m - 1]
  }

  /** What row `j` reads when `i` actions are behind: the last of its writes that took effect. */
  function MarkAt(r: nat, w: Writes, i: nat, phase: nat, j: nat): ActionStatus {
    if w.creation.CreatedUnseen? then Pending
    else if j < i && w.completed(j) then Completed
    else if j == i == r && phase == 2 && w.failed then Failed
    else if (j < i || (j == i && phase >= 1)) && w.running(j) then Running
    else Pending
  }

  function MarksAt(n: nat, r: nat, w: Writes, i: nat, phase: nat): (s: seq<ActionStatus>)
    ensures |s| == if w.creation.NotCreated? then 0 else n
    ensures forall j | 0 <= j < |s| :: s[j] == MarkAt(r, w, i, phase, j)
  {
    seq(if w.creation.NotCreated? then 0 else n, j requires j >= 0 => MarkAt(r, w, i, phase, j))
  }

  /** The log at a moment of the run. A crash of the worker leaves the log of its moment. */
  function LogAt(n: nat, r: nat, w: Writes, m: Moment): Log
    requires Reached(n, r, m)
  {
    match m
    case At(i, phase) =>
      Log(MarksAt(n, r, w, i, phase), Upto(if phase == 2 && i < r then i + 1 else i), ExecutionRunning)
    case Over =>
      Log(MarksAt(n, r, w, r, if r < n then 2 else 0), Upto(r),
          if !w.outcome then ExecutionRunning else if r < n then ExecutionFailed else ExecutionCompleted)
  }

  lemma PerformedIsMoment(n: nat, r: nat, w: Writes, i: nat)
    requires i < n && i <= r <= n
    ensures i < r ==>
              var log := LogAt(n, r, w, At(i, 1));
              log.(performed := log.performed + [i]) == LogAt(n, r, w, At(i, 2))
  {
    if i < r {
      assert MarksAt(n, r, w, i, 1) == MarksAt(n, r, w, i, 2);
    }
  }

  /** The logs of a run up to the moment when `i` actions are behind, one after every write and every
      performed action. */
  ghost function TraceUpto(n: nat, r: nat, w: Writes, i: nat): seq<Log>
    requires i <= r <= n
  {
    if i == 0 then [LogAt(n, r, w, At(0, 0))]
    else
      TraceUpto(n, r, w, i - 1)
      + [LogAt(n, r, w, At(i - 1, 1))] + [LogAt(n, r, w, At(i - 1, 2))] + [LogAt(n, r, w, At(i, 0))]
  }

  /** The logs of a whole run, in order. A worker that dies leaves one of them behind. */
  ghost function Trace(lib: Library, actions: seq<Action>, w: Writes): seq<Log> {
    var n, r := |actions|, FirstRaise(lib, actions);
    TraceUpto(n, r, w, r)
    + (if r < n then [LogAt(n, r, w, At(r, 1))] else [])
    + (if r < n then [LogAt(n, r, w, At(r, 2)), LogAt(n, r, w, Over)] else [LogAt(n, r, w, Over)])
  }

  lemma {:induction false} TraceUptoMoments(n: nat, r: nat, w: Writes, i: nat, log: Log)
    requires i <= r <= n && log in TraceUpto(n, r, w, i)
    ensures exists m :: Reached(n, r, m) && log == LogAt(n, r, w, m)
  {
    if i == 0 || log !in TraceUpto(n, r, w, i - 1) {
      assert Reached(n, r, At(i, 0));
      if i > 0 {
        assert Reached(n, r, At(i - 1, 1)) && Reached(n, r, At(i - 1, 2));
      }
    } else {
      TraceUptoMoments(n, r, w, i - 1, log);
    }
  }

  /** Every log of a run is the log of a moment. */
  lemma TraceMoments(lib: Library, actions: seq<Action>, w: Writes, log: Log) returns (m: Moment)
    requires log in Trace(lib, actions, w)
    ensures Reached(|actions|, FirstRaise(lib, actions), m)
    ensures log == LogAt(|actions|, FirstRaise(lib, actions), w, m)
  {
    var n, r := |actions|, FirstRaise(lib, actions);
    if log == LogAt(n, r, w, Over) {
      m := Over;
    } else if r < n && log == LogAt(n, r, w, At(r, 1)) {
      m := At(r, 1);
    } else if r < n && log == LogAt(n, r, w, At(r, 2)) {
      m := At(r, 2);
    } else {
      TraceUptoMoments(n, r, w, r, log);
      m :| Reached(n, r, m) && log == LogAt(n, r, w, m);
    }
  }

  /** From one state of the log to the next the effects only grow, by the next action, whose row reads running
      then; and a row moves from pending to running to completed or failed, one step at a time. */
  ghost predicate OneStep(log: Log, log': Log) {
    && |log'.marks| == |log.marks|
    && (log'.performed == log.performed
        || (|log.performed| < |log.marks| && log.marks[|log.performed|] == Running
            && log'.performed == log.performed + [|log.performed|] && log'.marks == log.marks))
    && forall j | 0 <= j < |log.marks| ::
         || log'.marks[j] == log.marks[j]
         || (log.marks[j] == Pending && log'.marks[j] == Running)
         || (log.marks[j] == Running && (log'.marks[j] == Completed || log'.marks[j] == Failed))
  }

  ghost predicate StepByStep(trace: seq<Log>) {
    forall k | 0 < k < |trace| :: OneStep(trace[k - 1], trace[k])
  }

  lemma StepByStepMore(trace: seq<Log>, log: Log)
    requires trace != [] && StepByStep(trace) && OneStep(trace[|trace| - 1], log)
    ensures StepByStep(trace + [log])
  {
  }

  lemma NextMoment(n: nat, r: nat, w: Writes, i: nat)
    requires w.creation.Created? && (forall j :: w.running(j)) && (forall j :: w.completed(j)) && i < n && i <= r <= n
    ensures OneStep(LogAt(n, r, w, At(i, 0)), LogAt(n, r, w, At(i, 1)))
    ensures OneStep(LogAt(n, r, w, At(i, 1)), LogAt(n, r, w, At(i, 2)))
    ensures i < r ==> OneStep(LogAt(n, r, w, At(i, 2)), LogAt(n, r, w, At(i + 1, 0)))
  {
    if i < r {
      PerformedIsMoment(n, r, w, i);
      assert Upto(i + 1) == Upto(i) + [i];
    }
  }

  lemma {:induction false} UptoStepByStep(n: nat, r: nat, w: Writes, i: nat)
    requires w.creation.Created? && (forall j :: w.running(j)) && (forall j :: w.completed(j)) && i <= r <= n
    ensures var trace := TraceUpto(n, r, w, i);
            trace != [] && trace[|trace| - 1] == LogAt(n, r, w, At(i, 0)) && StepByStep(trace)
  {
    if i > 0 {
      UptoStepByStep(n, r, w, i - 1);
      NextMoment(n, r, w, i - 1);
      var t0 := TraceUpto(n, r, w, i - 1);
      var t1 := t0 + [LogAt(n, r, w, At(i - 1, 1))];
      var t2 := t1 + [LogAt(n, r, w, At(i - 1, 2))];
      StepByStepMore(t0, t1[|t1| - 1]);
      StepByStepMore(t1, t2[|t2| - 1]);
      StepByStepMore(t2, LogAt(n, r, w, At(i, 0)));
    }
  }

  /** Without lost row writes a run goes step by step: no row skips `running`, and every action is performed
      while its row reads running. */
  lemma RunGoesStepByStep(lib: Library, actions: seq<Action>, w: Writes)
    requires w.creation.Created? && (forall j :: w.running(j)) && (forall j :: w.completed(j))
    ensures StepByStep(Trace(lib, actions, w))
  {
    var n, r := |actions|, FirstRaise(lib, actions);
    var t0 := TraceUpto(n, r, w, r);
    UptoStepByStep(n, r, w, r);
    if r < n {
      NextMoment(n, r, w, r);
      var t1 := t0 + [LogAt(n, r, w, At(r, 1))];
      var t2 := t1 + [LogAt(n, r, w, At(r, 2))];
      StepByStepMore(t0, t1[|t1| - 1]);
      StepByStepMore(t1, t2[|t2| - 1]);
      StepByStepMore(t2, LogAt(n, r, w, Over));
      assert Trace(lib, actions, w) == t2 + [LogAt(n, r, w, Over)];
    } else {
      StepByStepMore(t0, LogAt(n, r, w, Over));
      assert Trace(lib, actions, w) == t0 + [LogAt(n, r, w, Over)];
    }
  }

  // ---------------------------------------------------------------------------
  // What the log says
  // ---------------------------------------------------------------------------

  /** Actions are performed in position order up to the first that raises, a completed mark means the
      action was performed, a failed mark means it is the one that raised, and the outcome is completed
      only if every action was performed and failed only if one raised. */
  ghost predicate Truthful(lib: Library, actions: seq<Action>, log: Log) {
    && |log.performed| <= FirstRaise(lib, actions) && log.performed == Upto(|log.performed|)
    && |log.marks| <= |actions|
    && (forall i | 0 <= i < |log.marks| :: log.marks[i].Completed? ==> i < |log.performed|)
    && (forall i | 0 <= i < |log.marks| :: log.marks[i].Failed? ==> Raises(lib, actions[i]) && i == |log.performed|)
    && (log.outcome.ExecutionCompleted? ==> |log.performed| == |actions|)
    && (log.outcome.ExecutionFailed? ==>
          |log.performed| < |actions| && Raises(lib, actions[|log.performed|]))
  }

  lemma MarkIsTruthful(n: nat, r: nat, w: Writes, m: Moment, j: nat)
    requires Reached(n, r, m) && j < |LogAt(n, r, w, m).marks|
    ensures var log := LogAt(n, r, w, m);
            && (log.marks[j].Completed? ==> j < |log.performed|)
            && (log.marks[j].Failed? ==> j == r == |log.performed| < n)
  {
  }

  lemma MomentIsTruthful(lib: Library, actions: seq<Action>, w: Writes, m: Moment)
    requires Reached(|actions|, FirstRaise(lib, actions), m)
    ensures Truthful(lib, actions, LogAt(|actions|, FirstRaise(lib, actions), w, m))
  {
    var n, r := |actions|, FirstRaise(lib, actions);
    forall j | 0 <= j < |LogAt(n, r, w, m).marks|
      ensures LogAt(n, r, w, m).marks[j].Completed? ==> j < |LogAt(n, r, w, m).performed|
      ensures LogAt(n, r, w, m).marks[j].Failed? ==> Raises(lib, actions[j]) && j == |LogAt(n, r, w, m).performed|
    {
      MarkIsTruthful(n, r, w, m, j);
    }
  }

  /** No log of a run overstates, whatever writes are lost: a worker that dies at any moment leaves a
      truthful one. */
  lemma NeverOverstates(lib: Library, actions: seq<Action>, w: Writes)
    ensures forall log | log in Trace(lib, actions, w) :: Truthful(lib, actions, log)
  {
    forall log | log in Trace(lib, actions, w) ensures Truthful(lib, actions, log) {
      var m := TraceMoments(lib, actions, w, log);
      MomentIsTruthful(lib, actions, w, m);
    }
  }

  /** No write is lost. */
  ghost predicate NoLoss(w: Writes) {
    w.creation.Created? && (forall i :: w.running(i)) && (forall i :: w.completed(i)) && w.failed && w.outcome
  }

  /** Completed up to `i`, then at most one running or failed, then pending. */
  ghost predicate Shape(marks: seq<ActionStatus>, i: nat) {
    && i <= |marks|
    && (forall j | 0 <= j < i :: marks[j] == Completed)
    && (forall j | i < j < |marks| :: marks[j] == Pending)
    && (i < |marks| ==> marks[i] != Completed)
  }

  /** Without lost writes every log of a run has that shape; the completed rows are the performed actions,
      but for the last one between its effect and its mark. */
  lemma FaultFreeShape(lib: Library, actions: seq<Action>, w: Writes, log: Log)
    requires NoLoss(w) && log in Trace(lib, actions, w)
    ensures |log.marks| == |actions|
    ensures exists i: nat :: Shape(log.marks, i) && i <= |log.performed| <= i + 1
  {
    var m := TraceMoments(lib, actions, w, log);
    assert Shape(log.marks, if m.At? then m.i else FirstRaise(lib, actions));
  }

  /** Where the pending rows could not be written there are none, and where their ids were lost they stay
      pending, in every state of the run. */
  lemma RowsWithoutIds(lib: Library, actions: seq<Action>, w: Writes, log: Log)
    requires !w.creation.Created? && log in Trace(lib, actions, w)
    ensures w.creation.NotCreated? ==> log.marks == []
    ensures w.creation.CreatedUnseen? ==>
              |log.marks| == |actions| && forall j | 0 <= j < |actions| :: log.marks[j] == Pending
  {
    var m := TraceMoments(lib, actions, w, log);
  }

  /** At the end of a run whose rows were created, each row tells the last of its writes that took effect:
      completed for a performed action, failed for the one that raised, running for what was begun. */
  lemma RowsTellLastWrite(lib: Library, actions: seq<Action>, w: Writes, j: nat)
    requires w.creation.Created? && j < |actions|
    ensures var log := LogAt(|actions|, FirstRaise(lib, actions), w, Over);
            var raising := |log.performed|;
            && |log.marks| == |actions| && (log.performed == Upto(FirstRaise(lib, actions)))
            && (log.marks[j].Completed? <==> j < raising && w.completed(j))
            && (log.marks[j].Failed? <==> j == raising && w.failed)
            && (log.marks[j].Running? <==> j <= raising && w.running(j) && !log.marks[j].Completed? && !log.marks[j].Failed?)
  {
  }

  /** The end of a run without lost writes: everything completed, or the first raising action is the only
      failed row, with completed rows before it and pending ones after it. */
  lemma FaultFreeEnd(lib: Library, actions: seq<Action>, w: Writes)
    requires NoLoss(w)
    ensures var n, r := |actions|, FirstRaise(lib, actions);
            var log := LogAt(n, r, w, Over);
            && |log.marks| == n && log.performed == Upto(r)
            && log.outcome == (if r < n then ExecutionFailed else ExecutionCompleted)
            && forall j | 0 <= j < n ::
                 log.marks[j] == if j < r then Completed else if j == r then Failed else Pending
  {
  }

  /** On a configuration the validator accepts, the executor raises only on a sleep beyond what
      `time.sleep` can represent. */
  lemma ValidatedRaises(lib: Library, a: Action)
    requires ValidActionConfig(lib, a.actionType, a.config)
    ensures a.actionType.Sleep? ==> "seconds" in a.config && IsInt(a.config["seconds"])
    ensures Raises(lib, a) <==> a.actionType.Sleep? && IntOf(a.config["seconds"]) > lib.sleepLimit
  {
  }

  /** The validator refuses no sleep the executor could perform: of the whole numbers up to the limit both take
      the same. */
  lemma ValidatorMatchesExecutor(lib: Library, a: Action)
    requires a.actionType.Sleep? && "seconds" in a.config && IsInt(a.config["seconds"])
    requires IntOf(a.config["seconds"]) <= lib.sleepLimit
    ensures ValidActionConfig(lib, a.actionType, a.config) <==> CanPerform(lib, a)
  {
  }

  /** The action rows `_load_actions` reads, in position order. */
  ghost function RowsInOrder(rows: Rows, rid: int): (actions: seq<Action>)
    requires WellOrdered(rows)
    ensures |actions| == |Order(rows, rid)|
    ensures forall i | 0 <= i < |actions| :: Of(rows, rid, Order(rows, rid)[i]) && actions[i] == rows[Order(rows, rid)[i]]
  {
    seq(|Order(rows, rid)|, i requires 0 <= i < |Order(rows, rid)| => rows[Order(rows, rid)[i]])
  }

  /** `_load_actions` */
  method LoadActions(rows: Rows, rid: int) returns (actions: seq<Action>)
    requires WellOrdered(rows)
    ensures actions == RowsInOrder(rows, rid)
  {
    var ids := SelectOrdered(rows, rid, Order(rows, rid));
    assert forall i | 0 <= i < |ids| :: Of(rows, rid, ids[i]);
    actions := seq(|ids|, i requires 0 <= i < |ids| => rows[ids[i]]);
  }

  /** The sleeps of a routine fit the limit of `time.sleep`. */
  ghost predicate SleepsFit(lib: Library, actions: seq<Action>) {
    forall i | 0 <= i < |actions| ::
      actions[i].actionType.Sleep? && "seconds" in actions[i].config && IsInt(actions[i].config["seconds"])
      ==> IntOf(actions[i].config["seconds"]) <= lib.sleepLimit
  }

  /** Any table reached through the action handlers: a run without lost writes performs every action of
      the routine in position order and completes, exactly when its sleeps fit. */
  lemma StoredRoutineCompletes(lib: Library, rows: Rows, rid: int, w: Writes)
    requires WellOrdered(rows) && ConfigsValid(lib, rows) && NoLoss(w)
    ensures var actions := RowsInOrder(rows, rid);
            var log := LogAt(|actions|, FirstRaise(lib, actions), w, Over);
            && (log.outcome == ExecutionCompleted <==> SleepsFit(lib, actions))
            && (SleepsFit(lib, actions) ==> log.performed == Upto(|actions|))
  {
    var actions := RowsInOrder(rows, rid);
    forall i | 0 <= i < |actions|
      ensures actions[i].actionType.Sleep? ==> "seconds" in actions[i].config && IsInt(actions[i].config["seconds"])
      ensures Raises(lib, actions[i]) <==> actions[i].actionType.Sleep? && IntOf(actions[i].config["seconds"]) > lib.sleepLimit
    {
      assert Of(rows, rid, Order(rows, rid)[i]);
      ValidatedRaises(lib, actions[i]);
    }
    FaultFreeEnd(lib, actions, w);
  }

  /** The log a run of routine `rid` leaves when its worker survives. */
  ghost function FinalLog(lib: Library, rows: Rows, rid: int, loadFails: bool, w: Writes): Log
    requires WellOrdered(rows)
  {
    if loadFails then Log([], [], if w.outcome then ExecutionFailed else ExecutionRunning)
    else
      var actions := RowsInOrder(rows, rid);
      LogAt(|actions|, FirstRaise(lib, actions), w, Over)
  }

  /** How a run ends, for every pattern of lost writes: the effects are those of all actions before the first
      that raises, or none when the actions cannot be loaded; and if the terminal write takes effect the row
      says completed exactly when the actions were loaded and all of them performed, else failed. */
  ghost predicate EndsRight(lib: Library, rows: Rows, rid: int, loadFails: bool, w: Writes, log: Log)
    requires WellOrdered(rows)
  {
    var actions := RowsInOrder(rows, rid);
    && (loadFails ==> log.performed == [] && log.marks == [])
    && (!loadFails ==>
          && |log.performed| <= |actions|
          && (forall i | 0 <= i < |log.performed| :: log.performed[i] == i && CanPerform(lib, actions[i]))
          && (|log.performed| < |actions| ==> !CanPerform(lib, actions[|log.performed|])))
    && (log.outcome.ExecutionCompleted? <==> w.outcome && !loadFails && |log.performed| == |actions|)
    && (log.outcome.ExecutionFailed? <==> w.outcome && (loadFails || |log.performed| < |actions|))
    && (log.outcome.ExecutionRunning? <==> !w.outcome)
  }

  lemma FinalLogEndsRight(lib: Library, rows: Rows, rid: int, loadFails: bool, w: Writes)
    requires WellOrdered(rows)
    ensures EndsRight(lib, rows, rid, loadFails, w, FinalLog(lib, rows, rid, loadFails, w))
  {
    var actions := RowsInOrder(rows, rid);
    var first := FirstRaise(lib, actions);
    assert forall i | 0 <= i < |actions| :: Raises(lib, actions[i]) <==> !CanPerform(lib, actions[i]);
    assert first < |actions| ==> Raises(lib, actions[first]);
  }

  /** The validators know no upper bound for a sleep either: a table with a configuration they accept whose
      run fails although no write is lost. */
  lemma OversizedSleepFails(lib: Library, w: Writes) returns (rows: Rows)
    requires NoLoss(w)
    ensures WellOrdered(rows) && ConfigsValid(lib, rows)
    ensures FinalLog(lib, rows, 7, false, w).outcome == ExecutionFailed
  {
    var a := Action(7, 1, Sleep, map["seconds" := JInt(lib.sleepLimit + 1)]);
    rows := map[1 := a];
    forall rid ensures Ordered(rows, rid) {
      assert Lists(rows, rid, if rid == 7 then [1] else []);
    }
    OrderIs(rows, 7, [1]);
    StoredRoutineCompletes(lib, rows, 7, w);
    assert RowsInOrder(rows, 7)[0] == a;
    FaultFreeEnd(lib, RowsInOrder(rows, 7), w);
  }

  // ---------------------------------------------------------------------------
  // The executor
  // ---------------------------------------------------------------------------

  /** The rows one run writes. `trace` keeps every state of them. */
  class RoutineExecutor {
    const lib: Library
    var marks: seq<ActionStatus>
    var performed: seq<nat>
    var outcome: ExecutionStatus
    ghost var trace: seq<Log>

    ghost function State(): Log
      reads this
    {
      Log(marks, performed, outcome)
    }

    constructor (lib: Library)
      ensures this.lib == lib && State() == Log([], [], ExecutionRunning) && trace == []
    {
      this.lib := lib;
      marks, performed, outcome, trace := [], [], ExecutionRunning, [];
    }

    /** `_create_pending_action_executions` */
    method CreatePendingActionExecutions(actions: seq<Action>, creation: Creation)
      requires marks == []
      modifies this`marks, this`trace
      ensures marks == if creation.NotCreated? then [] else Pendings(|actions|)
      ensures trace == old(trace) + [State()]
    {
      if !creation.NotCreated? {
        marks := Pendings(|actions|);
      }
      trace := trace + [State()];
    }

    /** `_update_action_execution_status` */
    method UpdateActionExecutionStatus(row: Option<nat>, status: ActionStatus, kept: bool)
      requires row.Some? ==> row.value < |marks|
      modifies this`marks, this`trace
      ensures marks == if row.Some? && kept then old(marks)[row.value := status] else old(marks)
      ensures trace == old(trace) + [State()]
    {
      if row.Some? && kept {
        marks := marks[row.value := status];
      }
      trace := trace + [State()];
    }

    /** `_update_execution_status`: the write is unconditional. */
    method UpdateExecutionStatus(status: ExecutionStatus, kept: bool)
      modifies this`outcome, this`trace
      ensures outcome == if kept then status else old(outcome)
      ensures trace == old(trace) + [State()]
    {
      if kept {
        outcome := status;
      }
      trace := trace + [State()];
    }

    /** The branches of `run` for one action, lines 73 to 94. */
    method Perform(a: Action, i: nat) returns (raised: bool)
      modifies this`performed, this`trace
      ensures raised <==> Raises(lib, a)
      ensures raised <==> !CanPerform(lib, a)
      ensures performed == if raised then old(performed) else old(performed) + [i]
      ensures trace == if raised then old(trace) else old(trace) + [State()]
    {
      if a.actionType.Sleep? {
        var raw := Get(a.config, "seconds", JNull);
        if raw.JNull? || (raw.JStr? && lib.isBlank(raw.s)) {
          return true;
        }
        if !IsInt(raw) && !raw.JStr? {
          return true;
        }
        var seconds := if raw.JStr? then lib.parseInt(raw.s) else Some(IntOf(raw));
        if seconds.None? || seconds.value < 0 || seconds.value > lib.sleepLimit {
          return true;
        }
      } else if "message" !in a.config {
        return true;
      }
      performed := performed + [i];
      trace := trace + [State()];
      return false;
    }

    /** The row id `run` knows for action `i`. */
    function RowOf(w: Writes, i: nat): Option<nat> {
      if w.creation.Created? then Some(i) else None
    }

    method MarkRunning(ghost n: nat, ghost r: nat, w: Writes, i: nat)
      requires i < n && i <= r <= n && State() == LogAt(n, r, w, At(i, 0))
      modifies this`marks, this`trace
      ensures State() == LogAt(n, r, w, At(i, 1)) && trace == old(trace) + [State()]
    {
      UpdateActionExecutionStatus(RowOf(w, i), Running, w.running(i));
      assert marks == MarksAt(n, r, w, i, 1);
    }

    method MarkCompleted(ghost n: nat, ghost r: nat, w: Writes, i: nat)
      requires i < r <= n && State() == LogAt(n, r, w, At(i, 2))
      modifies this`marks, this`trace
      ensures State() == LogAt(n, r, w, At(i + 1, 0)) && trace == old(trace) + [State()]
    {
      UpdateActionExecutionStatus(RowOf(w, i), Completed, w.completed(i));
      assert marks == MarksAt(n, r, w, i + 1, 0);
    }

    /** One turn of the loop inside the `try`. */
    method RunAction(actions: seq<Action>, w: Writes, i: nat) returns (raised: bool)
      requires i < |actions| && i <= FirstRaise(lib, actions)
      requires State() == LogAt(|actions|, FirstRaise(lib, actions), w, At(i, 0))
      modifies this`marks, this`performed, this`trace
      ensures var n, r := |actions|, FirstRaise(lib, actions);
              && (raised <==> i == r)
              && State() == LogAt(n, r, w, if raised then At(i, 1) else At(i + 1, 0))
              && trace == if raised then old(trace) + [LogAt(n, r, w, At(i, 1))]
                          else old(trace) + [LogAt(n, r, w, At(i, 1))] + [LogAt(n, r, w, At(i, 2))] + [State()]
    {
      ghost var n, r := |actions|, FirstRaise(lib, actions);
      assert i < r ==> !Raises(lib, actions[i]);
      MarkRunning(n, r, w, i);
      PerformedIsMoment(n, r, w, i);
      raised := Perform(actions[i], i);
      if !raised {
        MarkCompleted(n, r, w, i);
      }
    }

    /** The loop inside the `try`, lines 67 to 99: stops at the first action that raises and leaves its
        row id in `current`. */
    method RunActions(actions: seq<Action>, w: Writes) returns (raised: bool, current: Option<nat>)
      requires var n, r := |actions|, FirstRaise(lib, actions);
               State() == LogAt(n, r, w, At(0, 0)) && trace == TraceUpto(n, r, w, 0)
      modifies this`marks, this`performed, this`trace
      ensures var n, r := |actions|, FirstRaise(lib, actions);
              && (raised <==> r < n)
              && current == (if raised then RowOf(w, r) else None)
              && State() == LogAt(n, r, w, At(r, if raised then 1 else 0))
              && trace == TraceUpto(n, r, w, r) + if raised then [State()] else []
    {
      ghost var n, r := |actions|, FirstRaise(lib, actions);
      raised, current := false, None;
      for i := 0 to |actions|
        invariant i <= r && !raised && current == None
        invariant State() == LogAt(n, r, w, At(i, 0)) && trace == TraceUpto(n, r, w, i)
      {
        current := RowOf(w, i);
        raised := RunAction(actions, w, i);
        if raised {
          return true, current;
        }
        current := None;
      }
    }

    /** The handler of `run`, lines 107 to 117, for an action that raised. */
    method RecordFailure(ghost n: nat, ghost r: nat, w: Writes, current: Option<nat>)
      requires r < n && current == RowOf(w, r) && State() == LogAt(n, r, w, At(r, 1))
      modifies this`marks, this`outcome, this`trace
      ensures State() == LogAt(n, r, w, Over)
      ensures trace == old(trace) + [LogAt(n, r, w, At(r, 2)), State()]
    {
      UpdateActionExecutionStatus(current, Failed, w.failed);
      assert marks == MarksAt(n, r, w, r, 2);
      ghost var failing := State();
      UpdateExecutionStatus(ExecutionFailed, w.outcome);
      assert trace == old(trace) + [failing, State()];
    }

    /** `run` from line 63 on, over the actions it loaded. No state of the log on the way overstates. */
    method RunLoaded(actions: seq<Action>, w: Writes)
      requires State() == Log([], [], ExecutionRunning) && trace == []
      modifies this
      ensures State() == LogAt(|actions|, FirstRaise(lib, actions), w, Over)
      ensures trace == Trace(lib, actions, w)
      ensures forall log | log in trace :: Truthful(lib, actions, log)
    {
      ghost var n, r := |actions|, FirstRaise(lib, actions);
      CreatePendingActionExecutions(actions, w.creation);
      assert marks == MarksAt(n, r, w, 0, 0);
      var raised, current := RunActions(actions, w);
      if !raised {
        UpdateExecutionStatus(ExecutionCompleted, w.outcome);
      } else {
        RecordFailure(n, r, w, current);
      }
      assert trace == Trace(lib, actions, w);
      NeverOverstates(lib, actions, w);
    }

    /** `run` over the `actions` table. It has no way to fail: whatever raises ends up in the log. */
    method Run(rows: Rows, rid: int, loadFails: bool, w: Writes)
      requires WellOrdered(rows) && State() == Log([], [], ExecutionRunning) && trace == []
      modifies this
      ensures State() == FinalLog(lib, rows, rid, loadFails, w)
      ensures trace == if loadFails then [State()] else Trace(lib, RowsInOrder(rows, rid), w)
      ensures EndsRight(lib, rows, rid, loadFails, w, State())
    {
      FinalLogEndsRight(lib, rows, rid, loadFails, w);
      if loadFails {
        UpdateExecutionStatus(ExecutionFailed, w.outcome);
        return;
      }
      var actions := LoadActions(rows, rid);
      RunLoaded(actions, w);
    }
  }
}
