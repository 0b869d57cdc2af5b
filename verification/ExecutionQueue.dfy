/** backend/execution_engine.py, `ExecutionQueue`: any number of workers claim queued executions from one
    table while others enqueue, fail and crash. */
module ExecutionQueue {
  import opened Wrappers
  import opened Domain
  import opened Executor
  import Actions

  datatype Execution = Execution(
    routineId: int,
    status: ExecutionStatus,
    scheduledFor: int,
    startedAt: Option<int>,
    completedAt: Option<int>)

  /** Where a worker is in `_poll_loop`: asleep, past `now = datetime.now()`, holding the row lock of a
      selected row before its commit, inside `run`, or dead. */
  datatype Worker = Idle | Polling(now: int) | Holding(id: int, now: int) | Executing(id: int) | Dead

  /** A call of `enqueue_routine_run` that has chosen the time of its row and has not committed it yet. */
  datatype Request = Request(routineId: int, time: int)

  /** The table, the workers, the calls under way and the clock, with three histories: the scheduled time of every id ever
      enqueued, the ids whose claim was committed and the ids handed to `run`, both in order. */
  datatype Queue = Queue(
    rows: map<int, Execution>,
    workers: map<int, Worker>,
    requests: map<int, Request>,
    clock: int,
    planned: map<int, int>,
    claimed: seq<int>,
    handed: seq<int>)

  datatype Step =
    | Tick(time: int)
    | Ask(r: int, routineId: int, at: Option<int>)
    | Insert(r: int, id: int)
    | Abandon(r: int)
    | Poll(w: int)
    | Select(w: int, id: int)
    | SelectNone(w: int)
    | SelectFails(w: int)
    | Commit(w: int, stamp: int)
    | CommitFails(w: int)
    | CommitUnseen(w: int, stamp: int)
    | Finish(w: int, outcome: ExecutionStatus, kept: bool)
    | Crash(w: int)
    | Restart(w: int)
    | Delete(id: int)

  ghost predicate Locked(q: Queue, id: int) {
    exists w | w in q.workers :: q.workers[w].Holding? && q.workers[w].id == id
  }

  predicate IsQueued(q: Queue, id: int) {
    id in q.rows && q.rows[id].status.Queued?
  }

  /** What the claiming query may return at time `now`: rows locked by others are skipped. */
  ghost predicate Ready(q: Queue, id: int, now: int) {
    IsQueued(q, id) && q.rows[id].scheduledFor <= now && !Locked(q, id)
  }

  ghost predicate Enabled(q: Queue, s: Step) {
    match s
    case Tick(t) => t >= q.clock
    case Ask(r, _, _) => r !in q.requests
    case Insert(r, id) => r in q.requests && id !in q.planned
    case Abandon(r) => r in q.requests
    case Poll(w) => w in q.workers && q.workers[w].Idle?
    case Select(w, id) =>
      && w in q.workers && q.workers[w].Polling?
      && Ready(q, id, q.workers[w].now)
      && (forall x | Ready(q, x, q.workers[w].now) :: q.rows[id].scheduledFor <= q.rows[x].scheduledFor)
    case SelectNone(w) =>
      w in q.workers && q.workers[w].Polling? && forall x :: !Ready(q, x, q.workers[w].now)
    case SelectFails(w) => w in q.workers && q.workers[w].Polling?
    case Commit(w, stamp) => w in q.workers && q.workers[w].Holding? && q.workers[w].now <= stamp <= q.clock
    case CommitFails(w) => w in q.workers && q.workers[w].Holding?
    case CommitUnseen(w, stamp) => w in q.workers && q.workers[w].Holding? && q.workers[w].now <= stamp <= q.clock
    case Finish(w, outcome, _) =>
      w in q.workers && q.workers[w].Executing? && (outcome.ExecutionCompleted? || outcome.ExecutionFailed?)
    case Crash(w) => w in q.workers
    case Restart(w) => w in q.workers && q.workers[w].Dead?
    case Delete(id) => id in q.rows && !Locked(q, id)
  }

  function Claimed(rows: map<int, Execution>, id: int, stamp: int): map<int, Execution> {
    if id in rows then rows[id := rows[id].(status := ExecutionRunning, startedAt := Some(stamp))] else rows
  }

  /** `_update_execution_status`: unconditional when the row exists. */
  function Finished(rows: map<int, Execution>, id: int, outcome: ExecutionStatus, time: int): map<int, Execution> {
    if id in rows then rows[id := rows[id].(status := outcome, completedAt := Some(time))] else rows
  }

  function Moved(q: Queue, w: int, to: Worker): Queue {
    q.(workers := q.workers[w := to])
  }

  ghost function After(q: Queue, s: Step): Queue
    requires Enabled(q, s)
  {
    match s
    case Tick(t) => q.(clock := t)
    case Ask(r, rid, at) =>
      q.(requests := q.requests[r := Request(rid, if at.Some? then at.value else q.clock)])
    case Insert(r, id) =>
      var request := q.requests[r];
      q.(rows := q.rows[id := Execution(request.routineId, Queued, request.time, None, None)],
         planned := q.planned[id := request.time],
         requests := q.requests - {r})
    case Abandon(r) => q.(requests := q.requests - {r})
    case Poll(w) => Moved(q, w, Polling(q.clock))
    case Select(w, id) => Moved(q, w, Holding(id, q.workers[w].now))
    case SelectNone(w) => Moved(q, w, Idle)
    case SelectFails(w) => Moved(q, w, Idle)
    case Commit(w, stamp) =>
      var id := q.workers[w].id;
      Moved(q, w, Executing(id)).(rows := Claimed(q.rows, id, stamp), claimed := q.claimed + [id], handed := q.handed + [id])
    case CommitFails(w) => Moved(q, w, Idle)
    case CommitUnseen(w, stamp) =>
      var id := q.workers[w].id;
      Moved(q, w, Idle).(rows := Claimed(q.rows, id, stamp), claimed := q.claimed + [id])
    case Finish(w, outcome, kept) =>
      Moved(q, w, Idle).(rows := if kept then Finished(q.rows, q.workers[w].id, outcome, q.clock) else q.rows)
    case Crash(w) => Moved(q, w, Dead)
    case Restart(w) => Moved(q, w, Idle)
    case Delete(id) => q.(rows := q.rows - {id})
  }

  // ---------------------------------------------------------------------------
  // The invariant of the protocol
  // ---------------------------------------------------------------------------

  /** Each worker by itself. */
  ghost predicate WorkerFits(q: Queue, w: int)
    requires w in q.workers
  {
    match q.workers[w]
    case Polling(now) => now <= q.clock
    case Holding(id, now) => IsQueued(q, id) && q.rows[id].scheduledFor <= now <= q.clock
    case Executing(id) => id in q.handed && (id in q.rows ==> q.rows[id].status.ExecutionRunning?)
    case _ => true
  }

  /** Two workers never hold or execute the same id. */
  ghost predicate Apart(q: Queue, v: int, w: int)
    requires v in q.workers && w in q.workers
  {
    && (q.workers[v].Holding? && q.workers[w].Holding? ==> q.workers[v].id != q.workers[w].id)
    && (q.workers[v].Executing? && q.workers[w].Executing? ==> q.workers[v].id != q.workers[w].id)
  }

  ghost predicate WorkersInv(q: Queue) {
    && (forall w | w in q.workers :: WorkerFits(q, w))
    && (forall v, w | v in q.workers && w in q.workers && v != w :: Apart(q, v, w))
  }

  ghost predicate RowsInv(q: Queue) {
    && (forall id | id in q.rows :: id in q.planned && q.planned[id] == q.rows[id].scheduledFor)
    && (forall id | id in q.rows && !q.rows[id].status.Queued? ::
          q.rows[id].startedAt.Some? && q.rows[id].scheduledFor <= q.rows[id].startedAt.value <= q.clock)
  }

  ghost predicate HistoryInv(q: Queue) {
    && Actions.Distinct(q.claimed) && Actions.Distinct(q.handed)
    && (forall id | id in q.handed :: id in q.claimed)
    && (forall id | id in q.claimed :: id in q.planned && !IsQueued(q, id))
    && (forall id | id in q.rows && !IsQueued(q, id) :: id in q.claimed)
  }

  /** Each id handed out at most once, no execution started before its time, and a worker that executes an
      id is alone with it. */
  ghost predicate Inv(q: Queue) {
    WorkersInv(q) && RowsInv(q) && HistoryInv(q)
  }

  lemma StepKeepsRows(q: Queue, s: Step)
    requires Inv(q) && Enabled(q, s)
    ensures RowsInv(After(q, s))
  {
  }

  lemma StepKeepsHistory(q: Queue, s: Step)
    requires Inv(q) && Enabled(q, s)
    ensures HistoryInv(After(q, s))
  {
  }

  lemma StepKeepsEachWorker(q: Queue, s: Step, w: int)
    requires Inv(q) && Enabled(q, s) && w in After(q, s).workers
    ensures WorkerFits(After(q, s), w)
  {
    assert WorkerFits(q, w);
    assert forall v | v in q.workers && v != w :: Apart(q, v, w);
  }

  lemma StepKeepsApart(q: Queue, s: Step, v: int, w: int)
    requires Inv(q) && Enabled(q, s) && v in After(q, s).workers && w in After(q, s).workers && v != w
    ensures Apart(After(q, s), v, w)
  {
    assert Apart(q, v, w) && WorkerFits(q, v) && WorkerFits(q, w);
  }

  lemma StepKeepsWorkers(q: Queue, s: Step)
    requires Inv(q) && Enabled(q, s)
    ensures WorkersInv(After(q, s))
  {
    forall w | w in After(q, s).workers ensures WorkerFits(After(q, s), w) {
      StepKeepsEachWorker(q, s, w);
    }
    forall v, w | v in After(q, s).workers && w in After(q, s).workers && v != w ensures Apart(After(q, s), v, w) {
      StepKeepsApart(q, s, v, w);
    }
  }

  lemma StepKeepsInv(q: Queue, s: Step)
    requires Inv(q) && Enabled(q, s)
    ensures Inv(After(q, s))
  {
    StepKeepsRows(q, s);
    StepKeepsHistory(q, s);
    StepKeepsWorkers(q, s);
  }

  // ---------------------------------------------------------------------------
  // Safety over every run
  // ---------------------------------------------------------------------------

  ghost predicate Reaches(q: Queue, steps: seq<Step>, q': Queue)
    decreases |steps|
  {
    if steps == [] then q' == q
    else Enabled(q, steps[0]) && Reaches(After(q, steps[0]), steps[1..], q')
  }

  /** An empty table and workers that have done nothing yet. */
  ghost predicate Initial(q: Queue) {
    && q.rows == map[] && q.planned == map[] && q.requests == map[] && q.claimed == [] && q.handed == []
    && forall w | w in q.workers :: q.workers[w].Idle?
  }

  lemma {:induction false} InvAlways(q: Queue, steps: seq<Step>, q': Queue)
    requires Inv(q) && Reaches(q, steps, q')
    ensures Inv(q')
    decreases |steps|
  {
    if steps != [] {
      StepKeepsInv(q, steps[0]);
      InvAlways(After(q, steps[0]), steps[1..], q');
    }
  }

  /** With any number of workers, interleaving, failed commits and crashes: no id is handed to `run`
      twice, an id in `run` is in the hands of one worker only, and nothing starts early. */
  lemma HandedAtMostOnce(q: Queue, steps: seq<Step>, q': Queue)
    requires Initial(q) && Reaches(q, steps, q')
    ensures Actions.Distinct(q'.handed)
    ensures forall v, w | v in q'.workers && w in q'.workers && v != w && q'.workers[v].Executing? && q'.workers[w].Executing? ::
              q'.workers[v].id != q'.workers[w].id
    ensures forall id | id in q'.rows && !q'.rows[id].status.Queued? ::
              q'.rows[id].startedAt.Some? && q'.rows[id].scheduledFor <= q'.rows[id].startedAt.value
  {
    InvAlways(q, steps, q');
    forall v, w | v in q'.workers && w in q'.workers && v != w && q'.workers[v].Executing? && q'.workers[w].Executing?
      ensures q'.workers[v].id != q'.workers[w].id
    {
      assert Apart(q', v, w);
    }
  }

  predicate Terminal(s: ExecutionStatus) {
    s.ExecutionCompleted? || s.ExecutionFailed?
  }

  /** Every step moves a status forward only, and leaves a row with a terminal status entirely alone:
      the unconditional terminal write is safe because of the single claim. */
  lemma StatusMovesForward(q: Queue, s: Step, id: int)
    requires Inv(q) && Enabled(q, s) && id in q.rows && id in After(q, s).rows
    ensures var before, after := q.rows[id].status, After(q, s).rows[id].status;
            after == before
            || (before.Queued? && after.ExecutionRunning?)
            || (before.ExecutionRunning? && Terminal(after))
    ensures Terminal(q.rows[id].status) ==> After(q, s).rows[id] == q.rows[id]
  {
  }

  /** Only a committed claim or a deletion takes a row out of the queue: crashes, restarts and failed
      commits leave it as it was. */
  lemma QueuedRowsSurvive(q: Queue, s: Step, id: int)
    requires Inv(q) && Enabled(q, s) && IsQueued(q, id)
    ensures (id in After(q, s).rows && After(q, s).rows[id] == q.rows[id])
            || (id in After(q, s).claimed && id !in q.claimed)
            || s == Delete(id)
  {
  }

  ghost predicate NotInHands(q: Queue, id: int) {
    forall w | w in q.workers && q.workers[w].Executing? :: q.workers[w].id != id
  }

  /** Nobody starts to run a row that left the queue, and nobody brings a deleted row back. */
  lemma ClaimedStaysOutOfHands(q: Queue, s: Step, id: int)
    requires Inv(q) && Enabled(q, s) && id in q.claimed && NotInHands(q, id)
    ensures NotInHands(After(q, s), id) && id in After(q, s).claimed
    ensures id !in q.rows ==> id !in After(q, s).rows
    ensures id in q.rows && id in After(q, s).rows ==> After(q, s).rows[id] == q.rows[id]
  {
    assert !IsQueued(q, id);
    if s.Commit? || s.CommitUnseen? {
      assert WorkerFits(q, s.w);
    }
  }

  lemma {:induction false} GoneStaysGone(q: Queue, steps: seq<Step>, q': Queue, id: int)
    requires Inv(q) && Reaches(q, steps, q') && id in q.claimed && id !in q.rows && NotInHands(q, id)
    ensures id !in q'.rows && NotInHands(q', id)
    decreases |steps|
  {
    if steps != [] {
      StepKeepsInv(q, steps[0]);
      ClaimedStaysOutOfHands(q, steps[0], id);
      GoneStaysGone(After(q, steps[0]), steps[1..], q', id);
    }
  }

  /** A terminal row is never written again, over every run. */
  lemma {:induction false} TerminalForever(q: Queue, steps: seq<Step>, q': Queue, id: int)
    requires Inv(q) && Reaches(q, steps, q') && id in q.rows && Terminal(q.rows[id].status)
    ensures id in q'.rows ==> q'.rows[id] == q.rows[id]
    decreases |steps|
  {
    if steps != [] {
      StepKeepsInv(q, steps[0]);
      if id in After(q, steps[0]).rows {
        StatusMovesForward(q, steps[0], id);
        TerminalForever(After(q, steps[0]), steps[1..], q', id);
      } else {
        assert forall w | w in q.workers && q.workers[w].Executing? :: WorkerFits(q, w) && q.workers[w].id != id;
        ClaimedStaysOutOfHands(q, steps[0], id);
        GoneStaysGone(After(q, steps[0]), steps[1..], q', id);
      }
    }
  }

  /** A run that lost its worker or its terminal write is never resumed: its row stays running until it is
      deleted. */
  lemma {:induction false} OrphanStaysRunning(q: Queue, steps: seq<Step>, q': Queue, id: int)
    requires Inv(q) && Reaches(q, steps, q') && id in q.rows && q.rows[id].status.ExecutionRunning?
    requires NotInHands(q, id)
    ensures id in q'.rows ==> q'.rows[id] == q.rows[id]
    ensures NotInHands(q', id)
    decreases |steps|
  {
    if steps != [] {
      StepKeepsInv(q, steps[0]);
      ClaimedStaysOutOfHands(q, steps[0], id);
      if id in After(q, steps[0]).rows {
        OrphanStaysRunning(After(q, steps[0]), steps[1..], q', id);
      } else {
        GoneStaysGone(After(q, steps[0]), steps[1..], q', id);
      }
    }
  }

  // ---------------------------------------------------------------------------
  // Nothing is lost
  // ---------------------------------------------------------------------------

  ghost function QueuedIds(q: Queue): set<int> {
    set id | id in q.rows && q.rows[id].status.Queued?
  }

  ghost function ClaimedIds(q: Queue): set<int> {
    set id | id in q.claimed
  }

  /** The step neither adds nor deletes a row. */
  predicate KeepsRows(s: Step) {
    !s.Insert? && !s.Delete?
  }

  ghost predicate AllKeepRows(steps: seq<Step>) {
    forall s | s in steps :: KeepsRows(s)
  }

  lemma StepConserves(q: Queue, s: Step)
    requires Inv(q) && Enabled(q, s) && KeepsRows(s)
    ensures QueuedIds(After(q, s)) + ClaimedIds(After(q, s)) == QueuedIds(q) + ClaimedIds(q)
    ensures q.claimed <= After(q, s).claimed
  {
    var q' := After(q, s);
    forall id ensures id in QueuedIds(q') + ClaimedIds(q') <==> id in QueuedIds(q) + ClaimedIds(q) {
    }
  }

  lemma {:induction false} RunConserves(q: Queue, steps: seq<Step>, q': Queue)
    requires Inv(q) && Reaches(q, steps, q') && AllKeepRows(steps)
    ensures QueuedIds(q') + ClaimedIds(q') == QueuedIds(q) + ClaimedIds(q)
    ensures q.claimed <= q'.claimed
    decreases |steps|
  {
    if steps != [] {
      assert steps[0] in steps;
      assert forall s | s in steps[1..] :: s in steps;
      StepKeepsInv(q, steps[0]);
      StepConserves(q, steps[0]);
      RunConserves(After(q, steps[0]), steps[1..], q');
    }
  }

  lemma QueuedUnclaimed(q: Queue)
    requires Inv(q)
    ensures Actions.Distinct(q.claimed)
    ensures forall id | id in QueuedIds(q) :: id !in q.claimed
  {
    assert forall id | id in QueuedIds(q) :: IsQueued(q, id);
  }

  lemma NewPart(s: seq<int>, t: seq<int>)
    requires s <= t && Actions.Distinct(t)
    ensures Actions.Distinct(t[|s|..])
    ensures forall id :: id in t[|s|..] <==> id in t && id !in s
  {
    var more := t[|s|..];
    assert t == s + more;
    forall i, j | 0 <= i < |s| && 0 <= j < |more| ensures s[i] != more[j] {
      assert s[i] == t[i] && more[j] == t[|s| + j];
    }
    forall i, j | 0 <= i < j < |more| ensures more[i] != more[j] {
      assert more[i] == t[|s| + i] && more[j] == t[|s| + j];
    }
  }

  /** Conservation: without enqueues and deletes the newly claimed ids and the ids still queued are
      together exactly the ids that were queued, each once, whatever fails. When nothing is queued any
      more, the new claims are a permutation of the old queue. */
  lemma ClaimsConserve(q: Queue, steps: seq<Step>, q': Queue)
    requires Inv(q) && Reaches(q, steps, q') && AllKeepRows(steps)
    ensures q.claimed <= q'.claimed
    ensures var claims := q'.claimed[|q.claimed|..];
            && Actions.Distinct(claims)
            && forall id :: id in QueuedIds(q) <==> (id in QueuedIds(q') || id in claims)
    ensures forall id | id in QueuedIds(q') :: id !in q'.claimed
  {
    RunConserves(q, steps, q');
    assert Actions.Distinct(q'.claimed) && forall id | id in QueuedIds(q') :: id !in q'.claimed by {
      InvAlways(q, steps, q');
      QueuedUnclaimed(q');
    }
    NewPart(q.claimed, q'.claimed);
    forall id ensures id in QueuedIds(q) <==> (id in QueuedIds(q') || id in q'.claimed[|q.claimed|..]) {
      QueuedUnclaimed(q);
      assert id in QueuedIds(q) + ClaimedIds(q) <==> id in QueuedIds(q') + ClaimedIds(q');
    }
  }

  lemma CountParts(all: set<int>, left: set<int>, taken: seq<int>)
    requires Actions.Distinct(taken) && forall id | id in left :: id !in taken
    requires forall id :: id in all <==> id in left || id in taken
    ensures |all| == |left| + |taken|
  {
    var ids := Actions.Elements(taken);
    Actions.ElementsOf(taken);
    assert left !! ids;
    forall id ensures id in all <==> id in left + ids {
      assert id in all <==> id in left || id in taken;
    }
    assert all == left + ids;
  }

  /** Claiming comes to an end: in every run without new rows, whatever fails, there are as many claims as
      rows that left the queue, so no more than there were queued rows. */
  lemma ClaimsAreBounded(q: Queue, steps: seq<Step>, q': Queue)
    requires Inv(q) && Reaches(q, steps, q') && AllKeepRows(steps)
    ensures |q'.claimed| - |q.claimed| == |QueuedIds(q)| - |QueuedIds(q')|
  {
    ClaimsConserve(q, steps, q');
    CountParts(QueuedIds(q), QueuedIds(q'), q'.claimed[|q.claimed|..]);
  }

  /** Moving a worker that holds no lock to a state that holds none changes no lock. */
  lemma LockedUnchanged(q: Queue, w: int, to: Worker)
    requires w in q.workers && !q.workers[w].Holding? && !to.Holding?
    ensures forall x :: Locked(Moved(q, w, to), x) <==> Locked(q, x)
  {
    forall x ensures Locked(Moved(q, w, to), x) <==> Locked(q, x) {
      if Locked(q, x) {
        var v :| v in q.workers && q.workers[v].Holding? && q.workers[v].id == x;
        assert Moved(q, w, to).workers[v] == q.workers[v];
      }
      if Locked(Moved(q, w, to), x) {
        var v :| v in Moved(q, w, to).workers && Moved(q, w, to).workers[v].Holding? && Moved(q, w, to).workers[v].id == x;
        assert q.workers[v] == Moved(q, w, to).workers[v];
      }
    }
  }

  lemma Earliest(rows: map<int, Execution>, ids: set<int>) returns (id: int)
    requires ids != {} && forall x | x in ids :: x in rows
    ensures id in ids && forall x | x in ids :: rows[id].scheduledFor <= rows[x].scheduledFor
    decreases |ids|
  {
    id := Pick(ids);
    var rest := ids - {id};
    assert forall x | x in ids :: x == id || x in rest;
    if rest != {} {
      var other := Earliest(rows, rest);
      if rows[other].scheduledFor < rows[id].scheduledFor {
        id := other;
      }
    }
  }

  lemma {:induction false} ReachesOn(q: Queue, steps: seq<Step>, q': Queue, more: seq<Step>, q'': Queue)
    requires Reaches(q, steps, q') && Reaches(q', more, q'')
    ensures Reaches(q, steps + more, q'')
    decreases |steps|
  {
    if steps == [] {
      assert steps + more == more;
    } else {
      ReachesOn(After(q, steps[0]), steps[1..], q', more, q'');
      assert (steps + more)[1..] == steps[1..] + more;
    }
  }

  lemma {:induction false} ReachesOneMore(q: Queue, steps: seq<Step>, q': Queue, s: Step)
    requires Reaches(q, steps, q') && Enabled(q', s)
    ensures Reaches(q, steps + [s], After(q', s))
    decreases |steps|
  {
    if steps == [] {
      assert [s][1..] == [];
      assert Reaches(After(q, s), [], After(q, s));
    } else {
      ReachesOneMore(After(q, steps[0]), steps[1..], q', s);
      assert (steps + [s])[1..] == steps[1..] + [s];
    }
  }

  lemma ReachesTwo(q: Queue, s1: Step, s2: Step)
    requires Enabled(q, s1) && Enabled(After(q, s1), s2)
    ensures Reaches(q, [s1, s2], After(After(q, s1), s2))
  {
    var q2 := After(After(q, s1), s2);
    assert Reaches(q2, [], q2);
    assert [s2][1..] == [];
    assert Reaches(After(q, s1), [s2], q2);
    assert [s1, s2][1..] == [s2];
  }

  lemma ReachesThree(q: Queue, s1: Step, s2: Step, s3: Step)
    requires Enabled(q, s1) && Enabled(After(q, s1), s2) && Enabled(After(After(q, s1), s2), s3)
    ensures Reaches(q, [s1, s2, s3], After(After(After(q, s1), s2), s3))
  {
    var q1 := After(q, s1);
    var q2 := After(q1, s2);
    var q3 := After(q2, s3);
    assert Reaches(q3, [], q3);
    assert [s3][1..] == [];
    assert Reaches(q2, [s3], q3);
    assert [s2, s3][1..] == [s3];
    assert Reaches(q1, [s2, s3], q3);
    assert [s1, s2, s3][1..] == [s2, s3];
  }

  /** The state after an idle worker claimed `id`. */
  ghost function AfterClaim(q: Queue, w: int, id: int): Queue {
    q.(rows := Claimed(q.rows, id, q.clock), workers := q.workers[w := Executing(id)],
       claimed := q.claimed + [id], handed := q.handed + [id])
  }

  /** An idle worker, fresh from a restart or not, can claim whenever an unlocked row is ready: the
      earliest one, handed to `run`. */
  lemma ReadyRowCanBeClaimed(q: Queue, w: int, ready: int) returns (id: int)
    requires Inv(q) && w in q.workers && q.workers[w].Idle? && Ready(q, ready, q.clock)
    ensures Ready(q, id, q.clock)
    ensures Reaches(q, [Poll(w), Select(w, id), Commit(w, q.clock)], AfterClaim(q, w, id))
  {
    var ids := set id | id in q.rows && Ready(q, id, q.clock);
    assert ready in ids;
    id := Earliest(q.rows, ids);
    var q1 := After(q, Poll(w));
    LockedUnchanged(q, w, Polling(q.clock));
    assert forall x | Ready(q1, x, q.clock) :: Ready(q, x, q.clock) && x in ids;
    var q2 := After(q1, Select(w, id));
    var q3 := After(q2, Commit(w, q.clock));
    ReachesThree(q, Poll(w), Select(w, id), Commit(w, q.clock));
    assert q3.workers == q.workers[w := Executing(id)];
  }

  /** No worker holds a lock, as after a restart of the whole process. */
  ghost predicate Unlocked(q: Queue) {
    forall w | w in q.workers :: !q.workers[w].Holding?
  }

  lemma {:induction false} ProperSubsetIsSmaller(s: set<int>, t: set<int>)
    requires s < t
    ensures |s| < |t|
  {
    assert t == s + (t - s);
    assert |t| == |s| + |t - s|;
    assert t - s != {};
  }

  // ---------------------------------------------------------------------------
  // Order, with one worker
  // ---------------------------------------------------------------------------

  /** Whatever the number of workers, every earlier row is claimed already or locked by another worker at
      the moment of a selection. */
  lemma SelectionSkipsOnlyLockedRows(q: Queue, w: int, b: int, a: int)
    requires Inv(q) && Enabled(q, Select(w, b)) && a in q.rows && q.rows[a].scheduledFor < q.rows[b].scheduledFor
    ensures a in q.claimed || exists v | v in q.workers && v != w :: q.workers[v].Holding? && q.workers[v].id == a
  {
    if IsQueued(q, a) {
      assert !Ready(q, a, q.workers[w].now);
    }
  }

  /** No inversion: with a single worker, after any run, an id enqueued before `b` is selected and scheduled
      strictly earlier has been claimed before `b`. */
  lemma NoInversion(start: Queue, steps: seq<Step>, q: Queue, w: int, b: int, a: int)
    requires Initial(start) && Reaches(start, steps, q) && q.workers.Keys == {w} && Enabled(q, Select(w, b))
    requires a in q.rows && q.rows[a].scheduledFor < q.rows[b].scheduledFor
    ensures a in q.claimed && b !in q.claimed
  {
    InvAlways(start, steps, q);
    SelectionSkipsOnlyLockedRows(q, w, b, a);
  }

  ghost predicate SortedBy(planned: map<int, int>, s: seq<int>) {
    && (forall i | 0 <= i < |s| :: s[i] in planned)
    && (forall i, j | 0 <= i < j < |s| :: planned[s[i]] <= planned[s[j]])
  }

  /** Nothing queued is scheduled before `c`. */
  ghost predicate Leads(q: Queue, c: int) {
    c in q.planned && forall a | IsQueued(q, a) :: q.planned[c] <= q.rows[a].scheduledFor
  }

  /** The claims after the first `from` ones. */
  ghost function ClaimsSince(q: Queue, from: nat): seq<int> {
    if from <= |q.claimed| then q.claimed[from..] else []
  }

  /** Claimed since then, or selected. */
  ghost predicate Ahead(q: Queue, from: nat, c: int) {
    c in ClaimsSince(q, from) || Locked(q, c)
  }

  /** Claims after the first `from` ones come in order of scheduled time, and what is claimed since then, or
      selected, leads what is queued. */
  ghost predicate InOrder(q: Queue, from: nat) {
    && from <= |q.claimed|
    && SortedBy(q.planned, ClaimsSince(q, from))
    && forall c | Ahead(q, from, c) :: Leads(q, c) && q.planned[c] <= q.clock
  }

  /** The step commits a row scheduled before one that is claimed or selected already. A default request
      does so when its reading of the clock is older than the scheduled time of such a row. */
  ghost predicate Overtakes(q: Queue, s: Step, from: nat) {
    && s.Insert? && s.r in q.requests
    && exists c :: Ahead(q, from, c) && c in q.planned && q.requests[s.r].time < q.planned[c]
  }

  lemma SelectedLeads(q: Queue, w: int, id: int)
    requires Inv(q) && q.workers.Keys == {w} && Enabled(q, Select(w, id))
    ensures Leads(q, id)
  {
    forall a | IsQueued(q, a) ensures q.rows[id].scheduledFor <= q.rows[a].scheduledFor {
      assert !Locked(q, a);
      assert Ready(q, a, q.workers[w].now) || q.rows[a].scheduledFor > q.workers[w].now;
    }
  }

  /** What leads keeps leading, unless a row is inserted before it. */
  lemma LeadsStays(q: Queue, s: Step, c: int)
    requires Inv(q) && Enabled(q, s) && Leads(q, c)
    requires s.Insert? ==> q.requests[s.r].time >= q.planned[c]
    ensures Leads(After(q, s), c) && After(q, s).planned[c] == q.planned[c] && q.clock <= After(q, s).clock
  {
  }

  lemma StepExtendsClaims(q: Queue, s: Step, from: nat)
    requires Enabled(q, s) && from <= |q.claimed|
    ensures ClaimsSince(After(q, s), from)
            == if s.Commit? || s.CommitUnseen? then ClaimsSince(q, from) + [q.workers[s.w].id] else ClaimsSince(q, from)
  {
  }

  lemma StepKeepsSorted(q: Queue, s: Step, from: nat)
    requires Inv(q) && InOrder(q, from) && Enabled(q, s)
    ensures SortedBy(After(q, s).planned, ClaimsSince(After(q, s), from))
  {
    var claims := ClaimsSince(q, from);
    StepExtendsClaims(q, s, from);
    if s.Commit? || s.CommitUnseen? {
      var id := q.workers[s.w].id;
      assert IsQueued(q, id);
      forall i | 0 <= i < |claims| ensures q.planned[claims[i]] <= q.planned[id] {
        assert claims[i] in claims && Leads(q, claims[i]);
        assert q.planned[id] == q.rows[id].scheduledFor;
      }
    } else {
      assert forall i | 0 <= i < |claims| :: After(q, s).planned[claims[i]] == q.planned[claims[i]];
    }
  }

  /** What is ahead after a step was ahead before, or has just been selected. */
  lemma AheadBefore(q: Queue, s: Step, from: nat, c: int)
    requires Enabled(q, s) && from <= |q.claimed| && Ahead(After(q, s), from, c)
    ensures Ahead(q, from, c) || (s.Select? && s.id == c)
  {
    StepExtendsClaims(q, s, from);
    if Locked(After(q, s), c) {
      var v :| v in After(q, s).workers && After(q, s).workers[v].Holding? && After(q, s).workers[v].id == c;
      if !s.Select? {
        assert q.workers[v] == After(q, s).workers[v];
      }
    } else if c !in ClaimsSince(q, from) {
      assert q.workers[s.w].Holding? && q.workers[s.w].id == c;
    }
  }

  lemma StepKeepsLeading(q: Queue, s: Step, w: int, from: nat, c: int)
    requires Inv(q) && InOrder(q, from) && q.workers.Keys == {w} && Enabled(q, s) && !Overtakes(q, s, from)
    requires Ahead(After(q, s), from, c)
    ensures Leads(After(q, s), c) && After(q, s).planned[c] <= After(q, s).clock
  {
    AheadBefore(q, s, from, c);
    if s.Select? && s.id == c {
      SelectedLeads(q, w, c);
    }
    LeadsStays(q, s, c);
  }

  lemma OvertakenDoesNotLead(q: Queue, s: Step, from: nat)
    requires Inv(q) && InOrder(q, from) && Enabled(q, s) && Overtakes(q, s, from)
    ensures !InOrder(After(q, s), from)
  {
    var q' := After(q, s);
    var c :| Ahead(q, from, c) && c in q.planned && q.requests[s.r].time < q.planned[c];
    assert IsQueued(q', s.id) && q'.planned[c] == q.planned[c];
    assert q'.workers == q.workers;
    assert Ahead(q', from, c) by {
      assert ClaimsSince(q', from) == ClaimsSince(q, from);
      assert Locked(q, c) ==> Locked(q', c);
    }
    assert !Leads(q', c);
  }

  /** With one worker, a step keeps the order exactly when it does not overtake. */
  lemma StepKeepsOrder(q: Queue, s: Step, w: int, from: nat)
    requires Inv(q) && InOrder(q, from) && q.workers.Keys == {w} && Enabled(q, s)
    ensures Inv(After(q, s)) && After(q, s).workers.Keys == {w}
    ensures InOrder(After(q, s), from) <==> !Overtakes(q, s, from)
  {
    StepKeepsInv(q, s);
    if Overtakes(q, s, from) {
      OvertakenDoesNotLead(q, s, from);
    } else {
      StepKeepsSorted(q, s, from);
      StepExtendsClaims(q, s, from);
      forall c | Ahead(After(q, s), from, c) ensures Leads(After(q, s), c) && After(q, s).planned[c] <= After(q, s).clock {
        StepKeepsLeading(q, s, w, from, c);
      }
    }
  }

  /** A row committed before its scheduled time overtakes nothing. */
  lemma InTimeOvertakesNothing(q: Queue, s: Step, from: nat)
    requires InOrder(q, from) && Enabled(q, s) && s.Insert? && q.requests[s.r].time >= q.clock
    ensures !Overtakes(q, s, from)
  {
  }

  /** No row is committed behind a claimed or selected one. */
  ghost predicate NeverOvertakes(q: Queue, steps: seq<Step>, from: nat)
    decreases |steps|
  {
    steps == []
    || (Enabled(q, steps[0]) && !Overtakes(q, steps[0], from) && NeverOvertakes(After(q, steps[0]), steps[1..], from))
  }

  lemma {:induction false} OrderAlways(q: Queue, steps: seq<Step>, q': Queue, w: int, from: nat)
    requires Inv(q) && InOrder(q, from) && q.workers.Keys == {w} && Reaches(q, steps, q') && NeverOvertakes(q, steps, from)
    ensures Inv(q') && InOrder(q', from) && q'.workers.Keys == {w}
    decreases |steps|
  {
    if steps != [] {
      StepKeepsOrder(q, steps[0], w, from);
      OrderAlways(After(q, steps[0]), steps[1..], q', w, from);
    }
  }

  /** `ids` ordered by scheduled time, each once. */
  ghost predicate IsView(q: Queue, ids: set<int>, view: seq<int>) {
    && Actions.Distinct(view)
    && (forall id :: id in view <==> id in ids)
    && (forall id | id in view :: id in q.rows)
    && (forall i, j | 0 <= i < j < |view| :: q.rows[view[i]].scheduledFor <= q.rows[view[j]].scheduledFor)
  }

  /** `get_active_executions`: the queued and running rows ordered by scheduled time. */
  ghost predicate IsActiveView(q: Queue, view: seq<int>) {
    IsView(q, (set id | id in q.rows && !Terminal(q.rows[id].status)), view)
  }

  /** One worker and no overtaking, over every run with any failures: ids are claimed in order of their
      scheduled time. */
  lemma ClaimsFollowSchedule(q: Queue, steps: seq<Step>, q': Queue, w: int)
    requires Initial(q) && q.workers.Keys == {w} && Reaches(q, steps, q') && NeverOvertakes(q, steps, 0)
    ensures SortedBy(q'.planned, q'.claimed)
  {
    OrderAlways(q, steps, q', w, 0);
    assert ClaimsSince(q', 0) == q'.claimed;
  }

  // ---------------------------------------------------------------------------
  // The head of the active view, with one worker
  // ---------------------------------------------------------------------------

  /** Running, or selected and about to run. */
  ghost predicate InFront(q: Queue, c: int) {
    Locked(q, c) || (c in q.rows && q.rows[c].status.ExecutionRunning?)
  }

  /** Nothing queued is scheduled before what is running or about to. */
  ghost predicate FrontLeads(q: Queue) {
    forall c | InFront(q, c) :: Leads(q, c)
  }

  /** The step commits a row scheduled before the one that is running or about to. */
  ghost predicate CutsIn(q: Queue, s: Step) {
    && s.Insert? && s.r in q.requests
    && exists c :: InFront(q, c) && c in q.planned && q.requests[s.r].time < q.planned[c]
  }

  /** What is in front after a step was there before, or has just been selected. */
  lemma FrontBefore(q: Queue, s: Step, c: int)
    requires Inv(q) && Enabled(q, s) && InFront(After(q, s), c)
    ensures InFront(q, c) || (s.Select? && s.id == c)
  {
    if Locked(After(q, s), c) {
      var v :| v in After(q, s).workers && After(q, s).workers[v].Holding? && After(q, s).workers[v].id == c;
      if !s.Select? {
        assert q.workers[v] == After(q, s).workers[v];
      }
    } else if !(c in q.rows && q.rows[c].status.ExecutionRunning?) {
      assert q.workers[s.w].Holding? && q.workers[s.w].id == c;
    }
  }

  lemma CutInDoesNotLead(q: Queue, s: Step)
    requires Inv(q) && Enabled(q, s) && CutsIn(q, s)
    ensures !FrontLeads(After(q, s))
  {
    var q' := After(q, s);
    var c :| InFront(q, c) && c in q.planned && q.requests[s.r].time < q.planned[c];
    assert IsQueued(q', s.id) && q'.planned[c] == q.planned[c];
    assert InFront(q', c) by {
      assert q'.workers == q.workers;
      assert Locked(q, c) ==> Locked(q', c);
    }
    assert !Leads(q', c);
  }

  /** With one worker, a step keeps the front leading exactly when it does not cut in. A default request cuts
      in when its reading of the clock is older than the scheduled time of the row in front. */
  lemma StepKeepsFront(q: Queue, s: Step, w: int)
    requires Inv(q) && FrontLeads(q) && q.workers.Keys == {w} && Enabled(q, s)
    ensures Inv(After(q, s)) && After(q, s).workers.Keys == {w}
    ensures FrontLeads(After(q, s)) <==> !CutsIn(q, s)
  {
    StepKeepsInv(q, s);
    if CutsIn(q, s) {
      CutInDoesNotLead(q, s);
    } else {
      forall c | InFront(After(q, s), c) ensures Leads(After(q, s), c) {
        FrontBefore(q, s, c);
        if s.Select? && s.id == c {
          SelectedLeads(q, w, c);
        }
        LeadsStays(q, s, c);
      }
    }
  }

  /** A row committed no later than its scheduled time does not cut in. */
  lemma InTimeDoesNotCutIn(q: Queue, s: Step)
    requires Inv(q) && Enabled(q, s) && s.Insert? && q.requests[s.r].time >= q.clock
    ensures !CutsIn(q, s)
  {
    forall c | InFront(q, c) && c in q.planned ensures q.planned[c] <= q.clock {
      if Locked(q, c) {
        var v :| v in q.workers && q.workers[v].Holding? && q.workers[v].id == c;
        assert WorkerFits(q, v);
      }
    }
  }

  /** Cutting in is overtaking; overtaking a row that has finished is not cutting in. */
  lemma CutInOvertakes(q: Queue, s: Step)
    requires Inv(q) && CutsIn(q, s)
    ensures Overtakes(q, s, 0)
  {
    var c :| InFront(q, c) && c in q.planned && q.requests[s.r].time < q.planned[c];
    assert ClaimsSince(q, 0) == q.claimed;
    assert Ahead(q, 0, c);
  }

  ghost predicate NeverCutsIn(q: Queue, steps: seq<Step>)
    decreases |steps|
  {
    steps == [] || (Enabled(q, steps[0]) && !CutsIn(q, steps[0]) && NeverCutsIn(After(q, steps[0]), steps[1..]))
  }

  /** The front leads in every state of the run. */
  ghost predicate FrontLeadsThroughout(q: Queue, steps: seq<Step>)
    decreases |steps|
  {
    FrontLeads(q)
    && (steps == [] || (Enabled(q, steps[0]) && FrontLeadsThroughout(After(q, steps[0]), steps[1..])))
  }

  /** Over whole runs of one worker, whatever fails: the front leads in every state if and only if no step
      cuts in. */
  lemma {:induction false} FrontLeadsIff(q: Queue, steps: seq<Step>, q': Queue, w: int)
    requires Inv(q) && FrontLeads(q) && q.workers.Keys == {w} && Reaches(q, steps, q')
    ensures FrontLeadsThroughout(q, steps) <==> NeverCutsIn(q, steps)
    ensures NeverCutsIn(q, steps) ==> Inv(q') && FrontLeads(q') && q'.workers.Keys == {w}
    decreases |steps|
  {
    if steps != [] {
      StepKeepsFront(q, steps[0], w);
      if !CutsIn(q, steps[0]) {
        FrontLeadsIff(After(q, steps[0]), steps[1..], q', w);
      } else {
        assert !FrontLeadsThroughout(After(q, steps[0]), steps[1..]);
      }
    }
  }

  /** One worker and nothing cutting in, over every run with any failures: the active view shows no queued row
      scheduled before a running one. */
  lemma RunningComesFirst(q: Queue, steps: seq<Step>, q': Queue, w: int, view: seq<int>)
    requires Initial(q) && q.workers.Keys == {w} && Reaches(q, steps, q') && NeverCutsIn(q, steps)
    requires IsActiveView(q', view)
    ensures forall running, queued | running in view && queued in view ::
              running in q'.rows && queued in q'.rows
              && (q'.rows[running].status.ExecutionRunning? && q'.rows[queued].status.Queued? ==>
                    q'.rows[running].scheduledFor <= q'.rows[queued].scheduledFor)
  {
    FrontLeadsIff(q, steps, q', w);
    forall running, queued | running in view && queued in view
                             && q'.rows[running].status.ExecutionRunning? && q'.rows[queued].status.Queued?
      ensures q'.rows[running].scheduledFor <= q'.rows[queued].scheduledFor
    {
      assert InFront(q', running) && IsQueued(q', queued);
    }
  }

  /** The step takes a running row out of the hands of its worker without finishing it. */
  predicate LosesRun(s: Step) {
    s.CommitUnseen? || s.Crash? || (s.Finish? && !s.kept)
  }

  ghost predicate NoneLost(steps: seq<Step>) {
    forall s | s in steps :: !LosesRun(s)
  }

  ghost predicate InHands(q: Queue, id: int) {
    exists w :: w in q.workers && q.workers[w] == Executing(id)
  }

  /** Every running row is being run. */
  ghost predicate NoOrphans(q: Queue) {
    forall id | id in q.rows && q.rows[id].status.ExecutionRunning? :: InHands(q, id)
  }

  lemma StepMakesNoOrphan(q: Queue, s: Step, id: int)
    requires Inv(q) && NoOrphans(q) && Enabled(q, s) && !LosesRun(s)
    requires id in After(q, s).rows && After(q, s).rows[id].status.ExecutionRunning?
    ensures InHands(After(q, s), id)
  {
    var q' := After(q, s);
    if s.Commit? && q.workers[s.w].id == id {
      assert q'.workers[s.w] == Executing(id);
    } else {
      assert InHands(q, id);
      var w :| w in q.workers && q.workers[w] == Executing(id);
      assert q'.workers[w] == Executing(id);
    }
  }

  /** Whatever the number of workers. */
  lemma {:induction false} NoOrphansAlways(q: Queue, steps: seq<Step>, q': Queue)
    requires Inv(q) && NoOrphans(q) && Reaches(q, steps, q') && NoneLost(steps)
    ensures NoOrphans(q')
    decreases |steps|
  {
    if steps != [] {
      assert !LosesRun(steps[0]);
      assert forall s | s in steps[1..] :: s in steps;
      StepKeepsInv(q, steps[0]);
      forall id | id in After(q, steps[0]).rows && After(q, steps[0]).rows[id].status.ExecutionRunning?
        ensures InHands(After(q, steps[0]), id)
      {
        StepMakesNoOrphan(q, steps[0], id);
      }
      NoOrphansAlways(After(q, steps[0]), steps[1..], q');
    }
  }

  /** One worker, nothing cutting in and no lost run: a running row is the only one, and it has the least
      scheduled time of the active view. */
  lemma RunningRowIsLeast(q: Queue, steps: seq<Step>, q': Queue, w: int, view: seq<int>, running: int)
    requires Initial(q) && q.workers.Keys == {w} && Reaches(q, steps, q')
    requires NeverCutsIn(q, steps) && NoneLost(steps)
    requires IsActiveView(q', view) && running in view && q'.rows[running].status.ExecutionRunning?
    ensures forall id | id in view :: id in q'.rows && q'.rows[running].scheduledFor <= q'.rows[id].scheduledFor
    ensures forall id | id in view && q'.rows[id].status.ExecutionRunning? :: id == running
  {
    RunningComesFirst(q, steps, q', w, view);
    FrontLeadsIff(q, steps, q', w);
    NoOrphansAlways(q, steps, q');
    forall id | id in view && q'.rows[id].status.ExecutionRunning? ensures id == running {
      assert InHands(q', id) && InHands(q', running);
    }
  }

  lemma {:induction false} KeepingRowsOvertakesNothing(q: Queue, steps: seq<Step>, q': Queue, from: nat)
    requires Inv(q) && Reaches(q, steps, q') && AllKeepRows(steps)
    ensures NeverOvertakes(q, steps, from)
    ensures forall id | id in q.planned :: id in q'.planned && q'.planned[id] == q.planned[id]
    decreases |steps|
  {
    if steps != [] {
      assert KeepsRows(steps[0]);
      assert forall s | s in steps[1..] :: s in steps;
      StepKeepsInv(q, steps[0]);
      KeepingRowsOvertakesNothing(After(q, steps[0]), steps[1..], q', from);
    }
  }

  lemma BacklogInOrder(q: Queue, steps: seq<Step>, q': Queue, w: int)
    requires Inv(q) && Unlocked(q) && q.workers.Keys == {w} && Reaches(q, steps, q') && AllKeepRows(steps)
    ensures |q.claimed| <= |q'.claimed| && SortedBy(q'.planned, q'.claimed[|q.claimed|..])
    ensures forall id | id in q.planned :: id in q'.planned && q'.planned[id] == q.planned[id]
  {
    KeepingRowsOvertakesNothing(q, steps, q', |q.claimed|);
    assert InOrder(q, |q.claimed|);
    OrderAlways(q, steps, q', w, |q.claimed|);
    assert q'.claimed[|q.claimed|..] == ClaimsSince(q', |q.claimed|);
  }

  lemma SortedIsView(q: Queue, planned: map<int, int>, s: seq<int>)
    requires RowsInv(q) && Actions.Distinct(s) && SortedBy(planned, s)
    requires forall id :: id in QueuedIds(q) <==> id in s
    requires forall id | id in q.planned :: id in planned && planned[id] == q.planned[id]
    ensures IsView(q, QueuedIds(q), s)
  {
    forall id | id in s ensures id in q.rows && planned[id] == q.rows[id].scheduledFor {
      assert id in q.planned;
    }
  }

  /** Draining a backlog, whatever enqueues led to it, back-dated ones included: when one worker has emptied
      the queue, whatever failed and crashed on the way, the order of its claims is the one in which the
      active view listed the queued rows at the start. */
  lemma DrainFollowsView(q: Queue, steps: seq<Step>, q': Queue, w: int)
    requires Inv(q) && Unlocked(q) && q.workers.Keys == {w}
    requires Reaches(q, steps, q') && AllKeepRows(steps) && QueuedIds(q') == {}
    ensures q.claimed <= q'.claimed && IsView(q, QueuedIds(q), q'.claimed[|q.claimed|..])
  {
    ClaimsConserve(q, steps, q');
    BacklogInOrder(q, steps, q', w);
    SortedIsView(q, q'.planned, q'.claimed[|q.claimed|..]);
  }

  lemma {:induction false} ViewsAgreeUpTo(q: Queue, ids: set<int>, v: seq<int>, u: seq<int>, k: nat)
    requires IsView(q, ids, v) && IsView(q, ids, u) && k <= |v|
    requires forall a, b | a in v && b in v && a != b :: q.rows[a].scheduledFor != q.rows[b].scheduledFor
    ensures k <= |u| && v[..k] == u[..k]
  {
    if k > 0 {
      var n := k - 1;
      ViewsAgreeUpTo(q, ids, v, u, n);
      assert forall m | 0 <= m < n :: v[m] == v[..n][m] == u[m];
      assert forall id :: id in v <==> id in u;
      assert v[n] in v && v[n] in u;
      var j :| 0 <= j < |u| && u[j] == v[n];
      assert n <= j && u[n] in u && u[n] in v;
      var i :| 0 <= i < |v| && v[i] == u[n];
      assert n <= i;
    }
  }

  /** Where no two scheduled times are equal the view is unique. */
  lemma {:induction false} ViewsAgree(q: Queue, ids: set<int>, v: seq<int>, u: seq<int>)
    requires IsView(q, ids, v) && IsView(q, ids, u)
    requires forall a, b | a in v && b in v && a != b :: q.rows[a].scheduledFor != q.rows[b].scheduledFor
    ensures v == u
  {
    ViewsAgreeUpTo(q, ids, v, u, |v|);
    ViewsAgreeUpTo(q, ids, u, v, |u|);
  }

  /** A row that leads keeps leading over a new row exactly when that is not scheduled before it; for a
      default request that is the clock read before the commit. */
  lemma InsertKeepsLead(q: Queue, r: int, id: int, c: int)
    requires Inv(q) && Enabled(q, Insert(r, id)) && Leads(q, c)
    ensures Leads(After(q, Insert(r, id)), c) <==> q.requests[r].time >= q.planned[c]
  {
    assert IsQueued(After(q, Insert(r, id)), id);
  }

  /** Nothing fails on the way. */
  ghost predicate Undisturbed(steps: seq<Step>) {
    NoneLost(steps) && forall s | s in steps :: !s.Abandon? && !s.SelectFails? && !s.CommitFails? && !s.Restart? && !s.Delete?
  }

  /** No request asks for a time of its own. */
  ghost predicate AllDefault(steps: seq<Step>) {
    forall s | s in steps && s.Ask? :: s.at.None?
  }

  lemma UndisturbedOn(steps: seq<Step>, more: seq<Step>)
    requires Undisturbed(steps) && Undisturbed(more)
    ensures Undisturbed(steps + more)
    ensures AllDefault(steps) && AllDefault(more) ==> AllDefault(steps + more)
  {
  }

  /** A worker claims the only row there is. */
  lemma OnlyRowIsClaimed(q: Queue, steps: seq<Step>, q1: Queue, w: int, id: int) returns (more: seq<Step>)
    requires Initial(q) && Reaches(q, steps, q1) && w in q1.workers && q1.workers[w].Idle?
    requires q1.rows.Keys == {id} && Ready(q1, id, q1.clock)
    ensures Undisturbed(more) && AllDefault(more)
    ensures Reaches(q, steps + more, AfterClaim(q1, w, id))
  {
    InvAlways(q, steps, q1);
    var only := ReadyRowCanBeClaimed(q1, w, id);
    assert only in q1.rows.Keys;
    more := [Poll(w), Select(w, id), Commit(w, q1.clock)];
    ReachesOn(q, steps, q1, more, AfterClaim(q1, w, id));
  }

  /** A queued row is listed above the running one. */
  ghost predicate ShownAboveRunning(q: Queue, running: int, queued: int) {
    && running in q.rows && q.rows[running].status.ExecutionRunning?
    && IsQueued(q, queued) && q.rows[queued].scheduledFor < q.rows[running].scheduledFor
  }

  lemma InsertedAbove(q: Queue, r: int, id: int, running: int)
    requires Enabled(q, Insert(r, id)) && running in q.rows && q.rows[running].status.ExecutionRunning?
    requires id != running && q.requests[r].time < q.rows[running].scheduledFor
    ensures ShownAboveRunning(After(q, Insert(r, id)), running, id)
  {
  }

  const START := Queue(map[], map[0 := Idle], map[], 10, map[], [], [])

  /** The state with one row queued for time `time` under id 1. */
  function OneRow(time: int, requests: map<int, Request>): Queue {
    Queue(map[1 := Execution(7, Queued, time, None, None)], map[0 := Idle], requests, time, map[1 := time], [], [])
  }

  lemma FirstRequestIsClaimed() returns (steps: seq<Step>)
    ensures Reaches(START, steps, AfterClaim(OneRow(10, map[]), 0, 1)) && Undisturbed(steps)
  {
    steps := [Ask(1, 7, None), Insert(1, 1)];
    var q1 := START.(requests := map[1 := Request(7, 10)]);
    assert q1.requests - {1} == map[];
    ReachesTwo(START, steps[0], steps[1]);
    var claim := OnlyRowIsClaimed(START, steps, OneRow(10, map[]), 0, 1);
    UndisturbedOn(steps, claim);
    steps := steps + claim;
  }

  /** The running item is not always first in the active view: a back-dated request is shown above it,
      with one worker and nothing failing. */
  lemma BackdatedRowOvertakesView() returns (steps: seq<Step>, q: Queue, running: int, queued: int)
    ensures Reaches(START, steps, q) && Undisturbed(steps) && ShownAboveRunning(q, running, queued)
  {
    steps := FirstRequestIsClaimed();
    var q2 := AfterClaim(OneRow(10, map[]), 0, 1);
    var ask, insert := Ask(2, 7, Some(3)), Insert(2, 2);
    ReachesOneMore(START, steps, q2, ask);
    UndisturbedOn(steps, [ask]);
    steps := steps + [ask];
    ReachesOneMore(START, steps, After(q2, ask), insert);
    UndisturbedOn(steps, [insert]);
    InsertedAbove(After(q2, ask), 2, 2, 1);
    return steps + [insert], After(After(q2, ask), insert), 1, 2;
  }

  /** Call 1 reads the clock at 10; call 2 reads it at 11 and commits first. */
  lemma LaterRequestCommitsFirst() returns (steps: seq<Step>)
    ensures Reaches(START, steps, OneRow(11, map[1 := Request(7, 10)])) && Undisturbed(steps) && AllDefault(steps)
  {
    var q1 := START.(requests := map[1 := Request(7, 10)]);
    var q3 := q1.(clock := 11, requests := map[1 := Request(7, 10), 2 := Request(7, 11)]);
    var late := [Tick(11), Ask(2, 7, None), Insert(2, 1)];
    assert q3.requests - {2} == q1.requests;
    assert After(q3, late[2]) == OneRow(11, q1.requests);
    ReachesThree(q1, late[0], late[1], late[2]);
    steps := [Ask(1, 7, None)] + late;
    assert steps[1..] == late;
  }

  /** Nor is it without any back-dating: of two requests for an immediate run the first to read the clock
      may be the last to commit, and is shown above the other one, which is running. */
  lemma ConcurrentRequestsOvertakeView() returns (steps: seq<Step>, q: Queue, running: int, queued: int)
    ensures Reaches(START, steps, q) && Undisturbed(steps) && AllDefault(steps) && ShownAboveRunning(q, running, queued)
  {
    var first := LaterRequestCommitsFirst();
    var q1 := OneRow(11, map[1 := Request(7, 10)]);
    var claim := OnlyRowIsClaimed(START, first, q1, 0, 1);
    var q2 := AfterClaim(q1, 0, 1);
    ReachesOneMore(START, first + claim, q2, Insert(1, 2));
    InsertedAbove(q2, 1, 2, 1);
    UndisturbedOn(first, claim);
    UndisturbedOn(first + claim, [Insert(1, 2)]);
    return first + claim + [Insert(1, 2)], After(q2, Insert(1, 2)), 1, 2;
  }

  // ---------------------------------------------------------------------------
  // One worker's code
  // ---------------------------------------------------------------------------

  /** The claiming query's condition on a row of the table. */
  predicate Eligible(rows: map<int, Execution>, locked: set<int>, now: int, id: int)
    requires id in rows
  {
    rows[id].status.Queued? && rows[id].scheduledFor <= now && id !in locked
  }

  /** A possible answer of `ORDER BY scheduled_for LIMIT 1`. */
  predicate First(rows: map<int, Execution>, locked: set<int>, now: int, id: int)
    requires id in rows
  {
    && Eligible(rows, locked, now, id)
    && forall x | x in rows && Eligible(rows, locked, now, x) :: rows[id].scheduledFor <= rows[x].scheduledFor
  }

  /** If any row is eligible, one is first. */
  lemma SomeRowIsFirst(rows: map<int, Execution>, locked: set<int>, now: int)
    ensures (exists id :: id in rows && Eligible(rows, locked, now, id))
            ==> exists id :: id in rows && First(rows, locked, now, id)
  {
    var ids := set x | x in rows && Eligible(rows, locked, now, x);
    assert forall x | x in rows && Eligible(rows, locked, now, x) :: x in ids;
    if ids != {} {
      var id := Earliest(rows, ids);
      assert id in rows && First(rows, locked, now, id);
    }
  }

  lemma PollKeepsReady(q: Queue, w: int, time: int)
    requires w in q.workers && q.workers[w].Idle? && time >= q.clock
    ensures Enabled(q, Poll(w)) && Enabled(After(q, Poll(w)), Tick(time))
    ensures forall x :: Locked(After(After(q, Poll(w)), Tick(time)), x) <==> Locked(q, x)
    ensures forall x, now :: Ready(After(After(q, Poll(w)), Tick(time)), x, now) <==> Ready(q, x, now)
  {
    LockedUnchanged(q, w, Polling(q.clock));
    var q' := After(After(q, Poll(w)), Tick(time));
    assert q'.workers == Moved(q, w, Polling(q.clock)).workers;
    forall x ensures Locked(q', x) <==> Locked(q, x) {
      assert Locked(q', x) <==> Locked(Moved(q, w, Polling(q.clock)), x);
    }
  }

  /** Every action the table lists for the routine can be performed. */
  ghost predicate AllPerformable(lib: Library, table: Actions.Rows, rid: int)
    requires Actions.WellOrdered(table)
  {
    forall a | a in RowsInOrder(table, rid) :: CanPerform(lib, a)
  }

  /** Row `e` after a run of its routine that ended at `time`: untouched but for its status and, when the
      terminal write takes effect, its end; completed exactly when the actions were loaded and none raised. */
  ghost predicate RowEndsRight(
    lib: Library, table: Actions.Rows, e: Execution, loadFails: bool, w: Writes, time: int, e': Execution)
    requires Actions.WellOrdered(table)
  {
    && e'.routineId == e.routineId && e'.scheduledFor == e.scheduledFor && e'.startedAt == e.startedAt
    && e'.completedAt == (if w.outcome then Some(time) else e.completedAt)
    && e'.status == if !w.outcome then ExecutionRunning
                    else if !loadFails && AllPerformable(lib, table, e.routineId) then ExecutionCompleted else ExecutionFailed
  }

  lemma RunEndsRow(lib: Library, table: Actions.Rows, e: Execution, loadFails: bool, w: Writes, time: int)
    requires Actions.WellOrdered(table) && e.status.ExecutionRunning?
    ensures var outcome := FinalLog(lib, table, e.routineId, loadFails, w).outcome;
            RowEndsRight(lib, table, e, loadFails, w, time,
                         if outcome.ExecutionRunning? then e else e.(status := outcome, completedAt := Some(time)))
  {
    FinalLogEndsRight(lib, table, e.routineId, loadFails, w);
    var actions := RowsInOrder(table, e.routineId);
    assert forall i | 0 <= i < |actions| :: actions[i] in actions;
  }

  /** A run that neither adds nor deletes a row. */
  ghost predicate Ran(q: Queue, steps: seq<Step>, q': Queue) {
    Reaches(q, steps, q') && AllKeepRows(steps)
  }

  lemma RanOn(q: Queue, steps: seq<Step>, q': Queue, more: seq<Step>, q'': Queue)
    requires Ran(q, steps, q') && Ran(q', more, q'')
    ensures Ran(q, steps + more, q'')
  {
    ReachesOn(q, steps, q', more, q'');
  }

  lemma RanOneMore(q: Queue, steps: seq<Step>, q': Queue, s: Step)
    requires Ran(q, steps, q') && Enabled(q', s) && KeepsRows(s)
    ensures Ran(q, steps + [s], After(q', s))
  {
    ReachesOneMore(q, steps, q', s);
  }

  lemma RanTwo(q: Queue, s1: Step, s2: Step)
    requires Enabled(q, s1) && Enabled(After(q, s1), s2) && KeepsRows(s1) && KeepsRows(s2)
    ensures Ran(q, [s1, s2], After(After(q, s1), s2))
  {
    ReachesTwo(q, s1, s2);
  }

  /** Every queued row is due by `last`. */
  ghost predicate QueuedBy(q: Queue, last: int) {
    forall id | IsQueued(q, id) :: q.rows[id].scheduledFor <= last
  }

  lemma LastDue(rows: map<int, Execution>, ids: set<int>) returns (last: int)
    requires forall id | id in ids :: id in rows
    ensures forall id | id in ids :: rows[id].scheduledFor <= last
    decreases |ids|
  {
    last := 0;
    if ids != {} {
      var id := Pick(ids);
      last := LastDue(rows, ids - {id});
      last := if rows[id].scheduledFor > last then rows[id].scheduledFor else last;
    }
  }

  lemma OneLess(q: Queue, q': Queue, id: int, last: int)
    requires IsQueued(q, id) && !IsQueued(q', id) && q'.rows.Keys == q.rows.Keys
    requires forall x | x in q.rows && x != id :: q'.rows[x] == q.rows[x]
    ensures |QueuedIds(q')| < |QueuedIds(q)|
    ensures QueuedBy(q, last) ==> QueuedBy(q', last)
  {
    assert id in QueuedIds(q) && id !in QueuedIds(q');
    forall x | x in QueuedIds(q') ensures x in QueuedIds(q) {
      assert x in q.rows;
    }
    ProperSubsetIsSmaller(QueuedIds(q'), QueuedIds(q));
  }

  /** When nothing is ready although something is queued, the last scheduled time is still to come. */
  lemma NothingIsDue(q: Queue, last: int)
    requires QueuedIds(q) != {} && (forall x :: !Ready(q, x, q.clock)) && (forall id :: !Locked(q, id))
    requires QueuedBy(q, last)
    ensures q.clock < last
  {
    var id := Pick(QueuedIds(q));
    assert IsQueued(q, id) && !Ready(q, id, q.clock);
  }

  /** What becomes of the commit of a new row: it takes effect, it does not, or it does and the call still
      raises, for one when the refresh fails. */
  datatype InsertFault = Inserted | Refused | InsertedUnseen

  /** What goes wrong inside one `_claim_next`. */
  datatype ClaimFault = NoFault | QueryFails | CommitRaises | CommitLosesAnswer

  /** The table as one worker sees it. The other workers and the histories are ghosts. */
  class QueueWorker {
    const me: int
    const lib: Library
    var rows: map<int, Execution>
    var clock: int
    var worker: Worker
    ghost var others: map<int, Worker>
    ghost var requests: map<int, Request>
    ghost var planned: map<int, int>
    ghost var claimed: seq<int>
    ghost var handed: seq<int>

    ghost function Machine(): Queue
      reads this
    {
      Queue(rows, others[me := worker], requests, clock, planned, claimed, handed)
    }

    constructor (me: int, lib: Library, rows: map<int, Execution>, clock: int, ghost q: Queue)
      requires q.rows == rows && q.clock == clock && me in q.workers && q.workers[me].Idle?
      ensures this.me == me && this.lib == lib && Machine() == q && worker == Idle
    {
      this.me, this.lib, this.rows, this.clock, this.worker := me, lib, rows, clock, Idle;
      others, requests, planned, claimed, handed := q.workers, q.requests, q.planned, q.claimed, q.handed;
      new;
      assert others[me := worker] == q.workers;
    }

    /** Time passes. */
    method Wait(delay: nat)
      modifies this`clock
      ensures clock == old(clock) + delay
      ensures Enabled(old(Machine()), Tick(clock)) && Machine() == After(old(Machine()), Tick(clock))
    {
      clock := clock + delay;
    }

    /** Line 337 or 349: the time of the row is chosen. `r` names the call. */
    method ChooseTime(ghost r: int, routineId: int, scheduledFor: Option<int>) returns (time: int)
      requires r !in requests
      modifies this`requests
      ensures requests == old(requests)[r := Request(routineId, time)]
      ensures Machine() == After(old(Machine()), Ask(r, routineId, scheduledFor))
    {
      time := if scheduledFor.Some? then scheduledFor.value else clock;
      requests := requests[r := Request(routineId, time)];
    }

    /** Line 340 or 352: the row is committed under the key `id` the database assigns. */
    method InsertRow(ghost r: int, id: int, routineId: int, time: int)
      requires r in requests && requests[r] == Request(routineId, time) && id !in planned
      modifies this`rows, this`planned, this`requests
      ensures Machine() == After(old(Machine()), Insert(r, id))
    {
      rows := rows[id := Execution(routineId, Queued, time, None, None)];
      planned := planned[id := time];
      requests := requests - {r};
    }

    /** The commit is refused, and the call ends without a row. */
    method AbandonRow(ghost r: int)
      requires r in requests
      modifies this`requests
      ensures Machine() == After(old(Machine()), Abandon(r))
    {
      requests := requests - {r};
    }

    /** `enqueue_routine_run`. Time passes between its two halves, and in the machine anything else may
        happen there. Not every call that raises has left no row. */
    method EnqueueRoutineRun(
      ghost r: int, id: int, routineId: int, scheduledFor: Option<int>, delay: nat, fault: InsertFault)
      returns (raised: bool, ghost steps: seq<Step>)
      requires r !in requests && id !in planned
      modifies this`rows, this`planned, this`requests, this`clock
      ensures steps == [Ask(r, routineId, scheduledFor), Tick(clock), if fault.Refused? then Abandon(r) else Insert(r, id)]
      ensures Reaches(old(Machine()), steps, Machine())
      ensures raised <==> !fault.Inserted?
      ensures rows ==
              if fault.Refused? then old(rows)
              else old(rows)[id :=
                     Execution(routineId, Queued, if scheduledFor.Some? then scheduledFor.value else old(clock), None, None)]
    {
      ghost var q := Machine();
      var time := ChooseTime(r, routineId, scheduledFor);
      Wait(delay);
      if fault.Refused? {
        AbandonRow(r);
      } else {
        InsertRow(r, id, routineId, time);
      }
      raised := !fault.Inserted?;
      steps := [Ask(r, routineId, scheduledFor), Tick(clock), if fault.Refused? then Abandon(r) else Insert(r, id)];
      ReachesThree(q, steps[0], steps[1], steps[2]);
    }

    /** Line 279. */
    method ReadClock() returns (now: int)
      requires worker.Idle?
      modifies this`worker
      ensures now == clock && worker == Polling(now)
      ensures Enabled(old(Machine()), Poll(me)) && Machine() == After(old(Machine()), Poll(me))
    {
      now := clock;
      worker := Polling(now);
      assert others[me := worker] == old(others[me := worker])[me := worker];
    }

    /** The claiming query, lines 282 to 292. */
    method QueryNext(locked: set<int>, now: int) returns (result: Option<int>)
      requires forall id :: id in locked <==> Locked(Machine(), id)
      ensures result.None? ==> forall x :: !Ready(Machine(), x, now)
      ensures result.Some? ==>
                Ready(Machine(), result.value, now)
                && forall x | Ready(Machine(), x, now) :: rows[result.value].scheduledFor <= rows[x].scheduledFor
    {
      assert forall x :: Ready(Machine(), x, now) <==> x in rows && Eligible(rows, locked, now, x);
      SomeRowIsFirst(rows, locked, now);
      if id :| id in rows && First(rows, locked, now, id) {
        return Some(id);
      }
      return None;
    }

    /** The selected row stays locked until the transaction ends. */
    method Hold(id: int, now: int)
      requires worker == Polling(now) && Enabled(Machine(), Select(me, id))
      modifies this`worker
      ensures worker == Holding(id, now) && Machine() == After(old(Machine()), Select(me, id))
    {
      worker := Holding(id, now);
      assert others[me := worker] == old(others[me := worker])[me := worker];
    }

    /** The worker goes back to sleep: nothing found, or an exception. */
    method GiveUp(ghost step: Step)
      requires step in {SelectNone(me), SelectFails(me), CommitFails(me)} && Enabled(Machine(), step)
      modifies this`worker
      ensures worker == Idle && Machine() == After(old(Machine()), step)
    {
      worker := Idle;
      assert others[me := worker] == old(others[me := worker])[me := worker];
    }

    /** Lines 295 to 302. With `answered` false the commit took effect but raised. */
    method CommitClaim(id: int, now: int, answered: bool)
      requires worker == Holding(id, now) && now <= clock && id in rows
      modifies this
      ensures clock == old(clock) && others == old(others)
      ensures worker == if answered then Executing(id) else Idle
      ensures handed == if answered then old(handed) + [id] else old(handed)
      ensures var step := if answered then Commit(me, clock) else CommitUnseen(me, clock);
              Enabled(old(Machine()), step) && Machine() == After(old(Machine()), step)
    {
      rows := rows[id := rows[id].(status := ExecutionRunning, startedAt := Some(clock))];
      claimed := claimed + [id];
      if answered {
        worker := Executing(id);
        handed := handed + [id];
      } else {
        worker := Idle;
      }
      assert others[me := worker] == old(others[me := worker])[me := worker];
    }

    /** `_claim_next` up to the answer of the query; the selected row is held from then on. */
    method SelectNext(locked: set<int>, fails: bool, delay: nat)
      returns (next: Option<int>, now: int, ghost steps: seq<Step>)
      requires worker.Idle? && forall id :: id in locked <==> Locked(Machine(), id)
      modifies this`worker, this`clock
      ensures Ran(old(Machine()), steps, Machine())
      ensures now == old(clock) && clock == now + delay
      ensures worker == if next.Some? then Holding(next.value, now) else Idle
      ensures next.Some? ==>
                Ready(old(Machine()), next.value, now)
                && forall x | Ready(old(Machine()), x, now) :: rows[next.value].scheduledFor <= rows[x].scheduledFor
      ensures fails ==> next.None?
      ensures next.None? && !fails ==> forall x :: !Ready(old(Machine()), x, now)
    {
      ghost var q0 := Machine();
      now := ReadClock();
      Wait(delay);
      ghost var q2 := Machine();
      PollKeepsReady(q0, me, clock);
      RanTwo(q0, Poll(me), Tick(clock));
      steps := [Poll(me), Tick(clock)];
      if fails {
        RanOneMore(q0, steps, q2, SelectFails(me));
        GiveUp(SelectFails(me));
        return None, now, steps + [SelectFails(me)];
      }
      next := QueryNext(locked, now);
      assert Machine() == q2 && q2.workers[me] == Polling(now);
      if next.None? {
        RanOneMore(q0, steps, q2, SelectNone(me));
        GiveUp(SelectNone(me));
        return None, now, steps + [SelectNone(me)];
      }
      RanOneMore(q0, steps, q2, Select(me, next.value));
      Hold(next.value, now);
      steps := steps + [Select(me, next.value)];
    }

    /** `_claim_next`. `locked` are the rows the other workers hold; `delay` is the time that passes between
        the two readings of the clock. */
    method ClaimNext(locked: set<int>, fault: ClaimFault, delay: nat) returns (result: Option<int>, ghost steps: seq<Step>)
      requires worker.Idle? && forall id :: id in locked <==> Locked(Machine(), id)
      modifies this
      ensures Ran(old(Machine()), steps, Machine())
      ensures others == old(others) && clock == old(clock) + delay
      ensures result.None? ==> worker == Idle && handed == old(handed)
      ensures result.None? && !fault.CommitLosesAnswer? ==> rows == old(rows)
      ensures result.Some? ==>
                && worker == Executing(result.value) && handed == old(handed) + [result.value]
                && Ready(old(Machine()), result.value, old(clock))
                && (forall x | Ready(old(Machine()), x, old(clock)) ::
                      old(rows)[result.value].scheduledFor <= old(rows)[x].scheduledFor)
      ensures result.Some? ==>
                && result.value in old(rows) && result.value in rows
                && rows == old(rows)[result.value := rows[result.value]]
                && rows[result.value] ==
                   old(rows)[result.value].(status := ExecutionRunning, startedAt := Some(old(clock) + delay))
      ensures fault.NoFault? ==> (result.None? <==> forall x :: !Ready(old(Machine()), x, old(clock)))
      ensures !fault.NoFault? ==> result.None?
    {
      ghost var q0 := Machine();
      var now;
      result, now, steps := SelectNext(locked, fault.QueryFails?, delay);
      if result.None? {
        return;
      }
      ghost var q1 := Machine();
      var id := result.value;
      if fault.CommitRaises? {
        RanOneMore(q0, steps, q1, CommitFails(me));
        GiveUp(CommitFails(me));
        return None, steps + [CommitFails(me)];
      }
      CommitClaim(id, now, !fault.CommitLosesAnswer?);
      ghost var step := if fault.CommitLosesAnswer? then CommitUnseen(me, clock) else Commit(me, clock);
      RanOneMore(q0, steps, q1, step);
      steps := steps + [step];
      if fault.CommitLosesAnswer? {
        result := None;
      }
    }

    /** The end of `run`, back in the poll loop. */
    method FinishRun(id: int, outcome: ExecutionStatus, kept: bool)
      requires worker == Executing(id) && (outcome.ExecutionCompleted? || outcome.ExecutionFailed?)
      modifies this`worker, this`rows
      ensures worker == Idle && rows == if kept then Finished(old(rows), id, outcome, clock) else old(rows)
      ensures Enabled(old(Machine()), Finish(me, outcome, kept))
      ensures Machine() == After(old(Machine()), Finish(me, outcome, kept))
    {
      worker := Idle;
      if kept {
        rows := Finished(rows, id, outcome, clock);
      }
      assert others[me := worker] == old(others[me := worker])[me := worker];
    }

    /** What the log says in the end of a run of routine `rid`. */
    method Execute(table: Actions.Rows, rid: int, loadFails: bool, w: Writes) returns (outcome: ExecutionStatus)
      requires Actions.WellOrdered(table)
      ensures outcome == FinalLog(lib, table, rid, loadFails, w).outcome && !outcome.Queued?
    {
      var executor := new RoutineExecutor(lib);
      executor.Run(table, rid, loadFails, w);
      return executor.outcome;
    }

    /** `self._executor.run(...)` for a claimed row: its routine is loaded from `table` and run. */
    method RunClaimed(id: int, table: Actions.Rows, loadFails: bool, w: Writes, runTime: nat)
      returns (ghost steps: seq<Step>)
      requires Actions.WellOrdered(table)
      requires worker == Executing(id) && id in rows && rows[id].status.ExecutionRunning?
      modifies this`worker, this`rows, this`clock
      ensures Ran(old(Machine()), steps, Machine())
      ensures worker == Idle && clock == old(clock) + runTime
      ensures id in rows && rows == old(rows)[id := rows[id]] && !rows[id].status.Queued?
      ensures RowEndsRight(lib, table, old(rows)[id], loadFails, w, clock, rows[id])
    {
      ghost var q := Machine();
      ghost var before := rows[id];
      var logged := Execute(table, rows[id].routineId, loadFails, w);
      Wait(runTime);
      // A run that still reads running has lost its terminal write.
      var kept := !logged.ExecutionRunning?;
      var outcome := if kept then logged else ExecutionFailed;
      FinishRun(id, outcome, kept);
      assert rows[id] == if logged.ExecutionRunning? then before else before.(status := logged, completedAt := Some(clock));
      RunEndsRow(lib, table, before, loadFails, w, clock);
      steps := [Tick(clock), Finish(me, outcome, kept)];
      RanTwo(q, steps[0], steps[1]);
    }

    /** One turn of `_poll_loop`: claim, and run what was claimed. Per execution, `loadFails` tells whether
        its actions cannot be loaded and `writes` what becomes of its log writes. The row then says what the
        run of its routine came to. */
    method PollOnce(
      locked: set<int>, fault: ClaimFault, delay: nat, table: Actions.Rows, loadFails: int -> bool,
      writes: int -> Writes, runTime: nat)
      returns (result: Option<int>, ghost steps: seq<Step>)
      requires Actions.WellOrdered(table)
      requires worker.Idle? && forall id :: id in locked <==> Locked(Machine(), id)
      modifies this
      ensures Ran(old(Machine()), steps, Machine())
      ensures worker == Idle && others == old(others) && clock >= old(clock)
      ensures fault.NoFault? ==> (result.None? <==> forall x :: !Ready(old(Machine()), x, old(clock)))
      ensures !fault.NoFault? ==> result.None?
      ensures result.None? ==> handed == old(handed)
      ensures result.None? && !fault.CommitLosesAnswer? ==> rows == old(rows)
      ensures result.Some? ==>
                var id := result.value;
                && handed == old(handed) + [id] && rows.Keys == old(rows).Keys
                && id in old(rows) && old(rows)[id].status.Queued?
                && rows == old(rows)[id := rows[id]] && !rows[id].status.Queued?
                && RowEndsRight(lib, table, old(rows)[id].(status := ExecutionRunning, startedAt := Some(old(clock) + delay)),
                                loadFails(id), writes(id), clock, rows[id])
    {
      ghost var start := Machine();
      result, steps := ClaimNext(locked, fault, delay);
      if result.None? {
        return;
      }
      var id := result.value;
      ghost var q := Machine();
      ghost var more := RunClaimed(id, table, loadFails(id), writes(id), runTime);
      assert rows == start.rows[id := rows[id]] by {
        assert q.rows == start.rows[id := q.rows[id]] && rows == q.rows[id := rows[id]];
      }
      RanOn(start, steps, q, more, Machine());
      steps := steps + more;
    }

    /** One turn of `_poll_loop` with its nap, when the claim meets no failure and no other worker holds a
        lock: a queued row is claimed and run, or time has passed and one was still to come. */
    method PollOrNap(
      table: Actions.Rows, loadFails: int -> bool, writes: int -> Writes, delay: nat, runTime: nat, nap: nat,
      ghost last: int)
      returns (ghost steps: seq<Step>)
      requires Unlocked(Machine()) && worker.Idle?
      requires Actions.WellOrdered(table) && QueuedBy(Machine(), last) && QueuedIds(Machine()) != {}
      modifies this
      ensures Ran(old(Machine()), steps, Machine())
      ensures worker == Idle && others == old(others) && Unlocked(Machine()) && QueuedBy(Machine(), last)
      ensures |QueuedIds(Machine())| < |old(QueuedIds(Machine()))|
              || (QueuedIds(Machine()) == old(QueuedIds(Machine())) && old(clock) < last && clock >= old(clock) + nap)
    {
      ghost var q := Machine();
      var result;
      result, steps := PollOnce({}, NoFault, delay, table, loadFails, writes, runTime);
      if result.None? {
        NothingIsDue(q, last);
        RanOneMore(q, steps, Machine(), Tick(clock + nap));
        Wait(nap);
        steps := steps + [Tick(clock)];
      } else {
        OneLess(q, Machine(), result.value, last);
      }
    }

    /** `_poll_loop` while nobody enqueues, no claim fails, and the other workers, if any, are dead, asleep or
        busy, as after a restart: turns with claims, and naps when nothing is due, until nothing is queued. It
        ends for every backlog, whatever log writes the runs lose, and has claimed each queued row once; without
        other workers in the order in which the active view listed the backlog. */
    method PollUntilEmpty(
      table: Actions.Rows, loadFails: int -> bool, writes: int -> Writes, delay: nat -> nat, runTime: nat -> nat,
      nap: nat)
      returns (ghost steps: seq<Step>)
      requires Inv(Machine()) && Unlocked(Machine()) && worker.Idle?
      requires Actions.WellOrdered(table) && nap > 0
      modifies this
      ensures Ran(old(Machine()), steps, Machine())
      ensures QueuedIds(Machine()) == {} && worker == Idle
      ensures old(claimed) <= claimed && Actions.Distinct(claimed[|old(claimed)|..])
      ensures forall id :: id in QueuedIds(old(Machine())) <==> id in claimed[|old(claimed)|..]
      ensures old(Machine()).workers.Keys == {me} ==>
                IsView(old(Machine()), QueuedIds(old(Machine())), claimed[|old(claimed)|..])
    {
      ghost var start := Machine();
      ghost var last := LastDue(rows, QueuedIds(start));
      assert QueuedBy(start, last) by {
        assert forall id | IsQueued(start, id) :: id in QueuedIds(start);
      }
      steps := [];
      var turn: nat := 0;
      while exists id :: id in rows && rows[id].status.Queued?
        invariant worker == Idle && others == old(others) && Unlocked(Machine()) && QueuedBy(Machine(), last)
        invariant Ran(start, steps, Machine())
        decreases |QueuedIds(Machine())|, last - clock
      {
        ghost var q := Machine();
        ghost var queued: int :| queued in rows && rows[queued].status.Queued?;
        assert queued in QueuedIds(q);
        ghost var more := PollOrNap(table, loadFails, writes, delay(turn), runTime(turn), nap, last);
        RanOn(start, steps, q, more, Machine());
        steps := steps + more;
        turn := turn + 1;
      }
      assert QueuedIds(Machine()) == {};
      ClaimsConserve(start, steps, Machine());
      if start.workers.Keys == {me} {
        DrainFollowsView(start, steps, Machine(), me);
      }
    }
  }
}
