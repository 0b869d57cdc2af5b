/** From the list on the screen to the run: the editor, the position table and the executor together. */
module EndToEnd {
  import opened Domain
  import opened Actions
  import opened Executor
  import Form = RoutineForm

  /** A routine saved through the editor runs what the editor showed: the executor loads the shown actions
      in the shown order, and without lost writes it performs all of them and completes, exactly when no
      sleep is beyond the limit. */
  lemma SavedRoutineRunsAsShown(
    lib: Library, local: seq<Form.StagedAction>, ids: seq<int>, rows: Rows, rid: int, w: Writes)
    requires WellOrdered(rows) && ConfigsValid(lib, rows) && NoLoss(w)
    requires Form.ShownOnServer(local, ids, rows, rid)
    ensures var actions := RowsInOrder(rows, rid);
            && |actions| == |local|
            && (forall i | 0 <= i < |local| ::
                  actions[i].actionType == local[i].actionType && actions[i].config == local[i].config)
            && var log := LogAt(|actions|, FirstRaise(lib, actions), w, Over);
               (log.outcome == ExecutionCompleted && log.performed == Upto(|local|)) <==> SleepsFit(lib, actions)
  {
    OrderIs(rows, rid, ids);
    var actions := RowsInOrder(rows, rid);
    forall i | 0 <= i < |local|
      ensures actions[i].actionType == local[i].actionType && actions[i].config == local[i].config
    {
      assert Form.Holds(rows, rid, ids[i], local[i]);
    }
    StoredRoutineCompletes(lib, rows, rid, w);
  }

  /** Whatever log writes are lost and whenever the worker dies: every log a run of a saved routine goes
      through says completed only of shown actions that were performed, in the shown order, and failed only
      of the first shown action that raises. */
  lemma SavedRoutineLogIsTruthful(
    lib: Library, local: seq<Form.StagedAction>, ids: seq<int>, rows: Rows, rid: int, w: Writes)
    requires WellOrdered(rows) && Form.ShownOnServer(local, ids, rows, rid)
    ensures var actions := RowsInOrder(rows, rid);
            && |actions| == |local|
            && (forall i | 0 <= i < |local| ::
                  actions[i].actionType == local[i].actionType && actions[i].config == local[i].config)
            && forall log | log in Trace(lib, actions, w) :: Truthful(lib, actions, log)
  {
    OrderIs(rows, rid, ids);
    var actions := RowsInOrder(rows, rid);
    forall i | 0 <= i < |local|
      ensures actions[i].actionType == local[i].actionType && actions[i].config == local[i].config
    {
      assert Form.Holds(rows, rid, ids[i], local[i]);
    }
    NeverOverstates(lib, actions, w);
  }
}
