/** backend/routine_services.py, actions half: an ordered list kept in an integer position column. */
module Actions {
  import opened Wrappers
  import opened Domain
  import opened Schemas

  datatype Action = Action(routineId: int, position: int, actionType: ActionType, config: JsonObject)

  /** The `actions` table, by primary key. */
  type Rows = map<int, Action>

  predicate Of(rows: Rows, rid: int, id: int) {
    id in rows && rows[id].routineId == rid
  }

  /** The positions of routine `rid` are 1, 2, ..., n without gap or repetition, and `s` holds the ids in
      that order. */
  ghost predicate Lists(rows: Rows, rid: int, s: seq<int>) {
    && (forall i | 0 <= i < |s| :: Of(rows, rid, s[i]) && rows[s[i]].position == i + 1)
    && (forall id | Of(rows, rid, id) :: 1 <= rows[id].position <= |s| && s[rows[id].position - 1] == id)
  }

  ghost predicate Ordered(rows: Rows, rid: int) {
    exists s :: Lists(rows, rid, s)
  }

  ghost predicate WellOrdered(rows: Rows) {
    forall rid :: Ordered(rows, rid)
  }

  /** The sequence a well-ordered table stands for. */
  ghost function Order(rows: Rows, rid: int): (s: seq<int>)
    requires WellOrdered(rows)
    ensures Lists(rows, rid, s)
  {
    assert Ordered(rows, rid);
    var s :| Lists(rows, rid, s);
    s
  }

  lemma OrderIs(rows: Rows, rid: int, s: seq<int>)
    requires WellOrdered(rows) && Lists(rows, rid, s)
    ensures Order(rows, rid) == s
  {
    var t := Order(rows, rid);
    assert |t| <= |s| by {
      if |t| > 0 { assert Of(rows, rid, t[|t| - 1]); }
    }
    assert |s| <= |t| by {
      if |s| > 0 { assert Of(rows, rid, s[|s| - 1]); }
    }
    forall i | 0 <= i < |s| ensures s[i] == t[i] {
      assert Of(rows, rid, s[i]);
    }
  }

  /** `UNIQUE (routine_id, position)`, checked at commit. */
  predicate UniquePositions(rows: Rows) {
    forall a, b | a in rows && b in rows && a != b ::
      rows[a].routineId != rows[b].routineId || rows[a].position != rows[b].position
  }

  lemma WellOrderedIsUnique(rows: Rows)
    requires WellOrdered(rows)
    ensures UniquePositions(rows)
  {
    forall a, b | a in rows && b in rows && a != b && rows[a].routineId == rows[b].routineId
      ensures rows[a].position != rows[b].position
    {
      var s := Order(rows, rows[a].routineId);
      assert Of(rows, rows[a].routineId, a) && Of(rows, rows[a].routineId, b);
    }
  }

  // ---------------------------------------------------------------------------
  // Sequence operations and the table operations that refine them
  // ---------------------------------------------------------------------------

  function InsertAt<T>(s: seq<T>, k: nat, x: T): seq<T>
    requires k <= |s|
  {
    s[..k] + [x] + s[k..]
  }

  function RemoveAt<T>(s: seq<T>, k: nat): seq<T>
    requires k < |s|
  {
    s[..k] + s[k + 1..]
  }

  function Swap<T>(s: seq<T>, i: nat, j: nat): seq<T>
    requires i < |s| && j < |s|
  {
    s[i := s[j]][j := s[i]]
  }

  /** `UPDATE actions SET position = position + delta WHERE routine_id = rid AND position >= from` */
  function Shifted(rows: Rows, rid: int, from: int, delta: int): Rows {
    map id | id in rows ::
      if rows[id].routineId == rid && rows[id].position >= from
      then rows[id].(position := rows[id].position + delta)
      else rows[id]
  }

  function Inserted(rows: Rows, id: int, a: Action): Rows {
    Shifted(rows, a.routineId, a.position, 1)[id := a]
  }

  function Deleted(rows: Rows, id: int): Rows
    requires id in rows
  {
    Shifted(rows - {id}, rows[id].routineId, rows[id].position + 1, -1)
  }

  function Swapped(rows: Rows, id: int, other: int): Rows
    requires id in rows && other in rows
  {
    rows[id := rows[id].(position := rows[other].position)][other := rows[other].(position := rows[id].position)]
  }

  /** One-based index of `id`. */
  function Place(ids: seq<int>, id: int): (k: int)
    requires id in ids
    ensures 1 <= k <= |ids| && ids[k - 1] == id
  {
    if ids[0] == id then 1 else 1 + Place(ids[1..], id)
  }

  function Reordered(rows: Rows, ids: seq<int>): Rows {
    map id | id in rows :: if id in ids then rows[id].(position := Place(ids, id)) else rows[id]
  }

  /** Rows outside routine `rid` are the same in both tables. */
  ghost predicate OthersUntouched(rows: Rows, rows': Rows, rid: int) {
    forall id | !Of(rows, rid, id) && !Of(rows', rid, id) ::
      (id in rows <==> id in rows') && (id in rows ==> rows[id] == rows'[id])
  }

  lemma OthersKeepOrder(rows: Rows, rows': Rows, rid: int, s': seq<int>)
    requires WellOrdered(rows) && OthersUntouched(rows, rows', rid) && Lists(rows', rid, s')
    requires forall id | id in rows && id in rows' :: rows[id].routineId == rows'[id].routineId
    requires forall id | id in rows && id !in rows' :: Of(rows, rid, id)
    ensures WellOrdered(rows')
    ensures Order(rows', rid) == s'
    ensures forall other | other != rid :: Order(rows', other) == Order(rows, other)
  {
    forall other | other != rid ensures Lists(rows', other, Order(rows, other)) {
      var s := Order(rows, other);
      assert forall id :: Of(rows, other, id) <==> Of(rows', other, id);
    }
    forall other ensures Ordered(rows', other) {
      if other == rid {
        assert Lists(rows', other, s');
      } else {
        assert Lists(rows', other, Order(rows, other));
      }
    }
    OrderIs(rows', rid, s');
    forall other | other != rid ensures Order(rows', other) == Order(rows, other) {
      OrderIs(rows', other, Order(rows, other));
    }
  }

  lemma InsertLists(rows: Rows, s: seq<int>, id: int, a: Action)
    requires Lists(rows, a.routineId, s) && id !in rows && 1 <= a.position <= |s| + 1
    ensures Lists(Inserted(rows, id, a), a.routineId, InsertAt(s, a.position - 1, id))
  {
    var rid, rows', s' := a.routineId, Inserted(rows, id, a), InsertAt(s, a.position - 1, id);
    forall x | Of(rows', rid, x) ensures 1 <= rows'[x].position <= |s'| && s'[rows'[x].position - 1] == x {
      assert x != id ==> Of(rows, rid, x);
    }
  }

  lemma DeleteLists(rows: Rows, rid: int, s: seq<int>, id: int)
    requires Lists(rows, rid, s) && Of(rows, rid, id)
    ensures Lists(Deleted(rows, id), rid, RemoveAt(s, rows[id].position - 1))
  {
    var rows', s' := Deleted(rows, id), RemoveAt(s, rows[id].position - 1);
    forall x | Of(rows', rid, x) ensures 1 <= rows'[x].position <= |s'| && s'[rows'[x].position - 1] == x {
      assert Of(rows, rid, x);
    }
  }

  /** Shifting the tail and writing the new row inserts its id at the requested place. */
  lemma InsertRefines(rows: Rows, id: int, a: Action)
    requires WellOrdered(rows) && id !in rows
    requires 1 <= a.position <= |Order(rows, a.routineId)| + 1
    ensures WellOrdered(Inserted(rows, id, a))
    ensures Order(Inserted(rows, id, a), a.routineId) == InsertAt(Order(rows, a.routineId), a.position - 1, id)
    ensures forall rid | rid != a.routineId :: Order(Inserted(rows, id, a), rid) == Order(rows, rid)
  {
    var s := Order(rows, a.routineId);
    InsertLists(rows, s, id, a);
    OthersKeepOrder(rows, Inserted(rows, id, a), a.routineId, InsertAt(s, a.position - 1, id));
  }

  lemma DeleteRefines(rows: Rows, id: int)
    requires WellOrdered(rows) && id in rows
    ensures WellOrdered(Deleted(rows, id))
    ensures var rid := rows[id].routineId;
            && Of(rows, rid, id)
            && Order(Deleted(rows, id), rid) == RemoveAt(Order(rows, rid), rows[id].position - 1)
    ensures forall rid | rid != rows[id].routineId :: Order(Deleted(rows, id), rid) == Order(rows, rid)
  {
    var rid := rows[id].routineId;
    var s := Order(rows, rid);
    assert Of(rows, rid, id);
    DeleteLists(rows, rid, s, id);
    OthersKeepOrder(rows, Deleted(rows, id), rid, RemoveAt(s, rows[id].position - 1));
  }

  lemma SwapLists(rows: Rows, rid: int, s: seq<int>, id: int, other: int)
    requires Lists(rows, rid, s) && Of(rows, rid, id) && Of(rows, rid, other) && id != other
    ensures Lists(Swapped(rows, id, other), rid, Swap(s, rows[id].position - 1, rows[other].position - 1))
  {
    var rows' := Swapped(rows, id, other);
    var s' := Swap(s, rows[id].position - 1, rows[other].position - 1);
    forall x | Of(rows', rid, x) ensures 1 <= rows'[x].position <= |s'| && s'[rows'[x].position - 1] == x {
      assert Of(rows, rid, x);
    }
  }

  lemma SwapRefines(rows: Rows, id: int, other: int)
    requires WellOrdered(rows) && id in rows && other in rows && id != other
    requires rows[id].routineId == rows[other].routineId
    ensures WellOrdered(Swapped(rows, id, other))
    ensures var rid := rows[id].routineId;
            && Of(rows, rid, id) && Of(rows, rid, other)
            && Order(Swapped(rows, id, other), rid)
               == Swap(Order(rows, rid), rows[id].position - 1, rows[other].position - 1)
    ensures forall rid | rid != rows[id].routineId :: Order(Swapped(rows, id, other), rid) == Order(rows, rid)
  {
    var rid := rows[id].routineId;
    var s := Order(rows, rid);
    assert Of(rows, rid, id) && Of(rows, rid, other);
    SwapLists(rows, rid, s, id, other);
    OthersKeepOrder(rows, Swapped(rows, id, other), rid, Swap(s, rows[id].position - 1, rows[other].position - 1));
  }

  // ---------------------------------------------------------------------------
  // Bulk reorder
  // ---------------------------------------------------------------------------

  predicate Distinct(s: seq<int>) {
    forall i, j | 0 <= i < j < |s| :: s[i] != s[j]
  }

  function Elements(s: seq<int>): set<int> {
    set x | x in s
  }

  lemma OneMoreElement(init: seq<int>, last: int)
    ensures Elements(init + [last]) == Elements(init) + {last}
    ensures Distinct(init + [last]) <==> Distinct(init) && last !in init
  {
    var s := init + [last];
    assert forall i | 0 <= i < |init| :: s[i] == init[i];
    assert s[|init|] == last;
    if last in init {
      var i :| 0 <= i < |init| && init[i] == last;
      assert s[i] == s[|init|];
    }
  }

  lemma {:induction false} ElementsOf(s: seq<int>)
    ensures |Elements(s)| <= |s|
    ensures |Elements(s)| == |s| <==> Distinct(s)
    ensures Distinct(s) ==> multiset(s) == multiset(Elements(s))
  {
    if s != [] {
      var init, last := s[..|s| - 1], s[|s| - 1];
      ElementsOf(init);
      assert s == init + [last];
      OneMoreElement(init, last);
      if last in init {
        assert Elements(s) == Elements(init);
      } else {
        assert |Elements(s)| == |Elements(init)| + 1;
      }
    }
  }

  /** The test of `reorder_actions`, set equality and equal length, is the permutation test. */
  lemma PermutationTest(ids: seq<int>, s: seq<int>)
    requires Distinct(s)
    ensures Elements(ids) == Elements(s) && |ids| == |s| <==> multiset(ids) == multiset(s)
  {
    ElementsOf(ids);
    ElementsOf(s);
    if multiset(ids) == multiset(s) {
      assert |multiset(ids)| == |ids| && |multiset(s)| == |s|;
      forall x ensures x in ids <==> x in s {
        assert x in ids <==> x in multiset(ids);
        assert x in s <==> x in multiset(s);
      }
    }
  }

  lemma ListIsDistinct(rows: Rows, rid: int, s: seq<int>)
    requires Lists(rows, rid, s)
    ensures Distinct(s)
  {
  }

  lemma ListMembers(rows: Rows, rid: int, s: seq<int>)
    requires Lists(rows, rid, s)
    ensures forall id :: id in s <==> Of(rows, rid, id)
    ensures (set id | id in rows && rows[id].routineId == rid) == Elements(s)
  {
    forall id | Of(rows, rid, id) ensures id in s {
      assert s[rows[id].position - 1] == id;
    }
    var ids := set id | id in rows && rows[id].routineId == rid;
    forall id ensures id in ids <==> id in Elements(s) {
      assert id in ids <==> Of(rows, rid, id);
      assert id in Elements(s) <==> id in s;
    }
  }

  lemma PlaceAt(ids: seq<int>, k: nat)
    requires Distinct(ids) && k < |ids|
    ensures Place(ids, ids[k]) == k + 1
  {
  }

  lemma ReorderRefines(rows: Rows, rid: int, ids: seq<int>)
    requires WellOrdered(rows) && multiset(ids) == multiset(Order(rows, rid))
    ensures WellOrdered(Reordered(rows, ids))
    ensures Order(Reordered(rows, ids), rid) == ids
    ensures forall other | other != rid :: Order(Reordered(rows, ids), other) == Order(rows, other)
    ensures Distinct(ids) && forall id :: id in ids <==> Of(rows, rid, id)
  {
    var s := Order(rows, rid);
    ListIsDistinct(rows, rid, s);
    PermutationTest(ids, s);
    ElementsOf(ids);
    ElementsOf(s);
    forall id ensures id in ids <==> Of(rows, rid, id) {
      assert id in ids <==> id in Elements(ids);
      assert id in s <==> id in Elements(s);
    }
    var rows' := Reordered(rows, ids);
    forall k | 0 <= k < |ids| ensures Of(rows', rid, ids[k]) && rows'[ids[k]].position == k + 1 {
      PlaceAt(ids, k);
      assert ids[k] in ids;
    }
    forall id | Of(rows', rid, id) ensures 1 <= rows'[id].position <= |ids| && ids[rows'[id].position - 1] == id {
      assert Of(rows, rid, id);
    }
    OthersKeepOrder(rows, Reordered(rows, ids), rid, ids);
  }

  // ---------------------------------------------------------------------------
  // The four requests
  // ---------------------------------------------------------------------------

  datatype Edit =
    | Create(id: int, rid: int, at: Option<int>, actionType: ActionType, config: JsonObject)
    | Change(id: int, update: ActionUpdate)
    | Reorder(rid: int, ids: seq<int>)
    | Remove(id: int)

  /** The request names an existing row; a created id is new. */
  predicate Enabled(rows: Rows, e: Edit) {
    match e
    case Create(id, _, _, _, _) => id !in rows
    case Change(id, _) => id in rows
    case Reorder(_, _) => true
    case Remove(id) => id in rows
  }

  /** The one-based place a create asks for. */
  ghost function CreatePlace(rows: Rows, rid: int, at: Option<int>): int
    requires WellOrdered(rows)
  {
    if at.None? then |Order(rows, rid)| + 1 else at.value
  }

  /** The swap of `update_action`; `None` when no other action holds the requested position. */
  ghost function Moved(rows: Rows, id: int, position: Option<int>): Option<Rows>
    requires WellOrdered(rows) && id in rows
  {
    var s := Order(rows, rows[id].routineId);
    if position.None? then Some(rows)
    else if 1 <= position.value <= |s| && s[position.value - 1] != id
    then Some(Swapped(rows, id, s[position.value - 1]))
    else None
  }

  /** Type and configuration after merging an update into a row. */
  function Edited(a: Action, p: ActionUpdate): Action {
    a.(actionType := if p.actionType.Some? then p.actionType.value else a.actionType,
       config := if p.config.Some? then p.config.value else a.config)
  }

  /** The table a request commits, `None` when it is rejected. */
  ghost function After(lib: Library, rows: Rows, e: Edit): Option<Rows>
    requires WellOrdered(rows) && Enabled(rows, e)
  {
    match e
    case Create(id, rid, at, t, cfg) =>
      var place := CreatePlace(rows, rid, at);
      if ValidActionConfig(lib, t, cfg) && 1 <= place <= |Order(rows, rid)| + 1
      then Some(Inserted(rows, id, Action(rid, place, t, cfg)))
      else None
    case Change(id, p) =>
      var moved := Moved(rows, id, p.position);
      if AcceptedActionUpdate(lib, p) && moved.Some?
         && var a := Edited(moved.value[id], p); ValidActionConfig(lib, a.actionType, a.config)
      then Some(moved.value[id := Edited(moved.value[id], p)])
      else None
    case Reorder(rid, ids) =>
      if multiset(ids) == multiset(Order(rows, rid)) then Some(Reordered(rows, ids)) else None
    case Remove(id) => Some(Deleted(rows, id))
  }

  /** The same requests on the plain sequence of one routine. */
  datatype ListEdit =
    | Insert(k: int, id: int)
    | Drop(k: int)
    | Exchange(i: int, j: int)
    | Replace(ids: seq<int>)
    | Nothing

  ghost predicate Possible(s: seq<int>, e: ListEdit) {
    match e
    case Insert(k, _) => 0 <= k <= |s|
    case Drop(k) => 0 <= k < |s|
    case Exchange(i, j) => 0 <= i < |s| && 0 <= j < |s|
    case Replace(ids) => multiset(ids) == multiset(s)
    case Nothing => true
  }

  ghost function Apply(s: seq<int>, e: ListEdit): seq<int>
    requires Possible(s, e)
  {
    match e
    case Insert(k, id) => InsertAt(s, k, id)
    case Drop(k) => RemoveAt(s, k)
    case Exchange(i, j) => Swap(s, i, j)
    case Replace(ids) => ids
    case Nothing => s
  }

  function RoutineOf(rows: Rows, e: Edit): int
    requires Enabled(rows, e)
  {
    match e
    case Create(_, rid, _, _, _) => rid
    case Change(id, _) => rows[id].routineId
    case Reorder(rid, _) => rid
    case Remove(id) => rows[id].routineId
  }

  /** The sequence operation a request stands for. */
  ghost function Meaning(rows: Rows, e: Edit): ListEdit
    requires WellOrdered(rows) && Enabled(rows, e)
  {
    match e
    case Create(id, rid, at, _, _) => Insert(CreatePlace(rows, rid, at) - 1, id)
    case Change(id, p) =>
      if p.position.None? then Nothing else Exchange(rows[id].position - 1, p.position.value - 1)
    case Reorder(_, ids) => Replace(ids)
    case Remove(id) => Drop(rows[id].position - 1)
  }

  /** `rows'` is `rows` after list operation `e` on routine `rid` and nothing on the others. */
  ghost predicate Refines(rows: Rows, rows': Rows, rid: int, e: ListEdit)
    requires WellOrdered(rows)
  {
    && WellOrdered(rows')
    && Possible(Order(rows, rid), e)
    && Order(rows', rid) == Apply(Order(rows, rid), e)
    && forall other | other != rid :: Order(rows', other) == Order(rows, other)
  }

  ghost predicate ConfigsValid(lib: Library, rows: Rows) {
    forall id | id in rows :: ValidActionConfig(lib, rows[id].actionType, rows[id].config)
  }

  /** Changing type and configuration moves nothing. */
  lemma ContentKeepsOrder(rows: Rows, id: int, a: Action)
    requires WellOrdered(rows) && id in rows
    requires a.routineId == rows[id].routineId && a.position == rows[id].position
    ensures WellOrdered(rows[id := a])
    ensures forall rid :: Order(rows[id := a], rid) == Order(rows, rid)
  {
    var rows' := rows[id := a];
    forall rid ensures Lists(rows', rid, Order(rows, rid)) {
      assert forall x :: Of(rows, rid, x) <==> Of(rows', rid, x);
    }
    forall rid ensures Ordered(rows', rid) {
      assert Lists(rows', rid, Order(rows, rid));
    }
    forall rid ensures Order(rows', rid) == Order(rows, rid) {
      OrderIs(rows', rid, Order(rows, rid));
    }
  }

  lemma ChangeRefines(lib: Library, rows: Rows, e: Edit)
    requires WellOrdered(rows) && e.Change? && Enabled(rows, e) && After(lib, rows, e).Some?
    ensures Refines(rows, After(lib, rows, e).value, RoutineOf(rows, e), Meaning(rows, e))
  {
    var id, p := e.id, e.update;
    var rid := rows[id].routineId;
    assert Of(rows, rid, id);
    var s := Order(rows, rid);
    var moved := Moved(rows, id, p.position).value;
    if p.position.Some? {
      SwapRefines(rows, id, s[p.position.value - 1]);
    }
    ContentKeepsOrder(moved, id, Edited(moved[id], p));
  }

  /** The commuting square: an accepted request does to the table what the sequence operation does to the
      list of its routine, and nothing to the list of any other. */
  lemma EditRefines(lib: Library, rows: Rows, e: Edit)
    requires WellOrdered(rows) && Enabled(rows, e) && After(lib, rows, e).Some?
    ensures Refines(rows, After(lib, rows, e).value, RoutineOf(rows, e), Meaning(rows, e))
  {
    match e
    case Create(id, rid, at, t, cfg) =>
      InsertRefines(rows, id, Action(rid, CreatePlace(rows, rid, at), t, cfg));
    case Change(id, p) =>
      ChangeRefines(lib, rows, e);
    case Reorder(rid, ids) =>
      ReorderRefines(rows, rid, ids);
    case Remove(id) =>
      assert Of(rows, rows[id].routineId, id) && Lists(rows, rows[id].routineId, Order(rows, rows[id].routineId));
      DeleteRefines(rows, id);
  }

  // ---------------------------------------------------------------------------
  // Histories
  // ---------------------------------------------------------------------------

  /** Rows of other routines are not written at all; rows of the same routine keep their type and
      configuration unless the request is about them. */
  lemma EditTouchesOneRoutine(lib: Library, rows: Rows, e: Edit, id: int)
    requires WellOrdered(rows) && Enabled(rows, e) && After(lib, rows, e).Some?
    requires id in rows && (e.Change? || e.Remove? ==> id != e.id)
    ensures var rows' := After(lib, rows, e).value;
            && id in rows'
            && rows'[id] == rows[id].(position := rows'[id].position)
            && (rows[id].routineId != RoutineOf(rows, e) ==> rows'[id] == rows[id])
  {
    EditRefines(lib, rows, e);
    if e.Reorder? {
      ReorderRefines(rows, e.rid, e.ids);
    } else if e.Change? {
      assert Of(rows, rows[e.id].routineId, e.id);
    }
  }

  /** `rows'` is reached by the requests in order, where a rejected request changes nothing. */
  ghost predicate Reaches(lib: Library, rows: Rows, edits: seq<Edit>, rows': Rows)
    requires WellOrdered(rows)
    decreases |edits|
  {
    if edits == [] then rows' == rows
    else
      && Enabled(rows, edits[0])
      && match After(lib, rows, edits[0])
         case None => Reaches(lib, rows, edits[1..], rows')
         case Some(next) => WellOrdered(next) && Reaches(lib, next, edits[1..], rows')
  }

  lemma EditKeepsConfigs(lib: Library, rows: Rows, e: Edit)
    requires WellOrdered(rows) && ConfigsValid(lib, rows) && Enabled(rows, e) && After(lib, rows, e).Some?
    ensures ConfigsValid(lib, After(lib, rows, e).value)
  {
    var rows' := After(lib, rows, e).value;
    EditRefines(lib, rows, e);
    forall id | id in rows' ensures ValidActionConfig(lib, rows'[id].actionType, rows'[id].config) {
      if id in rows && !(e.Change? && id == e.id) && !(e.Remove? && id == e.id) {
        EditTouchesOneRoutine(lib, rows, e, id);
      }
    }
  }

  lemma EditCommits(lib: Library, rows: Rows, e: Edit)
    requires WellOrdered(rows) && ConfigsValid(lib, rows) && Enabled(rows, e) && After(lib, rows, e).Some?
    ensures var rows' := After(lib, rows, e).value;
            WellOrdered(rows') && ConfigsValid(lib, rows') && UniquePositions(rows')
  {
    EditRefines(lib, rows, e);
    EditKeepsConfigs(lib, rows, e);
    WellOrderedIsUnique(After(lib, rows, e).value);
  }

  /** Over every history positions stay 1..n per routine, and every stored configuration stays one the
      validator accepts for the stored type. */
  lemma {:induction false} HistoryKeepsTable(lib: Library, rows: Rows, edits: seq<Edit>, rows': Rows)
    requires WellOrdered(rows) && ConfigsValid(lib, rows) && Reaches(lib, rows, edits, rows')
    ensures WellOrdered(rows') && UniquePositions(rows') && ConfigsValid(lib, rows')
    decreases |edits|
  {
    if edits == [] {
      WellOrderedIsUnique(rows);
    } else {
      var next := After(lib, rows, edits[0]);
      if next.Some? {
        EditCommits(lib, rows, edits[0]);
        HistoryKeepsTable(lib, next.value, edits[1..], rows');
      } else {
        HistoryKeepsTable(lib, rows, edits[1..], rows');
      }
    }
  }

  /** `reorder_actions` accepts a list exactly when it is a permutation of the routine's action ids, and
      then gives every id its one-based index. */
  lemma ReorderAccepted(lib: Library, rows: Rows, rid: int, ids: seq<int>)
    requires WellOrdered(rows)
    ensures var existing := set id | id in rows && rows[id].routineId == rid;
            After(lib, rows, Reorder(rid, ids)).Some? <==> Elements(ids) == existing && |ids| == |existing|
    ensures var after := After(lib, rows, Reorder(rid, ids));
            after.Some? ==>
              && Distinct(ids)
              && (forall k | 0 <= k < |ids| :: Of(rows, rid, ids[k]) && after.value[ids[k]].position == k + 1)
  {
    var s := Order(rows, rid);
    ListIsDistinct(rows, rid, s);
    ListMembers(rows, rid, s);
    ElementsOf(s);
    PermutationTest(ids, s);
    if multiset(ids) == multiset(s) {
      ReorderRefines(rows, rid, ids);
      forall k | 0 <= k < |ids| ensures Of(rows, rid, ids[k]) && Reordered(rows, ids)[ids[k]].position == k + 1 {
        PlaceAt(ids, k);
        assert ids[k] in ids;
      }
    }
  }

  lemma ReorderedIs(lib: Library, rows: Rows, rid: int, ids: seq<int>)
    requires WellOrdered(rows)
    ensures After(lib, rows, Reorder(rid, ids)).Some? ==>
              && WellOrdered(After(lib, rows, Reorder(rid, ids)).value)
              && Order(After(lib, rows, Reorder(rid, ids)).value, rid) == ids
  {
    if multiset(ids) == multiset(Order(rows, rid)) {
      ReorderRefines(rows, rid, ids);
    }
  }

  /** Another action of the routine of `id` is at `position`. */
  predicate SwapPartner(rows: Rows, id: int, position: int, other: int)
    requires id in rows
  {
    Of(rows, rows[id].routineId, other) && other != id && rows[other].position == position
  }

  /** A swap is accepted exactly when a different action of the routine holds the requested position (asking
      for its own position is refused), and that action is the one the list names there. */
  lemma SwapAccepted(rows: Rows, id: int, position: int)
    requires WellOrdered(rows) && id in rows
    ensures Moved(rows, id, Some(position)).Some?
            <==> exists other :: SwapPartner(rows, id, position, other)
    ensures forall other ::
              SwapPartner(rows, id, position, other) ==> 1 <= position <= |Order(rows, rows[id].routineId)| && other == Order(rows, rows[id].routineId)[position - 1]
  {
    var s := Order(rows, rows[id].routineId);
    if 1 <= position <= |s| && s[position - 1] != id {
      assert Of(rows, rows[id].routineId, s[position - 1]);
      assert SwapPartner(rows, id, position, s[position - 1]);
    }
  }

  /** What an accepted create writes: the row with its content at the requested place, or at the end, and the
      rows from that place on moved up by one. */
  lemma CreateWrites(lib: Library, rows: Rows, id: int, rid: int, at: Option<int>, t: ActionType, cfg: JsonObject)
    requires WellOrdered(rows) && id !in rows
    ensures var place := if at.Some? then at.value else |Order(rows, rid)| + 1;
            var after := After(lib, rows, Create(id, rid, at, t, cfg));
            && (after.Some? <==> ValidActionConfig(lib, t, cfg) && 1 <= place <= |Order(rows, rid)| + 1)
            && (after.Some? ==>
                  && after.value.Keys == rows.Keys + {id} && after.value[id] == Action(rid, place, t, cfg)
                  && forall x | x in rows ::
                       after.value[x] == rows[x].(position :=
                         if rows[x].routineId == rid && rows[x].position >= place then rows[x].position + 1
                         else rows[x].position))
  {
  }

  /** An action with the payload's type and configuration where given and its own where not. */
  ghost predicate ContentUpdated(a: Action, p: ActionUpdate, a': Action) {
    && a'.routineId == a.routineId
    && (p.actionType.Some? ==> Some(a'.actionType) == p.actionType)
    && (p.actionType.None? ==> a'.actionType == a.actionType)
    && (p.config.Some? ==> Some(a'.config) == p.config)
    && (p.config.None? ==> a'.config == a.config)
  }

  /** What an accepted update writes: the content of the row, its position and that of its partner if a
      position was given, and nothing else. */
  lemma ChangeWrites(lib: Library, rows: Rows, id: int, p: ActionUpdate, rows': Rows)
    requires WellOrdered(rows) && id in rows && After(lib, rows, Change(id, p)) == Some(rows')
    ensures rows'.Keys == rows.Keys && ContentUpdated(rows[id], p, rows'[id])
    ensures rows'[id].position == if p.position.Some? then p.position.value else rows[id].position
    ensures forall x | x in rows && x != id ::
              rows'[x] == if p.position.Some? && SwapPartner(rows, id, p.position.value, x)
                          then rows[x].(position := rows[id].position) else rows[x]
  {
    if p.position.Some? {
      SwapAccepted(rows, id, p.position.value);
      var other := Order(rows, rows[id].routineId)[p.position.value - 1];
      assert SwapPartner(rows, id, p.position.value, other);
    }
  }

  /** An update is accepted exactly when a partner is there if a position is given, and the content it makes is
      valid; the DTO validator refuses nothing that this would let through. */
  lemma ChangeAccepted(lib: Library, rows: Rows, id: int, p: ActionUpdate, a: Action)
    requires WellOrdered(rows) && id in rows && ContentUpdated(rows[id], p, a)
    ensures After(lib, rows, Change(id, p)).Some?
            <==> (p.position.Some? ==> exists other :: SwapPartner(rows, id, p.position.value, other))
                 && ValidActionConfig(lib, a.actionType, a.config)
  {
    if p.position.Some? {
      SwapAccepted(rows, id, p.position.value);
    }
  }

  /** What a delete writes: the row is gone and the rows behind it move down by one. */
  lemma DeleteWrites(rows: Rows, id: int)
    requires id in rows
    ensures Deleted(rows, id).Keys == rows.Keys - {id}
    ensures forall x | x in rows && x != id ::
              Deleted(rows, id)[x] == rows[x].(position :=
                if rows[x].routineId == rows[id].routineId && rows[x].position > rows[id].position
                then rows[x].position - 1 else rows[x].position)
  {
  }

  /** Between the two UPDATEs of a swap the unique constraint is always broken, so a constraint checked
      per statement would refuse every swap; the migration defers it to the commit. */
  lemma SwapNeedsDeferredConstraint(rows: Rows, id: int, other: int)
    requires WellOrdered(rows) && id in rows && other in rows && id != other
    requires rows[id].routineId == rows[other].routineId
    ensures !UniquePositions(rows[id := rows[id].(position := rows[other].position)])
    ensures UniquePositions(Swapped(rows, id, other))
  {
    var half := rows[id := rows[id].(position := rows[other].position)];
    assert half[id].position == half[other].position;
    SwapRefines(rows, id, other);
    WellOrderedIsUnique(Swapped(rows, id, other));
  }

  predicate Lowest(rows: Rows, todo: set<int>, id: int)
    requires id in rows && forall x | x in todo :: x in rows
  {
    id in todo && forall x | x in todo :: rows[id].position <= rows[x].position
  }

  /** Of the rows from place `i` on, the one with the lowest position is the one at place `i`. */
  lemma LowestIsNext(rows: Rows, rid: int, s: seq<int>, i: nat)
    requires Lists(rows, rid, s) && i < |s|
    ensures var todo := Elements(s[i..]);
            && s[i] in todo && todo - {s[i]} == Elements(s[i + 1..])
            && (forall id | id in todo :: id in rows)
            && (forall next | next in todo :: Lowest(rows, todo, next) <==> next == s[i])
  {
    var todo := Elements(s[i..]);
    assert s[i..] == [s[i]] + s[i + 1..];
    assert s[i] in s[i..];
    forall id | id in todo ensures id in rows && rows[id].position >= i + 1 && (rows[id].position == i + 1 ==> id == s[i]) {
      var k :| i <= k < |s| && s[k] == id;
    }
    forall id | id in Elements(s[i + 1..]) ensures id in todo && id != s[i] {
      var k :| i + 1 <= k < |s| && s[k] == id;
      assert s[k] in s[i..];
    }
  }

  /** All rows of the routine are still to be listed. */
  lemma AllToList(rows: Rows, rid: int, s: seq<int>)
    requires Lists(rows, rid, s)
    ensures var todo := set id | id in rows && rows[id].routineId == rid;
            todo == Elements(s[0..]) && |todo| == |s|
  {
    ListMembers(rows, rid, s);
    ListIsDistinct(rows, rid, s);
    ElementsOf(s);
    assert s[0..] == s;
  }

  /** The next row of an ordered query. */
  method TakeLowest(rows: Rows, todo: set<int>, ghost rid: int, ghost order: seq<int>, ghost i: nat)
    returns (next: int, rest: set<int>)
    requires Lists(rows, rid, order) && i < |order| && todo == Elements(order[i..])
    ensures next == order[i] && rest == Elements(order[i + 1..])
  {
    LowestIsNext(rows, rid, order, i);
    next :| next in todo && Lowest(rows, todo, next);
    rest := todo - {next};
  }

  /** `SELECT ... WHERE routine_id = rid ORDER BY position` */
  method SelectOrdered(rows: Rows, rid: int, ghost order: seq<int>) returns (s: seq<int>)
    requires Lists(rows, rid, order)
    ensures s == order
  {
    AllToList(rows, rid, order);
    var todo: set<int> := set id | id in rows && rows[id].routineId == rid;
    var n := |todo|;
    s := [];
    for i := 0 to n
      invariant |s| == i && s == order[..i]
      invariant todo == Elements(order[i..])
    {
      var next;
      next, todo := TakeLowest(rows, todo, rid, order, i);
      s := s + [next];
    }
  }

  /** `SELECT max(position) ... WHERE routine_id = rid`, 0 when there is no row. */
  method SelectMaxPosition(rows: Rows, rid: int, ghost order: seq<int>) returns (m: int)
    requires Lists(rows, rid, order)
    ensures m == |order|
  {
    ListMembers(rows, rid, order);
    var ids: set<int> := set id | id in rows && rows[id].routineId == rid;
    assert order != [] ==> order[|order| - 1] in ids;
    assert forall id | id in ids :: Of(rows, rid, id);
    if top :| top in ids && forall id | id in ids :: rows[id].position <= rows[top].position {
      assert Of(rows, rid, top);
      return rows[top].position;
    }
    return 0;
  }

  lemma NothingToShift(rows: Rows, rid: int)
    requires WellOrdered(rows)
    ensures Shifted(rows, rid, |Order(rows, rid)| + 1, 1) == rows
  {
    forall x | x in rows ensures Shifted(rows, rid, |Order(rows, rid)| + 1, 1)[x] == rows[x] {
      assert Of(rows, rid, x) || rows[x].routineId != rid;
    }
  }

  // ---------------------------------------------------------------------------
  // The handlers
  // ---------------------------------------------------------------------------

  /** The committed table and the view of the session that is handling a request. */
  class ActionStore {
    const lib: Library
    var committed: Rows
    var staged: Rows
    var nextId: int

    /** Between requests. */
    ghost predicate Valid()
      reads this
    {
      && staged == committed
      && WellOrdered(committed)
      && ConfigsValid(lib, committed)
      && forall id | id in committed :: id < nextId
    }

    constructor (lib: Library)
      ensures Valid() && this.lib == lib && committed == map[]
    {
      this.lib := lib;
      committed, staged, nextId := map[], map[], 1;
      new;
      forall rid ensures Ordered(committed, rid) {
        assert Lists(committed, rid, []);
      }
    }

    /** `session.commit()`: the deferred unique constraint is checked here; a failure discards the
        staged rows. */
    method Commit(fails: bool) returns (ok: bool)
      modifies this`committed, this`staged
      ensures ok <==> !fails && UniquePositions(old(staged))
      ensures committed == staged == if ok then old(staged) else old(committed)
    {
      ok := !fails && UniquePositions(staged);
      if ok {
        committed := staged;
      } else {
        staged := committed;
      }
    }

    /** The commit of a request that was accepted. */
    method CommitEdit(ghost e: Edit, fails: bool) returns (ok: bool)
      requires WellOrdered(committed) && ConfigsValid(lib, committed) && Enabled(committed, e)
      requires After(lib, committed, e) == Some(staged)
      requires forall id | id in committed || id in staged :: id < nextId
      modifies this`committed, this`staged
      ensures Valid()
      ensures ok <==> !fails
      ensures committed == if ok then old(staged) else old(committed)
    {
      EditCommits(lib, committed, e);
      ok := Commit(fails);
    }

    /** The session closes without a commit. */
    method Rollback()
      modifies this`staged
      ensures staged == committed
    {
      staged := committed;
    }

    /** `list_actions`: `ORDER BY position`. */
    method ListActions(rid: int) returns (s: seq<int>)
      requires Valid()
      ensures s == Order(committed, rid)
    {
      s := SelectOrdered(committed, rid, Order(committed, rid));
    }

    /** `create_action` behind its DTO validator. `fails` is a database failure. */
    method CreateAction(rid: int, position: Option<int>, actionType: ActionType, config: JsonObject, fails: bool)
      returns (r: Option<int>)
      requires Valid()
      modifies this
      ensures Valid()
      ensures old(nextId) !in old(committed)
      ensures var after := After(lib, old(committed), Create(old(nextId), rid, position, actionType, config));
              if after.Some? && !fails
              then r == Some(old(nextId)) && committed == after.value
              else r == None && committed == old(committed)
      ensures var place := if position.Some? then position.value else |Order(old(committed), rid)| + 1;
              && (r.Some? <==>
                    !fails && ValidActionConfig(lib, actionType, config) && 1 <= place <= |Order(old(committed), rid)| + 1)
              && (r.Some? ==> r.value in committed && committed[r.value] == Action(rid, place, actionType, config))
    {
      CreateWrites(lib, committed, nextId, rid, position, actionType, config);
      if !ValidActionConfig(lib, actionType, config) {
        return None;
      }
      ghost var edit := Create(nextId, rid, position, actionType, config);
      var maxPosition := SelectMaxPosition(staged, rid, Order(staged, rid));
      var place := maxPosition + 1;
      if position.Some? {
        place := position.value;
        if place < 1 || place > maxPosition + 1 {
          return None;
        }
        staged := Shifted(staged, rid, place, 1);
      } else {
        NothingToShift(staged, rid);
      }
      var id := nextId;
      nextId := nextId + 1;
      staged := staged[id := Action(rid, place, actionType, config)];
      var ok := CommitEdit(edit, fails);
      return if ok then Some(id) else None;
    }

    /** The swap of `update_action`, lines 369 to 382; the caller has not validated anything yet. */
    method SwapPositions(id: int, newPos: int) returns (ok: bool)
      requires Valid() && id in committed
      modifies this`staged
      ensures ok <==> Moved(committed, id, Some(newPos)).Some?
      ensures staged == if ok then Moved(committed, id, Some(newPos)).value else committed
    {
      SwapAccepted(staged, id, newPos);
      if other :| other in staged && SwapPartner(staged, id, newPos, other) {
        var oldPos := staged[id].position;
        staged := staged[id := staged[id].(position := newPos)];
        staged := staged[other := staged[other].(position := oldPos)];
        return true;
      }
      return false;
    }

    /** `update_action` behind its DTO validator: the swap is flushed before the merged configuration is
        validated, and a refusal rolls the swap back. */
    method UpdateAction(id: int, p: ActionUpdate, fails: bool) returns (ok: bool)
      requires Valid() && id in committed
      modifies this`committed, this`staged
      ensures Valid()
      ensures var after := After(lib, old(committed), Change(id, p));
              && (ok <==> after.Some? && !fails)
              && committed == if ok then after.value else old(committed)
      ensures ok ==>
                && committed.Keys == old(committed).Keys && ContentUpdated(old(committed)[id], p, committed[id])
                && committed[id].position == (if p.position.Some? then p.position.value else old(committed)[id].position)
                && forall x | x in committed && x != id ::
                     committed[x] == if p.position.Some? && SwapPartner(old(committed), id, p.position.value, x)
                                     then old(committed)[x].(position := old(committed)[id].position) else old(committed)[x]
      ensures ok <==>
              && !fails
              && (p.position.Some? ==> exists other :: SwapPartner(old(committed), id, p.position.value, other))
              && ValidActionConfig(lib, if p.actionType.Some? then p.actionType.value else old(committed)[id].actionType,
                                   if p.config.Some? then p.config.value else old(committed)[id].config)
    {
      ghost var merged := committed[id].(
        actionType := if p.actionType.Some? then p.actionType.value else committed[id].actionType,
        config := if p.config.Some? then p.config.value else committed[id].config);
      ChangeAccepted(lib, committed, id, p, merged);
      if After(lib, committed, Change(id, p)).Some? {
        ChangeWrites(lib, committed, id, p, After(lib, committed, Change(id, p)).value);
      }
      if !AcceptedActionUpdate(lib, p) {
        return false;
      }
      if p.position.Some? {
        var moved := SwapPositions(id, p.position.value);
        if !moved {
          return false;
        }
      }
      assert staged == Moved(committed, id, p.position).value;
      var nextType := if p.actionType.Some? then p.actionType.value else staged[id].actionType;
      var nextConfig := if p.config.Some? then p.config.value else staged[id].config;
      if !ValidActionConfig(lib, nextType, nextConfig) {
        Rollback();
        return false;
      }
      staged := staged[id := staged[id].(actionType := nextType, config := nextConfig)];
      ok := CommitEdit(Change(id, p), fails);
    }

    /** The loop of `reorder_actions`. */
    method AssignPositions(actionIds: seq<int>)
      requires staged == committed && Distinct(actionIds)
      requires forall k | 0 <= k < |actionIds| :: actionIds[k] in committed
      modifies this`staged
      ensures staged == Reordered(committed, actionIds)
    {
      for k := 0 to |actionIds|
        invariant staged.Keys == committed.Keys
        invariant forall j | 0 <= j < k :: staged[actionIds[j]] == committed[actionIds[j]].(position := j + 1)
        invariant forall id | id in committed && id !in actionIds[..k] :: staged[id] == committed[id]
      {
        staged := staged[actionIds[k] := staged[actionIds[k]].(position := k + 1)];
      }
      assert actionIds[..|actionIds|] == actionIds;
      forall id | id in committed ensures staged[id] == Reordered(committed, actionIds)[id] {
        if id in actionIds {
          assert actionIds[Place(actionIds, id) - 1] == id;
        }
      }
    }

    /** `reorder_actions` */
    method ReorderActions(rid: int, actionIds: seq<int>, fails: bool) returns (ok: bool)
      requires Valid()
      modifies this`committed, this`staged
      ensures Valid()
      ensures var after := After(lib, old(committed), Reorder(rid, actionIds));
              && (ok <==> after.Some? && !fails)
              && committed == if ok then after.value else old(committed)
      ensures ok <==> !fails && multiset(actionIds) == multiset(Order(old(committed), rid))
      ensures ok ==>
                && committed.Keys == old(committed).Keys && Order(committed, rid) == actionIds
                && forall k | 0 <= k < |actionIds| :: actionIds[k] in committed && committed[actionIds[k]].position == k + 1
    {
      ReorderedIs(lib, committed, rid, actionIds);
      ReorderAccepted(lib, committed, rid, actionIds);
      var existingIds: set<int> := set id | id in staged && staged[id].routineId == rid;
      if Elements(actionIds) != existingIds || |actionIds| != |existingIds| {
        return false;
      }
      AssignPositions(actionIds);
      ok := CommitEdit(Reorder(rid, actionIds), fails);
    }

    /** `delete_action`. The flush fails, for one, when an execution log still refers to the action. */
    method DeleteAction(id: int, flushFails: bool, fails: bool) returns (ok: bool)
      requires Valid() && id in committed
      modifies this`committed, this`staged
      ensures Valid()
      ensures ok <==> !flushFails && !fails
      ensures committed == if ok then Deleted(old(committed), id) else old(committed)
      ensures ok ==>
                && committed.Keys == old(committed).Keys - {id}
                && forall x | x in committed ::
                     committed[x] == old(committed)[x].(position :=
                       if old(committed)[x].routineId == old(committed)[id].routineId
                          && old(committed)[x].position > old(committed)[id].position
                       then old(committed)[x].position - 1 else old(committed)[x].position)
    {
      DeleteWrites(committed, id);
      if flushFails {
        return false;
      }
      var rid, deletedPos := staged[id].routineId, staged[id].position;
      staged := staged - {id};
      staged := Shifted(staged, rid, deletedPos + 1, -1);
      ok := CommitEdit(Remove(id), fails);
    }
  }
}
