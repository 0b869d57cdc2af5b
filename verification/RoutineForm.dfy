/** frontend/src/features/routines/useRoutineFormPage.ts: the staged editor, and the save that reconciles
    its list with the server. */
module RoutineForm {
  import opened Wrappers
  import opened Domain
  import opened Schemas
  import opened Actions

  /** `e-<id>` for a row of the server, `n-<counter>` for a new action. */
  datatype Key = Existing(id: int) | New(n: int)

  datatype StagedAction = StagedAction(
    id: Option<int>, actionType: ActionType, config: JsonObject, position: int, key: Key)

  datatype Form = Form(local: seq<StagedAction>, removed: seq<int>, counter: nat)

  // ---------------------------------------------------------------------------
  // Edits on values
  // ---------------------------------------------------------------------------

  /** Every action gets its one-based place as its position. */
  function Renumbered(actions: seq<StagedAction>): (r: seq<StagedAction>)
    ensures |r| == |actions| && forall i | 0 <= i < |r| :: r[i] == actions[i].(position := i + 1)
  {
    if actions == [] then []
    else Renumbered(actions[..|actions| - 1]) + [actions[|actions| - 1].(position := |actions|)]
  }

  /** The list without the actions that carry `key`. */
  function WithoutKey(s: seq<StagedAction>, key: Key): seq<StagedAction> {
    if s == [] then []
    else if s[0].key == key then WithoutKey(s[1..], key)
    else [s[0]] + WithoutKey(s[1..], key)
  }

  datatype FormEdit =
    | Drag(actions: seq<StagedAction>)
    | Take(action: StagedAction)
    | Add(actionType: ActionType, config: JsonObject)

  /** The configurations `addAction` builds: a message that is not empty after trimming, or a positive
      number of seconds. */
  predicate FormConfig(t: ActionType, cfg: JsonObject) {
    match t
    case Echo => "message" in cfg && cfg["message"].JStr? && cfg["message"].s != ""
    case Sleep => "seconds" in cfg && cfg["seconds"].JInt? && cfg["seconds"].n > 0
  }

  /** A drag emits the current actions in another order, the remove button an action of the list, and the
      add form what its own checks let through. */
  predicate Allowed(f: Form, e: FormEdit) {
    match e
    case Drag(actions) => multiset(actions) == multiset(f.local)
    case Take(action) => action in f.local
    case Add(t, cfg) => FormConfig(t, cfg)
  }

  function AfterEdit(f: Form, e: FormEdit): Form {
    match e
    case Drag(actions) => f.(local := Renumbered(actions))
    case Take(action) =>
      Form(WithoutKey(f.local, action.key),
           if action.id.Some? then f.removed + [action.id.value] else f.removed,
           f.counter)
    case Add(t, cfg) =>
      Form(f.local + [StagedAction(None, t, cfg, |f.local| + 1, New(f.counter + 1))], f.removed, f.counter + 1)
  }

  ghost predicate Reaches(f: Form, edits: seq<FormEdit>, f': Form)
    decreases |edits|
  {
    if edits == [] then f' == f
    else Allowed(f, edits[0]) && Reaches(AfterEdit(f, edits[0]), edits[1..], f')
  }

  // ---------------------------------------------------------------------------
  // What every history keeps
  // ---------------------------------------------------------------------------

  /** What is gathered from a list: the server ids still shown, or the numbers of the new keys. */
  datatype Part = Ids | NewKeys

  function One(p: Part, a: StagedAction): seq<int> {
    match p
    case Ids => if a.id.Some? then [a.id.value] else []
    case NewKeys => if a.key.New? then [a.key.n] else []
  }

  function Gather(p: Part, s: seq<StagedAction>): seq<int> {
    if s == [] then [] else One(p, s[0]) + Gather(p, s[1..])
  }

  /** A staged action as it stands against the rows the editor was loaded from. */
  ghost predicate Faithful(rows: Rows, rid: int, a: StagedAction) {
    match a.key
    case Existing(id) =>
      a.id == Some(id) && Of(rows, rid, id) && rows[id].actionType == a.actionType && rows[id].config == a.config
    case New(_) => a.id == None && FormConfig(a.actionType, a.config)
  }

  ghost predicate KeysUsedOnce(numbers: seq<int>, counter: int) {
    forall n :: multiset(numbers)[n] <= if 1 <= n <= counter then 1 else 0
  }

  ghost predicate AllFaithful(s: seq<StagedAction>, rows: Rows, rid: int) {
    forall a | a in s :: Faithful(rows, rid, a)
  }

  /** Every loaded id is shown once or removed once, new keys are used once, and contents are those of the
      rows or of the add form. */
  ghost predicate FormInv(f: Form, loaded: seq<int>, rows: Rows, rid: int) {
    && multiset(Gather(Ids, f.local)) + multiset(f.removed) == multiset(loaded)
    && KeysUsedOnce(Gather(NewKeys, f.local), f.counter)
    && AllFaithful(f.local, rows, rid)
  }

  lemma Associates(a: seq<int>, b: seq<int>, c: seq<int>)
    ensures a + (b + c) == (a + b) + c
  {
  }

  lemma {:induction false} Concat(p: Part, s: seq<StagedAction>, t: seq<StagedAction>)
    ensures Gather(p, s + t) == Gather(p, s) + Gather(p, t)
  {
    if s == [] {
      assert s + t == t;
    } else {
      Concat(p, s[1..], t);
      assert (s + t)[0] == s[0] && (s + t)[1..] == s[1..] + t;
      Associates(One(p, s[0]), Gather(p, s[1..]), Gather(p, t));
    }
  }

  lemma Single(p: Part, a: StagedAction)
    ensures Gather(p, [a]) == One(p, a)
  {
    assert [a][1..] == [];
  }

  lemma MultisetSplit<T>(t: seq<T>, k: nat)
    requires k < |t|
    ensures multiset(t) == multiset(t[..k] + t[k + 1..]) + multiset{t[k]}
  {
    assert t == t[..k] + [t[k]] + t[k + 1..];
  }

  lemma GatherSplit(p: Part, t: seq<StagedAction>, k: nat)
    requires k < |t|
    ensures multiset(Gather(p, t)) == multiset(One(p, t[k])) + multiset(Gather(p, t[..k] + t[k + 1..]))
  {
    var before, after := t[..k], t[k + 1..];
    assert Gather(p, t) == Gather(p, before) + (One(p, t[k]) + Gather(p, after)) by {
      assert t == before + ([t[k]] + after);
      Concat(p, before, [t[k]] + after);
      Concat(p, [t[k]], after);
      Single(p, t[k]);
    }
    Concat(p, before, after);
  }

  /** Reordering the list reorders what is gathered from it. */
  lemma {:induction false} Permuted(p: Part, s: seq<StagedAction>, t: seq<StagedAction>)
    requires multiset(s) == multiset(t)
    ensures multiset(Gather(p, s)) == multiset(Gather(p, t))
    decreases |s|
  {
    if s == [] {
      assert |multiset(t)| == 0;
    } else {
      assert s[0] in multiset(t);
      var k :| 0 <= k < |t| && t[k] == s[0];
      var rest := t[..k] + t[k + 1..];
      assert multiset(s[1..]) == multiset(rest) by {
        MultisetSplit(s, 0);
        MultisetSplit(t, k);
        assert s[..0] + s[0 + 1..] == s[1..];
        assert multiset(s[1..]) == multiset(s) - multiset{s[0]};
        assert multiset(rest) == multiset(t) - multiset{s[0]};
      }
      Permuted(p, s[1..], rest);
      GatherSplit(p, t, k);
    }
  }

  lemma {:induction false} SameParts(p: Part, s: seq<StagedAction>, t: seq<StagedAction>)
    requires |s| == |t| && forall i | 0 <= i < |s| :: s[i].id == t[i].id && s[i].key == t[i].key
    ensures Gather(p, s) == Gather(p, t)
  {
    if s != [] {
      SameParts(p, s[1..], t[1..]);
    }
  }

  lemma GatherFirst(p: Part, a: StagedAction, rest: seq<StagedAction>)
    ensures multiset(Gather(p, [a] + rest)) == multiset(One(p, a)) + multiset(Gather(p, rest))
  {
    assert ([a] + rest)[1..] == rest;
  }

  lemma ZeroOut(one: seq<int>, m: multiset<int>, id: int)
    ensures one == [id] ==> (multiset(one) + m)[id := 0] == m[id := 0]
    ensures id !in one ==> (multiset(one) + m)[id := 0] == multiset(one) + m[id := 0]
  {
  }

  /** What `ids` is without the id of `key`. */
  ghost function Dropped(ids: multiset<int>, key: Key): multiset<int> {
    if key.Existing? then ids[key.id := 0] else ids
  }

  lemma FilteredFirst(a: StagedAction, rest: seq<StagedAction>, filtered: seq<StagedAction>, key: Key)
    requires a.id == if a.key.Existing? then Some(a.key.id) else None
    requires multiset(Gather(Ids, filtered)) == Dropped(multiset(Gather(Ids, rest)), key)
    ensures a.key == key ==> multiset(Gather(Ids, filtered)) == Dropped(multiset(Gather(Ids, [a] + rest)), key)
    ensures a.key != key ==> multiset(Gather(Ids, [a] + filtered)) == Dropped(multiset(Gather(Ids, [a] + rest)), key)
  {
    GatherFirst(Ids, a, rest);
    GatherFirst(Ids, a, filtered);
    if key.Existing? {
      ZeroOut(One(Ids, a), multiset(Gather(Ids, rest)), key.id);
    }
  }

  /** Filtering by key drops that key everywhere and nothing else. */
  lemma {:induction false} FilteredParts(s: seq<StagedAction>, key: Key)
    requires forall i | 0 <= i < |s| :: s[i].id == if s[i].key.Existing? then Some(s[i].key.id) else None
    ensures multiset(Gather(Ids, WithoutKey(s, key))) == Dropped(multiset(Gather(Ids, s)), key)
  {
    if s != [] {
      FilteredParts(s[1..], key);
      FilteredFirst(s[0], s[1..], WithoutKey(s[1..], key), key);
      assert s == [s[0]] + s[1..];
    }
  }

  lemma {:induction false} FilteredKeys(s: seq<StagedAction>, key: Key)
    ensures multiset(Gather(NewKeys, WithoutKey(s, key))) <= multiset(Gather(NewKeys, s))
    ensures forall a | a in WithoutKey(s, key) :: a in s
  {
    if s != [] {
      FilteredKeys(s[1..], key);
      assert s == [s[0]] + s[1..];
      GatherFirst(NewKeys, s[0], s[1..]);
      if s[0].key != key {
        GatherFirst(NewKeys, s[0], WithoutKey(s[1..], key));
      }
    }
  }

  lemma {:induction false} GathersId(s: seq<StagedAction>, a: StagedAction)
    requires a in s && a.id.Some?
    ensures a.id.value in Gather(Ids, s)
  {
    if s[0] != a {
      GathersId(s[1..], a);
    }
  }

  lemma DistinctCount(s: seq<int>, x: int)
    requires Distinct(s)
    ensures multiset(s)[x] == if x in s then 1 else 0
  {
    ElementsOf(s);
    assert x in s <==> x in Elements(s);
  }

  lemma RenumberedFaithful(actions: seq<StagedAction>, s: seq<StagedAction>, rows: Rows, rid: int)
    requires multiset(actions) == multiset(s) && AllFaithful(s, rows, rid)
    ensures AllFaithful(Renumbered(actions), rows, rid)
  {
    var renumbered := Renumbered(actions);
    forall a | a in renumbered ensures Faithful(rows, rid, a) {
      var i :| 0 <= i < |renumbered| && renumbered[i] == a;
      assert actions[i] in multiset(s);
      assert Faithful(rows, rid, actions[i]);
    }
  }

  lemma DragKeepsForm(f: Form, actions: seq<StagedAction>, loaded: seq<int>, rows: Rows, rid: int)
    requires FormInv(f, loaded, rows, rid) && multiset(actions) == multiset(f.local)
    ensures FormInv(AfterEdit(f, Drag(actions)), loaded, rows, rid)
  {
    RenumberedFaithful(actions, f.local, rows, rid);
    forall p: Part ensures multiset(Gather(p, Renumbered(actions))) == multiset(Gather(p, f.local)) {
      Permuted(p, actions, f.local);
      SameParts(p, actions, Renumbered(actions));
    }
  }

  /** A removed id moves from the shown ids to the removed ones. */
  lemma MoveOne(shown: multiset<int>, removed: seq<int>, loaded: seq<int>, id: int)
    requires shown + multiset(removed) == multiset(loaded) && Distinct(loaded) && id in shown
    ensures shown[id := 0] + multiset(removed + [id]) == multiset(loaded)
  {
    DistinctCount(loaded, id);
    assert shown[id] == 1;
    assert multiset(removed + [id]) == multiset(removed) + multiset{id};
    assert shown == shown[id := 0] + multiset{id};
  }

  lemma TakeKeepsForm(f: Form, action: StagedAction, loaded: seq<int>, rows: Rows, rid: int)
    requires Distinct(loaded) && FormInv(f, loaded, rows, rid) && action in f.local
    ensures FormInv(AfterEdit(f, Take(action)), loaded, rows, rid)
  {
    assert forall i | 0 <= i < |f.local| :: Faithful(rows, rid, f.local[i]);
    assert Faithful(rows, rid, action);
    FilteredParts(f.local, action.key);
    FilteredKeys(f.local, action.key);
    if action.id.Some? {
      GathersId(f.local, action);
      MoveOne(multiset(Gather(Ids, f.local)), f.removed, loaded, action.id.value);
    }
  }

  lemma NextKeyIsFresh(numbers: seq<int>, counter: int)
    requires KeysUsedOnce(numbers, counter) && counter >= 0
    ensures KeysUsedOnce(numbers + [counter + 1], counter + 1)
  {
    var more := multiset(numbers + [counter + 1]);
    assert more == multiset(numbers) + multiset{counter + 1};
    assert forall n :: more[n] == multiset(numbers)[n] + if n == counter + 1 then 1 else 0;
  }

  lemma AddedFaithful(s: seq<StagedAction>, a: StagedAction, rows: Rows, rid: int)
    requires AllFaithful(s, rows, rid) && Faithful(rows, rid, a)
    ensures AllFaithful(s + [a], rows, rid)
  {
    forall b | b in s + [a] ensures Faithful(rows, rid, b) {
      assert b in s || b == a;
    }
  }

  lemma AddedParts(s: seq<StagedAction>, a: StagedAction)
    requires a.id.None? && a.key.New?
    ensures Gather(Ids, s + [a]) == Gather(Ids, s)
    ensures Gather(NewKeys, s + [a]) == Gather(NewKeys, s) + [a.key.n]
  {
    Concat(Ids, s, [a]);
    Single(Ids, a);
    Concat(NewKeys, s, [a]);
    Single(NewKeys, a);
  }

  lemma AddKeepsForm(f: Form, t: ActionType, cfg: JsonObject, loaded: seq<int>, rows: Rows, rid: int)
    requires FormInv(f, loaded, rows, rid) && FormConfig(t, cfg)
    ensures FormInv(AfterEdit(f, Add(t, cfg)), loaded, rows, rid)
  {
    var a := StagedAction(None, t, cfg, |f.local| + 1, New(f.counter + 1));
    var f' := AfterEdit(f, Add(t, cfg));
    assert f'.local == f.local + [a] && f'.removed == f.removed && f'.counter == f.counter + 1;
    assert Gather(Ids, f'.local) == Gather(Ids, f.local) by { AddedParts(f.local, a); }
    assert KeysUsedOnce(Gather(NewKeys, f'.local), f'.counter) by {
      AddedParts(f.local, a);
      NextKeyIsFresh(Gather(NewKeys, f.local), f.counter);
    }
    assert AllFaithful(f'.local, rows, rid) by { AddedFaithful(f.local, a, rows, rid); }
  }

  lemma EditKeepsForm(f: Form, e: FormEdit, loaded: seq<int>, rows: Rows, rid: int)
    requires Distinct(loaded) && FormInv(f, loaded, rows, rid) && Allowed(f, e)
    ensures FormInv(AfterEdit(f, e), loaded, rows, rid)
  {
    match e
    case Drag(actions) => DragKeepsForm(f, actions, loaded, rows, rid);
    case Take(action) => TakeKeepsForm(f, action, loaded, rows, rid);
    case Add(t, cfg) => AddKeepsForm(f, t, cfg, loaded, rows, rid);
  }

  lemma {:induction false} HistoryKeepsForm(f: Form, edits: seq<FormEdit>, f': Form, loaded: seq<int>, rows: Rows, rid: int)
    requires Distinct(loaded) && FormInv(f, loaded, rows, rid) && Reaches(f, edits, f')
    ensures FormInv(f', loaded, rows, rid)
    decreases |edits|
  {
    if edits != [] {
      EditKeepsForm(f, edits[0], loaded, rows, rid);
      HistoryKeepsForm(AfterEdit(f, edits[0]), edits[1..], f', loaded, rows, rid);
    }
  }

  // ---------------------------------------------------------------------------
  // What the user sees of an edit
  // ---------------------------------------------------------------------------

  ghost predicate KeysDiffer(s: seq<StagedAction>) {
    forall i, j | 0 <= i < j < |s| :: s[i].key != s[j].key
  }

  lemma {:induction false} NothingToFilter(s: seq<StagedAction>, key: Key)
    requires forall i | 0 <= i < |s| :: s[i].key != key
    ensures WithoutKey(s, key) == s
  {
    if s != [] {
      NothingToFilter(s[1..], key);
    }
  }

  /** Where keys differ, filtering by the key of an action takes out exactly that place. */
  lemma {:induction false} FilterTakesOne(s: seq<StagedAction>, k: nat)
    requires KeysDiffer(s) && k < |s|
    ensures WithoutKey(s, s[k].key) == s[..k] + s[k + 1..]
  {
    if k == 0 {
      NothingToFilter(s[1..], s[0].key);
    } else {
      FilterTakesOne(s[1..], k - 1);
      assert s[..k] + s[k + 1..] == [s[0]] + (s[1..][..k - 1] + s[1..][k..]);
    }
  }

  lemma {:induction false} LastEdit(f: Form, edits: seq<FormEdit>, e: FormEdit, f': Form) returns (before: Form)
    requires Reaches(f, edits + [e], f')
    ensures Reaches(f, edits, before) && Allowed(before, e) && f' == AfterEdit(before, e)
    decreases |edits|
  {
    if edits == [] {
      assert edits + [e] == [e] && [e][1..] == [];
      before := f;
    } else {
      assert (edits + [e])[1..] == edits[1..] + [e];
      before := LastEdit(AfterEdit(f, edits[0]), edits[1..], e, f');
    }
  }

  /** The list the editor starts from, for the ids the server lists. */
  function Loaded(rows: Rows, ids: seq<int>): (s: seq<StagedAction>)
    requires forall i | 0 <= i < |ids| :: ids[i] in rows
  {
    if ids == [] then []
    else
      var a := rows[ids[0]];
      [StagedAction(Some(ids[0]), a.actionType, a.config, a.position, Existing(ids[0]))] + Loaded(rows, ids[1..])
  }

  lemma {:induction false} LoadedParts(rows: Rows, ids: seq<int>, rid: int)
    requires forall i | 0 <= i < |ids| :: ids[i] in rows && Of(rows, rid, ids[i])
    ensures Gather(Ids, Loaded(rows, ids)) == ids && Gather(NewKeys, Loaded(rows, ids)) == []
    ensures AllFaithful(Loaded(rows, ids), rows, rid)
  {
    if ids != [] {
      LoadedParts(rows, ids[1..], rid);
      var rest := Loaded(rows, ids[1..]);
      assert Loaded(rows, ids)[1..] == rest;
      assert forall a | a in Loaded(rows, ids) :: a == Loaded(rows, ids)[0] || a in rest;
    }
  }

  /** A form fresh from the server satisfies what every history keeps. */
  lemma InitialForm(rows: Rows, rid: int, ids: seq<int>)
    requires Lists(rows, rid, ids)
    ensures FormInv(Form(Loaded(rows, ids), [], 0), ids, rows, rid)
  {
    LoadedParts(rows, ids, rid);
    assert multiset(ids) + multiset([]) == multiset(ids);
  }

  /** The form as the watcher fills it from the server's rows. */
  ghost predicate Fresh(f: Form, rows: Rows, rid: int)
    requires WellOrdered(rows)
  {
    f == Form(Loaded(rows, Order(rows, rid)), [], 0)
  }

  /** The form was loaded from these rows and then only edited. */
  ghost predicate EditedFrom(rows: Rows, rid: int, edits: seq<FormEdit>, f: Form)
    requires WellOrdered(rows)
  {
    Reaches(Form(Loaded(rows, Order(rows, rid)), [], 0), edits, f)
  }

  lemma EditedFormIsKept(rows: Rows, rid: int, edits: seq<FormEdit>, f: Form)
    requires WellOrdered(rows) && EditedFrom(rows, rid, edits, f)
    ensures FormInv(f, Order(rows, rid), rows, rid)
  {
    var s := Order(rows, rid);
    InitialForm(rows, rid, s);
    ListIsDistinct(rows, rid, s);
    HistoryKeepsForm(Form(Loaded(rows, s), [], 0), edits, f, s, rows, rid);
  }

  // ---------------------------------------------------------------------------
  // Saving
  // ---------------------------------------------------------------------------

  /** Row `id` of routine `rid` holds what `a` shows. */
  ghost predicate Holds(rows: Rows, rid: int, id: int, a: StagedAction) {
    Of(rows, rid, id) && rows[id].actionType == a.actionType && rows[id].config == a.config
  }

  /** The routine's list on the server is the list on the screen, entry by entry: the same ids for the
      actions that had one, `ids[i]` for the new ones, and the type and configuration shown. */
  ghost predicate ShownOnServer(local: seq<StagedAction>, ids: seq<int>, rows: Rows, rid: int) {
    && |ids| == |local|
    && Lists(rows, rid, ids)
    && forall i | 0 <= i < |local| ::
         Holds(rows, rid, ids[i], local[i]) && (local[i].id.Some? ==> ids[i] == local[i].id.value)
  }

  /** The ids sent to the bulk reorder, lines 267 to 269. */
  function FinalIds(local: seq<StagedAction>, keyToNewId: map<Key, int>): seq<int> {
    if local == [] then []
    else
      (if local[0].id.Some? then [local[0].id.value]
       else if local[0].key in keyToNewId then [keyToNewId[local[0].key]]
       else [])
      + FinalIds(local[1..], keyToNewId)
  }

  predicate IdFor(a: StagedAction, keyToNewId: map<Key, int>, id: int) {
    if a.id.Some? then id == a.id.value else a.key in keyToNewId && keyToNewId[a.key] == id
  }

  lemma {:induction false} FinalIdsAre(local: seq<StagedAction>, keyToNewId: map<Key, int>, ids: seq<int>)
    requires |ids| == |local| && forall i | 0 <= i < |ids| :: IdFor(local[i], keyToNewId, ids[i])
    ensures FinalIds(local, keyToNewId) == ids
  {
    if local != [] {
      assert IdFor(local[0], keyToNewId, ids[0]);
      FinalIdsAre(local[1..], keyToNewId, ids[1..]);
    }
  }

  lemma {:induction false} GathersKey(s: seq<StagedAction>, i: nat)
    requires i < |s| && s[i].key.New?
    ensures s[i].key.n in Gather(NewKeys, s)
  {
    if i > 0 {
      GathersKey(s[1..], i - 1);
    }
  }

  lemma GathersTwice(s: seq<StagedAction>, j: nat, i: nat)
    requires j < i < |s| && s[i].key.New? && s[j].key == s[i].key
    ensures multiset(Gather(NewKeys, s))[s[i].key.n] >= 2
  {
    var rest := s[..j] + s[j + 1..];
    assert rest[i - 1] == s[i];
    GathersKey(rest, i - 1);
    GatherSplit(NewKeys, s, j);
  }

  lemma NewKeysDiffer(s: seq<StagedAction>, counter: nat, j: nat, i: nat)
    requires KeysUsedOnce(Gather(NewKeys, s), counter) && j < i < |s| && s[i].key.New?
    ensures s[j].key != s[i].key
  {
    if s[j].key == s[i].key {
      GathersTwice(s, j, i);
    }
  }

  lemma IdsDiffer(s: seq<StagedAction>, j: nat, i: nat)
    requires j < i < |s| && s[i].id.Some? && s[j].id == s[i].id
    ensures multiset(Gather(Ids, s))[s[i].id.value] >= 2
  {
    var rest := s[..j] + s[j + 1..];
    assert rest[i - 1] == s[i];
    GathersId(rest, s[i]);
    GatherSplit(Ids, s, j);
  }

  /** In every form that was loaded and edited the keys differ, so the remove button takes out one place. */
  lemma FormKeysDiffer(f: Form, loaded: seq<int>, rows: Rows, rid: int)
    requires Distinct(loaded) && FormInv(f, loaded, rows, rid)
    ensures KeysDiffer(f.local)
  {
    var s := f.local;
    forall j, i | 0 <= j < i < |s| ensures s[j].key != s[i].key {
      assert Faithful(rows, rid, s[j]) && Faithful(rows, rid, s[i]);
      if s[i].key.New? {
        NewKeysDiffer(s, f.counter, j, i);
      } else if s[j].key == s[i].key {
        assert multiset(Gather(Ids, s))[s[i].id.value] <= multiset(loaded)[s[i].id.value];
        DistinctCount(loaded, s[i].id.value);
        IdsDiffer(s, j, i);
        assert false;
      }
    }
  }

  /** Requests other than updates keep the contents of every row but a deleted one. */
  lemma ContentsKept(lib: Library, rows: Rows, e: Edit)
    requires WellOrdered(rows) && Enabled(rows, e) && Actions.After(lib, rows, e).Some? && !e.Change?
    ensures var rows' := Actions.After(lib, rows, e).value;
            forall id | id in rows && (e.Remove? ==> id != e.id) ::
              id in rows'
              && rows'[id] == rows[id].(position := rows'[id].position)
              && (rows[id].routineId != RoutineOf(rows, e) ==> rows'[id] == rows[id])
  {
    forall id | id in rows && (e.Remove? ==> id != e.id)
      ensures var rows' := Actions.After(lib, rows, e).value;
              id in rows'
              && rows'[id] == rows[id].(position := rows'[id].position)
              && (rows[id].routineId != RoutineOf(rows, e) ==> rows'[id] == rows[id])
    {
      EditTouchesOneRoutine(lib, rows, e, id);
    }
  }

  lemma DeleteRemovesOne(rows: Rows, rid: int, id: int)
    requires WellOrdered(rows) && Of(rows, rid, id)
    ensures WellOrdered(Deleted(rows, id))
    ensures multiset(Order(rows, rid)) == multiset(Order(Deleted(rows, id), rid)) + multiset{id}
  {
    DeleteRefines(rows, id);
    MultisetSplit(Order(rows, rid), rows[id].position - 1);
  }

  lemma AppendAddsOne(lib: Library, rows: Rows, id: int, rid: int, t: ActionType, cfg: JsonObject)
    requires WellOrdered(rows) && id !in rows && ValidActionConfig(lib, t, cfg)
    ensures var after := Actions.After(lib, rows, Create(id, rid, None, t, cfg));
            after.Some? && WellOrdered(after.value) && Order(after.value, rid) == Order(rows, rid) + [id]
            && Of(after.value, rid, id) && after.value[id].actionType == t && after.value[id].config == cfg
  {
    var s := Order(rows, rid);
    InsertRefines(rows, id, Action(rid, |s| + 1, t, cfg));
    assert InsertAt(s, |s|, id) == s + [id];
  }

  /** Rows of other routines in `rows` are the same in `rows'`. */
  ghost predicate ElsewhereSame(rows: Rows, rows': Rows, rid: int) {
    forall id | id in rows && rows[id].routineId != rid :: id in rows' && rows'[id] == rows[id]
  }

  lemma StillFaithful(local: seq<StagedAction>, rows: Rows, rows': Rows, rid: int)
    requires AllFaithful(local, rows, rid)
    requires forall a | a in local && a.id.Some? && a.id.value in rows ::
               a.id.value in rows' && rows'[a.id.value] == rows[a.id.value].(position := rows'[a.id.value].position)
    ensures AllFaithful(local, rows', rid)
  {
    forall a | a in local ensures Faithful(rows', rid, a) {
      assert Faithful(rows, rid, a);
    }
  }

  /** While the deletes `left` are still to run: they and the shown actions are all listed, and exactly
      these when no delete failed; shown actions and other routines are as they were. */
  ghost predicate Deleting(local: seq<StagedAction>, rows: Rows, rows': Rows, rid: int, left: seq<int>, exact: bool)
    requires WellOrdered(rows')
  {
    && multiset(Gather(Ids, local)) + multiset(left) <= multiset(Order(rows', rid))
    && (exact ==> multiset(Gather(Ids, local)) + multiset(left) == multiset(Order(rows', rid)))
    && AllFaithful(local, rows', rid)
    && ElsewhereSame(rows, rows', rid)
  }

  lemma DeletionIsListed(rows: Rows, rid: int, local: seq<StagedAction>, left: seq<int>)
    requires WellOrdered(rows) && left != []
    requires multiset(Gather(Ids, local)) + multiset(left) <= multiset(Order(rows, rid))
    ensures Of(rows, rid, left[0])
    ensures multiset(left) == multiset(left[1..]) + multiset{left[0]}
    ensures forall a | a in local && a.id.Some? :: a.id.value != left[0]
  {
    var s, d := Order(rows, rid), left[0];
    assert left == [d] + left[1..];
    assert d in multiset(left);
    assert d in multiset(s);
    ListMembers(rows, rid, s);
    ListIsDistinct(rows, rid, s);
    DistinctCount(s, d);
    forall a | a in local && a.id.Some? ensures a.id.value != d {
      GathersId(local, a);
      assert a.id.value in multiset(Gather(Ids, local));
    }
  }

  /** The next delete, whether it fails or not. */
  lemma DeleteStep(lib: Library, rows: Rows, rows': Rows, rid: int, local: seq<StagedAction>, left: seq<int>, exact: bool)
    requires WellOrdered(rows') && left != [] && Deleting(local, rows, rows', rid, left, exact)
    ensures Of(rows', rid, left[0])
    ensures Deleting(local, rows, rows', rid, left[1..], false)
    ensures WellOrdered(Deleted(rows', left[0]))
    ensures Deleting(local, rows, Deleted(rows', left[0]), rid, left[1..], exact)
  {
    DeletionIsListed(rows', rid, local, left);
    DeleteRemovesOne(rows', rid, left[0]);
    ContentsKept(lib, rows', Remove(left[0]));
    StillFaithful(local, rows', Deleted(rows', left[0]), rid);
  }

  /** The add form lets through what is not empty to JavaScript's `trim`; the server refuses what is blank
      to Python's `strip`. */
  predicate OnlyBlankForServer(lib: Library, a: StagedAction) {
    a.key.New? && a.actionType.Echo? && "message" in a.config && a.config["message"].JStr?
    && a.config["message"].s != "" && lib.isBlank(a.config["message"].s)
  }

  /** The first `|ids|` shown actions have their ids, and the rows of these ids hold what is shown. */
  ghost predicate Settled(local: seq<StagedAction>, rows: Rows, rid: int, keyToNewId: map<Key, int>, ids: seq<int>) {
    && |ids| <= |local|
    && forall j | 0 <= j < |ids| :: Holds(rows, rid, ids[j], local[j]) && IdFor(local[j], keyToNewId, ids[j])
  }

  /** The server lists the ids settled so far and the ids still shown further on. */
  ghost predicate Counted(local: seq<StagedAction>, order: seq<int>, ids: seq<int>)
    requires |ids| <= |local|
  {
    multiset(order) == multiset(ids) + multiset(Gather(Ids, local[|ids|..]))
  }

  /** After the creates for the first `|ids|` shown actions. */
  ghost predicate Creating(
    local: seq<StagedAction>, rows: Rows, rows': Rows, rid: int, keyToNewId: map<Key, int>, ids: seq<int>)
    requires WellOrdered(rows')
  {
    && AllFaithful(local, rows', rid)
    && ElsewhereSame(rows, rows', rid)
    && Settled(local, rows', rid, keyToNewId, ids)
    && Counted(local, Order(rows', rid), ids)
  }

  lemma CreatingStarts(local: seq<StagedAction>, rows: Rows, rid: int)
    requires WellOrdered(rows) && AllFaithful(local, rows, rid)
    requires multiset(Order(rows, rid)) == multiset(Gather(Ids, local))
    ensures Creating(local, rows, rows, rid, map[], [])
  {
    assert local[0..] == local;
  }

  lemma CountedStep(local: seq<StagedAction>, order: seq<int>, ids: seq<int>, id: int)
    requires |ids| < |local| && Counted(local, order, ids)
    ensures local[|ids|].id == Some(id) ==> Counted(local, order, ids + [id])
    ensures local[|ids|].id == None ==> Counted(local, order + [id], ids + [id])
  {
    var left, ids' := local[|ids|..], ids + [id];
    assert left[1..] == local[|ids'|..];
    assert multiset(Gather(Ids, left)) == multiset(One(Ids, left[0])) + multiset(Gather(Ids, left[1..]));
    assert multiset(ids') == multiset(ids) + multiset{id};
    assert multiset(order + [id]) == multiset(order) + multiset{id};
  }

  lemma SettledStep(
    local: seq<StagedAction>, counter: nat, rows: Rows, rows': Rows, rid: int, keyToNewId: map<Key, int>,
    ids: seq<int>, id: int)
    requires Settled(local, rows, rid, keyToNewId, ids) && KeysUsedOnce(Gather(NewKeys, local), counter)
    requires forall x | x in rows :: x in rows' && rows'[x] == rows[x].(position := rows'[x].position)
    requires |ids| < |local| && local[|ids|].id.None? && local[|ids|].key.New?
    requires Holds(rows', rid, id, local[|ids|])
    ensures Settled(local, rows', rid, keyToNewId[local[|ids|].key := id], ids + [id])
  {
    var ids' := ids + [id];
    forall j | 0 <= j < |ids'|
      ensures Holds(rows', rid, ids'[j], local[j]) && IdFor(local[j], keyToNewId[local[|ids|].key := id], ids'[j])
    {
      if j < |ids| {
        assert Holds(rows, rid, ids[j], local[j]) && IdFor(local[j], keyToNewId, ids[j]);
        NewKeysDiffer(local, counter, j, |ids|);
      }
    }
  }

  /** A shown action with an id is passed over. */
  lemma KeepStep(local: seq<StagedAction>, rows: Rows, rows': Rows, rid: int, keyToNewId: map<Key, int>, ids: seq<int>)
    requires WellOrdered(rows') && Creating(local, rows, rows', rid, keyToNewId, ids)
    requires |ids| < |local| && local[|ids|].id.Some?
    ensures Creating(local, rows, rows', rid, keyToNewId, ids + [local[|ids|].id.value])
  {
    assert Faithful(rows', rid, local[|ids|]);
    CountedStep(local, Order(rows', rid), ids, local[|ids|].id.value);
  }

  lemma NewActionAccepted(lib: Library, rows: Rows, rid: int, a: StagedAction)
    requires Faithful(rows, rid, a) && a.id.None?
    ensures a.key.New?
    ensures ValidActionConfig(lib, a.actionType, a.config) <==> !OnlyBlankForServer(lib, a)
  {
  }

  /** A new action is appended on the server, unless the server refuses its message. */
  lemma CreateStep(
    lib: Library, local: seq<StagedAction>, counter: nat, rows: Rows, rows': Rows, rid: int,
    keyToNewId: map<Key, int>, ids: seq<int>, id: int)
    requires WellOrdered(rows') && Creating(local, rows, rows', rid, keyToNewId, ids)
    requires KeysUsedOnce(Gather(NewKeys, local), counter)
    requires |ids| < |local| && local[|ids|].id.None? && id !in rows'
    requires ValidActionConfig(lib, local[|ids|].actionType, local[|ids|].config)
    ensures var a := local[|ids|];
            var after := Actions.After(lib, rows', Create(id, rid, None, a.actionType, a.config));
            after.Some? && WellOrdered(after.value)
            && Creating(local, rows, after.value, rid, keyToNewId[a.key := id], ids + [id])
  {
    var a := local[|ids|];
    assert Faithful(rows', rid, a);
    var e := Create(id, rid, None, a.actionType, a.config);
    AppendAddsOne(lib, rows', id, rid, a.actionType, a.config);
    var rows'' := Actions.After(lib, rows', e).value;
    ContentsKept(lib, rows', e);
    StillFaithful(local, rows', rows'', rid);
    SettledStep(local, counter, rows', rows'', rid, keyToNewId, ids, id);
    CountedStep(local, Order(rows', rid), ids, id);
  }

  lemma CreatingDone(local: seq<StagedAction>, rows: Rows, rows': Rows, rid: int, keyToNewId: map<Key, int>, ids: seq<int>)
    requires WellOrdered(rows') && |ids| == |local|
    requires Creating(local, rows, rows', rid, keyToNewId, ids)
    ensures FinalIds(local, keyToNewId) == ids && multiset(ids) == multiset(Order(rows', rid))
  {
    assert local[|ids|..] == [];
    FinalIdsAre(local, keyToNewId, ids);
  }

  /** The last request of a save: the reorder is accepted and gives the list on the screen. */
  lemma ReorderStep(
    lib: Library, local: seq<StagedAction>, rows: Rows, rows': Rows, rid: int, keyToNewId: map<Key, int>, ids: seq<int>)
    requires WellOrdered(rows') && |ids| == |local|
    requires Creating(local, rows, rows', rid, keyToNewId, ids)
    ensures FinalIds(local, keyToNewId) == ids
    ensures var after := Actions.After(lib, rows', Reorder(rid, ids));
            && after.Some?
            && ElsewhereSame(rows, after.value, rid)
            && ShownOnServer(local, ids, after.value, rid)
    ensures ids == [] ==> ShownOnServer(local, ids, rows', rid)
  {
    CreatingDone(local, rows, rows', rid, keyToNewId, ids);
    ReorderRefines(rows', rid, ids);
    ContentsKept(lib, rows', Reorder(rid, ids));
    if ids == [] {
      assert |multiset(Order(rows', rid))| == 0;
      assert Order(rows', rid) == [];
    }
  }

  /** Reordering a routine to the order it has changes nothing. */
  lemma ReorderToCurrentOrder(lib: Library, rows: Rows, rid: int)
    requires WellOrdered(rows)
    ensures Actions.After(lib, rows, Reorder(rid, Order(rows, rid))) == Some(rows)
  {
    var s := Order(rows, rid);
    ListIsDistinct(rows, rid, s);
    ListMembers(rows, rid, s);
    forall id | id in rows ensures Reordered(rows, s)[id] == rows[id] {
      if id in s {
        assert Of(rows, rid, id);
        PlaceAt(s, rows[id].position - 1);
      }
    }
    assert Reordered(rows, s) == rows;
  }

  ghost predicate AllNew(local: seq<StagedAction>, rows: Rows, rid: int) {
    forall a | a in local :: a.id.None? && Faithful(rows, rid, a)
  }

  /** The form was opened empty and then only edited. */
  ghost predicate EditedFromEmpty(edits: seq<FormEdit>, f: Form) {
    Reaches(Form([], [], 0), edits, f)
  }

  /** Such a form shows new actions only. */
  lemma EmptyFormIsKept(rows: Rows, rid: int, edits: seq<FormEdit>, f: Form)
    requires Lists(rows, rid, []) && EditedFromEmpty(edits, f)
    ensures AllNew(f.local, rows, rid)
  {
    InitialForm(rows, rid, []);
    assert Loaded(rows, []) == [];
    HistoryKeepsForm(Form([], [], 0), edits, f, [], rows, rid);
    assert |multiset(Gather(Ids, f.local))| == 0;
    forall a | a in f.local ensures a.id.None? {
      if a.id.Some? {
        GathersId(f.local, a);
        assert false;
      }
    }
  }

  /** On the create path, after the first `|ids|` creates. */
  ghost predicate Appending(local: seq<StagedAction>, rows: Rows, rows': Rows, rid: int, ids: seq<int>)
    requires WellOrdered(rows')
  {
    && |ids| <= |local| && Order(rows', rid) == ids
    && ElsewhereSame(rows, rows', rid)
    && AllNew(local, rows', rid)
    && (forall j | 0 <= j < |ids| :: Holds(rows', rid, ids[j], local[j]))
  }

  lemma AppendKeeps(local: seq<StagedAction>, rows: Rows, rows': Rows, rows'': Rows, rid: int, ids: seq<int>)
    requires ElsewhereSame(rows, rows', rid) && AllNew(local, rows', rid) && |ids| <= |local|
    requires forall j | 0 <= j < |ids| :: Holds(rows', rid, ids[j], local[j])
    requires forall x | x in rows' ::
               x in rows'' && rows''[x] == rows'[x].(position := rows''[x].position)
               && (rows'[x].routineId != rid ==> rows''[x] == rows'[x])
    ensures ElsewhereSame(rows, rows'', rid) && AllNew(local, rows'', rid)
    ensures forall j | 0 <= j < |ids| :: Holds(rows'', rid, ids[j], local[j])
  {
  }

  lemma AppendStep(lib: Library, local: seq<StagedAction>, rows: Rows, rows': Rows, rid: int, ids: seq<int>, id: int)
    requires WellOrdered(rows') && Appending(local, rows, rows', rid, ids) && |ids| < |local| && id !in rows'
    ensures var a := local[|ids|];
            var after := Actions.After(lib, rows', Create(id, rid, None, a.actionType, a.config));
            && (ValidActionConfig(lib, a.actionType, a.config) <==> !OnlyBlankForServer(lib, a))
            && (ValidActionConfig(lib, a.actionType, a.config) ==>
                  after.Some? && WellOrdered(after.value) && Appending(local, rows, after.value, rid, ids + [id]))
  {
    var a := local[|ids|];
    NewActionAccepted(lib, rows', rid, a);
    if ValidActionConfig(lib, a.actionType, a.config) {
      AppendAddsOne(lib, rows', id, rid, a.actionType, a.config);
      ContentsKept(lib, rows', Create(id, rid, None, a.actionType, a.config));
      AppendKeeps(local, rows, rows', Actions.After(lib, rows', Create(id, rid, None, a.actionType, a.config)).value, rid, ids);
    }
  }

  lemma {:induction false} LoadedEntries(rows: Rows, ids: seq<int>)
    requires forall i | 0 <= i < |ids| :: ids[i] in rows
    ensures |Loaded(rows, ids)| == |ids|
    ensures forall i | 0 <= i < |ids| ::
              var a := rows[ids[i]];
              Loaded(rows, ids)[i] == StagedAction(Some(ids[i]), a.actionType, a.config, a.position, Existing(ids[i]))
  {
    if ids != [] {
      LoadedEntries(rows, ids[1..]);
      forall i | 0 < i < |ids| ensures Loaded(rows, ids)[i] == Loaded(rows, ids[1..])[i - 1] && ids[i] == ids[1..][i - 1] {
      }
    }
  }

  /** After any history of edits that ends with a drag, a list that a save left on the server is the list the
      drag emitted, entry by entry. */
  lemma DraggedListIsSaved(
    rows: Rows, rid: int, edits: seq<FormEdit>, actions: seq<StagedAction>, f: Form, ids: seq<int>, rows': Rows)
    requires WellOrdered(rows) && EditedFrom(rows, rid, edits + [Drag(actions)], f)
    requires WellOrdered(rows') && ShownOnServer(f.local, ids, rows', rid)
    ensures |ids| == |actions| && Order(rows', rid) == ids
    ensures forall i | 0 <= i < |actions| ::
              Holds(rows', rid, ids[i], actions[i]) && (actions[i].id.Some? ==> ids[i] == actions[i].id.value)
  {
    var before := LastEdit(Form(Loaded(rows, Order(rows, rid)), [], 0), edits, Drag(actions), f);
    OrderIs(rows', rid, ids);
    forall i | 0 <= i < |actions|
      ensures Holds(rows', rid, ids[i], actions[i]) && (actions[i].id.Some? ==> ids[i] == actions[i].id.value)
    {
      assert f.local[i] == actions[i].(position := i + 1);
      assert Holds(rows', rid, ids[i], f.local[i]);
    }
  }

  lemma TakenOut(rows: Rows, rid: int, edits: seq<FormEdit>, before: Form, k: nat)
    requires WellOrdered(rows) && EditedFrom(rows, rid, edits, before) && k < |before.local|
    ensures AfterEdit(before, Take(before.local[k])).local == before.local[..k] + before.local[k + 1..]
  {
    EditedFormIsKept(rows, rid, edits, before);
    ListIsDistinct(rows, rid, Order(rows, rid));
    FormKeysDiffer(before, Order(rows, rid), rows, rid);
    FilterTakesOne(before.local, k);
  }

  /** After any history that ends with a remove, the saved list is the one before it without that place. */
  lemma RemovedActionIsNotSaved(
    rows: Rows, rid: int, edits: seq<FormEdit>, before: Form, k: nat, ids: seq<int>, rows': Rows)
    requires WellOrdered(rows) && EditedFrom(rows, rid, edits, before) && k < |before.local|
    requires ShownOnServer(AfterEdit(before, Take(before.local[k])).local, ids, rows', rid)
    ensures |ids| == |before.local| - 1
    ensures forall i | 0 <= i < |ids| :: Holds(rows', rid, ids[i], before.local[if i < k then i else i + 1])
  {
    TakenOut(rows, rid, edits, before, k);
    var local := before.local[..k] + before.local[k + 1..];
    forall i | 0 <= i < |ids| ensures Holds(rows', rid, ids[i], before.local[if i < k then i else i + 1]) {
      assert Holds(rows', rid, ids[i], local[i]);
    }
  }

  datatype SaveResult =
    | Saved(ids: seq<int>)
    | UpdateFailed
    | DeleteFailed
    | CreateFailed
    | CreateRejected
    | ReorderFailed
    | ReorderRejected

  /** Which requests of a save fail for reasons other than their content. */
  datatype Outage = Outage(update: bool, delete: int -> bool, create: nat -> bool, reorder: bool)

  class FormPage {
    const rid: int
    var localActions: seq<StagedAction>
    var removedActionIds: seq<int>
    var keyCounter: nat

    ghost function State(): Form
      reads this
    {
      Form(localActions, removedActionIds, keyCounter)
    }

    /** The watcher that fills the form from the fetched routine. */
    constructor Load(server: ActionStore, rid: int)
      requires server.Valid()
      ensures this.rid == rid && Fresh(State(), server.committed, rid)
      ensures var ids := Order(server.committed, rid);
              && removedActionIds == [] && |localActions| == |ids|
              && forall i | 0 <= i < |ids| ::
                   && localActions[i].id == Some(ids[i]) && localActions[i].key == Existing(ids[i])
                   && Holds(server.committed, rid, ids[i], localActions[i])
    {
      this.rid := rid;
      removedActionIds, keyCounter := [], 0;
      new;
      var ids := server.ListActions(rid);
      localActions := Loaded(server.committed, ids);
      LoadedEntries(server.committed, ids);
    }

    method ReorderActions(actions: seq<StagedAction>)
      modifies this
      ensures State() == AfterEdit(old(State()), Drag(actions))
      ensures |localActions| == |actions|
      ensures forall i | 0 <= i < |actions| ::
                && localActions[i].id == actions[i].id && localActions[i].key == actions[i].key
                && localActions[i].actionType == actions[i].actionType && localActions[i].config == actions[i].config
                && localActions[i].position == i + 1
      ensures removedActionIds == old(removedActionIds) && keyCounter == old(keyCounter)
    {
      localActions := Renumbered(actions);
    }

    method RemoveAction(action: StagedAction)
      modifies this
      ensures State() == AfterEdit(old(State()), Take(action))
      ensures removedActionIds == old(removedActionIds) + if action.id.Some? then [action.id.value] else []
      ensures KeysDiffer(old(localActions)) ==>
                forall k | 0 <= k < |old(localActions)| && old(localActions)[k] == action ::
                  localActions == old(localActions)[..k] + old(localActions)[k + 1..]
    {
      if KeysDiffer(localActions) {
        forall k | 0 <= k < |localActions| && localActions[k] == action
          ensures WithoutKey(localActions, action.key) == localActions[..k] + localActions[k + 1..]
        {
          FilterTakesOne(localActions, k);
        }
      }
      if action.id.Some? {
        removedActionIds := removedActionIds + [action.id.value];
      }
      localActions := WithoutKey(localActions, action.key);
    }

    /** `addAction`. `trimmed` is the message after JavaScript's `trim`. */
    method AddAction(actionType: ActionType, trimmed: string, sleepSeconds: int) returns (added: bool)
      modifies this
      ensures added <==> if actionType.Echo? then trimmed != "" else sleepSeconds > 0
      ensures !added ==> State() == old(State())
      ensures added ==>
                var cfg := if actionType.Echo? then map["message" := JStr(trimmed)] else map["seconds" := JInt(sleepSeconds)];
                && FormConfig(actionType, cfg) && State() == AfterEdit(old(State()), Add(actionType, cfg))
                && keyCounter == old(keyCounter) + 1 && removedActionIds == old(removedActionIds)
                && localActions == old(localActions)
                                   + [StagedAction(None, actionType, cfg, |old(localActions)| + 1, New(keyCounter))]
    {
      if actionType.Echo? && trimmed == "" {
        return false;
      }
      if actionType.Sleep? && sleepSeconds <= 0 {
        return false;
      }
      var config: JsonObject := if actionType.Echo? then map["message" := JStr(trimmed)] else map["seconds" := JInt(sleepSeconds)];
      keyCounter := keyCounter + 1;
      localActions := localActions + [StagedAction(None, actionType, config, |localActions| + 1, New(keyCounter))];
      return true;
    }

    /** The deletes of a save. They run concurrently, each one atomic; `deletions` is the order in which
        they happen to run. All are sent even when one fails. */
    method DeleteRemoved(server: ActionStore, deletions: seq<int>, outage: Outage) returns (ok: bool)
      requires server.Valid() && multiset(deletions) == multiset(removedActionIds)
      requires FormInv(State(), Order(server.committed, rid), server.committed, rid)
      modifies server`committed, server`staged
      ensures server.Valid()
      ensures AllFaithful(localActions, server.committed, rid)
      ensures ok ==> multiset(Order(server.committed, rid)) == multiset(Gather(Ids, localActions))
      ensures !ok ==> exists id :: id in removedActionIds && outage.delete(id)
      ensures ElsewhereSame(old(server.committed), server.committed, rid)
    {
      ok := true;
      ghost var rows := server.committed;
      assert deletions[0..] == deletions;
      for i := 0 to |deletions|
        invariant server.Valid()
        invariant Deleting(localActions, rows, server.committed, rid, deletions[i..], ok)
        invariant !ok ==> exists id :: id in removedActionIds && outage.delete(id)
      {
        assert deletions[i] in removedActionIds by { assert deletions[i] in multiset(deletions); }
        DeleteStep(server.lib, rows, server.committed, rid, localActions, deletions[i..], ok);
        assert deletions[i..][1..] == deletions[i + 1..];
        var deleted := server.DeleteAction(deletions[i], outage.delete(deletions[i]), false);
        ok := ok && deleted;
      }
    }

    /** The creates of a save, one after the other, lines 258 to 265. */
    method CreateNew(server: ActionStore, outage: Outage)
      returns (result: SaveResult, keyToNewId: map<Key, int>, ghost ids: seq<int>)
      requires server.Valid() && KeysUsedOnce(Gather(NewKeys, localActions), keyCounter)
      requires AllFaithful(localActions, server.committed, rid)
      requires multiset(Order(server.committed, rid)) == multiset(Gather(Ids, localActions))
      modifies server
      ensures server.Valid()
      ensures ElsewhereSame(old(server.committed), server.committed, rid)
      ensures result.Saved? || result.CreateFailed? || result.CreateRejected?
      ensures result.Saved? ==> Creating(localActions, old(server.committed), server.committed, rid, keyToNewId, ids)
                                && |ids| == |localActions|
      ensures result.CreateFailed? ==> exists i :: 0 <= i < |localActions| && outage.create(i)
      ensures result.CreateRejected? ==> exists a :: a in localActions && OnlyBlankForServer(server.lib, a)
    {
      ghost var rows := server.committed;
      keyToNewId, ids := map[], [];
      CreatingStarts(localActions, rows, rid);
      for i := 0 to |localActions|
        invariant server.Valid() && |ids| == i
        invariant Creating(localActions, rows, server.committed, rid, keyToNewId, ids)
      {
        var action := localActions[i];
        if action.id.None? {
          NewActionAccepted(server.lib, server.committed, rid, action);
          if ValidActionConfig(server.lib, action.actionType, action.config) {
            CreateStep(server.lib, localActions, keyCounter, rows, server.committed, rid, keyToNewId, ids, server.nextId);
          }
          var created := server.CreateAction(rid, None, action.actionType, action.config, outage.create(i));
          if created.None? {
            result := if ValidActionConfig(server.lib, action.actionType, action.config) then CreateFailed else CreateRejected;
            return;
          }
          keyToNewId := keyToNewId[action.key := created.value];
          ids := ids + [created.value];
        } else {
          KeepStep(localActions, rows, server.committed, rid, keyToNewId, ids);
          ids := ids + [action.id.value];
        }
      }
      result := Saved([]);
    }

    /** The edit path of `save`, first attempt, after any history of edits. Nobody else writes to the
        routine since it was loaded. A failure has its cause in a request that failed or in a message the
        server finds blank, so without these the save succeeds; the final reorder is never rejected. */
    method Save(server: ActionStore, deletions: seq<int>, outage: Outage, ghost edits: seq<FormEdit>)
      returns (result: SaveResult)
      requires server.Valid() && EditedFrom(server.committed, rid, edits, State())
      requires multiset(deletions) == multiset(removedActionIds)
      modifies server
      ensures server.Valid()
      ensures ElsewhereSame(old(server.committed), server.committed, rid)
      ensures result.Saved? ==> ShownOnServer(localActions, result.ids, server.committed, rid)
      ensures !result.ReorderRejected?
      ensures result.UpdateFailed? ==> outage.update
      ensures result.DeleteFailed? ==> exists id :: id in removedActionIds && outage.delete(id)
      ensures result.CreateFailed? ==> exists i :: 0 <= i < |localActions| && outage.create(i)
      ensures result.ReorderFailed? ==> outage.reorder
      ensures result.CreateRejected? ==> exists a :: a in localActions && OnlyBlankForServer(server.lib, a)
    {
      EditedFormIsKept(server.committed, rid, edits, State());
      if outage.update {
        return UpdateFailed;
      }
      var deleted := DeleteRemoved(server, deletions, outage);
      if !deleted {
        return DeleteFailed;
      }
      ghost var rows := server.committed;
      var created, keyToNewId;
      ghost var ids;
      created, keyToNewId, ids := CreateNew(server, outage);
      if !created.Saved? {
        return created;
      }
      ReorderStep(server.lib, localActions, rows, server.committed, rid, keyToNewId, ids);
      var finalIds := FinalIds(localActions, keyToNewId);
      if |finalIds| > 0 {
        var reordered := server.ReorderActions(rid, finalIds, outage.reorder);
        if !reordered {
          return if outage.reorder then ReorderFailed else ReorderRejected;
        }
      }
      return Saved(finalIds);
    }

    /** The create path of `save`, lines 284 to 294, after any history of edits of an empty form and once the
        routine `newRid` exists. When it succeeds, the creates alone have put the list on the server and the
        final reorder has changed nothing. */
    method SaveActionsOfNewRoutine(server: ActionStore, newRid: int, outage: Outage, ghost edits: seq<FormEdit>)
      returns (result: SaveResult, ghost beforeReorder: Rows)
      requires server.Valid() && Order(server.committed, newRid) == []
      requires EditedFromEmpty(edits, State())
      modifies server
      ensures server.Valid()
      ensures ElsewhereSame(old(server.committed), server.committed, newRid)
      ensures result.Saved? ==> ShownOnServer(localActions, result.ids, server.committed, newRid)
      ensures result.Saved? ==>
                WellOrdered(beforeReorder) && Order(beforeReorder, newRid) == result.ids && server.committed == beforeReorder
      ensures !result.UpdateFailed? && !result.DeleteFailed? && !result.ReorderRejected?
      ensures result.CreateFailed? ==> exists i :: 0 <= i < |localActions| && outage.create(i)
      ensures result.ReorderFailed? ==> outage.reorder
      ensures result.CreateRejected? ==> exists a :: a in localActions && OnlyBlankForServer(server.lib, a)
    {
      ghost var rows := server.committed;
      EmptyFormIsKept(rows, newRid, edits, State());
      beforeReorder := server.committed;
      if |localActions| == 0 {
        return Saved([]), beforeReorder;
      }
      var newIds := [];
      for i := 0 to |localActions|
        invariant server.Valid() && |newIds| == i
        invariant Appending(localActions, rows, server.committed, newRid, newIds)
      {
        var action := localActions[i];
        AppendStep(server.lib, localActions, rows, server.committed, newRid, newIds, server.nextId);
        var created := server.CreateAction(newRid, None, action.actionType, action.config, outage.create(i));
        if created.None? {
          result := if ValidActionConfig(server.lib, action.actionType, action.config) then CreateFailed else CreateRejected;
          return;
        }
        newIds := newIds + [created.value];
      }
      beforeReorder := server.committed;
      ReorderToCurrentOrder(server.lib, server.committed, newRid);
      var reordered := server.ReorderActions(newRid, newIds, outage.reorder);
      if !reordered {
        return ReorderFailed, beforeReorder;
      }
      return Saved(newIds), beforeReorder;
    }
  }
}
