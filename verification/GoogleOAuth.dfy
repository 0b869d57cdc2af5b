/** backend/google_oauth.py and the first half of `google_callback` in backend/user_routes.py: the OAuth
    state and the PKCE verifier (RFC 7636 sections 4.1 and 4.6, RFC 6749 section 10.12) are kept for ten
    minutes and consumed once. */
module GoogleOAuth {
  import opened Wrappers
  import opened Redis

  const STATE_TTL_SECONDS := 600.0

  /** The MULTI/EXEC pipeline of `generate_state`. */
  function Remember(r: Store, state: string, verifier: string, fate: Fate): Store {
    SetEx(SetEx(r, StateKey(state), STATE_TTL_SECONDS, "1", fate), PkceKey(state), STATE_TTL_SECONDS, verifier, fate)
  }

  // ---------------------------------------------------------------------------
  // The functions, as they run without interruption
  // ---------------------------------------------------------------------------

  /** `generate_state`; both values are fresh random strings. */
  method GenerateState(redis: Client, state: string, verifier: string, fate: Fate) returns (raised: bool)
    modifies redis
    ensures redis.Now() == Remember(old(redis.Now()), state, verifier, fate)
    ensures raised <==> !fate.Answered?
  {
    raised := redis.Setex(StateKey(state), STATE_TTL_SECONDS, "1", fate);
    raised := redis.Setex(PkceKey(state), STATE_TTL_SECONDS, verifier, fate);
  }

  /** `validate_and_consume_state`: anything but a live state raises. */
  method ValidateAndConsumeState(redis: Client, state: string, fate: Fate) returns (raised: bool)
    modifies redis
    ensures redis.Now() == Removed(old(redis.Now()), StateKey(state), fate)
    ensures raised <==> !fate.Answered? || !Live(old(redis.Now()), StateKey(state))
  {
    var value;
    raised, value := redis.Getdel(StateKey(state), fate);
    raised := raised || value.None?;
  }

  /** `consume_pkce_verifier` */
  method ConsumePkceVerifier(redis: Client, state: string, fate: Fate) returns (raised: bool, verifier: Option<string>)
    modifies redis
    ensures redis.Now() == Removed(old(redis.Now()), PkceKey(state), fate)
    ensures raised <==> !fate.Answered?
    ensures verifier == if raised then None else Answer(old(redis.Now()), PkceKey(state))
  {
    raised, verifier := redis.Getdel(PkceKey(state), fate);
  }

  /** Redis after a callback with a code: the state goes first, the verifier only after a live state. */
  function AfterCallback(r: Store, state: string, stateFate: Fate, pkceFate: Fate): Store {
    var r' := Removed(r, StateKey(state), stateFate);
    if stateFate.Answered? && Live(r, StateKey(state)) then Removed(r', PkceKey(state), pkceFate) else r'
  }

  /** The verifier a callback with a code gets to the exchange with. */
  function Granted(r: Store, state: string, stateFate: Fate, pkceFate: Fate): Option<string> {
    if stateFate.Answered? && pkceFate.Answered? && Live(r, StateKey(state)) then Answer(r, PkceKey(state)) else None
  }

  /** `google_callback` up to the code exchange, lines 126 to 146: the verifier the exchange is made with,
      `None` when the request is refused. */
  method CallbackToExchange(redis: Client, state: string, hasCode: bool, stateFate: Fate, pkceFate: Fate)
    returns (verifier: Option<string>)
    modifies redis
    ensures verifier == if hasCode then Granted(old(redis.Now()), state, stateFate, pkceFate) else None
    ensures redis.Now() == if hasCode then AfterCallback(old(redis.Now()), state, stateFate, pkceFate) else old(redis.Now())
  {
    if !hasCode {
      return None;
    }
    var raised := ValidateAndConsumeState(redis, state, stateFate);
    if raised {
      return None;
    }
    raised, verifier := ConsumePkceVerifier(redis, state, pkceFate);
    if raised {
      return None;
    }
  }

  // ---------------------------------------------------------------------------
  // Every interleaving
  // ---------------------------------------------------------------------------

  datatype Login = Login(verifier: string, at: real)

  /** One callback request: it has arrived, has consumed the state, has consumed the verifier as well, has
      exchanged the code, or has ended with an error. `since` is when the state was consumed, `until` when
      the verifier was. */
  datatype Callback =
    | Arrived(state: string)
    | StateTaken(state: string, since: real)
    | VerifierTaken(state: string, verifier: string, since: real, until: real)
    | Exchanged(state: string, verifier: string, since: real, until: real)
    | Ended

  datatype System = System(redis: Store, logins: map<string, Login>, callbacks: map<int, Callback>)

  datatype Step =
    | Tick(time: real)
    | Begin(state: string, verifier: string, fate: Fate)
    | Arrive(c: int, state: string)
    | TakeState(c: int, fate: Fate)
    | TakeVerifier(c: int, fate: Fate)
    | Exchange(c: int)
    | Fail(c: int)

  predicate Enabled(y: System, s: Step) {
    match s
    case Tick(t) => t >= y.redis.clock
    case Begin(state, _, _) => state !in y.logins
    case Arrive(c, _) => c !in y.callbacks
    case TakeState(c, _) => c in y.callbacks && y.callbacks[c].Arrived?
    case TakeVerifier(c, _) => c in y.callbacks && y.callbacks[c].StateTaken?
    case Exchange(c) => c in y.callbacks && y.callbacks[c].VerifierTaken?
    case Fail(c) => c in y.callbacks && !y.callbacks[c].Exchanged?
  }

  function After(y: System, s: Step): System
    requires Enabled(y, s)
  {
    match s
    case Tick(t) => y.(redis := y.redis.(clock := t))
    case Begin(state, verifier, fate) =>
      y.(redis := Remember(y.redis, state, verifier, fate), logins := y.logins[state := Login(verifier, y.redis.clock)])
    case Arrive(c, state) => y.(callbacks := y.callbacks[c := Arrived(state)])
    case TakeState(c, fate) =>
      var state := y.callbacks[c].state;
      var next := if fate.Answered? && Live(y.redis, StateKey(state)) then StateTaken(state, y.redis.clock) else Ended;
      y.(redis := Removed(y.redis, StateKey(state), fate), callbacks := y.callbacks[c := next])
    case TakeVerifier(c, fate) =>
      var cb := y.callbacks[c];
      var verifier := Answer(y.redis, PkceKey(cb.state));
      var next := if fate.Answered? && verifier.Some?
                  then VerifierTaken(cb.state, verifier.value, cb.since, y.redis.clock) else Ended;
      y.(redis := Removed(y.redis, PkceKey(cb.state), fate), callbacks := y.callbacks[c := next])
    case Exchange(c) =>
      var cb := y.callbacks[c];
      y.(callbacks := y.callbacks[c := Exchanged(cb.state, cb.verifier, cb.since, cb.until)])
    case Fail(c) => y.(callbacks := y.callbacks[c := Ended])
  }

  /** The callback holds the right to exchange for its state, or has used it. */
  predicate Past(cb: Callback) {
    cb.StateTaken? || cb.VerifierTaken? || cb.Exchanged?
  }

  /** The Redis entries are those of the logins. */
  ghost predicate EntriesInv(y: System) {
    && (forall state | StateKey(state) in y.redis.entries ::
          state in y.logins && y.redis.entries[StateKey(state)].expires == y.logins[state].at + STATE_TTL_SECONDS)
    && (forall state | PkceKey(state) in y.redis.entries ::
          state in y.logins
          && y.redis.entries[PkceKey(state)] == Entry(y.logins[state].verifier, y.logins[state].at + STATE_TTL_SECONDS))
    && (forall state | state in y.logins :: y.logins[state].at <= y.redis.clock)
  }

  /** A state is in Redis or in the hands of one callback, never both. */
  ghost predicate OnceInv(y: System) {
    && (forall c | c in y.callbacks && Past(y.callbacks[c]) :: StateKey(y.callbacks[c].state) !in y.redis.entries)
    && (forall c, d | c in y.callbacks && d in y.callbacks && c != d && Past(y.callbacks[c]) && Past(y.callbacks[d]) ::
          y.callbacks[c].state != y.callbacks[d].state)
  }

  /** A moment inside the ten minutes after the login of `state`. */
  predicate InTime(y: System, state: string, time: real) {
    state in y.logins && y.logins[state].at <= time < y.logins[state].at + STATE_TTL_SECONDS
  }

  ghost predicate CallbacksInv(y: System) {
    forall c | c in y.callbacks ::
      match y.callbacks[c]
      case StateTaken(state, since) => InTime(y, state, since)
      case VerifierTaken(state, verifier, since, until) =>
        InTime(y, state, since) && InTime(y, state, until) && verifier == y.logins[state].verifier
      case Exchanged(state, verifier, since, until) =>
        InTime(y, state, since) && InTime(y, state, until) && verifier == y.logins[state].verifier
      case _ => true
  }

  ghost predicate Inv(y: System) {
    EntriesInv(y) && OnceInv(y) && CallbacksInv(y)
  }

  lemma StepKeepsEntries(y: System, s: Step)
    requires Inv(y) && Enabled(y, s)
    ensures EntriesInv(After(y, s))
  {
  }

  lemma StepKeepsOnce(y: System, s: Step)
    requires Inv(y) && Enabled(y, s)
    ensures OnceInv(After(y, s))
  {
  }

  lemma StepKeepsCallbacks(y: System, s: Step)
    requires Inv(y) && Enabled(y, s)
    ensures CallbacksInv(After(y, s))
  {
  }

  ghost predicate Reaches(y: System, steps: seq<Step>, y': System)
    decreases |steps|
  {
    if steps == [] then y' == y
    else Enabled(y, steps[0]) && Reaches(After(y, steps[0]), steps[1..], y')
  }

  lemma RunOfTwo(y: System, s1: Step, s2: Step)
    requires Enabled(y, s1) && Enabled(After(y, s1), s2)
    ensures Reaches(y, [s1, s2], After(After(y, s1), s2))
  {
    assert [s1, s2][1..] == [s2] && [s2][1..] == [];
    assert Reaches(After(y, s1), [s2], After(After(y, s1), s2));
  }

  lemma {:induction false} InvAlways(y: System, steps: seq<Step>, y': System)
    requires Inv(y) && Reaches(y, steps, y')
    ensures Inv(y')
    decreases |steps|
  {
    if steps != [] {
      StepKeepsEntries(y, steps[0]);
      StepKeepsOnce(y, steps[0]);
      StepKeepsCallbacks(y, steps[0]);
      InvAlways(After(y, steps[0]), steps[1..], y');
    }
  }

  /** A callback that runs without interruption is a run of the machine, which exchanges the code exactly
      when `CallbackToExchange` returns a verifier, and with that verifier. */
  lemma CallbackIsRun(y: System, c: int, state: string, stateFate: Fate, pkceFate: Fate)
    returns (steps: seq<Step>, y': System)
    requires c !in y.callbacks
    ensures Reaches(y, steps, y') && c in y'.callbacks
    ensures y'.redis == AfterCallback(y.redis, state, stateFate, pkceFate)
    ensures var verifier := Granted(y.redis, state, stateFate, pkceFate);
            y'.callbacks[c] == if verifier.Some? then Exchanged(state, verifier.value, y.redis.clock, y.redis.clock) else Ended
  {
    var y1 := After(y, Arrive(c, state));
    var y2 := After(y1, TakeState(c, stateFate));
    if y2.callbacks[c].Ended? {
      steps, y' := [Arrive(c, state), TakeState(c, stateFate)], y2;
      RunOfTwo(y, steps[0], steps[1]);
      return;
    }
    var y3 := After(y2, TakeVerifier(c, pkceFate));
    RunOfTwo(y, Arrive(c, state), TakeState(c, stateFate));
    if y3.callbacks[c].Ended? {
      steps, y' := [Arrive(c, state), TakeState(c, stateFate), TakeVerifier(c, pkceFate)], y3;
      RunOfTwo(y1, steps[1], steps[2]);
      assert steps[1..] == [steps[1], steps[2]];
      return;
    }
    y' := After(y3, Exchange(c));
    var last := [TakeVerifier(c, pkceFate), Exchange(c)];
    RunOfTwo(y2, last[0], last[1]);
    steps := [Arrive(c, state)] + ([TakeState(c, stateFate)] + last);
    assert ([TakeState(c, stateFate)] + last)[1..] == last;
    assert steps[1..] == [TakeState(c, stateFate)] + last;
  }

  /** For every interleaving of logins, callbacks, expiries and Redis failures: a state is exchanged by at
      most one callback, state and verifier were consumed within the ten minutes, and the verifier is the
      one generated with the state. */
  lemma ExchangedOnceInTime(clock: real, steps: seq<Step>, y: System)
    requires Reaches(System(Store(map[], clock), map[], map[]), steps, y)
    ensures forall c, d | c in y.callbacks && d in y.callbacks && y.callbacks[c].Exchanged? && y.callbacks[d].Exchanged? ::
              y.callbacks[c].state == y.callbacks[d].state ==> c == d
    ensures forall c | c in y.callbacks && y.callbacks[c].Exchanged? ::
              var cb := y.callbacks[c];
              && InTime(y, cb.state, cb.since) && InTime(y, cb.state, cb.until)
              && cb.verifier == y.logins[cb.state].verifier
  {
    InvAlways(System(Store(map[], clock), map[], map[]), steps, y);
  }

  ghost predicate NotPresented(y: System, state: string) {
    forall c | c in y.callbacks && !y.callbacks[c].Ended? :: y.callbacks[c].state != state
  }

  /** The login is waiting for its callback: both entries are in Redis, and nobody has presented the state. */
  ghost predicate Waiting(y: System, state: string, login: Login) {
    && state in y.logins && y.logins[state] == login
    && StateKey(state) in y.redis.entries && PkceKey(state) in y.redis.entries
    && y.redis.entries[StateKey(state)].expires == login.at + STATE_TTL_SECONDS
    && y.redis.entries[PkceKey(state)] == Entry(login.verifier, login.at + STATE_TTL_SECONDS)
    && NotPresented(y, state)
  }

  lemma {:induction false} WaitingStays(y: System, steps: seq<Step>, y': System, state: string, login: Login)
    requires Waiting(y, state, login) && Reaches(y, steps, y')
    requires forall s | s in steps && s.Arrive? :: s.state != state
    ensures Waiting(y', state, login)
    decreases |steps|
  {
    if steps != [] {
      assert steps[0] in steps && forall s | s in steps[1..] :: s in steps;
      assert Waiting(After(y, steps[0]), state, login);
      WaitingStays(After(y, steps[0]), steps[1..], y', state, login);
    }
  }

  /** An ordinary login succeeds: once its values are stored, and whatever logins, callbacks for other states
      and failures come in between, the first callback that presents its state gets the verifier of this login
      if and only if it comes within the ten minutes. */
  lemma LoginGetsItsVerifier(y: System, state: string, verifier: string, steps: seq<Step>, y': System)
    requires Enabled(y, Begin(state, verifier, Answered)) && NotPresented(y, state)
    requires Reaches(After(y, Begin(state, verifier, Answered)), steps, y')
    requires forall s | s in steps && s.Arrive? :: s.state != state
    ensures Granted(y'.redis, state, Answered, Answered)
            == if y'.redis.clock < y.redis.clock + STATE_TTL_SECONDS then Some(verifier) else None
  {
    WaitingStays(After(y, Begin(state, verifier, Answered)), steps, y', state, Login(verifier, y.redis.clock));
  }
}
