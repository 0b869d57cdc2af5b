/** backend/user_routes.py (`google_callback` from line 202 on, `refresh_token`, `logout`) and
    backend/security.py: refresh-token rotation (RFC 6749 section 6) and revocation of access tokens by
    `jti` (RFC 7519 sections 4.1.4 and 4.1.7). */
module Sessions {
  import opened Wrappers
  import opened Redis

  /** The claims of a signed access token. `exp` is a whole number of seconds. */
  datatype AccessToken = AccessToken(sub: string, exp: int, jti: string)

  /** `int(exp - now)` for a token that has not expired yet, else 0. */
  function Remaining(exp: int, now: real): int {
    if exp as real - now >= 0.0 then (exp as real - now).Floor else 0
  }

  datatype Decoded = Subject(sub: string) | Unauthorized | Unavailable

  /** `leeway` is how far past `exp` the JWT library still accepts a token. */
  predicate Expired(t: AccessToken, now: real, leeway: real) {
    now >= t.exp as real + leeway
  }

  /** What `_decode_token_subject` answers for a token with a valid signature. */
  function DecodeSubject(t: AccessToken, r: Store, leeway: real, fate: Fate): Decoded {
    if Expired(t, r.clock, leeway) then Unauthorized
    else if !fate.Answered? then Unavailable
    else if Live(r, RevokedKey(t.jti)) then Unauthorized
    else Subject(t.sub)
  }

  // ---------------------------------------------------------------------------
  // The handlers
  // ---------------------------------------------------------------------------

  /** `_decode_token_subject`: without an answer from Redis nobody gets in. */
  method DecodeTokenSubject(redis: Client, t: AccessToken, leeway: real, fate: Fate) returns (r: Decoded)
    ensures r == DecodeSubject(t, redis.Now(), leeway, fate)
    ensures r.Subject? <==> redis.clock < t.exp as real + leeway && fate.Answered? && !Live(redis.Now(), RevokedKey(t.jti))
    ensures r.Subject? ==> r.sub == t.sub && fate.Answered? && !Live(redis.Now(), RevokedKey(t.jti))
  {
    if redis.clock >= t.exp as real + leeway {
      return Unauthorized;
    }
    var raised, found := redis.Exists(RevokedKey(t.jti), fate);
    if raised {
      return Unavailable;
    }
    return if found then Unauthorized else Subject(t.sub);
  }

  /** The end of `google_callback`, lines 216 to 223: the refresh token of the new login. */
  method StoreRefreshToken(redis: Client, token: string, email: string, ttl: real, fate: Fate) returns (raised: bool)
    modifies redis
    ensures redis.Now() == SetEx(old(redis.Now()), RefreshKey(token), ttl, email, fate)
    ensures raised <==> !fate.Answered?
    ensures !raised ==> RefreshKey(token) in redis.entries
                        && redis.entries[RefreshKey(token)] == Entry(email, old(redis.clock) + ttl)
  {
    raised := redis.Setex(RefreshKey(token), ttl, email, fate);
  }

  /** The refresh request gets as far as storing a new token: its token was live and the user row could be
      read. */
  predicate Rotates(r: Store, cookie: Option<string>, getFate: Fate, lookupFails: bool) {
    cookie.Some? && getFate.Answered? && Live(r, RefreshKey(cookie.value)) && !lookupFails
  }

  /** Redis after a refresh request. */
  function AfterRefresh(
    r: Store, cookie: Option<string>, newToken: string, ttl: real, getFate: Fate, lookupFails: bool, setFate: Fate): Store
  {
    if cookie.None? then r
    else
      var r' := Removed(r, RefreshKey(cookie.value), getFate);
      if Rotates(r, cookie, getFate, lookupFails)
      then SetEx(r', RefreshKey(newToken), ttl, r.entries[RefreshKey(cookie.value)].value, setFate)
      else r'
  }

  /** `refresh_token`: `newToken` is the new random token, `ttl` its lifetime; `lookupFails` is a failure of
      the user query between the two commands. The answer is the email and the new refresh token. */
  method RefreshToken(
    redis: Client, cookie: Option<string>, newToken: string, ttl: real, getFate: Fate, lookupFails: bool, setFate: Fate)
    returns (r: Option<(string, string)>)
    modifies redis
    ensures r.Some? <==> Rotates(old(redis.Now()), cookie, getFate, lookupFails) && setFate.Answered?
    ensures r.Some? ==> r.value == (old(redis.entries)[RefreshKey(cookie.value)].value, newToken)
    ensures redis.Now() == AfterRefresh(old(redis.Now()), cookie, newToken, ttl, getFate, lookupFails, setFate)
    ensures cookie.Some? && !getFate.Refused? && cookie.value != newToken ==> RefreshKey(cookie.value) !in redis.entries
    ensures getFate.Answered? && !lookupFails && setFate.Answered? ==>
              (r.Some? <==> cookie.Some? && RefreshKey(cookie.value) in old(redis.entries)
                            && old(redis.clock) < old(redis.entries)[RefreshKey(cookie.value)].expires)
    ensures r.Some? ==>
              && cookie.Some? && RefreshKey(cookie.value) in old(redis.entries)
              && RefreshKey(newToken) in redis.entries
              && redis.entries[RefreshKey(newToken)]
                 == Entry(old(redis.entries)[RefreshKey(cookie.value)].value, old(redis.clock) + ttl)
    ensures forall k | k != RefreshKey(newToken) && (cookie.None? || k != RefreshKey(cookie.value)) ::
              (k in redis.entries <==> k in old(redis.entries))
              && (k in redis.entries ==> redis.entries[k] == old(redis.entries)[k])
  {
    if cookie.None? {
      return None;
    }
    var raised, email := redis.Getdel(RefreshKey(cookie.value), getFate);
    if raised || email.None? || lookupFails {
      return None;
    }
    raised := redis.Setex(RefreshKey(newToken), ttl, email.value, setFate);
    if raised {
      return None;
    }
    return Some((email.value, newToken));
  }

  /** The token `_get_token_from_request` picks: the cookie, else the bearer header. */
  function Presented(access: Option<AccessToken>, bearer: Option<AccessToken>): Option<AccessToken> {
    if access.Some? then access else bearer
  }

  /** The user dependency of `logout` lets the request in. */
  predicate LetIn(
    r: Store, access: Option<AccessToken>, bearer: Option<AccessToken>, leeway: real, checkFate: Fate)
  {
    var token := Presented(access, bearer);
    token.None? || DecodeSubject(token.value, r, leeway, checkFate).Subject?
  }

  /** The revocation half of a logout. */
  function Revoked(r: Store, t: AccessToken, leeway: real, fate: Fate): Store {
    var remaining := Remaining(t.exp, r.clock);
    if Expired(t, r.clock, leeway) || remaining == 0 then r
    else SetEx(r, RevokedKey(t.jti), remaining as real, "1", fate)
  }

  /** Redis after the two best-effort steps of a logout. */
  function AfterLogout(
    r: Store, access: Option<AccessToken>, refresh: Option<string>, leeway: real, setFate: Fate, deleteFate: Fate): Store
  {
    var r' := if access.Some? then Revoked(r, access.value, leeway, setFate) else r;
    if refresh.Some? then Removed(r', RefreshKey(refresh.value), deleteFate) else r'
  }

  lemma LogoutRefuses(
    r: Store, access: AccessToken, refresh: Option<string>, leeway: real, setFate: Fate, deleteFate: Fate)
    requires !setFate.Refused? && leeway >= 0.0 && r.clock <= access.exp as real - 1.0
    ensures var r' := AfterLogout(r, Some(access), refresh, leeway, setFate, deleteFate);
            forall time, fate | r.clock <= time <= access.exp as real - 1.0 ::
              !DecodeSubject(access, r'.(clock := time), leeway, fate).Subject?
  {
    var r' := AfterLogout(r, Some(access), refresh, leeway, setFate, deleteFate);
    assert RevokedKey(access.jti) in r'.entries
           && r'.entries[RevokedKey(access.jti)].expires > access.exp as real - 1.0;
  }

  /** The deletion takes effect unless it is refused, and no key but the two is written. */
  lemma LogoutDeletes(
    r: Store, access: Option<AccessToken>, refresh: Option<string>, leeway: real, setFate: Fate, deleteFate: Fate)
    ensures var r' := AfterLogout(r, access, refresh, leeway, setFate, deleteFate);
            && (refresh.Some? && !deleteFate.Refused? ==> RefreshKey(refresh.value) !in r'.entries)
            && (forall k | (access.None? || k != RevokedKey(access.value.jti)) && (refresh.None? || k != RefreshKey(refresh.value)) ::
                  (k in r'.entries <==> k in r.entries) && (k in r'.entries ==> r'.entries[k] == r.entries[k]))
  {
  }

  /** The first of the two steps. */
  method RevokeAccess(redis: Client, t: AccessToken, leeway: real, fate: Fate)
    modifies redis
    ensures redis.Now() == Revoked(old(redis.Now()), t, leeway, fate)
  {
    if redis.clock < t.exp as real + leeway {
      var remaining := Remaining(t.exp, redis.clock);
      if remaining > 0 {
        var swallowed := redis.Setex(RevokedKey(t.jti), remaining as real, "1", fate);
      }
    }
  }

  /** `logout`. Its own two steps are best effort, but the user dependency in its signature decodes the
      presented token first, and that raises for an expired or revoked token and when Redis is down: then
      nothing is revoked, nothing deleted, and no cookie cleared. */
  method Logout(
    redis: Client, access: Option<AccessToken>, bearer: Option<AccessToken>, refresh: Option<string>, leeway: real,
    checkFate: Fate, setFate: Fate, deleteFate: Fate)
    returns (done: bool)
    modifies redis
    ensures done <==> LetIn(old(redis.Now()), access, bearer, leeway, checkFate)
    ensures access.Some? ==>
              (done <==> old(redis.clock) < access.value.exp as real + leeway && checkFate.Answered?
                         && !Live(old(redis.Now()), RevokedKey(access.value.jti)))
    ensures access.None? && bearer.None? ==> done
    ensures redis.Now() == if done then AfterLogout(old(redis.Now()), access, refresh, leeway, setFate, deleteFate)
                           else old(redis.Now())
    ensures done && access.Some? && !setFate.Refused? && leeway >= 0.0 && old(redis.clock) <= access.value.exp as real - 1.0 ==>
              forall time, fate | old(redis.clock) <= time <= access.value.exp as real - 1.0 ::
                !DecodeSubject(access.value, redis.Now().(clock := time), leeway, fate).Subject?
    ensures done && refresh.Some? && !deleteFate.Refused? ==> RefreshKey(refresh.value) !in redis.entries
    ensures forall k | (access.None? || k != RevokedKey(access.value.jti)) && (refresh.None? || k != RefreshKey(refresh.value)) ::
              (k in redis.entries <==> k in old(redis.entries))
              && (k in redis.entries ==> redis.entries[k] == old(redis.entries)[k])
  {
    var token := Presented(access, bearer);
    if token.Some? {
      var user := DecodeTokenSubject(redis, token.value, leeway, checkFate);
      if !user.Subject? {
        return false;
      }
    }
    ghost var before := redis.Now();
    if access.Some? {
      RevokeAccess(redis, access.value, leeway, setFate);
    }
    if refresh.Some? {
      var swallowed := redis.Delete(RefreshKey(refresh.value), deleteFate);
    }
    assert redis.Now() == AfterLogout(before, access, refresh, leeway, setFate, deleteFate);
    LogoutDeletes(before, access, refresh, leeway, setFate, deleteFate);
    if access.Some? && !setFate.Refused? && leeway >= 0.0 && before.clock <= access.value.exp as real - 1.0 {
      LogoutRefuses(before, access.value, refresh, leeway, setFate, deleteFate);
    }
    return true;
  }

  // ---------------------------------------------------------------------------
  // Every interleaving
  // ---------------------------------------------------------------------------

  /** A refresh request between its GETDEL and its SETEX, and afterwards. */
  datatype Request = Carrying(root: int, email: string) | Closed

  /** `family` gives the login each refresh token descends from, `email` the email of each login, `exp` the
      expiry of each access token by `jti`; `redeemed` lists the refresh tokens GETDEL has returned. */
  datatype System = System(
    redis: Store,
    family: map<string, int>,
    email: map<int, string>,
    exp: map<string, int>,
    requests: map<int, Request>,
    redeemed: seq<string>)

  datatype Step =
    | Tick(time: real)
    | SignIn(root: int, mail: string, token: string, ttl: real, fate: Fate)
    | IssueAccess(jti: string, expiry: int)
    | Redeem(c: int, token: string, fate: Fate)
    | Reissue(c: int, token: string, ttl: real, fate: Fate)
    | Revoke(jti: string, leeway: real, fate: Fate)
    | Drop(token: string, fate: Fate)

  /** Logins, tokens and `jti`s are fresh. A token can be presented whether or not it was ever issued. */
  predicate Enabled(y: System, s: Step) {
    match s
    case Tick(t) => t >= y.redis.clock
    case SignIn(root, _, token, ttl, _) => root !in y.email && token !in y.family
    case IssueAccess(jti, _) => jti !in y.exp
    case Redeem(c, _, _) => c !in y.requests
    case Reissue(c, token, ttl, _) => c in y.requests && y.requests[c].Carrying? && token !in y.family
    case Revoke(jti, _, _) => jti in y.exp
    case Drop(_, _) => true
  }

  function After(y: System, s: Step): System
    requires Enabled(y, s)
  {
    match s
    case Tick(t) => y.(redis := y.redis.(clock := t))
    case SignIn(root, mail, token, ttl, fate) =>
      y.(redis := SetEx(y.redis, RefreshKey(token), ttl, mail, fate),
         family := y.family[token := root], email := y.email[root := mail])
    case IssueAccess(jti, expiry) => y.(exp := y.exp[jti := expiry])
    case Redeem(c, token, fate) =>
      var mail := Answer(y.redis, RefreshKey(token));
      var taken := fate.Answered? && mail.Some? && token in y.family;
      y.(redis := Removed(y.redis, RefreshKey(token), fate),
         requests := y.requests[c := if taken then Carrying(y.family[token], mail.value) else Closed],
         redeemed := if taken then y.redeemed + [token] else y.redeemed)
    case Reissue(c, token, ttl, fate) =>
      var carried := y.requests[c];
      y.(redis := SetEx(y.redis, RefreshKey(token), ttl, carried.email, fate),
         family := y.family[token := carried.root],
         requests := y.requests[c := Closed])
    case Revoke(jti, leeway, fate) =>
      y.(redis := Revoked(y.redis, AccessToken("", y.exp[jti], jti), leeway, fate))
    case Drop(token, fate) => y.(redis := Removed(y.redis, RefreshKey(token), fate))
  }

  /** Stored refresh tokens are known and carry the email of their login; so do requests under way. */
  ghost predicate EmailInv(y: System) {
    && (forall t | RefreshKey(t) in y.redis.entries ::
          t in y.family && y.family[t] in y.email && y.redis.entries[RefreshKey(t)].value == y.email[y.family[t]])
    && (forall c | c in y.requests && y.requests[c].Carrying? ::
          y.requests[c].root in y.email && y.requests[c].email == y.email[y.requests[c].root])
    && (forall t | t in y.family :: y.family[t] in y.email)
  }

  /** One login has at most one refresh token, stored or being rotated. */
  ghost predicate SingleInv(y: System) {
    && (forall t, u | RefreshKey(t) in y.redis.entries && RefreshKey(u) in y.redis.entries && t in y.family && u in y.family ::
          y.family[t] == y.family[u] ==> t == u)
    && (forall t, c | RefreshKey(t) in y.redis.entries && t in y.family && c in y.requests && y.requests[c].Carrying? ::
          y.family[t] != y.requests[c].root)
    && (forall c, d | c in y.requests && d in y.requests && y.requests[c].Carrying? && y.requests[d].Carrying? ::
          y.requests[c].root == y.requests[d].root ==> c == d)
  }

  ghost predicate RedeemedInv(y: System) {
    && (forall i, j | 0 <= i < j < |y.redeemed| :: y.redeemed[i] != y.redeemed[j])
    && (forall t | t in y.redeemed :: t in y.family && RefreshKey(t) !in y.redis.entries)
  }

  /** A revocation entry ends within the last second of its token's life, never after it. */
  ghost predicate RevocationInv(y: System) {
    forall j | RevokedKey(j) in y.redis.entries ::
      j in y.exp && y.exp[j] as real - 1.0 < y.redis.entries[RevokedKey(j)].expires <= y.exp[j] as real
  }

  ghost predicate Inv(y: System) {
    EmailInv(y) && SingleInv(y) && RedeemedInv(y) && RevocationInv(y)
  }

  lemma StepKeepsEmail(y: System, s: Step)
    requires Inv(y) && Enabled(y, s)
    ensures EmailInv(After(y, s))
  {
  }

  lemma StepKeepsSingle(y: System, s: Step)
    requires Inv(y) && Enabled(y, s)
    ensures SingleInv(After(y, s))
  {
  }

  lemma StepKeepsRedeemed(y: System, s: Step)
    requires Inv(y) && Enabled(y, s)
    ensures RedeemedInv(After(y, s))
  {
  }

  lemma StepKeepsRevocation(y: System, s: Step)
    requires Inv(y) && Enabled(y, s)
    ensures RevocationInv(After(y, s))
  {
  }

  ghost predicate Reaches(y: System, steps: seq<Step>, y': System)
    decreases |steps|
  {
    if steps == [] then y' == y
    else Enabled(y, steps[0]) && Reaches(After(y, steps[0]), steps[1..], y')
  }

  lemma {:induction false} InvAlways(y: System, steps: seq<Step>, y': System)
    requires Inv(y) && Reaches(y, steps, y')
    ensures Inv(y')
    decreases |steps|
  {
    if steps != [] {
      StepKeepsEmail(y, steps[0]);
      StepKeepsSingle(y, steps[0]);
      StepKeepsRedeemed(y, steps[0]);
      StepKeepsRevocation(y, steps[0]);
      InvAlways(After(y, steps[0]), steps[1..], y');
    }
  }

  ghost predicate Initial(y: System) {
    y.redis.entries == map[] && y.family == map[] && y.email == map[] && y.exp == map[] && y.requests == map[] && y.redeemed == []
  }

  /** In every reachable state, whatever Redis calls fail: at most one stored token descends from a login,
      none while a rotation of it is under way; no token is redeemed twice; and the email along the chain
      is the one of the login. */
  lemma OneLiveTokenPerLogin(y0: System, steps: seq<Step>, y: System)
    requires Initial(y0) && Reaches(y0, steps, y)
    ensures forall t, u | RefreshKey(t) in y.redis.entries && RefreshKey(u) in y.redis.entries ::
              t in y.family && u in y.family && (y.family[t] == y.family[u] ==> t == u)
    ensures forall t, c | RefreshKey(t) in y.redis.entries && c in y.requests && y.requests[c].Carrying? ::
              t in y.family && y.family[t] != y.requests[c].root
    ensures forall c, d | c in y.requests && d in y.requests && y.requests[c].Carrying? && y.requests[d].Carrying? ::
              y.requests[c].root == y.requests[d].root ==> c == d
    ensures forall i, j | 0 <= i < j < |y.redeemed| :: y.redeemed[i] != y.redeemed[j]
    ensures forall t | RefreshKey(t) in y.redis.entries ::
              y.family[t] in y.email && y.redis.entries[RefreshKey(t)].value == y.email[y.family[t]]
  {
    InvAlways(y0, steps, y);
  }

  /** A refresh request that runs without interruption is a run of the machine: the redemption of the
      presented token, and the issue of the new one in the same family. */
  lemma RefreshIsRun(
    y: System, c: int, token: string, newToken: string, ttl: real, getFate: Fate, lookupFails: bool, setFate: Fate)
    returns (steps: seq<Step>, y': System)
    requires Inv(y) && c !in y.requests && newToken !in y.family
    ensures steps == if Rotates(y.redis, Some(token), getFate, lookupFails)
                     then [Redeem(c, token, getFate), Reissue(c, newToken, ttl, setFate)] else [Redeem(c, token, getFate)]
    ensures Reaches(y, steps, y')
    ensures y'.redis == AfterRefresh(y.redis, Some(token), newToken, ttl, getFate, lookupFails, setFate)
    ensures Rotates(y.redis, Some(token), getFate, lookupFails) ==>
              && token in y.family && y'.family == y.family[newToken := y.family[token]]
              && y'.redeemed == y.redeemed + [token] && y'.requests == y.requests[c := Closed]
  {
    var redeem, reissue := Redeem(c, token, getFate), Reissue(c, newToken, ttl, setFate);
    var y1 := After(y, redeem);
    if Rotates(y.redis, Some(token), getFate, lookupFails) {
      steps, y' := [redeem, reissue], After(y1, reissue);
      assert steps[1..] == [reissue] && [reissue][1..] == [];
      assert Reaches(y1, [reissue], y');
    } else {
      steps, y' := [redeem], y1;
      assert steps[1..] == [];
    }
  }

  /** A logout that gets past its user dependency is a run of the machine: a revocation and a deletion. */
  lemma LogoutIsRun(
    y: System, access: Option<AccessToken>, refresh: Option<string>, leeway: real, setFate: Fate, deleteFate: Fate)
    returns (steps: seq<Step>, y': System)
    requires access.Some? ==> access.value.jti in y.exp && y.exp[access.value.jti] == access.value.exp
    ensures steps == (if access.Some? then [Revoke(access.value.jti, leeway, setFate)] else [])
                     + (if refresh.Some? then [Drop(refresh.value, deleteFate)] else [])
    ensures Reaches(y, steps, y')
    ensures y'.redis == AfterLogout(y.redis, access, refresh, leeway, setFate, deleteFate)
    ensures y' == y.(redis := y'.redis)
  {
    var revoke := if access.Some? then [Revoke(access.value.jti, leeway, setFate)] else [];
    var drop := if refresh.Some? then [Drop(refresh.value, deleteFate)] else [];
    var y1 := if access.Some? then After(y, revoke[0]) else y;
    steps, y' := revoke + drop, if refresh.Some? then After(y1, drop[0]) else y1;
    assert Reaches(y1, drop, y') by {
      assert refresh.Some? ==> drop[1..] == [];
    }
    assert access.Some? ==> steps[1..] == drop;
    assert access.None? ==> steps == drop;
  }

  // ---------------------------------------------------------------------------
  // What a logout does to the refresh chain
  // ---------------------------------------------------------------------------

  /** No refresh token of the login is stored, and none is about to be. */
  ghost predicate Ended(y: System, root: int) {
    && root in y.email
    && (forall t | RefreshKey(t) in y.redis.entries :: t in y.family && y.family[t] != root)
    && (forall c | c in y.requests && y.requests[c].Carrying? :: y.requests[c].root != root)
  }

  /** Deleting a refresh token ends its login exactly when no other token of the login is stored and no
      request is rotating one. */
  lemma DropEndsLogin(y: System, token: string, fate: Fate)
    requires Inv(y) && token in y.family && !fate.Refused?
    ensures Ended(After(y, Drop(token, fate)), y.family[token])
            <==> (forall t | RefreshKey(t) in y.redis.entries && t != token :: y.family[t] != y.family[token])
                 && (forall c | c in y.requests && y.requests[c].Carrying? :: y.requests[c].root != y.family[token])
  {
    var y' := After(y, Drop(token, fate));
    assert forall t :: RefreshKey(t) in y'.redis.entries <==> RefreshKey(t) in y.redis.entries && t != token;
  }

  lemma EndedStays(y: System, s: Step, root: int)
    requires Inv(y) && Ended(y, root) && Enabled(y, s)
    ensures Ended(After(y, s), root)
  {
  }

  lemma {:induction false} EndedForever(y: System, steps: seq<Step>, y': System, root: int)
    requires Inv(y) && Ended(y, root) && Reaches(y, steps, y')
    ensures Ended(y', root)
    decreases |steps|
  {
    if steps != [] {
      EndedStays(y, steps[0], root);
      InvAlways(y, [steps[0]], After(y, steps[0]));
      EndedForever(After(y, steps[0]), steps[1..], y', root);
    }
  }

  /** After a logout whose deletion of the stored token took effect, no token of that login is ever stored
      again, whatever requests follow. */
  lemma LogoutEndsLogin(y: System, token: string, fate: Fate, steps: seq<Step>, y': System)
    requires Inv(y) && RefreshKey(token) in y.redis.entries && !fate.Refused?
    requires Reaches(After(y, Drop(token, fate)), steps, y')
    ensures token in y.family
    ensures forall t | RefreshKey(t) in y'.redis.entries :: t in y'.family && y'.family[t] != y.family[token]
  {
    DropEndsLogin(y, token, fate);
    var y1 := After(y, Drop(token, fate));
    InvAlways(y, [Drop(token, fate)], y1);
    EndedForever(y1, steps, y', y.family[token]);
  }

  /** A logout that comes while a request is rotating the token does not stop it: the login goes on with the
      new token. */
  lemma RotationOutlivesLogout(y: System, c: int, token: string, dropFate: Fate, newToken: string, ttl: real)
    requires Inv(y) && c in y.requests && y.requests[c].Carrying? && newToken !in y.family
    ensures var y1 := After(y, Drop(token, dropFate));
            && Enabled(y1, Reissue(c, newToken, ttl, Answered))
            && var y2 := After(y1, Reissue(c, newToken, ttl, Answered));
               RefreshKey(newToken) in y2.redis.entries && y2.family[newToken] == y.requests[c].root
  {
  }

  // ---------------------------------------------------------------------------
  // Revocation
  // ---------------------------------------------------------------------------

  lemma {:induction false} RevocationStays(y: System, steps: seq<Step>, y': System, jti: string)
    requires Inv(y) && Reaches(y, steps, y') && jti in y.exp && RevokedKey(jti) in y.redis.entries
    ensures Inv(y') && RevokedKey(jti) in y'.redis.entries && jti in y'.exp && y'.exp[jti] == y.exp[jti]
    decreases |steps|
  {
    if steps != [] {
      StepKeepsEmail(y, steps[0]);
      StepKeepsSingle(y, steps[0]);
      StepKeepsRedeemed(y, steps[0]);
      StepKeepsRevocation(y, steps[0]);
      RevocationStays(After(y, steps[0]), steps[1..], y', jti);
    }
  }

  /** After a logout at least one second before expiry whose write took effect, the token is refused at
      every later moment up to one second before its expiry, whatever happens in between. */
  lemma LogoutIsFinal(y: System, leeway: real, fate: Fate, steps: seq<Step>, y': System, t: AccessToken, checkFate: Fate)
    requires Inv(y) && leeway >= 0.0 && !fate.Refused?
    requires t.jti in y.exp && y.exp[t.jti] == t.exp && y.redis.clock <= t.exp as real - 1.0
    requires Reaches(After(y, Revoke(t.jti, leeway, fate)), steps, y')
    requires y'.redis.clock <= t.exp as real - 1.0
    ensures !DecodeSubject(t, y'.redis, leeway, checkFate).Subject?
  {
    var y1 := After(y, Revoke(t.jti, leeway, fate));
    StepKeepsEmail(y, Revoke(t.jti, leeway, fate));
    StepKeepsSingle(y, Revoke(t.jti, leeway, fate));
    StepKeepsRedeemed(y, Revoke(t.jti, leeway, fate));
    StepKeepsRevocation(y, Revoke(t.jti, leeway, fate));
    assert RevokedKey(t.jti) in y1.redis.entries;
    RevocationStays(y1, steps, y', t.jti);
  }

  /** Exactly when a token logged out at `now` passes again at a later time: between the end of the
      revocation entry, which is rounded down to whole seconds, and the moment the token expires. */
  lemma AcceptedAgain(r: Store, t: AccessToken, leeway: real, time: real)
    requires leeway >= 0.0 && r.clock <= time && !Expired(t, r.clock, leeway)
    requires RevokedKey(t.jti) !in r.entries
    ensures var later := Revoked(r, t, leeway, Answered).(clock := time);
            DecodeSubject(t, later, leeway, Answered).Subject?
            <==> r.clock + Remaining(t.exp, r.clock) as real <= time < t.exp as real + leeway
  {
  }

  /** For one, a token logged out one and a half seconds before it expires passes again in the last half
      second. */
  lemma LoggedOutTokenPasses() returns (r: Store, t: AccessToken, time: real)
    ensures r.entries == map[] && !Expired(t, r.clock, 0.0) && time < t.exp as real
    ensures DecodeSubject(t, Revoked(r, t, 0.0, Answered).(clock := time), 0.0, Answered) == Subject(t.sub)
  {
    r, t, time := Store(map[], 0.5), AccessToken("ann@example.org", 2, "j"), 1.5;
    assert Remaining(t.exp, r.clock) == 1;
    AcceptedAgain(r, t, 0.0, time);
  }

  /** A logout with an expired cookie leaves the session of its user alive, whatever Redis answers. */
  lemma ExpiredCookieKeepsSession() returns (r: Store, access: AccessToken, refresh: string)
    ensures Live(r, RefreshKey(refresh))
    ensures forall bearer, fate :: !LetIn(r, Some(access), bearer, 0.0, fate)
  {
    access, refresh := AccessToken("ann@example.org", 2, "j"), "t";
    r := Store(map[RefreshKey(refresh) := Entry(access.sub, 100.0)], 3.0);
  }
}
