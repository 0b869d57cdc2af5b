/** The part of Redis the backend uses: keys with an expiry, and the atomic commands SETEX, GETDEL, EXISTS
    and DELETE, each of which may fail before or after it took effect. */
module Redis {
  import opened Wrappers

  /** `oauth:state:<s>`, `oauth:pkce:<s>`, `oauth:refresh:<t>` and `oauth:revoked:<j>`: four prefixes, so four
      disjoint name spaces. */
  datatype Key = StateKey(state: string) | PkceKey(state: string) | RefreshKey(token: string) | RevokedKey(jti: string)

  datatype Entry = Entry(value: string, expires: real)

  datatype Store = Store(entries: map<Key, Entry>, clock: real)

  /** What happens to one command: executed and answered, not executed, or executed with the answer lost.
      The last two raise `RedisError`. */
  datatype Fate = Answered | Refused | AnswerLost

  predicate Live(r: Store, k: Key) {
    k in r.entries && r.clock < r.entries[k].expires
  }

  function SetEx(r: Store, k: Key, ttl: real, value: string, fate: Fate): Store {
    if fate.Refused? then r else r.(entries := r.entries[k := Entry(value, r.clock + ttl)])
  }

  function Removed(r: Store, k: Key, fate: Fate): Store {
    if fate.Refused? then r else r.(entries := r.entries - {k})
  }

  /** The answer of GETDEL. */
  function Answer(r: Store, k: Key): Option<string> {
    if Live(r, k) then Some(r.entries[k].value) else None
  }

  /** The client every handler shares. A method returns `raised` for a `RedisError`. */
  class Client {
    var entries: map<Key, Entry>
    var clock: real

    constructor (store: Store)
      ensures Now() == store
    {
      entries, clock := store.entries, store.clock;
    }

    function Now(): Store
      reads this
    {
      Store(entries, clock)
    }

    method Setex(k: Key, ttl: real, value: string, fate: Fate) returns (raised: bool)
      modifies this`entries
      ensures Now() == SetEx(old(Now()), k, ttl, value, fate)
      ensures raised <==> !fate.Answered?
    {
      if !fate.Refused? {
        entries := entries[k := Entry(value, clock + ttl)];
      }
      return !fate.Answered?;
    }

    method Getdel(k: Key, fate: Fate) returns (raised: bool, value: Option<string>)
      modifies this`entries
      ensures Now() == Removed(old(Now()), k, fate)
      ensures raised <==> !fate.Answered?
      ensures value == if raised then None else Answer(old(Now()), k)
    {
      if fate.Refused? {
        return true, None;
      }
      value := if k in entries && clock < entries[k].expires then Some(entries[k].value) else None;
      entries := entries - {k};
      if fate.AnswerLost? {
        return true, None;
      }
      return false, value;
    }

    method Delete(k: Key, fate: Fate) returns (raised: bool)
      modifies this`entries
      ensures Now() == Removed(old(Now()), k, fate)
      ensures raised <==> !fate.Answered?
    {
      if !fate.Refused? {
        entries := entries - {k};
      }
      return !fate.Answered?;
    }

    method Exists(k: Key, fate: Fate) returns (raised: bool, found: bool)
      ensures raised <==> !fate.Answered?
      ensures found <==> !raised && Live(Now(), k)
    {
      if !fate.Answered? {
        return true, false;
      }
      return false, k in entries && clock < entries[k].expires;
    }
  }
}
