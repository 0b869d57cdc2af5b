/** Shared values: the usual wrappers, the JSON values stored in `config` columns, and the library
    functions whose code is not part of this repository. */
module Wrappers {

  datatype Option<+T> = None | Some(value: T)

  /** Some element of a non-empty set. */
  ghost function Pick<T>(s: set<T>): (x: T)
    requires s != {}
    ensures x in s
  {
    var x :| x in s;
    x
  }
}

module Domain {
  import opened Wrappers

  /** A JSON primitive as Python holds it. `bool` is kept apart from `int`. */
  datatype Json =
    | JStr(s: string)
    | JInt(n: int)
    | JFloat(x: real)
    | JBool(b: bool)
    | JNull

  type JsonObject = map<string, Json>

  /** `isinstance(v, int)`: in Python a bool is an int. */
  predicate IsInt(v: Json) {
    v.JInt? || v.JBool?
  }

  function IntOf(v: Json): int
    requires IsInt(v)
  {
    if v.JInt? then v.n else if v.b then 1 else 0
  }

  predicate IsNumber(v: Json) {
    IsInt(v) || v.JFloat?
  }

  function NumberOf(v: Json): real
    requires IsNumber(v)
  {
    if v.JFloat? then v.x else IntOf(v) as real
  }

  /** Python's `==` on JSON primitives: numbers compare by value across int, float and bool. */
  predicate PyEq(v: Json, w: Json) {
    if IsNumber(v) && IsNumber(w) then NumberOf(v) == NumberOf(w) else v == w
  }

  /** Python's `==` on optional dictionaries. */
  predicate PyEqConfig(c: Option<JsonObject>, d: Option<JsonObject>) {
    match (c, d)
    case (None, None) => true
    case (Some(m), Some(n)) => m.Keys == n.Keys && forall k | k in m.Keys :: PyEq(m[k], n[k])
    case _ => false
  }

  /** `d.get(k, default)` */
  function Get(d: JsonObject, k: string, default: Json): Json {
    if k in d then d[k] else default
  }

  datatype ScheduleType = Cron | Interval | Manual

  datatype ActionType = Sleep | Echo

  /** What the standard library and the scheduler library answer. Nothing is assumed about the answers:
      every theorem holds for all of them.
      - `validCrontab(e)`: `CronTrigger.from_crontab(e)` does not raise;
      - `intervalLimit`: the largest `n` for which `IntervalTrigger(seconds=n)` does not overflow;
      - `isBlank(s)`: `s.strip()` is empty;
      - `parseInt(s)`: the value of `int(s)`, `None` when it raises;
      - `sleepLimit`: the largest argument for which `time.sleep` does not overflow. */
  datatype Library = Library(
    validCrontab: string -> bool,
    intervalLimit: nat,
    isBlank: string -> bool,
    parseInt: string -> Option<int>,
    sleepLimit: nat)
}
