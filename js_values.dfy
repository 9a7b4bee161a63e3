/**
 * JavaScript values as they appear in stored rows, request payloads and
 * service results, with the handful of JavaScript operations the core
 * applies to them: property reads, truthiness, `new Date(x ?? 0).getTime()`,
 * `pick`/`omit` and `String.prototype.startsWith`.
 */
module JsValues {
  import opened Wrappers

  datatype Value =
    | Null
    | Bool(b: bool)
    | Num(n: int)
    | Str(s: string)
    | Date(ms: int)                   // a Date object, as epoch milliseconds
    | Obj(fields: map<string, Value>) // a nested plain object (a creator, a result)
    | Arr(items: seq<Value>)

  /** A plain object. A key that is absent reads as `undefined`. */
  type Row = map<string, Value>

  /** `row[key]`; `None` is `undefined`. */
  function Get(row: Row, key: string): (r: Option<Value>)
    ensures r.Some? <==> key in row
    ensures key in row ==> r.value == row[key]
  {
    if key in row then Some(row[key]) else None
  }

  /** JavaScript truthiness (`undefined` is `None`). */
  predicate Truthy(v: Option<Value>) {
    match v
    case None => false
    case Some(Null) => false
    case Some(Bool(b)) => b
    case Some(Num(n)) => n != 0
    case Some(Str(s)) => s != ""
    case Some(Date(_)) => true
    case Some(Obj(_)) => true
    case Some(Arr(_)) => true
  }

  /** `null` or `undefined`: the values `??` replaces. */
  predicate IsNullish(v: Option<Value>) {
    v.None? || v == Some(Null)
  }

  /** The largest distance from the epoch a JavaScript Date can hold, in milliseconds. */
  const MaxDateMillis: int := 8_640_000_000_000_000

  /** A time value outside the representable range is an invalid date. */
  function TimeClip(n: int): Option<int> {
    if -MaxDateMillis <= n <= MaxDateMillis then Some(n) else None
  }

  /**
   * `new Date(v ?? 0).getTime()`. `None` stands for NaN, an invalid date.
   * Timestamp strings are not parsed by this model: a `Str` reads as an
   * invalid date, so timestamps are carried as `Date` values.
   */
  function Millis(v: Option<Value>): (t: Option<int>)
    ensures IsNullish(v) ==> t == Some(0)
    // a Date or a number within the representable range reads as itself
    ensures (v.Some? && (v.value.Date? || v.value.Num?)) ==>
              t == (var n := if v.value.Date? then v.value.ms else v.value.n;
                    if -MaxDateMillis <= n <= MaxDateMillis then Some(n) else None)
    // a valid date is always within that range
    ensures t.Some? ==> -MaxDateMillis <= t.value <= MaxDateMillis
  {
    match v
    case None => Some(0)
    case Some(Null) => Some(0)
    case Some(Num(n)) => TimeClip(n)
    case Some(Date(ms)) => TimeClip(ms)
    case Some(Bool(b)) => Some(if b then 1 else 0)
    case Some(Str(_)) => None
    case Some(Obj(_)) => None
    case Some(Arr(_)) => None
  }

  /** lodash `pick(keys, row)`, and a flat key-whitelist traversal. */
  function Project(row: Row, keys: set<string>): (r: Row)
    ensures r.Keys == row.Keys * keys
    ensures forall k <- r :: r[k] == row[k]
  {
    map k | k in row && k in keys :: row[k]
  }

  /** lodash `omit(keys, row)`. */
  function Omit(row: Row, keys: set<string>): (r: Row)
    ensures r.Keys == row.Keys - keys
    ensures forall k <- r :: r[k] == row[k]
  {
    map k | k in row && k !in keys :: row[k]
  }

  /** `s.startsWith(prefix)`. */
  predicate StartsWith(s: string, prefix: string) {
    |prefix| <= |s| && s[..|prefix|] == prefix
  }
}
