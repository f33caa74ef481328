/** The JavaScript values that flow between request bodies, sql.js query
    results and the JSON responses of the Todo routes. */
module Values {

  datatype Option<+T> = None | Some(value: T)

  /** The value kinds the routes handle: `undefined`, `null`, integer numbers
      and strings. */
  datatype Value = Undefined | Null | Int(n: int) | Text(s: string)

  /** A plain JavaScript object, built by assigning its keys one at a time. */
  type Record = map<string, Value>

  /** One entry of what sql.js `exec` returns: the column names and one list
      of values per row. */
  datatype ResultSet = ResultSet(columns: seq<string>, values: seq<seq<Value>>)

  /** Reading `obj[key]`: a key the object does not have reads as `undefined`. */
  function Get(obj: Record, key: string): Value
  {
    if key in obj then obj[key] else Undefined
  }

  /** Reading `vals[i]`: an index past the end reads as `undefined`. */
  function At(vals: seq<Value>, i: int): Value
  {
    if 0 <= i < |vals| then vals[i] else Undefined
  }

  /** JavaScript's `!v` on the modelled value kinds. */
  predicate Falsy(v: Value)
  {
    v == Undefined || v == Null || v == Int(0) || v == Text("")
  }

  /** `a ?? b`: `b` when `a` is `null` or `undefined`, otherwise `a`. */
  function Coalesce(a: Value, b: Value): Value
  {
    if a == Undefined || a == Null then b else a
  }

  /** A destructuring default `{ x = d } = body`: it applies only when the
      property is `undefined`, never when it is `null`. */
  function OrDefault(a: Value, d: Value): Value
  {
    if a == Undefined then d else a
  }
}
