/**
 * JavaScript / JSON values as the mail-insights handlers see them.
 *
 * A JavaScript object is a `Record`: a finite map from property names to
 * values, where a property that is absent stands for `undefined`. Object
 * spread `{...a, ...b}` is the map union `a + b`, in which the right operand
 * wins on a clash, exactly as the later spread wins in JavaScript.
 */
module JsonValues {

  datatype Option<+T> = None | Some(value: T)

  /** The outcome of an awaited call: a value, or an exception that escapes it. */
  datatype Outcome<+T> = Ok(value: T) | Thrown

  datatype Json =
    | JNull
    | JBool(b: bool)
    | JNum(n: real)
    | JStr(s: string)
    | JArr(items: seq<Json>)
    | JObj(fields: map<string, Json>)

  type Record = map<string, Json>

  /** Property read `r.key`; `None` is `undefined`. */
  function Get(r: Record, key: string): (v: Option<Json>)
    ensures v.Some? <==> key in r
    ensures v.Some? ==> v.value == r[key]
  {
    if key in r then Some(r[key]) else None
  }

  /** JavaScript truthiness of a possibly undefined value. */
  predicate Truthy(v: Option<Json>) {
    match v
    case None => false
    case Some(j) =>
      match j
      case JNull => false
      case JBool(b) => b
      case JNum(n) => n != 0.0
      case JStr(s) => s != ""
      case JArr(_) => true
      case JObj(_) => true
  }

  /** `v || d` */
  function OrElse(v: Option<Json>, d: Json): (r: Json)
    ensures Truthy(v) ==> r == v.value
    ensures !Truthy(v) ==> r == d
  {
    if Truthy(v) then v.value else d
  }

  /** The properties an object spread `...v` contributes: those of an object, none for undefined. */
  function Spread(v: Option<Record>): (r: Record)
    ensures v.None? ==> r == map[]
    ensures v.Some? ==> r == v.value
  {
    match v
    case None => map[]
    case Some(m) => m
  }

  /** Assignment `r.key = v`; assigning `undefined` leaves the property absent. */
  function SetProp(r: Record, key: string, v: Option<Json>): (r': Record)
    ensures Get(r', key) == v
    ensures forall k :: k != key ==> Get(r', k) == Get(r, k)
  {
    match v
    case None => r - {key}
    case Some(j) => r[key := j]
  }

  /** The sub-record `o` of `r.key` when it holds an object, as `{...r.key}` sees it. */
  function ObjectAt(r: Record, key: string): (o: Record)
    ensures key in r && r[key].JObj? ==> o == r[key].fields
    ensures !(key in r && r[key].JObj?) ==> o == map[]
  {
    if key in r && r[key].JObj? then r[key].fields else map[]
  }

  /** The JavaScript string a value holds, if it holds one. */
  function AsString(v: Option<Json>): (s: Option<string>)
    ensures s.Some? <==> v.Some? && v.value.JStr?
    ensures s.Some? ==> v.value == JStr(s.value)
  {
    if v.Some? && v.value.JStr? then Some(v.value.s) else None
  }
}
