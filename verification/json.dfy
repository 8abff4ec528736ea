/** Parsed JSON values and the few JavaScript operations the corrector applies
    to them: property reads, truthiness, `typeof … === 'object'` and `||`. */
module JsonValue {
  import opened Wrappers

  /** A value `JSON.parse` can produce. Object key order is not modelled. */
  datatype Json =
    | Null
    | Bool(b: bool)
    | Num(n: real)
    | Str(s: string)
    | Arr(items: seq<Json>)
    | Obj(fields: map<string, Json>)

  /** The only error the reshaping and scoring code can raise on parsed data. */
  const TypeError: string := "TypeError"

  /** JavaScript truthiness; `None` is `undefined`. */
  predicate Truthy(v: Option<Json>) {
    match v
    case None => false
    case Some(j) =>
      match j
      case Null => false
      case Bool(b) => b
      case Num(n) => n != 0.0
      case Str(s) => s != []
      case Arr(_) => true
      case Obj(_) => true
  }

  /** `typeof v === 'object'`: true of `null`, arrays and objects. */
  predicate IsObjectType(v: Option<Json>) {
    v.Some? && (v.value.Null? || v.value.Arr? || v.value.Obj?)
  }

  /** The property lookup `m.key` on an object's fields. */
  function Field(m: map<string, Json>, key: string): (r: Option<Json>)
    ensures r.Some? <==> key in m
    ensures r.Some? ==> r.value == m[key]
  {
    if key in m then Some(m[key]) else None
  }

  /** `v.key`: reading a property of `undefined` or `null` throws; a property a
      primitive or an array does not have reads as `undefined` (the keys read
      here are none of the built-in ones such as `length`). */
  function Get(v: Option<Json>, key: string): (r: Result<Option<Json>, string>)
    ensures r.Err? <==> v.None? || v.value.Null?
    ensures r.Ok? && r.value.Some? ==> v.value.Obj? && key in v.value.fields
  {
    match v
    case None => Err(TypeError)
    case Some(j) =>
      match j
      case Null => Err(TypeError)
      case Obj(m) => Ok(Field(m, key))
      case _ => Ok(None)
  }

  /** `v || d`. */
  function Or(v: Option<Json>, d: Json): (r: Json)
    ensures Truthy(v) ==> Some(r) == v
    ensures !Truthy(v) ==> r == d
  {
    if Truthy(v) then v.value else d
  }

  /** The assignment `m.key = v`. In JavaScript assigning `undefined` creates a
      property holding `undefined`; here such a property is absent, which no
      property read or truthiness test can tell apart. */
  function Put(m: map<string, Json>, key: string, v: Option<Json>): (r: map<string, Json>)
    ensures forall k :: k != key ==> Field(r, k) == Field(m, k)
    ensures v.Some? ==> Field(r, key) == v
    ensures v.None? ==> key !in r
  {
    if v.Some? then m[key := v.value] else m - {key}
  }
}
