/** Plain-data values as the fixture adapter stores them: the fields of a
    serialized record, with JavaScript's truthiness and strict equality. */
module Values {

  datatype Option<+T> = None | Some(value: T)

  /** A JSON-like value. Numbers are modelled as integers. */
  datatype Value =
    | Null
    | Bool(b: bool)
    | Num(n: int)
    | Str(s: string)
    | List(items: seq<Value>)
    | Obj(fields: map<string, Value>)

  /** A fixture record: field name to value. A field that is absent reads as
      `undefined`, which is `None` below. */
  type Record = map<string, Value>

  /** `record[name]`: `None` stands for `undefined`. */
  function Get(r: Record, name: string): Option<Value>
  {
    if name in r then Some(r[name]) else None
  }

  /** The `id` field of a record. */
  function IdOf(r: Record): Option<Value>
  {
    Get(r, "id")
  }

  /** Values that `===` compares by content. Arrays and objects are compared
      by reference, and two of them in this model are never the same object. */
  predicate Comparable(v: Value)
  {
    !v.List? && !v.Obj?
  }

  /** JavaScript `a === b` on two possibly-undefined values. */
  predicate StrictEquals(a: Option<Value>, b: Option<Value>)
  {
    match (a, b)
    case (None, None) => true
    case (Some(x), Some(y)) => Comparable(x) && x == y
    case _ => false
  }

  /** JavaScript truthiness: `undefined`, `null`, `false`, `0` and `''` are falsy. */
  predicate Truthy(v: Option<Value>)
  {
    match v
    case None => false
    case Some(Null) => false
    case Some(Bool(b)) => b
    case Some(Num(n)) => n != 0
    case Some(Str(s)) => s != ""
    case Some(List(_)) => true
    case Some(Obj(_)) => true
  }
}
