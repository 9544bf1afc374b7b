/**
 * The JSON-like values that snapshots, diffs and scraper payloads are made of.
 * Python's `dict` becomes `Obj` (keys are strings, order is not significant);
 * Python ints and bools are kept apart here; `1 == True` is modelled only
 * where term sort keys are compared, in the Database module.
 */
module Json {

  datatype Value =
    | Null
    | Bool(b: bool)
    | Int(i: int)
    | Str(s: string)
    | List(items: seq<Value>)
    | Obj(fields: map<string, Value>)

  /** The plain string that a diff uses to say "remove this key". */
  const DELETE: string := "$delete"

  const EmptyObj: Value := Obj(map[])

  predicate IsDelete(v: Value) {
    v == Str(DELETE)
  }

  /** Whether the delete marker occurs as a value anywhere inside `v` (map keys do not count). */
  predicate ContainsDelete(v: Value) {
    match v
    case Str(s) => s == DELETE
    case List(items) => exists i :: 0 <= i < |items| && ContainsDelete(items[i])
    case Obj(fields) => exists k :: k in fields && ContainsDelete(fields[k])
    case _ => false
  }
}
