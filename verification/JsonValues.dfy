/** Decoded JSON as Python holds it. */
module JsonValues {
  datatype Json =
    | Null
    | Bool(on: bool)
    | Number(text: string)
    | Str(text: string)
    | List(items: seq<Json>)
    | Dict(fields: map<string, Json>)
  {
    /** Python's truth of a value; `isZero` is what a number's is told by. */
    predicate Truthy(isZero: string -> bool) {
      match this
      case Null => false
      case Bool(on) => on
      case Number(text) => !isZero(text)
      case Str(text) => text != ""
      case List(items) => items != []
      case Dict(fields) => fields != map[]
    }

    /** What Python takes for false: nothing, `False`, a zero, and whatever is empty. */
    ghost predicate Falsy(isZero: string -> bool) {
      this in {Null, Bool(false), Str(""), List([]), Dict(map[])} || (Number? && isZero(text))
    }
  }
}
