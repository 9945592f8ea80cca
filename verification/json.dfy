/** The parsed JSON document, as the host's `JSON.parse` hands it over. */
module Json {

  /**
   * A parsed JSON value. A number carries the text the host prints for it
   * (JavaScript's Number-to-String conversion); an object keeps its members
   * in the host's key order.
   */
  datatype JsonValue =
    | Null
    | Bool(b: bool)
    | Num(text: string)
    | Str(s: string)
    | Arr(items: seq<JsonValue>)
    | Obj(members: seq<(string, JsonValue)>)
  {
    predicate IsComposite() {
      Arr? || Obj?
    }
  }

  /**
   * JavaScript truthiness of a parsed value: `null`, `false`, `0` and `""`
   * are falsy; every object and array, even an empty one, is truthy.
   * The number zero (also -0) prints as `0`.
   */
  predicate Truthy(v: JsonValue) {
    match v
    case Null => false
    case Bool(b) => b
    case Num(t) => t != "0"
    case Str(s) => s != ""
    case Arr(_) => true
    case Obj(_) => true
  }

  function Sum(xs: seq<nat>): nat {
    if |xs| == 0 then 0 else xs[0] + Sum(xs[1..])
  }

  /** Number of JSON values in `v`, `v` itself included. */
  function ValueCount(v: JsonValue): nat {
    match v
    case Arr(items) => 1 + Sum(seq(|items|, i requires 0 <= i < |items| => ValueCount(items[i])))
    case Obj(ms) => 1 + Sum(seq(|ms|, i requires 0 <= i < |ms| => ValueCount(ms[i].1)))
    case _ => 1
  }
}
