/** The JavaScript values an exported note metadata field may hold, with the two coercions the
    index builders apply to them: truthiness (`v || ''`, `!v`) and `String(v)`. */
module JsValues {
  import opened Text

  datatype Value = Undefined | Null | Bool(b: bool) | Int(i: int) | Str(s: string) | StrList(items: seq<string>)

  /** JavaScript truthiness: undefined, null, false, 0 and '' are falsy; every array is truthy. */
  predicate Truthy(v: Value) {
    match v
    case Undefined => false
    case Null => false
    case Bool(b) => b
    case Int(i) => i != 0
    case Str(s) => s != ""
    case StrList(_) => true
  }

  /** `xs.join(',')`, which is what `String` does to an array of strings. */
  function JoinComma(xs: seq<string>): string {
    if xs == [] then "" else if |xs| == 1 then xs[0] else xs[0] + "," + JoinComma(xs[1..])
  }

  /** `String(v)`. */
  function ToString(v: Value): string {
    match v
    case Undefined => "undefined"
    case Null => "null"
    case Bool(b) => if b then "true" else "false"
    case Int(i) => if i < 0 then "-" + NatToString(-i) else NatToString(i)
    case Str(s) => s
    case StrList(xs) => JoinComma(xs)
  }

  /** `String(v || '')`: the string form of a truthy value, and the empty string otherwise. */
  function StringOrEmpty(v: Value): (r: string)
    ensures !Truthy(v) ==> r == ""
    ensures v.Str? ==> r == v.s
    ensures r == "" ==> !Truthy(v) || (v.StrList? && JoinComma(v.items) == "")
  {
    if Truthy(v) then ToString(v) else ""
  }
}
