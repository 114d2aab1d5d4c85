/** JavaScript values as the template and the helpers see them: optional
    properties, truthiness, the `x || d` default idiom and the string
    conversion `+` applies to a missing property. */
module Values {

  /** A property that may be missing from the input object. */
  datatype Option<+T> = None | Some(value: T)

  /** The primitive values the Handlebars helpers compare. Numbers are
      integers here; `NaN` is kept because strict equality treats it
      specially. Objects and arrays are not modelled. */
  datatype JsValue =
    | Undefined
    | Null
    | Bool(b: bool)
    | Num(n: int)
    | NaN
    | Str(s: string)

  /** JavaScript truthiness: `undefined`, `null`, `false`, `0`, `NaN` and
      `""` are falsy, everything else is truthy. */
  predicate Truthy(v: JsValue) {
    match v
    case Undefined => false
    case Null => false
    case Bool(b) => b
    case Num(n) => n != 0
    case NaN => false
    case Str(s) => s != ""
  }

  /** A string property is truthy when present and non-empty. */
  predicate TruthyStr(o: Option<string>) {
    o.Some? && o.value != ""
  }

  /** `o || d` for a string property. */
  function StrOr(o: Option<string>, d: string): (r: string)
    ensures TruthyStr(o) ==> r == o.value
    ensures !TruthyStr(o) ==> r == d
  {
    if TruthyStr(o) then o.value else d
  }

  /** `o || d` for a numeric property: a missing value and `0` both fall back
      to `d`; every other number, negative ones included, is kept. */
  function NumOr(o: Option<int>, d: int): (r: int)
    ensures o.Some? && o.value != 0 ==> r == o.value
    ensures o.None? || o.value == 0 ==> r == d
  {
    if o.Some? && o.value != 0 then o.value else d
  }

  /** What `"" + o` contributes: a missing property is converted to the text
      `undefined`. */
  function Concat(o: Option<string>): (r: string)
    ensures o.Some? ==> r == o.value
    ensures o.None? ==> r == "undefined"
  {
    match o
    case Some(s) => s
    case None => "undefined"
  }

  /** What a React `Text` shows for a child that may be missing: nothing.
      For strings this is `o || ''`, since the empty string shows nothing
      either way. */
  function TextOf(o: Option<string>): (r: string)
    ensures o.Some? ==> r == o.value
    ensures o.None? ==> r == ""
  {
    StrOr(o, "")
  }
}
