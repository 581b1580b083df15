/**
 * The JavaScript values a search condition's untyped `value` can hold while
 * the search screen edits it, the operations the query builder applies to
 * it (template interpolation, `.from`/`.to`, `.length`), and the outcome of
 * an evaluation that may throw a `TypeError`.
 */
module JsValues {
  import opened Strings
  import opened Diary

  /**
   * `Range` is any plain object as seen through its `from` and `to` keys (a
   * missing key reads as `Undefined`); `AttrList` is an array of attributes.
   */
  datatype JsValue =
    | Undefined
    | Null
    | Str(s: string)
    | Num(n: int)
    | Range(from: JsValue, to: JsValue)
    | AttrList(items: seq<Attribute>)

  /** Either a value, or the `TypeError` JavaScript throws when a property of `null`/`undefined` is read or a non-function is called. */
  datatype Result<+T> = Ok(value: T) | TypeError

  function IntText(n: int): (r: string)
    ensures n >= 0 ==> IsDigits(r)
  {
    if n >= 0 then Decimal(n) else "-" + Decimal(-n)
  }

  const ObjectText: string := "[object Object]"

  /** `arr.toString()` for an array of plain objects: one `[object Object]` per element, comma-separated. */
  function ObjectsText(n: nat): (r: string)
    ensures n == 0 <==> r == ""
  {
    if n == 0 then "" else if n == 1 then ObjectText else ObjectsText(n - 1) + "," + ObjectText
  }

  /** The text `${v}` produces inside a template literal. */
  function Interpolate(v: JsValue): string {
    match v
    case Undefined => "undefined"
    case Null => "null"
    case Str(s) => s
    case Num(n) => IntText(n)
    case Range(_, _) => ObjectText
    case AttrList(xs) => ObjectsText(|xs|)
  }

  /** `v.from` */
  function From(v: JsValue): (r: Result<JsValue>)
    ensures r.TypeError? <==> v.Null? || v.Undefined?
    ensures v.Range? ==> r == Ok(v.from)
  {
    match v
    case Undefined => TypeError
    case Null => TypeError
    case Range(f, _) => Ok(f)
    case _ => Ok(Undefined)
  }

  /** `v.to` */
  function To(v: JsValue): (r: Result<JsValue>)
    ensures r.TypeError? <==> v.Null? || v.Undefined?
    ensures v.Range? ==> r == Ok(v.to)
  {
    match v
    case Undefined => TypeError
    case Null => TypeError
    case Range(_, t) => Ok(t)
    case _ => Ok(Undefined)
  }

  /** `v.length`: strings and arrays have one, other objects and numbers read `undefined`. */
  function Length(v: JsValue): (r: Result<JsValue>)
    ensures r.TypeError? <==> v.Null? || v.Undefined?
    ensures v.AttrList? ==> r == Ok(Num(|v.items|))
  {
    match v
    case Undefined => TypeError
    case Null => TypeError
    case Str(s) => Ok(Num(|s|))
    case AttrList(xs) => Ok(Num(|xs|))
    case _ => Ok(Undefined)
  }
}
