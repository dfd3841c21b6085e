/**
 * The few JavaScript value notions the layout component relies on.
 *
 * A JSON field that may be missing or `null` is an `Option`: `None` stands
 * for `undefined`/`null`, `Some(s)` for a present string. That is enough
 * wherever the component only tests a field's truthiness, reads a field of
 * it through `?.`, or stores it. A value that is turned into text needs the
 * two nullish values apart, and is a `Scalar`.
 */
module JsValues {

  datatype Option<+T> = None | Some(value: T)

  /** JavaScript truthiness of a value that is a string or nullish:
      `undefined`, `null` and `""` are falsy, every other string is truthy. */
  predicate Truthy(v: Option<string>)
  {
    v.Some? && v.value != ""
  }

  /** A JSON string field as a template literal sees it: missing
      (`undefined`), `null`, or a string. */
  datatype Scalar = Undefined | Null | Str(s: string)

  /** What a template literal `${v}` inserts: a string as itself, and the
      two nullish values as their names, `"undefined"` and `"null"`, which
      differ from each other. */
  function TemplateText(v: Scalar): (t: string)
    ensures v.Str? ==> t == v.s
    ensures v.Undefined? ==> t == "undefined"
    ensures v.Null? ==> t == "null"
  {
    match v
    case Str(s) => s
    case Undefined => "undefined"
    case Null => "null"
  }
}
