/**
 The few JavaScript value notions the scripts lean on: a field that may be
 missing (`undefined`/`null`), string truthiness, and the `a || b` fallback.
 */
module JsValues {

  /** A value that may be absent (`undefined` or `null` in the scripts). */
  datatype Option<+T> = None | Some(value: T)

  /** A string is truthy when it is present and non-empty. */
  predicate Truthy(s: Option<string>) {
    s.Some? && s.value != ""
  }

  /** `s || fallback` for a possibly missing string. */
  function OrElse(s: Option<string>, fallback: string): (r: string)
    ensures Truthy(s) ==> r == s.value
    ensures !Truthy(s) ==> r == fallback
  {
    if Truthy(s) then s.value else fallback
  }

  /** The smaller of two counts. */
  function Min(a: int, b: int): int {
    if a <= b then a else b
  }

  /** How a template literal renders a possibly `undefined` string. */
  function Render(s: Option<string>): string {
    match s
    case Some(v) => v
    case None => "undefined"
  }
}
