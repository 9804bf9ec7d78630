/** Small shared datatypes. */
module Wrappers {

  datatype Option<+T> = None | Some(value: T)

  /** JavaScript's `a ?? b`, with another option and with a value. */
  function OrElse<T>(a: Option<T>, b: Option<T>): Option<T> {
    if a.Some? then a else b
  }

  function UnwrapOr<T>(a: Option<T>, b: T): T {
    if a.Some? then a.value else b
  }

  /** A JavaScript number; infinities and NaN are not finite. */
  datatype JsNumber = NotFinite | Finite(r: real)
}
