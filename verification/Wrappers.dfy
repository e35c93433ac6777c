/** Results of operations that may find nothing, or may throw, and numbers that may be none. */
module Wrappers {
  datatype Option<+T> = None | Some(value: T)

  /** A number of the original, where rounding is not the point. */
  datatype JsNumber = Finite(value: real) | NotFinite
}
