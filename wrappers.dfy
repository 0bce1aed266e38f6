/** Option and exception-outcome wrappers shared by the model. */
module Wrappers {

  /** A value that may be missing: C#'s `null` and `Nullable<T>`. */
  datatype Option<+T> = None | Some(value: T)

  /** How a call into the source code ends: it returns a value, or it throws. */
  datatype Outcome<+T> = Returned(value: T) | Threw
}
