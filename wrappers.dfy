/** Option and Outcome value wrappers shared by the model. */
module Wrappers {

  /** A value that may be absent (C#'s nullable `T?`). */
  datatype Option<+T> = None | Some(value: T)

  /** The result of an operation that returns nothing but may fail (a thrown exception). */
  datatype Outcome<+E> = Pass | Fail(error: E)
}
