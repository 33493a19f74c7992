/** Option and Result datatypes shared by the rest of the model. */
module Wrappers {

  /** A value that may be absent: a missing request header, a failed lookup. */
  datatype Option<+T> = None | Some(value: T)

  /** The outcome of a step that can abort: a value, or the reason it stopped. */
  datatype Result<+T, +E> = Ok(value: T) | Fail(error: E)
}
