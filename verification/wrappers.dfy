/** Option and Result datatypes shared by the model: `Option` stands for a
    nullable reference, `Result` for a call that either returns or throws. */
module Wrappers {

  /** A value that may be absent (a C# `null`). */
  datatype Option<+T> = None | Some(value: T)

  /** A computation that either returns `value` or throws `error`. */
  datatype Result<+T, +E> = Success(value: T) | Failure(error: E)
}
