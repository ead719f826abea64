/** Failure-compatible wrappers shared by the model: `Option` stands for a
    Python value that may be `None` (or, for floats, NaN), `Result` for a
    call that may raise. */
module Wrappers {

  datatype Option<+T> = None | Some(value: T)

  datatype Result<+R, +E> = Success(value: R) | Failure(error: E)
}
