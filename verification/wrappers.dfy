/** Failure-carrying return types shared by the model: `Option` for a
    computation that may run out of input, `Result` for one that the source
    aborts with an exception. */
module Wrappers {

  datatype Option<+T> = None | Some(value: T)

  datatype Result<+R, +E> = Success(value: R) | Failure(error: E)
}
