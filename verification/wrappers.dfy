/** Failure-carrying datatypes shared by every module: `Option` for the
    JavaScript `null` results and `Result` for the exceptions the source throws. */
module Wrappers {

  datatype Option<+T> = None | Some(value: T)

  datatype Result<+R, +E> = Success(value: R) | Failure(error: E)
}
