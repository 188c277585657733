/** Option and Result datatypes used across the model: `Option` stands for a
    Java reference that may be null, `Result` for a call that either returns a
    value or throws. */
module Wrappers {

  datatype Option<+T> = None | Some(value: T)

  datatype Result<+T, +E> = Success(value: T) | Failure(error: E)

  /** A Java functional parameter (`Runnable`, `Consumer<T>`): either null or a
      particular callback, told apart by an identifier. */
  datatype Callback = Null | Present(id: nat)
}
