/** Failure-carrying result types shared by the model: a Java reference that may be
    null becomes an Option, and a method that either returns or throws becomes a
    Result (or an Outcome when it returns nothing). */
module Wrappers {

  datatype Option<+T> = None | Some(value: T)

  datatype Result<+T, +E> = Success(value: T) | Failure(error: E)

  datatype Outcome<+E> = Pass | Fail(error: E)
}
