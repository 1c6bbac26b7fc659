/** Option and Result values standing for the exceptions the C++ code throws. */
module Wrappers {
  datatype Option<T> = None | Some(value: T)

  /** The two kinds of std::invalid_argument the core throws. */
  datatype Failure = NotFound | EmptyQueue

  datatype Result<T> = Ok(value: T) | Err(failure: Failure)

  /** Result of an operation that returns nothing but may throw. */
  datatype Outcome = Done | Fail(failure: Failure)
}
