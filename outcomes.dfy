/**
 * The outcome of an operation that may throw. The two exceptions the set
 * raises are values of `Error`.
 */
module Outcomes {

  datatype Error =
    | IllegalArgument   // java.lang.IllegalArgumentException
    | NoSuchElement     // java.util.NoSuchElementException

  datatype Result<T> = Ok(value: T) | Err(error: Error)

  /** A Java reference that may be null. */
  datatype Option<T> = None | Some(value: T)
}
