/** Failure-carrying datatypes shared by the analysis modules. */
module Wrappers {

  /** An optional value; `None` also stands for JavaScript's `NaN` and `undefined`. */
  datatype Option<+T> = None | Some(value: T)

  /** Either a value or a failure (a thrown exception or a rejected promise). */
  datatype Result<+T, +E> = Success(value: T) | Failure(error: E)
}
