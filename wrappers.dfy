/** Option and Result: the absent value and the thrown exception made explicit. */
module Wrappers {

  /** `None` stands for the `default` value a lookup yields when the key is missing. */
  datatype Option<+T> = None | Some(value: T)

  /** `Failure` stands for an exception propagated out of an awaited task. */
  datatype Result<+T, +E> = Success(value: T) | Failure(error: E)
}
