/** Option and Result: the absent value and the thrown exception of the source, as values. */
module Wrappers {

  /** `None` stands for Java's `null`; `Some(v)` for a present value. */
  datatype Option<+T> = None | Some(value: T)

  /** `Failure(e)` stands for a call that throws `e` instead of returning. */
  datatype Result<+T, +E> = Success(value: T) | Failure(error: E)
}
