/** Failure-carrying result types shared by the model. */
module Wrappers {

  /** An optional value; stands for the source's `None` sentinels. */
  datatype Option<+T> = None | Some(value: T)

  /** The outcome of an operation that can raise: `Failure` carries what the
      source's exception would report (for example the missing dictionary key). */
  datatype Result<+R, +E> = Success(value: R) | Failure(error: E)
}
