/** The optional value used wherever the source has `None`, and the outcome of a step that may
    raise an exception. */
module Wrappers {

  datatype Option<+T> = None | Some(value: T)

  /** `Failure` stands for an exception escaping the step. */
  datatype Result<+T> = Success(value: T) | Failure
}
