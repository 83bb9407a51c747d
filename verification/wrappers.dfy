/** Failure-compatible wrappers shared by every module of the model. */
module Wrappers {

  /** A value that may be absent: a JSON `null`, a missing property or a "not found" index. */
  datatype Option<+T> = None | Some(value: T)

  /** The outcome of an operation that can fail: a thrown error or a rejected promise
      becomes `Failure` carrying its message. */
  datatype Result<+R, +E> = Success(value: R) | Failure(error: E)
}
