/** Failure-compatible result types shared by the mesh builder and the parser. */
module Wrappers {

  /** An optional value: a face-neighbour slot that may be empty. */
  datatype Option<+T> = None | Some(value: T) {
    predicate IsFailure() { None? }
  }

  /** Either a value or the error that aborted the computation. */
  datatype Result<+R, +E> = Success(value: R) | Failure(error: E) {
    predicate IsFailure() { Failure? }

    function PropagateFailure<U>(): Result<U, E>
      requires Failure?
    {
      Failure(error)
    }

    function Extract(): R
      requires Success?
    {
      value
    }
  }
}
