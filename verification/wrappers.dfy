/** Failure-compatible wrappers used in place of Java's `null`/`Optional` and exceptions. */
module Wrappers {

  /** `java.util.Optional` (and a nullable reference). */
  datatype Option<+T> = None | Some(value: T) {

    /** `Optional.orElse`. */
    function GetOr(default: T): T {
      match this
      case Some(v) => v
      case None => default
    }

    /** The zero- or one-element sequence holding the value. */
    function ToSeq(): (s: seq<T>)
      ensures |s| <= 1
      ensures Some? <==> |s| == 1
      ensures Some? ==> s[0] == value
    {
      match this
      case Some(v) => [v]
      case None => []
    }
  }

  /** The outcome of a call that may throw: its value, or the exception it raised. */
  datatype Result<+R, +E> = Success(value: R) | Failure(error: E) {

    predicate IsFailure() {
      Failure?
    }

    function PropagateFailure<U>(): Result<U, E>
      requires Failure?
    {
      Failure(error)
    }

    function Extract(): R
      requires Success?
    {
      value
    }
  }
}
