/** Failure-carrying values shared by the model. */
module Wrappers {

  /** A value that may be absent: Go's nil pointer, or a lookup that found nothing. */
  datatype Option<+T> = None | Some(value: T)

  /** The result of a Go function returning only `error`: `Pass` is a nil error. */
  datatype Outcome<+E> = Pass | Fail(error: E)
}
