/** Datatypes shared by the model: a Ruby `nil`-or-value and a value-or-error result. */
module Wrappers {

  /** A value that may be absent (Ruby `nil`). */
  datatype Option<+T> = None | Some(value: T) {

    /** The value, or `default` when absent (Ruby `x || default`). */
    function GetOr(default: T): T
    {
      match this
      case Some(v) => v
      case None => default
    }
  }

  /** Either a computed value or the error that stopped the computation. */
  datatype Result<+R, +E> = Success(value: R) | Failure(error: E)
}
