/** Option stands for an optional request field (`undefined` in the source);
    Result for an operation that either answers or raises. */
module Outcomes {

  datatype Option<T> = None | Some(value: T) {

    /** The value, or `default` when absent (a destructuring default). */
    function GetOr(default: T): T
    {
      match this
      case Some(v) => v
      case None => default
    }
  }

  datatype Result<T, E> = Success(value: T) | Failure(error: E)
}
