/** Failure-carrying values used throughout the listing cleaner.
    - Option<T> stands for a cell that may be missing (pandas NaN / Python None).
    - Result<T, E> stands for a conversion that may raise. */
module Wrappers {

  datatype Option<T> = None | Some(value: T) {

    /** The value, or `default` when missing (pandas `fillna`). */
    function GetOr(default: T): T {
      match this
      case Some(v) => v
      case None => default
    }
  }

  datatype Result<T, E> = Ok(value: T) | Err(error: E)
}
