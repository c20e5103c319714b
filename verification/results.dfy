/** Optional values and error-carrying results shared by every module. */
module Results {

  /** A value that may be missing (Python's `None`). */
  datatype Option<+T> = None | Some(value: T) {

    /** The carried value, or `default` when there is none. */
    function GetOr(default: T): T {
      match this
      case Some(v) => v
      case None => default
    }
  }

  /** The outcome of an operation that may raise instead of returning. */
  datatype Result<+T, +E> = Ok(value: T) | Err(error: E)
}
