/** Failure-carrying values used in place of Python's `None` returns and raised exceptions. */
module Results {

  /** An optional value: `None` where the source falls back to a default. */
  datatype Option<T> = None | Some(value: T) {

    /** The value, or `default` when there is none. */
    function GetOr(default: T): T {
      match this
      case Some(v) => v
      case None => default
    }
  }

  /** A value or the exception the source would raise instead. */
  datatype Result<T, E> = Ok(value: T) | Err(error: E)
}
