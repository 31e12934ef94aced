/** Failure-carrying results, shared by every component of the model. */
module Results {

  /** A value that may be absent. */
  datatype Option<+T> = None | Some(value: T) {

    /** The value, or `default` when there is none. */
    function GetOr(default: T): T {
      match this
      case Some(v) => v
      case None => default
    }
  }

  /** The value of a call that succeeded, or the error of one that did not. */
  datatype Result<+T, +E> = Ok(value: T) | Err(error: E)
}
