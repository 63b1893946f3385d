/** Optional values and success/failure results, standing in for Python's
    `None` and for exceptions raised and caught across the pipeline. */
module Results {

  datatype Option<+T> = None | Some(value: T) {

    /** The wrapped value, or `default` when there is none. */
    function GetOr(default: T): T {
      match this
      case Some(v) => v
      case None => default
    }
  }

  /** `Failure(e)` plays the part of a raised exception carrying `e`. */
  datatype Result<+T, +E> = Success(value: T) | Failure(error: E)
}
