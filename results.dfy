/** Optional values and error returns shared by the page models. */
module Results {

  /** A value that may be absent: a missing dictionary key, a `None`. */
  datatype Option<T> = None | Some(value: T) {
    function GetOr(default: T): T {
      match this
      case Some(v) => v
      case None => default
    }
  }

  /** The outcome of an operation that the page refuses with an error message. */
  datatype Result<T, E> = Ok(value: T) | Err(error: E)
}
