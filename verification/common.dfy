/** Optional values: the model's rendering of Python's `None`-or-value results. */
module Common {

  /** `None` stands for Python's `None`; `Some(v)` for a present value. */
  datatype Option<+T> = None | Some(value: T) {

    /** The held value, or `default` when there is none (Python's `x if x else default`). */
    function GetOr(default: T): T {
      match this
      case Some(v) => v
      case None => default
    }
  }

  /** A value, or the error that prevented it. */
  datatype Result<+T, +E> = Ok(value: T) | Err(error: E)
}
