/** Small failure-carrying datatypes shared by the rest of the model. */
module Base {

  /** A value that may be absent: Python's `None` versus a present value. */
  datatype Option<+T> = None | Some(value: T) {

    /** The carried value, or `default` when absent (Python's `d.get(key, default)`). */
    function GetOr(default: T): T {
      match this
      case Some(v) => v
      case None => default
    }
  }

  /** The result of a call into a foreign capability that either succeeds or
      raises an exception whose `str(e)` is `error`. */
  datatype Outcome<+E> = Pass | Fail(error: E)
}
