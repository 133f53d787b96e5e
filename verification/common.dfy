/** Small failure-compatible wrappers shared by the rest of the model. */
module Common {

  /** A value that may be absent; stands for a Java reference that may be `null`. */
  datatype Option<+T> = None | Some(value: T) {
    function GetOr(default: T): T {
      match this
      case Some(v) => v
      case None => default
    }
  }

  /** The outcome of a step that can fail with an error of type `E`. */
  datatype Result<+T, +E> = Ok(value: T) | Err(error: E)

  /** What a storage query hands back: its rows, or a `SQLException`. */
  datatype Fetch<+T> = Fetched(rows: T) | SqlFailure
}
