/** Optional values and error-or-value results: the source's `None` and its exceptions. */
module Wrappers {

  datatype Option<+T> = None | Some(value: T) {
    function GetOr(default: T): T {
      match this
      case Some(v) => v
      case None => default
    }
  }

  /** An optional text that is present and not empty, what Python's truth test asks of it. */
  predicate HasText(o: Option<string>) {
    o.Some? && o.value != ""
  }

  datatype Result<+T, +E> = Ok(value: T) | Err(error: E)
}
