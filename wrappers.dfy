/** Optional values (`T | null`, `Option<T>`) and fallible results (`Result<T>`) of the modelled program. */
module Wrappers {

  datatype Option<+T> = None | Some(value: T) {

    /** The carried value, or `default` when there is none (`??` in the UI code). */
    function GetOr(default: T): T {
      match this
      case Some(v) => v
      case None => default
    }
  }

  /** A Rust `Result`: a value, or the reason there is none. */
  datatype Result<+T, +E> = Success(value: T) | Failure(error: E)
}
