/** The optional value the model uses wherever Rust returns `Option<T>`. */
module Wrappers {

  datatype Option<+T> = None | Some(value: T) {

    /** `Option::unwrap_or` */
    function GetOr(default: T): T {
      match this
      case Some(v) => v
      case None => default
    }
  }

  /** A value, or the reason there is none. */
  datatype Result<+T, +E> = Ok(value: T) | Err(error: E)
}
