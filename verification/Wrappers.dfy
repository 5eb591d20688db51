/** The `Option` and `Result` datatypes shared by the tracker modules. */
module Wrappers {

  /** An optional value; stands for JavaScript's `null` / missing value. */
  datatype Option<+T> = None | Some(value: T) {

    /** The value if present, otherwise `default`. */
    function GetOr(default: T): T {
      match this
      case Some(v) => v
      case None => default
    }
  }

  /** The outcome of an operation the user may be refused. */
  datatype Result<+R, +E> = Ok(value: R) | Err(error: E)
}
