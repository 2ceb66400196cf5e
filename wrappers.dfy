/** The optional value that Rust's `Option` stands for. */
module Wrappers {

  datatype Option<T> = None | Some(value: T) {

    /** `unwrap_or`: the wrapped value, or `default` when there is none. */
    function GetOr(default: T): T {
      match this
      case Some(v) => v
      case None => default
    }
  }
}
