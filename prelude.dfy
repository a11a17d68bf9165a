/** Small shared vocabulary: bytes and optional values. */
module Prelude {

  /** An octet, as in Python's `bytes`. */
  newtype byte = x: int | 0 <= x < 256

  datatype Option<+T> = None | Some(value: T) {
    /** The carried value, or `default` when there is none. */
    function GetOr(default: T): T {
      match this
      case Some(v) => v
      case None => default
    }
  }
}
