/** Small value types shared by the rest of the model. */
module Wrappers {

  /** An optional value: absent (`None`) or present (`Some`). */
  datatype Option<+T> = None | Some(value: T) {

    /** The present value, or `default` when there is none. */
    function GetOr(default: T): T {
      match this
      case Some(v) => v
      case None => default
    }
  }

  /** One octet of a blob's content. */
  newtype byte = x: int | 0 <= x < 256

  /** The content of a blob, a downloaded body or a local file. */
  type Bytes = seq<byte>
}
