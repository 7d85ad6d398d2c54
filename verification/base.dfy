/** Small shared vocabulary: optional values and octets. */
module Base {

  /** A value that may be absent; stands for Python's `Optional[...]` / `None`. */
  datatype Option<+T> = None | Some(value: T) {

    /** The carried value, or `default` when absent (Python's `x or default`, `dict.get(k, d)`). */
    function GetOr(default: T): T
    {
      match this
      case Some(v) => v
      case None => default
    }
  }

  /** One octet of a byte string (Python `bytes` element). */
  type Byte = x: int | 0 <= x < 256

  type Bytes = seq<Byte>
}
