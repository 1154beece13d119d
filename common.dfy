/** Values shared by both command-line tools: bytes, optional values and results. */
module Common {

  /** One octet, as Python's `bytes` elements and hidapi report bytes are. */
  type Byte = b: int | 0 <= b < 256

  /** Python's `None` or a value. */
  datatype Option<+T> = None | Some(value: T)

  /** A value, or the exception / `parser.error` that replaced it. */
  datatype Result<+T, +E> = Ok(value: T) | Err(error: E)

  /** Python truthiness of an optional string: neither `None` nor `""`. */
  predicate Truthy(s: Option<string>) {
    s.Some? && s.value != []
  }
}
