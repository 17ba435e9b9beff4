/** Small shared vocabulary: an optional value and the byte type. */
module Common {

  /** A value that may be missing (Python's None, JavaScript's null/undefined). */
  datatype Option<+T> = None | Some(value: T)

  /** An octet, as Python's `bytes` and a browser Blob hold them. */
  type Byte = x: int | 0 <= x < 256
}
