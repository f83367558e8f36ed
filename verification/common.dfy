/** Small shared vocabulary: optional values and bytes. */
module Common {

  /** A value that may be absent (JavaScript `undefined`, `null` or `NaN`
      depending on where it is used). */
  datatype Option<+T> = None | Some(value: T)

  /** One octet of a file or buffer. */
  type byte = x: int | 0 <= x < 256
}
