/** Small shared vocabulary: optional values and bytes. */
module Common {

  /** A value that may be missing; None also stands for an exception the source raises. */
  datatype Option<T> = None | Some(value: T)

  /** One octet of a file body or of a network read. */
  newtype byte = b: int | 0 <= b < 256
}
