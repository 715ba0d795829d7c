/** Small shared vocabulary: octets and optional values. */
module Base {

  /** An octet as it travels over the serial link. */
  type byte = x: int | 0 <= x < 256

  /** A value that may be missing; the model's stand-in for a swallowed exception. */
  datatype Option<+T> = None | Some(value: T)
}
