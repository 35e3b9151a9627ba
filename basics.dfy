/** Small shared vocabulary: octets and an optional value. */
module Basics {

  /** An octet, the unit of UTF-8 and of base64 input. */
  type byte = b: int | 0 <= b < 256

  datatype Option<+T> = None | Some(value: T)
}
