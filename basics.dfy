/** Small shared vocabulary: optional values and the device's byte range. */
module Basics {

  datatype Option<+T> = None | Some(value: T)

  /** An unsigned 8-bit value as the desk reports and accepts it. */
  type Byte = b: int | 0 <= b <= 255
}
