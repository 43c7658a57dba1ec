/** Octets, the unit of `Buffer` contents. */
module Bytes {
  type byte = b: int | 0 <= b < 256
}
