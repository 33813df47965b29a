/** An octet, `uint8_t`: the unit every buffer and wire image is made of. */
module Bytes {
  newtype byte = b: int | 0 <= b < 256
}
