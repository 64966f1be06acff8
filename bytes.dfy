/** Octets, as the Base64 and UTF-8 layers see them. */
module Bytes {
  type Byte = b: int | 0 <= b < 256
}
