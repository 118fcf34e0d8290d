/** Octets, as the compressed formats and tables see them. */
module Bytes {
  type byte = x: int | 0 <= x < 256
}
