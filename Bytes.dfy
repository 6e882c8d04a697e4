/** Octets, as UTF-8 produces them and Base64 consumes them. */
module Bytes {

  type byte = x: int | 0 <= x < 256
}
