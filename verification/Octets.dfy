/** The bytes of an original or of a hashed encoding. */
module Octets {
  newtype byte = x: int | 0 <= x < 256
}
