/** Octets, as Python's `bytes` and zlib see them. */
module Bytes {

  newtype byte = b: int | 0 <= b < 256
}
