/** Bytes as Python's `bytes` holds them: integers from 0 to 255. */
module Octets {

  type byte = b: int | 0 <= b < 256
}
