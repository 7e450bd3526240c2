/** Byte strings, as read from and written to files. */
module Bytes {

  newtype byte = x: int | 0 <= x < 256
}
