/** Octets, the unit of the editor's buffer (`ctypes` character buffers and
    Python `bytes`). */
module Bytes {

  newtype byte = b: int | 0 <= b < 256
}
