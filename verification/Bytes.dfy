/** Octets and byte chunks. */
module Bytes {
  type Byte = b: int | 0 <= b < 256

  type Chunk = seq<Byte>
}
