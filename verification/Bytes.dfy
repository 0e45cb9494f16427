/** Bytes as the C code sees them through unsigned char. */
module Bytes {
  type Byte = b: int | 0 <= b < 256

  /** A string with its length: what an sds or a ziplist entry holds. */
  type Octets = seq<Byte>
}
