/** Bytes, as the text and the cryptographic code see them. */
module Octets {
  newtype byte = b: int | 0 <= b < 256

  type Bytes = seq<byte>
}
