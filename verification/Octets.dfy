/** Bytes. */
module Octets {
  type Byte = n: int | 0 <= n < 256
  type Bytes = seq<Byte>
}
