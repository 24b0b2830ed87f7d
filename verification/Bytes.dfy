/** Bytes, as the sidecar's Go code handles them. */
module Bytes {
  type Byte = x: int | 0 <= x < 256
}
