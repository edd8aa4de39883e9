/** Raw bytes, as image files and gRPC messages carry them. */
module Bytes {
  newtype byte = b: int | 0 <= b < 256
}
