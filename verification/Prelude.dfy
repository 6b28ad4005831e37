/** Shared value types: bytes and optional results. */
module Prelude {

  newtype Byte = x: int | 0 <= x < 256

  type Bytes = seq<Byte>

  datatype Option<+T> = None | Some(value: T)
}
