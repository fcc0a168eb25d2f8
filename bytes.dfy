/** Byte-level types shared by the codec, stream and connection modules. */
module Bytes {

  /** One octet of a stream. */
  type byte = x: int | 0 <= x < 0x100

  /** The C++ `uint32_t` that `ReadVarint32` and `WriteVarint32` carry. */
  type uint32 = x: int | 0 <= x < 0x1_0000_0000

  const UINT32_MODULUS: int := 0x1_0000_0000

  /** Largest value of a C `int`, the type that `ByteSize()` returns. */
  const INT32_MAX: int := 0x7FFF_FFFF

  datatype Option<+T> = None | Some(value: T)
}
