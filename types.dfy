/** Machine integer ranges and the Option/Result wrappers shared by the model. */
module Types {

  /** `uint8_t` / `uchar`: one byte of a colour buffer. */
  newtype uint8 = x: int | 0 <= x < 0x100

  /** `uint16_t` / `ushort`: one word of a Coord3D_ABCY16 depth buffer. */
  newtype uint16 = x: int | 0 <= x < 0x1_0000

  const TwoTo32: int := 0x1_0000_0000
  const MinInt32: int := -0x8000_0000
  const MaxInt32: int := 0x7FFF_FFFF
  const MinInt64: int := -0x8000_0000_0000_0000
  const MaxInt64: int := 0x7FFF_FFFF_FFFF_FFFF
  const MaxUint32: int := 0xFFFF_FFFF

  predicate IsInt32(x: int) { MinInt32 <= x <= MaxInt32 }
  predicate IsInt64(x: int) { MinInt64 <= x <= MaxInt64 }
  predicate IsUint32(x: int) { 0 <= x <= MaxUint32 }

  datatype Option<T> = None | Some(value: T)

  datatype Result<T, E> = Success(value: T) | Failure(error: E)
}
