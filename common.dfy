/** Machine types of the Go source and the error-carrying results shared by every module. */
module Common {

  /** A Go `byte`. */
  newtype byte = x: int | 0 <= x < 0x100

  /** A Go `string` or `[]byte`: raw bytes, never interpreted as characters. */
  type Bytes = seq<byte>

  /** A Go `string` value: its length fits in a Go `int`. */
  type GoString = s: Bytes | |s| <= MAX_INT64

  const MIN_INT32: int := -0x8000_0000
  const MAX_INT32: int := 0x7FFF_FFFF
  const MIN_INT64: int := -0x8000_0000_0000_0000
  const MAX_INT64: int := 0x7FFF_FFFF_FFFF_FFFF

  /** A Go `int32`. */
  newtype int32 = x: int | MIN_INT32 <= x <= MAX_INT32

  /** A Go `int` on a 64-bit platform. */
  newtype int64 = x: int | MIN_INT64 <= x <= MAX_INT64

  datatype Option<+T> = None | Some(value: T)

  datatype Result<+T, +E> = Ok(value: T) | Err(error: E)
}
