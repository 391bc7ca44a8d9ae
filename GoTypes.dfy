/** Go's fixed-width integer types, its nil values and the int32 conversion. */
module GoTypes {

  const Two31: int := 0x8000_0000
  const Two32: int := 0x1_0000_0000
  const Two63: int := 0x8000_0000_0000_0000
  const Two64: int := 0x1_0000_0000_0000_0000

  /** Go `int64` (and `int` on the 64-bit platforms the service targets). */
  type int64 = x: int | -Two63 <= x < Two63

  /** Go `int32`, the width of the wire form's `Max`. */
  type int32 = x: int | -Two31 <= x < Two31

  type byte = x: int | 0 <= x < 256

  /** A Go reference or slice that may be nil. */
  datatype Option<+T> = None | Some(value: T)

  predicate FitsInt32(x: int) {
    -Two31 <= x < Two31
  }

  /** Go's conversion `int32(x)` from a 64-bit integer: keeps the low 32 bits, two's complement. */
  function ToInt32(x: int64): (r: int32)
    ensures FitsInt32(x) <==> r == x
    ensures (r - x) % Two32 == 0
  {
    ((x + Two31) % Two32) - Two31
  }
}
