/** Values shared by every component: bytes, optional results and integer ranges. */
module Bytes {
  type byte = x: int | 0 <= x < 256

  datatype Option<+T> = None | Some(value: T)

  predicate FitsInt16(x: int) {
    -0x8000 <= x < 0x8000
  }

  /** C's conversion of a non-negative quotient by two, truncating toward zero. */
  function HalfTowardZero(x: int): int {
    if x >= 0 then x / 2 else -((-x) / 2)
  }
}
