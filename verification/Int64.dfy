/** 64-bit signed arithmetic as the engine uses it: saturating operations clamp to the
    i64 range, and `/` truncates toward zero. */
module Int64 {
  const MIN: int := -0x8000_0000_0000_0000
  const MAX: int := 0x7FFF_FFFF_FFFF_FFFF

  predicate Is(x: int) {
    MIN <= x <= MAX
  }

  function Clamp(x: int): int {
    if x < MIN then MIN else if x > MAX then MAX else x
  }

  /** `i64::saturating_add` */
  function SatAdd(a: int, b: int): int {
    Clamp(a + b)
  }

  /** `i64::saturating_sub` */
  function SatSub(a: int, b: int): int {
    Clamp(a - b)
  }

  /** `i64::saturating_mul` */
  function SatMul(a: int, b: int): int {
    Clamp(a * b)
  }

  /** Rust's `/` on signed integers. */
  function TruncDiv(a: int, b: int): int
    requires b > 0
  {
    if a >= 0 then a / b else -((-a) / b)
  }

  function Min(a: int, b: int): int {
    if a <= b then a else b
  }

  function Max(a: int, b: int): int {
    if a >= b then a else b
  }
}
