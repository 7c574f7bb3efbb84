/** The machine-level value types shared by the modules: fixed-width
    integers as bounded `int`s, and `f32` values as their IEEE 754 bit
    patterns. */
module Machine {

  const U32_LIMIT: int := 0x1_0000_0000
  const U64_LIMIT: int := 0x1_0000_0000_0000_0000
  const U128_LIMIT: int := 0x1_0000_0000_0000_0000_0000_0000_0000_0000

  type U16 = x: int | 0 <= x < 0x1_0000
  type U32 = x: int | 0 <= x < 0x1_0000_0000
  type U64 = x: int | 0 <= x < 0x1_0000_0000_0000_0000
  type U128 = x: int | 0 <= x < 0x1_0000_0000_0000_0000_0000_0000_0000_0000
  type I32 = x: int | -0x8000_0000 <= x < 0x8000_0000

  /** An `f32` bit pattern. */
  type F32 = U32

  const F32_ZERO: F32 := 0
  const F32_NEG_ZERO: F32 := 0x8000_0000
  const F32_ONE: F32 := 0x3f80_0000
  const F32_MAX: F32 := 0x7f7f_ffff
  const F32_0_001: F32 := 0x3a83_126f
}
