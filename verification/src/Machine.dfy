/** The machine integers of the program, with the wrap-around of its release builds. */
module Machine {

  const TWO_TO_32: int := 0x1_0000_0000
  const TWO_TO_63: int := 0x8000_0000_0000_0000
  const TWO_TO_64: int := 0x1_0000_0000_0000_0000

  type uint8 = x: int | 0 <= x < 256
  type uint32 = x: int | 0 <= x < TWO_TO_32
  type uint64 = x: int | 0 <= x < TWO_TO_64
  type int64 = x: int | -TWO_TO_63 <= x < TWO_TO_63

  type Address = uint64
  type CpuId = uint64
  type LineNo = int64
  // Paths are opaque values with equality.
  type Path = string

  function WrapU32(x: int): uint32 {
    x % TWO_TO_32
  }

  function WrapU64(x: int): uint64 {
    x % TWO_TO_64
  }

  // `cast_signed`: the same 64 bits read as two's complement.
  function ToSigned(x: uint64): int64 {
    if x < TWO_TO_63 then x else x - TWO_TO_64
  }

  // `cast_unsigned`, the inverse of `ToSigned`.
  function ToUnsigned(x: int64): uint64 {
    if 0 <= x then x else x + TWO_TO_64
  }

  function WrapI64(x: int): int64 {
    ToSigned(WrapU64(x))
  }

  // Division and remainder that truncate toward zero.
  function TruncDiv(a: int, b: int): int
    requires 0 < b
  {
    if 0 <= a then a / b else -(-a / b)
  }

  function TruncMod(a: int, b: int): int
    requires 0 < b
  {
    a - b * TruncDiv(a, b)
  }

  lemma WrapU64Fits(x: int)
    requires 0 <= x < TWO_TO_64
    ensures WrapU64(x) == x
  {
  }

  lemma WrapI64Fits(x: int)
    requires -TWO_TO_63 <= x < TWO_TO_63
    ensures WrapI64(x) == x
  {
  }

  // Two's complement addition: the signed and the unsigned sum are the same 64 bits.
  lemma SignedSumWraps(v: uint64, k: int64)
    ensures ToUnsigned(WrapI64(ToSigned(v) + k)) == WrapU64(v + k)
  {
  }
}
