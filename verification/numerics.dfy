/** The fixed-width integer types of the runtime, written out explicitly. */
module Numerics {

  /** An unsigned 8-bit value. */
  type byte = b: int | 0 <= b < 0x100

  const Int32Min: int := -0x8000_0000
  const Int32Max: int := 0x7FFF_FFFF
  const UInt32Modulus: int := 0x1_0000_0000
  const UInt64Modulus: int := 0x1_0000_0000_0000_0000

  /** A signed 32-bit value. */
  type int32 = i: int | Int32Min <= i <= Int32Max

  /** The unchecked conversion `(uint)i` of a signed 32-bit value: negative values wrap around. */
  function ToUInt32(i: int32): (u: nat)
    ensures u < UInt32Modulus
    ensures u % UInt32Modulus == i % UInt32Modulus
    ensures 0 <= i ==> u == i
  {
    if i < 0 then i + UInt32Modulus else i
  }

  /** Unsigned 64-bit addition, which wraps around modulo 2^64. */
  function AddUInt64(a: nat, b: nat): (s: nat)
    requires a < UInt64Modulus && b < UInt64Modulus
    ensures s < UInt64Modulus
    ensures a + b < UInt64Modulus ==> s == a + b
    ensures UInt64Modulus <= a + b ==> s < a && s == a + b - UInt64Modulus
  {
    if a + b < UInt64Modulus then a + b else a + b - UInt64Modulus
  }
}
