/**
 * The fixed-width integers of C#: `uint` as a newtype, and the unchecked
 * wrap-around of `int` arithmetic and of the `(uint)` cast.
 */
module MachineInts {
  newtype u32 = x: int | 0 <= x < 0x1_0000_0000

  const Int32Min: int := -0x8000_0000
  const Int32Max: int := 0x7FFF_FFFF

  /** An `int` computed with C#'s unchecked 32-bit wrap-around. */
  function Wrap32(x: int): (r: int)
    ensures Int32Min <= r <= Int32Max
    ensures (r - x) % 0x1_0000_0000 == 0
    ensures Int32Min <= x <= Int32Max ==> r == x
  {
    (x + 0x8000_0000) % 0x1_0000_0000 - 0x8000_0000
  }

  /** The unchecked cast `(uint)x`. */
  function ToUInt(x: int): (r: u32)
    ensures (r as int - x) % 0x1_0000_0000 == 0
    ensures 0 <= x < 0x1_0000_0000 ==> r as int == x
    ensures Int32Min <= x < 0 ==> r as int == x + 0x1_0000_0000
  {
    (x % 0x1_0000_0000) as u32
  }
}
