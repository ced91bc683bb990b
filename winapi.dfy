/**
 * The RegisterHotKey modifier flags of AppLogic/Helpers/WinApi.cs, and the
 * window handle type.
 */
module WinApi {
  /** An `IntPtr` window handle; zero is the null handle. */
  type Handle = int

  /** A `uint` used as a set of bit flags: `&` and `|` are bitwise. */
  type Flags = bv32

  const ModAlt: Flags := 0x0001
  const ModControl: Flags := 0x0002
  const ModNoRepeat: Flags := 0x4000
  const ModShift: Flags := 0x0004
  const ModWin: Flags := 0x0008
}
