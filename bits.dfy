/** Machine-word types shared by the memory store and the 6800 model. */
module Bits {

  /** An 8-bit value: accumulator A or B, one memory cell. */
  type Byte = v: int | 0 <= v < 0x100

  /** A 16-bit value: register X, PC or SP, or a memory address. */
  type Word = v: int | 0 <= v < 0x10000

  /** `v & weight != 0` for a single-bit mask `weight` (1, 2, 4, ..., 0x8000). */
  function Bit(v: nat, weight: nat): bool
    requires weight > 0
  {
    (v / weight) % 2 == 1
  }

  /** A boolean used as an integer, as Python does in `m.C << 7` or `| m.C`. */
  function IntOf(f: bool): nat
  {
    if f then 1 else 0
  }
}
