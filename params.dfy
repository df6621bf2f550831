// The program-wide constants at the top of src/index.js.

module Params {
  import opened Bits

  /** Number of subdivision levels; coordinates are N-bit numbers. */
  const N: nat := 8

  /** Number of discrete coordinates, 2^N. */
  const EXP_N: nat := Pow2(N)

  /** Length of the truncated forward orbit drawn along each side of the orbit grid. */
  const ORBIT_ITERS: nat := 10
}
