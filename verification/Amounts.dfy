/** Amounts: checked unsigned 256-bit integers. Beyond the largest one the arithmetic throws. */
module Amounts {

  const WIDTH: int := 0x1_0000_0000_0000_0000_0000_0000_0000_0000_0000_0000_0000_0000_0000_0000_0000_0000

  const MAX_AMOUNT: nat := WIDTH - 1

  type Amount = n: int | 0 <= n < WIDTH
}
