/** Numbers several parts share. */
module Numbers {

  /** The largest 32-bit word. */
  const MAX_WORD: nat := 0xFFFF_FFFF

  /** One more than the largest 32-bit word. */
  const WORD32: nat := 0x1_0000_0000

  function Min(a: int, b: int): int {
    if a < b then a else b
  }
}
