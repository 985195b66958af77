/** The layout of a trampoline in 32-bit code: one record of 72 bytes, each field at its offset. */
module TrampolineLayout {
  const TRAMPOLINE_SIZE: nat := 72

  const CODE_SIZE: nat := 30     // rbCode, from offset 0: the copies and the jump behind them
  const CB_CODE: nat := 30       // one byte: the size of the copies
  const RB_RESTORE: nat := 32    // the bytes that moved, as they were
  const RESTORE_SIZE: nat := 22
  const CB_RESTORE: nat := 54    // one byte: how many there are
  const R_ALIGN: nat := 56       // one byte for each copy
  const ALIGNMENTS: nat := 8
  const REMAIN: nat := 64        // the first byte that did not move
  const DETOUR: nat := 68
}
