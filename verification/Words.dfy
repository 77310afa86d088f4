/** 64-bit machine words. */
module Words {
  const WORD: nat := 0x1_0000_0000_0000_0000

  /** `npos`: no index, or the end. */
  const NPOS: nat := 0xffff_ffff_ffff_ffff
}
