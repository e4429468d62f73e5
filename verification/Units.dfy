/**
 Sizes that several parts of the kernel share.
 */
module Units {
  const PGSIZE: nat := 4096
  // 2^32: addresses and counters are 32 bits wide.
  const WORD: nat := 0x1_0000_0000

  type Address = a: nat | a < WORD
}
