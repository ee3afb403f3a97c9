/** Architecture constants shared by the memory-management core. */
module Arch {

  /** Size in bytes of one page frame, the granularity of allocation and mapping. */
  const PAGE_SIZE: nat := 4096

  /** Values of Rust's `u64`. */
  type U64 = x: int | 0 <= x < 0x1_0000_0000_0000_0000
}
