/** Kernel-side memory types shared by the mapping code and the boot-time setup. */
module MemTypes {

  /** `VirtualMemoryFlags`, a set of bits in a `u8`. */
  type VirtualMemoryFlags = bv8

  const Writeable: VirtualMemoryFlags := 1
  const Executable: VirtualMemoryFlags := 2
  const UserAccessible: VirtualMemoryFlags := 4
  const MMIO: VirtualMemoryFlags := 8

  /** The empty flag set. */
  const NoFlags: VirtualMemoryFlags := 0

  /** bitflags' `contains`: every bit of `other` is set in `flags`. */
  predicate Contains(flags: VirtualMemoryFlags, other: VirtualMemoryFlags)
  {
    flags & other == other
  }

  /** The reasons the kernel gives for failing to map memory. */
  datatype PageMapErr = UnalignedPhysicalAddr | UnalignedVirtualAddr | UnalignedSize | PageFrameAllocError
}
