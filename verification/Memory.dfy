/** Results and memory blocks shared by the allocator and the pager (utils/memory.rs, allocator.rs). */
module Memory {
  const PAGE: nat := 0x1000

  /** `KERNEL_MAXIMUM_ALLOCATABLE_ADDRESS`: 32 GiB. */
  const MAXIMUM_ALLOCATABLE_ADDRESS: nat := 0x8_0000_0000

  type U16 = x: nat | x < 0x1_0000

  datatype MemoryResult =
    | InvalidLength
    | InvalidAddress
    | InvalidBlock
    | InvalidFlags
    | InvalidActivateFlags
    | AllocationError
    | PagingError
    | Nospace

  datatype Result<+T> = Ok(value: T) | Err(error: MemoryResult)

  datatype Option<+T> = None | Some(value: T)

  datatype MemoryBlock = MemoryBlock(base: nat, length: nat) {
    function End(): nat { base + length }
  }
}
