/// Compile-time configuration of the storage backends. The values are assumed for this
/// build; the header `xid_xmu.h` that defines them is not part of this model.
module Config {

  /** Logical block size reported to the host and used to form flash addresses. */
  const MSC_BLOCK_SIZE: nat := 512

  /** Number of logical blocks of the RAM disk (and of the flash partition). */
  const MSC_BLOCK_NUM: nat := 2048

  /** Program page size of the serial NOR flash. */
  const PAGE_SIZE: nat := 256

  /** Size in bytes of the RAM disk `msc_ram_disk`. */
  const RAM_DISK_BYTES: nat := MSC_BLOCK_SIZE * MSC_BLOCK_NUM

  /** FlexSPI2 address at which the external flash chip is mapped. */
  const FLASH_BASE: nat := 0x0080_0000
}
