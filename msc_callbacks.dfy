/// The constant mass-storage callbacks: capacity, test-unit-ready, inquiry and the
/// catch-all SCSI handler.
module MscCallbacks {
  import opened Bytes
  import opened Config
  import BlockDevice

  /** What `tud_msc_capacity_cb` reports: `*block_count` (`uint32_t`) and
      `*block_size` (`uint16_t`). */
  datatype Capacity = Capacity(blockCount: Word, blockSize: nat)

  /** `tud_msc_capacity_cb` with the RAM or flash backend: `MSC_BLOCK_NUM` blocks of
      `MSC_BLOCK_SIZE` bytes, which together are exactly the size of the RAM disk. */
  function RamCapacity(lun: Byte): (c: Capacity)
    ensures c.blockSize < 0x1_0000
    ensures c.blockCount * c.blockSize == RAM_DISK_BYTES
    ensures c.blockSize == MSC_BLOCK_SIZE
  {
    Capacity(MSC_BLOCK_NUM, MSC_BLOCK_SIZE)
  }

  /** `tud_msc_capacity_cb` with the SD backend: `sdcard_block_count()` and the block
      size cast to `uint16_t` (512 fits). The block count the firmware reports is
      `blocksPerCluster * clusterCount` of the card's FAT volume; the model's card is
      taken to have exactly that many blocks, so the reported capacity is the size of
      its linear address space. */
  function SdCapacity(lun: Byte, card: BlockDevice.Card): (c: Capacity)
    reads card
    requires card.Valid() && |card.blocks| < U32_LIMIT
    ensures c.blockSize < 0x1_0000
    ensures c.blockCount * c.blockSize == |BlockDevice.Linear(card.blocks)|
    ensures c.blockCount == |card.blocks|
    ensures c.blockSize == BlockDevice.BLOCK_SIZE
  {
    Capacity(|card.blocks|, BlockDevice.BLOCK_SIZE % 0x1_0000)
  }

  /** `tud_msc_test_unit_ready_cb`: the unit always reports ready. */
  function TestUnitReady(lun: Byte): (ready: bool)
    ensures ready
  {
    true
  }

  /** `tud_msc_scsi_cb`: every command outside the stack's built-in set is refused with
      a negative status, -1. */
  function ScsiCommand(lun: Byte, scsiCmd: seq<Byte>, bufsize: nat): (r: int)
    requires |scsiCmd| == 16
    ensures r < 0
    ensures r == -1
  {
    -1
  }

  /** `s` as ASCII bytes. */
  function Ascii(s: string): (b: seq<Byte>)
    requires forall i :: 0 <= i < |s| ==> s[i] as int < 0x80
    ensures |b| == |s|
    ensures forall i :: 0 <= i < |s| ==> b[i] == s[i] as int
  {
    if s == [] then [] else [s[0] as int] + Ascii(s[1..])
  }

  /** A C string literal: its characters followed by the terminating NUL. */
  function CString(s: string): (cs: seq<Byte>)
    requires forall i :: 0 <= i < |s| ==> 0 < s[i] as int < 0x80
    ensures |cs| == |s| + 1 && cs[|s|] == 0
    ensures forall i :: 0 <= i < |s| ==> cs[i] == s[i] as int
  {
    Ascii(s) + [0]
  }

  /** `strlen`: the index of the first NUL. */
  function StrLen(cs: seq<Byte>): (n: nat)
    requires exists i :: 0 <= i < |cs| && cs[i] == 0
    ensures n < |cs| && cs[n] == 0
    ensures forall i :: 0 <= i < n ==> cs[i] != 0
  {
    if cs[0] == 0 then 0 else StrLen(cs[1..]) + 1
  }

  /** The length `strlen` finds in a string literal is that of its characters. */
  lemma StrLenOfLiteral(s: string)
    requires forall i :: 0 <= i < |s| ==> 0 < s[i] as int < 0x80
    ensures StrLen(CString(s)) == |s|
  {
  }

  const VENDOR_ID: string := "Ryzee119"
  const PRODUCT_ID: string := "Mass Storage"
  const PRODUCT_REV: string := "1.0"

  /** `memcpy(dst, lit, strlen(lit))` for the string literal `lit` of `s`: the characters
      land at the start of `dst`, the NUL is not copied and the rest of `dst` is kept. */
  method CopyLiteral(dst: array<Byte>, s: string)
    requires forall i :: 0 <= i < |s| ==> 0 < s[i] as int < 0x80
    requires |s| <= dst.Length
    modifies dst
    ensures forall i :: 0 <= i < |s| ==> dst[i] == s[i] as int
    ensures dst[|s|..] == old(dst[|s|..])
  {
    var lit := CString(s);
    StrLenOfLiteral(s);
    Memcpy(dst, 0, lit[..StrLen(lit)]);
  }

  /** `tud_msc_inquiry_cb`: each identification string is copied with its `strlen`,
      without the NUL. "Ryzee119" fills the 8-byte vendor field; "Mass Storage" fills
      the first 12 of the 16 product bytes and "1.0" the first 3 of the 4 revision
      bytes, and the bytes after them keep the values the caller put there. */
  method Inquiry(lun: Byte, vendorId: array<Byte>, productId: array<Byte>, productRev: array<Byte>)
    requires vendorId.Length == 8 && productId.Length == 16 && productRev.Length == 4
    requires vendorId != productId && vendorId != productRev && productId != productRev
    modifies vendorId, productId, productRev
    ensures forall i :: 0 <= i < 8 ==> vendorId[i] == VENDOR_ID[i] as int
    ensures forall i :: 0 <= i < 12 ==> productId[i] == PRODUCT_ID[i] as int
    ensures productId[12..] == old(productId[12..])
    ensures forall i :: 0 <= i < 3 ==> productRev[i] == PRODUCT_REV[i] as int
    ensures productRev[3..] == old(productRev[3..])
  {
    CopyLiteral(vendorId, VENDOR_ID);
    CopyLiteral(productId, PRODUCT_ID);
    CopyLiteral(productRev, PRODUCT_REV);
  }
}
