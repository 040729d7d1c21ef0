/// The RAM-disk backend of the mass-storage callbacks: `msc_ram_disk`, a static buffer of
/// `MSC_BLOCK_SIZE * MSC_BLOCK_NUM` bytes, and the read10 / write10 callbacks that copy
/// into and out of it.
module RamBackend {
  import opened Bytes
  import opened Config

  /** Linear address of byte `offset` of logical block `lba`: `lba * MSC_BLOCK_SIZE + offset`. */
  function Address(lba: nat, offset: nat): nat
  {
    lba * MSC_BLOCK_SIZE + offset
  }

  /** The request `[Address(lba, offset), Address(lba, offset) + len)` lies inside the
      RAM disk. Neither callback checks this; it is what keeps their `memcpy` in bounds. */
  predicate InDisk(lba: nat, offset: nat, len: nat)
  {
    Address(lba, offset) + len <= RAM_DISK_BYTES
  }

  class RamDisk {
    /** `msc_ram_disk`. */
    var disk: array<Byte>

    ghost predicate Valid()
      reads this
    {
      disk.Length == RAM_DISK_BYTES
    }

    constructor ()
      ensures Valid() && fresh(disk)
    {
      disk := new Byte[RAM_DISK_BYTES](_ => 0);
    }

    /** `tud_msc_read10_cb`, RAM branch: `memcpy(buffer, &msc_ram_disk[lba * MSC_BLOCK_SIZE] + offset, bufsize)`.
        The first `bufsize` bytes of `buffer` become the disk bytes from
        `Address(lba, offset)` on, the rest of `buffer` and the disk are untouched, and
        `bufsize` is returned. */
    method Read10(lun: Byte, lba: Word, offset: Word, buffer: array<Byte>, bufsize: Word) returns (r: int)
      requires Valid() && buffer != disk
      requires bufsize <= buffer.Length && InDisk(lba, offset, bufsize)
      modifies buffer
      ensures r == bufsize
      ensures buffer[..] == Splice(old(buffer[..]), 0, disk[Address(lba, offset)..Address(lba, offset) + bufsize])
    {
      var a := Address(lba, offset);
      Memcpy(buffer, 0, disk[a..a + bufsize]);
      r := Int32Of(bufsize);
    }

    /** `tud_msc_write10_cb`, RAM branch: `memcpy(&msc_ram_disk[lba * MSC_BLOCK_SIZE] + offset, buffer, bufsize)`.
        The disk bytes `[Address(lba, offset), Address(lba, offset) + bufsize)` become
        `buffer[..bufsize]`, every other disk byte keeps its value, and `bufsize` is
        returned. */
    method Write10(lun: Byte, lba: Word, offset: Word, buffer: array<Byte>, bufsize: Word) returns (r: int)
      requires Valid() && buffer != disk
      requires bufsize <= buffer.Length && InDisk(lba, offset, bufsize)
      modifies disk
      ensures r == bufsize
      ensures disk[..] == Splice(old(disk[..]), Address(lba, offset), buffer[..bufsize])
    {
      Memcpy(disk, Address(lba, offset), buffer[..bufsize]);
      r := Int32Of(bufsize);
    }

    /** write10 followed by read10 of the same range returns the bytes written. */
    method WriteThenRead(lba: Word, offset: Word, data: array<Byte>, bufsize: Word) returns (back: array<Byte>)
      requires Valid() && data != disk && bufsize <= data.Length && InDisk(lba, offset, bufsize)
      modifies disk
      ensures back[..] == data[..bufsize]
    {
      var w := Write10(0, lba, offset, data, bufsize);
      back := new Byte[bufsize](_ => 0);
      var n := Read10(0, lba, offset, back, bufsize);
    }
  }
}
