# Storage backend of the MSC device (ogx360_t4, `src/usbd/xid_xmu.c`)

A Dafny model of the storage backend behind the USB Mass-Storage callbacks of the
firmware, with proofs of what it does. The backend answers the stack's read10 / write10 /
capacity / inquiry / test-unit-ready / SCSI callbacks from one of three media.

- **SD card** (`sdcard_read`, `sdcard_write`). A partial-block translator maps a request
  `(block, offset, size)` onto whole-block `_read_block` / `_write_block` calls of a
  512-byte block primitive. Writes always read, merge and write back the first block, even
  a whole one. After it, they write each whole block straight from the caller's buffer,
  and read, merge and write back a partial last block (`SdBackend.WriteOpsClosedForm`). The card is a class
  (`BlockDevice.Card`) holding a sequence of blocks, plus a ghost trace of the block calls
  made. Its linear view (`BlockDevice.Linear`) gives the byte at linear address
  `block * 512 + offset + i`. Both procedures are loops with invariants:
  - the read delivers exactly the linear bytes of the request;
  - the write splices the caller's bytes into the linear view and leaves every other
    byte as it was;
  - both make exactly the block calls given by the span decomposition (`Spans`), whose
    shape is proved.
- **RAM disk.** The read10 / write10 callbacks are a `memcpy` into and out of the
  `msc_ram_disk` array at `lba * MSC_BLOCK_SIZE + offset`, and they return `bufsize`.
  Write-then-read returns the written bytes.
- **External NOR flash through FlexSPI2.** `flash_erase`, `flash_program`, `flash_read`,
  `flash_wait` and the flash branches of read10 / write10 are modelled as the IP
  transactions they issue, logged by a `FlexSpi.Controller`. The log holds one record per
  transaction: sequence id and address, plus the length for data transfers. It also holds
  one `WaitReady` entry per `flash_wait`. The sequence ids logged are 9 (quad read),
  10 (write enable), 11 (page program) and 12 (sector erase). `WaitReady` stands for the
  run of sequence-13 status reads (read status 1) that `flash_wait` polls. The receive-FIFO drain of
  `flexspi2_ip_read` is modelled on a byte array and proved:
  - 16-byte bursts of four little-endian words;
  - then whole words;
  - then 1–3 tail bytes, low byte first.
- **Constant callbacks:**
  - capacity (2048 × 512 for the RAM/flash build; for SD, the volume's block count × 512);
  - test-unit-ready (always ready);
  - inquiry (copies `strlen` bytes of "Ryzee119", "Mass Storage" and "1.0");
  - the catch-all SCSI handler (returns -1).

The configuration header `xid_xmu.h` is not part of this model. `config.dfy` assumes
`MSC_BLOCK_SIZE` = 512, `MSC_BLOCK_NUM` = 2048 and `PAGE_SIZE` = 256 for this build.

The translator's guard is `offset > block_sz` (`src/usbd/xid_xmu.c:382`, `:423`), so
`offset == 512` is accepted: the first block is still read (and, for a write, written
back unchanged), and the request goes on at the next block
(`SdBackend.OffsetAtBlockEnd`).

Files:

| File | Contents |
|---|---|
| `bytes.dfy` | bytes, 32-bit words, `int32_t` conversion, 32-bit wrap-around, `memcpy` |
| `config.dfy` | constants |
| `block_device.dfy` | the SD block primitive |
| `sd_backend.dfy` | the translator |
| `ram_backend.dfy` | the RAM disk |
| `msc_callbacks.dfy` | the constant callbacks |
| `flexspi.dfy` | the FlexSPI2 IP-command layer and FIFO drain |
| `flash_backend.dfy` | the flash backend |

## Model

| member | source | states |
|---|---|---|
| Bytes.Int32Of | src/usbd/xid_xmu.c:276 | a `uint32_t` converted to `int32_t` lies in [-2^31, 2^31); it is non-negative exactly when the value is below 2^31; otherwise it is the value minus 2^32 |
| Bytes.Wrap32 | src/usbd/xid_xmu.c:275 | a sum held in a `uint32_t`: unchanged below 2^32, and always congruent to the sum modulo 2^32 |
| Bytes.Wrap32Add | src/usbd/xid_xmu.c:284 | advancing an already wrapped address and wrapping again equals wrapping the whole sum, so repeated `addr += b` wraps only once |
| Bytes.Memcpy | src/usbd/xid_xmu.c:58 | `memcpy(&dst[at], src, n)`: the bytes from `at` become `src`, nothing else in `dst` changes |
| Bytes.SpliceNested | src/usbd/xid_xmu.c:437-441 | patching bytes `off..` of the block window at `base` and putting the window back is patching the whole at `base + off` |
| BlockDevice.Linear | src/usbd/diskio_wrapper.cpp:28-31 | the card's blocks of 512 bytes laid end to end: the linear view holds `512 * count` bytes |
| BlockDevice.LinearBlock | src/usbd/xid_xmu.c:396 | bytes `[512 j, 512 j + 512)` of the linear view are block `j` |
| BlockDevice.LinearAt | src/usbd/xid_xmu.c:397 | linear byte `512 j + k` is byte `k` of block `j` |
| BlockDevice.LinearUpdate | src/usbd/xid_xmu.c:466 | replacing block `j` replaces linear bytes `[512 j, 512 j + 512)`, and every other linear byte stays |
| BlockDevice.LinearMerge | src/usbd/xid_xmu.c:437-441 | read-modify-write of block `j` with `e` at `off` changes exactly linear bytes `[512 j + off, 512 j + off + \|e\|)` |
| BlockDevice.Card.constructor | src/usbd/diskio_wrapper.cpp:11-21 | a card of `count` blocks of 512 bytes with no block call made |
| BlockDevice.Card.ReadBlock | src/usbd/diskio_wrapper.cpp:33-36 | `_read_block(index, dst)`: `dst` receives block `index`, and one read of `index` is recorded |
| BlockDevice.Card.WriteBlock | src/usbd/diskio_wrapper.cpp:38-41 | `_write_block(index, src)`: block `index` becomes `src`, the other blocks are kept, and one write of `index` is recorded |
| SdBackend.FollowSpansShape | src/usbd/xid_xmu.c:404-413 | after the first block the loop visits `ceil(n / 512)` consecutive blocks from position 0; all but the last are whole blocks; the copy sizes add up to the `n` bytes left, so `pos` ends exactly at `size` |
| SdBackend.SpansShape | src/usbd/xid_xmu.c:393-413 | a request becomes consecutive blocks from `block`, without gaps: the first span is `min(512 - offset, size)` bytes from `offset`; no span leaves its block; later spans start at 0 and are non-empty; inner spans are whole blocks; each span starts where the previous one ends linearly; the lengths add up to `size` |
| SdBackend.ReadOpsOfSpans | src/usbd/xid_xmu.c:396-412 | `sdcard_read` reads each block of the request once, from `block` upwards, with no gap |
| SdBackend.FollowWriteOpsClosedForm | src/usbd/xid_xmu.c:449-471 | after the first block, `sdcard_write` writes the `n / 512` whole blocks without reading them, then reads and writes back a final partial block if one is left |
| SdBackend.WriteOpsClosedForm | src/usbd/xid_xmu.c:434-471 | the whole `sdcard_write` trace: a read and a write of `block` (whatever its length), then the whole blocks, then the partial last block by read-modify-write |
| SdBackend.WriteTailStep | src/usbd/xid_xmu.c:451-470 | the closed-form trace takes the loop's step: one block's calls, then the trace from the next block |
| SdBackend.FollowWriteStep | src/usbd/xid_xmu.c:451-470 | one loop turn of `sdcard_write`: the calls for the next span, then the trace from the block after |
| SdBackend.OffsetAtBlockEnd | src/usbd/xid_xmu.c:423-444 | with `offset == 512` the guard lets the request through: the first span is empty, block `block` is still read and written back, and the request continues from block `block + 1` |
| SdBackend.CopyOut | src/usbd/xid_xmu.c:396-397 | `_read_block` then `memcpy` out of `block_buf`: the `n` linear bytes from `512 index + from` land at `buf[at..]`, the rest of `buf` is kept, and one read is recorded |
| SdBackend.Read | src/usbd/xid_xmu.c:375-414 | an offset beyond 512 returns with no block call and `buf` untouched. Otherwise `buf[i]` is linear byte `512 block + offset + i` for every `i < size`; `buf` from `size` on is untouched; the card is unchanged; and the block calls are one read per span, in order |
| SdBackend.MergeInto | src/usbd/xid_xmu.c:437-441 | read-modify-write of one block: the linear bytes from `512 index + off` become `src`, all others keep their value, and a read then a write of `index` are recorded |
| SdBackend.StoreSpan | src/usbd/xid_xmu.c:451-467 | a later block: a partial one by read-modify-write, a whole one by a single write without a read. Either way the linear bytes from `512 index` become the data and the calls are SpanWriteOps |
| SdBackend.WriteNext | src/usbd/xid_xmu.c:449-471 | one loop turn keeps the loop invariant: the caller's bytes stored so far grow by `min(512, size - pos)`; the next block starts where they end; made plus still-to-come calls stay the whole trace |
| SdBackend.WriteRemaining | src/usbd/xid_xmu.c:449-471 | the loop of `sdcard_write` after the first block: on exit all `size` bytes are stored and exactly the calls still to come have been made |
| SdBackend.Write | src/usbd/xid_xmu.c:416-472 | an offset beyond 512 returns with no block call and the card unchanged. Otherwise linear bytes `[512 block + offset, + size)` become `buf[..size]`; every other byte keeps its value, including the head of the first block and the tail of the last partial block; the block calls are WriteOps of the spans |
| SdBackend.Read10 | src/usbd/xid_xmu.c:49-62 | SD branch of read10: for an offset beyond 512, `buffer` is untouched and no block call is made; otherwise it delivers the linear bytes of the request, keeps the rest of `buffer`, and reads one block per span in order; returns `bufsize` as an `int32_t` |
| SdBackend.Write10 | src/usbd/xid_xmu.c:64-78 | SD branch of write10: for an offset beyond 512, the card is unchanged and no block call is made; otherwise the request's bytes are stored, every other byte is kept, and the block calls are WriteOps of the spans; returns `bufsize` as an `int32_t` |
| SdBackend.WriteThenRead | src/usbd/xid_xmu.c:375-472 | a write followed by a read of the same range returns exactly the written bytes |
| RamBackend.RamDisk.constructor | src/usbd/xid_xmu.c:27 | `msc_ram_disk`, `MSC_BLOCK_SIZE * MSC_BLOCK_NUM` bytes |
| RamBackend.RamDisk.Read10 | src/usbd/xid_xmu.c:49-62 | RAM branch: the first `bufsize` bytes of `buffer` become disk bytes `[lba * 512 + offset, + bufsize)`; the rest of `buffer` and the disk are untouched; returns `bufsize` |
| RamBackend.RamDisk.Write10 | src/usbd/xid_xmu.c:64-78 | RAM branch: disk bytes `[lba * 512 + offset, + bufsize)` become `buffer[..bufsize]`; every other disk byte is unchanged; returns `bufsize` |
| RamBackend.RamDisk.WriteThenRead | src/usbd/xid_xmu.c:58-74 | write10 then read10 of the same range returns the bytes written |
| MscCallbacks.RamCapacity | src/usbd/xid_xmu.c:80-91 | RAM/flash build: the block size fits `uint16_t`, is `MSC_BLOCK_SIZE`, and count × size is the RAM disk's size (2048 × 512) |
| MscCallbacks.SdCapacity | src/usbd/xid_xmu.c:84-86 | SD build: the block count `sdcard_block_count()` (of the modelled card) and the block size, exactly 512 whatever the count, cast to `uint16_t`; count × size is the modelled card's linear size |
| MscCallbacks.TestUnitReady | src/usbd/xid_xmu.c:94-99 | always ready |
| MscCallbacks.ScsiCommand | src/usbd/xid_xmu.c:119-125 | every command outside the built-in set is refused with -1 |
| MscCallbacks.CString | src/usbd/xid_xmu.c:107-109 | a string literal: byte i is character i of the text, then a NUL ends it |
| MscCallbacks.StrLen | src/usbd/xid_xmu.c:111-113 | `strlen`: the index of the first NUL, with no NUL before it |
| MscCallbacks.StrLenOfLiteral | src/usbd/xid_xmu.c:111-113 | `strlen` of a literal is its number of characters |
| MscCallbacks.CopyLiteral | src/usbd/xid_xmu.c:111-113 | `memcpy(dst, lit, strlen(lit))`: the characters land at the start of `dst`; the NUL and the bytes after are not written |
| MscCallbacks.Inquiry | src/usbd/xid_xmu.c:102-115 | "Ryzee119" fills the 8 vendor bytes; "Mass Storage" fills the first 12 of 16 product bytes; "1.0" fills the first 3 of 4 revision bytes; the remaining bytes keep the caller's values |
| FlexSpi.TailStepsShape | src/usbd/xid_xmu.c:193-214 | fewer than 16 bytes are drained as `n / 4` whole words, then one tail of `n % 4` bytes when that is not 0 |
| FlexSpi.TailStepsTotals | src/usbd/xid_xmu.c:193-215 | that part moves exactly `n` bytes and takes `ceil(n / 4)` FIFO words |
| FlexSpi.DrainStepsBursts | src/usbd/xid_xmu.c:170-187 | `16 q + r` bytes (`r < 16`) are drained as `q` bursts, then the steps for `r` |
| FlexSpi.DrainStepsShape | src/usbd/xid_xmu.c:168-223 | `length` bytes are drained as `length / 16` bursts, then the steps for the `length % 16` left |
| FlexSpi.DrainStepsTotals | src/usbd/xid_xmu.c:168-223 | the drain moves exactly `length` bytes and takes `ceil(length / 4)` FIFO words |
| FlexSpi.StoreWord | src/usbd/xid_xmu.c:179-182 | `*(uint32_t *)p = x` on the little-endian core: byte `k` of `x` lands at `p + k`, nothing else changes |
| FlexSpi.DrainBurst | src/usbd/xid_xmu.c:172-186 | a burst stores FIFO words `w .. w + 3` at `p .. p + 15`, extending the delivered prefix by 16 bytes |
| FlexSpi.TailBytes | src/usbd/xid_xmu.c:199-214 | `*p++ = a & 0xFF; a >>= 8` up to three times: byte `k` of `a` lands at `p + k` |
| FlexSpi.DrainTail | src/usbd/xid_xmu.c:190-216 | the below-16 branch: whole words while 4 or more are left, then the tail from the next word. The delivered prefix grows to `p + len`; `length` becomes 0; the steps are TailSteps |
| FlexSpi.Controller.IpCommand | src/usbd/xid_xmu.c:139-151 | one command transaction of sequence `index` at `addr` is logged |
| FlexSpi.Controller.IpWrite | src/usbd/xid_xmu.c:231-261 | one write transaction of sequence `index` at `addr` of `length` bytes is logged |
| FlexSpi.Controller.IpRead | src/usbd/xid_xmu.c:153-229 | one read transaction is logged. Byte `i` of `data` is byte `i % 4` of FIFO word `i / 4` for every `i < length`; the rest of `data` is untouched; the drain takes the steps DrainSteps gives, so `length` reaches 0 before the loop exits |
| FlashBackend.FlashWait | src/usbd/xid_xmu.c:299-311 | the status busy-poll, recorded as one wait; returns 0 |
| FlashBackend.FlashErase | src/usbd/xid_xmu.c:263-270 | write enable (seq 10) at `0x00800000`, sector erase (seq 12) at `0x00800000 + block * 512`, wait; returns 0 |
| FlashBackend.ChunkLen | src/usbd/xid_xmu.c:280 | the chunk chosen while `0 < s <= size` is positive and at most `size` |
| FlashBackend.ChunksForm | src/usbd/xid_xmu.c:277-287 | as written, `s` bytes left give `s / 256` full pages, then one chunk of the whole `size` if a remainder is left |
| FlashBackend.ChunksAgree | src/usbd/xid_xmu.c:276-287 | below 2^31 bytes, the chunking as written equals the intended chunking exactly when `size <= 256` or `size % 256 == 0` |
| FlashBackend.ChunksCover | src/usbd/xid_xmu.c:275-287 | when `size <= 256` or `size % 256 == 0` (and `size < 2^31`), the chunks are non-empty, at most a page, and add up to `size` |
| FlashBackend.ChunksNegative | src/usbd/xid_xmu.c:276-277 | a size of 2^31 or more is negative as `int32_t s`, so nothing is programmed |
| FlashBackend.ChunksOvershoot | src/usbd/xid_xmu.c:280 | otherwise the last chunk is the whole `size` (more than a page), and the chunks add up to `size + (size / 256) * 256 > size` |
| FlashBackend.ChunksOvershootExample | src/usbd/xid_xmu.c:280 | 300 bytes are programmed as 256 then 300: 556 bytes |
| FlashBackend.IntendedChunksForm | src/usbd/xid_xmu.c:277-287 | the corrected chunking gives `n / 256` full pages, then the remainder `n % 256` if not 0 |
| FlashBackend.IntendedChunksCover | src/usbd/xid_xmu.c:277-287 | the corrected chunks are non-empty, at most a page, and add up to `n` |
| FlashBackend.ChunksIntendedCover | src/usbd/xid_xmu.c:276-287 | with `int32_t s = size`, the corrected loop programs exactly `size` bytes below 2^31 in chunks of at most a page, and nothing from 2^31 on |
| FlashBackend.ProgramLog | src/usbd/xid_xmu.c:277-287 | three transactions per chunk |
| FlashBackend.ProgramLogFrame | src/usbd/xid_xmu.c:281-286 | around chunk `i` the log holds a write enable (seq 10) at `0x00800000` and then a wait |
| FlashBackend.ProgramLogAt | src/usbd/xid_xmu.c:282-284 | chunk `i` is programmed (seq 11) at `0x00800000 + addr + chunks before i`, with `addr` starting at `block * 512 + offset`, for exactly its length |
| FlashBackend.ProgramLogKinds | src/usbd/xid_xmu.c:281-286 | a program log holds only write enables, page programs (sequence 11) and waits; every page program comes right after a write enable |
| FlashBackend.ProgramPage | src/usbd/xid_xmu.c:281-286 | one loop turn logs write enable, page program of `b` bytes at the current address, wait |
| FlashBackend.ProgramStep | src/usbd/xid_xmu.c:280-285 | one loop turn moves one chunk from the log still to come to the log made, with `addr += b` and `s -= b` |
| FlashBackend.FlashProgram | src/usbd/xid_xmu.c:272-290 | `flash_program` as written logs ProgramLog over ChunksAsWritten(size) from `block * 512 + offset`; returns 0 |
| FlashBackend.IntendedStep | src/usbd/xid_xmu.c:280-285 | ProgramStep for the corrected chunk rule |
| FlashBackend.FlashProgramIntended | src/usbd/xid_xmu.c:272-290 | `flash_program` with `b = s`: logs ProgramLog over ChunksIntended(size); returns 0 |
| FlashBackend.FlashRead | src/usbd/xid_xmu.c:292-297 | one quad read (seq 9) of exactly `size` bytes at `0x00800000 + block * 512 + offset`; byte `i` of `buf` is byte `i % 4` of FIFO word `i / 4`; returns 0 |
| FlashBackend.Read10 | src/usbd/xid_xmu.c:49-62 | flash branch of read10: `flash_read(lba, offset, ..)`, then `bufsize` as an `int32_t` |
| FlashBackend.Write10 | src/usbd/xid_xmu.c:64-78 | flash branch of write10: `flash_erase(lba)`, then `flash_program(lba, offset, .., bufsize)` as written; returns `bufsize` as an `int32_t` |
| FlashBackend.EraseBeforeProgram | src/usbd/xid_xmu.c:69-70 | in the write10 trace entry 0 is the write enable, entry 1 the sector erase of `lba` and entry 2 its wait; every page program comes after that wait, right after a write enable; no entry other than entry 1 is a sector erase |

## Left out

- The USB descriptor callbacks (`src/usbd/xid_xmu.c:30-47`) return pointers to tables defined outside this file.
- FlexSPI2 register traffic is not modelled: the `IPCR0`/`IPCR1`/`IPCMD` writes, the `INTR` polling loops, the IPRXWA acknowledgement and the `IPRXFCR` set-up. They are memory-mapped hardware; the model keeps one log entry per IP transaction.
- The `IPCMDERR` clearing is not modelled. The source swallows the error and returns nothing, so the model reports no error either.
- FlexSpi.Controller.IpRead: the device's answer is the parameter `rx`, the FIFO words in order. Every flag the drain waits for is taken as already set, including the fill-level test `(IPRXFSTS & 0xFF) >= ((length + 7) >> 3)`. The data register read after the last whole word is modelled as 0 when the device sent no further word; that value is never stored. This needs `ceil(length / 4)` words in `rx`.
- FlexSpi.Controller.IpWrite: the TX FIFO fill loop is not modelled, and neither is the payload it sends, so the model's `IpWrite` has no `data` parameter. Only sequence id, address and length are logged, which is also why FlashBackend.Write10 takes no data buffer and `buf += b` is not modelled.
- FlashBackend.FlashWait: the unbounded busy-poll on status register 1 (with `yield()`) is one `WaitReady` log entry; its termination is not modelled.
- `flash_init` (the LUT programming, reading the chip ID, and setting the QE bit) is not modelled. The sequence ids it sets up are the constants of `flash_backend.dfy`.
- NOR flash physics are not modelled: erase-to-ones, program-clears-bits, page-boundary wrap, and a 4 KiB sector erase touching neighbouring 512-byte blocks. The flash model is its transaction log, and flash contents are not modelled.
- `src/usbd/diskio_wrapper.cpp` is modelled only as the abstract block primitive `BlockDevice.Card`. Its success codes are ignored by the caller and not modelled. Card initialisation is left out.
- MscCallbacks.SdCapacity: the block size is the constant 512 that `_disk_volume_get_block_size` returns. The firmware's block count is `volume.blocksPerCluster() * volume.clusterCount()` of the card's FAT volume (`src/usbd/diskio_wrapper.cpp:18-21`); that is not the raw number of blocks on the card. The model takes the card to have exactly that many blocks, so "count × size is the linear size" holds only under that choice. The volume geometry is not modelled.
- `TU_LOG*` logging is not modelled, nor is reading `scsi_cmd[0]` only for logging. The compile-time `#if` backend selection is modelled as one module per backend.
- RamBackend.RamDisk.Read10 and RamBackend.RamDisk.Write10 require the range to lie inside `msc_ram_disk`. The source does not check this. The requirement also rules out 32-bit overflow of `lba * MSC_BLOCK_SIZE`.
- SdBackend.Read and SdBackend.Write require block `block` and the range to lie on the card. The source passes any block number to the SD library, and what the library does then is not modelled. Block numbers are unbounded, so `curr_block` never wraps.
- The flash branch does not bound addresses. `block * 512 + offset` and `0x00800000 + addr` wrap modulo 2^32 just as a `uint32_t` does (`Bytes.Wrap32`).

## Findings

| source | as written | input that shows it | evidently intended | confidence | as-written member | corrected member |
|---|---|---|---|---|---|---|
| src/usbd/xid_xmu.c:280 | `(s < PAGE_SIZE) ? (b = size) : (b = PAGE_SIZE)`: the last chunk is the whole request size, not the `s` bytes left (FlashBackend.FlashProgram over FlashBackend.ChunksAsWritten) | `size = 300` gives chunks of 256 and then 300 bytes. That programs 556 bytes and reads the caller's buffer 256 bytes past its end. FlashBackend.ChunksOvershoot shows the same for any `size > 256` with `size % 256 != 0` | `b = s`: full pages, then the remainder, adding up to `size` (FlashBackend.FlashProgramIntended over FlashBackend.ChunksIntended; FlashBackend.ChunksAgree shows where the two agree) | not executed | FlashBackend.ChunksOvershootExample | FlashBackend.ChunksIntendedCover |

FlashBackend.Write10 is modelled on the code as written, so it calls FlashBackend.FlashProgram.
