/// The external-flash backend: `flash_erase`, `flash_program`, `flash_read`, `flash_wait`
/// and the read10 / write10 callbacks that use them, as sequences of FlexSPI2 IP
/// transactions on the controller's log.
module FlashBackend {
  import opened Bytes
  import opened Config
  import opened FlexSpi

  /** Sequence ids of the LUT entries `flash_init` programs. */
  const SEQ_READ_QUAD: nat := 9
  const SEQ_WRITE_ENABLE: nat := 10
  const SEQ_PROGRAM: nat := 11
  const SEQ_SECTOR_ERASE: nat := 12
  /** The status read `flash_wait` polls; its run of polls is logged as one `WaitReady`. */
  const SEQ_READ_STATUS1: nat := 13

  /** `block * MSC_BLOCK_SIZE + offset` as a `uint32_t`. */
  function FlashOffset(block: Word, offset: Word): Word
  {
    Wrap32(block * MSC_BLOCK_SIZE + offset)
  }

  /** The FlexSPI2 address of flash offset `a`: `0x00800000 + a` as a `uint32_t`. */
  function BusAddr(a: Word): Word
  {
    Wrap32(FLASH_BASE + a)
  }

  /** The transactions of `flash_erase(block)`. */
  function EraseLog(block: Word): seq<Txn>
  {
    [Command(SEQ_WRITE_ENABLE, FLASH_BASE), Command(SEQ_SECTOR_ERASE, BusAddr(Wrap32(block * MSC_BLOCK_SIZE))), WaitReady]
  }

  /** The chunk lengths of `flash_program` exactly as written: while `s > 0`, a chunk of
      `size` bytes, the whole request, when fewer than PAGE_SIZE are left, else of
      PAGE_SIZE bytes; `s` is lowered by the chunk. */
  function Chunks(size: Word, s: int): seq<Word>
    requires s <= size
    decreases s
  {
    if s <= 0 then []
    else [ChunkLen(size, s)] + Chunks(size, s - ChunkLen(size, s))
  }

  /** `(s < PAGE_SIZE) ? (b = size) : (b = PAGE_SIZE)`. */
  function ChunkLen(size: Word, s: int): (b: Word)
    requires 0 < s <= size
    ensures 0 < b <= size
  {
    if s < PAGE_SIZE then size else PAGE_SIZE
  }

  /** The chunks of `flash_program(.., size)`: `s` starts as `size` converted to `int32_t`. */
  function ChunksAsWritten(size: Word): seq<Word>
  {
    Chunks(size, Int32Of(size))
  }

  /** The chunking the page-program loop is meant to perform: PAGE_SIZE bytes while at
      least that many are left, then the remainder. */
  function IntendedChunks(n: nat): seq<Word>
    decreases n
  {
    if n == 0 then []
    else
      var b: Word := if n < PAGE_SIZE then n else PAGE_SIZE;
      [b] + IntendedChunks(n - b)
  }

  function Sum(cs: seq<Word>): nat
  {
    if cs == [] then 0 else cs[0] + Sum(cs[1..])
  }

  /** The transactions of `flash_program` from flash offset `addr` for chunks `cs`: per
      chunk a write enable, a page program of the chunk at the current address, and a
      wait; the address advances by the chunk. */
  function ProgramLog(addr: Word, cs: seq<Word>): (log: seq<Txn>)
    ensures |log| == 3 * |cs|
    decreases |cs|
  {
    if cs == [] then []
    else
      [Command(SEQ_WRITE_ENABLE, FLASH_BASE), Write(SEQ_PROGRAM, BusAddr(addr), cs[0]), WaitReady] +
      ProgramLog(Wrap32(addr + cs[0]), cs[1..])
  }

  lemma {:induction false} SumAppend(a: seq<Word>, b: seq<Word>)
    ensures Sum(a + b) == Sum(a) + Sum(b)
  {
    if a == [] {
      assert a + b == b;
    } else {
      assert (a + b)[0] == a[0];
      assert (a + b)[1..] == a[1..] + b;
      SumAppend(a[1..], b);
    }
  }

  /** As written, `flash_program` with `0 < s <= size` takes `s / PAGE_SIZE` full pages
      and then, if a remainder is left, one last chunk of the whole `size`. */
  lemma {:induction false} ChunksForm(size: Word, s: int)
    requires 0 <= s <= size
    ensures Chunks(size, s) == Repeat<Word>(PAGE_SIZE, s / PAGE_SIZE) + (if s % PAGE_SIZE == 0 then [] else [size])
    decreases s
  {
    if s >= PAGE_SIZE {
      ChunksForm(size, s - PAGE_SIZE);
      assert (s - PAGE_SIZE) / PAGE_SIZE == s / PAGE_SIZE - 1;
      assert (s - PAGE_SIZE) % PAGE_SIZE == s % PAGE_SIZE;
      var tail := if s % PAGE_SIZE == 0 then [] else [size];
      assert [PAGE_SIZE as Word] + (Repeat<Word>(PAGE_SIZE, s / PAGE_SIZE - 1) + tail) ==
             ([PAGE_SIZE as Word] + Repeat<Word>(PAGE_SIZE, s / PAGE_SIZE - 1)) + tail;
    } else if s > 0 {
      assert Chunks(size, s) == [size] + Chunks(size, s - size);
    }
  }

  /** The intended chunking takes `n / PAGE_SIZE` full pages and then the remainder. */
  lemma {:induction false} IntendedChunksForm(n: nat)
    ensures IntendedChunks(n) == Repeat<Word>(PAGE_SIZE, n / PAGE_SIZE) + (if n % PAGE_SIZE == 0 then [] else [n % PAGE_SIZE])
    decreases n
  {
    if n >= PAGE_SIZE {
      IntendedChunksForm(n - PAGE_SIZE);
      assert (n - PAGE_SIZE) / PAGE_SIZE == n / PAGE_SIZE - 1;
      assert (n - PAGE_SIZE) % PAGE_SIZE == n % PAGE_SIZE;
      var tail := if n % PAGE_SIZE == 0 then [] else [n % PAGE_SIZE];
      assert [PAGE_SIZE as Word] + (Repeat<Word>(PAGE_SIZE, n / PAGE_SIZE - 1) + tail) ==
             ([PAGE_SIZE as Word] + Repeat<Word>(PAGE_SIZE, n / PAGE_SIZE - 1)) + tail;
    }
  }

  /** The intended chunks are non-empty, at most a page each, and add up to `n`. */
  lemma {:induction false} IntendedChunksCover(n: nat)
    ensures Sum(IntendedChunks(n)) == n
    ensures forall i :: 0 <= i < |IntendedChunks(n)| ==> 0 < IntendedChunks(n)[i] <= PAGE_SIZE
    decreases n
  {
    if n > 0 {
      var b := if n < PAGE_SIZE then n else PAGE_SIZE;
      IntendedChunksCover(n - b);
      assert IntendedChunks(n)[1..] == IntendedChunks(n - b);
    }
  }

  /** `flash_program` as written chunks a request below 2^31 bytes as intended exactly
      when the request fits in one page or is a whole number of pages. */
  lemma ChunksAgree(size: Word)
    requires size < 0x8000_0000
    ensures ChunksAsWritten(size) == IntendedChunks(size) <==> (size <= PAGE_SIZE || size % PAGE_SIZE == 0)
  {
    ChunksForm(size, size);
    IntendedChunksForm(size);
    var k := size / PAGE_SIZE;
    if size <= PAGE_SIZE || size % PAGE_SIZE == 0 {
      if size < PAGE_SIZE {
        assert k == 0 && size % PAGE_SIZE == size;
      }
    } else {
      var w, i := ChunksAsWritten(size), IntendedChunks(size);
      assert w[k] == size && i[k] == size % PAGE_SIZE;
    }
  }

  /** Under the conditions where the chunking is as intended, the chunks of
      `flash_program` are non-empty, at most a page each, and add up to `size`. */
  lemma ChunksCover(size: Word)
    requires size < 0x8000_0000 && (size <= PAGE_SIZE || size % PAGE_SIZE == 0)
    ensures Sum(ChunksAsWritten(size)) == size
    ensures forall i :: 0 <= i < |ChunksAsWritten(size)| ==> 0 < ChunksAsWritten(size)[i] <= PAGE_SIZE
  {
    ChunksAgree(size);
    IntendedChunksCover(size);
  }

  /** A request of 2^31 bytes or more is negative as an `int32_t`: no chunk at all. */
  lemma ChunksNegative(size: Word)
    requires size >= 0x8000_0000
    ensures ChunksAsWritten(size) == []
  {
  }

  /** The `k` full pages add up to `k * PAGE_SIZE`. */
  lemma {:induction false} RepeatPageSum(k: nat)
    ensures Sum(Repeat<Word>(PAGE_SIZE, k)) == k * PAGE_SIZE
  {
    if k > 0 {
      RepeatPageSum(k - 1);
      assert Repeat<Word>(PAGE_SIZE, k)[1..] == Repeat<Word>(PAGE_SIZE, k - 1);
    }
  }

  /** Otherwise the last chunk is the whole request: more than a page, and the chunks
      add up to `size` plus its full-page part, past the end of the caller's data. */
  lemma ChunksOvershoot(size: Word)
    requires size < 0x8000_0000 && size > PAGE_SIZE && size % PAGE_SIZE != 0
    ensures var cs := ChunksAsWritten(size);
      && cs[|cs| - 1] == size > PAGE_SIZE
      && Sum(cs) == size + (size / PAGE_SIZE) * PAGE_SIZE > size
  {
    ChunksForm(size, size);
    RepeatPageSum(size / PAGE_SIZE);
    SumAppend(Repeat<Word>(PAGE_SIZE, size / PAGE_SIZE), [size]);
  }

  /** 300 bytes are programmed as a page of 256 and then 300 more: 556 bytes in all. */
  lemma ChunksOvershootExample()
    ensures ChunksAsWritten(300) == [256, 300]
    ensures Sum(ChunksAsWritten(300)) == 556
  {
    assert Chunks(300, 300) == [256] + Chunks(300, 44);
    assert Chunks(300, 44) == [300] + Chunks(300, -256);
  }

  /** After its first chunk's three entries, a program log goes on as the log of the
      remaining chunks from the advanced offset. */
  lemma ProgramLogTail(addr: Word, cs: seq<Word>, j: nat)
    requires cs != [] && j < 3 * (|cs| - 1)
    ensures ProgramLog(addr, cs)[3 + j] == ProgramLog(Wrap32(addr + cs[0]), cs[1..])[j]
  {
  }

  lemma SumPrefix(cs: seq<Word>, i: nat)
    requires 0 < i <= |cs|
    ensures Sum(cs[..i]) == cs[0] + Sum(cs[1..][..i - 1])
  {
    assert cs[..i][0] == cs[0];
    assert cs[..i][1..] == cs[1..][..i - 1];
  }

  /** Entries `3 * i` and `3 * i + 2` of a program log: the write enable and the wait
      around chunk `i`. */
  lemma {:induction false} ProgramLogFrame(addr: Word, cs: seq<Word>, i: nat)
    requires i < |cs|
    ensures ProgramLog(addr, cs)[3 * i] == Command(SEQ_WRITE_ENABLE, FLASH_BASE)
    ensures ProgramLog(addr, cs)[3 * i + 2] == WaitReady
    decreases i
  {
    if i > 0 {
      ProgramLogFrame(Wrap32(addr + cs[0]), cs[1..], i - 1);
      ProgramLogTail(addr, cs, 3 * (i - 1));
      ProgramLogTail(addr, cs, 3 * (i - 1) + 2);
    }
  }

  /** Entry `3 * i + 1` of a program log: the page program of chunk `i` at offset
      `addr` plus the chunks before it. */
  lemma {:induction false} ProgramLogAt(addr: Word, cs: seq<Word>, i: nat)
    requires i < |cs|
    ensures ProgramLog(addr, cs)[3 * i + 1] == Write(SEQ_PROGRAM, BusAddr(Wrap32(addr + Sum(cs[..i]))), cs[i])
    decreases i
  {
    if i == 0 {
      assert cs[..0] == [];
    } else {
      var next := Wrap32(addr + cs[0]);
      ProgramLogAt(next, cs[1..], i - 1);
      ProgramLogTail(addr, cs, 3 * (i - 1) + 1);
      SumPrefix(cs, i);
      Wrap32Add(addr + cs[0], Sum(cs[1..][..i - 1]));
    }
  }

  /** Every entry of a program log is a write enable, a page program (sequence 11) or a wait; each
      page program comes right after a write enable; there is no sector erase. */
  lemma ProgramLogKinds(addr: Word, cs: seq<Word>, j: nat)
    requires j < |ProgramLog(addr, cs)|
    ensures var log := ProgramLog(addr, cs);
      && (log[j] == Command(SEQ_WRITE_ENABLE, FLASH_BASE) || log[j].Write? || log[j] == WaitReady)
      && (log[j].Write? ==> j % 3 == 1 && log[j - 1] == Command(SEQ_WRITE_ENABLE, FLASH_BASE))
      && (log[j].Write? ==> log[j].seqId == SEQ_PROGRAM)
  {
    var k := j / 3;
    ProgramLogFrame(addr, cs, k);
    ProgramLogAt(addr, cs, k);
    assert j == 3 * k || j == 3 * k + 1 || j == 3 * k + 2;
  }

  /** `flash_wait`: the busy-poll on status register 1 (sequence `SEQ_READ_STATUS1`),
      recorded as one wait. */
  method FlashWait(ctrl: Controller, timeout: Word) returns (r: int)
    modifies ctrl
    ensures ctrl.log == old(ctrl.log) + [WaitReady]
    ensures r == 0
  {
    ctrl.log := ctrl.log + [WaitReady];
    r := 0;
  }

  /** `flash_erase(block)`: write enable, sector erase at the block's bus address, wait. */
  method FlashErase(ctrl: Controller, block: Word) returns (r: int)
    modifies ctrl
    ensures ctrl.log == old(ctrl.log) + EraseLog(block)
    ensures r == 0
  {
    ctrl.IpCommand(SEQ_WRITE_ENABLE, FLASH_BASE);
    var addr := Wrap32(block * MSC_BLOCK_SIZE);
    ctrl.IpCommand(SEQ_SECTOR_ERASE, BusAddr(addr));
    var w := FlashWait(ctrl, 0);
    r := 0;
  }

  /** One turn of the loop of `flash_program`: write enable, page program of `b` bytes
      at flash offset `addr`, wait. */
  method ProgramPage(ctrl: Controller, addr: Word, b: Word)
    modifies ctrl
    ensures ctrl.log == old(ctrl.log) + ProgramLog(addr, [b])
  {
    ctrl.IpCommand(SEQ_WRITE_ENABLE, FLASH_BASE);
    ctrl.IpWrite(SEQ_PROGRAM, BusAddr(addr), b);
    var w := FlashWait(ctrl, 0);
    assert [b][1..] == [];
  }

  /** The log still to come, one chunk further on: the log made so far followed by
      what is still to come stays `target` when one chunk moves from the second to
      the first. */
  lemma ProgramStep(made: seq<Txn>, addr: Word, size: Word, s: int, target: seq<Txn>)
    requires 0 < s <= size
    requires made + ProgramLog(addr, Chunks(size, s)) == target
    ensures (made + ProgramLog(addr, [ChunkLen(size, s)])) +
            ProgramLog(Wrap32(addr + ChunkLen(size, s)), Chunks(size, s - ChunkLen(size, s))) == target
  {
    var b := ChunkLen(size, s);
    var later := ProgramLog(Wrap32(addr + b), Chunks(size, s - b));
    assert Chunks(size, s)[1..] == Chunks(size, s - b);
    assert [b][1..] == [];
    assert ProgramLog(addr, Chunks(size, s)) == ProgramLog(addr, [b]) + later;
    assert (made + ProgramLog(addr, [b])) + later == made + (ProgramLog(addr, [b]) + later);
  }

  /** `flash_program(block, offset, buf, size)`, as written: one write enable, page
      program and wait per chunk of ChunksAsWritten(size), from flash offset
      `block * MSC_BLOCK_SIZE + offset`. */
  method FlashProgram(ctrl: Controller, block: Word, offset: Word, size: Word) returns (r: int)
    modifies ctrl
    ensures ctrl.log == old(ctrl.log) + ProgramLog(FlashOffset(block, offset), ChunksAsWritten(size))
    ensures r == 0
  {
    var addr: Word := FlashOffset(block, offset);
    var s: int := Int32Of(size);
    ghost var target := old(ctrl.log) + ProgramLog(addr, ChunksAsWritten(size));
    while s > 0
      invariant s <= size
      invariant ctrl.log + ProgramLog(addr, Chunks(size, s)) == target
      decreases s
    {
      var b: Word := if s < PAGE_SIZE then size else PAGE_SIZE;
      ProgramStep(ctrl.log, addr, size, s, target);
      ProgramPage(ctrl, addr, b);
      addr := Wrap32(addr + b);
      s := s - b;
    }
    assert ctrl.log + [] == ctrl.log;
    r := 0;
  }

  /** The chunks of `flash_program` with the chunk rule corrected to `b = s`: `s`
      starts as `size` converted to `int32_t`, and nothing is programmed when that is
      not positive. */
  function ChunksIntended(size: Word): seq<Word>
  {
    IntendedChunks(NonNeg(Int32Of(size)))
  }

  function NonNeg(s: int): nat
  {
    if s > 0 then s else 0
  }

  /** The corrected chunking of a request below 2^31 bytes programs exactly `size`
      bytes in chunks of at most a page; a larger request programs nothing. */
  lemma ChunksIntendedCover(size: Word)
    ensures size < 0x8000_0000 ==> Sum(ChunksIntended(size)) == size
    ensures forall i :: 0 <= i < |ChunksIntended(size)| ==> 0 < ChunksIntended(size)[i] <= PAGE_SIZE
    ensures size >= 0x8000_0000 ==> ChunksIntended(size) == []
  {
    IntendedChunksCover(NonNeg(Int32Of(size)));
  }

  /** One turn of the corrected loop, as ProgramStep. */
  lemma IntendedStep(made: seq<Txn>, addr: Word, s: nat, target: seq<Txn>)
    requires 0 < s
    requires made + ProgramLog(addr, IntendedChunks(s)) == target
    ensures var b: Word := if s < PAGE_SIZE then s else PAGE_SIZE;
            (made + ProgramLog(addr, [b])) + ProgramLog(Wrap32(addr + b), IntendedChunks(s - b)) == target
  {
    var b: Word := if s < PAGE_SIZE then s else PAGE_SIZE;
    var later := ProgramLog(Wrap32(addr + b), IntendedChunks(s - b));
    assert IntendedChunks(s)[1..] == IntendedChunks(s - b);
    assert [b][1..] == [];
    assert ProgramLog(addr, IntendedChunks(s)) == ProgramLog(addr, [b]) + later;
    assert (made + ProgramLog(addr, [b])) + later == made + (ProgramLog(addr, [b]) + later);
  }

  /** `flash_program` with the chunk rule corrected to `(s < PAGE_SIZE) ? (b = s) :
      (b = PAGE_SIZE)`: one write enable, page program and wait per chunk of
      ChunksIntended(size), from flash offset `block * MSC_BLOCK_SIZE + offset`. */
  method FlashProgramIntended(ctrl: Controller, block: Word, offset: Word, size: Word) returns (r: int)
    modifies ctrl
    ensures ctrl.log == old(ctrl.log) + ProgramLog(FlashOffset(block, offset), ChunksIntended(size))
    ensures r == 0
  {
    var addr: Word := FlashOffset(block, offset);
    var s: int := Int32Of(size);
    ghost var target := old(ctrl.log) + ProgramLog(addr, ChunksIntended(size));
    while s > 0
      invariant ctrl.log + ProgramLog(addr, IntendedChunks(NonNeg(s))) == target
      decreases s
    {
      var b: Word := if s < PAGE_SIZE then s else PAGE_SIZE;
      IntendedStep(ctrl.log, addr, s, target);
      ProgramPage(ctrl, addr, b);
      addr := Wrap32(addr + b);
      s := s - b;
    }
    assert ctrl.log + [] == ctrl.log;
    r := 0;
  }

  /** `flash_read(block, offset, buf, size)`: a single quad read of `size` bytes at the
      block's bus address, the device answering with the words `rx`. */
  method FlashRead(ctrl: Controller, block: Word, offset: Word, buf: array<Byte>, size: Word, rx: seq<Word>)
    returns (r: int)
    requires size <= buf.Length && (size + 3) / 4 <= |rx|
    modifies ctrl, buf
    ensures ctrl.log == old(ctrl.log) + [Read(SEQ_READ_QUAD, BusAddr(FlashOffset(block, offset)), size)]
    ensures forall i :: 0 <= i < size ==> buf[i] == ByteOf(rx[i / 4], i % 4)
    ensures forall i :: size <= i < buf.Length ==> buf[i] == old(buf[i])
    ensures r == 0
  {
    var addr := FlashOffset(block, offset);
    ghost var steps := ctrl.IpRead(SEQ_READ_QUAD, BusAddr(addr), buf, size, rx);
    r := 0;
  }

  /** `tud_msc_read10_cb` with the flash backend. */
  method Read10(ctrl: Controller, lun: Byte, lba: Word, offset: Word, buffer: array<Byte>, bufsize: Word, rx: seq<Word>)
    returns (r: int)
    requires bufsize <= buffer.Length && (bufsize + 3) / 4 <= |rx|
    modifies ctrl, buffer
    ensures ctrl.log == old(ctrl.log) + [Read(SEQ_READ_QUAD, BusAddr(FlashOffset(lba, offset)), bufsize)]
    ensures forall i :: 0 <= i < bufsize ==> buffer[i] == ByteOf(rx[i / 4], i % 4)
    ensures forall i :: bufsize <= i < buffer.Length ==> buffer[i] == old(buffer[i])
    ensures r == Int32Of(bufsize)
  {
    var e := FlashRead(ctrl, lba, offset, buffer, bufsize, rx);
    r := Int32Of(bufsize);
  }

  /** The transactions of the flash write10 callback: erase of `lba`, then program. */
  function Write10Log(lba: Word, offset: Word, bufsize: Word): seq<Txn>
  {
    EraseLog(lba) + ProgramLog(FlashOffset(lba, offset), ChunksAsWritten(bufsize))
  }

  /** `tud_msc_write10_cb` with the flash backend: `flash_erase(lba)`, then
      `flash_program(lba, offset, buffer, bufsize)`. */
  method Write10(ctrl: Controller, lun: Byte, lba: Word, offset: Word, bufsize: Word) returns (r: int)
    modifies ctrl
    ensures ctrl.log == old(ctrl.log) + Write10Log(lba, offset, bufsize)
    ensures r == Int32Of(bufsize)
  {
    var e := FlashErase(ctrl, lba);
    var p := FlashProgram(ctrl, lba, offset, bufsize);
    r := Int32Of(bufsize);
  }

  /** In the write10 trace the sector erase of `lba` comes first, after its write
      enable, and is waited for; every page program comes after that wait, right after
      a write enable; there is no other sector erase. */
  lemma EraseBeforeProgram(lba: Word, offset: Word, bufsize: Word)
    ensures var log := Write10Log(lba, offset, bufsize);
      && log[0] == Command(SEQ_WRITE_ENABLE, FLASH_BASE)
      && log[1] == Command(SEQ_SECTOR_ERASE, BusAddr(Wrap32(lba * MSC_BLOCK_SIZE)))
      && log[2] == WaitReady
      && (forall i :: 0 <= i < |log| && log[i].Write? ==> i > 2 && log[i - 1] == Command(SEQ_WRITE_ENABLE, FLASH_BASE))
      && (forall i :: 0 <= i < |log| && i != 1 ==> !log[i].Command? || log[i].seqId != SEQ_SECTOR_ERASE)
  {
    var log := Write10Log(lba, offset, bufsize);
    var pl := ProgramLog(FlashOffset(lba, offset), ChunksAsWritten(bufsize));
    forall i | 3 <= i < |log|
      ensures log[i] == pl[i - 3]
      ensures !log[i].Command? || log[i].seqId != SEQ_SECTOR_ERASE
      ensures log[i].Write? ==> log[i - 1] == Command(SEQ_WRITE_ENABLE, FLASH_BASE)
    {
      ProgramLogKinds(FlashOffset(lba, offset), ChunksAsWritten(bufsize), i - 3);
      if log[i].Write? {
        assert log[i - 1] == pl[i - 4];
      }
    }
  }
}
