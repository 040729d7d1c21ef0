/// The partial-block translator of the SD backend (`sdcard_read`, `sdcard_write`):
/// a request `(block, offset, size)` is carried out as whole-block calls of the
/// block primitive, with read-modify-write on blocks that are only partly written.
module SdBackend {
  import opened Bytes
  import opened BlockDevice

  /** The part of one block a request touches: `len` bytes from position `start` of block `index`. */
  datatype Span = Span(index: nat, start: nat, len: nat)

  function Min(a: nat, b: nat): nat
  {
    if a <= b then a else b
  }

  /** The spans the translator visits after its first block: from block `index` on,
      whole blocks from position 0 while at least a block of the `n` bytes is left,
      then the part-block remainder. */
  function FollowSpans(index: nat, n: nat): seq<Span>
    decreases n
  {
    if n == 0 then []
    else
      var c := Min(BLOCK_SIZE, n);
      [Span(index, 0, c)] + FollowSpans(index + 1, n - c)
  }

  /** Bytes `sdcard_read` / `sdcard_write` move within the first block. */
  function FirstLen(offset: nat, size: nat): nat
    requires offset <= BLOCK_SIZE
  {
    Min(BLOCK_SIZE - offset, size)
  }

  /** The spans a request `(block, offset, size)` is split into: the first (possibly
      empty) part of block `block` from `offset`, then FollowSpans of the rest. */
  function Spans(block: nat, offset: nat, size: nat): seq<Span>
    requires offset <= BLOCK_SIZE
  {
    [Span(block, offset, FirstLen(offset, size))] + FollowSpans(block + 1, size - FirstLen(offset, size))
  }

  function TotalLen(ss: seq<Span>): nat
  {
    if ss == [] then 0 else ss[0].len + TotalLen(ss[1..])
  }

  /** FollowSpans visits consecutive blocks from position 0, `ceil(n / B)` of them,
      every one but the last full, and their lengths add up to `n`. */
  lemma {:induction false} FollowSpansShape(index: nat, n: nat)
    ensures var ss := FollowSpans(index, n);
      && |ss| == (n + BLOCK_SIZE - 1) / BLOCK_SIZE
      && TotalLen(ss) == n
      && (forall i :: 0 <= i < |ss| ==> ss[i].index == index + i && ss[i].start == 0)
      && (forall i :: 0 <= i < |ss| ==> 0 < ss[i].len <= BLOCK_SIZE)
      && (forall i :: 0 <= i < |ss| - 1 ==> ss[i].len == BLOCK_SIZE)
    decreases n
  {
    if n > 0 {
      var c := Min(BLOCK_SIZE, n);
      FollowSpansShape(index + 1, n - c);
      var ss := FollowSpans(index, n);
      assert ss[1..] == FollowSpans(index + 1, n - c);
    }
  }

  /** A request is split into consecutive blocks starting at `block`, one more than the
      blocks its bytes after the first block need: the first span from `offset`, all
      others from position 0; no span leaves its block; every span after the first is
      non-empty; every span strictly between the first and the last is a whole block;
      each span after the first starts at the linear address where its predecessor
      ends; and the lengths add up to `size`. */
  lemma SpansShape(block: nat, offset: nat, size: nat)
    requires offset <= BLOCK_SIZE
    ensures var ss := Spans(block, offset, size);
      && |ss| == 1 + (size - FirstLen(offset, size) + BLOCK_SIZE - 1) / BLOCK_SIZE
      && TotalLen(ss) == size
      && ss[0] == Span(block, offset, Min(BLOCK_SIZE - offset, size))
      && (forall i :: 0 <= i < |ss| ==> ss[i].index == block + i)
      && (forall i :: 0 <= i < |ss| ==> ss[i].start + ss[i].len <= BLOCK_SIZE)
      && (forall i :: 1 <= i < |ss| ==> ss[i].start == 0 && ss[i].len > 0)
      && (forall i :: 1 <= i < |ss| - 1 ==> ss[i].len == BLOCK_SIZE)
      && (forall i :: 1 <= i < |ss| ==>
            ss[i].index * BLOCK_SIZE + ss[i].start ==
            ss[i - 1].index * BLOCK_SIZE + ss[i - 1].start + ss[i - 1].len)
  {
    var c := FirstLen(offset, size);
    FollowSpansShape(block + 1, size - c);
    var ss := Spans(block, offset, size);
    assert ss[1..] == FollowSpans(block + 1, size - c);
  }

  /** The block calls `sdcard_read` makes: one read per span. */
  function ReadOps(ss: seq<Span>): seq<BlockOp>
  {
    seq(|ss|, i requires 0 <= i < |ss| => ReadOp(ss[i].index))
  }

  /** The block calls `sdcard_write` makes for a span after the first: a partial block is
      read, merged and written back; a whole block is written without being read. */
  function SpanWriteOps(s: Span): seq<BlockOp>
  {
    if s.len < BLOCK_SIZE then [ReadOp(s.index), WriteOp(s.index)] else [WriteOp(s.index)]
  }

  function FollowWriteOps(ss: seq<Span>): seq<BlockOp>
  {
    if ss == [] then [] else SpanWriteOps(ss[0]) + FollowWriteOps(ss[1..])
  }

  /** The block calls `sdcard_write` makes: the first block is always read and written
      back, whatever its length; the others as SpanWriteOps says. */
  function WriteOps(ss: seq<Span>): seq<BlockOp>
    requires |ss| >= 1
  {
    [ReadOp(ss[0].index), WriteOp(ss[0].index)] + FollowWriteOps(ss[1..])
  }

  /** `n` reads of consecutive blocks from `index`. */
  function ReadRun(index: nat, n: nat): (ops: seq<BlockOp>)
    ensures |ops| == n
  {
    seq(n, i requires 0 <= i < n => ReadOp(index + i))
  }

  /** `n` writes of consecutive blocks from `index`, with no read among them. */
  function WriteRun(index: nat, n: nat): (ops: seq<BlockOp>)
    ensures |ops| == n
    decreases n
  {
    if n == 0 then [] else [WriteOp(index)] + WriteRun(index + 1, n - 1)
  }

  /** What is left of the write trace when `m` bytes remain from block `index` on:
      the whole blocks, then a read and a write of a final partial block. */
  function WriteTail(index: nat, m: nat): seq<BlockOp>
  {
    WriteRun(index, m / BLOCK_SIZE) +
    (if m % BLOCK_SIZE == 0 then [] else [ReadOp(index + m / BLOCK_SIZE), WriteOp(index + m / BLOCK_SIZE)])
  }

  /** `sdcard_read` reads every block of the request once, in increasing order from
      `block`, with no gap. */
  lemma ReadOpsOfSpans(block: nat, offset: nat, size: nat)
    requires offset <= BLOCK_SIZE
    ensures ReadOps(Spans(block, offset, size)) == ReadRun(block, |Spans(block, offset, size)|)
  {
    SpansShape(block, offset, size);
  }

  /** One step of the write loop: the trace still to come from block `index` with `m`
      bytes left is that of the next block followed by the trace from the block after. */
  lemma FollowWriteStep(index: nat, m: nat)
    requires m > 0
    ensures FollowWriteOps(FollowSpans(index, m)) ==
            SpanWriteOps(Span(index, 0, Min(BLOCK_SIZE, m))) +
            FollowWriteOps(FollowSpans(index + 1, m - Min(BLOCK_SIZE, m)))
  {
    var ss := FollowSpans(index, m);
    assert ss[1..] == FollowSpans(index + 1, m - Min(BLOCK_SIZE, m));
  }

  /** The closed form of the remaining trace takes the same step. */
  lemma WriteTailStep(index: nat, m: nat)
    requires m > 0
    ensures WriteTail(index, m) ==
            SpanWriteOps(Span(index, 0, Min(BLOCK_SIZE, m))) + WriteTail(index + 1, m - Min(BLOCK_SIZE, m))
  {
    if m < BLOCK_SIZE {
      assert m / BLOCK_SIZE == 0 && m % BLOCK_SIZE == m;
      assert WriteTail(index + 1, 0) == [];
    } else {
      var k := m / BLOCK_SIZE;
      assert (m - BLOCK_SIZE) / BLOCK_SIZE == k - 1;
      assert (m - BLOCK_SIZE) % BLOCK_SIZE == m % BLOCK_SIZE;
      var last := if m % BLOCK_SIZE == 0 then [] else [ReadOp(index + k), WriteOp(index + k)];
      assert WriteTail(index, m) == ([WriteOp(index)] + WriteRun(index + 1, k - 1)) + last;
      assert WriteTail(index + 1, m - BLOCK_SIZE) == WriteRun(index + 1, k - 1) + last;
    }
  }

  /** After its first block, `sdcard_write` writes the `n / B` whole blocks straight
      away, in increasing order, and reads a block only for a final partial block,
      which it then writes back. */
  lemma {:induction false} FollowWriteOpsClosedForm(index: nat, n: nat)
    ensures FollowWriteOps(FollowSpans(index, n)) == WriteTail(index, n)
    decreases n
  {
    if n == 0 {
      assert WriteTail(index, 0) == [];
    } else {
      FollowWriteStep(index, n);
      WriteTailStep(index, n);
      FollowWriteOpsClosedForm(index + 1, n - Min(BLOCK_SIZE, n));
    }
  }

  /** Linear address of the first byte of a request. */
  function Start(block: nat, offset: nat): nat
  {
    block * BLOCK_SIZE + offset
  }

  /** The range `[Start(block, offset), Start(block, offset) + size)` lies on the device,
      and so does block `block`, which both procedures always visit. */
  ghost predicate InRange(card: Card, block: nat, offset: nat, size: nat)
    reads card
  {
    block < |card.blocks| && Start(block, offset) + size <= |card.blocks| * BLOCK_SIZE
  }

  /** `_read_block(index, blockBuf)` followed by `memcpy(&buf[at], &blockBuf[from], n)`:
      the step both parts of `sdcard_read` take. The `n` linear bytes from address
      `index * B + from` land at `buf[at..]`, and one read of block `index` is made. */
  method CopyOut(card: Card, blockBuf: array<Byte>, index: nat, from: nat, buf: array<Byte>, at: nat, n: nat)
    requires card.Valid() && index < |card.blocks| && from + n <= BLOCK_SIZE
    requires blockBuf.Length == BLOCK_SIZE && blockBuf != buf && at + n <= buf.Length
    modifies card`ops, blockBuf, buf
    ensures forall i :: at <= i < at + n ==>
              buf[i] == Linear(card.blocks)[index * BLOCK_SIZE + from + (i - at)]
    ensures forall i :: 0 <= i < buf.Length && !(at <= i < at + n) ==> buf[i] == old(buf[i])
    ensures card.ops == old(card.ops) + [ReadOp(index)]
  {
    card.ReadBlock(index, blockBuf);
    forall i | at <= i < at + n {
      buf[i] := blockBuf[from + (i - at)];
    }
    forall i | at <= i < at + n
      ensures buf[i] == Linear(card.blocks)[index * BLOCK_SIZE + from + (i - at)]
    {
      LinearAt(card.blocks, index, from + (i - at));
    }
  }

  /** `sdcard_read(block, offset, buf, size)`. An offset beyond the block size is
      rejected without any block call; otherwise `buf[i]` receives the device byte at
      linear address `block * B + offset + i` for every `i < size`, the rest of `buf`
      is untouched, and one block is read per span, in order. */
  method Read(card: Card, block: nat, offset: nat, buf: array<Byte>, size: nat)
    requires card.Valid()
    requires size <= buf.Length
    requires offset <= BLOCK_SIZE ==> InRange(card, block, offset, size)
    modifies card`ops, buf
    ensures offset > BLOCK_SIZE ==> buf[..] == old(buf[..]) && card.ops == old(card.ops)
    ensures offset <= BLOCK_SIZE ==>
              forall i :: 0 <= i < size ==> buf[i] == Linear(card.blocks)[Start(block, offset) + i]
    ensures forall i :: size <= i < buf.Length ==> buf[i] == old(buf[i])
    ensures offset <= BLOCK_SIZE ==> card.ops == old(card.ops) + ReadOps(Spans(block, offset, size))
  {
    var pos: nat := 0;
    var currBlock: nat := block;
    var blockBuf := new Byte[BLOCK_SIZE](_ => 0);

    if offset > BLOCK_SIZE {
      return;
    }

    // First (partial) block.
    ghost var lo := Start(block, offset);
    var copySize := Min(BLOCK_SIZE - offset, size);
    ghost var first := copySize;
    CopyOut(card, blockBuf, currBlock, offset, buf, 0, copySize);
    pos := pos + copySize;
    currBlock := currBlock + 1;

    // Remaining blocks.
    while pos < size
      invariant first <= pos <= size && block < currBlock
      invariant pos < size ==> currBlock * BLOCK_SIZE == lo + pos
      invariant first < size ==> first == BLOCK_SIZE - offset
      invariant currBlock - block == 1 + (pos - first + BLOCK_SIZE - 1) / BLOCK_SIZE
      invariant forall i :: 0 <= i < pos ==> buf[i] == Linear(card.blocks)[lo + i]
      invariant forall i :: size <= i < buf.Length ==> buf[i] == old(buf[i])
      invariant card.blocks == old(card.blocks)
      invariant card.ops == old(card.ops) + ReadRun(block, currBlock - block)
      decreases size - pos
    {
      copySize := Min(BLOCK_SIZE, size - pos);
      CopyOut(card, blockBuf, currBlock, 0, buf, pos, copySize);
      assert ReadRun(block, currBlock - block) + [ReadOp(currBlock)] == ReadRun(block, currBlock + 1 - block);
      pos := pos + copySize;
      currBlock := currBlock + 1;
    }
    SpansShape(block, offset, size);
    ReadOpsOfSpans(block, offset, size);
  }

  /** `_read_block(index, blockBuf)`, `memcpy(&blockBuf[off], src, |src|)` and
      `_write_block(index, blockBuf)`: the read-modify-write of one block. The linear
      bytes from `index * B + off` become `src`, all others keep their value. */
  method MergeInto(card: Card, blockBuf: array<Byte>, index: nat, off: nat, src: seq<Byte>)
    requires card.Valid() && index < |card.blocks| && off + |src| <= BLOCK_SIZE
    requires blockBuf.Length == BLOCK_SIZE
    modifies card, blockBuf
    ensures card.Valid() && |card.blocks| == old(|card.blocks|)
    ensures Linear(card.blocks) == Splice(old(Linear(card.blocks)), index * BLOCK_SIZE + off, src)
    ensures card.ops == old(card.ops) + [ReadOp(index), WriteOp(index)]
  {
    card.ReadBlock(index, blockBuf);
    Memcpy(blockBuf, off, src);
    LinearMerge(card.blocks, index, off, src);
    card.WriteBlock(index, blockBuf[..]);
  }

  /** Storing the first `pos` bytes of `buf` and then the next `c` right after them is
      storing the first `pos + c`. */
  lemma SpliceGrow(l: seq<Byte>, lo: nat, buf: seq<Byte>, pos: nat, c: nat)
    requires pos + c <= |buf| && lo + pos + c <= |l|
    ensures Splice(Splice(l, lo, buf[..pos]), lo + pos, buf[pos..pos + c]) == Splice(l, lo, buf[..pos + c])
  {
    assert buf[..pos] + buf[pos..pos + c] == buf[..pos + c];
  }

  /** One block after the first of `sdcard_write`: `data` is stored at the start of
      block `index`; a partial block goes through MergeInto, a whole block is written
      straight from the caller's buffer without being read. */
  method StoreSpan(card: Card, blockBuf: array<Byte>, index: nat, data: seq<Byte>)
    requires card.Valid() && index < |card.blocks| && 0 < |data| <= BLOCK_SIZE
    requires blockBuf.Length == BLOCK_SIZE
    modifies card, blockBuf
    ensures card.Valid() && |card.blocks| == old(|card.blocks|)
    ensures Linear(card.blocks) == Splice(old(Linear(card.blocks)), index * BLOCK_SIZE, data)
    ensures card.ops == old(card.ops) + SpanWriteOps(Span(index, 0, |data|))
  {
    if |data| < BLOCK_SIZE {
      // Partial block write.
      MergeInto(card, blockBuf, index, 0, data);
    } else {
      // Full block write.
      LinearUpdate(card.blocks, index, data);
      card.WriteBlock(index, data);
    }
  }

  /** One turn of the loop of `sdcard_write` over the blocks after the first: the next
      `Min(B, size - pos)` bytes of `buf` are stored at the start of block `index`
      (StoreSpan), which extends the range of the device already holding `buf` and
      moves that block's calls from the trace still to come to the trace made. */
  method WriteNext(card: Card, blockBuf: array<Byte>, index: nat, buf: seq<Byte>, pos: nat, size: nat,
                   ghost l0: seq<Byte>, ghost lo: nat, ghost target: seq<BlockOp>)
    requires card.Valid() && blockBuf.Length == BLOCK_SIZE
    requires pos <= size <= |buf| && (pos < size ==> index * BLOCK_SIZE == lo + pos)
    requires lo + size <= |l0| == |card.blocks| * BLOCK_SIZE
    requires Linear(card.blocks) == Splice(l0, lo, buf[..pos])
    requires card.ops + FollowWriteOps(FollowSpans(index, size - pos)) == target
    requires pos < size
    modifies card, blockBuf
    ensures card.Valid() && |card.blocks| == old(|card.blocks|)
    ensures pos + Min(BLOCK_SIZE, size - pos) < size ==>
              (index + 1) * BLOCK_SIZE == lo + pos + Min(BLOCK_SIZE, size - pos)
    ensures Linear(card.blocks) == Splice(l0, lo, buf[..pos + Min(BLOCK_SIZE, size - pos)])
    ensures card.ops + FollowWriteOps(FollowSpans(index + 1, size - (pos + Min(BLOCK_SIZE, size - pos)))) == target
  {
    var c := Min(BLOCK_SIZE, size - pos);
    FollowWriteStep(index, size - pos);
    SpliceGrow(l0, lo, buf, pos, c);
    ghost var before := card.ops;
    StoreSpan(card, blockBuf, index, buf[pos..pos + c]);
    TraceShift(before, SpanWriteOps(Span(index, 0, c)),
               FollowWriteOps(FollowSpans(index, size - pos)),
               FollowWriteOps(FollowSpans(index + 1, size - pos - c)), target);
  }

  /** Moving the next entries of the remaining trace into the trace made so far
      leaves their concatenation unchanged. */
  lemma TraceShift(done: seq<BlockOp>, next: seq<BlockOp>, rest: seq<BlockOp>, later: seq<BlockOp>, target: seq<BlockOp>)
    requires done + rest == target && rest == next + later
    ensures (done + next) + later == target
  {
    assert (done + next) + later == done + (next + later);
  }

  /** The loop of `sdcard_write` over the blocks after the first, from block `index`
      with `pos` bytes of `buf` already stored: on return all `size` bytes are stored
      and the trace still to come has been made. */
  method WriteRemaining(card: Card, blockBuf: array<Byte>, index: nat, buf: seq<Byte>, pos: nat, size: nat,
                        ghost l0: seq<Byte>, ghost lo: nat, ghost target: seq<BlockOp>)
    requires card.Valid() && blockBuf.Length == BLOCK_SIZE
    requires pos <= size <= |buf| && (pos < size ==> index * BLOCK_SIZE == lo + pos)
    requires lo + size <= |l0| == |card.blocks| * BLOCK_SIZE
    requires Linear(card.blocks) == Splice(l0, lo, buf[..pos])
    requires card.ops + FollowWriteOps(FollowSpans(index, size - pos)) == target
    modifies card, blockBuf
    ensures card.Valid() && |card.blocks| == old(|card.blocks|)
    ensures Linear(card.blocks) == Splice(l0, lo, buf[..size])
    ensures card.ops == target
  {
    var pos: nat, currBlock: nat := pos, index;
    ghost var count := |card.blocks|;
    while pos < size
      invariant pos <= size && (pos < size ==> currBlock * BLOCK_SIZE == lo + pos)
      invariant card.Valid() && |card.blocks| == count
      invariant Linear(card.blocks) == Splice(l0, lo, buf[..pos])
      invariant card.ops + FollowWriteOps(FollowSpans(currBlock, size - pos)) == target
      decreases size - pos
    {
      var copySize := Min(BLOCK_SIZE, size - pos);
      WriteNext(card, blockBuf, currBlock, buf, pos, size, l0, lo, target);
      pos := pos + copySize;
      currBlock := currBlock + 1;
    }
    assert card.ops + [] == card.ops;
  }

  /** `sdcard_write(block, offset, buf, size)`. An offset beyond the block size is
      rejected without any block call; otherwise the device bytes at linear addresses
      `[block * B + offset, block * B + offset + size)` become `buf[..size]`, every other
      byte keeps its value, and the block calls are those WriteOps gives: the first
      block and a final partial block by read-modify-write, whole blocks by a single
      write from the caller's buffer. */
  method Write(card: Card, block: nat, offset: nat, buf: seq<Byte>, size: nat)
    requires card.Valid()
    requires size <= |buf|
    requires offset <= BLOCK_SIZE ==> InRange(card, block, offset, size)
    modifies card
    ensures card.Valid() && |card.blocks| == old(|card.blocks|)
    ensures offset > BLOCK_SIZE ==> card.blocks == old(card.blocks) && card.ops == old(card.ops)
    ensures offset <= BLOCK_SIZE ==>
              Linear(card.blocks) == Splice(old(Linear(card.blocks)), Start(block, offset), buf[..size])
    ensures offset <= BLOCK_SIZE ==> card.ops == old(card.ops) + WriteOps(Spans(block, offset, size))
  {
    var pos: nat := 0;
    var currBlock: nat := block;
    var blockBuf := new Byte[BLOCK_SIZE](_ => 0);

    if offset > BLOCK_SIZE {
      return;
    }

    // First (partial) block: always read, merged and written back.
    ghost var lo, l0 := Start(block, offset), Linear(card.blocks);
    var copySize := Min(BLOCK_SIZE - offset, size);
    ghost var first := copySize;
    ghost var target := old(card.ops) + WriteOps(Spans(block, offset, size));
    assert Spans(block, offset, size)[1..] == FollowSpans(block + 1, size - first);
    MergeInto(card, blockBuf, currBlock, offset, buf[..copySize]);
    pos := pos + copySize;
    currBlock := currBlock + 1;

    // Remaining blocks.
    WriteRemaining(card, blockBuf, currBlock, buf, pos, size, l0, lo, target);
  }

  /** The whole trace of `sdcard_write`: a read and a write of block `block`, then one
      write of each of the following whole blocks with no read, then a read and a write
      of a final partial block if one is left. */
  lemma WriteOpsClosedForm(block: nat, offset: nat, size: nat)
    requires offset <= BLOCK_SIZE
    ensures WriteOps(Spans(block, offset, size)) ==
            [ReadOp(block), WriteOp(block)] + WriteTail(block + 1, size - FirstLen(offset, size))
  {
    var ss := Spans(block, offset, size);
    assert ss[1..] == FollowSpans(block + 1, size - FirstLen(offset, size));
    FollowWriteOpsClosedForm(block + 1, size - FirstLen(offset, size));
  }

  /** The guard rejects only an offset beyond the block size: at `offset == B` the
      first span is empty, yet block `block` is still read and written back, and the
      request goes on from position 0 of the next block. */
  lemma OffsetAtBlockEnd(block: nat, size: nat)
    ensures Spans(block, BLOCK_SIZE, size)[0] == Span(block, BLOCK_SIZE, 0)
    ensures Spans(block, BLOCK_SIZE, size)[1..] == FollowSpans(block + 1, size)
    ensures WriteOps(Spans(block, BLOCK_SIZE, size))[..2] == [ReadOp(block), WriteOp(block)]
  {
  }

  /** `tud_msc_read10_cb` with the SD backend: `sdcard_read(lba, offset, buffer, bufsize)`,
      then `bufsize` as an `int32_t`. */
  method Read10(card: Card, lba: nat, offset: nat, buffer: array<Byte>, bufsize: Word) returns (r: int)
    requires card.Valid() && bufsize <= buffer.Length
    requires offset <= BLOCK_SIZE ==> InRange(card, lba, offset, bufsize)
    modifies card`ops, buffer
    ensures r == Int32Of(bufsize)
    ensures offset > BLOCK_SIZE ==> buffer[..] == old(buffer[..]) && card.ops == old(card.ops)
    ensures offset <= BLOCK_SIZE ==>
              forall i :: 0 <= i < bufsize ==> buffer[i] == Linear(card.blocks)[Start(lba, offset) + i]
    ensures forall i :: bufsize <= i < buffer.Length ==> buffer[i] == old(buffer[i])
    ensures offset <= BLOCK_SIZE ==> card.ops == old(card.ops) + ReadOps(Spans(lba, offset, bufsize))
  {
    Read(card, lba, offset, buffer, bufsize);
    r := Int32Of(bufsize);
  }

  /** `tud_msc_write10_cb` with the SD backend: `sdcard_write(lba, offset, buffer, bufsize)`,
      then `bufsize` as an `int32_t`. */
  method Write10(card: Card, lba: nat, offset: nat, buffer: seq<Byte>, bufsize: Word) returns (r: int)
    requires card.Valid() && bufsize <= |buffer|
    requires offset <= BLOCK_SIZE ==> InRange(card, lba, offset, bufsize)
    modifies card
    ensures r == Int32Of(bufsize)
    ensures card.Valid() && |card.blocks| == old(|card.blocks|)
    ensures offset > BLOCK_SIZE ==> card.blocks == old(card.blocks) && card.ops == old(card.ops)
    ensures offset <= BLOCK_SIZE ==>
              Linear(card.blocks) == Splice(old(Linear(card.blocks)), Start(lba, offset), buffer[..bufsize])
    ensures offset <= BLOCK_SIZE ==> card.ops == old(card.ops) + WriteOps(Spans(lba, offset, bufsize))
  {
    Write(card, lba, offset, buffer, bufsize);
    r := Int32Of(bufsize);
  }

  /** A write followed by a read of the same range returns the written bytes. */
  method WriteThenRead(card: Card, block: nat, offset: nat, data: seq<Byte>) returns (back: array<Byte>)
    requires card.Valid() && offset <= BLOCK_SIZE && InRange(card, block, offset, |data|)
    modifies card
    ensures back[..] == data
  {
    Write(card, block, offset, data, |data|);
    back := new Byte[|data|](_ => 0);
    Read(card, block, offset, back, |data|);
    assert data[..|data|] == data;
    forall i | 0 <= i < |data| ensures back[i] == data[i] {
      SpliceAt(old(Linear(card.blocks)), Start(block, offset), data, Start(block, offset) + i);
    }
  }
}
