/// The SD card's block I/O primitive (`_read_block` / `_write_block` over 512-byte
/// blocks) and the linear byte view of a device made of such blocks.
module BlockDevice {
  import opened Bytes

  /** Native transfer granularity of the card, `_disk_volume_get_block_size()`. */
  const BLOCK_SIZE: nat := 512

  /** One call of the block primitive, as the card sees it. */
  datatype BlockOp = ReadOp(index: nat) | WriteOp(index: nat)

  ghost predicate ValidBlocks(bs: seq<seq<Byte>>)
  {
    forall j :: 0 <= j < |bs| ==> |bs[j]| == BLOCK_SIZE
  }

  /** The device as one sequence of bytes: block `j` occupies linear addresses
      `[j * B, (j + 1) * B)`. */
  function Linear(bs: seq<seq<Byte>>): (r: seq<Byte>)
    requires ValidBlocks(bs)
    ensures |r| == |bs| * BLOCK_SIZE
  {
    if bs == [] then [] else bs[0] + Linear(bs[1..])
  }

  /** Block `j` is the slice `[j * B, (j + 1) * B)` of the linear view. */
  lemma {:induction false} LinearBlock(bs: seq<seq<Byte>>, j: nat)
    requires ValidBlocks(bs) && j < |bs|
    ensures Linear(bs)[j * BLOCK_SIZE..j * BLOCK_SIZE + BLOCK_SIZE] == bs[j]
  {
    if j > 0 {
      LinearBlock(bs[1..], j - 1);
      assert Linear(bs) == bs[0] + Linear(bs[1..]);
      assert Linear(bs)[j * BLOCK_SIZE..j * BLOCK_SIZE + BLOCK_SIZE] ==
             Linear(bs[1..])[(j - 1) * BLOCK_SIZE..(j - 1) * BLOCK_SIZE + BLOCK_SIZE];
    }
  }

  /** Replacing block `j` replaces exactly the bytes `[j * B, (j + 1) * B)` of the
      linear view. */
  lemma {:induction false} LinearUpdate(bs: seq<seq<Byte>>, j: nat, x: seq<Byte>)
    requires ValidBlocks(bs) && j < |bs| && |x| == BLOCK_SIZE
    ensures ValidBlocks(bs[j := x])
    ensures Linear(bs[j := x]) == Splice(Linear(bs), j * BLOCK_SIZE, x)
  {
    var bs' := bs[j := x];
    assert Linear(bs') == bs'[0] + Linear(bs'[1..]);
    if j == 0 {
      assert bs'[1..] == bs[1..];
    } else {
      assert bs'[1..] == bs[1..][j - 1 := x];
      LinearUpdate(bs[1..], j - 1, x);
    }
  }

  /** The byte-level meaning of the block layout: the byte at linear address
      `j * B + k` is byte `k` of block `j`. */
  lemma LinearAt(bs: seq<seq<Byte>>, j: nat, k: nat)
    requires ValidBlocks(bs) && j < |bs| && k < BLOCK_SIZE
    ensures Linear(bs)[j * BLOCK_SIZE + k] == bs[j][k]
  {
    LinearBlock(bs, j);
    assert Linear(bs)[j * BLOCK_SIZE + k] ==
           Linear(bs)[j * BLOCK_SIZE..j * BLOCK_SIZE + BLOCK_SIZE][k];
  }

  /** Merging `e` into block `j` at position `off` stores `e` at linear address
      `j * B + off` and changes no other byte of the device. */
  lemma LinearMerge(bs: seq<seq<Byte>>, j: nat, off: nat, e: seq<Byte>)
    requires ValidBlocks(bs) && j < |bs| && off + |e| <= BLOCK_SIZE
    ensures ValidBlocks(bs[j := Splice(bs[j], off, e)])
    ensures Linear(bs[j := Splice(bs[j], off, e)]) == Splice(Linear(bs), j * BLOCK_SIZE + off, e)
  {
    var base := j * BLOCK_SIZE;
    LinearUpdate(bs, j, Splice(bs[j], off, e));
    LinearBlock(bs, j);
    SpliceNested(Linear(bs), base, BLOCK_SIZE, off, e);
  }

  /** The SD card as seen through its block primitive: a fixed number of 512-byte blocks. */
  class Card {
    var blocks: seq<seq<Byte>>
    /** Every block-primitive call made so far, oldest first. */
    ghost var ops: seq<BlockOp>

    ghost predicate Valid()
      reads this
    {
      ValidBlocks(blocks)
    }

    constructor (count: nat)
      ensures Valid() && |blocks| == count && ops == []
    {
      blocks := seq(count, _ => seq(BLOCK_SIZE, _ => 0));
      ops := [];
    }

    /** `_read_block(index, dst)`: fills `dst` with block `index`. */
    method ReadBlock(index: nat, dst: array<Byte>)
      requires Valid() && index < |blocks| && dst.Length == BLOCK_SIZE
      modifies this`ops, dst
      ensures dst[..] == blocks[index]
      ensures ops == old(ops) + [ReadOp(index)]
    {
      forall k | 0 <= k < BLOCK_SIZE {
        dst[k] := blocks[index][k];
      }
      ops := ops + [ReadOp(index)];
    }

    /** `_write_block(index, src)`: replaces block `index` by the 512 bytes `src`. */
    method WriteBlock(index: nat, src: seq<Byte>)
      requires Valid() && index < |blocks| && |src| == BLOCK_SIZE
      modifies this
      ensures Valid()
      ensures blocks == old(blocks)[index := src]
      ensures ops == old(ops) + [WriteOp(index)]
    {
      blocks := blocks[index := src];
      ops := ops + [WriteOp(index)];
    }
  }
}
