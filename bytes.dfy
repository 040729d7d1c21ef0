/// Bytes, 32-bit words and the little-endian view of a word, shared by every backend.
module Bytes {

  /** An unsigned 8-bit value (`uint8_t`). */
  type Byte = b: int | 0 <= b < 0x100

  /** An unsigned 32-bit value (`uint32_t`), as read from a FIFO data register. */
  type Word = w: int | 0 <= w < 0x1_0000_0000

  const U32_LIMIT: int := 0x1_0000_0000

  /** Byte `k` (0 = least significant) of `w`: `w & 0xFF` after `k` shifts `w >> 8`,
      which is also the byte a little-endian 32-bit store places at address `p + k`. */
  function ByteOf(w: Word, k: nat): (b: Byte)
    requires k < 4
  {
    if k == 0 then w % 0x100 else ByteOf(w / 0x100, k - 1)
  }

  /** The value a C `int32_t` holds after a `uint32_t` is converted to it (two's complement). */
  function Int32Of(x: Word): (r: int)
    ensures -0x8000_0000 <= r < 0x8000_0000
    ensures r >= 0 <==> x < 0x8000_0000
    ensures r == x || r == x - U32_LIMIT
  {
    if x < 0x8000_0000 then x else x - U32_LIMIT
  }

  /** `x` reduced to 32 bits: what a `uint32_t` holds after an addition that may wrap. */
  function Wrap32(x: nat): (r: Word)
    ensures x < U32_LIMIT ==> r == x
    ensures (x - r) % U32_LIMIT == 0
  {
    x % U32_LIMIT
  }

  /** Wrapping once more after a further addition equals wrapping the whole sum. */
  lemma Wrap32Add(x: nat, y: nat)
    ensures Wrap32(Wrap32(x) + y) == Wrap32(x + y)
  {
    var q := x / U32_LIMIT;
    assert x == U32_LIMIT * q + Wrap32(x);
    ModShift(Wrap32(x) + y, q);
  }

  lemma {:induction false} ModShift(z: nat, q: nat)
    ensures (z + U32_LIMIT * q) % U32_LIMIT == z % U32_LIMIT
  {
    if q > 0 {
      ModShift(z, q - 1);
      assert z + U32_LIMIT * q == (z + U32_LIMIT * (q - 1)) + U32_LIMIT;
    }
  }

  /** `k` copies of `x`. */
  function Repeat<T>(x: T, k: nat): (r: seq<T>)
    ensures |r| == k
  {
    if k == 0 then [] else [x] + Repeat(x, k - 1)
  }

  /** `d` with `x` copied over `d[lo..lo + |x|]`: the effect of `memcpy(&d[lo], x, |x|)`. */
  function Splice(d: seq<Byte>, lo: nat, x: seq<Byte>): (r: seq<Byte>)
    requires lo + |x| <= |d|
    ensures |r| == |d|
    ensures r[lo..lo + |x|] == x
    ensures forall i :: 0 <= i < |d| && !(lo <= i < lo + |x|) ==> r[i] == d[i]
  {
    d[..lo] + x + d[lo + |x|..]
  }

  /** `memcpy(&dst[at], src, |src|)`: the bytes of `src` land at `dst[at..]`, nothing else changes. */
  method Memcpy(dst: array<Byte>, at: nat, src: seq<Byte>)
    requires at + |src| <= dst.Length
    modifies dst
    ensures dst[..] == Splice(old(dst[..]), at, src)
  {
    forall i | at <= i < at + |src| {
      dst[i] := src[i - at];
    }
    assert dst[..] == Splice(old(dst[..]), at, src);
  }

  /** Pointwise meaning of Splice. */
  lemma SpliceAt(d: seq<Byte>, lo: nat, x: seq<Byte>, i: nat)
    requires lo + |x| <= |d| && i < |d|
    ensures Splice(d, lo, x)[i] == if lo <= i < lo + |x| then x[i - lo] else d[i]
  {
    if lo <= i < lo + |x| {
      assert Splice(d, lo, x)[i] == Splice(d, lo, x)[lo..lo + |x|][i - lo];
    }
  }

  /** Splicing a window of `d` that was itself spliced at `off` is splicing `d` at
      `base + off`. */
  lemma SpliceNested(d: seq<Byte>, base: nat, n: nat, off: nat, e: seq<Byte>)
    requires base + n <= |d| && off + |e| <= n
    ensures Splice(d, base, Splice(d[base..base + n], off, e)) == Splice(d, base + off, e)
  {
    var w := d[base..base + n];
    assert Splice(w, off, e) == d[base..base + off] + e + d[base + off + |e|..base + n];
    assert d[..base] + d[base..base + off] == d[..base + off];
    assert d[base + off + |e|..base + n] + d[base + n..] == d[base + off + |e|..];
  }
}
