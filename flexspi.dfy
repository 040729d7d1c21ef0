/// The FlexSPI2 IP-command interface: `flexspi2_ip_command`, `flexspi2_ip_write` and
/// `flexspi2_ip_read`. Register traffic is replaced by a log of the transactions issued;
/// `flexspi2_ip_read` keeps its receive-FIFO drain, over the words the device returns.
module FlexSpi {
  import opened Bytes

  /** One transaction on the FlexSPI2 bus, as the log records it. */
  datatype Txn =
    | Command(seqId: nat, addr: Word)                 // flexspi2_ip_command
    | Write(seqId: nat, addr: Word, length: Word)     // flexspi2_ip_write
    | Read(seqId: nat, addr: Word, length: Word)      // flexspi2_ip_read
    | WaitReady                                       // flash_wait: the device reports not busy

  /** One pass of the drain in `flexspi2_ip_read` that moves data: a 16-byte burst of
      four FIFO words, one whole word, or the final 1-3 bytes of a word. */
  datatype Step = Burst | WholeWord | Tail(count: nat)

  function StepBytes(s: Step): nat
  {
    match s
    case Burst => 16
    case WholeWord => 4
    case Tail(k) => k
  }

  function StepWords(s: Step): nat
  {
    match s
    case Burst => 4
    case WholeWord => 1
    case Tail(_) => 1
  }

  function SumBytes(ss: seq<Step>): nat
  {
    if ss == [] then 0 else StepBytes(ss[0]) + SumBytes(ss[1..])
  }

  function SumWords(ss: seq<Step>): nat
  {
    if ss == [] then 0 else StepWords(ss[0]) + SumWords(ss[1..])
  }

  /** The steps for fewer than 16 bytes left: whole words while at least 4 are left,
      then the tail bytes if any. */
  function TailSteps(n: nat): seq<Step>
    decreases n
  {
    if n >= 4 then [WholeWord] + TailSteps(n - 4)
    else if n >= 1 then [Tail(n)]
    else []
  }

  /** The steps `flexspi2_ip_read` takes for `n` bytes: bursts while at least 16 are
      left, then TailSteps. */
  function DrainSteps(n: nat): seq<Step>
    decreases n
  {
    if n >= 16 then [Burst] + DrainSteps(n - 16) else TailSteps(n)
  }

  lemma {:induction false} SumBytesAppend(a: seq<Step>, b: seq<Step>)
    ensures SumBytes(a + b) == SumBytes(a) + SumBytes(b)
    ensures SumWords(a + b) == SumWords(a) + SumWords(b)
  {
    if a == [] {
      assert a + b == b;
    } else {
      assert (a + b)[0] == a[0];
      assert (a + b)[1..] == a[1..] + b;
      SumBytesAppend(a[1..], b);
    }
  }

  /** Fewer than 16 bytes are delivered as `n / 4` whole words, then one tail of
      `n % 4` bytes when that is not 0. */
  lemma {:induction false} TailStepsShape(n: nat)
    requires n < 16
    ensures TailSteps(n) == Repeat(WholeWord, n / 4) + (if n % 4 == 0 then [] else [Tail(n % 4)])
    decreases n
  {
    if n >= 4 {
      TailStepsShape(n - 4);
      assert (n - 4) / 4 == n / 4 - 1 && (n - 4) % 4 == n % 4;
    }
  }

  lemma {:induction false} TailStepsTotals(n: nat)
    requires n < 16
    ensures SumBytes(TailSteps(n)) == n && SumWords(TailSteps(n)) == (n + 3) / 4
    decreases n
  {
    if n >= 4 {
      TailStepsTotals(n - 4);
      SumBytesAppend([WholeWord], TailSteps(n - 4));
    } else if n >= 1 {
      assert SumBytes([Tail(n)]) == n;
    }
  }

  /** `16 * q + r` bytes with `r < 16` are drained as `q` bursts, then TailSteps(r). */
  lemma {:induction false} DrainStepsBursts(q: nat, r: nat)
    requires r < 16
    ensures DrainSteps(16 * q + r) == Repeat(Burst, q) + TailSteps(r)
    decreases q
  {
    if q > 0 {
      DrainStepsBursts(q - 1, r);
      assert 16 * q + r - 16 == 16 * (q - 1) + r;
      assert [Burst] + (Repeat(Burst, q - 1) + TailSteps(r)) == ([Burst] + Repeat(Burst, q - 1)) + TailSteps(r);
    }
  }

  /** `flexspi2_ip_read` delivers `n` bytes as `n / 16` bursts, then the steps for the
      `n % 16` bytes left (TailStepsShape: whole words, then one tail if any). */
  lemma DrainStepsShape(n: nat)
    ensures DrainSteps(n) == Repeat(Burst, n / 16) + TailSteps(n % 16)
  {
    DrainStepsBursts(n / 16, n % 16);
  }

  /** The drain moves exactly `n` bytes and takes `ceil(n / 4)` words from the FIFO. */
  lemma {:induction false} DrainStepsTotals(n: nat)
    ensures SumBytes(DrainSteps(n)) == n
    ensures SumWords(DrainSteps(n)) == (n + 3) / 4
    decreases n
  {
    if n >= 16 {
      DrainStepsTotals(n - 16);
      SumBytesAppend([Burst], DrainSteps(n - 16));
      assert SumBytes([Burst]) == 16 && SumWords([Burst]) == 4;
    } else {
      TailStepsTotals(n);
    }
  }

  /** `4 * w .. 4 * w + 3` are the byte positions of word `w`. */
  lemma WordPosition(w: nat, i: nat)
    requires 4 * w <= i < 4 * w + 4
    ensures i / 4 == w && i % 4 == i - 4 * w
  {
  }

  /** `*(uint32_t *)(p) = x` on the little-endian core: byte `k` of `x` lands at `p + k`. */
  method StoreWord(data: array<Byte>, p: nat, x: Word)
    requires p + 4 <= data.Length
    modifies data
    ensures forall i :: p <= i < p + 4 ==> data[i] == ByteOf(x, i - p)
    ensures forall i :: 0 <= i < data.Length && !(p <= i < p + 4) ==> data[i] == old(data[i])
  {
    data[p] := ByteOf(x, 0);
    data[p + 1] := ByteOf(x, 1);
    data[p + 2] := ByteOf(x, 2);
    data[p + 3] := ByteOf(x, 3);
  }

  /** The byte-delivery promise of `flexspi2_ip_read`: byte `i` of the transfer is byte
      `i % 4` of FIFO word `i / 4`, for every `i < p`. */
  ghost predicate Delivered(data: array<Byte>, rx: seq<Word>, p: nat)
    reads data
    requires p <= data.Length && (p + 3) / 4 <= |rx|
  {
    forall i :: 0 <= i < p ==> data[i] == ByteOf(rx[i / 4], i % 4)
  }

  /** The burst branch of the drain: the four FIFO words `w .. w + 3` are stored at
      `p .. p + 15`, extending the delivered prefix by 16 bytes. */
  method DrainBurst(data: array<Byte>, rx: seq<Word>, p: nat, w: nat)
    requires p == 4 * w && p + 16 <= data.Length && w + 4 <= |rx|
    requires Delivered(data, rx, p)
    modifies data
    ensures Delivered(data, rx, p + 16)
    ensures forall i :: p + 16 <= i < data.Length ==> data[i] == old(data[i])
  {
    var a, b, c, d := rx[w], rx[w + 1], rx[w + 2], rx[w + 3];
    StoreWord(data, p, a);
    StoreWord(data, p + 4, b);
    StoreWord(data, p + 8, c);
    StoreWord(data, p + 12, d);
    forall i | 0 <= i < p + 16 ensures data[i] == ByteOf(rx[i / 4], i % 4) {
      if i >= p {
        WordPosition(w + (i - p) / 4, i);
      }
    }
  }

  /** The last 1-3 bytes of the drain: `n` bytes taken from `a` as `a & 0xFF`, then
      `a >>= 8`, stored from `p` on; byte `k` of `a` lands at `p + k`. */
  method TailBytes(data: array<Byte>, p: nat, n: nat, a: Word)
    requires n < 4 && p + n <= data.Length
    modifies data
    ensures forall i :: p <= i < p + n ==> data[i] == ByteOf(a, i - p)
    ensures forall i :: 0 <= i < data.Length && !(p <= i < p + n) ==> data[i] == old(data[i])
  {
    var x: int := a;
    var q := p;
    if n >= 1 {
      data[q] := x % 0x100;
      q := q + 1;
      x := x / 0x100;
    }
    if n >= 2 {
      data[q] := x % 0x100;
      q := q + 1;
      x := x / 0x100;
    }
    if n >= 3 {
      data[q] := x % 0x100;
      q := q + 1;
      x := x / 0x100;
    }
    assert ByteOf(a, 1) == ByteOf(a / 0x100, 0);
    assert ByteOf(a, 2) == ByteOf(a / 0x100 / 0x100, 0);
  }

  /** The branch of the drain for `0 < len < 16` bytes left: whole words while at least
      4 bytes are left, then the last 1-3 bytes from the next word, low byte first. It
      returns the new `p` and `length`; `length` is then 0. */
  method DrainTail(data: array<Byte>, rx: seq<Word>, p: nat, len: nat, w: nat)
    returns (p': nat, len': nat, ghost tail: seq<Step>)
    requires 0 < len < 16 && p == 4 * w && p + len <= data.Length && (p + len + 3) / 4 <= |rx|
    requires Delivered(data, rx, p)
    modifies data
    ensures p' == p + len && len' == 0
    ensures Delivered(data, rx, p + len)
    ensures forall i :: p + len <= i < data.Length ==> data[i] == old(data[i])
    ensures tail == TailSteps(len)
  {
    p', len' := p, len;
    var w' := w;
    tail := [];
    while len' >= 4
      invariant p' + len' == p + len && p' == 4 * w'
      invariant Delivered(data, rx, p')
      invariant forall i :: p + len <= i < data.Length ==> data[i] == old(data[i])
      invariant tail + TailSteps(len') == TailSteps(len)
      decreases len'
    {
      StoreWord(data, p', rx[w']);
      forall i | 0 <= i < p' + 4 ensures data[i] == ByteOf(rx[i / 4], i % 4) {
        if i >= p' {
          WordPosition(w', i);
        }
      }
      p', len', w' := p' + 4, len' - 4, w' + 1;
      assert (tail + [WholeWord]) + TailSteps(len') == tail + TailSteps(len' + 4);
      tail := tail + [WholeWord];
    }
    // When no tail is left, the data register read here holds no delivered data; its
    // value is never stored.
    var a: Word := if w' < |rx| then rx[w'] else 0;
    TailBytes(data, p', len', a);
    forall i | 0 <= i < p' + len' ensures data[i] == ByteOf(rx[i / 4], i % 4) {
      if i >= p' {
        WordPosition(w', i);
      }
    }
    p' := p' + len';
    if len' > 0 {
      tail := tail + [Tail(len')];
    }
    len' := 0;
  }

  /** The memory-mapped FlexSPI2 controller, seen through the transactions issued to it. */
  class Controller {
    /** Every transaction issued so far, oldest first. */
    var log: seq<Txn>

    constructor ()
      ensures log == []
    {
      log := [];
    }

    /** `flexspi2_ip_command(index, addr)`: runs sequence `index` at `addr` with no data. */
    method IpCommand(index: nat, addr: Word)
      modifies this
      ensures log == old(log) + [Command(index, addr)]
    {
      log := log + [Command(index, addr)];
    }

    /** `flexspi2_ip_write(index, addr, data, length)`: runs sequence `index` at `addr`
        sending `length` bytes; the bytes themselves are not modelled. */
    method IpWrite(index: nat, addr: Word, length: Word)
      modifies this
      ensures log == old(log) + [Write(index, addr, length)]
    {
      log := log + [Write(index, addr, length)];
    }

    /** `flexspi2_ip_read(index, addr, data, length)`, with the device answering by the
        words `rx` and every status flag the drain waits for already set. Byte `i` of
        `data` becomes byte `i % 4` of word `i / 4` for every `i < length` (bursts and
        whole words are stored little-endian, the tail is taken low byte first), the
        rest of `data` is untouched, and the drain takes the steps DrainSteps gives. */
    method IpRead(index: nat, addr: Word, data: array<Byte>, length: Word, rx: seq<Word>)
      returns (ghost steps: seq<Step>)
      requires length <= data.Length && (length + 3) / 4 <= |rx|
      modifies this, data
      ensures log == old(log) + [Read(index, addr, length)]
      ensures forall i :: 0 <= i < length ==> data[i] == ByteOf(rx[i / 4], i % 4)
      ensures forall i :: length <= i < data.Length ==> data[i] == old(data[i])
      ensures steps == DrainSteps(length)
    {
      log := log + [Read(index, addr, length)];
      var p: nat, len: nat, w: nat := 0, length, 0;
      steps := [];
      while true
        invariant p + len == length && (len > 0 ==> p == 4 * w)
        invariant Delivered(data, rx, p)
        invariant forall i :: length <= i < data.Length ==> data[i] == old(data[i])
        invariant steps + DrainSteps(len) == DrainSteps(length)
        invariant log == old(log) + [Read(index, addr, length)]
        decreases len
      {
        if len >= 16 {
          DrainBurst(data, rx, p, w);
          p, len, w := p + 16, len - 16, w + 4;
          assert (steps + [Burst]) + DrainSteps(len) == steps + DrainSteps(len + 16);
          steps := steps + [Burst];
        } else if len > 0 {
          ghost var tail;
          p, len, tail := DrainTail(data, rx, p, len, w);
          steps := steps + tail;
        } else {
          break;
        }
      }
    }
  }
}
