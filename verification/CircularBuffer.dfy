/** The circular buffer of arm_math.h: block writes and block reads at offsets that wrap. */
module CircularBuffer {
  import opened Arithmetic

  const OFFSETS := 0x1_0000  // the write offset is a 16-bit variable

  /** How an offset moves through a buffer of `len` samples. It wraps at the end or beyond it, or, if
      `exact`, only when it meets the end. */
  datatype Walk = Walk(len: nat, inc: int, exact: bool)

  function Unit(len: nat): Walk { Walk(len, 1, false) }

  function Next(w: Walk, off: int): int {
    var moved := off + w.inc;
    if moved == w.len || (moved > w.len && !w.exact) then moved - w.len else moved
  }

  /** The offset after `n` samples. */
  function Offset(w: Walk, off: int, n: nat): int
    decreases n
  {
    if n == 0 then off else Next(w, Offset(w, off, n - 1))
  }

  /** All `n` samples lie in the buffer. */
  ghost predicate Stays(w: Walk, off: int, n: nat) {
    forall k: nat :: k < n ==> 0 <= Offset(w, off, k) < w.len
  }

  function Put(buf: seq<int>, at: int, x: int): (r: seq<int>)
    ensures |r| == |buf|
  {
    if 0 <= at < |buf| then buf[at := x] else buf
  }

  /** The buffer after the samples are written one after the other. */
  function Write(buf: seq<int>, w: Walk, off: int, samples: seq<int>): (r: seq<int>)
    ensures |r| == |buf|
    decreases |samples|
  {
    if samples == [] then buf
    else
      var n := |samples| - 1;
      Put(Write(buf, w, off, samples[..n]), Offset(w, off, n), samples[n])
  }

  function At(buf: seq<int>, at: int): int { if 0 <= at < |buf| then buf[at] else 0 }

  /** The samples found at `n` successive offsets. */
  function Read(buf: seq<int>, w: Walk, off: int, n: nat): (r: seq<int>)
    ensures |r| == n && forall k :: 0 <= k < n ==> r[k] == At(buf, Offset(w, off, k))
  {
    seq(n, k requires 0 <= k < n => At(buf, Offset(w, off, k)))
  }

  /** The samples found at steps of `inc` from `from` on. */
  function Strided(src: seq<int>, from: int, inc: int, n: nat): (r: seq<int>)
    ensures |r| == n && forall k :: 0 <= k < n ==> r[k] == At(src, from + k * inc)
  {
    seq(n, k requires 0 <= k < n => At(src, from + k * inc))
  }

  lemma StridedAt(src: seq<int>, from: int, inc: int, n: nat, k: nat)
    requires k < n && forall k :: 0 <= k < n ==> 0 <= from + k * inc < |src|
    ensures 0 <= from + k * inc < |src| && Strided(src, from, inc, n)[k] == src[from + k * inc]
    ensures from + k * inc + inc == from + (k + 1) * inc
  {
  }

  lemma NextIs(w: Walk, off: int)
    ensures !w.exact ==> Next(w, off) == if off + w.inc >= w.len then off + w.inc - w.len else off + w.inc
    ensures w.exact ==> Next(w, off) == if off + w.inc == w.len then 0 else off + w.inc
  {
  }

  lemma Visited(buf: seq<int>, w: Walk, off: int, n: nat, k: nat)
    requires Stays(w, off, n) && k < n && w.len == |buf|
    ensures var at := Offset(w, off, k);
      0 <= at < |buf| && Read(buf, w, off, n)[k] == buf[at] && forall x :: Put(buf, at, x) == buf[at := x]
  {
    hide Offset;
  }

  lemma WriteNext(buf: seq<int>, w: Walk, off: int, samples: seq<int>, k: nat)
    requires k < |samples|
    ensures Write(buf, w, off, samples[..k + 1])
      == Put(Write(buf, w, off, samples[..k]), Offset(w, off, k), samples[k])
  {
    hide Offset, Put;
    assert samples[..k + 1][..k] == samples[..k];
  }

  // ---------- the code ----------

  /** arm_circularWrite_q15, which reads `src` from index `from` on at steps of `srcInc`. The offset
      goes back into 16 bits. */
  method CircularWrite(circBuffer: array<int>, writeOffset: nat, bufferInc: int,
                       src: seq<int>, from: int, srcInc: int, blockSize: nat)
    returns (next: nat)
    requires Stays(Walk(circBuffer.Length, bufferInc, false), writeOffset, blockSize)
    requires forall k :: 0 <= k < blockSize ==> 0 <= from + k * srcInc < |src|
    modifies circBuffer
    ensures var w := Walk(circBuffer.Length, bufferInc, false);
      && next == Offset(w, writeOffset, blockSize) % OFFSETS
      && circBuffer[..] == Write(old(circBuffer[..]), w, writeOffset, Strided(src, from, srcInc, blockSize))
  {
    hide Next, Strided;
    ghost var samples := Strided(src, from, srcInc, blockSize);
    ghost var w := Walk(circBuffer.Length, bufferInc, false);
    var wOffset, at, i := writeOffset as int, from, blockSize;
    ghost var done: nat := 0;
    while i > 0
      invariant done + i == blockSize && at == from + done * srcInc
      invariant wOffset == Offset(w, writeOffset, done)
      invariant circBuffer[..] == Write(old(circBuffer[..]), w, writeOffset, samples[..done])
      decreases i
    {
      assert samples[..done + 1][..done] == samples[..done];
      StridedAt(src, from, srcInc, blockSize, done);
      circBuffer[wOffset] := src[at];
      at := at + srcInc;
      NextIs(w, wOffset);
      wOffset := wOffset + bufferInc;
      if wOffset >= circBuffer.Length {
        wOffset := wOffset - circBuffer.Length;
      }
      i := i - 1;
      done := done + 1;
    }
    assert samples[..blockSize] == samples;
    next := wOffset % OFFSETS;
  }

  /** arm_circularRead_q15. The destination is itself circular, of `dst.Length` samples from its base,
      and filled from position `start` on. */
  method CircularRead(circBuffer: array<int>, readOffset: int, bufferInc: int,
                      dst: array<int>, start: int, dstInc: int, blockSize: nat)
    returns (next: int)
    requires Stays(Walk(circBuffer.Length, bufferInc, false), readOffset, blockSize)
    requires Stays(Walk(dst.Length, dstInc, true), start, blockSize) && dst != circBuffer
    modifies dst
    ensures var w := Walk(circBuffer.Length, bufferInc, false);
      && next == Offset(w, readOffset, blockSize)
      && dst[..] == Write(old(dst[..]), Walk(dst.Length, dstInc, true), start,
                          Read(circBuffer[..], w, readOffset, blockSize))
  {
    hide Next, Read, At, Stays, Put;
    ghost var w, d := Walk(circBuffer.Length, bufferInc, false), Walk(dst.Length, dstInc, true);
    ghost var samples := Read(circBuffer[..], w, readOffset, blockSize);
    var rOffset, to, i := readOffset, start, blockSize;
    ghost var done: nat := 0;
    while i > 0
      invariant done + i == blockSize
      invariant rOffset == Offset(w, readOffset, done) && to == Offset(d, start, done)
      invariant dst[..] == Write(old(dst[..]), d, start, samples[..done])
      decreases i
    {
      Visited(circBuffer[..], w, readOffset, blockSize, done);
      Visited(dst[..], d, start, blockSize, done);
      WriteNext(old(dst[..]), d, start, samples, done);
      dst[to] := circBuffer[rOffset];
      NextIs(d, to);
      NextIs(w, rOffset);
      to := to + dstInc;
      if to == dst.Length {
        to := 0;
      }
      rOffset := rOffset + bufferInc;
      if rOffset >= circBuffer.Length {
        rOffset := rOffset - circBuffer.Length;
      }
      i := i - 1;
      done := done + 1;
    }
    assert samples[..blockSize] == samples;
    next := rOffset;
  }

  // ---------- where the offsets go ----------

  lemma {:induction false} OffsetAdd(w: Walk, off: int, m: nat, n: nat)
    ensures Offset(w, off, m + n) == Offset(w, Offset(w, off, m), n)
    decreases n
  {
    hide Next;
    if n == 0 {
    } else {
      OffsetAdd(w, off, m, n - 1);
    }
  }

  /** How far an offset drifts per sample when the upper end alone wraps it. */
  function Drift(w: Walk): int { if w.inc < 0 then w.inc else if w.inc > w.len then w.inc - w.len else 0 }

  lemma NextDrifts(w: Walk, at: int)
    requires !w.exact && 0 <= at < w.len
    ensures if Drift(w) == 0 then 0 <= Next(w, at) < w.len else Next(w, at) == at + Drift(w)
  {
  }

  lemma StaysNone(w: Walk, off: int)
    ensures Stays(w, off, 0) && Offset(w, off, 0) == off
  {
  }

  lemma StaysOneMore(w: Walk, off: int, n: nat)
    ensures Stays(w, off, n + 1) <==> Stays(w, off, n) && 0 <= Offset(w, off, n) < w.len
  {
    hide Offset;
  }

  lemma {:induction false} Drifts(w: Walk, off: int, n: nat)
    requires !w.exact && 0 <= off < w.len
    ensures Stays(w, off, n + 1) <==> 0 <= off + n * Drift(w) < w.len
    ensures Stays(w, off, n + 1) && Drift(w) != 0 ==> Offset(w, off, n) == off + n * Drift(w)
    decreases n
  {
    hide Next, Drift, Stays;
    StaysOneMore(w, off, n);
    var d := Drift(w);
    MulMonotone(0, n, if d >= 0 then d else -d);
    if n == 0 {
      StaysNone(w, off);
    } else {
      Drifts(w, off, n - 1);
      var before, after := (n - 1) * d, n * d;
      assert after == before + d;
      if Stays(w, off, n) {
        StaysOneMore(w, off, n - 1);
        NextDrifts(w, Offset(w, off, n - 1));
      }
    }
  }

  /** The lower end does not wrap and the upper one wraps once, so a block stays in the buffer
      exactly when its last sample does after drifting away from the first. */
  lemma StaysIff(w: Walk, off: int, n: nat)
    requires !w.exact && 0 <= off < w.len && n > 0
    ensures Stays(w, off, n) <==> 0 <= off + (n - 1) * Drift(w) < w.len
  {
    Drifts(w, off, n - 1);
  }

  lemma NextOf(w: Walk, off: int, at: int)
    requires 0 <= w.inc <= w.len && 0 <= off < w.len && 0 <= at && off == at % w.len
    requires !w.exact || off + w.inc <= w.len
    ensures 0 <= Next(w, off) < w.len && Next(w, off) == (at + w.inc) % w.len
  {
    DivMod(at, w.len);
    var q := at / w.len;
    if off + w.inc >= w.len {
      assert at + w.inc == (q + 1) * w.len + (off + w.inc - w.len);
      DivUnique(at + w.inc, q + 1, off + w.inc - w.len, w.len);
    } else {
      DivUnique(at + w.inc, q, off + w.inc, w.len);
    }
  }

  /** With an increment from nothing to the length the offset is the position modulo the length. */
  lemma {:induction false} StepsAreModulo(len: nat, inc: nat, off: nat, n: nat)
    requires off < len && inc <= len
    ensures Offset(Walk(len, inc, false), off, n) == (off + n * inc) % len
    ensures 0 <= Offset(Walk(len, inc, false), off, n) < len
    decreases n
  {
    hide Next;
    if n == 0 {
      DivUnique(off, 0, off, len);
    } else {
      StepsAreModulo(len, inc, off, n - 1);
      MulMonotone(0, n - 1, inc);
      assert n * inc == (n - 1) * inc + inc;
      NextOf(Walk(len, inc, false), Offset(Walk(len, inc, false), off, n - 1), off + (n - 1) * inc);
    }
  }

  /** The way to the next end, without a wrap. */
  lemma {:induction false} Climbs(w: Walk, off: nat, n: nat)
    requires w.inc >= 1 && off + n * w.inc < w.len
    ensures Offset(w, off, n) == off + n * w.inc
    decreases n
  {
    if n == 0 {
    } else {
      assert n * w.inc == (n - 1) * w.inc + w.inc;
      Climbs(w, off, n - 1);
    }
  }

  /** A destination that is not met exactly is left. */
  lemma MissesEnd(len: nat, inc: nat, off: nat) returns (n: nat)
    requires inc >= 1 && off < len && (len - off) % inc != 0
    ensures Offset(Walk(len, inc, true), off, n) > len
  {
    var w, q := Walk(len, inc, true), (len - off) / inc;
    DivMod(len - off, inc);
    DivAtLeast(len - off, 0, inc);
    Climbs(w, off, q);
    n := q + 1;
  }

  lemma {:induction false} MeetsEnd(len: nat, inc: nat, off: nat, n: nat)
    requires inc >= 1 && off < len && (len - off) % inc == 0 && len % inc == 0
    ensures var at := Offset(Walk(len, inc, true), off, n); 0 <= at < len && (len - at) % inc == 0
    decreases n
  {
    if n == 0 {
    } else {
      MeetsEnd(len, inc, off, n - 1);
      OneMultipleLess(len - Offset(Walk(len, inc, true), off, n - 1), inc);
    }
  }

  /** The destination wraps only when its end is met exactly: it is never left, however long the block,
      exactly when whole steps lead from the start to the end and from the base to the end. */
  lemma DestinationStaysIff(len: nat, inc: nat, off: nat)
    requires inc >= 1 && off < len
    ensures (forall n: nat :: 0 <= Offset(Walk(len, inc, true), off, n) < len)
      <==> (len - off) % inc == 0 && len % inc == 0
  {
    var w := Walk(len, inc, true);
    if (len - off) % inc != 0 {
      var n := MissesEnd(len, inc, off);
      assert Offset(w, off, n) > len;
    } else if len % inc != 0 {
      var q := (len - off) / inc;
      DivMod(len - off, inc);
      DivAtLeast(len - off, 1, inc);
      if q < 1 {
        assert len - off == q * inc;
        MulMonotone(q, 0, inc);
      }
      assert off + (q - 1) * inc == len - inc;
      Climbs(w, off, q - 1);
      assert Offset(w, off, q) == 0;
      var n := MissesEnd(len, inc, 0);
      OffsetAdd(w, off, q, n);
      assert Offset(w, off, q + n) > len;
    } else {
      forall n: nat ensures 0 <= Offset(w, off, n) < len {
        MeetsEnd(len, inc, off, n);
      }
    }
  }

  /** Where it is never left, it is at the position modulo the length as well. */
  lemma {:induction false} DestinationIsModulo(len: nat, inc: nat, off: nat, n: nat)
    requires inc >= 1 && off < len && (len - off) % inc == 0 && len % inc == 0
    ensures Offset(Walk(len, inc, true), off, n) == (off + n * inc) % len
    decreases n
  {
    hide Next;
    if n == 0 {
      DivUnique(off, 0, off, len);
    } else {
      var w := Walk(len, inc, true);
      DestinationIsModulo(len, inc, off, n - 1);
      MeetsEnd(len, inc, off, n - 1);
      var at := Offset(w, off, n - 1);
      OneMultipleLess(len - at, inc);
      OneMultipleLess(len, inc);
      MulMonotone(0, n - 1, inc);
      assert n * inc == (n - 1) * inc + inc;
      NextOf(w, at, off + (n - 1) * inc);
    }
  }

  /** By single samples the destination wraps as the ring does. */
  lemma {:induction false} SingleSteps(len: nat, off: nat, n: nat)
    requires off < len
    ensures Offset(Walk(len, 1, true), off, n) == Offset(Unit(len), off, n) == (off + n) % len
    decreases n
  {
    if n == 0 {
      DivUnique(off, 0, off, len);
    } else {
      SingleSteps(len, off, n - 1);
      NextQuotient(off + n - 1, len);
    }
  }

  // ---------- whole runs ----------

  /** Writing two blocks one after the other is writing them as one. */
  lemma {:induction false} WriteAppend(buf: seq<int>, w: Walk, off: int, s: seq<int>, t: seq<int>)
    ensures Write(buf, w, off, s + t) == Write(Write(buf, w, off, s), w, Offset(w, off, |s|), t)
    decreases |t|
  {
    hide Offset, Put;
    if t == [] {
      assert s + t == s;
    } else {
      var n := |t| - 1;
      assert (s + t)[..|s| + n] == s + t[..n] && (s + t)[|s| + n] == t[n];
      OffsetAdd(w, off, |s|, n);
      WriteAppend(buf, w, off, s, t[..n]);
    }
  }

  lemma RemaindersDiffer(a: nat, b: nat, m: nat)
    requires m > 0 && a < b < a + m
    ensures a % m != b % m
  {
    DivMod(a, m);
    DivMod(b, m);
    var q := b / m - a / m;
    assert b / m * m - a / m * m == q * m;
    if q >= 1 {
      MulMonotone(1, q, m);
    } else {
      MulMonotone(q, 0, m);
    }
  }

  /** Offsets less than a whole round apart are different places of the ring. */
  lemma OffsetsDiffer(off: nat, len: nat, j: nat, k: nat)
    requires off < len && j < k < j + len
    ensures Offset(Unit(len), off, j) != Offset(Unit(len), off, k)
  {
    hide Offset;
    SingleSteps(len, off, j);
    SingleSteps(len, off, k);
    RemaindersDiffer(off + j, off + k, len);
  }

  /** After any stream the ring holds its last samples, up to the length, at their positions, and
      where the stream did not reach the old content. */
  lemma {:induction false} HoldsLastSamples(buf: seq<int>, off: nat, stream: seq<int>)
    requires off < |buf|
    ensures var w, n := Unit(|buf|), |stream|; var r := Write(buf, w, off, stream);
      && (forall j: nat :: j < n < j + |buf| + 1 ==>
            0 <= Offset(w, off, j) < |buf| && r[Offset(w, off, j)] == stream[j])
      && (forall i :: 0 <= i < |buf| && (forall j: nat :: j < n ==> Offset(w, off, j) != i) ==> r[i] == buf[i])
    decreases |stream|
  {
    hide Offset;
    if stream == [] {
    } else {
      var w, n := Unit(|buf|), |stream| - 1;
      HoldsLastSamples(buf, off, stream[..n]);
      SingleSteps(|buf|, off, n);
      var r, before := Write(buf, w, off, stream), Write(buf, w, off, stream[..n]);
      forall j: nat | j < n + 1 < j + |buf| + 1
        ensures 0 <= Offset(w, off, j) < |buf| && r[Offset(w, off, j)] == stream[j]
      {
        if j < n {
          OffsetsDiffer(off, |buf|, j, n);
          assert before[Offset(w, off, j)] == stream[..n][j];
        }
      }
      forall i | 0 <= i < |buf| && (forall j: nat :: j < n + 1 ==> Offset(w, off, j) != i)
        ensures r[i] == buf[i]
      {
        assert Offset(w, off, n) != i;
      }
    }
  }

  function Flatten(blocks: seq<seq<int>>): seq<int> {
    if blocks == [] then [] else blocks[0] + Flatten(blocks[1..])
  }

  /** A run of block writes, each at the offset the one before it returned. */
  function WriteBlocks(buf: seq<int>, off: int, blocks: seq<seq<int>>): (seq<int>, int)
    decreases |blocks|
  {
    if blocks == [] then (buf, off)
    else
      var w := Unit(|buf|);
      WriteBlocks(Write(buf, w, off, blocks[0]), Offset(w, off, |blocks[0]|) % OFFSETS, blocks[1..])
  }

  lemma WriteNothing(buf: seq<int>, w: Walk, off: int)
    ensures Write(buf, w, off, []) == buf
  {
  }

  /** Over whole runs only the joined stream matters, not how it was cut into blocks, as long as the
      16 bits can count the ring. */
  lemma {:induction false} RunIsOneStream(buf: seq<int>, off: nat, blocks: seq<seq<int>>)
    requires off < |buf| <= OFFSETS
    ensures var stream := Flatten(blocks);
      WriteBlocks(buf, off, blocks) == (Write(buf, Unit(|buf|), off, stream), (off + |stream|) % |buf|)
    decreases |blocks|
  {
    hide Write, Offset;
    if blocks == [] {
      WriteNothing(buf, Unit(|buf|), off);
      DivUnique(off, 0, off, |buf|);
    } else {
      var w, b, rest := Unit(|buf|), blocks[0], Flatten(blocks[1..]);
      var off' := Offset(w, off, |b|);
      SingleSteps(|buf|, off, |b|);
      DivUnique(off', 0, off', OFFSETS);
      RunIsOneStream(Write(buf, w, off, b), off', blocks[1..]);
      WriteAppend(buf, w, off, b, rest);
      OffsetAdd(w, off, |b|, |rest|);
      SingleSteps(|buf|, off, |b| + |rest|);
      SingleSteps(|buf|, off', |rest|);
    }
  }

  /** A longer ring loses its place: after as many single samples as 16 bits count, the offset is
      back where it was, although the ring is not full. */
  lemma LongRingsRepeat(len: nat, off: nat)
    requires off < OFFSETS && off + OFFSETS < len
    ensures Offset(Unit(len), off, OFFSETS) % OFFSETS == off != Offset(Unit(len), off, OFFSETS)
  {
    hide Offset;
    SingleSteps(len, off, OFFSETS);
    DivUnique(off + OFFSETS, 0, off + OFFSETS, len);
  }

  /** The returned offset is the position in the ring, for every start and block, exactly if 16 bits can
      count the ring. */
  lemma OffsetIsPositionIff(len: nat)
    requires len > 0
    ensures len <= OFFSETS <==>
      forall off: nat, n: nat :: off < len && off < OFFSETS ==>
        Offset(Unit(len), off, n) % OFFSETS == (off + n) % len
  {
    hide Offset;
    if len <= OFFSETS {
      forall off: nat, n: nat | off < len && off < OFFSETS
        ensures Offset(Unit(len), off, n) % OFFSETS == (off + n) % len
      {
        SingleSteps(len, off, n);
        DivMod(off + n, len);
        DivUnique((off + n) % len, 0, (off + n) % len, OFFSETS);
      }
    } else {
      LongRingsRepeat(len, 0);
      SingleSteps(len, 0, OFFSETS);
      assert Offset(Unit(len), 0, OFFSETS) % OFFSETS != (0 + OFFSETS) % len;
    }
  }

  /** Reading from where a block of at most the length was written returns the block. */
  lemma ReadAfterWrite(buf: seq<int>, off: nat, block: seq<int>)
    requires off < |buf| && |block| <= |buf|
    ensures Read(Write(buf, Unit(|buf|), off, block), Unit(|buf|), off, |block|) == block
  {
    hide Offset, Write;
    HoldsLastSamples(buf, off, block);
  }
}
