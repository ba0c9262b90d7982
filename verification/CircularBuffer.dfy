/** `arm_circularWrite_*` and `arm_circularRead_*`.  The Q7, Q15 and word versions differ in
    the element type only, which is a type parameter here.

    A source or destination pointer is an index, and the pointer increments are index
    increments.  The destination of a read wraps when the pointer *equals* the end of the
    destination, the buffer offset when it *reaches* L. */
module CircularBuffer {
  import opened CInt

  /** One update of the buffer offset: a single conditional subtraction. */
  function NextOffset(w: int, L: int, inc: int): int {
    if w + inc >= L then w + inc - L else w + inc
  }

  /** The offset after k updates. */
  function Offset(w: int, L: int, inc: int, k: nat): int {
    if k == 0 then w else NextOffset(Offset(w, L, inc, k - 1), L, inc)
  }

  /** One update of the destination index. */
  function NextDst(d: int, base: int, length: int, inc: int): int {
    if d + inc == base + length then base else d + inc
  }

  function DstIndex(d: int, base: int, length: int, inc: int, k: nat): int {
    if k == 0 then d else NextDst(DstIndex(d, base, length, inc, k - 1), base, length, inc)
  }

  /** The n samples a source pointer visits. */
  function Gathered<T>(src: seq<T>, s: int, inc: int, n: nat): (r: seq<T>)
    requires forall k | 0 <= k < n :: 0 <= s + k * inc < |src|
    ensures |r| == n
    ensures forall k | 0 <= k < n :: r[k] == src[s + k * inc]
  {
    if n == 0 then [] else Gathered(src, s, inc, n - 1) + [src[s + (n - 1) * inc]]
  }

  /** Every offset that n updates visit indexes the buffer. */
  ghost predicate OffsetsInside(w: int, L: int, inc: int, n: nat, size: nat) {
    forall k | 0 <= k < n :: 0 <= Offset(w, L, inc, k) < size
  }

  ghost predicate DstInside(d: int, base: int, length: int, inc: int, n: nat, size: nat) {
    forall k | 0 <= k < n :: 0 <= DstIndex(d, base, length, inc, k) < size
  }

  /** What 32-bit offset arithmetic demands: updates from inside the buffer do not overflow. */
  ghost predicate Fits32(L: int32, inc: int32, size: nat) {
    L >= 0 && size + Abs(inc) < 0x8000_0000
  }

  /** The buffer after the samples have been stored one by one. */
  function Written<T>(buf: seq<T>, w: int, L: int, inc: int, data: seq<T>): (r: seq<T>)
    requires OffsetsInside(w, L, inc, |data|, |buf|)
    ensures |r| == |buf|
  {
    if data == [] then buf
    else
      var n := |data| - 1;
      Written(buf, w, L, inc, data[..n])[Offset(w, L, inc, n) := data[n]]
  }

  /** The destination after n samples of the buffer have been copied to it one by one. */
  function Placed<T>(dst: seq<T>, d: int, base: int, length: int, dstInc: int,
                     buf: seq<T>, r: int, L: int, inc: int, n: nat): (p: seq<T>)
    requires OffsetsInside(r, L, inc, n, |buf|) && DstInside(d, base, length, dstInc, n, |dst|)
    ensures |p| == |dst|
  {
    if n == 0 then dst
    else
      Placed(dst, d, base, length, dstInc, buf, r, L, inc, n - 1)
        [DstIndex(d, base, length, dstInc, n - 1) := buf[Offset(r, L, inc, n - 1)]]
  }

  lemma NextSource(s: int, inc: int, n: nat)
    ensures s + (n + 1) * inc == s + n * inc + inc
  {
  }

  lemma WrittenNext<T>(buf: seq<T>, w: int, L: int, inc: int, data: seq<T>, n: nat)
    requires n < |data| && OffsetsInside(w, L, inc, |data|, |buf|)
    ensures Written(buf, w, L, inc, data[..n + 1])
            == Written(buf, w, L, inc, data[..n])[Offset(w, L, inc, n) := data[n]]
  {
    assert data[..n + 1][..n] == data[..n];
  }

  method CircularWrite<T>(circBuffer: array<T>, L: int32, writeOffset: uint16, bufferInc: int32,
                          src: seq<T>, srcStart: int, srcInc: int32, blockSize: uint32)
    returns (newOffset: uint16)
    requires Fits32(L, bufferInc, circBuffer.Length)
    requires OffsetsInside(writeOffset, L, bufferInc, blockSize, circBuffer.Length)
    requires forall k | 0 <= k < blockSize :: 0 <= srcStart + k * srcInc < |src|
    modifies circBuffer
    ensures circBuffer[..] == Written(old(circBuffer[..]), writeOffset, L, bufferInc,
                                      Gathered(src, srcStart, srcInc, blockSize))
    ensures newOffset == ToUint16(Offset(writeOffset, L, bufferInc, blockSize))
  {
    var wOffset: int32 := writeOffset;
    var s := srcStart;
    ghost var data, before := Gathered(src, srcStart, srcInc, blockSize), circBuffer[..];
    ghost var n: nat := 0;
    var i := blockSize;
    assert data[..0] == [];
    while i > 0
      invariant n + i == blockSize
      invariant s == srcStart + n * srcInc
      invariant wOffset == Offset(writeOffset, L, bufferInc, n)
      invariant circBuffer[..] == Written(before, writeOffset, L, bufferInc, data[..n])
    {
      WrittenNext(before, writeOffset, L, bufferInc, data, n);
      NextSource(srcStart, srcInc, n);
      circBuffer[wOffset] := src[s];
      s := s + srcInc;
      wOffset := wOffset + bufferInc;
      if wOffset >= L {
        wOffset := wOffset - L;
      }
      n := n + 1;
      i := i - 1;
    }
    assert data[..n] == data;
    newOffset := ToUint16(wOffset);
  }

  method CircularRead<T>(circBuffer: array<T>, L: int32, readOffset: int32, bufferInc: int32,
                         dst: array<T>, dstStart: int, dstBase: int, dstLength: int32, dstInc: int32,
                         blockSize: uint32)
    returns (newOffset: int32)
    requires circBuffer != dst && Fits32(L, bufferInc, circBuffer.Length)
    requires OffsetsInside(readOffset, L, bufferInc, blockSize, circBuffer.Length)
    requires DstInside(dstStart, dstBase, dstLength, dstInc, blockSize, dst.Length)
    modifies dst
    ensures dst[..] == Placed(old(dst[..]), dstStart, dstBase, dstLength, dstInc,
                              circBuffer[..], readOffset, L, bufferInc, blockSize)
    ensures newOffset == Offset(readOffset, L, bufferInc, blockSize)
  {
    var rOffset: int32 := readOffset;
    var d := dstStart;
    var dstEnd := dstBase + dstLength;
    ghost var n: nat := 0;
    var i := blockSize;
    while i > 0
      invariant n + i == blockSize
      invariant d == DstIndex(dstStart, dstBase, dstLength, dstInc, n)
      invariant rOffset == Offset(readOffset, L, bufferInc, n)
      invariant dst[..] == Placed(old(dst[..]), dstStart, dstBase, dstLength, dstInc,
                                  circBuffer[..], readOffset, L, bufferInc, n)
    {
      dst[d] := circBuffer[rOffset];
      d := d + dstInc;
      if d == dstEnd {
        d := dstBase;
      }
      rOffset := rOffset + bufferInc;
      if rOffset >= L {
        rOffset := rOffset - L;
      }
      n := n + 1;
      i := i - 1;
    }
    newOffset := rOffset;
  }

  // ---- Offsets ----

  /** The update keeps every offset inside the buffer for exactly the increments 0..L: the
      subtraction catches one overrun, and nothing catches a negative offset. */
  lemma UpdateKeepsRange(L: int, inc: int)
    requires L >= 1
    ensures (forall w | 0 <= w < L :: 0 <= NextOffset(w, L, inc) < L) <==> 0 <= inc <= L
  {
    if inc > L {
      assert NextOffset(L - 1, L, inc) >= L;
    } else if inc < 0 {
      assert NextOffset(0, L, inc) < 0;
    }
  }

  /** The caller's 16-bit offset variable carries every offset of buffers up to 2^16 samples,
      and of no longer ones. */
  lemma OffsetVariableFits(L: int)
    requires L >= 1
    ensures (forall w | 0 <= w < L :: ToUint16(w) == w) <==> L <= 0x1_0000
  {
    if L > 0x1_0000 {
      assert ToUint16(L - 1) != L - 1;
    }
  }

  lemma {:induction false} OffsetInRange(w: int, L: int, inc: int, k: nat)
    requires 0 <= w < L && 0 <= inc <= L
    ensures 0 <= Offset(w, L, inc, k) < L
  {
    if k == 0 {
    } else {
      OffsetInRange(w, L, inc, k - 1);
    }
  }

  lemma AllOffsetsInside(w: int, L: int, inc: int, n: nat, size: nat)
    requires 0 <= w < L <= size && 0 <= inc <= L
    ensures OffsetsInside(w, L, inc, n, size)
  {
    forall k | 0 <= k < n ensures 0 <= Offset(w, L, inc, k) < size {
      OffsetInRange(w, L, inc, k);
    }
  }

  /** The repeated conditional subtraction is reduction modulo L. */
  lemma {:induction false} OffsetIsModulo(w: int, L: int, inc: int, k: nat)
    requires 0 <= w < L && 0 <= inc <= L
    ensures Offset(w, L, inc, k) == (w + k * inc) % L
  {
    if k > 0 {
      OffsetIsModulo(w, L, inc, k - 1);
      ModuloStep(w + (k - 1) * inc, L, inc);
    } else {
      DivModUnique(w, L, 0, w);
    }
  }

  lemma ModuloStep(x: int, L: int, inc: int)
    requires L > 0 && 0 <= inc <= L
    ensures (x + inc) % L == NextOffset(x % L, L, inc)
  {
    var q, o := x / L, NextOffset(x % L, L, inc);
    DivModUnique(x + inc, L, if x % L + inc >= L then q + 1 else q, o);
  }

  /** With a positive stride that divides the destination, and a start on a multiple of the
      stride, the destination index cycles through the slots. */
  lemma {:induction false} DstIndexIsModulo(base: int, inc: int, slots: nat, j: nat, k: nat)
    requires inc > 0 && j < slots
    ensures DstIndex(base + inc * j, base, inc * slots, inc, k) == base + inc * ((j + k) % slots)
  {
    if k > 0 {
      DstIndexIsModulo(base, inc, slots, j, k - 1);
      ModuloStep(j + k - 1, slots, 1);
      SlotStep(base, inc, slots, (j + k - 1) % slots);
    } else {
      DivModUnique(j, slots, 0, j);
    }
  }

  lemma SlotStep(base: int, inc: int, slots: nat, m: nat)
    requires inc > 0 && m < slots
    ensures NextDst(base + inc * m, base, inc * slots, inc) == base + inc * NextOffset(m, slots, 1)
  {
    MulAdd(inc, m, 1);
    if m + 1 < slots {
      MulLe(m + 2, slots, inc);
    }
  }

  // ---- The delay line ----

  /** The samples in the order in which they leave the buffer. */
  function History<T>(buf: seq<T>, L: nat, w: nat): (h: seq<T>)
    requires w < L <= |buf|
    ensures |h| == L
  {
    buf[w..L] + buf[..w]
  }

  /** A written block pushes out as many old samples as it has new ones, whatever its size. */
  lemma {:induction false} BlockShiftsHistory<T>(buf: seq<T>, w: nat, L: nat, data: seq<T>)
    requires w < L <= |buf|
    ensures OffsetsInside(w, L, 1, |data|, |buf|) && 0 <= Offset(w, L, 1, |data|) < L
    ensures History(Written(buf, w, L, 1, data), L, Offset(w, L, 1, |data|))
            == (History(buf, L, w) + data)[|data|..]
    ensures Written(buf, w, L, 1, data)[L..] == buf[L..]
    decreases |data|
  {
    AllOffsetsInside(w, L, 1, |data|, |buf|);
    OffsetInRange(w, L, 1, |data|);
    if data == [] {
      assert History(buf, L, w) + data == History(buf, L, w);
    } else {
      var n := |data| - 1;
      BlockShiftsHistory(buf, w, L, data[..n]);
      OffsetInRange(w, L, 1, n);
      SampleShiftsHistory(Written(buf, w, L, 1, data[..n]), Offset(w, L, 1, n), L, data[n]);
      ShiftNext(History(buf, L, w), data);
    }
  }

  lemma ShiftNext<T>(h: seq<T>, data: seq<T>)
    requires h != [] && data != []
    ensures var n := |data| - 1; (h + data[..n])[n..][1..] + [data[n]] == (h + data)[|data|..]
  {
  }

  lemma SampleShiftsHistory<T>(buf: seq<T>, w: nat, L: nat, x: T)
    requires w < L <= |buf|
    ensures History(buf[w := x], L, NextOffset(w, L, 1)) == History(buf, L, w)[1..] + [x]
    ensures buf[w := x][L..] == buf[L..]
  {
  }

  /** A buffer together with the caller's offset variable. */
  datatype Line<T> = Line(buf: seq<T>, offset: uint16)

  /** One call of the write function with increment 1. */
  function WriteBlock<T>(line: Line<T>, L: nat, data: seq<T>): (r: Line<T>)
    requires line.offset < L <= |line.buf|
    ensures |r.buf| == |line.buf|
  {
    AllOffsetsInside(line.offset, L, 1, |data|, |line.buf|);
    Line(Written(line.buf, line.offset, L, 1, data), ToUint16(Offset(line.offset, L, 1, |data|)))
  }

  function Flatten<T>(blocks: seq<seq<T>>): seq<T> {
    if blocks == [] then [] else Flatten(blocks[..|blocks| - 1]) + blocks[|blocks| - 1]
  }

  /** A run of write calls.  The offset variable is 16 bits wide, which a buffer of up to
      2^16 samples fits. */
  function WriteBlocks<T>(line: Line<T>, L: nat, blocks: seq<seq<T>>): (r: Line<T>)
    requires line.offset < L <= |line.buf| && L <= 0x1_0000
    ensures |r.buf| == |line.buf| && r.offset < L
  {
    if blocks == [] then line
    else
      var before := WriteBlocks(line, L, blocks[..|blocks| - 1]);
      var data := blocks[|blocks| - 1];
      OffsetInRange(before.offset, L, 1, |data|);
      WriteBlock(before, L, data)
  }

  /** Over any run of block writes, of any sizes, the buffer is a delay line: it holds the
      last L samples of its initial contents followed by the whole stream. */
  lemma {:induction false} DelayLine<T>(line: Line<T>, L: nat, blocks: seq<seq<T>>)
    requires line.offset < L <= |line.buf| && L <= 0x1_0000
    ensures var after, stream := WriteBlocks(line, L, blocks), Flatten(blocks);
            && History(after.buf, L, after.offset) == (History(line.buf, L, line.offset) + stream)[|stream|..]
            && after.buf[L..] == line.buf[L..]
  {
    var h := History(line.buf, L, line.offset);
    if blocks == [] {
      assert h + [] == h;
    } else {
      var n := |blocks| - 1;
      DelayLine(line, L, blocks[..n]);
      var before := WriteBlocks(line, L, blocks[..n]);
      WriteBlockShifts(before, L, blocks[n]);
      ShiftTwice(h, Flatten(blocks[..n]), blocks[n]);
    }
  }

  lemma WriteBlockShifts<T>(line: Line<T>, L: nat, data: seq<T>)
    requires line.offset < L <= |line.buf| && L <= 0x1_0000
    ensures var after := WriteBlock(line, L, data);
            && after.offset < L
            && History(after.buf, L, after.offset) == (History(line.buf, L, line.offset) + data)[|data|..]
            && after.buf[L..] == line.buf[L..]
  {
    BlockShiftsHistory(line.buf, line.offset, L, data);
  }

  /** Once the stream is longer than the buffer nothing of the initial contents is left. */
  lemma DelayLineFull<T>(line: Line<T>, L: nat, blocks: seq<seq<T>>)
    requires line.offset < L <= |line.buf| && L <= 0x1_0000 && |Flatten(blocks)| >= L
    ensures var after, stream := WriteBlocks(line, L, blocks), Flatten(blocks);
            History(after.buf, L, after.offset) == stream[|stream| - L..]
  {
    DelayLine(line, L, blocks);
    var stream := Flatten(blocks);
    assert (History(line.buf, L, line.offset) + stream)[|stream|..] == stream[|stream| - L..];
  }

  lemma ShiftTwice<T>(h: seq<T>, a: seq<T>, b: seq<T>)
    ensures ((h + a)[|a|..] + b)[|b|..] == (h + (a + b))[|a + b|..]
  {
    assert h + (a + b) == (h + a) + b;
    assert |a + b| == |a| + |b|;
  }

  // ---- Reading back ----

  /** Stepping through the buffer from the write offset visits the history in order. */
  lemma HistoryAt<T>(buf: seq<T>, L: nat, w: nat, k: nat)
    requires w < L <= |buf| && k < L
    ensures 0 <= Offset(w, L, 1, k) < L && buf[Offset(w, L, 1, k)] == History(buf, L, w)[k]
  {
    OffsetIsModulo(w, L, 1, k);
    if w + k < L {
      DivModUnique(w + k, L, 0, w + k);
    } else {
      DivModUnique(w + k, L, 1, w + k - L);
    }
  }

  ghost predicate OffsetsDistinct(w: int, L: int, inc: int, n: nat) {
    forall i, k | 0 <= i < k < n :: Offset(w, L, inc, i) != Offset(w, L, inc, k)
  }

  ghost predicate DstDistinct(d: int, base: int, length: int, inc: int, n: nat) {
    forall i, k | 0 <= i < k < n :: DstIndex(d, base, length, inc, i) != DstIndex(d, base, length, inc, k)
  }

  lemma ResiduesDiffer(x: int, m: int, j: int, k: int)
    requires m > 0 && j < k < j + m
    ensures (x + j) % m != (x + k) % m
  {
    var q, q' := (x + j) / m, (x + k) / m;
    assert (q' - q) * m == k - j + (x + j) % m - (x + k) % m;
    NoMultipleBetween(q' - q, m, k - j);
  }

  lemma NoMultipleBetween(e: int, m: int, t: int)
    requires 0 < t < m
    ensures e * m != t
  {
    assert e >= 1 ==> e * m >= m;
    assert e <= 0 ==> e * m <= 0;
  }

  /** Up to L single steps never return to an offset. */
  lemma UnitOffsetsDistinct(w: int, L: int, n: nat)
    requires 0 <= w < L && n <= L
    ensures OffsetsDistinct(w, L, 1, n)
  {
    forall i, k | 0 <= i < k < n ensures Offset(w, L, 1, i) != Offset(w, L, 1, k) {
      OffsetIsModulo(w, L, 1, i);
      OffsetIsModulo(w, L, 1, k);
      ResiduesDiffer(w, L, i, k);
    }
  }

  /** Nor do as many strides as the destination has slots. */
  lemma StridesDistinct(d: int, base: int, length: int, inc: int, slots: nat, j: nat, n: nat)
    requires inc > 0 && j < slots && n <= slots && d == base + inc * j && length == inc * slots
    ensures DstDistinct(d, base, length, inc, n)
    ensures forall k | 0 <= k < n :: base <= DstIndex(d, base, length, inc, k) < base + length
  {
    forall k | 0 <= k < n ensures base <= DstIndex(d, base, length, inc, k) < base + length {
      StrideInside(d, base, length, inc, slots, j, k);
    }
    forall i, k | 0 <= i < k < n
      ensures DstIndex(d, base, length, inc, i) != DstIndex(d, base, length, inc, k)
    {
      StridePair(d, base, length, inc, slots, j, i, k);
    }
  }

  lemma StrideInside(d: int, base: int, length: int, inc: int, slots: nat, j: nat, k: nat)
    requires inc > 0 && j < slots && d == base + inc * j && length == inc * slots
    ensures base <= DstIndex(d, base, length, inc, k) < base + length
  {
    DstIndexIsModulo(base, inc, slots, j, k);
    MulLe((j + k) % slots + 1, slots, inc);
    MulLe(0, (j + k) % slots, inc);
  }

  lemma StridePair(d: int, base: int, length: int, inc: int, slots: nat, j: nat, i: nat, k: nat)
    requires inc > 0 && j < slots && d == base + inc * j && length == inc * slots
    requires i < k < i + slots
    ensures DstIndex(d, base, length, inc, i) != DstIndex(d, base, length, inc, k)
  {
    DstIndexIsModulo(base, inc, slots, j, i);
    DstIndexIsModulo(base, inc, slots, j, k);
    ResiduesDiffer(j, slots, i, k);
    SlotsDiffer(inc, (j + i) % slots, (j + k) % slots);
  }

  lemma SlotsDiffer(inc: int, a: int, b: int)
    requires inc > 0 && a != b
    ensures inc * a != inc * b
  {
    MulSub(inc, a, b);
  }

  /** Samples written to distinct offsets are all still there. */
  lemma {:induction false} WrittenAt<T>(buf: seq<T>, w: int, L: int, inc: int, data: seq<T>, k: nat)
    requires OffsetsInside(w, L, inc, |data|, |buf|) && OffsetsDistinct(w, L, inc, |data|)
    requires k < |data|
    ensures Written(buf, w, L, inc, data)[Offset(w, L, inc, k)] == data[k]
    decreases |data|
  {
    if k == |data| - 1 {
    } else {
      WrittenAt(buf, w, L, inc, data[..|data| - 1], k);
    }
  }

  /** Samples read to distinct places are all still there ... */
  lemma {:induction false} PlacedAt<T>(dst: seq<T>, d: int, base: int, length: int, dstInc: int,
                                       buf: seq<T>, r: int, L: int, inc: int, n: nat, k: nat)
    requires OffsetsInside(r, L, inc, n, |buf|) && DstInside(d, base, length, dstInc, n, |dst|)
    requires DstDistinct(d, base, length, dstInc, n) && k < n
    ensures Placed(dst, d, base, length, dstInc, buf, r, L, inc, n)[DstIndex(d, base, length, dstInc, k)]
            == buf[Offset(r, L, inc, k)]
  {
    if k == n - 1 {
    } else {
      PlacedAt(dst, d, base, length, dstInc, buf, r, L, inc, n - 1, k);
    }
  }

  /** ... and nothing else changes. */
  lemma {:induction false} PlacedElsewhere<T>(dst: seq<T>, d: int, base: int, length: int, dstInc: int,
                                              buf: seq<T>, r: int, L: int, inc: int, n: nat, p: nat)
    requires OffsetsInside(r, L, inc, n, |buf|) && DstInside(d, base, length, dstInc, n, |dst|)
    requires p < |dst| && forall k | 0 <= k < n :: DstIndex(d, base, length, dstInc, k) != p
    ensures Placed(dst, d, base, length, dstInc, buf, r, L, inc, n)[p] == dst[p]
  {
    if n == 0 {
    } else {
      PlacedElsewhere(dst, d, base, length, dstInc, buf, r, L, inc, n - 1, p);
    }
  }

  /** A read from the write offset after any run of writes returns the delay line: sample k,
      placed in slot (j + k) mod slots of a destination that may wrap on the way, is sample k
      of the last L samples of the initial history and the stream. */
  lemma ReadReturnsDelayLine<T>(line: Line<T>, L: nat, blocks: seq<seq<T>>, dst: seq<T>, d: int, base: nat,
                                length: int, inc: int, slots: nat, j: nat, n: nat, k: nat)
    requires line.offset < L <= |line.buf| && L <= 0x1_0000 && k < n <= L
    requires inc > 0 && j < slots && d == base + inc * j && length == inc * slots
    requires n <= slots && base + length <= |dst|
    ensures var after, stream := WriteBlocks(line, L, blocks), Flatten(blocks);
            && OffsetsInside(after.offset, L, 1, n, |after.buf|) && DstInside(d, base, length, inc, n, |dst|)
            && DstIndex(d, base, length, inc, k) == base + inc * ((j + k) % slots)
            && Placed(dst, d, base, length, inc, after.buf, after.offset, L, 1, n)
                     [DstIndex(d, base, length, inc, k)]
               == (History(line.buf, L, line.offset) + stream)[|stream| + k]
  {
    var after := WriteBlocks(line, L, blocks);
    AllOffsetsInside(after.offset, L, 1, n, |after.buf|);
    StridesDistinct(d, base, length, inc, slots, j, n);
    DstIndexIsModulo(base, inc, slots, j, k);
    PlacedAt(dst, d, base, length, inc, after.buf, after.offset, L, 1, n, k);
    HistoryAt(after.buf, L, after.offset, k);
    DelayLine(line, L, blocks);
  }

  /** Reading up to L samples from the offset at which they were written, into a destination
      with as many slots, returns them in order, also when the destination wraps on the way:
      sample k is in slot (j + k) mod slots. */
  lemma ReadReturnsWritten<T>(buf: seq<T>, w: int, L: int, data: seq<T>,
                              dst: seq<T>, d: int, base: nat, length: int, inc: int, slots: nat, j: nat, k: nat)
    requires 0 <= w < L <= |buf| && k < |data| <= L
    requires inc > 0 && j < slots && d == base + inc * j && length == inc * slots
    requires |data| <= slots && base + length <= |dst|
    ensures OffsetsInside(w, L, 1, |data|, |buf|) && DstInside(d, base, length, inc, |data|, |dst|)
    ensures DstIndex(d, base, length, inc, k) == base + inc * ((j + k) % slots)
    ensures Placed(dst, d, base, length, inc, Written(buf, w, L, 1, data), w, L, 1, |data|)
                  [DstIndex(d, base, length, inc, k)] == data[k]
  {
    AllOffsetsInside(w, L, 1, |data|, |buf|);
    UnitOffsetsDistinct(w, L, |data|);
    StridesDistinct(d, base, length, inc, slots, j, |data|);
    DstIndexIsModulo(base, inc, slots, j, k);
    WrittenAt(buf, w, L, 1, data, k);
    PlacedAt(dst, d, base, length, inc, Written(buf, w, L, 1, data), w, L, 1, |data|, k);
  }
}
