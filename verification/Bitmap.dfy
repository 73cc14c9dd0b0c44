/** Bits in bitmaps (bitmap.c) and the count of free ones (attrib.c). */
module Bitmap {

  // ----- Bits of a byte -----

  /** The byte with only bit `i` set. */
  function Mask(i: nat): bv8
    requires i < 8
  {
    if i == 0 then 1 else if i == 1 then 2 else if i == 2 then 4 else if i == 3 then 8
    else if i == 4 then 16 else if i == 5 then 32 else if i == 6 then 64 else 128
  }

  predicate GetBit(x: bv8, i: nat)
    requires i < 8
  {
    x & Mask(i) != 0
  }

  function PutBit(x: bv8, i: nat, v: bool): bv8
    requires i < 8
  {
    if v then x | Mask(i) else x & !Mask(i)
  }

  /** `ntfs_bit_get` shifts the wanted bit down instead of masking it. */
  lemma ShiftedBit(x: bv8, i: nat)
    requires i < 8
    ensures GetBit(x, i) <==> (x >> i) & 1 == 1
    ensures Mask(i) == 1 << i
  {
    if i == 0 {} else if i == 1 {} else if i == 2 {} else if i == 3 {}
    else if i == 4 {} else if i == 5 {} else if i == 6 {} else {}
  }

  lemma PutGet(x: bv8, i: nat, v: bool, j: nat)
    requires i < 8 && j < 8
    ensures GetBit(PutBit(x, i, v), j) == if i == j then v else GetBit(x, j)
  {
    if i == j {
      SameMask(x, Mask(i));
    } else {
      MaskDisjoint(i, j);
      Disjoint(x, Mask(i), Mask(j));
    }
  }

  lemma SameMask(x: bv8, m: bv8)
    ensures (x | m) & m == m && (x & !m) & m == 0
  {
  }

  lemma MaskDisjoint(i: nat, j: nat)
    requires i < 8 && j < 8 && i != j
    ensures Mask(i) & Mask(j) == 0
  {
  }

  lemma Disjoint(x: bv8, m: bv8, k: bv8)
    requires m & k == 0
    ensures (x | m) & k == x & k && (x & !m) & k == x & k
  {
  }

  lemma FullByte(j: nat)
    requires j < 8
    ensures GetBit(0xff, j) && !GetBit(0, j)
  {
  }

  /** A byte is its bits. */
  lemma ByteExt(x: bv8, y: bv8)
    requires forall j: nat | j < 8 :: GetBit(x, j) == GetBit(y, j)
    ensures x == y
  {
    assert GetBit(x, 0) == GetBit(y, 0) && GetBit(x, 1) == GetBit(y, 1) && GetBit(x, 2) == GetBit(y, 2)
      && GetBit(x, 3) == GetBit(y, 3);
    assert GetBit(x, 4) == GetBit(y, 4) && GetBit(x, 5) == GetBit(y, 5) && GetBit(x, 6) == GetBit(y, 6)
      && GetBit(x, 7) == GetBit(y, 7);
  }

  /** `ntfs_bit_get_and_set`: flips the bit when it differs from the wanted value. */
  method BitGetAndSet(x: bv8, i: nat, v: bool) returns (x': bv8, was: bool)
    requires i < 8
    ensures was == GetBit(x, i) && x' == PutBit(x, i, v)
  {
    was := (x >> i) & 1 == 1;
    ShiftedBit(x, i);
    x' := x;
    if v != was {
      x' := x ^ (1 << i);
    }
    FlipBit(x, i);
  }

  lemma FlipBit(x: bv8, i: nat)
    requires i < 8
    ensures x ^ Mask(i) == PutBit(x, i, !GetBit(x, i)) && x == PutBit(x, i, GetBit(x, i))
  {
  }

  // ----- Bits of a bitmap -----

  predicate BitAt(d: seq<bv8>, k: nat)
    requires k < 8 * |d|
  {
    GetBit(d[k / 8], k % 8)
  }

  /** Exactly the bits [lo, hi) of `d` became `v`. */
  ghost predicate RunSet(d: seq<bv8>, d': seq<bv8>, lo: int, hi: int, v: bool) {
    && |d'| == |d|
    && forall k: nat | k < 8 * |d| :: BitAt(d', k) == if lo <= k < hi then v else BitAt(d, k)
  }

  /** One byte of it, the first bit of which is bit number `base`. */
  ghost predicate ByteSet(x: bv8, x': bv8, base: int, lo: int, hi: int, v: bool) {
    forall j: nat | j < 8 :: GetBit(x', j) == if lo <= base + j < hi then v else GetBit(x, j)
  }

  lemma BytesSetRun(d: seq<bv8>, d': seq<bv8>, lo: int, hi: int, v: bool)
    requires |d'| == |d| && forall i | 0 <= i < |d| :: ByteSet(d[i], d'[i], 8 * i, lo, hi, v)
    ensures RunSet(d, d', lo, hi, v)
  {
    forall k: nat | k < 8 * |d| ensures BitAt(d', k) == if lo <= k < hi then v else BitAt(d, k) {
      assert ByteSet(d[k / 8], d'[k / 8], 8 * (k / 8), lo, hi, v);
    }
  }

  /** A byte outside the run stays, a byte inside it is all ones or all zeros. */
  lemma ByteOutside(x: bv8, base: int, lo: int, hi: int, v: bool)
    requires base + 8 <= lo || hi <= base
    ensures ByteSet(x, x, base, lo, hi, v)
  {
  }

  function Filler(v: bool): bv8 {
    if v then 0xff else 0
  }

  lemma ByteInside(x: bv8, base: int, lo: int, hi: int, v: bool)
    requires lo <= base && base + 8 <= hi
    ensures ByteSet(x, Filler(v), base, lo, hi, v)
  {
    forall j: nat | j < 8 ensures GetBit(Filler(v), j) == v {
      FullByte(j);
    }
  }

  /** The loop over a partial first byte: from `bit` up to the end of the byte or of the run; `count`
      is one too low when the run ends before the byte does. */
  method FirstByte(x: bv8, bit0: nat, count0: nat, v: bool) returns (x': bv8, count: int)
    requires 0 < bit0 < 8
    ensures ByteSet(x, x', 0, bit0, bit0 + count0, v)
    ensures count == if count0 >= 8 - bit0 then count0 - (8 - bit0) else -1
  {
    x' := x;
    var bit := bit0;
    count := count0;
    while true
      invariant bit0 <= bit <= 8 && count == count0 - (bit - bit0) >= 0
      invariant ByteSet(x, x', 0, bit0, bit, v)
      decreases 8 - bit
    {
      if bit % 8 == 0 {
        break;
      }
      count := count - 1;
      if count + 1 == 0 {
        break;
      }
      forall j: nat | j < 8 ensures GetBit(PutBit(x', bit, v), j) == if bit0 <= j < bit + 1 then v else GetBit(x, j) {
        PutGet(x', bit, v, j);
      }
      x' := PutBit(x', bit, v);
      bit := bit + 1;
    }
  }

  /** The loop over a partial last byte, from its highest bit in the run down to bit zero. */
  method LastByte(x: bv8, bit0: nat, count0: nat, v: bool) returns (x': bv8, count: int)
    requires bit0 < 8 && bit0 <= count0
    ensures ByteSet(x, x', 0, 0, bit0, v)
    ensures count == count0 - bit0
  {
    x' := x;
    var bit := bit0;
    count := count0;
    while bit != 0
      invariant 0 <= bit <= bit0 && count == count0 - (bit0 - bit)
      invariant ByteSet(x, x', 0, bit, bit0, v)
    {
      count := count - 1;
      bit := bit - 1;
      forall j: nat | j < 8 ensures GetBit(PutBit(x', bit, v), j) == if bit <= j < bit0 then v else GetBit(x, j) {
        PutGet(x', bit, v, j);
      }
      x' := PutBit(x', bit, v);
    }
  }

  // ----- Setting a run through a window -----

  const WINDOW := 8192
  const TWO_31 := 0x8000_0000
  const TWO_32 := 0x1_0000_0000

  /** Assignment to a C `int`, which keeps the value modulo 2^32. */
  function Int32(x: int): (r: int)
    ensures -TWO_31 <= r < TWO_31 && (-TWO_31 <= x < TWO_31 ==> r == x)
    decreases if -TWO_31 <= x < TWO_31 then 0 else if x < 0 then -x else x
  {
    if x >= TWO_31 then Int32(x - TWO_32) else if x < -TWO_31 then Int32(x + TWO_32) else x
  }

  lemma {:induction false} Int32Shift(x: nat, k: nat)
    ensures Int32(x + k * TWO_32) == Int32(x)
  {
    if k > 0 {
      assert x + k * TWO_32 - TWO_32 == x + (k - 1) * TWO_32;
      Int32Shift(x, k - 1);
    }
  }

  lemma {:induction false} Int32Next(x: nat)
    ensures Int32(x + 1) == if Int32(x) == TWO_31 - 1 then -TWO_31 else Int32(x) + 1
  {
    if x >= TWO_32 {
      Int32Next(x - TWO_32);
    }
  }

  lemma {:induction false} Int32Whole(x: nat)
    requires Int32(x) >= 0
    ensures 0 <= x - Int32(x) && Int32(x - Int32(x)) == 0
  {
    if x >= TWO_32 {
      Int32Whole(x - TWO_32);
      assert x - Int32(x) == x - TWO_32 - Int32(x - TWO_32) + TWO_32;
      Int32Shift(x - TWO_32 - Int32(x - TWO_32), 1);
    }
  }

  /** A position less than 2^32 past a multiple of 2^32. */
  lemma Int32At(w: int, off: int)
    requires off % TWO_32 == 0 && 0 <= off <= w < off + TWO_32
    ensures Int32(w) == if w - off < TWO_31 then w - off else w - off - TWO_32
  {
    Int32Shift(w - off, off / TWO_32);
  }

  function Max0(x: int): nat {
    if x < 0 then 0 else x
  }

  /** Bytes still to be written when `count` bits remain after the `first` partial byte. */
  function BytesLeft(count: int, first: nat): nat {
    (Max0(count) + 7) / 8 + first
  }

  /** The byte at which the last window starts. */
  function LastStart(w: int, bytes: nat): int {
    if bytes == 0 then w else w + (bytes - 1) / WINDOW * WINDOW
  }

  lemma LastStartBound(w: int, bytes: nat)
    ensures w <= LastStart(w, bytes) && w + bytes - WINDOW <= LastStart(w, bytes)
  {
  }

  lemma LastStartNext(w: int, bytes: nat)
    ensures bytes <= WINDOW ==> LastStart(w, bytes) == w
    ensures bytes > WINDOW ==> LastStart(w + WINDOW, bytes - WINDOW) == LastStart(w, bytes)
  {
    if bytes > WINDOW {
      assert (bytes - 1 - WINDOW) / WINDOW == (bytes - 1) / WINDOW - 1;
    }
  }

  /** The counters at the head of the window loop.  `w` is the byte the window starts at and `start`
      the first bit after the partial first byte, if there is one. */
  ghost predicate Counters(n: nat, w: int, first: nat, size: int, start: int, count: int, lo: int, hi: int) {
    && 0 <= w && first <= 1 && start == 8 * (w + first)
    && lo <= start && (first == 0 || 8 * w <= lo)
    && (if count > 0 then start + count == hi else hi <= start)
    && first <= size <= BytesLeft(count, first) && size <= WINDOW && (size < BytesLeft(count, first) ==> size == WINDOW)
    && w + BytesLeft(count, first) <= n
  }

  /** Byte `i` of the result stands `off` bytes below its place. */
  ghost predicate ResultByte(d0: seq<bv8>, d: seq<bv8>, i: int, off: int, lo: int, hi: int, v: bool) {
    0 <= off <= i < |d0| == |d| && ByteSet(d0[i], d[i - off], 8 * i, lo, hi, v)
  }

  /** The bytes of the result from `w0` up to `w` stand `off` bytes below their place, and nothing else has
      changed. */
  ghost predicate DoneUpTo(d0: seq<bv8>, d: seq<bv8>, w0: int, w: int, off: int, lo: int, hi: int, v: bool) {
    && |d| == |d0| && 0 <= off <= w0 <= w <= |d|
    && (forall i {:trigger ResultByte(d0, d, i, off, lo, hi, v)} | w0 <= i < w :: ResultByte(d0, d, i, off, lo, hi, v))
    && (forall i | 0 <= i < |d| && !(w0 - off <= i < w - off) :: d[i] == d0[i])
  }

  /** The buffer holds the partial first byte, if there is one, and filler after it. */
  ghost predicate Buffered(d0: seq<bv8>, buf: seq<bv8>, w: int, first: nat, size: int, lo: int, hi: int, v: bool) {
    && 0 <= size <= |buf|
    && (first == 1 ==> 0 <= w < |d0| && 1 <= size && ByteSet(d0[w], buf[0], 8 * w, lo, hi, v))
    && (forall j | first <= j < size :: buf[j] == Filler(v))
  }

  function FirstOf(lo: nat): nat {
    if lo % 8 != 0 then 1 else 0
  }

  /** The size of the buffer: the bytes of the run, at most a window. */
  function SizeOf(lo: nat, count: nat): (size: nat)
    ensures FirstOf(lo) <= size <= WINDOW
  {
    var size := (count - (if lo % 8 != 0 then 8 - lo % 8 else 0) + 7) / 8 + FirstOf(lo);
    if size > WINDOW then WINDOW else size
  }

  /** The counters on entry, after a partial first byte has been dealt with. */
  lemma InitialCounters(n: nat, lo: nat, count: nat)
    requires lo + count <= 8 * n
    ensures var bit := lo % 8;
            var rest := if bit == 0 then count else if count >= 8 - bit then count - (8 - bit) else -1;
            && (bit != 0 ==> lo / 8 < n)
            && Counters(n, lo / 8, FirstOf(lo), SizeOf(lo, count), if bit == 0 then lo else (lo + 7) / 8 * 8, rest, lo,
              lo + count)
  {
    var bit := lo % 8;
    if bit != 0 {
      assert (lo + 7) / 8 == lo / 8 + 1;
    }
  }

  /** The last partial byte is in this window. */
  predicate LastHere(first: nat, size: int, count: int) {
    count > 0 && count % 8 != 0 && BytesLeft(count, first) <= size
  }

  /** What the prepared window holds for byte `w + j`: the first byte, a byte inside the run, or the
      last partial byte. */
  lemma PreparedByte(d0: seq<bv8>, buf: seq<bv8>, w: int, first: nat, size: int, start: int, count: int,
                     lo: int, hi: int, v: bool, last: bv8, j: int)
    requires Counters(|d0|, w, first, size, start, count, lo, hi) && Buffered(d0, buf, w, first, size, lo, hi, v)
    requires 0 <= j < size
    requires LastHere(first, size, count) ==> ByteSet(d0[w + size - 1], last, 0, 0, count % 8, v)
    ensures ByteSet(d0[w + j], if j == size - 1
            && LastHere(first, size, count) then last else buf[j], 8 * (w + j), lo, hi, v)
  {
    if j == size - 1 && LastHere(first, size, count) {
      assert hi - 8 * (w + j) == count % 8;
      forall k: nat | k < 8 ensures GetBit(last, k) == if lo <= 8 * (w + j) + k < hi then v else GetBit(d0[w + j], k) {
      }
    } else if j >= first {
      ByteInside(d0[w + j], 8 * (w + j), lo, hi, v);
    }
  }

  /** The window with the last byte in it is the last one: the count comes out as zero. */
  lemma LastWindow(n: nat, w: int, first: nat, size: int, start: int, count: int, lo: int, hi: int)
    requires Counters(n, w, first, size, start, count, lo, hi) && LastHere(first, size, count)
    ensures size == BytesLeft(count, first) > first && (start + count) / 8 == w + size - 1
    ensures count - count % 8 - 8 * (size - first - 1) == 0
    ensures hi <= 8 * (w + size)
  {
  }

  lemma OtherWindow(n: nat, w: int, first: nat, size: int, start: int, count: int, lo: int, hi: int)
    requires Counters(n, w, first, size, start, count, lo, hi) && !LastHere(first, size, count)
    ensures var t := 8 * (size - first); var c, b := count - t, (count - t + 7) / 8;
            && (c <= 0 ==> hi <= 8 * (w + size))
            && (c > 0 ==> Counters(n, w + size, 0, if size > b then b else size, start + t, c, lo, hi)
                          && t > 0 && c % 8 == count % 8)
  {
    var t := 8 * (size - first);
    var c := count - t;
    assert c % 8 == count % 8;
    if c > 0 {
      assert (count + 7) / 8 == (c + 7) / 8 + (size - first);
    }
  }

  /** The bytes `b` are those of the result from byte `w` on. */
  ghost predicate Prepared(d0: seq<bv8>, b: seq<bv8>, w: int, lo: int, hi: int, v: bool) {
    && 0 <= w && w + |b| <= |d0|
    && forall j | 0 <= j < |b| :: ByteSet(d0[w + j], b[j], 8 * (w + j), lo, hi, v)
  }

  function Stored(d: seq<bv8>, pos: int, c: seq<bv8>): seq<bv8> {
    if 0 <= pos && pos + |c| <= |d| then d[..pos] + c + d[pos + |c|..] else d
  }

  /** Writing the prepared window moves the boundary between done and untouched bytes. */
  lemma WindowWritten(d0: seq<bv8>, d: seq<bv8>, b: seq<bv8>, d': seq<bv8>, w0: int, w: int, off: int, lo: int, hi: int,
                      v: bool)
    requires DoneUpTo(d0, d, w0, w, off, lo, hi, v) && Prepared(d0, b, w, lo, hi, v)
    requires d' == Stored(d, w - off, b)
    ensures DoneUpTo(d0, d', w0, w + |b|, off, lo, hi, v)
  {
    forall i | w0 <= i < w + |b| ensures ResultByte(d0, d', i, off, lo, hi, v) {
      if i < w {
        assert ResultByte(d0, d, i, off, lo, hi, v);
      } else {
        assert ByteSet(d0[w + (i - w)], b[i - w], 8 * (w + (i - w)), lo, hi, v);
      }
    }
  }

  lemma AllDone(d0: seq<bv8>, d: seq<bv8>, w0: int, n: int, lo: int, hi: int, v: bool)
    requires DoneUpTo(d0, d, w0, n, 0, lo, hi, v) && hi <= 8 * n && 8 * w0 <= lo
    ensures RunSet(d0, d, lo, hi, v)
  {
    forall i | 0 <= i < |d| ensures ByteSet(d0[i], d[i], 8 * i, lo, hi, v) {
      if i >= n || i < w0 {
        ByteOutside(d0[i], 8 * i, lo, hi, v);
      } else {
        assert ResultByte(d0, d, i, 0, lo, hi, v);
      }
    }
    BytesSetRun(d0, d, lo, hi, v);
  }

  /** With its first byte reset, the buffer is filler throughout. */
  lemma NextBuffered(d0: seq<bv8>, b: seq<bv8>, w: int, first: nat, size: int, w': int, size': int, lo: int, hi: int,
                     v: bool)
    requires Buffered(d0, b, w, first, size, lo, hi, v) && 0 <= size' <= size && first <= 1
    ensures Buffered(d0, if first == 1 then b[0 := Filler(v)] else b, w', 0, size', lo, hi, v)
  {
  }

  // ----- The registers of the window loop -----

  /** How a round ends: the loop goes on, or is done, or fails, or stores outside of the buffer, or has come
      back to where it was. */
  datatype Outcome = Going | Done | Failed | Fault | Hung

  datatype Regs = Regs(start: int, count: int, bit: nat, first: nat, size: int)

  function Left(g: Regs): nat {
    BytesLeft(g.count, g.first)
  }

  /** Where the last partial byte is thought to be in the buffer, counting from one. */
  function LastPos(g: Regs): int {
    Int32((g.count + 7) / 8 + g.first)
  }

  predicate LoadsLast(g: Regs) {
    g.count > 0 && g.bit != 0 && LastPos(g) <= g.size
  }

  function LoadResult(g: Regs, n: nat): Outcome {
    if !(g.count > 0 && g.bit != 0) then Going
    else if LastPos(g) == 0 then Failed
    else if LastPos(g) > g.size then Going
    else if LastPos(g) < 0 then Fault
    else if 0 <= (g.start + g.count) / 8 < n then Going else Failed
  }

  function WritePos(g: Regs): int {
    Int32(g.start / 8 - g.first)
  }

  function WriteResult(pos: int, size: int, n: nat): int {
    if pos < 0 || size < 0 then -1 else if size == 0 then 0 else if pos + size <= n then size else -1
  }

  /** The registers after a round. */
  function Next(g: Regs): Regs {
    var last := if LoadsLast(g) then 1 else 0;
    var t := Int32(8 * (g.size - g.first - last));
    var count := g.count - (if LoadsLast(g) then g.bit else 0) - t;
    var size := Int32((count + 7) / 8);
    Regs(g.start + t, count, if LoadsLast(g) then 0 else g.bit, 0, if g.size > size then size else g.size)
  }

  function AfterWrite(g: Regs): Outcome {
    if LoadsLast(g) && Next(g).count != 0 then Failed else if Next(g).count <= 0 then Done else Going
  }

  function Result(g: Regs, n: nat): Outcome {
    if !LoadResult(g, n).Going? then LoadResult(g, n)
    else if WriteResult(WritePos(g), g.size, n) != g.size then Failed
    else AfterWrite(g)
  }

  /** The counters after a window. */
  method Advance(g: Regs, count0: int, lastbyte: nat) returns (out: Outcome, g': Regs)
    requires lastbyte == (if LoadsLast(g) then 1 else 0) && count0 == g.count - if LoadsLast(g) then g.bit else 0
    ensures out == AfterWrite(g) && g' == Next(g)
  {
    var tmp := Int32(8 * (g.size - g.first - lastbyte));
    var start, count, size := g.start + tmp, count0 - tmp, g.size;
    tmp := Int32((count + 7) / 8);
    if size > tmp {
      size := tmp;
    }
    g' := Regs(start, count, if lastbyte == 1 then 0 else g.bit, 0, size);
    out := Going;
    if lastbyte == 1 && count != 0 {
      out := Failed;
    } else if count <= 0 {
      out := Done;
    }
  }

  function Loaded(b: seq<bv8>, g: Regs, last: bv8): (r: seq<bv8>)
    ensures |r| == |b|
  {
    if LoadsLast(g) && 0 < LastPos(g) <= |b| then b[LastPos(g) - 1 := last] else b
  }

  function Reset(b: seq<bv8>, first: nat, v: bool): seq<bv8> {
    if first == 1 && |b| > 0 then b[0 := Filler(v)] else b
  }

  /** The bytes of the buffer that are written. */
  function Cut(b: seq<bv8>, size: int): seq<bv8> {
    if 0 <= size <= |b| then b[..size] else []
  }

  // ----- Rounds in which the counters are right -----

  ghost predicate Normal(n: nat, w: int, g: Regs, lo: int, hi: int) {
    && Counters(n, w, g.first, g.size, g.start, g.count, lo, hi)
    && g.bit < 8 && (g.count > 0 ==> g.bit == g.count % 8)
  }

  /** The `int` position of the last byte tells rightly whether it is in the window. */
  predicate Plain(g: Regs) {
    !(g.count > 0 && g.bit != 0 && Left(g) >= TWO_31 && LastPos(g) <= g.size)
  }

  /** A position that is not plain ends the loop. */
  lemma NotPlain(n: nat, w: int, g: Regs, lo: int, hi: int)
    requires Normal(n, w, g, lo, hi) && !Plain(g)
    ensures Result(g, n) == if LastPos(g) < 0 then Fault else Failed
  {
    if LastPos(g) > 0 {
      LoadedTooEarly(g);
    }
  }

  /** If the last byte is taken to be in a window that it is not in, bits are left over. */
  lemma LoadedTooEarly(g: Regs)
    requires LoadsLast(g) && Left(g) >= TWO_31 && g.first <= 1 && 0 < g.size <= WINDOW && g.bit < 8
    ensures Next(g).count != 0
  {
    assert Int32(8 * (g.size - g.first - 1)) == 8 * (g.size - g.first - 1);
  }

  lemma PlainLoads(n: nat, w: int, g: Regs, lo: int, hi: int)
    requires Normal(n, w, g, lo, hi) && Plain(g)
    ensures LoadsLast(g) == LastHere(g.first, g.size, g.count) && LoadResult(g, n).Going?
    ensures LoadsLast(g) ==> LastPos(g) == g.size && (g.start + g.count) / 8 == w + g.size - 1
  {
    if LastHere(g.first, g.size, g.count) {
      LastWindow(n, w, g.first, g.size, g.start, g.count, lo, hi);
    }
  }

  lemma PlainLast(n: nat, w: int, g: Regs, lo: int, hi: int)
    requires Normal(n, w, g, lo, hi) && Plain(g) && LoadsLast(g)
    ensures Next(g).count == 0 && hi <= 8 * (w + g.size) && Left(g) <= WINDOW
  {
    PlainLoads(n, w, g, lo, hi);
    LastWindow(n, w, g.first, g.size, g.start, g.count, lo, hi);
  }

  /** The registers after a window without the last partial byte. */
  lemma NextOther(g: Regs)
    requires !LoadsLast(g) && g.first <= 1 && -1 <= g.size <= WINDOW
    ensures var count := g.count - 8 * (g.size - g.first); var bytes := Int32((count + 7) / 8);
            Next(g) == Regs(g.start + 8 * (g.size - g.first), count, g.bit, 0, if g.size > bytes then bytes else g.size)
  {
    assert Int32(8 * (g.size - g.first)) == 8 * (g.size - g.first);
  }

  lemma PlainOther(n: nat, w: int, g: Regs, lo: int, hi: int)
    requires Normal(n, w, g, lo, hi) && Plain(g) && !LoadsLast(g)
    ensures Next(g).count <= 0 ==> hi <= 8 * (w + g.size) && Left(g) <= WINDOW
    ensures Next(g).count > 0 ==> g.size == WINDOW < Left(g) == WINDOW + Left(Next(g)) && Next(g).count < g.count
    ensures Next(g).count > 0 ==> Next(g).bit == g.bit && Next(g).first == 0 && Next(g).count % 8 == g.count % 8
  {
    PlainLoads(n, w, g, lo, hi);
    OtherWindow(n, w, g.first, g.size, g.start, g.count, lo, hi);
    NextOther(g);
  }

  lemma PlainNext(n: nat, w: int, g: Regs, lo: int, hi: int)
    requires Normal(n, w, g, lo, hi) && Plain(g)
    ensures Next(g).count <= 0 ==> hi <= 8 * (w + g.size) && Left(g) <= WINDOW
    ensures Next(g).count > 0 ==>
              !LoadsLast(g) && g.size == WINDOW < Left(g) == WINDOW + Left(Next(g)) && Next(g).count < g.count
    ensures Next(g).count > 0 ==> Next(g).bit == g.bit && Next(g).first == 0 && Next(g).count % 8 == g.count % 8
    ensures LoadsLast(g) ==> Next(g).count == 0
  {
    if LoadsLast(g) {
      PlainLast(n, w, g, lo, hi);
    } else {
      PlainOther(n, w, g, lo, hi);
    }
  }

  lemma NextNormal(n: nat, w: int, g: Regs, lo: int, hi: int)
    requires Normal(n, w, g, lo, hi) && Plain(g) && Next(g).count > 0
    requires WINDOW <= Int32(Left(Next(g))) || Left(Next(g)) < TWO_31
    ensures Normal(n, w + WINDOW, Next(g), lo, hi)
  {
    PlainNext(n, w, g, lo, hi);
    PlainLoads(n, w, g, lo, hi);
    OtherWindow(n, w, g.first, g.size, g.start, g.count, lo, hi);
    NextOther(g);
    assert Left(Next(g)) == (Next(g).count + 7) / 8;
  }

  /** What a plain round comes to. */
  lemma PlainResult(n: nat, w: int, off: int, g: Regs, lo: int, hi: int)
    requires Normal(n, w, g, lo, hi) && Plain(g) && off % TWO_32 == 0 && 0 <= off <= w < off + TWO_32
    ensures w - off >= TWO_31 ==> Result(g, n).Failed? && WritePos(g) < 0
    ensures w - off < TWO_31 ==> WritePos(g) == w - off && Result(g, n) == if Next(g).count > 0 then Going else Done
  {
    PlainLoads(n, w, g, lo, hi);
    PlainNext(n, w, g, lo, hi);
    Int32At(w, off);
  }

  // ----- Rounds with a wrong size of the window -----

  /** A window size that is not that of the rest of the run, for more than the `int` can count. */
  predicate Derailed(g: Regs) {
    && g.count > 0 && g.first == 0 && g.bit == g.count % 8 && Left(g) >= TWO_31 && g.size < WINDOW
    && (g.size == Int32(Left(g)) || (g.bit == 0 && g.size == -1 <= Int32(Left(g))))
  }

  /** Rounds that a derailed loop may still go. */
  function Rest(g: Regs): (n: nat)
    ensures n < 2 * TWO_32
  {
    if g.size == -1 then 2 + (TWO_31 - Int32(Left(g))) else if g.size > 0 then 2 else 1
  }

  lemma WholeBytes(count: int, size: int)
    requires count % 8 == 0
    ensures (count - 8 * size + 7) / 8 == (count + 7) / 8 - size && (count - 8 * size) % 8 == 0
            && 8 * ((count + 7) / 8) == count
  {
  }

  lemma DerailedNext(g: Regs)
    requires Derailed(g) && g.bit == 0 && -1 <= g.size
    ensures Next(g).count == g.count - 8 * g.size > 0 && Left(Next(g)) == Left(g) - g.size
    ensures Next(g).bit == Next(g).count % 8 == 0 && Next(g).first == 0
    ensures Next(g).size == if g.size > Int32(Left(Next(g))) then Int32(Left(Next(g))) else g.size
  {
    WholeBytes(g.count, g.size);
    NextOther(g);
  }

  /** With a size of -1, which a failed write also returns, the count grows until the `int` wraps. */
  lemma DerailedBack(g: Regs)
    requires Derailed(g) && g.bit == 0 && g.size == -1
    ensures Derailed(Next(g)) && Rest(Next(g)) < Rest(g)
  {
    DerailedNext(g);
    Int32Next(Left(g));
  }

  lemma DerailedOn(g: Regs)
    requires Derailed(g) && g.bit == 0 && 0 <= g.size
    ensures Next(g).size == 0 && Derailed(Next(g)) && (g.size == 0 ==> Next(g) == g)
  {
    DerailedNext(g);
    Int32Whole(Left(g));
    if g.size > 0 {
      assert Left(g) >= TWO_32;
    } else {
      NextOther(g);
    }
  }

  /** A derailed loop never ends well: it fails, stores outside of the buffer, or stays where it is. */
  lemma DerailedRound(n: nat, g: Regs)
    requires Derailed(g)
    ensures !Result(g, n).Done?
    ensures Result(g, n).Going? ==> Derailed(Next(g)) && (Next(g) == g || Rest(Next(g)) < Rest(g))
  {
    if g.bit != 0 {
      if g.size > 0 {
        LoadedTooEarly(g);
      }
    } else if g.size == -1 {
      DerailedBack(g);
    } else if g.size >= 0 {
      DerailedOn(g);
    }
  }

  // ----- The invariant of the loop -----

  /** What does not change in the loop: the bitmap and the registers on entry, the first byte of the run and
      the multiple of 2^32 that an `int` loses of it, the start of the last window, the run, and the value. */
  datatype Run = Run(d0: seq<bv8>, g0: Regs, w0: int, off: int, last: int, lo: int, hi: int, v: bool)

  ghost predicate StartOk(r: Run, b: seq<bv8>) {
    && r.off % TWO_32 == 0 && 0 <= r.off <= r.w0 < r.off + TWO_32 && r.last == LastStart(r.w0, Left(r.g0))
    && Normal(|r.d0|, r.w0, r.g0, r.lo, r.hi) && Buffered(r.d0, b, r.w0, r.g0.first, r.g0.size, r.lo, r.hi, r.v)
  }

  /** The exact condition for the loop to end well: the last window starts at a position that an `int` holds as
      not negative, and that of the last byte is not mistaken at the start. */
  predicate Ends(r: Run) {
    r.last - r.off < TWO_31 && Plain(r.g0)
  }

  /** The registers are those of window `w`. */
  ghost predicate RegsOk(r: Run, g: Regs, w: int) {
    && Normal(|r.d0|, w, g, r.lo, r.hi) && r.off % TWO_32 == 0 && 0 <= r.off <= r.w0 <= w < r.off + TWO_32
    && LastStart(w, Left(g)) == r.last && Left(g) <= Left(r.g0)
    && (g == r.g0 || (Plain(r.g0) && w >= r.off + WINDOW))
  }

  ghost predicate RegsAstray(r: Run, g: Regs) {
    Derailed(g) && r.last - r.off >= TWO_31 && Left(r.g0) >= TWO_31 && Plain(r.g0)
  }

  ghost predicate EndRegs(r: Run, out: Outcome, w: int) {
    && (out.Done? <==> Ends(r))
    && (out.Done? ==> r.hi <= 8 * w && w - r.off <= TWO_31 + WINDOW)
    && (!out.Done? && Left(r.g0) < TWO_31 ==> out.Failed? && w - r.off >= TWO_31)
    && (!Plain(r.g0) && LastPos(r.g0) < 0 ==> out.Fault?)
  }

  /** The ways in which a round inside the run ends. */
  lemma RegsNotPlain(r: Run, g: Regs, w: int)
    requires RegsOk(r, g, w) && !Plain(g)
    ensures !Result(g, |r.d0|).Going? && !Result(g, |r.d0|).Done? && EndRegs(r, Result(g, |r.d0|), w)
  {
    NotPlain(|r.d0|, w, g, r.lo, r.hi);
    LastStartBound(w, Left(g));
  }

  lemma RegsTooFar(r: Run, g: Regs, w: int)
    requires RegsOk(r, g, w) && Plain(g) && w - r.off >= TWO_31
    ensures Result(g, |r.d0|).Failed? && WritePos(g) < 0 && EndRegs(r, Failed, w)
  {
    PlainResult(|r.d0|, w, r.off, g, r.lo, r.hi);
    LastStartBound(w, Left(g));
  }

  lemma RegsDone(r: Run, g: Regs, w: int)
    requires RegsOk(r, g, w) && Plain(g) && w - r.off < TWO_31 && Next(g).count <= 0
    ensures EndRegs(r, Done, w + g.size)
  {
    PlainNext(|r.d0|, w, g, r.lo, r.hi);
    LastStartNext(w, Left(g));
  }

  lemma RegsNext(r: Run, g: Regs, w: int)
    requires RegsOk(r, g, w) && Plain(g) && w - r.off < TWO_31 && Next(g).count > 0
    ensures g.size == WINDOW && Next(g).count < g.count
    ensures if Derailed(Next(g)) then RegsAstray(r, Next(g)) else RegsOk(r, Next(g), w + WINDOW)
  {
    PlainNext(|r.d0|, w, g, r.lo, r.hi);
    LastStartNext(w, Left(g));
    LastStartBound(w, Left(g));
    if !Derailed(Next(g)) {
      NextOther(g);
      NextNormal(|r.d0|, w, g, r.lo, r.hi);
    }
  }

  ghost predicate Written(r: Run, d: seq<bv8>, w: int) {
    DoneUpTo(r.d0, d, r.w0, w, r.off, r.lo, r.hi, r.v)
  }

  /** The bitmap is done up to window `w`, for which the buffer is ready. */
  ghost predicate DataOk(r: Run, d: seq<bv8>, b: seq<bv8>, g: Regs, w: int) {
    && Written(r, d, w) && Buffered(r.d0, b, w, g.first, g.size, r.lo, r.hi, r.v)
    && (g == r.g0 ==> d == r.d0)
  }

  ghost predicate EndData(r: Run, d: seq<bv8>, out: Outcome, w: int) {
    && (out.Done? || (out.Failed? && Left(r.g0) < TWO_31) ==> Written(r, d, w))
    && (!Plain(r.g0) && LastPos(r.g0) < 0 ==> d == r.d0)
  }

  /** The loop is inside the run, or has a wrong size of the window, or is over; it is never elsewhere. */
  datatype Phase = Inside | Astray | Over | Elsewhere

  ghost function PhaseOf(r: Run, d: seq<bv8>, b: seq<bv8>, g: Regs, w: int, out: Outcome): Phase {
    if !out.Going? then (if EndRegs(r, out, w) && EndData(r, d, out, w) then Over else Elsewhere)
    else if RegsOk(r, g, w) && DataOk(r, d, b, g, w) then Inside
    else if RegsAstray(r, g) && |d| == |r.d0| && g.size <= |b| then Astray else Elsewhere
  }

  ghost function RoundsLeft(p: Phase, g: Regs): nat {
    if p.Inside? then 3 * TWO_32 + Max0(g.count) else if p.Astray? then 1 + Rest(g) else 0
  }

  lemma Started(r: Run, b: seq<bv8>)
    requires StartOk(r, b)
    ensures PhaseOf(r, r.d0, b, r.g0, r.w0, Going) == Inside
  {
  }

  /** When the loop is over the registers do not matter. */
  lemma OverAnyway(r: Run, d: seq<bv8>, b: seq<bv8>, g: Regs, g': Regs, w: int, out: Outcome)
    ensures !out.Going? ==> PhaseOf(r, d, b, g', w, out) == PhaseOf(r, d, b, g, w, out)
  {
  }

  lemma LoopReady(r: Run, d: seq<bv8>, b: seq<bv8>, g: Regs, w: int)
    requires PhaseOf(r, d, b, g, w, Going) != Elsewhere
    ensures |d| == |r.d0| && g.size <= |b| && g.bit < 8 && (g.count > 0 ==> g.bit <= g.count)
            && (g.first == 1 ==> 1 <= |b|)
  {
  }

  /** What a round has done to bitmap and buffer. */
  ghost predicate RoundOk(d: seq<bv8>, b: seq<bv8>, g: Regs, v: bool, out: Outcome, last: bv8, d': seq<bv8>,
                          b': seq<bv8>) {
    && |d'| == |d|
    && (out.Going? || out.Done? ==>
          && d' == Stored(d, WritePos(g), Cut(Loaded(b, g, last), g.size))
          && (LoadsLast(g) ==>
            0 <= (g.start + g.count) / 8 < |d| && ByteSet(d[(g.start + g.count) / 8], last, 0, 0, g.bit, v)))
    && (WritePos(g) < 0 || out.Fault? ==> d' == d)
    && (out.Going? ==> b' == Reset(Loaded(b, g, last), g.first, v))
  }

  /** The prepared window holds the bytes of the result. */
  lemma PlainPrepared(r: Run, d: seq<bv8>, b: seq<bv8>, g: Regs, w: int, last: bv8)
    requires RegsOk(r, g, w) && DataOk(r, d, b, g, w) && Plain(g)
    requires LoadsLast(g) ==>
               0 <= (g.start + g.count) / 8 < |d| && ByteSet(d[(g.start + g.count) / 8], last, 0, 0, g.bit, r.v)
    ensures var c := Cut(Loaded(b, g, last), g.size); |c| == g.size && Prepared(r.d0, c, w, r.lo, r.hi, r.v)
  {
    PlainLoads(|r.d0|, w, g, r.lo, r.hi);
    var c := Cut(Loaded(b, g, last), g.size);
    forall j | 0 <= j < |c| ensures ByteSet(r.d0[w + j], c[j], 8 * (w + j), r.lo, r.hi, r.v) {
      PreparedByte(r.d0, b, w, g.first, g.size, g.start, g.count, r.lo, r.hi, r.v, last, j);
    }
  }

  lemma PlainWritten(r: Run, d: seq<bv8>, b: seq<bv8>, g: Regs, w: int, last: bv8, d': seq<bv8>)
    requires RegsOk(r, g, w) && DataOk(r, d, b, g, w) && Plain(g) && w - r.off < TWO_31
    requires LoadsLast(g) ==>
               0 <= (g.start + g.count) / 8 < |d| && ByteSet(d[(g.start + g.count) / 8], last, 0, 0, g.bit, r.v)
    requires d' == Stored(d, WritePos(g), Cut(Loaded(b, g, last), g.size))
    ensures Written(r, d', w + g.size)
  {
    var c, pos := Cut(Loaded(b, g, last), g.size), WritePos(g);
    assert pos == w - r.off by {
      PlainResult(|r.d0|, w, r.off, g, r.lo, r.hi);
    }
    PlainPrepared(r, d, b, g, w, last);
    WindowWritten(r.d0, d, c, d', r.w0, w, r.off, r.lo, r.hi, r.v);
  }

  lemma PlainData(r: Run, d: seq<bv8>, b: seq<bv8>, g: Regs, w: int, last: bv8, d': seq<bv8>, b': seq<bv8>)
    requires RegsOk(r, g, w) && DataOk(r, d, b, g, w) && Plain(g) && w - r.off < TWO_31
    requires RoundOk(d, b, g, r.v, Going, last, d', b') && Next(g).count > 0 && RegsOk(r, Next(g), w + WINDOW)
    ensures DataOk(r, d', b', Next(g), w + WINDOW)
  {
    PlainWritten(r, d, b, g, w, last, d');
    PlainNext(|r.d0|, w, g, r.lo, r.hi);
    NextBuffered(r.d0, b, w, g.first, g.size, w + WINDOW, Next(g).size, r.lo, r.hi, r.v);
  }

  lemma NotPlainPhase(r: Run, d: seq<bv8>, b: seq<bv8>, g: Regs, w: int, out: Outcome, last: bv8, d': seq<bv8>,
                      b': seq<bv8>)
    requires PhaseOf(r, d, b, g, w, Going) == Inside && !Plain(g)
    requires out == Result(g, |d|) && RoundOk(d, b, g, r.v, out, last, d', b')
    ensures !out.Going? && PhaseOf(r, d', b', Next(g), w, out) == Over
  {
    RegsNotPlain(r, g, w);
  }

  lemma TooFarPhase(r: Run, d: seq<bv8>, b: seq<bv8>, g: Regs, w: int, out: Outcome, last: bv8, d': seq<bv8>,
                    b': seq<bv8>)
    requires PhaseOf(r, d, b, g, w, Going) == Inside && Plain(g) && w - r.off >= TWO_31
    requires out == Result(g, |d|) && RoundOk(d, b, g, r.v, out, last, d', b')
    ensures !out.Going? && PhaseOf(r, d', b', Next(g), w, out) == Over
  {
    RegsTooFar(r, g, w);
  }

  lemma InsideOutcome(r: Run, d: seq<bv8>, b: seq<bv8>, g: Regs, w: int)
    requires PhaseOf(r, d, b, g, w, Going) == Inside && Plain(g) && w - r.off < TWO_31
    ensures Result(g, |d|) == if Next(g).count > 0 then Going else Done
  {
    PlainResult(|r.d0|, w, r.off, g, r.lo, r.hi);
  }

  lemma LastPhase(r: Run, d: seq<bv8>, b: seq<bv8>, g: Regs, w: int, last: bv8, d': seq<bv8>, b': seq<bv8>)
    requires PhaseOf(r, d, b, g, w, Going) == Inside && Plain(g) && w - r.off < TWO_31
    requires RoundOk(d, b, g, r.v, Done, last, d', b') && Next(g).count <= 0
    ensures PhaseOf(r, d', b', Next(g), w + g.size, Done) == Over
  {
    RegsDone(r, g, w);
    PlainWritten(r, d, b, g, w, last, d');
  }

  lemma AstrayPhase(r: Run, d: seq<bv8>, b: seq<bv8>, g: Regs, w: int, last: bv8, d': seq<bv8>, b': seq<bv8>)
    requires PhaseOf(r, d, b, g, w, Going) == Inside && Plain(g) && w - r.off < TWO_31
    requires RoundOk(d, b, g, r.v, Going, last, d', b') && Next(g).count > 0 && Derailed(Next(g))
    ensures PhaseOf(r, d', b', Next(g), w + g.size, Going) == Astray && Next(g).count < g.count
  {
    RegsNext(r, g, w);
    assert !RegsOk(r, Next(g), w + g.size);
  }

  lemma InsidePhase(r: Run, d: seq<bv8>, b: seq<bv8>, g: Regs, w: int, last: bv8, d': seq<bv8>, b': seq<bv8>)
    requires PhaseOf(r, d, b, g, w, Going) == Inside && Plain(g) && w - r.off < TWO_31
    requires RoundOk(d, b, g, r.v, Going, last, d', b') && Next(g).count > 0 && !Derailed(Next(g))
    ensures PhaseOf(r, d', b', Next(g), w + g.size, Going) == Inside && Next(g).count < g.count
  {
    RegsNext(r, g, w);
    PlainData(r, d, b, g, w, last, d', b');
  }

  /** The phase after a round that starts inside the run. */
  lemma RoundInside(r: Run, d: seq<bv8>, b: seq<bv8>, g: Regs, w: int, out: Outcome, last: bv8, d': seq<bv8>,
                    b': seq<bv8>)
    returns (w': int)
    requires PhaseOf(r, d, b, g, w, Going) == Inside && out == Result(g, |d|)
             && RoundOk(d, b, g, r.v, out, last, d', b')
    ensures !out.Going? ==> PhaseOf(r, d', b', Next(g), w', out) == Over
    ensures out.Going? ==> PhaseOf(r, d', b', Next(g), w', Going) == (if Derailed(Next(g)) then Astray else Inside)
                           && Next(g).count < g.count
  {
    w' := w;
    if !Plain(g) {
      NotPlainPhase(r, d, b, g, w, out, last, d', b');
    } else if w - r.off >= TWO_31 {
      TooFarPhase(r, d, b, g, w, out, last, d', b');
    } else {
      w' := w + g.size;
      InsideOutcome(r, d, b, g, w);
      if out.Done? {
        LastPhase(r, d, b, g, w, last, d', b');
      } else if Derailed(Next(g)) {
        AstrayPhase(r, d, b, g, w, last, d', b');
      } else {
        InsidePhase(r, d, b, g, w, last, d', b');
      }
    }
  }

  /** The phase after a round with a wrong size of the window. */
  lemma RoundAstray(r: Run, d: seq<bv8>, b: seq<bv8>, g: Regs, w: int, out: Outcome, last: bv8, d': seq<bv8>,
                    b': seq<bv8>)
    requires PhaseOf(r, d, b, g, w, Going) == Astray && out == Result(g, |d|)
             && RoundOk(d, b, g, r.v, out, last, d', b')
    ensures out.Going? && Next(g) == g ==> PhaseOf(r, d', b', Next(g), w, Hung) == Over
    ensures !out.Going? ==> PhaseOf(r, d', b', Next(g), w, out) == Over
    ensures out.Going? ==> PhaseOf(r, d', b', Next(g), w, Going) == Astray && (Next(g) == g || Rest(Next(g)) < Rest(g))
  {
    DerailedRound(|d|, g);
  }

  lemma RoundDone(r: Run, d: seq<bv8>, b: seq<bv8>, g: Regs, w: int, out: Outcome, last: bv8, d': seq<bv8>,
                  b': seq<bv8>)
    returns (w': int)
    requires PhaseOf(r, d, b, g, w, Going) != Elsewhere && out == Result(g, |d|)
             && RoundOk(d, b, g, r.v, out, last, d', b')
    ensures !out.Going? ==> PhaseOf(r, d', b', Next(g), w', out) == Over
    ensures out.Going? && Next(g) == g ==> PhaseOf(r, d', b', Next(g), w', Hung) == Over
    ensures out.Going? && Next(g) != g ==>
              var p := PhaseOf(r, d', b', Next(g), w', Going);
              p != Elsewhere && RoundsLeft(p, Next(g)) < RoundsLeft(PhaseOf(r, d, b, g, w, Going), g)
  {
    if PhaseOf(r, d, b, g, w, Going) == Inside {
      w' := RoundInside(r, d, b, g, w, out, last, d', b');
    } else {
      w' := w;
      RoundAstray(r, d, b, g, w, out, last, d', b');
    }
  }

  /** The attribute that holds a bitmap; reads and writes past its end, which callers do not make,
      are refused here. */
  class BitmapAttr {
    var data: seq<bv8>

    method Pread(pos: int) returns (br: int, b: bv8)
      ensures br == if 0 <= pos < |data| then 1 else -1
      ensures br == 1 ==> b == data[pos]
    {
      if 0 <= pos < |data| {
        return 1, data[pos];
      }
      return -1, 0;
    }

    method Pwrite(pos: int, size: int, buf: array<bv8>) returns (written: int)
      requires size <= buf.Length
      modifies this
      ensures written == WriteResult(pos, size, |old(data)|) && |data| == |old(data)|
      ensures data == if written > 0 then Stored(old(data), pos, Cut(buf[..], size)) else old(data)
      ensures written == size ==> data == Stored(old(data), pos, Cut(buf[..], size))
    {
      if pos < 0 || size < 0 {
        return -1;
      }
      if size == 0 {
        return 0;
      }
      if pos + size <= |data| {
        data := data[..pos] + buf[..size] + data[pos + size..];
        return size;
      }
      return -1;
    }

    /** Completes the last partial byte if the `int` position puts it in the window. */
    method LoadLast(buf: array<bv8>, g: Regs, value: bool)
      returns (out: Outcome, count: int, lastbyte: nat, ghost last: bv8)
      requires g.size <= buf.Length && g.bit < 8 && (g.count > 0 ==> g.bit <= g.count)
      modifies buf
      ensures out == LoadResult(g, |data|)
      ensures out.Going? ==>
                lastbyte == (if LoadsLast(g) then 1 else 0) && count == g.count - if LoadsLast(g) then g.bit else 0
      ensures out.Going? ==> buf[..] == Loaded(old(buf[..]), g, last)
      ensures out.Going? && LoadsLast(g) ==> ByteSet(data[(g.start + g.count) / 8], last, 0, 0, g.bit, value)
    {
      out, count, lastbyte, last := Going, g.count, 0, 0;
      if g.count > 0 && g.bit != 0 {
        var lastbytePos := Int32((g.count + 7) / 8 + g.first);
        if lastbytePos == 0 {
          out := Failed;
        } else if lastbytePos <= g.size {
          if lastbytePos < 0 {
            out := Fault;
            return;
          }
          var br, b := Pread((g.start + g.count) / 8);
          if br != 1 {
            out := Failed;
            return;
          }
          b, count := LastByte(b, g.bit, g.count, value);
          buf[lastbytePos - 1] := b;
          last := b;
          lastbyte := 1;
        }
      }
    }

    /** One round of the window loop: completes and writes the window and moves the registers on. */
    method WriteWindow(buf: array<bv8>, g: Regs, value: bool) returns (out: Outcome, g': Regs, ghost last: bv8)
      requires g.size <= buf.Length && g.bit < 8 && (g.count > 0 ==> g.bit <= g.count)
               && (g.first == 1 ==> 1 <= buf.Length)
      modifies this, buf
      ensures out == Result(g, |old(data)|) && (out.Going? ==> g' == Next(g))
      ensures RoundOk(old(data), old(buf[..]), g, value, out, last, data, buf[..])
    {
      var count, lastbyte;
      out, count, lastbyte, last := LoadLast(buf, g, value);
      g' := g;
      if !out.Going? {
        return;
      }
      var tmp := Int32(g.start / 8 - g.first);
      var written := Pwrite(tmp, g.size, buf);
      if written != g.size {
        out := Failed;
        return;
      }
      if g.first == 1 {
        buf[0] := Filler(value);
      }
      out, g' := Advance(g, count, lastbyte);
    }

    /** The window loop; it writes at least once.  A round that leaves all registers as they were is followed
        by the same for ever. */
    method WriteWindows(buf: array<bv8>, g0: Regs, value: bool, ghost r: Run) returns (out: Outcome, ghost w: int)
      requires data == r.d0 && g0 == r.g0 && value == r.v && StartOk(r, buf[..])
      modifies this, buf
      ensures !out.Going? && EndRegs(r, out, w) && EndData(r, data, out, w)
    {
      w := r.w0;
      var g := g0;
      out := Going;
      Started(r, buf[..]);
      while out.Going?
        invariant PhaseOf(r, data, buf[..], g, w, out) != Elsewhere
        decreases if out.Going? then 1 + RoundsLeft(PhaseOf(r, data, buf[..], g, w, Going), g) else 0
      {
        ghost var d, b, last := data, buf[..], 0;
        LoopReady(r, d, b, g, w);
        var g';
        out, g', last := WriteWindow(buf, g, value);
        w := RoundDone(r, d, b, g, w, out, last, data, buf[..]);
        OverAnyway(r, data, buf[..], Next(g), g', w, out);
        if out.Going? && g' == g {
          out := Hung;
        }
        g := g';
      }
    }

    /** Reads a partial first byte into the buffer and sets its part of the run. */
    method PrepareFirst(buf: array<bv8>, startBit: nat, count0: nat, bit: nat, firstbyte: nat, bufsize: nat,
                        value: bool)
      returns (ok: bool, start: int, count: int)
      requires startBit + count0 <= 8 * |data| && bit == startBit % 8 && firstbyte == FirstOf(startBit)
      requires bufsize == SizeOf(startBit, count0) && buf.Length == bufsize
      requires forall j | 0 <= j < bufsize :: buf[j] == Filler(value)
      modifies buf
      ensures ok && Counters(|data|, startBit / 8, firstbyte, bufsize, start, count, startBit, startBit + count0)
      ensures BytesLeft(count, firstbyte) == RunBytes(startBit, count0)
      ensures count == if bit == 0 then count0 else if count0 >= 8 - bit then count0 - (8 - bit) else -1
      ensures Buffered(data, buf[..], startBit / 8, firstbyte, bufsize, startBit, startBit + count0, value)
    {
      InitialCounters(|data|, startBit, count0);
      ok, start, count := true, startBit, count0;
      if bit != 0 {
        var br, b := Pread(start / 8);
        ok := br == 1;
        b, count := FirstByte(b, bit, count, value);
        buf[0] := b;
        FirstByteShifted(data[startBit / 8], b, bit, count0, startBit / 8, value);
        start := (start + 7) / 8 * 8;
      }
    }

    /** The buffer for a run: its size and filling. */
    method MakeBuffer(startBit: nat, count: nat, value: bool) returns (buf: array<bv8>, bufsize: nat)
      ensures fresh(buf) && buf.Length == bufsize == SizeOf(startBit, count) && forall j | 0 <= j < bufsize ::
                buf[j] == Filler(value)
    {
      var bit := startBit % 8;
      bufsize := (count - (if bit != 0 then 8 - bit else 0) + 7) / 8 + FirstOf(startBit);
      if bufsize > WINDOW {
        bufsize := WINDOW;
      }
      buf := new bv8[bufsize](_ => Filler(value));
    }

    /** `ntfs_bitmap_set_bits_in_run`, for every start and count: ends well if and only if `Finishes`, and sets
        exactly the bits of the run if moreover it starts in the first 2^32 bytes; otherwise the bytes of the
        result are put a multiple of 2^32 bytes below their place. */
    method SetBitsInRun(startBit: int, count0: int, value: bool) returns (out: Outcome, ghost w: int)
      requires startBit + count0 <= 8 * |data|
      modifies this
      ensures startBit < 0 || count0 < 0 ==> out.Failed? && data == old(data)
      ensures 0 <= startBit && 0 <= count0 && startBit + count0 <= 0x3_ffff_fff8 ==>
                out.Done? && RunSet(old(data), data, startBit, startBit + count0, value)
      ensures 0 <= startBit && 0 <= count0 ==> !out.Going? && CallOk(startBit, count0, old(data), data, out, w, value)
    {
      out, w := Failed, 0;
      if 0 <= startBit && 0 <= count0 {
        ghost var d0, hi := data, startBit + count0;
        var buf, bufsize := MakeBuffer(startBit, count0, value);
        var ok, start, count := PrepareFirst(buf, startBit, count0, startBit % 8, FirstOf(startBit), bufsize, value);
        if ok {
          var g := Regs(start, count, count % 8, FirstOf(startBit), bufsize);
          ghost var r := Run(d0, g, startBit / 8, Lost(startBit), LastOf(startBit, count0), startBit, hi, value);
          out, w := WriteWindows(buf, g, value, r);
          RunDone(startBit, count0, r, data, out, w);
          if hi <= 0x3_ffff_fff8 {
            ShortRun(startBit, count0);
          }
        }
      }
    }
  }

  /** The byte at which the last window of a run starts. */
  function LastOf(startBit: nat, count: nat): int {
    LastStart(startBit / 8, RunBytes(startBit, count))
  }

  /** What the `int` position loses of the byte that a run starts at. */
  function Lost(startBit: nat): nat {
    startBit / 8 - startBit / 8 % TWO_32
  }

  /** The condition for a call to end well: all windows start in the lower half of the same 2^32 bytes, and not
      both does the run end inside a byte and touch 2^31 bytes. */
  predicate Finishes(startBit: nat, count: nat) {
    LastOf(startBit, count) - Lost(startBit) < TWO_31
      && !(RunBytes(startBit, count) == TWO_31 && (startBit + count) % 8 != 0)
  }

  /** The runs that are set: the last window starts in the first 2^31 bytes, and not both does the run end
      inside a byte and touch 2^31 bytes. */
  predicate SetsRun(startBit: nat, count: nat) {
    LastOf(startBit, count) < TWO_31 && !(RunBytes(startBit, count) == TWO_31 && (startBit + count) % 8 != 0)
  }

  lemma SetsRunMeaning(startBit: nat, count: nat)
    ensures SetsRun(startBit, count) <==> Finishes(startBit, count) && Lost(startBit) == 0
  {
    LastStartBound(startBit / 8, RunBytes(startBit, count));
  }

  /** All runs that end before the last of the first 2^31 bytes are set. */
  lemma ShortRun(startBit: nat, count: nat)
    requires startBit + count <= 0x3_ffff_fff8
    ensures SetsRun(startBit, count)
  {
    var n := RunBytes(startBit, count);
    assert startBit / 8 + n < TWO_31;
    if n > 0 {
      assert (n - 1) / WINDOW * WINDOW <= n - 1;
    }
  }

  /** The registers on entry. */
  predicate Entry(startBit: nat, count: nat, g: Regs) {
    && g.bit == g.count % 8 && g.first == FirstOf(startBit) && g.size >= 0
    && g.count == if startBit % 8 == 0 then count else
      if count >= 8 - startBit % 8 then count - (8 - startBit % 8) else -1
  }

  lemma EntryBytes(startBit: nat, count: nat, g: Regs)
    requires Entry(startBit, count, g)
    ensures Left(g) == RunBytes(startBit, count) && (g.count > 0 ==> g.bit == (startBit + count) % 8)
    ensures TWO_31 <= Left(g) ==> g.count > 0
  {
  }

  lemma EntryCondition(startBit: nat, count: nat, g: Regs)
    requires Entry(startBit, count, g)
    ensures LastOf(startBit, count) - Lost(startBit) < TWO_31 ==>
              (Plain(g) <==> !(RunBytes(startBit, count) == TWO_31 && (startBit + count) % 8 != 0))
    ensures TWO_31 <= RunBytes(startBit, count) < TWO_32 && (startBit + count) % 8 != 0 ==> !Plain(g) && LastPos(g) < 0
  {
    EntryBytes(startBit, count, g);
    if LastOf(startBit, count) - Lost(startBit) < TWO_31 {
      AtMostHalf(startBit / 8, Lost(startBit), RunBytes(startBit, count));
    }
  }

  lemma AtMostHalf(w: nat, off: int, bytes: nat)
    requires off <= w && LastStart(w, bytes) - off < TWO_31
    ensures bytes <= TWO_31
  {
  }

  /** The end of the loop is the end that the contract of the call tells of. */
  lemma RunDone(startBit: nat, count: nat, r: Run, d: seq<bv8>, out: Outcome, w: int)
    requires r.w0 == startBit / 8 && r.off == Lost(startBit) && r.last == LastOf(startBit, count) && r.lo == startBit
             && r.hi == startBit + count
    requires Entry(startBit, count, r.g0) && EndRegs(r, out, w) && EndData(r, d, out, w)
    ensures CallOk(startBit, count, r.d0, d, out, w, r.v)
  {
    EntryCondition(startBit, count, r.g0);
    EntryBytes(startBit, count, r.g0);
    if SetsRun(startBit, count) {
      SetsRunMeaning(startBit, count);
      RunIsSet(startBit, r, d, w);
    }
  }

  lemma RunIsSet(startBit: nat, r: Run, d: seq<bv8>, w: int)
    requires r.w0 == startBit / 8 && r.off == Lost(startBit) == 0 && r.lo == startBit && Written(r, d, w)
             && r.hi <= 8 * w
    ensures RunSet(r.d0, d, r.lo, r.hi, r.v)
  {
    AllDone(r.d0, d, r.w0, w, r.lo, r.hi, r.v);
  }

  /** What a call with a start and a count that are not negative does to the bitmap. */
  ghost predicate CallOk(startBit: nat, count: nat, d0: seq<bv8>, d: seq<bv8>, out: Outcome, w: int, v: bool) {
    && (out.Done? <==> Finishes(startBit, count))
    && (SetsRun(startBit, count) ==> out.Done? && RunSet(d0, d, startBit, startBit + count, v))
    && (out.Done? ==> startBit + count <= 8 * w && w - Lost(startBit) <= TWO_31 + WINDOW
                      && DoneUpTo(d0, d, startBit / 8, w, Lost(startBit), startBit, startBit + count, v))
    && (!out.Done? && RunBytes(startBit, count) < TWO_31 ==>
          && out.Failed? && w - Lost(startBit) >= TWO_31
          && DoneUpTo(d0, d, startBit / 8, w, Lost(startBit), startBit, startBit + count, v))
    && (TWO_31 <= RunBytes(startBit, count) < TWO_32 && (startBit + count) % 8 != 0 ==> out.Fault? && d == d0)
  }

  /** When the result is put below its place, the run itself is not changed: it is set only if it was. */
  lemma WrongPlace(d0: seq<bv8>, d: seq<bv8>, startBit: nat, count: nat, w: int, v: bool, k: nat)
    requires Lost(startBit) > 0 && startBit <= k < startBit + count <= 8 * |d0|
    requires DoneUpTo(d0, d, startBit / 8, w, Lost(startBit), startBit, startBit + count, v)
             && w - Lost(startBit) <= TWO_31 + WINDOW
    requires BitAt(d0, k) != v
    ensures !RunSet(d0, d, startBit, startBit + count, v)
  {
    assert d[k / 8] == d0[k / 8];
  }

  /** The first run that is too far: eight bits from byte 2^31 on are not set, those in front of them are. */
  lemma PastInt()
    ensures !Finishes(8 * TWO_31, 8) && SetsRun(8 * TWO_31 - 8, 8)
  {
  }

  /** The shortest run that is too long: all but one of the first 2^34 bits; all of them are set. */
  lemma LongRun()
    ensures RunBytes(0, 8 * TWO_31 - 1) == TWO_31 && LastOf(0, 8 * TWO_31 - 1) < TWO_31
    ensures !Finishes(0, 8 * TWO_31 - 1) && SetsRun(0, 8 * TWO_31)
  {
  }

  /** Eight bits from byte 2^32 on: the call ends well and sets those of byte 0. */
  lemma PastTwo32()
    ensures Finishes(8 * TWO_32, 8) && !SetsRun(8 * TWO_32, 8) && Lost(8 * TWO_32) == TWO_32
  {
  }

  /** A run of 2^32 bytes and one window: after the first window the size is zero, and the loop stays there. */
  lemma Hangs(n: nat)
    requires TWO_32 + WINDOW <= n
    ensures var g := Regs(0, 8 * (TWO_32 + WINDOW), 0, 0, WINDOW);
            && Result(g, n).Going? && Next(g) == Regs(8 * WINDOW, 8 * TWO_32, 0, 0, 0)
            && Result(Next(g), n).Going? && Next(Next(g)) == Next(g)
  {
  }

  /** The number of bytes with bits of the run, counting the first if it is partial. */
  function RunBytes(startBit: nat, count: nat): nat {
    if startBit % 8 == 0 then (count + 7) / 8 else 1 + (Max0(count - (8 - startBit % 8)) + 7) / 8
  }

  lemma FirstByteShifted(x: bv8, x': bv8, bit: nat, count: nat, w: nat, v: bool)
    requires ByteSet(x, x', 0, bit, bit + count, v)
    ensures ByteSet(x, x', 8 * w, 8 * w + bit, 8 * w + bit + count, v)
  {
  }

  // ----- Counting free bits -----

  /** The macros BCX and BITCOUNT of attrib.c. */
  function BCX(x: bv32): bv32 {
    x - ((x >> 1) & 0x7777_7777) - ((x >> 2) & 0x3333_3333) - ((x >> 3) & 0x1111_1111)
  }

  function BitCount(x: bv32): bv32 {
    ((BCX(x) + (BCX(x) >> 4)) & 0x0f0f_0f0f) % 255
  }

  /** A small word as a number. */
  function SmallNat(c: bv32): nat {
    if c == 0 then 0 else if c == 1 then 1 else if c == 2 then 2 else if c == 3 then 3
    else if c == 4 then 4 else if c == 5 then 5 else if c == 6 then 6 else if c == 7 then 7 else 8
  }

  /** The table of `ntfs_init_lut256`: the number of zero bits of each byte. */
  function Lut(x: bv8): int {
    8 - SmallNat(BitCount(x as bv32))
  }

  function Nat(b: bool): nat {
    if b then 1 else 0
  }

  function Ones(x: bv8): nat {
    Nat(GetBit(x, 0)) + Nat(GetBit(x, 1)) + Nat(GetBit(x, 2)) + Nat(GetBit(x, 3))
    + Nat(GetBit(x, 4)) + Nat(GetBit(x, 5)) + Nat(GetBit(x, 6)) + Nat(GetBit(x, 7))
  }

  /** The macro arithmetic counts the bits of every byte. */
  lemma LutCounts(x: bv8)
    ensures Lut(x) == 8 - Ones(x)
  {
  }

  /** Sum of a table over bytes. */
  function Sum(lut: bv8 -> int, d: seq<bv8>): int {
    if d == [] then 0 else Sum(lut, d[..|d| - 1]) + lut(d[|d| - 1])
  }

  lemma {:induction false} SumAppend(lut: bv8 -> int, a: seq<bv8>, b: seq<bv8>)
    ensures Sum(lut, a + b) == Sum(lut, a) + Sum(lut, b)
  {
    if b == [] {
      assert a + b == a;
    } else {
      assert (a + b)[..|a + b| - 1] == a + b[..|b| - 1];
      SumAppend(lut, a, b[..|b| - 1]);
    }
  }

  lemma SumCons(lut: bv8 -> int, x: bv8, d: seq<bv8>)
    ensures Sum(lut, [x] + d) == lut(x) + Sum(lut, d)
  {
    SumAppend(lut, [x], d);
    assert [x][..0] == [];
  }

  // ----- The number of clear bits -----

  /** Clear bits among the first `n`. */
  function ClearBelow(d: seq<bv8>, n: nat): nat
    requires n <= 8 * |d|
  {
    if n == 0 then 0 else ClearBelow(d, n - 1) + if BitAt(d, n - 1) then 0 else 1
  }

  function ClearBits(d: seq<bv8>): nat {
    ClearBelow(d, 8 * |d|)
  }

  lemma {:induction false} ClearPrefix(d: seq<bv8>, x: bv8, n: nat)
    requires n <= 8 * |d|
    ensures ClearBelow(d + [x], n) == ClearBelow(d, n)
  {
    if n > 0 {
      ClearPrefix(d, x, n - 1);
      assert (d + [x])[(n - 1) / 8] == d[(n - 1) / 8];
    }
  }

  function OnesBelow(x: bv8, j: nat): nat
    requires j <= 8
  {
    if j == 0 then 0 else OnesBelow(x, j - 1) + Nat(GetBit(x, j - 1))
  }

  lemma {:induction false} ClearInByte(d: seq<bv8>, x: bv8, j: nat)
    requires j <= 8
    ensures ClearBelow(d + [x], 8 * |d| + j) == ClearBits(d) + j - OnesBelow(x, j)
  {
    if j == 0 {
      ClearPrefix(d, x, 8 * |d|);
    } else {
      ClearInByte(d, x, j - 1);
      assert (8 * |d| + j - 1) / 8 == |d| && (8 * |d| + j - 1) % 8 == j - 1;
    }
  }

  lemma ClearByte(d: seq<bv8>, x: bv8)
    ensures ClearBits(d + [x]) == ClearBits(d) + 8 - Ones(x)
  {
    ClearInByte(d, x, 8);
    assert OnesBelow(x, 0) == 0;
    assert OnesBelow(x, 1) == OnesBelow(x, 0) + Nat(GetBit(x, 0))
      && OnesBelow(x, 2) == OnesBelow(x, 1) + Nat(GetBit(x, 1));
    assert OnesBelow(x, 3) == OnesBelow(x, 2) + Nat(GetBit(x, 2))
      && OnesBelow(x, 4) == OnesBelow(x, 3) + Nat(GetBit(x, 3));
    assert OnesBelow(x, 5) == OnesBelow(x, 4) + Nat(GetBit(x, 4))
      && OnesBelow(x, 6) == OnesBelow(x, 5) + Nat(GetBit(x, 5));
    assert OnesBelow(x, 7) == OnesBelow(x, 6) + Nat(GetBit(x, 6))
      && OnesBelow(x, 8) == OnesBelow(x, 7) + Nat(GetBit(x, 7));
  }

  lemma {:induction false} SumIsClear(lut: bv8 -> int, d: seq<bv8>)
    requires forall x: bv8 :: lut(x) == 8 - Ones(x)
    ensures Sum(lut, d) == ClearBits(d)
  {
    if d != [] {
      var p, x := d[..|d| - 1], d[|d| - 1];
      SumIsClear(lut, p);
      ClearByte(p, x);
      assert p + [x] == d;
    }
  }

  const CHUNK := 65536

  /** A little-endian word, as the word loop reads it. */
  function Word(b0: bv8, b1: bv8, b2: bv8, b3: bv8): bv32 {
    (b0 as bv32) | ((b1 as bv32) << 8) | ((b2 as bv32) << 16) | ((b3 as bv32) << 24)
  }

  function LowByte(w: bv32): bv8 {
    (w & 255) as bv8
  }

  lemma WordBytes(b0: bv8, b1: bv8, b2: bv8, b3: bv8)
    ensures var w := Word(b0, b1, b2, b3);
            LowByte(w) == b0 && LowByte(w >> 8) == b1 && LowByte(w >> 16) == b2 && LowByte(w >> 24) == b3
  {
  }

  /** The four table look-ups for one word. */
  method CountWord(lut: bv8 -> int, b0: bv8, b1: bv8, b2: bv8, b3: bv8, ghost rest: seq<bv8>) returns (n: int)
    ensures n + Sum(lut, rest) == Sum(lut, [b0, b1, b2, b3] + rest)
  {
    var w := Word(b0, b1, b2, b3);
    n := lut(LowByte(w)) + lut(LowByte(w >> 8)) + lut(LowByte(w >> 16)) + lut(LowByte(w >> 24));
    WordBytes(b0, b1, b2, b3);
    SumCons(lut, b3, rest);
    SumCons(lut, b2, [b3] + rest);
    SumCons(lut, b1, [b2] + ([b3] + rest));
    SumCons(lut, b0, [b1] + ([b2] + ([b3] + rest)));
    assert [b0, b1, b2, b3] + rest == [b0] + ([b1] + ([b2] + ([b3] + rest)));
  }

  /** The words of a chunk, from the last to the first. */
  method CountWords(lut: bv8 -> int, buf: seq<bv8>) returns (free: int)
    ensures free == Sum(lut, buf[..|buf| - |buf| % 4])
  {
    free := 0;
    var words := |buf| / 4;
    var p := words - 1;
    while p >= 0
      invariant -1 <= p < words
      invariant free == Sum(lut, buf[4 * (p + 1)..4 * words])
    {
      var i := 4 * p;
      var n := CountWord(lut, buf[i], buf[i + 1], buf[i + 2], buf[i + 3], buf[i + 4..4 * words]);
      assert buf[i..4 * words] == [buf[i], buf[i + 1], buf[i + 2], buf[i + 3]] + buf[i + 4..4 * words];
      free := free + n;
      p := p - 1;
    }
    assert buf[0..4 * words] == buf[..|buf| - |buf| % 4];
  }

  /** One chunk: the words, then the up to three bytes left over. */
  method CountChunk(lut: bv8 -> int, buf: seq<bv8>) returns (free: int)
    ensures free == Sum(lut, buf)
  {
    free := CountWords(lut, buf);
    var br := |buf|;
    assert free == Sum(lut,
      buf[..if br % 4 == 3 then br - 3 else if br % 4 == 2 then br - 2 else if br % 4 == 1 then br - 1 else br]);
    if br % 4 == 3 {
      free := free + lut(buf[br - 3]);
      SumSnoc(lut, buf, br - 3);
    }
    if br % 4 >= 2 {
      free := free + lut(buf[br - 2]);
      SumSnoc(lut, buf, br - 2);
    }
    if br % 4 >= 1 {
      free := free + lut(buf[br - 1]);
      SumSnoc(lut, buf, br - 1);
    }
    assert buf[..br] == buf;
  }

  lemma SumSnoc(lut: bv8 -> int, d: seq<bv8>, i: nat)
    requires i < |d|
    ensures Sum(lut, d[..i + 1]) == Sum(lut, d[..i]) + lut(d[i])
  {
    assert d[..i + 1][..i] == d[..i];
  }

  /** `ntfs_attr_get_free_bits`: the number of clear bits; an empty bitmap is an error. */
  method GetFreeBits(data: seq<bv8>) returns (free: int)
    ensures free == if data == [] then -1 else ClearBits(data)
  {
    var lut := (x: bv8) => Lut(x);
    var total := 0;
    free := 0;
    while true
      invariant 0 <= total <= |data| && free == Sum(lut, data[..total])
      decreases |data| - total
    {
      var br := if |data| - total < CHUNK then |data| - total else CHUNK;
      if br <= 0 {
        break;
      }
      var n := CountChunk(lut, data[total..total + br]);
      SumAppend(lut, data[..total], data[total..total + br]);
      assert data[..total + br] == data[..total] + data[total..total + br];
      total := total + br;
      free := free + n;
    }
    assert data[..total] == data;
    forall x: bv8 ensures lut(x) == 8 - Ones(x) {
      LutCounts(x);
    }
    SumIsClear(lut, data);
    if total == 0 {
      free := -1;
    }
  }

  // ----- Conservation of free space -----

  /** Bits of the run [lo, hi) among the first `n`. */
  function RunBelow(lo: nat, hi: nat, n: nat): nat {
    if n <= lo || hi <= lo then 0 else if n <= hi then n - lo else hi - lo
  }

  lemma {:induction false} ClearAfterSet(d: seq<bv8>, d': seq<bv8>, lo: nat, hi: nat, n: nat)
    requires RunSet(d, d', lo, hi, true) && n <= 8 * |d|
    requires forall k | lo <= k < hi && k < 8 * |d| :: !BitAt(d, k)
    ensures ClearBelow(d', n) == ClearBelow(d, n) - RunBelow(lo, hi, n)
  {
    if n > 0 {
      ClearAfterSet(d, d', lo, hi, n - 1);
    }
  }

  /** Allocating a run of clear bits takes exactly its length from the free count, and clearing the
      run gives back the very bitmap. */
  lemma AllocateThenFree(d: seq<bv8>, d': seq<bv8>, d'': seq<bv8>, lo: nat, count: nat)
    requires lo + count <= 8 * |d|
    requires forall k | lo <= k < lo + count :: !BitAt(d, k)
    requires RunSet(d, d', lo, lo + count, true) && RunSet(d', d'', lo, lo + count, false)
    ensures ClearBits(d') == ClearBits(d) - count
    ensures d'' == d
  {
    ClearAfterSet(d, d', lo, lo + count, 8 * |d|);
    forall i | 0 <= i < |d| ensures d''[i] == d[i] {
      forall j: nat | j < 8 ensures GetBit(d''[i], j) == GetBit(d[i], j) {
        assert BitAt(d'', 8 * i + j) == BitAt(d, 8 * i + j);
        assert (8 * i + j) / 8 == i && (8 * i + j) % 8 == j;
      }
      ByteExt(d''[i], d[i]);
    }
  }

  /** The run setter determines the bitmap. */
  lemma RunSetUnique(d: seq<bv8>, a: seq<bv8>, b: seq<bv8>, lo: int, hi: int, v: bool)
    requires RunSet(d, a, lo, hi, v) && RunSet(d, b, lo, hi, v)
    ensures a == b
  {
    forall i | 0 <= i < |d| ensures a[i] == b[i] {
      forall j: nat | j < 8 ensures GetBit(a[i], j) == GetBit(b[i], j) {
        assert BitAt(a, 8 * i + j) == BitAt(b, 8 * i + j);
        assert (8 * i + j) / 8 == i && (8 * i + j) % 8 == j;
      }
      ByteExt(a[i], b[i]);
    }
  }
}
