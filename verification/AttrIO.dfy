/** Reading and writing the bytes of a non-resident, uncompressed, unencrypted attribute through its
    runlist (attrib.c, runlist.c).  The flat view of the attribute is the reference: a byte array that
    is zero in holes and past the initialized size. */
module AttrIO {
  import opened Common

  const LCN_HOLE := -1
  const LCN_ENOENT := -3
  const LCN_EINVAL := -4
  const NTFS_BUF_SIZE := 8192
  const ENOENT := 2
  const EIO := 5
  const EINVAL := 22

  /** A runlist element: `length` clusters from virtual cluster `vcn` on. */
  datatype Run = Run(vcn: int, lcn: int, length: int)

  /** Contiguous from cluster zero, every run not empty and either a hole or on the volume, ended by
      an empty element; so the whole attribute is mapped. */
  ghost predicate MappedRunlist(rl: seq<Run>) {
    && |rl| > 0 && rl[0].vcn == 0
    && rl[|rl| - 1].length == 0 && rl[|rl| - 1].lcn == LCN_ENOENT
    && (forall i | 0 <= i < |rl| - 1 :: rl[i].length > 0 && (rl[i].lcn >= 0 || rl[i].lcn == LCN_HOLE))
    && (forall i | 0 <= i < |rl| - 1 :: rl[i + 1].vcn == rl[i].vcn + rl[i].length)
  }

  /** `ntfs_attr_find_vcn` on a runlist that needs no mapping: the element that holds `vcn`, or an
      error number. */
  method FindVcn(rl: seq<Run>, vcn: int) returns (found: bool, i: nat, errno: int)
    requires MappedRunlist(rl)
    ensures found <==> 0 <= vcn < rl[|rl| - 1].vcn
    ensures found ==> i < |rl| - 1 && rl[i].vcn <= vcn < rl[i + 1].vcn
    ensures !found ==> errno == if vcn < 0 then EINVAL else ENOENT
  {
    found, i, errno := false, 0, 0;
    if vcn < 0 {
      errno := EINVAL;
      return;
    }
    while rl[i].length != 0
      invariant i < |rl| && rl[i].vcn <= vcn
      decreases |rl| - i
    {
      if vcn < rl[i + 1].vcn {
        if rl[i].lcn >= LCN_HOLE {
          found := true;
          LaterVcn(rl, i + 1, |rl| - 1);
          return;
        }
        break;
      }
      i := i + 1;
    }
    assert i == |rl| - 1;
    var lcn := rl[i].lcn;
    errno := if lcn == LCN_ENOENT then ENOENT else if lcn == LCN_EINVAL then EINVAL else EIO;
  }

  lemma {:induction false} LaterVcn(rl: seq<Run>, i: nat, j: nat)
    requires MappedRunlist(rl) && i <= j < |rl|
    ensures rl[i].vcn <= rl[j].vcn
  {
    if i < j {
      LaterVcn(rl, i, j - 1);
    }
  }

  // ----- Extents: a runlist in bytes -----

  /** `bytes` bytes from position `start` of the attribute on; `at` is their place on the device, or
      -1 in a hole. */
  datatype Extent = Extent(start: int, bytes: int, at: int)

  function ExtentOf(r: Run, cs: nat): Extent {
    Extent(r.vcn * cs, r.length * cs, if r.lcn < 0 then -1 else r.lcn * cs)
  }

  function Extents(rl: seq<Run>, cs: nat): (es: seq<Extent>)
    requires |rl| > 0
    ensures |es| == |rl| - 1
  {
    seq(|rl| - 1, i requires 0 <= i < |rl| - 1 => ExtentOf(rl[i], cs))
  }

  ghost predicate Chained(es: seq<Extent>) {
    && (forall i | 0 <= i < |es| :: es[i].bytes > 0 && es[i].at >= -1)
    && (es != [] ==> es[0].start >= 0)
    && (forall i | 0 <= i < |es| - 1 :: es[i + 1].start == es[i].start + es[i].bytes)
  }

  function Total(es: seq<Extent>): int {
    if es == [] then 0 else es[|es| - 1].start + es[|es| - 1].bytes
  }

  lemma ExtentsChained(rl: seq<Run>, cs: nat)
    requires MappedRunlist(rl) && cs > 0
    ensures Chained(Extents(rl, cs)) && (|rl| > 1 ==> Extents(rl, cs)[0].start == 0)
    ensures Total(Extents(rl, cs)) == rl[|rl| - 1].vcn * cs
  {
    var es := Extents(rl, cs);
    forall i | 0 <= i < |es| ensures es[i].bytes > 0 && es[i].at >= -1 {
      Positive(rl[i].length, cs);
      if rl[i].lcn >= 0 { NonNegative(rl[i].lcn, cs); }
    }
    forall i | 0 <= i < |rl| - 1 ensures rl[i + 1].vcn * cs == es[i].start + es[i].bytes {
      Distribute(rl[i].vcn, rl[i].length, cs);
    }
  }

  lemma Positive(a: int, b: int)
    requires a > 0 && b > 0
    ensures a * b > 0
  {
  }

  lemma NonNegative(a: int, b: int)
    requires a >= 0 && b >= 0
    ensures a * b >= 0
  {
  }

  lemma Distribute(a: int, b: int, c: int)
    ensures (a + b) * c == a * c + b * c
  {
  }

  lemma {:induction false} Later(es: seq<Extent>, i: nat, j: nat)
    requires Chained(es) && i < j < |es|
    ensures es[i].start + es[i].bytes <= es[j].start
  {
    if i + 1 < j {
      Later(es, i, j - 1);
    }
  }

  predicate Holds(e: Extent, x: int) {
    e.start <= x < e.start + e.bytes
  }

  /** The device address of byte `x`, -1 if it is in a hole or past the end. */
  function Addr(es: seq<Extent>, x: int): int {
    if es == [] then -1
    else if Holds(es[0], x) then (if es[0].at < 0 then -1 else es[0].at + (x - es[0].start))
    else Addr(es[1..], x)
  }

  lemma {:induction false} AddrIn(es: seq<Extent>, i: nat, x: int)
    requires Chained(es) && i < |es| && Holds(es[i], x)
    ensures Addr(es, x) == if es[i].at < 0 then -1 else es[i].at + (x - es[i].start)
  {
    if i > 0 {
      Later(es, 0, i);
      AddrIn(es[1..], i - 1, x);
    }
  }

  lemma {:induction false} AddrFrom(es: seq<Extent>, x: int) returns (i: nat)
    requires Addr(es, x) >= 0
    ensures i < |es| && Holds(es[i], x) && es[i].at >= 0
  {
    if Holds(es[0], x) {
      i := 0;
    } else {
      i := AddrFrom(es[1..], x);
      i := i + 1;
    }
  }

  /** Allocated clusters are on the device, and none is used twice. */
  ghost predicate OnDevice(es: seq<Extent>, n: nat) {
    forall i | 0 <= i < |es| && es[i].at >= 0 :: es[i].at + es[i].bytes <= n
  }

  ghost predicate Disjoint(es: seq<Extent>) {
    forall i, j | 0 <= i < j < |es| && es[i].at >= 0 && es[j].at >= 0 ::
      es[i].at + es[i].bytes <= es[j].at || es[j].at + es[j].bytes <= es[i].at
  }

  /** A write inside one extent reaches exactly the bytes of the attribute that it means to. */
  lemma AddrHit(es: seq<Extent>, i: nat, q: int, n: nat, x: int)
    requires Chained(es) && Disjoint(es) && i < |es| && es[i].at >= 0
    requires es[i].start <= q && q + n <= es[i].start + es[i].bytes
    ensures var a := es[i].at + (q - es[i].start); (a <= Addr(es, x) < a + n) <==> q <= x < q + n
  {
    var a := es[i].at + (q - es[i].start);
    if q <= x < q + n {
      AddrIn(es, i, x);
    } else if a <= Addr(es, x) < a + n {
      var j := AddrFrom(es, x);
      AddrIn(es, j, x);
    }
  }

  // ----- The flat view -----

  function Raw(es: seq<Extent>, dev: seq<byte>, x: int): byte {
    if 0 <= Addr(es, x) < |dev| then dev[Addr(es, x)] else 0
  }

  /** Byte `x` of the attribute. */
  function ByteAt(es: seq<Extent>, dev: seq<byte>, init: int, x: int): byte {
    if x >= init then 0 else Raw(es, dev, x)
  }

  /** Byte `x` of the attribute, said of the runlist: in a run on the volume it is the byte of the device as far
      into the clusters of the run as it is into the run; in a hole and past the initialized size it is zero. */
  lemma ByteMeaning(rl: seq<Run>, cs: nat, dev: seq<byte>, init: int, i: nat, x: int)
    requires MappedRunlist(rl) && cs > 0 && i < |rl| - 1 && rl[i].vcn * cs <= x < rl[i + 1].vcn * cs
    ensures Addr(Extents(rl, cs), x) == if rl[i].lcn == LCN_HOLE then -1 else rl[i].lcn * cs + (x - rl[i].vcn * cs)
    ensures init <= x || rl[i].lcn == LCN_HOLE ==> ByteAt(Extents(rl, cs), dev, init, x) == 0
    ensures x < init && rl[i].lcn != LCN_HOLE && OnDevice(Extents(rl, cs), |dev|) ==>
              var a := rl[i].lcn * cs + (x - rl[i].vcn * cs);
              0 <= a < |dev| && ByteAt(Extents(rl, cs), dev, init, x) == dev[a]
  {
    ExtentsChained(rl, cs);
    Distribute(rl[i].vcn, rl[i].length, cs);
    AddrIn(Extents(rl, cs), i, x);
    if rl[i].lcn >= 0 {
      NonNegative(rl[i].lcn, cs);
    }
  }

  /** `s` is the flat view from `pos` on. */
  ghost predicate IsView(s: seq<byte>, es: seq<Extent>, dev: seq<byte>, init: int, pos: int) {
    forall k | 0 <= k < |s| :: s[k] == ByteAt(es, dev, init, pos + k)
  }

  lemma ViewAppend(s: seq<byte>, t: seq<byte>, es: seq<Extent>, dev: seq<byte>, init: int, pos: int)
    requires IsView(s, es, dev, init, pos) && IsView(t, es, dev, init, pos + |s|)
    ensures IsView(s + t, es, dev, init, pos)
  {
    forall k | 0 <= k < |s + t| ensures (s + t)[k] == ByteAt(es, dev, init, pos + k) {
      if k >= |s| {
        assert t[k - |s|] == ByteAt(es, dev, init, pos + |s| + (k - |s|));
      }
    }
  }

  /** What a hole or a stretch of the device contributes to the view. */
  lemma ViewOfExtent(s: seq<byte>, es: seq<Extent>, dev: seq<byte>, init: int, i: nat, ofs: int)
    requires Chained(es) && i < |es| && 0 <= ofs && ofs + |s| <= es[i].bytes && es[i].start + ofs + |s| <= init
    requires if es[i].at < 0 then s == Zeros(|s|) else
               es[i].at + ofs + |s| <= |dev| && s == dev[es[i].at + ofs..es[i].at + ofs + |s|]
    ensures IsView(s, es, dev, init, es[i].start + ofs)
  {
    forall k | 0 <= k < |s| ensures s[k] == ByteAt(es, dev, init, es[i].start + ofs + k) {
      AddrIn(es, i, es[i].start + ofs + k);
    }
  }

  lemma ViewPastInit(n: nat, es: seq<Extent>, dev: seq<byte>, init: int, pos: int)
    requires init <= pos
    ensures IsView(Zeros(n), es, dev, init, pos)
  {
  }

  /** The cluster of a position is in a run exactly when the position is in its extent. */
  lemma InExtent(rl: seq<Run>, cs: nat, i: nat, pos: nat)
    requires MappedRunlist(rl) && cs > 0 && i < |rl| - 1
    requires rl[i].vcn <= pos / cs < rl[i + 1].vcn
    ensures Holds(Extents(rl, cs)[i], pos)
  {
    var v := pos / cs;
    DivBounds(pos, cs);
    Monotone(rl[i].vcn, v, cs);
    Monotone(v + 1, rl[i].vcn + rl[i].length, cs);
    Distribute(v, 1, cs);
    Distribute(rl[i].vcn, rl[i].length, cs);
  }

  lemma DivBounds(x: nat, d: nat)
    requires d > 0
    ensures x / d * d <= x < x / d * d + d
  {
  }

  lemma Monotone(a: int, b: int, c: int)
    requires a <= b && c >= 0
    ensures a * c <= b * c
  {
  }

  /** Within the allocated clusters a position has a cluster. */
  lemma ClusterExists(n: int, cs: nat, pos: nat)
    requires cs > 0 && pos < n * cs
    ensures pos / cs < n
  {
    DivBounds(pos, cs);
    if pos / cs >= n {
      Monotone(n, pos / cs, cs);
    }
  }

  /** `ntfs_pread` on the device: short at its end. */
  method DevRead(dev: seq<byte>, at: nat, count: nat) returns (br: int, b: seq<byte>)
    ensures at + count <= |dev| ==> br == count
    ensures 0 <= br == |b| <= count
    ensures br > 0 ==> at + br <= |dev| && b == dev[at..at + br]
  {
    if at >= |dev| {
      return 0, [];
    }
    br := if at + count <= |dev| then count else |dev| - at;
    b := dev[at..at + br];
  }

  function Min(a: int, b: int): int {
    if a < b then a else b
  }

  /** The number of bytes that a read at `pos` is clipped to. */
  function Clipped(dataSize: int, pos: int, count: int): int {
    if pos + count > dataSize then (if pos >= dataSize then 0 else dataSize - pos) else count
  }

  /** The bytes that one run contributes: zeros for a hole, else what the device gives. */
  method ReadRun(r: Run, cs: nat, dev: seq<byte>, ofs: nat, toRead: nat,
                 ghost es: seq<Extent>, ghost i: nat, ghost init: int)
    returns (b: seq<byte>)
    requires Chained(es) && i < |es| && es[i] == ExtentOf(r, cs) && ofs + toRead <= es[i].bytes
    requires es[i].start + ofs + toRead <= init
    ensures |b| <= toRead && IsView(b, es, dev, init, es[i].start + ofs)
    ensures OnDevice(es, |dev|) ==> |b| == toRead
  {
    if r.lcn < 0 {
      b := Zeros(toRead);
    } else {
      NonNegative(r.lcn, cs);
      var br;
      br, b := DevRead(dev, r.lcn * cs + ofs, toRead);
      if br == 0 {
        return;
      }
    }
    ViewOfExtent(b, es, dev, init, i, ofs);
  }

  /** The gathering loop of `ntfs_attr_pread_i` from run `i0` on; the run after the last one is never
      reached, and no run is empty or unmapped. */
  method Gather(rl: seq<Run>, cs: nat, dev: seq<byte>, init: int, pos: nat, count0: nat, i0: nat, ghost es: seq<Extent>)
    returns (out: seq<byte>)
    requires MappedRunlist(rl) && es == Extents(rl, cs) && Chained(es)
    requires i0 < |es| && Holds(es[i0], pos) && pos + count0 <= init && pos + count0 <= Total(es)
    ensures IsView(out, es, dev, init, pos)
    ensures |out| <= count0 && (OnDevice(es, |dev|) ==> |out| == count0)
  {
    var i, count := i0, count0;
    var ofs := pos - rl[i].vcn * cs;
    out := [];
    while count != 0
      invariant 0 <= count && |out| + count == count0
      invariant count > 0 ==> i < |es| && 0 <= ofs < es[i].bytes && pos + |out| == es[i].start + ofs
      invariant IsView(out, es, dev, init, pos)
      decreases count
    {
      assert rl[i].length != 0 && es[i] == ExtentOf(rl[i], cs);
      var toRead := Min(count, rl[i].length * cs - ofs);
      var b := ReadRun(rl[i], cs, dev, ofs, toRead, es, i, init);
      ViewAppend(out, b, es, dev, init, pos);
      out := out + b;
      if |b| != toRead {
        return;
      }
      count := count - toRead;
      i, ofs := i + 1, 0;
    }
  }

  /** Locates the run of a position; inside the allocated clusters there always is one. */
  method Locate(rl: seq<Run>, cs: nat, pos: nat) returns (i: nat)
    requires MappedRunlist(rl) && cs > 0 && pos < rl[|rl| - 1].vcn * cs
    ensures i < |rl| - 1 && Holds(Extents(rl, cs)[i], pos)
    ensures Chained(Extents(rl, cs)) && Total(Extents(rl, cs)) == rl[|rl| - 1].vcn * cs
  {
    ClusterExists(rl[|rl| - 1].vcn, cs, pos);
    var found, errno;
    found, i, errno := FindVcn(rl, pos / cs);
    InExtent(rl, cs, i, pos);
    ExtentsChained(rl, cs);
  }

  /** `ntfs_attr_pread_i`: clipped at the data size, zero past the initialized size, gathered from the
      runs below it.  A device that ends early leaves a shorter, still correct, result, or an error. */
  method Pread(rl: seq<Run>, cs: nat, dataSize: nat, init: nat, dev: seq<byte>, pos: nat, count0: nat)
    returns (ret: int, errno: int, out: seq<byte>)
    requires MappedRunlist(rl) && cs > 0 && init <= dataSize <= rl[|rl| - 1].vcn * cs
    ensures ret == -1 || ret == |out| <= Clipped(dataSize, pos, count0)
    ensures IsView(out, Extents(rl, cs), dev, init, pos)
    ensures OnDevice(Extents(rl, cs), |dev|) ==> ret == Clipped(dataSize, pos, count0)
    ensures |out| <= count0 && (ret > 0 ==> pos + ret <= dataSize)
    ensures OnDevice(Extents(rl, cs), |dev|) && ret < count0 ==> dataSize <= pos + ret
    ensures ret == -1 ==> errno == EIO && out == []
  {
    ret, errno, out := 0, 0, [];
    var count := count0;
    if count == 0 {
      return;
    }
    if pos + count > dataSize {
      if pos >= dataSize {
        return;
      }
      count := dataSize - pos;
    }
    ghost var es := Extents(rl, cs);
    var total2 := 0;
    if pos + count > init {
      if pos >= init {
        out, ret := Zeros(count), count;
        ViewPastInit(count, es, dev, init, pos);
        return;
      }
      total2 := pos + count - init;
      count := count - total2;
    }
    var i := Locate(rl, cs, pos);
    out := Gather(rl, cs, dev, init, pos, count, i, es);
    if |out| != count {
      ret := |out|;
      if |out| == 0 {
        ret, errno := -1, EIO;
      }
      return;
    }
    if total2 > 0 {
      ViewPastInit(total2, es, dev, init, pos + count);
      ViewAppend(out, Zeros(total2), es, dev, init, pos);
      out := out + Zeros(total2);
    }
    ret := count + total2;
  }

  // ----- Writing -----

  function Patch(dev: seq<byte>, at: nat, b: seq<byte>): (r: seq<byte>)
    requires at + |b| <= |dev|
    ensures |r| == |dev|
    ensures forall x | 0 <= x < |dev| :: r[x] == if at <= x < at + |b| then b[x - at] else dev[x]
  {
    dev[..at] + b + dev[at + |b|..]
  }

  /** Below `limit`, the bytes [q, q + |b|) became `b`, except in holes, and no other byte changed. */
  ghost predicate Wrote(es: seq<Extent>, dev: seq<byte>, dev': seq<byte>, q: int, b: seq<byte>, limit: int) {
    && |dev'| == |dev|
    && forall x: int | x < limit ::
         Raw(es, dev', x) == if q <= x < q + |b| && Addr(es, x) >= 0 then b[x - q] else Raw(es, dev, x)
  }

  /** Device byte `a` holds one of the bytes [lo, hi) of the attribute. */
  ghost predicate Reaches(es: seq<Extent>, a: int, lo: int, hi: int) {
    exists x: int :: lo <= x < hi && Addr(es, x) == a
  }

  ghost predicate SameByte(es: seq<Extent>, dev: seq<byte>, dev': seq<byte>, lo: int, hi: int, a: int)
    requires |dev'| == |dev|
  {
    0 <= a < |dev| && !Reaches(es, a, lo, hi) ==> dev'[a] == dev[a]
  }

  /** On the whole device only bytes [lo, hi) of the attribute have changed. */
  ghost predicate Kept(es: seq<Extent>, dev: seq<byte>, dev': seq<byte>, lo: int, hi: int) {
    |dev'| == |dev|
    && forall a: int {:trigger SameByte(es, dev, dev', lo, hi, a)} :: SameByte(es, dev, dev', lo, hi, a)
  }

  lemma ReachesMore(es: seq<Extent>, a: int, lo: int, hi: int, lo': int, hi': int)
    requires lo' <= lo && hi <= hi'
    ensures Reaches(es, a, lo, hi) ==> Reaches(es, a, lo', hi')
  {
  }

  lemma KeptMore(es: seq<Extent>, d0: seq<byte>, d1: seq<byte>, d2: seq<byte>, lo: int, mid: int, mid': int, hi: int)
    requires Kept(es, d0, d1, lo, mid) && Kept(es, d1, d2, mid', hi) && lo <= mid' && mid <= hi
    ensures Kept(es, d0, d2, lo, hi)
  {
    forall a: int ensures SameByte(es, d0, d2, lo, hi, a) {
      ReachesMore(es, a, lo, mid, lo, hi);
      ReachesMore(es, a, mid', hi, lo, hi);
      assert SameByte(es, d0, d1, lo, mid, a) && SameByte(es, d1, d2, mid', hi, a);
    }
  }

  lemma PatchKept(es: seq<Extent>, dev: seq<byte>, i: nat, ofs: nat, b: seq<byte>, q: int, end: int, dev': seq<byte>)
    requires Chained(es) && OnDevice(es, |dev|) && i < |es| && es[i].at >= 0 && ofs + |b| <= es[i].bytes
    requires es[i].at + ofs + |b| <= |dev| && dev' == Patch(dev, es[i].at + ofs, b)
    requires q == es[i].start + ofs && end == q + |b|
    ensures Kept(es, dev, dev', q, end)
  {
    var c := es[i].at + ofs;
    forall a: int ensures SameByte(es, dev, dev', q, end, a) {
      if c <= a < c + |b| {
        AddrIn(es, i, q + (a - c));
        assert Addr(es, q + (a - c)) == a;
      }
    }
  }

  /** Exactly `b` is written at `q`: as far as the view shows, and with nothing else changed on the device. */
  ghost predicate Changed(es: seq<Extent>, dev: seq<byte>, dev': seq<byte>, q: int, b: seq<byte>, limit: int) {
    Wrote(es, dev, dev', q, b, limit) && Kept(es, dev, dev', q, q + |b|)
  }

  lemma ChangedMore(es: seq<Extent>, d0: seq<byte>, d1: seq<byte>, d2: seq<byte>, q: int, a: seq<byte>, q': int,
                    b: seq<byte>, ab: seq<byte>, limit: int)
    requires Changed(es, d0, d1, q, a, limit) && Changed(es, d1, d2, q', b, limit) && q' == q + |a| && ab == a + b
    ensures Changed(es, d0, d2, q, ab, limit)
  {
    WroteMore(es, d0, d1, d2, q, a, b, limit);
    KeptMore(es, d0, d1, d2, q, q + |a|, q', q + |ab|);
  }

  lemma WroteNothing(es: seq<Extent>, dev: seq<byte>, q: int, limit: int)
    ensures Changed(es, dev, dev, q, [], limit)
  {
  }

  lemma WroteMore(es: seq<Extent>, d0: seq<byte>, d1: seq<byte>, d2: seq<byte>, q: int, a: seq<byte>, b: seq<byte>,
                  limit: int)
    requires Wrote(es, d0, d1, q, a, limit) && Wrote(es, d1, d2, q + |a|, b, limit)
    ensures Wrote(es, d0, d2, q, a + b, limit)
  {
    forall x: int | x < limit
      ensures Raw(es, d2, x) == if q <= x < q + |a + b| && Addr(es, x) >= 0 then (a + b)[x - q] else Raw(es, d0, x)
    {
      assert Raw(es, d1, x) == if q <= x < q + |a| && Addr(es, x) >= 0 then a[x - q] else Raw(es, d0, x);
    }
  }

  /** Bytes written at or past the limit do not count. */
  lemma WroteTruncated(es: seq<Extent>, d0: seq<byte>, d1: seq<byte>, q: int, a: seq<byte>, n: nat, limit: int)
    requires Wrote(es, d0, d1, q, a, limit) && n <= |a| && (n == |a| || limit <= q + n)
    ensures Wrote(es, d0, d1, q, a[..n], limit)
  {
  }

  /** A write to the device inside one extent. */
  lemma PatchWrote(es: seq<Extent>, dev: seq<byte>, i: nat, ofs: nat, b: seq<byte>, limit: int)
    requires Chained(es) && Disjoint(es) && OnDevice(es, |dev|) && i < |es| && es[i].at >= 0 && ofs + |b| <= es[i].bytes
    ensures es[i].at + ofs + |b| <= |dev|
    ensures Wrote(es, dev, Patch(dev, es[i].at + ofs, b), es[i].start + ofs, b, limit)
  {
    var q, a := es[i].start + ofs, es[i].at + ofs;
    var dev' := Patch(dev, a, b);
    forall x: int | x < limit
      ensures Raw(es, dev', x) == if q <= x < q + |b| && Addr(es, x) >= 0 then b[x - q] else Raw(es, dev, x)
    {
      AddrHit(es, i, q, |b|, x);
      if q <= x < q + |b| {
        AddrIn(es, i, x);
      }
    }
  }

  /** Skipping a hole leaves the device as it should be. */
  lemma HoleWrote(es: seq<Extent>, dev: seq<byte>, i: nat, ofs: nat, b: seq<byte>, limit: int)
    requires Chained(es) && i < |es| && es[i].at < 0 && ofs + |b| <= es[i].bytes
    ensures Changed(es, dev, dev, es[i].start + ofs, b, limit)
  {
    forall x: int | es[i].start + ofs <= x < es[i].start + ofs + |b| ensures Addr(es, x) < 0 {
      AddrIn(es, i, x);
    }
  }

  /** Writes inside run `i`, or passes over it if it is a hole. */
  method WritePart(rl: seq<Run>, cs: nat, dev: seq<byte>, i: nat, ofs: nat, part: seq<byte>, ghost es: seq<Extent>,
                   ghost limit: int)
    returns (dev': seq<byte>)
    requires MappedRunlist(rl) && es == Extents(rl, cs) && Chained(es) && Disjoint(es) && OnDevice(es, |dev|)
    requires i < |es| && ofs + |part| <= es[i].bytes
    ensures |dev'| == |dev| && Changed(es, dev, dev', es[i].start + ofs, part, limit)
  {
    dev' := dev;
    assert es[i] == ExtentOf(rl[i], cs);
    if rl[i].lcn < 0 {
      HoleWrote(es, dev, i, ofs, part, limit);
    } else {
      NonNegative(rl[i].lcn, cs);
      PatchWrote(es, dev, i, ofs, part, limit);
      dev' := Patch(dev, rl[i].lcn * cs + ofs, part);
      PatchKept(es, dev, i, ofs, part, es[i].start + ofs, es[i].start + ofs + |part|, dev');
    }
  }

  /** `ntfs_rl_pwrite`: scatters from run `i0`, which starts at or before `pos`, passing over holes. */
  method RlPwrite(rl: seq<Run>, cs: nat, dev: seq<byte>, i0: nat, pos: nat, b: seq<byte>, ghost es: seq<Extent>,
                  ghost limit: int)
    returns (total: int, dev': seq<byte>)
    requires MappedRunlist(rl) && es == Extents(rl, cs) && Chained(es) && Disjoint(es) && OnDevice(es, |dev|)
    requires i0 < |es| && es[i0].start <= pos && pos + |b| <= Total(es)
    ensures total == |b| && Changed(es, dev, dev', pos, b, limit)
  {
    dev', total := dev, 0;
    WroteNothing(es, dev, pos, limit);
    if |b| == 0 {
      assert b == [];
      return;
    }
    var i := Seek(rl, cs, i0, pos, es);
    var ofs := pos - rl[i].vcn * cs;
    while total < |b|
      invariant 0 <= total <= |b| && |dev'| == |dev|
      invariant total < |b| ==> i < |es| && 0 <= ofs < es[i].bytes && pos + total == es[i].start + ofs
      invariant Changed(es, dev, dev', pos, b[..total], limit)
    {
      assert rl[i].length != 0 && es[i] == ExtentOf(rl[i], cs);
      var toWrite := Min(|b| - total, rl[i].length * cs - ofs);
      ghost var d1 := dev';
      var part := b[total..total + toWrite];
      dev' := WritePart(rl, cs, dev', i, ofs, part, es, limit);
      assert b[..total + toWrite] == b[..total] + part;
      ChangedMore(es, dev, d1, dev', pos, b[..total], pos + total, part, b[..total + toWrite], limit);
      total := total + toWrite;
      i, ofs := i + 1, 0;
    }
    assert b[..total] == b;
  }

  /** Advances to the run that holds a position. */
  method Seek(rl: seq<Run>, cs: nat, i0: nat, pos: nat, ghost es: seq<Extent>) returns (i: nat)
    requires MappedRunlist(rl) && es == Extents(rl, cs) && Chained(es)
    requires i0 < |es| && es[i0].start <= pos < Total(es)
    ensures i0 <= i < |es| && Holds(es[i], pos)
  {
    i := i0;
    while rl[i].length != 0 && rl[i].vcn * cs + rl[i].length * cs <= pos
      invariant i0 <= i < |es| && es[i].start <= pos
      decreases |es| - i
    {
      assert es[i] == ExtentOf(rl[i], cs) && rl[i].length != 0;
      i := i + 1;
    }
    assert es[i] == ExtentOf(rl[i], cs);
  }

  /** `ntfs_attr_fill_zero`: zeros a range in pieces, without touching holes. */
  method FillZero(rl: seq<Run>, cs: nat, dev: seq<byte>, pos0: nat, count: nat, ghost es: seq<Extent>, ghost limit: int)
    returns (dev': seq<byte>)
    requires MappedRunlist(rl) && es == Extents(rl, cs) && Chained(es) && Disjoint(es) && OnDevice(es, |dev|)
    requires |rl| > 1 && es[0].start == 0 && pos0 + count <= Total(es)
    ensures Changed(es, dev, dev', pos0, Zeros(count), limit)
  {
    dev' := dev;
    var pos, end, i := pos0, pos0 + count, 0;
    WroteNothing(es, dev, pos0, limit);
    assert Zeros(0) == [];
    while pos < end
      invariant pos0 <= pos <= end && i < |es| && es[i].start <= pos && |dev'| == |dev|
      invariant Changed(es, dev, dev', pos0, Zeros(pos - pos0), limit)
      decreases end - pos
    {
      i := Seek(rl, cs, i, pos, es);
      assert es[i] == ExtentOf(rl[i], cs);
      var size := Min(end - pos, NTFS_BUF_SIZE);
      ghost var d1, was := dev', pos;
      if rl[i].lcn == LCN_HOLE && rl[i].vcn * cs <= pos && rl[i].vcn * cs + rl[i].length * cs >= pos + size {
        size := Min(end - pos, rl[i].vcn * cs - pos + rl[i].length * cs);
        HoleWrote(es, dev', i, pos - es[i].start, Zeros(size), limit);
      } else {
        var written;
        written, dev' := RlPwrite(rl, cs, dev', i, pos, Zeros(size), es, limit);
        size := written;
      }
      assert Zeros(was - pos0) + Zeros(size) == Zeros(was + size - pos0);
      ChangedMore(es, dev, d1, dev', pos0, Zeros(was - pos0), was, Zeros(size), Zeros(was + size - pos0), limit);
      pos := pos + size;
    }
  }

  function RoundUp(x: int, cs: nat): int
    requires cs > 0
  {
    (x + cs - 1) / cs * cs
  }

  /** The first multiple of the cluster size that is not below. */
  lemma RoundUpMeaning(x: nat, cs: nat)
    requires cs > 0
    ensures x <= RoundUp(x, cs) < x + cs && RoundUp(x, cs) % cs == 0
  {
    DivBounds(x + cs - 1, cs);
    MultipleOf((x + cs - 1) / cs, cs);
  }

  lemma MultipleOf(k: nat, cs: nat)
    requires cs > 0
    ensures k * cs % cs == 0
  {
    var q, r := k * cs / cs, k * cs % cs;
    assert k * cs == q * cs + r;
    if k < q {
      Monotone(k + 1, q, cs);
      Distribute(k, 1, cs);
    } else if q < k {
      Monotone(q + 1, k, cs);
      Distribute(q, 1, cs);
    }
  }

  /** Padding to the end of the cluster stays inside the run. */
  lemma RoundUpBound(x: nat, k: int, cs: nat)
    requires cs > 0 && x <= k * cs
    ensures x <= RoundUp(x, cs) <= k * cs
  {
    DivBounds(x + cs - 1, cs);
    var d := (x + cs - 1) / cs;
    if d > k {
      Monotone(k + 1, d, cs);
      Distribute(k, 1, cs);
    }
  }

  /** Where a write that ends at `end` stops: at the end of the cluster if it ends with the initialized data. */
  ghost function WriteEnd(end: int, init: int, cs: nat): int
    requires cs > 0
  {
    if end == init then RoundUp(end, cs) else end
  }

  /** The rest of the cluster behind the initialized data is zero. */
  ghost predicate Padded(es: seq<Extent>, dev: seq<byte>, init: int, cs: nat)
    requires cs > 0
  {
    forall x: int | init <= x < RoundUp(init, cs) :: Raw(es, dev, x) == 0
  }

  lemma PaddedEnd(es: seq<Extent>, dev: seq<byte>, i: nat, ofs: nat, cb: seq<byte>, n: nat, init: int, cs: nat,
                  dev': seq<byte>)
    requires cs > 0 && Chained(es) && OnDevice(es, |dev|) && i < |es| && es[i].at >= 0 && ofs + |cb| <= es[i].bytes
    requires n <= |cb| && es[i].start + ofs + n == init && init + |cb| - n == RoundUp(init, cs)
    requires forall k | n <= k < |cb| :: cb[k] == 0
    requires es[i].at + ofs + |cb| <= |dev| && dev' == Patch(dev, es[i].at + ofs, cb)
    ensures Padded(es, dev', init, cs)
  {
    var end := RoundUp(init, cs);
    forall x: int | init <= x < end ensures Raw(es, dev', x) == 0 {
      AddrIn(es, i, x);
    }
  }

  /** What the scatter loop has done when `b` is written at `pos`. */
  ghost predicate ScatteredTo(es: seq<Extent>, dev: seq<byte>, dev': seq<byte>, pos: int, b: seq<byte>, init: int,
                          cs: nat)
    requires cs > 0
  {
    && Wrote(es, dev, dev', pos, b, init)
    && Kept(es, dev, dev', pos, WriteEnd(pos + |b|, init, cs))
    && (pos + |b| == init ==> Padded(es, dev', init, cs))
  }

  lemma ScatteredMore(es: seq<Extent>, d0: seq<byte>, d1: seq<byte>, d2: seq<byte>, pos: nat, a: seq<byte>, q: int,
                      b: seq<byte>, ab: seq<byte>, init: int, cs: nat)
    requires cs > 0 && q == pos + |a| && ab == a + b && q < init && Wrote(es, d0, d1, pos, a, init)
    requires Kept(es, d0, d1, pos, q) && ScatteredTo(es, d1, d2, q, b, init, cs)
    ensures ScatteredTo(es, d0, d2, pos, ab, init, cs)
  {
    WroteMore(es, d0, d1, d2, pos, a, b, init);
    RoundUpMeaning(pos + |ab|, cs);
    KeptMore(es, d0, d1, d2, pos, q, q, WriteEnd(pos + |ab|, init, cs));
  }

  /** One write of the scatter loop: `part` at `ofs` of run `i`, padded with zeros to the end of the
      cluster if it ends at the initialized size. */
  method WriteRun(r: Run, cs: nat, dev: seq<byte>, ofs: nat, part: seq<byte>, init: int, ghost es: seq<Extent>,
                  ghost i: nat)
    returns (dev': seq<byte>)
    requires cs > 0 && Chained(es) && Disjoint(es) && OnDevice(es, |dev|) && i < |es|
    requires es[i] == ExtentOf(r, cs) && r.lcn >= 0 && r.vcn >= 0 && r.length >= 0
    requires ofs + |part| <= es[i].bytes && es[i].start + ofs + |part| <= init
    ensures ScatteredTo(es, dev, dev', es[i].start + ofs, part, init, cs)
  {
    var wpos := r.lcn * cs + ofs;
    var wend := r.vcn * cs + ofs + |part|;
    NonNegative(r.vcn, cs);
    NonNegative(r.lcn, cs);
    Distribute(r.vcn, r.length, cs);
    RoundUpBound(wend, r.vcn + r.length, cs);
    var rounding := RoundUp(wend, cs) - wend;
    var cb := part;
    if rounding != 0 && wend == init {
      cb := part + Zeros(rounding);
    }
    PatchWrote(es, dev, i, ofs, cb, init);
    dev' := Patch(dev, wpos, cb);
    PatchKept(es, dev, i, ofs, cb, es[i].start + ofs, WriteEnd(wend, init, cs), dev');
    if wend == init {
      PaddedEnd(es, dev, i, ofs, cb, |part|, init, cs, dev');
    }
    WroteTruncated(es, dev, dev', es[i].start + ofs, cb, |part|, init);
    assert cb[..|part|] == part;
  }

  /** No byte of the range is in a hole. */
  ghost predicate NoHole(es: seq<Extent>, pos: int, n: int) {
    forall x: int | pos <= x < pos + n :: Addr(es, x) >= 0
  }

  /** `total` bytes of `b` have been written at `pos`. */
  ghost predicate Progress(es: seq<Extent>, dev: seq<byte>, dev': seq<byte>, pos: int, b: seq<byte>, total: int,
                          init: int,
                           cs: nat)
    requires cs > 0
  {
    && 0 <= total <= |b|
    && if total == 0 then dev' == dev else ScatteredTo(es, dev, dev', pos, b[..total], init, cs)
  }

  lemma ProgressMore(es: seq<Extent>, d0: seq<byte>, d1: seq<byte>, d2: seq<byte>, pos: nat, b: seq<byte>, total: nat,
                     n: nat, init: int, cs: nat)
    requires cs > 0 && 0 < n && total + n <= |b| && pos + total < init && Progress(es, d0, d1, pos, b, total, init, cs)
    requires ScatteredTo(es, d1, d2, pos + total, b[total..total + n], init, cs)
    ensures Progress(es, d0, d2, pos, b, total + n, init, cs)
  {
    WroteNothing(es, d0, pos, init);
    var a, ab := b[..total], b[..total + n];
    assert ab == a + b[total..total + n];
    ScatteredMore(es, d0, d1, d2, pos, a, pos + total, b[total..total + n], ab, init, cs);
  }

  /** The scatter loop of `ntfs_attr_pwrite_i` from the run that holds `pos`. */
  method Scatter(rl: seq<Run>, cs: nat, dev: seq<byte>, pos: nat, b: seq<byte>, init: int, i0: nat,
                 ghost es: seq<Extent>)
    returns (dev': seq<byte>)
    requires MappedRunlist(rl) && cs > 0 && es == Extents(rl, cs) && Chained(es) && Disjoint(es) && OnDevice(es, |dev|)
    requires i0 < |es| && Holds(es[i0], pos) && pos + |b| <= init && pos + |b| <= Total(es) && NoHole(es, pos, |b|)
    ensures b != [] ==> ScatteredTo(es, dev, dev', pos, b, init, cs)
    ensures b == [] ==> dev' == dev
  {
    dev' := dev;
    var i, total := i0, 0;
    var ofs := pos - rl[i].vcn * cs;
    while total < |b|
      invariant 0 <= total <= |b| && |dev'| == |dev|
      invariant total < |b| ==> i < |es| && 0 <= ofs < es[i].bytes && pos + total == es[i].start + ofs
      invariant Progress(es, dev, dev', pos, b, total, init, cs)
    {
      assert rl[i].length != 0 && es[i] == ExtentOf(rl[i], cs);
      AddrIn(es, i, pos + total);
      LaterVcn(rl, 0, i);
      var toWrite := Min(|b| - total, rl[i].length * cs - ofs);
      ghost var d1 := dev';
      var part := b[total..total + toWrite];
      dev' := WriteRun(rl[i], cs, dev', ofs, part, init, es, i);
      ProgressMore(es, dev, d1, dev', pos, b, total, toWrite, init, cs);
      total := total + toWrite;
      i, ofs := i + 1, 0;
    }
    assert b[..total] == b;
  }

  /** The attribute as a flat array of `n` bytes. */
  ghost function Flat(es: seq<Extent>, dev: seq<byte>, init: int, n: nat): (v: seq<byte>)
    ensures |v| == n && forall x | 0 <= x < n :: v[x] == ByteAt(es, dev, init, x)
  {
    seq(n, x => ByteAt(es, dev, init, x))
  }

  /** The zeroed gap, the written bytes and the padding, seen through the old and new initialized size. */
  lemma FlatAfterWrite(es: seq<Extent>, d0: seq<byte>, d1: seq<byte>, d2: seq<byte>, init0: nat, pos: nat, b: seq<byte>,
                       init1: int, n: nat)
    requires init1 == (if pos + |b| > init0 then pos + |b| else init0) && pos + |b| <= n
    requires Wrote(es, d0, d1, init0, Zeros(if pos > init0 then pos - init0 else 0), init1)
    requires Wrote(es, d1, d2, pos, b, init1) && NoHole(es, pos, |b|)
    ensures var v := Flat(es, d0, init0, n); Flat(es, d2, init1, n) == v[..pos] + b + v[pos + |b|..]
  {
    var v := Flat(es, d0, init0, n);
    var u := v[..pos] + b + v[pos + |b|..];
    forall x: nat | x < n ensures ByteAt(es, d2, init1, x) == u[x] {
      if x < init1 {
        assert Raw(es, d2, x) == if pos <= x < pos + |b| && Addr(es, x) >= 0 then b[x - pos] else Raw(es, d1, x);
      }
    }
  }

  /** `ntfs_attr_pwrite_i` for a write that needs neither a larger attribute nor new clusters: it
      replaces exactly the written bytes of the flat view, although it zeroes the gap past the
      initialized size and pads the last cluster. */
  method Pwrite(rl: seq<Run>, cs: nat, dataSize: nat, init0: nat, dev: seq<byte>, pos: nat, b: seq<byte>)
    returns (total: int, init: nat, dev': seq<byte>)
    requires MappedRunlist(rl) && cs > 0 && init0 <= dataSize <= rl[|rl| - 1].vcn * cs
    requires OnDevice(Extents(rl, cs), |dev|) && Disjoint(Extents(rl, cs))
    requires pos + |b| <= dataSize && NoHole(Extents(rl, cs), pos, |b|)
    ensures total == |b| && |dev'| == |dev|
    ensures init == if |b| > 0 && pos + |b| > init0 then pos + |b| else init0
    ensures var v := Flat(Extents(rl, cs), dev, init0, dataSize);
            Flat(Extents(rl, cs), dev', init, dataSize) == v[..pos] + b + v[pos + |b|..]
    ensures Kept(Extents(rl, cs), dev, dev', Min(pos, init0),
            if |b| > 0 then WriteEnd(pos + |b|, init, cs) else Min(pos, init0))
    ensures |b| > 0 && pos + |b| == init ==> Padded(Extents(rl, cs), dev', init, cs)
  {
    ghost var es := Extents(rl, cs);
    total, init, dev' := 0, init0, dev;
    if |b| == 0 {
      ghost var v := Flat(es, dev, init0, dataSize);
      assert b == [] && v[..pos] + b + v[pos..] == v;
      return;
    }
    var i := Locate(rl, cs, pos);
    ExtentsChained(rl, cs);
    ghost var limit := if pos + |b| > init0 then pos + |b| else init0;
    assert Zeros(0) == [];
    WroteNothing(es, dev, init0, limit);
    if pos + |b| > init {
      if pos > init {
        dev' := FillZero(rl, cs, dev, init, pos - init, es, limit);
      }
      init := pos + |b|;
    }
    ghost var d1 := dev';
    dev' := Scatter(rl, cs, dev', pos, b, init, i, es);
    total := |b|;
    RoundUpMeaning(pos + |b|, cs);
    KeptMore(es, dev, d1, dev', Min(pos, init0), pos, pos, WriteEnd(pos + |b|, init, cs));
    FlatAfterWrite(es, dev, d1, dev', init0, pos, b, limit, dataSize);
  }

  /** An open attribute on its volume.  Reads and writes mean reads and writes of the flat view. */
  class NtfsAttr {
    const rl: seq<Run>
    const clusterSize: nat
    const dataSize: nat
    var initializedSize: nat
    var dev: seq<byte>

    constructor (rl: seq<Run>, clusterSize: nat, dataSize: nat, init: nat, dev: seq<byte>)
      requires clusterSize > 0 && MappedRunlist(rl) && init <= dataSize <= rl[|rl| - 1].vcn * clusterSize
      requires OnDevice(Extents(rl, clusterSize), |dev|) && Disjoint(Extents(rl, clusterSize))
      ensures Valid() && this.rl == rl && this.clusterSize == clusterSize && this.dataSize == dataSize
      ensures this.initializedSize == init && this.dev == dev
    {
      this.rl, this.clusterSize, this.dataSize, this.initializedSize, this.dev := rl, clusterSize, dataSize, init, dev;
    }

    ghost predicate Valid()
      reads this
    {
      && clusterSize > 0 && MappedRunlist(rl)
      && initializedSize <= dataSize <= rl[|rl| - 1].vcn * clusterSize
      && OnDevice(Extents(rl, clusterSize), |dev|) && Disjoint(Extents(rl, clusterSize))
    }

    /** The attribute as a flat array. */
    ghost function View(): (v: seq<byte>)
      reads this
      requires Valid()
      ensures |v| == dataSize
    {
      Flat(Extents(rl, clusterSize), dev, initializedSize, dataSize)
    }

    method Read(pos: nat, count: nat) returns (ret: int, out: seq<byte>)
      requires Valid()
      ensures ret == |out| == Clipped(dataSize, pos, count)
      ensures 0 <= ret <= count && (ret > 0 ==> pos + ret <= dataSize) && (ret < count ==> dataSize <= pos + ret)
      ensures ret > 0 ==> out == View()[pos..pos + ret]
    {
      var errno;
      ret, errno, out := Pread(rl, clusterSize, dataSize, initializedSize, dev, pos, count);
      assert ret > 0 ==> forall k | 0 <= k < ret :: out[k] == View()[pos + k];
    }

    method Write(pos: nat, b: seq<byte>) returns (ret: int)
      requires Valid() && pos + |b| <= dataSize && NoHole(Extents(rl, clusterSize), pos, |b|)
      modifies this
      ensures Valid() && ret == |b|
      ensures View() == old(View())[..pos] + b + old(View())[pos + |b|..]
      ensures initializedSize == if |b| > 0 && pos + |b| > old(initializedSize) then pos + |b| else old(initializedSize)
      ensures Kept(Extents(rl, clusterSize), old(dev), dev, Min(pos, old(initializedSize)),
                   if |b| > 0 then WriteEnd(pos + |b|, initializedSize, clusterSize) else
                     Min(pos, old(initializedSize)))
      ensures |b| > 0 && pos + |b| == initializedSize ==>
                Padded(Extents(rl, clusterSize), dev, initializedSize, clusterSize)
    {
      ret, initializedSize, dev := Pwrite(rl, clusterSize, dataSize, initializedSize, dev, pos, b);
    }
  }
}
