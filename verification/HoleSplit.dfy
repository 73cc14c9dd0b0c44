/** Splitting a hole of a compressed attribute before data is written into it (attrib.c,
    `split_compressed_hole`).  The runlist array is edited in place; the clusters it means stay. */
module HoleSplit {
  import opened AttrIO

  // ----- What a runlist means -----

  /** Contiguous non-empty runs and an empty last element. */
  ghost predicate Chain(rl: seq<Run>) {
    && |rl| > 0 && rl[|rl| - 1].length == 0
    && (forall i | 0 <= i < |rl| - 1 :: rl[i].length > 0 && rl[i + 1].vcn == rl[i].vcn + rl[i].length)
  }

  predicate InRun(r: Run, v: int) {
    r.vcn <= v < r.vcn + r.length
  }

  function RunCluster(r: Run, v: int): int {
    if r.lcn < 0 then r.lcn else r.lcn + (v - r.vcn)
  }

  /** The cluster that holds virtual cluster `v`, or the negative code of its run. */
  function ClusterAt(rl: seq<Run>, v: int): int {
    if rl == [] then LCN_ENOENT
    else if InRun(rl[0], v) then RunCluster(rl[0], v)
    else ClusterAt(rl[1..], v)
  }

  ghost predicate SameClusters(rl: seq<Run>, rl': seq<Run>) {
    forall v: int :: ClusterAt(rl', v) == ClusterAt(rl, v)
  }

  predicate Covered(rl: seq<Run>, v: int) {
    rl != [] && (InRun(rl[0], v) || Covered(rl[1..], v))
  }

  lemma {:induction false} ClusterAppend(a: seq<Run>, b: seq<Run>, v: int)
    ensures ClusterAt(a + b, v) == if Covered(a, v) then ClusterAt(a, v) else ClusterAt(b, v)
    ensures Covered(a + b, v) <==> Covered(a, v) || Covered(b, v)
  {
    if a == [] {
      assert a + b == b;
    } else {
      assert (a + b)[1..] == a[1..] + b;
      ClusterAppend(a[1..], b, v);
    }
  }

  // ----- Replacing a hole by parts of it -----

  /** Consecutive holes that together cover `h`. */
  ghost predicate Parts(h: Run, m: seq<Run>) {
    && |m| > 0 && m[0].vcn == h.vcn
    && (forall i | 0 <= i < |m| :: m[i].lcn == LCN_HOLE && m[i].length > 0)
    && (forall i | 0 <= i < |m| - 1 :: m[i + 1].vcn == m[i].vcn + m[i].length)
    && m[|m| - 1].vcn + m[|m| - 1].length == h.vcn + h.length
  }

  lemma {:induction false} PartsMean(h: Run, m: seq<Run>, v: int)
    requires Parts(h, m)
    ensures Covered(m, v) <==> InRun(h, v)
    ensures InRun(h, v) ==> ClusterAt(m, v) == LCN_HOLE
    decreases |m|
  {
    if |m| > 1 {
      PartsMean(Run(m[1].vcn, LCN_HOLE, h.vcn + h.length - m[1].vcn), m[1..], v);
      PartsAhead(m[1..], h.vcn + h.length);
    } else {
      assert m[1..] == [];
    }
  }

  lemma {:induction false} PartsAhead(m: seq<Run>, end: int)
    requires |m| > 0 && m[|m| - 1].vcn + m[|m| - 1].length == end
    requires forall i | 0 <= i < |m| :: m[i].length > 0
    requires forall i | 0 <= i < |m| - 1 :: m[i + 1].vcn == m[i].vcn + m[i].length
    ensures m[0].vcn < end
  {
    if |m| > 1 {
      PartsAhead(m[1..], end);
    }
  }

  /** The map of virtual to logical clusters does not notice the split, and the chain stays a chain. */
  lemma SplitKeepsClusters(a: seq<Run>, h: Run, m: seq<Run>, t: seq<Run>)
    requires Chain(a + [h] + t) && h.lcn == LCN_HOLE && |t| > 0 && Parts(h, m)
    ensures Chain(a + m + t) && SameClusters(a + [h] + t, a + m + t)
  {
    var rl, rl' := a + [h] + t, a + m + t;
    assert rl[|a|] == h && rl[|a| + 1] == t[0];
    forall i | 0 <= i < |rl'| - 1 ensures rl'[i].length > 0 && rl'[i + 1].vcn == rl'[i].vcn + rl'[i].length {
      if i < |a| {
        assert rl[i] == rl'[i] && rl'[i + 1].vcn == rl[i + 1].vcn;
      } else if i < |a| + |m| - 1 {
        assert rl'[i] == m[i - |a|] && rl'[i + 1] == m[i - |a| + 1];
      } else if i >= |a| + |m| {
        assert rl'[i] == rl[i - |m| + 1] && rl'[i + 1] == rl[i - |m| + 2];
      }
    }
    forall v: int ensures ClusterAt(rl', v) == ClusterAt(rl, v) {
      PartsMean(h, m, v);
      ClusterAppend(a + m, t, v);
      ClusterAppend(a, m, v);
      ClusterAppend(a + [h], t, v);
      ClusterAppend(a, [h], v);
      assert [h][1..] == [];
    }
  }

  // ----- Compression blocks -----

  /** The end of the compression block of a cluster: the source computes it with bit masks, the
      block size being a power of two. */
  function BlockEnd(v: int, cbc: nat): int
    requires cbc > 0
  {
    v / cbc * cbc + cbc
  }

  lemma BlockOf(v: int, w: int, cbc: nat)
    requires cbc > 0
    ensures BlockEnd(v, cbc) - cbc <= v < BlockEnd(v, cbc)
    ensures BlockEnd(v, cbc) == BlockEnd(w, cbc) <==> v / cbc == w / cbc
    ensures BlockEnd(v, cbc) - cbc <= w < BlockEnd(v, cbc) <==> v / cbc == w / cbc
  {
    EuclidBounds(v, cbc);
    EuclidBounds(w, cbc);
    var x, y := v / cbc, w / cbc;
    if x < y {
      Monotone(x + 1, y, cbc);
      Distribute(x, 1, cbc);
    } else if y < x {
      Monotone(y + 1, x, cbc);
      Distribute(y, 1, cbc);
    }
  }

  lemma EuclidBounds(v: int, d: nat)
    requires d > 0
    ensures v / d * d <= v < v / d * d + d
  {
  }

  /** The run lies within one compression block. */
  predicate InBlock(r: Run, cbc: nat)
    requires cbc > 0
  {
    r.vcn / cbc == (r.vcn + r.length - 1) / cbc
  }

  lemma InBlockBounds(r: Run, v: int, cbc: nat)
    requires cbc > 0 && r.length > 0 && InRun(r, v)
    ensures InBlock(r, cbc) <==> BlockEnd(v, cbc) - cbc <= r.vcn && r.vcn + r.length <= BlockEnd(v, cbc)
  {
    BlockOf(v, r.vcn, cbc);
    BlockOf(v, r.vcn + r.length - 1, cbc);
    BlockOf(r.vcn, r.vcn + r.length - 1, cbc);
  }

  // ----- The operation -----

  /** `ntfs_rl_extend`: the same elements with room for `more` after them. */
  method RlExtend(a: array<Run>, n: nat, more: nat) returns (a': array<Run>)
    requires n < a.Length
    ensures fresh(a') && a'.Length == n + 1 + more && a'[..n + 1] == a[..n + 1]
  {
    var s := a[..n + 1];
    a' := new Run[n + 1 + more](i => if 0 <= i < |s| then s[i] else Run(0, 0, 0));
  }

  /** Moves the elements after `p`, from the last one down, `k` places up. */
  method ShiftUp(a: array<Run>, p: nat, n: nat, k: nat)
    requires p < n && n + k < a.Length && k > 0
    modifies a
    ensures a[..p + 2] == old(a[..p + 2])
    ensures a[p + 1 + k..n + 1 + k] == old(a[p + 1..n + 1])
    ensures forall i | 0 <= i <= p + 1 :: a[i] == old(a[i])
    ensures forall i | p < i <= n :: a[i + k] == old(a[i])
  {
    var x := n;
    while x != p
      invariant p <= x <= n
      invariant forall i | 0 <= i <= x || i == p + 1 :: a[i] == old(a[i])
      invariant forall i | x < i <= n :: a[i + k] == old(a[i])
    {
      a[x + k] := a[x];
      x := x - 1;
    }
  }

  /** The parts of the hole `h` for a block that ends at `end`: it is cut at the ends of the block that lie inside it,
      or, if the block does not end inside it, at the length of a block from its end. */
  ghost function PartsFor(h: Run, end: int, cbc: nat): seq<Run> {
    var last := h.vcn + h.length;
    if end >= last then [Run(h.vcn, LCN_HOLE, h.length - cbc), Run(last - cbc, LCN_HOLE, cbc)]
    else if end - cbc > h.vcn then
      [Run(h.vcn, LCN_HOLE, end - cbc - h.vcn), Run(end - cbc, LCN_HOLE, cbc), Run(end, LCN_HOLE, last - end)]
    else [Run(h.vcn, LCN_HOLE, end - h.vcn), Run(end, LCN_HOLE, last - end)]
  }

  /** `t` is `s` with element `p` replaced by these. */
  ghost predicate Replaced(s: seq<Run>, t: seq<Run>, p: nat, m: seq<Run>) {
    p < |s| && t == s[..p] + m + s[p + 1..]
  }

  lemma ReplacedKeeps(s: seq<Run>, t: seq<Run>, p: nat, m: seq<Run>)
    requires Chain(s) && p < |s| - 1 && s[p].lcn == LCN_HOLE && Parts(s[p], m) && Replaced(s, t, p, m)
    ensures Chain(t) && SameClusters(s, t)
  {
    assert s == s[..p] + [s[p]] + s[p + 1..];
    SplitKeepsClusters(s[..p], s[p], m, s[p + 1..]);
  }

  lemma ReplacedAt(s: seq<Run>, t: seq<Run>, p: nat, m: seq<Run>, i: nat)
    requires Replaced(s, t, p, m) && i < |m|
    ensures |t| == |s| + |m| - 1 && t[p + i] == m[i]
  {
  }

  /** Prefix, parts and rest make up the new elements. */
  lemma Assembled(s: seq<Run>, t: seq<Run>, p: nat, m: seq<Run>)
    requires p < |s| && |t| == |s| + |m| - 1 && (forall i | 0 <= i < p :: t[i] == s[i])
    requires forall i | 0 <= i < |m| :: t[p + i] == m[i]
    requires forall i | p < i < |s| :: t[i + |m| - 1] == s[i]
    ensures Replaced(s, t, p, m)
  {
    var u := s[..p] + m + s[p + 1..];
    forall i | 0 <= i < |t| ensures t[i] == u[i] {
      if i >= p + |m| {
        assert t[(i - |m| + 1) + |m| - 1] == s[i - |m| + 1];
      } else if i >= p {
        assert t[p + (i - p)] == m[i - p];
      }
    }
  }

  method StoreThree(a: array<Run>, n: nat, p: nat, cbc: nat, endblock: int)
    requires p < n && n + 2 < a.Length && a[p].lcn == LCN_HOLE && 0 < cbc < endblock < a[p].length
    modifies a
    ensures Replaced(old(a[..n + 1]), a[..n + 3], p, PartsFor(old(a[p]), old(a[p].vcn) + endblock, cbc))
  {
    ghost var s, m := a[..n + 1], PartsFor(a[p], a[p].vcn + endblock, cbc);
    ShiftUp(a, p, n, 2);
    a[p + 1] := a[p + 1].(length := cbc);
    a[p + 2] := a[p + 2].(length := a[p].length - endblock);
    a[p] := a[p].(length := endblock - cbc);
    a[p + 1] := a[p + 1].(lcn := LCN_HOLE);
    a[p + 2] := a[p + 2].(lcn := LCN_HOLE);
    a[p + 1] := a[p + 1].(vcn := a[p].vcn + a[p].length);
    a[p + 2] := a[p + 2].(vcn := a[p + 1].vcn + cbc);
    Assembled(s, a[..n + 3], p, m);
  }

  /** The hole is cut at the end of the block and, if it starts before the block, at its start too. */
  method SplitInThree(a: array<Run>, n: nat, p: nat, cbc: nat, endblock: int)
    requires p < n && n + 2 < a.Length && Chain(a[..n + 1]) && a[p].lcn == LCN_HOLE
    requires 0 < cbc < endblock < a[p].length
    modifies a
    ensures Chain(a[..n + 3]) && SameClusters(old(a[..n + 1]), a[..n + 3])
    ensures a[p + 1] == Run(old(a[p].vcn) + endblock - cbc, LCN_HOLE, cbc)
    ensures Replaced(old(a[..n + 1]), a[..n + 3], p, PartsFor(old(a[p]), old(a[p].vcn) + endblock, cbc))
  {
    ghost var s, m := a[..n + 1], PartsFor(a[p], a[p].vcn + endblock, cbc);
    assert s[p] == a[p];
    StoreThree(a, n, p, cbc, endblock);
    ReplacedKeeps(s, a[..n + 3], p, m);
    ReplacedAt(s, a[..n + 3], p, m, 1);
  }

  method StoreTwo(a: array<Run>, n: nat, p: nat, cut: int, ghost m: seq<Run>)
    requires p < n && n + 1 < a.Length && a[p].lcn == LCN_HOLE && 0 < cut < a[p].length
    requires m == [a[p].(length := cut), Run(a[p].vcn + cut, LCN_HOLE, a[p].length - cut)]
    modifies a
    ensures Replaced(old(a[..n + 1]), a[..n + 2], p, m)
  {
    ghost var s := a[..n + 1];
    ShiftUp(a, p, n, 1);
    a[p + 1] := a[p + 1].(length := a[p].length - cut);
    a[p] := a[p].(length := cut);
    a[p + 1] := a[p + 1].(vcn := a[p].vcn + a[p].length);
    a[p + 1] := a[p + 1].(lcn := LCN_HOLE);
    Assembled(s, a[..n + 2], p, m);
  }

  /** The hole is cut in two at `cut` clusters from its start. */
  method SplitInTwo(a: array<Run>, n: nat, p: nat, cut: int)
    requires p < n && n + 1 < a.Length && Chain(a[..n + 1]) && a[p].lcn == LCN_HOLE
    requires 0 < cut < a[p].length
    modifies a
    ensures Chain(a[..n + 2]) && SameClusters(old(a[..n + 1]), a[..n + 2])
    ensures a[p] == old(a[p]).(length := cut)
    ensures a[p + 1] == Run(old(a[p].vcn) + cut, LCN_HOLE, old(a[p].length) - cut)
    ensures Replaced(old(a[..n + 1]), a[..n + 2], p,
                     [old(a[p]).(length := cut), Run(old(a[p].vcn) + cut, LCN_HOLE, old(a[p].length) - cut)])
  {
    ghost var s, m := a[..n + 1], [a[p].(length := cut), Run(a[p].vcn + cut, LCN_HOLE, a[p].length - cut)];
    assert s[p] == a[p];
    StoreTwo(a, n, p, cut, m);
    ReplacedKeeps(s, a[..n + 2], p, m);
    ReplacedAt(s, a[..n + 2], p, m, 0);
    ReplacedAt(s, a[..n + 2], p, m, 1);
  }

  method StoreLast(a: array<Run>, n: nat, p: nat, cbc: nat, ghost m: seq<Run>)
    requires p < n && n + 1 < a.Length && Chain(a[..n + 1]) && a[p].lcn == LCN_HOLE && 0 < cbc < a[p].length
    requires m == [a[p].(length := a[p].length - cbc), Run(a[p].vcn + a[p].length - cbc, LCN_HOLE, cbc)]
    modifies a
    ensures Replaced(old(a[..n + 1]), a[..n + 2], p, m)
  {
    ghost var s := a[..n + 1];
    assert s[p + 1].vcn == s[p].vcn + s[p].length;
    if a[p + 1].length != 0 {
      ShiftUp(a, p, n, 1);
    } else {
      LastIsEmpty(s, p + 1);
      a[p + 2] := a[p + 1];
    }
    a[p + 1] := a[p + 1].(vcn := a[p + 1].vcn - cbc);
    a[p + 1] := a[p + 1].(lcn := LCN_HOLE);
    a[p + 1] := a[p + 1].(length := cbc);
    a[p] := a[p].(length := a[p].length - cbc);
    Assembled(s, a[..n + 2], p, m);
  }

  /** The last block of the hole is cut off; the element after the hole is moved up, or copied if it
      is the end of the runlist. */
  method SplitLast(a: array<Run>, n: nat, p: nat, cbc: nat)
    requires p < n && n + 1 < a.Length && Chain(a[..n + 1]) && a[p].lcn == LCN_HOLE
    requires 0 < cbc < a[p].length
    modifies a
    ensures Chain(a[..n + 2]) && SameClusters(old(a[..n + 1]), a[..n + 2])
    ensures a[p] == old(a[p]).(length := old(a[p].length) - cbc)
    ensures a[p + 1] == Run(old(a[p].vcn + a[p].length) - cbc, LCN_HOLE, cbc)
    ensures Replaced(old(a[..n + 1]), a[..n + 2], p,
                     [old(a[p]).(length := old(a[p].length) - cbc),
                       Run(old(a[p].vcn + a[p].length) - cbc, LCN_HOLE, cbc)])
  {
    ghost var s := a[..n + 1];
    ghost var m := [a[p].(length := a[p].length - cbc), Run(a[p].vcn + a[p].length - cbc, LCN_HOLE, cbc)];
    assert s[p] == a[p];
    StoreLast(a, n, p, cbc, m);
    ReplacedKeeps(s, a[..n + 2], p, m);
    ReplacedAt(s, a[..n + 2], p, m, 0);
    ReplacedAt(s, a[..n + 2], p, m, 1);
  }

  lemma LastIsEmpty(s: seq<Run>, i: nat)
    requires Chain(s) && i < |s| && s[i].length == 0
    ensures i == |s| - 1
  {
  }

  /** Clusters with compressed data at the start of the written block, or the whole block. */
  function DataClusters(h: Run, first: int, cbc: nat): int
    requires cbc > 0
  {
    if first / cbc == h.vcn / cbc && h.vcn % cbc != 0 then h.vcn % cbc else cbc
  }

  lemma ModUnique(x: int, q: int, r: int, d: nat)
    requires d > 0 && x == q * d + r && 0 <= r < d
    ensures x % d == r && x / d == q
  {
    EuclidBounds(x, d);
    var y := x / d;
    if y < q {
      Monotone(y + 1, q, d);
      Distribute(y, 1, d);
    } else if q < y {
      Monotone(q + 1, y, d);
      Distribute(q, 1, d);
    }
  }

  /** For a hole that ends with a block, the remainder of its length tells where it starts. */
  lemma LengthRemainder(vcn: int, length: int, cbc: nat)
    requires cbc > 0 && (vcn + length) % cbc == 0
    ensures length % cbc == if vcn % cbc == 0 then 0 else cbc - vcn % cbc
  {
    var k, i, r := (vcn + length) / cbc, vcn / cbc, vcn % cbc;
    assert vcn + length == k * cbc && vcn == i * cbc + r;
    if r == 0 {
      Distribute(k, -i, cbc);
      ModUnique(length, k - i, 0, cbc);
    } else {
      Distribute(k, -i - 1, cbc);
      Distribute(-i, -1, cbc);
      ModUnique(length, k - i - 1, cbc - r, cbc);
    }
  }

  /** The result of the code's formula is the number of clusters that hold data in the block if and only if
      the hole ends with a block, or the write is neither in the part of it that exceeds whole blocks nor in a
      block that starts with data. */
  lemma PartIsData(h: Run, first: int, cbc: nat)
    requires cbc > 0 && InRun(h, first)
    ensures var part := cbc - h.length % cbc;
            (if first - h.vcn + part >= cbc then cbc else part) == DataClusters(h, first, cbc) <==>
              TellsPart(h, first, cbc)
  {
    if (h.vcn + h.length) % cbc == 0 {
      LengthRemainder(h.vcn, h.length, cbc);
      EuclidBounds(h.vcn, cbc);
      BlockOf(h.vcn, first, cbc);
      assert h.vcn == h.vcn / cbc * cbc + h.vcn % cbc;
    } else {
      var r, l := h.vcn % cbc, h.length % cbc;
      if r == cbc - l {
        var x, y := h.vcn / cbc, h.length / cbc;
        assert h.vcn == x * cbc + r && h.length == y * cbc + l;
        Distribute(x, y, cbc);
        Distribute(x + y, 1, cbc);
        ModUnique(h.vcn + h.length, x + y + 1, 0, cbc);
      } else if r == 0 && l == 0 {
        var x, y := h.vcn / cbc, h.length / cbc;
        Distribute(x, y, cbc);
        ModUnique(h.vcn + h.length, x + y, 0, cbc);
      }
    }
  }

  predicate TellsPart(h: Run, first: int, cbc: nat)
    requires cbc > 0
  {
    || (h.vcn + h.length) % cbc == 0
    || (first - h.vcn >= h.length % cbc && (first / cbc == h.vcn / cbc ==> h.vcn % cbc == 0))
  }

  /** The branches for a block that ends inside the hole. */
  method SplitInside(a: array<Run>, n: nat, p: nat, cs: nat, cbc: nat, pos: nat, endblock: int)
    returns (n': nat, q: nat, unused: int)
    requires p < n && a.Length == n + 3 && Chain(a[..n + 1]) && a[p].lcn == LCN_HOLE && 0 < cbc < a[p].length
    requires cs > 0 && InRun(a[p], pos / cs) && endblock == BlockEnd(pos / cs, cbc) - a[p].vcn < a[p].length
    modifies a
    ensures n' < a.Length && Chain(a[..n' + 1]) && SameClusters(old(a[..n + 1]), a[..n' + 1])
    ensures q < n' && InRun(a[q], pos / cs) && a[q].lcn == LCN_HOLE && unused == a.Length - n' - 1
    ensures BlockEnd(pos / cs, cbc) - cbc <= a[q].vcn && a[q].vcn + a[q].length <= BlockEnd(pos / cs, cbc)
    ensures Replaced(old(a[..n + 1]), a[..n' + 1], p, PartsFor(old(a[p]), BlockEnd(pos / cs, cbc), cbc))
  {
    var next: nat := p + 1;
    q, unused := p, 2;
    BlockOf(pos / cs, pos / cs, cbc);
    if endblock > cbc {
      unused := unused - 2;
      SplitInThree(a, n, p, cbc, endblock);
      n', q := n + 2, next;
    } else {
      unused := unused - 1;
      var begin := pos / cs - a[p].vcn;
      SplitInTwo(a, n, p, endblock);
      n' := n + 1;
      if begin >= endblock {
        q := next;
      }
    }
  }

  /** The splitting branches, for a hole longer than a block in a runlist with two spare elements. */
  method SplitLongHole(a: array<Run>, n: nat, p: nat, cs: nat, cbc: nat, pos: nat, endblock: int)
    returns (n': nat, q: nat, unused: int)
    requires p < n && a.Length == n + 3 && Chain(a[..n + 1]) && a[p].lcn == LCN_HOLE && 0 < cbc < a[p].length
    requires cs > 0 && InRun(a[p], pos / cs) && endblock == BlockEnd(pos / cs, cbc) - a[p].vcn
    modifies a
    ensures n' < a.Length && Chain(a[..n' + 1]) && SameClusters(old(a[..n + 1]), a[..n' + 1])
    ensures q < n' && InRun(a[q], pos / cs) && a[q].lcn == LCN_HOLE
    ensures BlockEnd(pos / cs, cbc) - cbc <= a[q].vcn && a[q].vcn + a[q].length <= BlockEnd(pos / cs, cbc)
            <==> endblock <= old(a[p].length)
    ensures unused == a.Length - n' - 1 + if endblock >= old(a[p].length) && p + 1 == n then 1 else 0
    ensures Replaced(old(a[..n + 1]), a[..n' + 1], p, PartsFor(old(a[p]), BlockEnd(pos / cs, cbc), cbc))
  {
    if endblock < a[p].length {
      n', q, unused := SplitInside(a, n, p, cs, cbc, pos, endblock);
    } else {
      var next: nat := p + 1;
      q, unused := p, 2;
      BlockOf(pos / cs, pos / cs, cbc);
      assert a[..n + 1][p + 1] == a[p + 1];
      if a[p + 1].length != 0 {
        unused := unused - 1;
      }
      SplitLast(a, n, p, cbc);
      n' := n + 1;
      LastHoldsPos(pos, cs, a[p + 1].vcn);
      if pos >= a[p + 1].vcn * cs {
        q := next;
      }
    }
  }

  /** `split_compressed_hole`: prepares the hole `a0[p]` for a write within one compression block. */
  method SplitCompressedHole(a0: array<Run>, n: nat, p: nat, cs: nat, cbc: nat, pos: nat, count: nat, from: int)
    returns (a: array<Run>, n': nat, q: nat, part: int, unused: int, from': int)
    requires p < n < a0.Length && Chain(a0[..n + 1]) && a0[p].lcn == LCN_HOLE
    requires cs > 0 && cbc > 0 && count > 0 && InRun(a0[p], pos / cs)
    requires pos / cs / cbc == (pos + count - 1) / cs / cbc
    ensures n' < a.Length && Chain(a[..n' + 1]) && SameClusters(a0[..n + 1], a[..n' + 1])
    ensures q < n' && InRun(a[q], pos / cs) && a[q].lcn == LCN_HOLE
    ensures var h := a0[p]; var endblock := BlockEnd(pos / cs, cbc) - h.vcn;
            && (InBlock(a[q], cbc) <==> if h.length > cbc then endblock <= h.length else InBlock(h, cbc))
            && (h.length <= cbc ==> part == cbc && from' == from && a == a0 && n' == n && q == p)
            && (h.length > cbc ==>
                  Replaced(a0[..n + 1], a[..n' + 1], p, PartsFor(h, BlockEnd(pos / cs, cbc), cbc)))
            && (h.length > cbc ==> from' == if from == -1 || a[q].vcn < from then a[q].vcn else from)
            && (h.length > cbc ==> (part == DataClusters(h, pos / cs, cbc) <==> TellsPart(h, pos / cs, cbc)))
            && (h.length > cbc ==> unused == a.Length - n' - 1 + if endblock >= h.length && p + 1 == n then 1 else 0)
  {
    a, n', q, part, unused, from' := a0, n, p, cbc, 0, from;
    ghost var h := a0[p];
    if a[p].length > cbc {
      a := RlExtend(a0, n, 2);
      assert a[p] == a[..n + 1][p] == h;
      var begin := pos / cs - a[p].vcn;
      var endblock := BlockEnd((pos + count - 1) / cs, cbc) - a[p].vcn;
      part := cbc - a[p].length % cbc;
      if begin + part >= cbc {
        part := cbc;
      }
      n', q, unused := SplitLongHole(a, n, p, cs, cbc, pos, endblock);
      InBlockBounds(a[q], pos / cs, cbc);
      PartIsData(h, pos / cs, cbc);
      if from' == -1 || a[q].vcn < from' {
        from' := a[q].vcn;
      }
    }
  }

  /** A hole of 20 clusters that is all of a runlist, with blocks of 16.  The block of cluster 17 does not end
      within it, so that a write there gets a run across two blocks; and for a write to cluster 3 the formula
      tells of 12 clusters of data, where there are none and it should tell of the whole block. */
  lemma OddHole()
    ensures var h := Run(0, LCN_HOLE, 20);
            && Chain([h, Run(20, LCN_ENOENT, 0)]) && InRun(h, 17) && 16 < h.length < BlockEnd(17, 16) - h.vcn
            && InRun(h, 3) && !TellsPart(h, 3, 16) && DataClusters(h, 3, 16) == 16 && 3 + (16 - h.length % 16) < 16
  {
    var h := Run(0, LCN_HOLE, 20);
    assert [h, Run(20, LCN_ENOENT, 0)][0] == h;
  }

  lemma LastHoldsPos(pos: nat, cs: nat, v: int)
    requires cs > 0 && v <= pos / cs
    ensures pos >= v * cs
  {
    DivBounds(pos, cs);
    Monotone(v, pos / cs, cs);
  }
}
