/** The hash index of a cache (cache.c): links on one chain per hash value, and a list of free links. */
module HashIndex {
  import opened Common
  import opened LruPool

  type Link = Ptr

  /** `next` and `entry` of each link, the heads of the chains, and that of the free list. */
  datatype Index = Index(next: seq<Option<Link>>, entry: seq<Ptr>, first: seq<Option<Link>>, free: Option<Link>)

  const FREE := -1

  /** Chain `h` is `chains[h]`, and its links are where `home` says. */
  ghost predicate ChainAt(ix: Index, chains: seq<seq<Link>>, home: seq<int>, h: nat)
    requires h < |chains| == |ix.first|
  {
    Chain(ix.next, ix.first[h], chains[h]) && NoDup(chains[h]) && forall l | l in chains[h] ::
      l < |home| && home[l] == h
  }

  function Total(chains: seq<seq<Link>>): nat {
    if chains == [] then 0 else |chains[0]| + Total(chains[1..])
  }

  /** All links are on one of the chains or free. */
  ghost predicate Links(ix: Index, chains: seq<seq<Link>>, free: seq<Link>, home: seq<int>) {
    && |ix.next| == |ix.entry| == |home| == Total(chains) + |free| && |ix.first| == |chains|
    && Chain(ix.next, ix.free, free) && NoDup(free) && (forall l | l in free :: l < |home| && home[l] == FREE)
    && forall h {:trigger ChainAt(ix, chains, home, h)} | 0 <= h < |chains| :: ChainAt(ix, chains, home, h)
  }

  lemma {:induction false} TotalUpdate(chains: seq<seq<Link>>, h: nat, s: seq<Link>)
    requires h < |chains|
    ensures Total(chains[h := s]) == Total(chains) - |chains[h]| + |s|
  {
    if h == 0 {
      assert chains[h := s][1..] == chains[1..];
    } else {
      assert chains[h := s][1..] == chains[1..][h - 1 := s];
      TotalUpdate(chains[1..], h - 1, s);
    }
  }

  lemma InChain(next: seq<Option<Link>>, head: Option<Link>, s: seq<Link>)
    requires Chain(next, head, s)
    ensures forall i | 0 <= i < |s| :: s[i] < |next|
  {
    forall i | 0 <= i < |s| ensures s[i] < |next| {
      assert Chained(next, s, i);
    }
  }

  // ----- Entering -----

  lemma Entered(ix: Index, chains: seq<seq<Link>>, free: seq<Link>, home: seq<int>, h: nat, ix': Index, current: Ptr)
    requires Links(ix, chains, free, home) && h < |chains| && free != [] && free[0] < |ix.next|
    requires var l := free[0];
               ix' == Index(ix.next[l := ix.first[h]], ix.entry[l := current], ix.first[h := Some(l)], ix.next[l])
    ensures free[0] < |home| && Links(ix', chains[h := [free[0]] + chains[h]], free[1..], home[free[0] := h])
  {
    var l := free[0];
    var chains', home' := chains[h := [l] + chains[h]], home[l := h];
    ChainTail(ix.next, free);
    DropFirst(free);
    ChainKept(ix.next, ix'.next, ix.next[l], free[1..]);
    TotalUpdate(chains, h, [l] + chains[h]);
    forall g | 0 <= g < |chains'| ensures ChainAt(ix', chains', home', g) {
      assert ChainAt(ix, chains, home, g);
      assert l !in chains[g];
      ChainKept(ix.next, ix'.next, ix.first[g], chains[g]);
      if g == h {
        Prepended(l, chains[h]);
        PushedChain(ix'.next, ix.first[h], chains[h], l);
      }
    }
  }

  lemma PushedChain(next: seq<Option<Link>>, head: Option<Link>, s: seq<Link>, l: Link)
    requires Chain(next, head, s) && l < |next| && next[l] == head
    ensures Chain(next, Some(l), [l] + s)
  {
    var t := [l] + s;
    forall i | 0 <= i < |t| ensures Chained(next, t, i) {
      if i > 0 {
        assert Chained(next, s, i - 1);
      }
    }
  }

  /** The link taken from the free list by `inserthashindex`; `dropped` where hashing is given up. */
  method Insert(ix: Index, current: Ptr, h: int, ghost chains: seq<seq<Link>>, ghost free: seq<Link>,
                ghost home: seq<int>)
    returns (ix': Index, dropped: bool)
    requires Links(ix, chains, free, home)
    ensures dropped <==> !(0 <= h < |chains|) || free == []
    ensures dropped ==> ix' == ix
    ensures !dropped ==> free[0] < |home| && ix'.entry == ix.entry[free[0] := current]
                         && Links(ix', chains[h := [free[0]] + chains[h]], free[1..], home[free[0] := h])
  {
    ix', dropped := ix, true;
    if 0 <= h < |ix.first| {
      if ix.free.Some? {
        var l := ix.free.value;
        InChain(ix.next, ix.free, free);
        dropped := false;
        ix' := ix'.(free := ix.next[l]);
        ix' := ix'.(next := ix'.next[l := ix.first[h]]);
        ix' := ix'.(entry := ix'.entry[l := current]);
        ix' := ix'.(first := ix'.first[h := Some(l)]);
        Entered(ix, chains, free, home, h, ix', current);
      }
    }
  }

  // ----- Dropping -----

  lemma Shortened(next: seq<Option<Link>>, head: Option<Link>, s: seq<Link>, i: nat, next': seq<Option<Link>>,
                  head': Option<Link>)
    requires Chain(next, head, s) && NoDup(s) && i < |s| && |next'| == |next|
    requires forall k | 0 <= k < |s| :: s[k] < |next|
    requires forall k | 0 <= k < |s| && k != i && k != i - 1 :: next'[s[k]] == next[s[k]]
    requires if i > 0 then next'[s[i - 1]] == At(s, i + 1) && head' == head else head' == At(s, 1)
    ensures Chain(next', head', Without(s, i))
  {
    var t := Without(s, i);
    forall k | 0 <= k < |t| ensures Chained(next', t, k) {
      var j := if k < i then k else k + 1;
      assert t[k] == s[j];
      assert Chained(next, s, j);
    }
  }

  ghost predicate DropLinks(ix: Index, s: seq<Link>, h: nat, i: nat, ix': Index)
    requires h < |ix.first| && i < |s| && forall k | 0 <= k < |s| :: s[k] < |ix.next|
  {
    && ix'.next == (if i > 0 then ix.next[s[i - 1] := ix.next[s[i]]] else ix.next)[s[i] := ix.free]
    && ix'.first == (if i > 0 then ix.first else ix.first[h := ix.next[s[i]]])
    && ix'.entry == ix.entry && ix'.free == Some(s[i])
  }

  lemma DroppedChain(ix: Index, chains: seq<seq<Link>>, free: seq<Link>, home: seq<int>, h: nat, i: nat, ix': Index,
                     g: nat)
    requires Links(ix, chains, free, home) && h < |chains| && i < |chains[h]| && g < |chains|
    requires forall k | 0 <= k < |chains[h]| :: chains[h][k] < |ix.next|
    requires DropLinks(ix, chains[h], h, i, ix')
    ensures ChainAt(ix', chains[h := Without(chains[h], i)], home[chains[h][i] := FREE], g)
  {
    var s := chains[h];
    assert ChainAt(ix, chains, home, g) && ChainAt(ix, chains, home, h);
    assert Chained(ix.next, s, i);
    assert s[i] in s && (i > 0 ==> s[i - 1] in s);
    if g == h {
      WithoutMembers(s, i);
      Shortened(ix.next, ix.first[h], s, i, ix'.next, ix'.first[h]);
    } else {
      assert s[i] !in chains[g] && (i > 0 ==> s[i - 1] !in chains[g]);
      ChainKept(ix.next, ix'.next, ix.first[g], chains[g]);
    }
  }

  lemma Dropped(ix: Index, chains: seq<seq<Link>>, free: seq<Link>, home: seq<int>, h: nat, i: nat, ix': Index)
    requires Links(ix, chains, free, home) && h < |chains| && i < |chains[h]|
    requires forall k | 0 <= k < |chains[h]| :: chains[h][k] < |ix.next|
    requires DropLinks(ix, chains[h], h, i, ix')
    ensures Links(ix', chains[h := Without(chains[h], i)], [chains[h][i]] + free, home[chains[h][i] := FREE])
  {
    var s, l := chains[h], chains[h][i];
    assert ChainAt(ix, chains, home, h);
    assert l in s && (i > 0 ==> s[i - 1] in s);
    TotalUpdate(chains, h, Without(s, i));
    Prepended(l, free);
    ChainKept(ix.next, ix'.next, ix.free, free);
    PushedChain(ix'.next, ix.free, free, l);
    var chains', home' := chains[h := Without(s, i)], home[l := FREE];
    forall g | 0 <= g < |chains'| ensures ChainAt(ix', chains', home', g) {
      DroppedChain(ix, chains, free, home, h, i, ix', g);
    }
  }

  /** `drophashindex`: the first link of chain `h` for `current` becomes free. */
  method Drop(ix: Index, current: Ptr, h: int, ghost chains: seq<seq<Link>>, ghost free: seq<Link>,
              ghost home: seq<int>)
    returns (ix': Index, dropped: bool, ghost i: nat)
    requires Links(ix, chains, free, home)
    ensures dropped ==>
              ix' == ix && (0 <= h < |chains| ==> forall l | l in chains[h] && l < |ix.entry| :: ix.entry[l] != current)
    ensures !dropped ==>
              0 <= h < |chains| && i < |chains[h]| && chains[h][i] < |ix.entry| && ix.entry[chains[h][i]] == current
                         && ix'.entry == ix.entry
                         && Links(ix', chains[h := Without(chains[h], i)], [chains[h][i]] + free,
                           home[chains[h][i] := FREE])
  {
    ix', dropped, i := ix, true, 0;
    if 0 <= h < |ix.first| {
      ghost var s := chains[h];
      assert ChainAt(ix, chains, home, h);
      InChain(ix.next, ix.first[h], s);
      var link, previous := ix.first[h], None;
      while link.Some? && ix.entry[link.value] != current
        invariant i <= |s| && link == At(s, i) && previous == At(s, i - 1)
        invariant forall k | 0 <= k < i :: ix.entry[s[k]] != current
        decreases |s| - i
      {
        assert Chained(ix.next, s, i);
        previous, link := link, ix.next[link.value];
        i := i + 1;
      }
      if link.Some? {
        dropped := false;
        if previous.Some? {
          ix' := ix'.(next := ix'.next[previous.value := ix.next[link.value]]);
        } else {
          ix' := ix'.(first := ix'.first[h := ix.next[link.value]]);
        }
        ix' := ix'.(next := ix'.next[link.value := ix'.free]);
        ix' := ix'.(free := link);
        Dropped(ix, chains, free, home, h, i, ix');
      }
    }
  }

  /** A new index: all links are free, all chains empty. */
  method CreateIndex(n: nat, maxHash: nat)
    returns (ix: Index, ghost chains: seq<seq<Link>>, ghost free: seq<Link>, ghost home: seq<int>)
    requires n > 0
    ensures Links(ix, chains, free, home) && |ix.first| == maxHash && |ix.next| == n && Total(chains) == 0
  {
    var next: seq<Option<Link>> := [];
    for i := 0 to n - 1
      invariant |next| == i && forall k | 0 <= k < i :: next[k] == Some(k + 1)
    {
      next := next + [Some(i + 1)];
    }
    next := next + [None];
    free := seq(n, i => i);
    home := seq(n, i => FREE);
    chains := [];
    var first: seq<Option<Link>> := [];
    for i := 0 to maxHash
      invariant |first| == |chains| == i && (forall k | 0 <= k < i :: first[k] == None && chains[k] == [])
                && Total(chains) == 0
    {
      first := first + [None];
      EmptyTotal(chains);
      chains := chains + [[]];
    }
    ix := Index(next, seq(n, i => 0), first, Some(0));
    forall h | 0 <= h < |chains| ensures ChainAt(ix, chains, home, h) {
    }
  }

  lemma {:induction false} EmptyTotal(chains: seq<seq<Link>>)
    ensures Total(chains + [[]]) == Total(chains)
  {
    if chains == [] {
      assert chains + [[]] == [[]];
      assert Total([[]]) == 0 + Total([[]][1..]);
    } else {
      assert (chains + [[]])[1..] == chains[1..] + [[]];
      EmptyTotal(chains[1..]);
    }
  }

  // ----- All links -----

  ghost predicate InChains(chains: seq<seq<Link>>, l: Link) {
    exists h :: 0 <= h < |chains| && l in chains[h]
  }

  function Flat(chains: seq<seq<Link>>): seq<Link> {
    if chains == [] then [] else chains[0] + Flat(chains[1..])
  }

  /** The chains one after the other hold different links, if these know their chain. */
  lemma {:induction false} FlatLinks(chains: seq<seq<Link>>, home: seq<int>, n: nat)
    requires forall h | 0 <= h < |chains| ::
               NoDup(chains[h]) && forall l | l in chains[h] :: l < |home| && home[l] == n + h
    ensures |Flat(chains)| == Total(chains) && NoDup(Flat(chains))
    ensures forall l | l in Flat(chains) :: l < |home| && home[l] >= n && InChains(chains, l)
  {
    if chains != [] {
      var rest, f := chains[1..], Flat(chains[1..]);
      FlatLinks(rest, home, n + 1);
      var t := chains[0] + f;
      forall i, j | 0 <= i < j < |t| ensures t[i] != t[j] {
        if i < |chains[0]| && |chains[0]| <= j {
          assert t[i] in chains[0] && t[j] == f[j - |chains[0]|] && t[j] in f;
        }
      }
      forall l | l in t ensures l < |home| && home[l] >= n && InChains(chains, l) {
        if l !in chains[0] {
          assert l in f;
          var h :| 0 <= h < |rest| && l in rest[h];
          assert l in chains[h + 1];
        }
      }
    }
  }

  /** Every link is on a chain or free. */
  lemma LinkPartition(ix: Index, chains: seq<seq<Link>>, free: seq<Link>, home: seq<int>, l: Link)
    requires Links(ix, chains, free, home) && l < |home|
    ensures (l in free) != InChains(chains, l)
  {
    forall h | 0 <= h < |chains|
      ensures NoDup(chains[h]) && forall m | m in chains[h] :: m < |home| && home[m] == 0 + h {
      assert ChainAt(ix, chains, home, h);
    }
    FlatLinks(chains, home, 0);
    if l !in free && !InChains(chains, l) {
      var f := Flat(chains);
      var s := f + free + [l];
      forall k | 0 <= k < |s| ensures s[k] < |home| {
        assert k < |f| ==> s[k] in f;
        assert |f| <= k < |f| + |free| ==> s[k] in free;
      }
      assert NoDup(s) by {
        forall i, j | 0 <= i < j < |s| ensures s[i] != s[j] {
          assert i < |f| ==> s[i] in f;
          assert |f| <= i < |f| + |free| ==> s[i] in free;
          assert |f| <= j < |f| + |free| ==> s[j] in free;
        }
      }
      DistinctSize(s, |home|);
    }
  }
}
