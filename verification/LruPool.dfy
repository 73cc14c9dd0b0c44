/** The entries of a cache (cache.c): a pool whose members are on the doubly linked list of entries in
    use, most recent first, or on the singly linked list of free ones. */
module LruPool {
  import opened Common

  /** `next` and `previous` of each entry, and the heads of the two lists. */
  datatype Pool = Pool(next: seq<Option<Ptr>>, previous: seq<Option<Ptr>>, mostRecent: Option<Ptr>, oldest: Option<Ptr>,
                       free: Option<Ptr>)

  // ----- Sequences of pointers -----

  function At(s: seq<Ptr>, i: int): Option<Ptr> {
    if 0 <= i < |s| then Some(s[i]) else None
  }

  ghost predicate Disjoint(s: seq<Ptr>, t: seq<Ptr>) {
    forall p: Ptr | p in s :: p !in t
  }

  // ----- The lists -----

  ghost predicate Placed(pool: Pool, s: seq<Ptr>, i: nat)
    requires i < |s|
  {
    s[i] < |pool.next| == |pool.previous| && pool.next[s[i]] == At(s, i + 1) && pool.previous[s[i]] == At(s, i - 1)
  }

  ghost predicate Chained(next: seq<Option<Ptr>>, s: seq<Ptr>, i: nat)
    requires i < |s|
  {
    s[i] < |next| && next[s[i]] == At(s, i + 1)
  }

  /** The list of entries in use. */
  ghost predicate Used(pool: Pool, s: seq<Ptr>) {
    && pool.mostRecent == At(s, 0) && pool.oldest == At(s, |s| - 1)
    && forall i {:trigger Placed(pool, s, i)} | 0 <= i < |s| :: Placed(pool, s, i)
  }

  /** A singly linked list from `head` on. */
  ghost predicate Chain(next: seq<Option<Ptr>>, head: Option<Ptr>, s: seq<Ptr>) {
    head == At(s, 0) && forall i {:trigger Chained(next, s, i)} | 0 <= i < |s| :: Chained(next, s, i)
  }

  /** The pool holds the entries `lru` in use and `free`, and no others. */
  ghost predicate Rep(pool: Pool, lru: seq<Ptr>, free: seq<Ptr>) {
    && |pool.next| == |pool.previous| == |lru| + |free|
    && NoDup(lru) && NoDup(free) && Disjoint(lru, free)
    && Used(pool, lru) && Chain(pool.next, pool.free, free)
  }

  /** Links of other entries do not matter to a chain. */
  lemma ChainKept(next: seq<Option<Ptr>>, next': seq<Option<Ptr>>, head: Option<Ptr>, s: seq<Ptr>)
    requires Chain(next, head, s) && |next'| == |next| && forall p | p in s && p < |next| :: next'[p] == next[p]
    ensures Chain(next', head, s)
  {
    forall i | 0 <= i < |s| ensures Chained(next', s, i) {
      assert Chained(next, s, i);
    }
  }

  /** Entry `i` of the list goes to its head, as a fetch does it. */
  method ToHead(pool: Pool, current: Ptr, ghost lru: seq<Ptr>, ghost free: seq<Ptr>, ghost i: nat) returns (p: Pool)
    requires Rep(pool, lru, free) && i < |lru| && lru[i] == current
    ensures Rep(p, [current] + Without(lru, i), free)
  {
    InPool(pool, lru);
    assert Placed(pool, lru, i);
    p := pool;
    var previous := pool.previous[current];
    if previous.Some? {
      assert Placed(pool, lru, i - 1) && Placed(pool, lru, 0);
      var next, prev := pool.next, pool.previous;
      next := next[previous.value := next[current]];
      var oldest := pool.oldest;
      if next[current].Some? {
        assert Placed(pool, lru, i + 1);
        prev := prev[next[current].value := prev[current]];
      } else {
        oldest := prev[current];
      }
      next := next[current := pool.mostRecent];
      prev := prev[current := None];
      prev := prev[pool.mostRecent.value := Some(current)];
      p := Pool(next, prev, Some(current), oldest, pool.free);
      MovedToHead(pool, lru, free, i, p);
    } else {
      assert [current] + Without(lru, 0) == lru;
    }
  }

  lemma InPool(pool: Pool, lru: seq<Ptr>)
    requires Used(pool, lru)
    ensures forall k | 0 <= k < |lru| :: lru[k] < |pool.next| == |pool.previous|
  {
    forall k | 0 <= k < |lru| ensures lru[k] < |pool.next| == |pool.previous| {
      assert Placed(pool, lru, k);
    }
  }

  /** The links that differ after the move. */
  ghost predicate HeadLinks(pool: Pool, lru: seq<Ptr>, i: nat, p: Pool)
    requires 0 < i < |lru| && forall k | 0 <= k < |lru| :: lru[k] < |pool.next| == |pool.previous|
  {
    && p.next == pool.next[lru[i - 1] := At(lru, i + 1)][lru[i] := Some(lru[0])]
    && p.previous
      == (if i + 1 < |lru| then pool.previous[lru[i + 1] := Some(lru[i - 1])] else
      pool.previous)[lru[i] := None][lru[0] := Some(lru[i])]
  }

  lemma MovedPlaced(pool: Pool, lru: seq<Ptr>, i: nat, p: Pool, s: seq<Ptr>, k: nat)
    requires NoDup(lru) && Used(pool, lru) && 0 < i < |lru|
    requires forall k | 0 <= k < |lru| :: lru[k] < |pool.next| == |pool.previous|
    requires HeadLinks(pool, lru, i, p) && s == [lru[i]] + Without(lru, i) && k < |s|
    ensures Placed(p, s, k)
  {
    if k == 0 {
      assert Placed(pool, lru, i);
    } else if k <= i {
      assert s[k] == lru[k - 1];
      assert Placed(pool, lru, k - 1);
    } else {
      assert s[k] == lru[k];
      assert Placed(pool, lru, k);
    }
  }

  lemma MovedToHead(pool: Pool, lru: seq<Ptr>, free: seq<Ptr>, i: nat, p: Pool)
    requires Rep(pool, lru, free) && 0 < i < |lru|
    requires forall k | 0 <= k < |lru| :: lru[k] < |pool.next| == |pool.previous|
    requires HeadLinks(pool, lru, i, p)
    requires p.mostRecent == Some(lru[i]) && p.oldest == (if i + 1 < |lru| then pool.oldest else Some(lru[i - 1]))
             && p.free == pool.free
    ensures Rep(p, [lru[i]] + Without(lru, i), free)
  {
    var s := [lru[i]] + Without(lru, i);
    WithoutMembers(lru, i);
    assert NoDup(s);
    forall k | 0 <= k < |s| ensures Placed(p, s, k) {
      MovedPlaced(pool, lru, i, p, s, k);
    }
    assert s[|s| - 1] == lru[if i + 1 < |lru| then |lru| - 1 else i - 1];
    ChainKept(pool.next, p.next, pool.free, free);
  }

  // ----- A new entry -----

  /** Relinks `current`, which is on no list, as head; the oldest entry is known. */
  function Pushed(pool: Pool, current: Ptr): Pool
    requires current < |pool.next| == |pool.previous|
             && (pool.mostRecent.Some? ==> pool.mostRecent.value < |pool.previous|)
  {
    var prev := pool.previous[current := None];
    Pool(pool.next[current := pool.mostRecent],
         if pool.mostRecent.Some? then prev[pool.mostRecent.value := Some(current)] else prev,
         Some(current), pool.oldest, pool.free)
  }

  method PushHead(pool: Pool, current: Ptr) returns (p: Pool)
    requires current < |pool.next| == |pool.previous|
             && (pool.mostRecent.Some? ==> pool.mostRecent.value < |pool.previous|)
    ensures p == Pushed(pool, current)
  {
    p := pool.(next := pool.next[current := pool.mostRecent], previous := pool.previous[current := None]);
    if p.mostRecent.Some? {
      p := p.(previous := p.previous[p.mostRecent.value := Some(current)]);
    }
    p := p.(mostRecent := Some(current));
  }

  /** Pushing onto a list that has all but, if it is empty, its `oldest` in order. */
  lemma PushedUsed(pool: Pool, lru: seq<Ptr>, current: Ptr)
    requires NoDup(lru) && current !in lru && current < |pool.next| == |pool.previous|
    requires Used(pool.(oldest := At(lru, |lru| - 1)), lru) && pool.oldest == At([current] + lru, |lru|)
    ensures pool.mostRecent.Some? ==> pool.mostRecent.value < |pool.previous|
    ensures Used(Pushed(pool, current), [current] + lru)
  {
    var was := pool.(oldest := At(lru, |lru| - 1));
    InPool(was, lru);
    var p, s := Pushed(pool, current), [current] + lru;
    forall k | 0 <= k < |s| ensures Placed(p, s, k) {
      if k > 0 {
        assert s[k] == lru[k - 1];
        assert Placed(was, lru, k - 1);
      }
    }
  }

  lemma DropFirst(free: seq<Ptr>)
    requires free != [] && NoDup(free)
    ensures NoDup(free[1..]) && forall p: Ptr :: p in free[1..] <==> p in free && p != free[0]
  {
    WithoutMembers(free, 0);
    assert Without(free, 0) == free[1..];
  }

  lemma ChainTail(next: seq<Option<Ptr>>, free: seq<Ptr>)
    requires free != [] && Chain(next, Some(free[0]), free)
    ensures free[0] < |next| && Chain(next, next[free[0]], free[1..])
  {
    assert Chained(next, free, 0);
    forall i | 0 <= i < |free| - 1 ensures Chained(next, free[1..], i) {
      assert Chained(next, free, i + 1);
    }
  }

  /** A free entry becomes the head of the list. */
  method FreeToHead(pool: Pool, ghost lru: seq<Ptr>, ghost free: seq<Ptr>) returns (p: Pool, current: Ptr)
    requires Rep(pool, lru, free) && pool.free.Some?
    ensures free != [] && current == free[0] && Rep(p, [current] + lru, free[1..])
  {
    current := pool.free.value;
    ChainTail(pool.next, free);
    DropFirst(free);
    p := pool.(free := pool.next[current], oldest := if pool.oldest.None? then Some(current) else pool.oldest);
    assert Used(p.(oldest := At(lru, |lru| - 1)), lru) by {
      UsedSame(pool, p.(oldest := At(lru, |lru| - 1)), lru);
    }
    PushedUsed(p, lru, current);
    ghost var next := p.next;
    p := PushHead(p, current);
    ChainKept(next, p.next, p.free, free[1..]);
  }

  lemma UsedSame(pool: Pool, p: Pool, lru: seq<Ptr>)
    requires Used(pool, lru) && p.next == pool.next && p.previous == pool.previous && p.mostRecent == pool.mostRecent
             && p.oldest == pool.oldest
    ensures Used(p, lru)
  {
    forall k | 0 <= k < |lru| ensures Placed(p, lru, k) {
      assert Placed(pool, lru, k);
    }
  }

  lemma ButLast(lru: seq<Ptr>)
    requires lru != [] && NoDup(lru)
    ensures var s := lru[..|lru| - 1]; NoDup(s) && forall p: Ptr :: p in s <==> p in lru && p != lru[|lru| - 1]
  {
    WithoutMembers(lru, |lru| - 1);
    assert Without(lru, |lru| - 1) == lru[..|lru| - 1];
  }

  /** The oldest entry is taken off its list and becomes the head; at least two are in use. */
  method LastToHead(pool: Pool, ghost lru: seq<Ptr>, ghost free: seq<Ptr>) returns (p: Pool, current: Ptr)
    requires Rep(pool, lru, free) && |lru| >= 2
    ensures current == lru[|lru| - 1] && Rep(p, [current] + lru[..|lru| - 1], free)
  {
    InPool(pool, lru);
    current := pool.oldest.value;
    assert Placed(pool, lru, |lru| - 1);
    var before := pool.previous[current].value;
    p := pool.(next := pool.next[before := None]);
    p := p.(oldest := p.previous[current]);
    ghost var s := lru[..|lru| - 1];
    ButLast(lru);
    forall k | 0 <= k < |s| ensures Placed(p, s, k) {
      assert Placed(pool, lru, k);
    }
    assert p.(oldest := At(s, |s| - 1)) == p;
    PushedUsed(p, s, current);
    p := PushHead(p, current);
    ChainKept(pool.next, p.next, p.free, free);
  }

  // ----- Back to the free list -----

  /** The links that differ when entry `i` is taken out. */
  ghost predicate OutLinks(pool: Pool, lru: seq<Ptr>, i: nat, p: Pool)
    requires i < |lru| && forall k | 0 <= k < |lru| :: lru[k] < |pool.next| == |pool.previous|
  {
    && p.next == (if i > 0 then pool.next[lru[i - 1] := At(lru, i + 1)] else pool.next)[lru[i] := pool.free]
    && p.previous == (if i + 1 < |lru| then pool.previous[lru[i + 1] := At(lru, i - 1)] else pool.previous)
  }

  lemma OutPlaced(pool: Pool, lru: seq<Ptr>, i: nat, p: Pool, s: seq<Ptr>, k: nat)
    requires NoDup(lru) && Used(pool, lru) && i < |lru|
    requires forall k | 0 <= k < |lru| :: lru[k] < |pool.next| == |pool.previous|
    requires OutLinks(pool, lru, i, p) && s == Without(lru, i) && k < |s|
    ensures Placed(p, s, k)
  {
    var j := if k < i then k else k + 1;
    assert s[k] == lru[j];
    assert Placed(pool, lru, j);
  }

  lemma Prepended(p: Ptr, s: seq<Ptr>)
    requires NoDup(s) && p !in s
    ensures NoDup([p] + s)
  {
    var t := [p] + s;
    forall i, j | 0 <= i < j < |t| ensures t[i] != t[j] {
      assert t[j] == s[j - 1] && (i > 0 ==> t[i] == s[i - 1]);
    }
  }

  lemma MovedOut(pool: Pool, lru: seq<Ptr>, free: seq<Ptr>, i: nat, p: Pool)
    requires Rep(pool, lru, free) && i < |lru|
    requires forall k | 0 <= k < |lru| :: lru[k] < |pool.next| == |pool.previous|
    requires OutLinks(pool, lru, i, p) && p.free == Some(lru[i])
    requires p.mostRecent == (if i > 0 then pool.mostRecent else At(lru, 1))
             && p.oldest == (if i + 1 < |lru| then pool.oldest else At(lru, i - 1))
    ensures Rep(p, Without(lru, i), [lru[i]] + free)
  {
    var s, f := Without(lru, i), [lru[i]] + free;
    WithoutMembers(lru, i);
    forall k | 0 <= k < |s| ensures Placed(p, s, k) {
      OutPlaced(pool, lru, i, p, s, k);
    }
    Prepended(lru[i], free);
    forall k | 0 <= k < |f| ensures Chained(p.next, f, k) {
      if k > 0 {
        assert Chained(pool.next, free, k - 1);
        assert f[k] == free[k - 1] && f[k] !in lru;
      }
    }
  }

  /** `do_invalidate`: entry `i` goes to the free list. */
  method ToFree(pool: Pool, current: Ptr, ghost lru: seq<Ptr>, ghost free: seq<Ptr>, ghost i: nat) returns (p: Pool)
    requires Rep(pool, lru, free) && i < |lru| && lru[i] == current
    ensures Rep(p, Without(lru, i), [current] + free)
  {
    InPool(pool, lru);
    assert Placed(pool, lru, i);
    p := pool;
    var previous := pool.previous[current];
    if p.next[current].Some? {
      p := p.(previous := p.previous[p.next[current].value := previous]);
    } else {
      p := p.(oldest := previous);
    }
    if previous.Some? {
      p := p.(next := p.next[previous.value := p.next[current]]);
    } else {
      p := p.(mostRecent := p.next[current]);
    }
    p := p.(next := p.next[current := p.free], free := Some(current));
    MovedOut(pool, lru, free, i, p);
  }

  // ----- The pool as a whole -----

  /** A new pool: all entries are free. */
  method Create(n: nat) returns (p: Pool, ghost free: seq<Ptr>)
    requires n > 0
    ensures |p.next| == n && Rep(p, [], free)
  {
    var next: seq<Option<Ptr>> := [];
    for i := 0 to n - 1
      invariant |next| == i && forall k | 0 <= k < i :: next[k] == Some(k + 1)
    {
      next := next + [Some(i + 1)];
    }
    next := next + [None];
    free := seq(n, i => i);
    p := Pool(next, seq(n, i => None), None, None, Some(0));
  }

  lemma {:induction false} DistinctSize(s: seq<Ptr>, n: nat)
    requires NoDup(s) && forall i | 0 <= i < |s| :: s[i] < n
    ensures |s| <= n
    decreases n
  {
    if s != [] {
      assert s[0] < n;
      if i :| 0 <= i < |s| && s[i] == n - 1 {
        WithoutMembers(s, i);
        var t := Without(s, i);
        forall k | 0 <= k < |t| ensures t[k] < n - 1 {
          assert t[k] in t;
        }
        DistinctSize(t, n - 1);
      } else {
        DistinctSize(s, n - 1);
      }
    }
  }

  /** Every entry of the pool is in use or free. */
  lemma Partition(pool: Pool, lru: seq<Ptr>, free: seq<Ptr>, p: Ptr)
    requires Rep(pool, lru, free) && p < |pool.next|
    ensures (p in lru) != (p in free)
  {
    if p !in lru && p !in free {
      var s := lru + free + [p];
      InPool(pool, lru);
      forall k | 0 <= k < |s| ensures s[k] < |pool.next| {
        if |lru| <= k < |lru| + |free| {
          assert Chained(pool.next, free, k - |lru|);
        }
      }
      assert NoDup(s) by {
        forall i, j | 0 <= i < j < |s| ensures s[i] != s[j] {
          assert i < |lru| ==> s[i] in lru;
          assert |lru| <= i < |lru| + |free| ==> s[i] in free;
          assert |lru| <= j < |lru| + |free| ==> s[j] in free;
        }
      }
      DistinctSize(s, |pool.next|);
    }
  }
}
