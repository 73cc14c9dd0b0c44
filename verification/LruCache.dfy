/** The cache proper (cache.c): entries in order of use, found through the hash index or by walking the
    list, against the sequence of cached items, most recent first. */
module LruCache {
  import opened Common
  import opened LruPool
  import opened HashIndex

  /** `hashing` is false where there is no hash function, or it has been dropped. */
  datatype Cache<T> = Cache(pool: Pool, items: seq<T>, ix: Index, hashing: bool)

  /** The lists that the links stand for; `linkOf` gives the link of each entry in use. */
  datatype Shape = Shape(lru: seq<Ptr>, free: seq<Ptr>, chains: seq<seq<Link>>, links: seq<Link>, home: seq<int>,
                         linkOf: map<Ptr, Link>)

  type Relation<!T> = (T, T) -> bool

  ghost predicate Equivalence<T(!new)>(same: Relation<T>) {
    && (forall x :: same(x, x)) && (forall x, y :: same(x, y) ==> same(y, x))
    && (forall x, y, z :: same(x, y) && same(y, z) ==> same(x, z))
  }

  /** The hash respects the comparison and stays in range. */
  ghost predicate GoodHash<T(!new)>(same: Relation<T>, hash: T -> int, maxHash: nat) {
    (forall x, y :: same(x, y) ==> hash(x) == hash(y)) && forall x :: 0 <= hash(x) < maxHash
  }

  // ----- The invariant -----

  ghost predicate SameKey<T>(items: seq<T>, lru: seq<Ptr>, same: Relation<T>, e: Ptr, f: Ptr) {
    e in lru && f in lru && e < |items| && f < |items| && same(items[e], items[f])
  }

  /** The link of entry `e` is on the chain of its hash. */
  ghost predicate Filed<T>(c: Cache<T>, g: Shape, hash: T -> int, e: Ptr)
    requires e < |c.items|
  {
    && e in g.linkOf && g.linkOf[e] < |c.ix.entry| && c.ix.entry[g.linkOf[e]] == e
    && 0 <= hash(c.items[e]) < |g.chains| && g.linkOf[e] in g.chains[hash(c.items[e])]
  }

  /** A link on chain `h` belongs to an entry in use. */
  ghost predicate Linked<T>(c: Cache<T>, g: Shape, h: nat, l: Link)
    requires h < |g.chains|
  {
    l in g.chains[h] ==>
      l < |c.ix.entry| && c.ix.entry[l] in g.lru && c.ix.entry[l] in g.linkOf && g.linkOf[c.ix.entry[l]] == l
  }

  ghost predicate Indexed<T>(c: Cache<T>, g: Shape, hash: T -> int) {
    && Links(c.ix, g.chains, g.links, g.home) && Total(g.chains) == |g.lru| && |c.ix.next| == |c.items|
    && (forall e {:trigger Filed(c, g, hash, e)} | e in g.lru && e < |c.items| :: Filed(c, g, hash, e))
    && (forall h, l {:trigger Linked(c, g, h, l)} | 0 <= h < |g.chains| :: Linked(c, g, h, l))
  }

  ghost predicate Sound<T>(c: Cache<T>, g: Shape, same: Relation<T>, hash: T -> int) {
    && Rep(c.pool, g.lru, g.free) && |c.items| == |c.pool.next| && (forall e | e in g.lru :: e < |c.items|)
    && (forall e, f | SameKey(c.items, g.lru, same, e, f) :: e == f)
    && (c.hashing ==> Indexed(c, g, hash))
  }

  /** The cached items, most recent first. */
  ghost function Contents<T>(c: Cache<T>, lru: seq<Ptr>): seq<T>
    requires forall e | e in lru :: e < |c.items|
  {
    seq(|lru|, i requires 0 <= i < |lru| => assert lru[i] in lru; c.items[lru[i]])
  }

  // ----- Searching -----

  /** The place of the first item that is the same as `w`. */
  ghost function FirstMatch<T>(s: seq<T>, same: Relation<T>, w: T): (i: nat)
    ensures i <= |s| && (i < |s| ==> same(s[i], w)) && forall j | 0 <= j < i :: !same(s[j], w)
  {
    if s == [] || same(s[0], w) then 0 else 1 + FirstMatch(s[1..], same, w)
  }

  lemma FirstMatchIs<T>(s: seq<T>, same: Relation<T>, w: T, i: nat)
    requires i <= |s| && (i < |s| ==> same(s[i], w)) && forall j | 0 <= j < i :: !same(s[j], w)
    ensures FirstMatch(s, same, w) == i
  {
  }

  /** The walk along the list. */
  method SearchSequentially<T>(c: Cache<T>, w: T, same: Relation<T>, ghost g: Shape, ghost hash: T -> int)
    returns (r: Option<Ptr>)
    requires Sound(c, g, same, hash)
    ensures r == At(g.lru, FirstMatch(Contents(c, g.lru), same, w))
  {
    InPool(c.pool, g.lru);
    ghost var i, s := 0, Contents(c, g.lru);
    r := c.pool.mostRecent;
    while r.Some? && !same(c.items[r.value], w)
      invariant i <= |g.lru| && (r.Some? ==> r.value < |c.items|) && r == At(g.lru, i) && forall j | 0 <= j < i ::
                  !same(s[j], w)
      decreases |g.lru| - i
    {
      assert Placed(c.pool, g.lru, i);
      r := c.pool.next[r.value];
      i := i + 1;
    }
    FirstMatchIs(s, same, w, i);
  }

  lemma OnlyMatch<T(!new)>(c: Cache<T>, g: Shape, same: Relation<T>, hash: T -> int, w: T, e: Ptr)
    requires Sound(c, g, same, hash) && Equivalence(same) && e in g.lru && same(c.items[e], w)
    ensures At(g.lru, FirstMatch(Contents(c, g.lru), same, w)) == Some(e)
  {
    var s := Contents(c, g.lru);
    var k :| 0 <= k < |g.lru| && g.lru[k] == e;
    var i := FirstMatch(s, same, w);
    assert s[k] == c.items[e];
    assert g.lru[i] in g.lru;
    assert same(w, c.items[e]);
    assert SameKey(c.items, g.lru, same, g.lru[i], e);
  }

  /** The walk along the chain of the hash of `w` finds the same entry. */
  method SearchHashed<T(!new)>(c: Cache<T>, w: T, same: Relation<T>, hash: T -> int, ghost g: Shape)
    returns (r: Option<Ptr>)
    requires Sound(c, g, same, hash) && c.hashing && Equivalence(same) && GoodHash(same, hash, |g.chains|)
    ensures r == At(g.lru, FirstMatch(Contents(c, g.lru), same, w))
  {
    var h := hash(w);
    var link := c.ix.first[h];
    ghost var i, s := 0, g.chains[h];
    assert ChainAt(c.ix, g.chains, g.home, h);
    InChain(c.ix.next, c.ix.first[h], s);
    forall l | l in s ensures l < |c.ix.entry| && c.ix.entry[l] in g.lru {
      assert Linked(c, g, h, l);
    }
    while link.Some? && !same(c.items[c.ix.entry[link.value]], w)
      invariant i <= |s| && link == At(s, i) && forall j | 0 <= j < i :: !same(c.items[c.ix.entry[s[j]]], w)
      decreases |s| - i
    {
      assert Chained(c.ix.next, s, i);
      link := c.ix.next[link.value];
      i := i + 1;
    }
    if link.Some? {
      r := Some(c.ix.entry[link.value]);
      OnlyMatch(c, g, same, hash, w, r.value);
    } else {
      r := None;
      NoMatch(c, g, same, hash, w);
    }
  }

  lemma NoMatch<T(!new)>(c: Cache<T>, g: Shape, same: Relation<T>, hash: T -> int, w: T)
    requires Sound(c, g, same, hash) && c.hashing && GoodHash(same, hash, |g.chains|)
    requires forall l | l in g.chains[hash(w)] && l < |c.ix.entry| && c.ix.entry[l] < |c.items| ::
               !same(c.items[c.ix.entry[l]], w)
    ensures At(g.lru, FirstMatch(Contents(c, g.lru), same, w)) == None
  {
    var s := Contents(c, g.lru);
    forall i | 0 <= i < |s| ensures !same(s[i], w) {
      var e := g.lru[i];
      assert e in g.lru;
      assert Filed(c, g, hash, e);
    }
  }

  method Locate<T(!new)>(c: Cache<T>, w: T, same: Relation<T>, hash: T -> int, ghost g: Shape) returns (r: Option<Ptr>)
    requires Sound(c, g, same, hash) && Equivalence(same) && (c.hashing ==> GoodHash(same, hash, |g.chains|))
    ensures r == At(g.lru, FirstMatch(Contents(c, g.lru), same, w))
  {
    if c.hashing {
      r := SearchHashed(c, w, same, hash, g);
    } else {
      r := SearchSequentially(c, w, same, g, hash);
    }
  }

  // ----- The index, when entries come and go -----

  /** After the link of entry `e` has gone from its chain. */
  function Dropping(g: Shape, h: nat, k: nat, e: Ptr, lru: seq<Ptr>): Shape
    requires h < |g.chains| && k < |g.chains[h]| && g.chains[h][k] < |g.home|
  {
    var l := g.chains[h][k];
    Shape(lru, g.free, g.chains[h := Without(g.chains[h], k)], [l] + g.links, g.home[l := FREE], g.linkOf - {e})
  }

  lemma IndexDropped<T>(c: Cache<T>, g: Shape, hash: T -> int, e: Ptr, k: nat, ix: Index, lru: seq<Ptr>)
    requires Indexed(c, g, hash) && e in g.lru && e < |c.items| && 0 <= hash(c.items[e]) < |g.chains|
    requires var h := hash(c.items[e]);
               k < |g.chains[h]| && g.chains[h][k] < |c.ix.entry| && c.ix.entry[g.chains[h][k]] == e
    requires ix.entry == c.ix.entry && |ix.next| == |c.items|
    requires var g' := Dropping(g, hash(c.items[e]), k, e, lru); Links(ix, g'.chains, g'.links, g'.home)
    requires |lru| + 1 == |g.lru| && forall f: Ptr :: f in lru <==> f in g.lru && f != e
    ensures Indexed(c.(ix := ix), Dropping(g, hash(c.items[e]), k, e, lru), hash)
  {
    var h, c' := hash(c.items[e]), c.(ix := ix);
    var l := g.chains[h][k];
    var g' := Dropping(g, h, k, e, lru);
    assert ChainAt(c.ix, g.chains, g.home, h);
    assert l in g.chains[h] && Linked(c, g, h, l);
    WithoutMembers(g.chains[h], k);
    TotalUpdate(g.chains, h, Without(g.chains[h], k));
    forall f | f in lru && f < |c.items| ensures Filed(c', g', hash, f) {
      assert Filed(c, g, hash, f);
    }
    forall j, m | 0 <= j < |g'.chains| ensures Linked(c', g', j, m) {
      assert Linked(c, g, j, m);
      assert ChainAt(c.ix, g.chains, g.home, j);
    }
  }

  /** After a link for entry `e`, now with item `x`, has been put on its chain. */
  function Entering(g: Shape, h: nat, e: Ptr, lru: seq<Ptr>): Shape
    requires h < |g.chains| && g.links != [] && g.links[0] < |g.home|
  {
    var l := g.links[0];
    Shape(lru, g.free, g.chains[h := [l] + g.chains[h]], g.links[1..], g.home[l := h], g.linkOf[e := l])
  }

  lemma IndexEntered<T>(c: Cache<T>, g: Shape, hash: T -> int, e: Ptr, x: T, ix: Index, lru: seq<Ptr>)
    requires Indexed(c, g, hash) && e !in g.lru && e < |c.items| && 0 <= hash(x) < |g.chains|
             && (forall f | f in g.lru :: f < |c.items|)
    requires g.links != [] && g.links[0] < |g.home| && g.links[0] < |c.ix.entry|
             && ix.entry == c.ix.entry[g.links[0] := e] && |ix.next| == |c.items|
    requires var g' := Entering(g, hash(x), e, lru); Links(ix, g'.chains, g'.links, g'.home)
    requires |lru| == |g.lru| + 1 && forall f: Ptr :: f in lru <==> f in g.lru || f == e
    ensures Indexed(c.(ix := ix, items := c.items[e := x]), Entering(g, hash(x), e, lru), hash)
  {
    var h, l, c' := hash(x), g.links[0], c.(ix := ix, items := c.items[e := x]);
    var g' := Entering(g, h, e, lru);
    assert l in g.links;
    TotalUpdate(g.chains, h, [l] + g.chains[h]);
    forall f | f in lru && f < |c'.items| ensures Filed(c', g', hash, f) {
      if f != e {
        assert Filed(c, g, hash, f);
        assert ChainAt(c.ix, g.chains, g.home, hash(c.items[f]));
      }
    }
    forall j, m | 0 <= j < |g'.chains| ensures Linked(c', g', j, m) {
      assert Linked(c, g, j, m);
      assert ChainAt(c.ix, g.chains, g.home, j);
    }
  }

  // ----- Fetching -----

  /** The invariant of entries and keys does not depend on the order of the list. */
  lemma IndexReordered<T>(c: Cache<T>, g: Shape, hash: T -> int, lru: seq<Ptr>)
    requires Indexed(c, g, hash) && |lru| == |g.lru| && forall e: Ptr :: e in lru <==> e in g.lru
    ensures Indexed(c, g.(lru := lru), hash)
  {
    var g' := g.(lru := lru);
    forall e | e in lru && e < |c.items| ensures Filed(c, g', hash, e) {
      assert Filed(c, g, hash, e);
    }
    forall h, l | 0 <= h < |g.chains| ensures Linked(c, g', h, l) {
      assert Linked(c, g, h, l);
    }
  }

  lemma IndexPool<T>(c: Cache<T>, g: Shape, hash: T -> int, pool: Pool, free: seq<Ptr>)
    requires Indexed(c, g, hash)
    ensures Indexed(c.(pool := pool), g.(free := free), hash)
  {
    var c', g' := c.(pool := pool), g.(free := free);
    forall e | e in g.lru && e < |c.items| ensures Filed(c', g', hash, e) {
      assert Filed(c, g, hash, e);
    }
    forall h, l | 0 <= h < |g.chains| ensures Linked(c', g', h, l) {
      assert Linked(c, g, h, l);
    }
  }

  /** `ntfs_fetch_cache`: the entry found, by either search, becomes the most recent. */
  method FetchCache<T(!new)>(c: Cache<T>, w: T, same: Relation<T>, hash: T -> int, ghost g: Shape)
    returns (c': Cache<T>, r: Option<Ptr>, ghost g': Shape)
    requires Sound(c, g, same, hash) && Equivalence(same) && (c.hashing ==> GoodHash(same, hash, |g.chains|))
    ensures Sound(c', g', same, hash) && c'.hashing == c.hashing && c'.items == c.items && g'.chains == g.chains
    ensures var s := Contents(c, g.lru); var i := FirstMatch(s, same, w);
            && r == At(g.lru, i) && (r.Some? ==> r.value < |c.items| && same(c.items[r.value], w))
            && Contents(c', g'.lru) == if i < |s| then [s[i]] + s[..i] + s[i + 1..] else s
  {
    c', g' := c, g;
    r := Locate(c, w, same, hash, g);
    if r.Some? {
      assert r.value in g.lru;
      ghost var i := FirstMatch(Contents(c, g.lru), same, w);
      var pool := ToHead(c.pool, r.value, g.lru, g.free, i);
      c' := c.(pool := pool);
      g' := g.(lru := [r.value] + Without(g.lru, i));
      FetchedSound(c, g, same, hash, i, pool);
    }
  }

  lemma FetchedSound<T>(c: Cache<T>, g: Shape, same: Relation<T>, hash: T -> int, i: nat, pool: Pool)
    requires Sound(c, g, same, hash) && i < |g.lru| && Rep(pool, [g.lru[i]] + Without(g.lru, i), g.free)
    ensures var lru := [g.lru[i]] + Without(g.lru, i);
            && Sound(c.(pool := pool), g.(lru := lru), same, hash)
            && var s := Contents(c, g.lru); Contents(c.(pool := pool), lru) == [s[i]] + s[..i] + s[i + 1..]
  {
    var lru, c' := [g.lru[i]] + Without(g.lru, i), c.(pool := pool);
    WithoutMembers(g.lru, i);
    assert g.lru[i] in g.lru;
    assert forall e: Ptr :: e in lru <==> e in g.lru;
    forall e, f | SameKey(c.items, lru, same, e, f) ensures e == f {
      assert SameKey(c.items, g.lru, same, e, f);
    }
    if c.hashing {
      IndexReordered(c, g, hash, lru);
      IndexPool(c, g.(lru := lru), hash, pool, g.free);
    }
  }

  // ----- Dropping the index of an entry -----

  /** Link `k` of the chain of `e` has gone. */
  ghost predicate DroppedAt<T>(c: Cache<T>, g: Shape, hash: T -> int, e: Ptr, k: nat, g': Shape) {
    && e < |c.items| && 0 <= hash(c.items[e]) < |g.chains|
    && var h := hash(c.items[e]);
       && k < |g.chains[h]| && g.chains[h][k] < |c.ix.entry| && c.ix.entry[g.chains[h][k]] == e
       && g'.chains == g.chains[h := Without(g.chains[h], k)]
  }

  /** `drophashindex` for an entry in use finds its link, so that hashing goes on. */
  method DropIndex<T>(c: Cache<T>, e: Ptr, hash: T -> int, ghost g: Shape, ghost lru: seq<Ptr>)
    returns (c': Cache<T>, ghost g': Shape, ghost k: nat)
    requires c.hashing ==> Indexed(c, g, hash)
    requires e in g.lru && e < |c.items| && |lru| + 1 == |g.lru| && forall f: Ptr :: f in lru <==> f in g.lru && f != e
    ensures c'.hashing == c.hashing && c'.pool == c.pool && c'.items == c.items && g'.lru == lru && g'.free == g.free
            && |g'.chains| == |g.chains|
    ensures c.hashing ==> Indexed(c', g', hash) && DroppedAt(c, g, hash, e, k, g') && c'.ix.entry == c.ix.entry
  {
    c', g', k := c, g.(lru := lru), 0;
    if c.hashing {
      assert Filed(c, g, hash, e);
      var ix, dropped;
      ix, dropped, k := Drop(c.ix, e, hash(c.items[e]), g.chains, g.links, g.home);
      c' := c.(ix := ix, hashing := !dropped);
      if !dropped {
        g' := Dropping(g, hash(c.items[e]), k, e, lru);
        IndexDropped(c, g, hash, e, k, ix, lru);
      }
    }
  }

  /** `inserthashindex` for a new entry finds a free link, so that hashing goes on. */
  method InsertIndex<T>(c: Cache<T>, e: Ptr, x: T, hash: T -> int, ghost g: Shape, ghost lru: seq<Ptr>)
    returns (c': Cache<T>, ghost g': Shape)
    requires c.hashing ==> Indexed(c, g, hash) && 0 <= hash(x) < |g.chains|
    requires e !in g.lru && e < |c.items| && (forall f | f in g.lru :: f < |c.items|) && |g.lru| < |c.items|
    requires |lru| == |g.lru| + 1 && forall f: Ptr :: f in lru <==> f in g.lru || f == e
    ensures c'.hashing == c.hashing && c'.pool == c.pool && c'.items == c.items[e := x] && g'.lru == lru
            && g'.free == g.free && |g'.chains| == |g.chains|
    ensures c.hashing ==> Indexed(c', g', hash)
  {
    c', g' := c.(items := c.items[e := x]), g.(lru := lru);
    if c.hashing {
      var ix, dropped := Insert(c.ix, e, hash(x), g.chains, g.links, g.home);
      c' := c'.(ix := ix, hashing := !dropped);
      if !dropped {
        g' := Entering(g, hash(x), e, lru);
        IndexEntered(c, g, hash, e, x, ix, lru);
      }
    }
  }

  // ----- Entering -----

  lemma FewerKeys<T>(items: seq<T>, lru: seq<Ptr>, same: Relation<T>, lru': seq<Ptr>)
    requires (forall e, f | SameKey(items, lru, same, e, f) :: e == f) && forall e: Ptr | e in lru' :: e in lru
    ensures forall e, f | SameKey(items, lru', same, e, f) :: e == f
  {
    forall e, f | SameKey(items, lru', same, e, f) ensures e == f {
      assert SameKey(items, lru, same, e, f);
    }
  }

  lemma MoreKeys<T(!new)>(items: seq<T>, lru: seq<Ptr>, same: Relation<T>, p: Ptr, x: T, items': seq<T>, lru': seq<Ptr>)
    requires p < |items| && items' == items[p := x] && lru' == [p] + lru
    requires (forall e, f | SameKey(items, lru, same, e, f) :: e == f) && Equivalence(same)
    requires p !in lru && forall e | e in lru && e < |items| :: !same(items[e], x)
    ensures forall e, f | SameKey(items', lru', same, e, f) :: e == f
  {
    forall e, f | SameKey(items', lru', same, e, f) ensures e == f {
      if e != p && f != p {
        assert SameKey(items, lru, same, e, f);
      }
    }
  }

  lemma NewSound<T(!new)>(c: Cache<T>, g: Shape, same: Relation<T>, hash: T -> int, p: Ptr, x: T, lru: seq<Ptr>,
                   c': Cache<T>, g': Shape)
    requires Equivalence(same) && (forall e | e in lru :: e < |c.items|) && p !in lru && p < |c.items|
    requires (forall e, f | SameKey(c.items, lru, same, e, f) :: e == f)
             && (forall e | e in lru :: !same(c.items[e], x))
    requires c'.items == c.items[p := x] && g'.lru == [p] + lru && Rep(c'.pool, g'.lru, g'.free)
             && |c'.items| == |c'.pool.next|
    requires c'.hashing ==> Indexed(c', g', hash)
    ensures Sound(c', g', same, hash) && Contents(c', g'.lru) == [x] + Contents(c, lru)
  {
    MoreKeys(c.items, lru, same, p, x, c'.items, g'.lru);
    var s, t := Contents(c', g'.lru), [x] + Contents(c, lru);
    forall i | 0 <= i < |s| ensures s[i] == t[i] {
      if i > 0 {
        assert g'.lru[i] == lru[i - 1] && lru[i - 1] in lru;
      }
    }
  }

  /** The part of `ntfs_enter_cache` for an item that is not there, while entries are free. */
  method EnterFree<T(!new)>(c: Cache<T>, x: T, same: Relation<T>, hash: T -> int, ghost g: Shape)
    returns (c': Cache<T>, p: Ptr, ghost g': Shape)
    requires Sound(c, g, same, hash) && Equivalence(same) && (c.hashing ==> 0 <= hash(x) < |g.chains|)
    requires (forall e | e in g.lru :: !same(c.items[e], x)) && c.pool.free.Some?
    ensures Sound(c', g', same, hash) && c'.hashing == c.hashing && |c'.items| == |c.items| && |g'.chains| == |g.chains|
    ensures g'.lru == [p] + g.lru && Contents(c', g'.lru) == [x] + Contents(c, g.lru)
    ensures p < |c.items| && c'.items == c.items[p := x]
  {
    var pool;
    pool, p := FreeToHead(c.pool, g.lru, g.free);
    assert p in g.free;
    assert p < |c.items| by {
      InPool(pool, [p] + g.lru);
      assert ([p] + g.lru)[0] == p;
    }
    c', g' := InsertIndex(c, p, x, hash, g, [p] + g.lru);
    ghost var c1, g1 := c', g';
    c', g' := c'.(pool := pool), g'.(free := g.free[1..]);
    if c.hashing {
      IndexPool(c1, g1, hash, pool, g.free[1..]);
    }
    NewSound(c, g, same, hash, p, x, g.lru, c', g');
  }

  /** And when all are in use: the oldest is reused. */
  method EnterFull<T(!new)>(c: Cache<T>, x: T, same: Relation<T>, hash: T -> int, ghost g: Shape)
    returns (c': Cache<T>, p: Ptr, ghost g': Shape)
    requires Sound(c, g, same, hash) && Equivalence(same) && (c.hashing ==> 0 <= hash(x) < |g.chains|)
    requires (forall e | e in g.lru :: !same(c.items[e], x)) && |g.lru| >= 2
    ensures Sound(c', g', same, hash) && c'.hashing == c.hashing && |c'.items| == |c.items| && |g'.chains| == |g.chains|
    ensures p == g.lru[|g.lru| - 1] && Contents(c', g'.lru) == [x] + Contents(c, g.lru)[..|g.lru| - 1]
    ensures g'.lru == [p] + g.lru[..|g.lru| - 1] && p < |c.items| && c'.items == c.items[p := x]
  {
    ghost var lru := g.lru[..|g.lru| - 1];
    ButLast(g.lru);
    var pool;
    pool, p := LastToHead(c.pool, g.lru, g.free);
    assert p in g.lru;
    ghost var k;
    c', g', k := DropIndex(c, p, hash, g, lru);
    c', g' := InsertIndex(c', p, x, hash, g', [p] + lru);
    ghost var c1, g1 := c', g';
    c', g' := c'.(pool := pool), g';
    if c.hashing {
      IndexPool(c1, g1, hash, pool, g1.free);
    }
    FewerKeys(c.items, g.lru, same, lru);
    NewSound(c, g, same, hash, p, x, lru, c', g');
    assert Contents(c, lru) == Contents(c, g.lru)[..|g.lru| - 1];
  }

  /** `ntfs_enter_cache`: an item that is there stays where it is; another one becomes the most recent,
      in place of the oldest when no entry is free. */
  method EnterCache<T(!new)>(c: Cache<T>, x: T, same: Relation<T>, hash: T -> int, ghost g: Shape)
    returns (c': Cache<T>, p: Ptr, ghost g': Shape)
    requires Sound(c, g, same, hash) && Equivalence(same) && (c.hashing ==> GoodHash(same, hash, |g.chains|))
             && |c.items| >= 2
    ensures Sound(c', g', same, hash) && c'.hashing == c.hashing && |c'.items| == |c.items| && |g'.chains| == |g.chains|
    ensures var s := Contents(c, g.lru); var i := FirstMatch(s, same, x);
            && (i < |s| ==> (c', g') == (c, g) && p == g.lru[i] && p < |c.items| && same(c.items[p], x))
            && (i == |s| ==>
                  && g'.lru != [] && p == g'.lru[0] && p < |c.items| && c'.items == c.items[p := x]
                  && Contents(c', g'.lru)[0] == x && (g.free != [] <==> |s| < |c.items|)
                  && Contents(c', g'.lru)[1..] == (if g.free != [] then s else s[..|s| - 1]))
  {
    c', g' := c, g;
    var r := Locate(c, x, same, hash, g);
    if r.Some? {
      p := r.value;
      assert p in g.lru;
    } else {
      NoneSame(c, g, same, x);
      if c.pool.free.Some? {
        c', p, g' := EnterFree(c, x, same, hash, g);
      } else {
        c', p, g' := EnterFull(c, x, same, hash, g);
      }
    }
  }

  lemma NoneSame<T>(c: Cache<T>, g: Shape, same: Relation<T>, x: T)
    requires (forall e | e in g.lru :: e < |c.items|) && FirstMatch(Contents(c, g.lru), same, x) == |g.lru|
    ensures forall e | e in g.lru :: !same(c.items[e], x)
  {
    var s := Contents(c, g.lru);
    forall e | e in g.lru ensures !same(c.items[e], x) {
      var i :| 0 <= i < |g.lru| && g.lru[i] == e;
      assert s[i] == c.items[e];
    }
  }

  // ----- Invalidating -----

  function Out<T>(s: seq<T>, i: nat): seq<T>
    requires i < |s|
  {
    s[..i] + s[i + 1..]
  }

  /** `ntfs_remove_cache`, and what an invalidation does to one entry: it becomes free. */
  method RemoveEntry<T>(c: Cache<T>, e: Ptr, same: Relation<T>, hash: T -> int, ghost g: Shape, ghost i: nat)
    returns (c': Cache<T>, ghost g': Shape, ghost k: nat)
    requires Sound(c, g, same, hash) && i < |g.lru| && g.lru[i] == e
    ensures Sound(c', g', same, hash) && c'.hashing == c.hashing && c'.items == c.items && |g'.chains| == |g.chains|
    ensures g'.lru == Without(g.lru, i) && Contents(c', g'.lru) == Out(Contents(c, g.lru), i)
    ensures c.hashing ==> DroppedAt(c, g, hash, e, k, g') && c'.ix.entry == c.ix.entry
  {
    ghost var lru := Without(g.lru, i);
    WithoutMembers(g.lru, i);
    assert e in g.lru;
    c', g', k := DropIndex(c, e, hash, g, lru);
    var pool := ToFree(c.pool, e, g.lru, g.free, i);
    ghost var c1, g1 := c', g';
    c', g' := c'.(pool := pool), g'.(free := [e] + g.free);
    if c.hashing {
      IndexPool(c1, g1, hash, pool, [e] + g.free);
    }
    FewerKeys(c.items, g.lru, same, lru);
    assert Contents(c', lru) == Out(Contents(c, g.lru), i);
  }

  function Kept<T>(s: seq<T>, selected: T -> bool): seq<T> {
    if s == [] then [] else (if selected(s[0]) then [] else [s[0]]) + Kept(s[1..], selected)
  }

  lemma KeptOut<T>(s: seq<T>, i: nat, selected: T -> bool)
    requires i < |s| && selected(s[i])
    ensures s[..i] + Kept(s[i..], selected) == Out(s, i)[..i] + Kept(Out(s, i)[i..], selected)
  {
    assert s[i..][1..] == s[i + 1..];
    assert Out(s, i)[..i] == s[..i] && Out(s, i)[i..] == s[i + 1..];
  }

  lemma KeptIn<T>(s: seq<T>, i: nat, selected: T -> bool)
    requires i < |s| && !selected(s[i])
    ensures s[..i] + Kept(s[i..], selected) == s[..i + 1] + Kept(s[i + 1..], selected)
  {
    assert s[i..][1..] == s[i + 1..];
    assert s[..i + 1] == s[..i] + [s[i]];
  }

  /** What the walk will leave of the items, with the first `i` of them behind it. */
  ghost function Leaves<T>(s: seq<T>, i: nat, selected: T -> bool): seq<T>
    requires i <= |s|
  {
    s[..i] + Kept(s[i..], selected)
  }

  /** One turn of the walk along the list, at its entry `i`. */
  method InvalidateAt<T>(c: Cache<T>, current: Ptr, selected: T -> bool, same: Relation<T>, hash: T -> int,
                         ghost g: Shape, ghost i: nat)
    returns (c': Cache<T>, next: Option<Ptr>, removed: bool, ghost g': Shape)
    requires Sound(c, g, same, hash) && i < |g.lru| && g.lru[i] == current
    ensures Sound(c', g', same, hash) && c'.hashing == c.hashing && |g'.chains| == |g.chains| && c'.items == c.items
    ensures |g'.lru| == |g.lru| - (if removed then 1 else 0) && next == At(g'.lru, if removed then i else i + 1)
    ensures Leaves(Contents(c', g'.lru), if removed then i else i + 1, selected)
            == Leaves(Contents(c, g.lru), i, selected)
  {
    InPool(c.pool, g.lru);
    assert Placed(c.pool, g.lru, i);
    c', g' := c, g;
    next := c.pool.next[current];
    removed := selected(c.items[current]);
    if removed {
      KeptOut(Contents(c, g.lru), i, selected);
      ghost var k;
      c', g', k := RemoveEntry(c, current, same, hash, g, i);
    } else {
      KeptIn(Contents(c, g.lru), i, selected);
    }
  }

  /** The walk of `ntfs_invalidate_cache` along the list: exactly the selected items go, whatever the
      selection is. */
  method InvalidateSequentially<T>(c: Cache<T>, selected: T -> bool, same: Relation<T>, hash: T -> int, ghost g: Shape)
    returns (c': Cache<T>, count: nat, ghost g': Shape)
    requires Sound(c, g, same, hash)
    ensures Sound(c', g', same, hash) && c'.hashing == c.hashing && |g'.chains| == |g.chains| && c'.items == c.items
    ensures Contents(c', g'.lru) == Kept(Contents(c, g.lru), selected) && count == |g.lru| - |g'.lru|
  {
    c', g', count := c, g, 0;
    var current := c.pool.mostRecent;
    ghost var i := 0;
    assert Leaves(Contents(c, g.lru), 0, selected) == Kept(Contents(c, g.lru), selected) by {
      assert Contents(c, g.lru)[0..] == Contents(c, g.lru);
    }
    while current.Some?
      invariant Sound(c', g', same, hash) && c'.hashing == c.hashing && |g'.chains| == |g.chains| && c'.items == c.items
      invariant i <= |g'.lru| <= |g.lru| && current == At(g'.lru, i) && count == |g.lru| - |g'.lru|
      invariant Leaves(Contents(c', g'.lru), i, selected) == Kept(Contents(c, g.lru), selected)
      decreases |g'.lru| - i
    {
      var removed;
      c', current, removed, g' := InvalidateAt(c', current.value, selected, same, hash, g', i);
      if removed {
        count := count + 1;
      } else {
        i := i + 1;
      }
    }
    assert Contents(c', g'.lru)[i..] == [] && Contents(c', g'.lru)[..i] == Contents(c', g'.lru);
  }

  /** What is left after the item that is the same as `w`, if there is one, has gone. */
  ghost function Invalidated<T>(s: seq<T>, same: Relation<T>, w: T): seq<T> {
    var i := FirstMatch(s, same, w);
    if i < |s| then Out(s, i) else s
  }

  ghost predicate NothingSame<T>(c: Cache<T>, lru: seq<Ptr>, same: Relation<T>, w: T) {
    forall e | e in lru && e < |c.items| :: !same(c.items[e], w)
  }

  /** Removing the only entry that is the same as `w`. */
  lemma OnlyOne<T(!new)>(c: Cache<T>, g: Shape, same: Relation<T>, hash: T -> int, w: T, i: nat)
    requires Sound(c, g, same, hash) && Equivalence(same) && i < |g.lru| && g.lru[i] < |c.items|
             && same(c.items[g.lru[i]], w)
    ensures FirstMatch(Contents(c, g.lru), same, w) == i && NothingSame(c, Without(g.lru, i), same, w)
  {
    var e := g.lru[i];
    assert e in g.lru;
    OnlyMatch(c, g, same, hash, w, e);
    WithoutMembers(g.lru, i);
    forall f | f in Without(g.lru, i) && f < |c.items| ensures !same(c.items[f], w) {
      if same(c.items[f], w) {
        assert same(w, c.items[e]);
        assert SameKey(c.items, g.lru, same, f, e);
      }
    }
  }

  /** The place of an entry in the list. */
  lemma PlaceOf(lru: seq<Ptr>, e: Ptr) returns (i: nat)
    requires e in lru
    ensures i < |lru| && lru[i] == e
  {
    i :| 0 <= i < |lru| && lru[i] == e;
  }

  /** The link that has gone is the one at `i`. */
  lemma SameLink<T>(c: Cache<T>, g: Shape, hash: T -> int, e: Ptr, k: nat, g': Shape, h: nat, i: nat)
    requires Indexed(c, g, hash) && DroppedAt(c, g, hash, e, k, g') && h == hash(c.items[e]) && i < |g.chains[h]|
    requires g.chains[h][i] < |c.ix.entry| && c.ix.entry[g.chains[h][i]] == e
    ensures k == i
  {
    assert ChainAt(c.ix, g.chains, g.home, h);
    assert g.chains[h][i] in g.chains[h] && g.chains[h][k] in g.chains[h];
    assert Linked(c, g, h, g.chains[h][i]) && Linked(c, g, h, g.chains[h][k]);
  }

  lemma ChainFacts<T>(c: Cache<T>, g: Shape, same: Relation<T>, hash: T -> int, h: nat, i: nat)
    requires Sound(c, g, same, hash) && c.hashing && h < |g.chains| && i < |g.chains[h]|
    ensures var l := g.chains[h][i];
              l < |c.ix.next| == |c.ix.entry| && c.ix.entry[l] in g.lru && c.ix.entry[l] < |c.items|
                                     && c.ix.next[l] == At(g.chains[h], i + 1)
  {
    assert ChainAt(c.ix, g.chains, g.home, h);
    assert g.chains[h][i] in g.chains[h];
    assert Linked(c, g, h, g.chains[h][i]);
    assert Chained(c.ix.next, g.chains[h], i);
  }

  /** One turn of the walk along a chain, at its link `i`. */
  method InvalidateLink<T(!new)>(c: Cache<T>, w: T, same: Relation<T>, hash: T -> int, h: nat, link: Link,
                          ghost g: Shape, ghost i: nat)
    returns (c': Cache<T>, next: Option<Link>, removed: bool, ghost g': Shape)
    requires Sound(c, g, same, hash) && c.hashing && Equivalence(same) && GoodHash(same, hash, |g.chains|)
             && h == hash(w)
    requires i < |g.chains[h]| && link == g.chains[h][i]
    ensures Sound(c', g', same, hash) && c'.hashing && |g'.chains| == |g.chains| && c'.items == c.items
    ensures link < |c.ix.entry| && c.ix.entry[link] < |c.items| && (removed <==> same(c.items[c.ix.entry[link]], w))
    ensures !removed ==> c' == c && g' == g && next == At(g.chains[h], i + 1)
    ensures removed ==> next == At(g'.chains[h], i) && |g'.chains[h]| == |g.chains[h]| - 1 && |g'.lru| == |g.lru| - 1
                        && Contents(c', g'.lru) == Invalidated(Contents(c, g.lru), same, w)
                          && NothingSame(c', g'.lru, same, w)
  {
    c', g' := c, g;
    ChainFacts(c, g, same, hash, h, i);
    next := c.ix.next[link];
    var e := c.ix.entry[link];
    removed := same(c.items[e], w);
    if removed {
      ghost var j := PlaceOf(g.lru, e);
      ghost var k;
      c', g', k := RemoveEntry(c, e, same, hash, g, j);
      SameLink(c, g, hash, e, k, g', h, i);
      OnlyOne(c, g, same, hash, w, j);
    }
  }

  lemma NoneInChain<T(!new)>(c: Cache<T>, g: Shape, same: Relation<T>, hash: T -> int, w: T)
    requires Sound(c, g, same, hash) && c.hashing && GoodHash(same, hash, |g.chains|)
    requires forall j | 0 <= j < |g.chains[hash(w)]| :: Unlike(c, g.chains[hash(w)], j, same, w)
    ensures Invalidated(Contents(c, g.lru), same, w) == Contents(c, g.lru)
  {
    forall l | l in g.chains[hash(w)] && l < |c.ix.entry| && c.ix.entry[l] < |c.items|
      ensures !same(c.items[c.ix.entry[l]], w) {
      var j := PlaceOf(g.chains[hash(w)], l);
      assert Unlike(c, g.chains[hash(w)], j, same, w);
    }
    NoMatch(c, g, same, hash, w);
  }

  ghost predicate Unlike<T>(c: Cache<T>, chain: seq<Link>, j: nat, same: Relation<T>, w: T)
    requires j < |chain|
  {
    chain[j] < |c.ix.entry| && c.ix.entry[chain[j]] < |c.items| ==> !same(c.items[c.ix.entry[chain[j]]], w)
  }

  /** The walk of `ntfs_invalidate_cache` along the chain of the hash of `w`: the item that is the same as
      `w` goes, if there is one. */
  method InvalidateHashed<T(!new)>(c: Cache<T>, w: T, same: Relation<T>, hash: T -> int, ghost g: Shape)
    returns (c': Cache<T>, count: nat, ghost g': Shape)
    requires Sound(c, g, same, hash) && c.hashing && Equivalence(same) && GoodHash(same, hash, |g.chains|)
    ensures Sound(c', g', same, hash) && c'.hashing && |g'.chains| == |g.chains| && c'.items == c.items
    ensures Contents(c', g'.lru) == Invalidated(Contents(c, g.lru), same, w) && count == |g.lru| - |g'.lru|
  {
    c', g', count := c, g, 0;
    var h := hash(w);
    assert ChainAt(c.ix, g.chains, g.home, h);
    var link := c.ix.first[h];
    ghost var i := 0;
    while link.Some?
      invariant Sound(c', g', same, hash) && c'.hashing && |g'.chains| == |g.chains| && c'.items == c.items
      invariant i <= |g'.chains[h]| && link == At(g'.chains[h], i) && count == |g.lru| - |g'.lru|
      invariant if count == 0 then c' == c && g' == g && forall j | 0 <= j < i :: Unlike(c, g.chains[h], j, same, w)
                else (NothingSame(c', g'.lru, same, w)
                      && Contents(c', g'.lru) == Invalidated(Contents(c, g.lru), same, w))
      decreases |g'.chains[h]| - i
    {
      ghost var c1, g1 := c', g';
      var removed;
      ChainFacts(c', g', same, hash, h, i);
      c', link, removed, g' := InvalidateLink(c', w, same, hash, h, link.value, g', i);
      if removed {
        count := count + 1;
      } else {
        i := i + 1;
      }
    }
    if count == 0 {
      NoneInChain(c, g, same, hash, w);
    }
  }

  // ----- The cache as an object -----

  lemma KeptMatch<T(!new)>(c: Cache<T>, g: Shape, same: Relation<T>, hash: T -> int, w: T)
    requires Sound(c, g, same, hash) && Equivalence(same)
    ensures Kept(Contents(c, g.lru), x => same(x, w)) == Invalidated(Contents(c, g.lru), same, w)
  {
    var s := Contents(c, g.lru);
    var i := FirstMatch(s, same, w);
    if i < |s| {
      OthersDiffer(c, g, same, hash, w, i);
      KeptBut(s, x => same(x, w), i);
    } else {
      KeptAll(s, x => same(x, w));
    }
  }

  /** Of the items, the one that is the same goes, and then none is left. */
  lemma InvalidatedMeaning<T(!new)>(c: Cache<T>, g: Shape, same: Relation<T>, hash: T -> int, w: T)
    requires Sound(c, g, same, hash) && Equivalence(same)
    ensures var s := Contents(c, g.lru); var t := Invalidated(s, same, w);
            && (forall y | y in t :: !same(y, w))
            && ((forall y | y in s :: !same(y, w)) ==> t == s)
            && ((exists y | y in s :: same(y, w)) ==>
                  |t| == |s| - 1 && exists i | 0 <= i < |s| :: same(s[i], w) && t == s[..i] + s[i + 1..])
  {
    var s := Contents(c, g.lru);
    var i := FirstMatch(s, same, w);
    if i < |s| {
      OthersDiffer(c, g, same, hash, w, i);
      assert s[i] in s;
    }
  }

  lemma OthersDiffer<T(!new)>(c: Cache<T>, g: Shape, same: Relation<T>, hash: T -> int, w: T, i: nat)
    requires Sound(c, g, same, hash) && Equivalence(same) && i < |g.lru| && same(Contents(c, g.lru)[i], w)
    ensures forall j | 0 <= j < |g.lru| && j != i :: !same(Contents(c, g.lru)[j], w)
  {
    var s := Contents(c, g.lru);
    assert g.lru[i] in g.lru;
    OnlyOne(c, g, same, hash, w, i);
    forall j | 0 <= j < |s| && j != i ensures !same(s[j], w) {
      WithoutMembers(g.lru, i);
      assert g.lru[j] in g.lru && g.lru[j] in Without(g.lru, i);
    }
  }

  /** What is kept of a sequence is what is kept of its parts, in order; of one item it is the item unless it is
      selected. */
  lemma {:induction false} KeptAppend<T>(a: seq<T>, b: seq<T>, selected: T -> bool)
    ensures Kept(a + b, selected) == Kept(a, selected) + Kept(b, selected)
    ensures |a| == 1 ==> Kept(a, selected) == if selected(a[0]) then [] else a
  {
    if a == [] {
      assert a + b == b;
    } else {
      assert (a + b)[1..] == a[1..] + b;
      KeptAppend(a[1..], b, selected);
      assert |a| == 1 ==> Kept(a[1..], selected) == [];
    }
  }

  /** Its members are those that are not selected. */
  lemma {:induction false} KeptMembers<T>(s: seq<T>, selected: T -> bool, x: T)
    ensures x in Kept(s, selected) <==> x in s && !selected(x)
  {
    if s != [] {
      KeptMembers(s[1..], selected, x);
      assert s == [s[0]] + s[1..];
    }
  }

  lemma {:induction false} KeptAll<T>(s: seq<T>, selected: T -> bool)
    requires forall j | 0 <= j < |s| :: !selected(s[j])
    ensures Kept(s, selected) == s
  {
    if s != [] {
      KeptAll(s[1..], selected);
    }
  }

  lemma {:induction false} KeptBut<T>(s: seq<T>, selected: T -> bool, i: nat)
    requires i < |s| && selected(s[i]) && forall j | 0 <= j < |s| && j != i :: !selected(s[j])
    ensures Kept(s, selected) == Out(s, i)
  {
    if i == 0 {
      KeptAll(s[1..], selected);
    } else {
      KeptBut(s[1..], selected, i - 1);
      assert Out(s, i) == [s[0]] + Out(s[1..], i - 1);
    }
  }

  class CacheHeader<T(!new)> {
    var cache: Cache<T>
    const same: Relation<T>
    const hash: T -> int
    ghost var shape: Shape

    ghost predicate Valid()
      reads this
    {
      && Sound(cache, shape, same, hash) && Equivalence(same) && |cache.items| >= 2
      && (cache.hashing ==> GoodHash(same, hash, |shape.chains|))
    }

    ghost function Items(): seq<T>
      reads this
      requires Valid()
    {
      Contents(cache, shape.lru)
    }

    /** `ntfs_create_cache`: `blank` stands for the contents of unused entries; without hash values there
        is no hashing. */
    constructor (n: nat, maxHash: nat, blank: T, same: Relation<T>, hash: T -> int)
      requires n >= 2 && Equivalence(same) && (maxHash > 0 ==> GoodHash(same, hash, maxHash))
      ensures Valid() && Items() == [] && |cache.items| == n && cache.hashing == (maxHash > 0)
    {
      var pool, ix;
      ghost var free, chains, links, home;
      pool, free := Create(n);
      ix, chains, links, home := CreateIndex(n, maxHash);
      this.same, this.hash := same, hash;
      cache := Cache(pool, seq(n, i => blank), ix, maxHash > 0);
      shape := Shape([], free, chains, links, home, map[]);
      new;
      assert maxHash > 0 ==> Indexed(cache, shape, hash) by {
        EmptyChains(chains);
      }
    }

    method Fetch(w: T) returns (r: Option<Ptr>)
      requires Valid()
      modifies this`cache, this`shape
      ensures Valid() && cache.hashing == old(cache.hashing) && |cache.items| == old(|cache.items|)
      ensures var s := old(Items()); var i := FirstMatch(s, same, w);
              && (r.Some? <==> exists y | y in s :: same(y, w))
              && Items() == if r.Some? then [s[i]] + s[..i] + s[i + 1..] else s
      ensures r.Some? ==> r.value < |cache.items| && same(cache.items[r.value], w)
    {
      ghost var s := Items();
      cache, r, shape := FetchCache(cache, w, same, hash, shape);
      assert r.Some? ==> s[FirstMatch(s, same, w)] in s;
    }

    method Enter(x: T) returns (p: Ptr)
      requires Valid()
      modifies this`cache, this`shape
      ensures Valid() && cache.hashing == old(cache.hashing) && |cache.items| == old(|cache.items|)
      ensures var s := old(Items()); (exists y | y in s :: same(y, x)) ==>
                Items() == s && p < |cache.items| && same(cache.items[p], x)
      ensures var s := old(Items()); (forall y | y in s :: !same(y, x)) ==>
                && p < |cache.items| && cache.items[p] == x && |Items()| > 0 && Items()[0] == x
                && Items()[1..] == (if |s| < |cache.items| then s else s[..|s| - 1])
                && |Items()| == if |s| < |cache.items| then |s| + 1 else |cache.items|
    {
      ghost var s := Items();
      cache, p, shape := EnterCache(cache, x, same, hash, shape);
      assert FirstMatch(s, same, x) < |s| ==> s[FirstMatch(s, same, x)] in s;
    }

    /** `ntfs_invalidate_cache` for the item that is the same as `w`. */
    method Invalidate(w: T) returns (count: nat)
      requires Valid()
      modifies this`cache, this`shape
      ensures Valid() && cache.hashing == old(cache.hashing) && |cache.items| == old(|cache.items|)
      ensures Items() == Invalidated(old(Items()), same, w) && count == |old(Items())| - |Items()|
      ensures var s := old(Items()); (forall y | y in s :: !same(y, w)) ==> Items() == s && count == 0
      ensures var s := old(Items()); (exists y | y in s :: same(y, w)) ==>
                count == 1 && exists i | 0 <= i < |s| :: same(s[i], w) && Items() == s[..i] + s[i + 1..]
      ensures forall y | y in Items() :: !same(y, w)
    {
      InvalidatedMeaning(cache, shape, same, hash, w);
      if cache.hashing {
        cache, count, shape := InvalidateHashed(cache, w, same, hash, shape);
      } else {
        KeptMatch(cache, shape, same, hash, w);
        cache, count, shape := InvalidateSequentially(cache, x => same(x, w), same, hash, shape);
      }
    }

    /** `ntfs_remove_cache` for an entry in use. */
    method Remove(e: Ptr, ghost i: nat) returns (count: nat)
      requires Valid() && i < |shape.lru| && shape.lru[i] == e
      modifies this`cache, this`shape
      ensures Valid() && cache.hashing == old(cache.hashing) && |cache.items| == old(|cache.items|)
      ensures var s := old(Items()); count == 1 && i < |s| && Items() == s[..i] + s[i + 1..]
    {
      ghost var k;
      cache, shape, k := RemoveEntry(cache, e, same, hash, shape, i);
      count := 1;
    }

    /** `ntfs_invalidate_cache` with CACHE_NOHASH. */
    method InvalidateWhere(selected: T -> bool) returns (count: nat)
      requires Valid()
      modifies this`cache, this`shape
      ensures Valid() && cache.hashing == old(cache.hashing) && |cache.items| == old(|cache.items|)
      ensures Items() == Kept(old(Items()), selected) && count == |old(Items())| - |Items()|
    {
      cache, count, shape := InvalidateSequentially(cache, selected, same, hash, shape);
    }
  }

  /** Entries and links are each in use or free, and as many links as entries are in use. */
  lemma Pools<T>(c: Cache<T>, g: Shape, same: Relation<T>, hash: T -> int, p: Ptr)
    requires Sound(c, g, same, hash) && p < |c.items|
    ensures (p in g.lru) != (p in g.free)
    ensures c.hashing ==> (p in g.links) != InChains(g.chains, p) && |g.links| == |g.free|
  {
    Partition(c.pool, g.lru, g.free, p);
    if c.hashing {
      LinkPartition(c.ix, g.chains, g.links, g.home, p);
    }
  }

  lemma {:induction false} EmptyChains(chains: seq<seq<Link>>)
    requires Total(chains) == 0
    ensures forall h | 0 <= h < |chains| :: chains[h] == []
  {
    if chains != [] {
      EmptyChains(chains[1..]);
      forall h | 0 <= h < |chains| ensures chains[h] == [] {
        if h > 0 {
          assert chains[h] == chains[1..][h - 1];
        }
      }
    }
  }
}
