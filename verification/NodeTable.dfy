/** The inode-name node table of libfuse-lite (fuse.c): nodes with lookup and reference counts, found
    through two chained hash tables.  Memory is a map from pointers to nodes, so that every access to
    a node is an obligation that it has not been freed. */
module NodeTable {
  import opened Common

  const ROOT_ID := 1
  const UNKNOWN_INO := 0xffff_ffff
  const IDS := 0x1_0000_0000
  const TABLE_SIZE := 14057
  const EBUSY := 16

  type Name = seq<int>

  datatype Node = Node(id: nat, generation: nat, refctr: int, parent: Option<Ptr>, name: Option<Name>, nlookup: nat,
                       hidden: bool)

  type Nodes = map<Ptr, Node>

  // ----- Chained tables -----

  ghost predicate Chains(tab: seq<seq<Ptr>>, keys: map<Ptr, nat>) {
    forall h, p: Ptr | 0 <= h < |tab| :: p in tab[h] <==> p in keys && keys[p] == h
  }

  ghost predicate NoDups(tab: seq<seq<Ptr>>) {
    forall h | 0 <= h < |tab| :: NoDup(tab[h])
  }

  /** The table holds each pointer of `keys` exactly once, in the chain that `keys` gives. */
  ghost predicate TableOk(tab: seq<seq<Ptr>>, keys: map<Ptr, nat>) {
    (tab, keys) in TablesWithKeys()
  }

  ghost function TablesWithKeys(): iset<(seq<seq<Ptr>>, map<Ptr, nat>)> {
    iset t: (seq<seq<Ptr>>, map<Ptr, nat>) | |t.0| == TABLE_SIZE && NoDups(t.0) && Chains(t.0, t.1)
      && forall p | p in t.1 :: t.1[p] < |t.0|
  }

  function Pushed(tab: seq<seq<Ptr>>, h: nat, p: Ptr): seq<seq<Ptr>>
    requires h < |tab|
  {
    tab[h := [p] + tab[h]]
  }

  lemma TablePush(tab: seq<seq<Ptr>>, keys: map<Ptr, nat>, h: nat, p: Ptr)
    requires TableOk(tab, keys) && h < |tab| && p !in keys
    ensures TableOk(Pushed(tab, h, p), keys[p := h])
  {
    var tab', keys' := Pushed(tab, h, p), keys[p := h];
    assert p !in tab[h];
    assert NoDup(tab'[h]) by {
      assert NoDup(tab[h]);
    }
    forall g | 0 <= g < |tab'| ensures NoDup(tab'[g]) {
      assert NoDup(tab[g]);
    }
    forall g, q: Ptr | 0 <= g < |tab'| ensures q in tab'[g] <==> q in keys' && keys'[q] == g {
      assert q in tab[g] <==> q in keys && keys[q] == g;
    }
  }

  lemma TableDrop(tab: seq<seq<Ptr>>, keys: map<Ptr, nat>, h: nat, i: nat)
    requires TableOk(tab, keys) && h < |tab| && i < |tab[h]|
    ensures TableOk(tab[h := Without(tab[h], i)], keys - {tab[h][i]})
  {
    var p := tab[h][i];
    var tab', keys' := tab[h := Without(tab[h], i)], keys - {p};
    assert p in tab[h];
    assert NoDup(tab[h]);
    WithoutMembers(tab[h], i);
    forall g | 0 <= g < |tab'| ensures NoDup(tab'[g]) {
      assert NoDup(tab[g]);
    }
    forall g, q: Ptr | 0 <= g < |tab'| ensures q in tab'[g] <==> q in keys' && keys'[q] == g {
      assert q in tab[g] <==> q in keys && keys[q] == g;
    }
  }

  /** The walk that `unhash_id` and `unhash_name` share: unlinks `p` from chain `h` if it is there. */
  method Unlink(tab: seq<seq<Ptr>>, h: nat, p: Ptr, ghost keys: map<Ptr, nat>)
    returns (found: bool, tab': seq<seq<Ptr>>)
    requires TableOk(tab, keys) && h < |tab|
    ensures found <==> p in keys && keys[p] == h
    ensures found ==> TableOk(tab', keys - {p}) && |tab'| == |tab|
    ensures !found ==> tab' == tab
  {
    var i := 0;
    while i < |tab[h]| && tab[h][i] != p
      invariant 0 <= i <= |tab[h]| && p !in tab[h][..i]
    {
      i := i + 1;
    }
    found, tab' := i < |tab[h]|, tab;
    if found {
      TableDrop(tab, keys, h, i);
      assert p in tab[h];
      tab' := tab[h := Without(tab[h], i)];
    } else {
      assert tab[h][..i] == tab[h];
    }
  }

  // ----- The hash of a name -----

  /** `(hash << 5) - hash + c` in 32 bits, over the characters. */
  function HashOf(name: Name): (h: nat)
    ensures h < IDS
  {
    if name == [] then 0 else (HashOf(name[..|name| - 1]) * 31 + name[|name| - 1]) % IDS
  }

  function Bucket(parent: nat, name: Name): (h: nat)
    ensures h < TABLE_SIZE
  {
    (HashOf(name) + parent) % TABLE_SIZE
  }

  method NameHash(parent: nat, name: Name) returns (h: nat)
    ensures h == Bucket(parent, name)
  {
    var hash: nat := 0;
    if name != [] {
      hash := name[0] % IDS;
      assert name[..1][..0] == [] && name[..1][0] == name[0];
      for i := 1 to |name|
        invariant hash == HashOf(name[..i]) < IDS
      {
        ghost var t := name[..i + 1];
        assert t[..i] == name[..i] && t[i] == name[i];
        hash := (hash * 32 - hash + name[i]) % IDS;
      }
      assert name[..|name|] == name;
    }
    h := (hash + parent) % TABLE_SIZE;
  }

  // ----- The nodes -----

  /** The node is in the name table. */
  predicate Listed(nodes: Nodes, p: Ptr)
    requires p in nodes
  {
    nodes[p].parent.Some? && nodes[p].name.Some?
  }

  function IdAt(nodes: Nodes, p: Ptr): nat {
    if p in nodes then nodes[p].id else 0
  }

  ghost function KeyOf(nodes: Nodes, p: Ptr): nat
    requires p in nodes && Listed(nodes, p)
  {
    Bucket(IdAt(nodes, nodes[p].parent.value), nodes[p].name.value)
  }

  function IdHash(id: nat): (h: nat)
    ensures h < TABLE_SIZE
  {
    id % TABLE_SIZE
  }

  ghost function IdKeys(nodes: Nodes): map<Ptr, nat> {
    map p | p in nodes :: IdHash(nodes[p].id)
  }

  ghost function NameKeys(nodes: Nodes): map<Ptr, nat> {
    map p | p in nodes && Listed(nodes, p) :: KeyOf(nodes, p)
  }

  ghost predicate SameNumber(nodes: Nodes, p: Ptr, q: Ptr) {
    p in nodes && q in nodes && nodes[p].id == nodes[q].id
  }

  ghost predicate SameName(nodes: Nodes, p: Ptr, q: Ptr) {
    p in nodes && q in nodes && nodes[p].parent.Some? && nodes[p].parent == nodes[q].parent
      && nodes[p].name == nodes[q].name
  }

  ghost predicate UniqueIds(nodes: Nodes) {
    forall p, q | SameNumber(nodes, p, q) :: p == q
  }

  ghost predicate UniqueNames(nodes: Nodes) {
    forall p, q | SameName(nodes, p, q) :: p == q
  }

  /** A node has a name and a live parent, or neither; only the root has a name and no parent. */
  ghost predicate Linked(nodes: Nodes) {
    forall p {:trigger LinkedNode(nodes, p)} | p in nodes :: LinkedNode(nodes, p)
  }

  ghost predicate LinkedNode(nodes: Nodes, p: Ptr)
    requires p in nodes
  {
    && (nodes[p].parent.Some? ==> nodes[p].parent.value in nodes && nodes[p].name.Some?)
    && (nodes[p].parent.None? && nodes[p].name.Some? ==> nodes[p].id == ROOT_ID)
    && (nodes[p].id == ROOT_ID ==> nodes[p].parent.None? && nodes[p].nlookup > 0)
  }

  /** A node that is not looked up any more has no name; `x` may be about to lose it. */
  ghost predicate ForgottenNameless(nodes: Nodes, x: Option<Ptr>) {
    forall p {:trigger nodes[p].nlookup} | p in nodes && nodes[p].nlookup == 0 && Some(p) != x ::
      nodes[p].parent.None? && nodes[p].name.None?
  }

  ghost predicate Tree(nodes: Nodes, x: Option<Ptr>) {
    nodes in Trees(x)
  }

  ghost function Trees(x: Option<Ptr>): iset<Nodes> {
    iset nodes: Nodes | UniqueIds(nodes) && UniqueNames(nodes) && Linked(nodes) && ForgottenNameless(nodes, x)
  }

  ghost function Children(nodes: Nodes, p: Ptr): set<Ptr> {
    set q | q in nodes && nodes[q].parent == Some(p)
  }

  ghost function RefsOf(nodes: Nodes, p: Ptr, x: Option<Ptr>): nat
    requires p in nodes
  {
    (if nodes[p].nlookup > 0 || x == Some(p) then 1 else 0) + |Children(nodes, p)|
  }

  /** The reference count of every node: one for being looked up, and one for each named child; `x` is
      still counted as looked up. */
  ghost predicate Refs(nodes: Nodes, x: Option<Ptr>) {
    forall p {:trigger Counted(nodes, p, x)} | p in nodes :: Counted(nodes, p, x)
  }

  ghost predicate Counted(nodes: Nodes, p: Ptr, x: Option<Ptr>)
    requires p in nodes
  {
    nodes[p].refctr == RefsOf(nodes, p, x) > 0
  }

  /** What the kernel knows of a node: the node as such, and its directory entry. */
  datatype Inode = Inode(id: nat, generation: nat, nlookup: nat, entry: Option<(nat, Name)>, hidden: bool)

  ghost function InodeOf(nodes: Nodes, p: Ptr): Inode
    requires p in nodes
  {
    var n := nodes[p];
    Inode(n.id, n.generation, n.nlookup,
      if Listed(nodes, p) then Some((IdAt(nodes, n.parent.value), n.name.value)) else None, n.hidden)
  }

  function WithLookups(i: Inode, k: nat): Inode {
    i.(nlookup := k)
  }

  function WithEntry(i: Inode, e: Option<(nat, Name)>): Inode {
    i.(entry := e)
  }

  /** The inodes that the kernel holds a lookup of. */
  ghost function View(nodes: Nodes): map<Ptr, Inode> {
    map p | p in nodes && nodes[p].nlookup > 0 :: InodeOf(nodes, p)
  }

  /** What the changes of the view mean, field by field and node by node. */
  lemma ChangeMeaning(view: map<Ptr, Inode>, p: Ptr, i: Inode, k: nat, e: Option<(nat, Name)>, q: Ptr)
    ensures var j := WithLookups(i, k);
            j.nlookup == k && j.id == i.id && j.generation == i.generation && j.entry == i.entry && j.hidden == i.hidden
    ensures var j := WithEntry(i, e);
            && j.entry == e && j.id == i.id && j.generation == i.generation
            && j.nlookup == i.nlookup && j.hidden == i.hidden
    ensures var v := Forgotten(view, p, i, k);
            && (q != p ==> (q in v <==> q in view) && (q in view ==> v[q] == view[q]))
            && (p in v <==> k > 0) && (k > 0 ==> v[p].nlookup == k && v[p] == i.(nlookup := k))
  {
  }

  // ----- Changing one node -----

  /** Changing counts or flags of a node, neither its id nor its links. */
  lemma CountChange(nodes: Nodes, p: Ptr, n: Node, x: Option<Ptr>, y: Option<Ptr>)
    requires p in nodes && Tree(nodes, x)
    requires n.id == nodes[p].id && n.parent == nodes[p].parent && n.name == nodes[p].name
             && (n.id == ROOT_ID ==> n.nlookup > 0)
    requires n.nlookup == 0 && y != Some(p) ==> n.parent.None? && n.name.None?
    requires forall q | q in nodes && x == Some(q) && y != Some(q) && q != p && nodes[q].nlookup == 0 ::
               nodes[q].parent.None? && nodes[q].name.None?
    ensures Tree(nodes[p := n], y)
  {
    var t := nodes[p := n];
    forall q | q in t ensures LinkedNode(t, q) {
      assert LinkedNode(nodes, q);
    }
    forall q, r | SameNumber(t, q, r) ensures q == r {
      assert SameNumber(nodes, q, r);
    }
    forall q, r | SameName(t, q, r) ensures q == r {
      assert SameName(nodes, q, r);
    }
    forall q | q in t && t[q].nlookup == 0 && Some(q) != y ensures t[q].parent.None? && t[q].name.None? {
      if q != p && x == Some(q) {
      }
    }
  }

  lemma LinkTree(nodes: Nodes, p: Ptr, q: Ptr, name: Name, x: Option<Ptr>)
    requires Tree(nodes, x) && p in nodes && q in nodes && nodes[p].id != ROOT_ID && nodes[p].nlookup > 0
             && Free(nodes, q, name)
    ensures Tree(nodes[p := nodes[p].(parent := Some(q), name := Some(name))], x)
  {
    var t := nodes[p := nodes[p].(parent := Some(q), name := Some(name))];
    forall r | r in t ensures LinkedNode(t, r) {
      assert LinkedNode(nodes, r);
    }
    assert UniqueIds(t) by {
      forall r, s | SameNumber(t, r, s) ensures r == s {
        assert SameNumber(nodes, r, s);
      }
    }
    assert UniqueNames(t) by {
      forall r, s | SameName(t, r, s) ensures r == s {
        if r != p && s != p {
          assert SameName(nodes, r, s);
        }
      }
    }
  }

  lemma UnlinkTree(nodes: Nodes, p: Ptr, x: Option<Ptr>)
    requires Tree(nodes, x) && p in nodes && (x == None || x == Some(p))
    ensures Tree(nodes[p := nodes[p].(parent := None, name := None)], None)
  {
    var t := nodes[p := nodes[p].(parent := None, name := None)];
    forall r | r in t ensures LinkedNode(t, r) {
      assert LinkedNode(nodes, r);
    }
    assert UniqueIds(t) by {
      forall r, s | SameNumber(t, r, s) ensures r == s {
        assert SameNumber(nodes, r, s);
      }
    }
    assert UniqueNames(t) by {
      forall r, s | SameName(t, r, s) ensures r == s {
        assert SameName(nodes, r, s);
      }
    }
  }

  /** Freeing a node that is nobody's parent. */
  lemma DropTree(nodes: Nodes, q: Ptr)
    requires Tree(nodes, None) && Children(nodes, q) == {}
    ensures Tree(nodes - {q}, None)
  {
    var t := nodes - {q};
    assert forall r | r in t :: r in nodes && t[r] == nodes[r];
    forall r | r in t ensures LinkedNode(t, r) {
      assert LinkedNode(nodes, r);
      assert r !in Children(nodes, q);
    }
    assert UniqueIds(t) by {
      forall r, s | SameNumber(t, r, s) ensures r == s {
        assert SameNumber(nodes, r, s);
      }
    }
    assert UniqueNames(t) by {
      forall r, s | SameName(t, r, s) ensures r == s {
        assert SameName(nodes, r, s);
      }
    }
  }

  lemma ChildrenSame(nodes: Nodes, p: Ptr, n: Node, q: Ptr)
    requires p in nodes && n.parent == nodes[p].parent
    ensures Children(nodes[p := n], q) == Children(nodes, q)
  {
  }

  lemma KeysSame(nodes: Nodes, p: Ptr, n: Node)
    requires p in nodes && n.id == nodes[p].id && n.parent == nodes[p].parent && n.name == nodes[p].name
    ensures IdKeys(nodes[p := n]) == IdKeys(nodes) && NameKeys(nodes[p := n]) == NameKeys(nodes)
  {
    var t := nodes[p := n];
    assert forall q | q in nodes :: Listed(t, q) == Listed(nodes, q);
  }

  // ----- Giving a node a name -----

  /** `hash_name`: `p` becomes the child `name` of `q`. */
  function Attached(nodes: Nodes, p: Ptr, q: Ptr, name: Name): Nodes
    requires p in nodes && q in nodes
  {
    var t := nodes[q := nodes[q].(refctr := nodes[q].refctr + 1)];
    t[p := t[p].(parent := Some(q), name := Some(name))]
  }

  ghost predicate Free(nodes: Nodes, q: Ptr, name: Name) {
    forall r | r in nodes :: !(nodes[r].parent == Some(q) && nodes[r].name == Some(name))
  }

  lemma AttachTree(nodes: Nodes, p: Ptr, q: Ptr, name: Name, x: Option<Ptr>)
    requires Tree(nodes, x) && p in nodes && q in nodes && nodes[p].parent.None? && nodes[p].id != ROOT_ID
    requires nodes[p].nlookup > 0 && Free(nodes, q, name)
    ensures Tree(Attached(nodes, p, q, name), x)
  {
    var n := nodes[q].(refctr := nodes[q].refctr + 1);
    assert LinkedNode(nodes, q);
    CountChange(nodes, q, n, x, x);
    var t := nodes[q := n];
    assert Free(t, q, name);
    LinkTree(t, p, q, name, x);
  }

  lemma AttachChildren(nodes: Nodes, p: Ptr, q: Ptr, name: Name, r: Ptr)
    requires p in nodes && q in nodes && nodes[p].parent.None?
    ensures Children(Attached(nodes, p, q, name), r) == Children(nodes, r) + (if r == q then {p} else {})
    ensures |Children(Attached(nodes, p, q, name), r)| == |Children(nodes, r)| + if r == q then 1 else 0
  {
    var t := Attached(nodes, p, q, name);
    assert p !in Children(nodes, r);
    assert Children(t, r) == Children(nodes, r) + if r == q then {p} else {};
  }

  lemma AttachRefs(nodes: Nodes, p: Ptr, q: Ptr, name: Name, x: Option<Ptr>)
    requires Refs(nodes, x) && p in nodes && q in nodes && nodes[p].parent.None?
    ensures Refs(Attached(nodes, p, q, name), x)
  {
    var t := Attached(nodes, p, q, name);
    forall r | r in t ensures Counted(t, r, x) {
      AttachChildren(nodes, p, q, name, r);
      assert Counted(nodes, r, x);
    }
  }

  lemma LinkKeys(nodes: Nodes, p: Ptr, q: Ptr, name: Name)
    requires p in nodes && q in nodes && nodes[p].parent.None?
    ensures var t := nodes[p := nodes[p].(parent := Some(q), name := Some(name))];
            && p !in NameKeys(nodes) && IdKeys(t) == IdKeys(nodes)
            && NameKeys(t) == NameKeys(nodes)[p := Bucket(nodes[q].id, name)]
  {
    var t := nodes[p := nodes[p].(parent := Some(q), name := Some(name))];
    assert forall r | r in nodes && r != p :: Listed(t, r) == Listed(nodes, r);
    assert Listed(t, p);
  }

  lemma AttachKeys(nodes: Nodes, p: Ptr, q: Ptr, name: Name)
    requires p in nodes && q in nodes && nodes[p].parent.None?
    ensures p !in NameKeys(nodes)
    ensures NameKeys(Attached(nodes, p, q, name)) == NameKeys(nodes)[p := Bucket(nodes[q].id, name)]
    ensures IdKeys(Attached(nodes, p, q, name)) == IdKeys(nodes)
  {
    var n := nodes[q].(refctr := nodes[q].refctr + 1);
    KeysSame(nodes, q, n);
    LinkKeys(nodes[q := n], p, q, name);
  }

  lemma ViewSame(nodes: Nodes, q: Ptr, refctr: int)
    requires q in nodes
    ensures View(nodes[q := nodes[q].(refctr := refctr)]) == View(nodes)
  {
    var t := nodes[q := nodes[q].(refctr := refctr)];
    assert forall r | r in nodes :: Listed(t, r) == Listed(nodes, r) && InodeOf(t, r) == InodeOf(nodes, r);
  }

  lemma LinkView(nodes: Nodes, p: Ptr, q: Ptr, name: Name)
    requires p in nodes && q in nodes && nodes[p].parent.None? && nodes[p].nlookup > 0
    ensures View(nodes[p := nodes[p].(parent := Some(q), name := Some(name))])
            == View(nodes)[p := WithEntry(InodeOf(nodes, p), Some((nodes[q].id, name)))]
  {
    var t := nodes[p := nodes[p].(parent := Some(q), name := Some(name))];
    assert forall r | r in nodes && r != p :: Listed(t, r) == Listed(nodes, r) && InodeOf(t, r) == InodeOf(nodes, r);
  }

  lemma AttachView(nodes: Nodes, p: Ptr, q: Ptr, name: Name)
    requires p in nodes && q in nodes && nodes[p].parent.None? && nodes[p].nlookup > 0
    ensures View(Attached(nodes, p, q, name))
            == View(nodes)[p := WithEntry(InodeOf(nodes, p), Some((nodes[q].id, name)))]
  {
    var t := nodes[q := nodes[q].(refctr := nodes[q].refctr + 1)];
    ViewSame(nodes, q, nodes[q].refctr + 1);
    LinkView(t, p, q, name);
    assert InodeOf(t, p) == InodeOf(nodes, p);
  }

  // ----- Taking its name from a node -----

  /** `unref_node`: one reference less, and none is left of a node without references. */
  function Unreferenced(nodes: Nodes, q: Ptr): Nodes
    requires q in nodes
  {
    if nodes[q].refctr == 1 then nodes - {q} else nodes[q := nodes[q].(refctr := nodes[q].refctr - 1)]
  }

  /** `unhash_name`: `p` loses its name and its place under `q`. */
  function Detached(nodes: Nodes, p: Ptr, q: Ptr): Nodes
    requires p in nodes && q in nodes && (p == q ==> nodes[q].refctr != 1)
  {
    var t := Unreferenced(nodes, q);
    t[p := t[p].(parent := None, name := None)]
  }

  /** The only child of a node with one reference: that node is not looked up and has no name. */
  lemma LastChild(nodes: Nodes, p: Ptr, q: Ptr, x: Option<Ptr>)
    requires Tree(nodes, x) && Refs(nodes, x) && p in nodes && q in nodes && nodes[p].parent == Some(q)
             && nodes[q].refctr == 1
    requires (nodes[p].nlookup > 0 && x == None) || x == Some(p)
    ensures p != q && Children(nodes, q) == {p} && nodes[q].nlookup == 0 && x != Some(q)
    ensures nodes[q].parent.None? && nodes[q].name.None?
  {
    assert Counted(nodes, q, x);
    assert p in Children(nodes, q);
    assert |Children(nodes, q)| >= 1 by {
      assert |{p}| == 1;
      CardinalityMonotone({p}, Children(nodes, q));
    }
    if r :| r in Children(nodes, q) && r != p {
      CardinalityMonotone({p, r}, Children(nodes, q));
    }
  }

  lemma {:induction false} CardinalityMonotone<T>(a: set<T>, b: set<T>)
    requires a <= b
    ensures |a| <= |b|
  {
    if a != {} {
      var y :| y in a;
      CardinalityMonotone(a - {y}, b - {y});
    }
  }

  lemma UnlinkChildren(nodes: Nodes, p: Ptr, q: Ptr, r: Ptr)
    requires p in nodes && nodes[p].parent == Some(q)
    ensures Children(nodes[p := nodes[p].(parent := None, name := None)], r) == if r
            == q then Children(nodes, q) - {p} else Children(nodes, r)
  {
  }

  lemma DetachOrder(nodes: Nodes, p: Ptr, q: Ptr)
    requires p in nodes && q in nodes && (p == q ==> nodes[q].refctr != 1)
    ensures Detached(nodes, p, q) == Unreferenced(nodes[p := nodes[p].(parent := None, name := None)], q)
  {
  }

  lemma DetachTree(nodes: Nodes, p: Ptr, q: Ptr, x: Option<Ptr>)
    requires Tree(nodes, x) && Refs(nodes, x) && p in nodes && q in nodes && nodes[p].parent == Some(q)
    requires (nodes[p].nlookup > 0 && x == None) || x == Some(p)
    ensures (p == q ==> nodes[q].refctr != 1) && Tree(Detached(nodes, p, q), None)
  {
    var t := nodes[p := nodes[p].(parent := None, name := None)];
    UnlinkTree(nodes, p, x);
    if nodes[q].refctr == 1 {
      LastChild(nodes, p, q, x);
      UnlinkChildren(nodes, p, q, q);
      DropTree(t, q);
    } else {
      assert LinkedNode(t, q);
      CountChange(t, q, t[q].(refctr := t[q].refctr - 1), None, None);
    }
    DetachOrder(nodes, p, q);
  }

  lemma UnlinkKeys(nodes: Nodes, p: Ptr)
    requires p in nodes
    ensures var t := nodes[p := nodes[p].(parent := None, name := None)];
            NameKeys(t) == NameKeys(nodes) - {p} && IdKeys(t) == IdKeys(nodes)
  {
    var t := nodes[p := nodes[p].(parent := None, name := None)];
    assert forall r | r in nodes && r != p :: Listed(t, r) == Listed(nodes, r);
  }

  lemma DropKeys(nodes: Nodes, q: Ptr)
    requires q in nodes && Children(nodes, q) == {} && nodes[q].parent.None?
    ensures NameKeys(nodes - {q}) == NameKeys(nodes) && IdKeys(nodes - {q}) == IdKeys(nodes) - {q}
  {
    var t := nodes - {q};
    forall r | r in t ensures Listed(t, r) == Listed(nodes, r) {
      assert r !in Children(nodes, q);
    }
  }

  lemma DropView(nodes: Nodes, q: Ptr)
    requires q in nodes && Children(nodes, q) == {} && nodes[q].nlookup == 0
    ensures View(nodes - {q}) == View(nodes)
  {
    var t := nodes - {q};
    forall r | r in t ensures Listed(t, r) == Listed(nodes, r) && InodeOf(t, r) == InodeOf(nodes, r) {
      assert r !in Children(nodes, q);
    }
  }

  lemma UnlinkView(nodes: Nodes, p: Ptr)
    requires p in nodes
    ensures View(nodes[p := nodes[p].(parent := None, name := None)])
         == if nodes[p].nlookup > 0 then View(nodes)[p := WithEntry(InodeOf(nodes, p), None)] else View(nodes)
  {
    var t := nodes[p := nodes[p].(parent := None, name := None)];
    assert forall r | r in nodes && r != p :: Listed(t, r) == Listed(nodes, r) && InodeOf(t, r) == InodeOf(nodes, r);
  }

  /** The effect of `unref_node` on tables and view, for a node that is not freed while in use. */
  lemma UnrefKeys(nodes: Nodes, q: Ptr)
    requires q in nodes
    requires nodes[q].refctr == 1 ==> Children(nodes, q) == {} && nodes[q].parent.None? && nodes[q].nlookup == 0
    ensures NameKeys(Unreferenced(nodes, q)) == NameKeys(nodes) && View(Unreferenced(nodes, q)) == View(nodes)
    ensures IdKeys(Unreferenced(nodes, q)) == if nodes[q].refctr == 1 then IdKeys(nodes) - {q} else IdKeys(nodes)
  {
    if nodes[q].refctr == 1 {
      DropKeys(nodes, q);
      DropView(nodes, q);
    } else {
      KeysSame(nodes, q, nodes[q].(refctr := nodes[q].refctr - 1));
      ViewSame(nodes, q, nodes[q].refctr - 1);
    }
  }

  lemma DetachKeys(nodes: Nodes, p: Ptr, q: Ptr, x: Option<Ptr>)
    requires Tree(nodes, x) && Refs(nodes, x) && p in nodes && q in nodes && nodes[p].parent == Some(q)
    requires (nodes[p].nlookup > 0 && x == None) || x == Some(p)
    requires p == q ==> nodes[q].refctr != 1
    ensures NameKeys(Detached(nodes, p, q)) == NameKeys(nodes) - {p}
    ensures IdKeys(Detached(nodes, p, q)) == if nodes[q].refctr == 1 then IdKeys(nodes) - {q} else IdKeys(nodes)
    ensures View(Detached(nodes, p, q))
            == if nodes[p].nlookup > 0 then View(nodes)[p := WithEntry(InodeOf(nodes, p), None)] else View(nodes)
  {
    var t := nodes[p := nodes[p].(parent := None, name := None)];
    UnlinkKeys(nodes, p);
    UnlinkView(nodes, p);
    if nodes[q].refctr == 1 {
      LastChild(nodes, p, q, x);
      UnlinkChildren(nodes, p, q, q);
    }
    UnrefKeys(t, q);
    DetachOrder(nodes, p, q);
  }

  lemma DetachRefs(nodes: Nodes, p: Ptr, q: Ptr, x: Option<Ptr>)
    requires Tree(nodes, x) && Refs(nodes, x) && p in nodes && q in nodes && nodes[p].parent == Some(q)
    requires (nodes[p].nlookup > 0 && x == None) || x == Some(p)
    requires p == q ==> nodes[q].refctr != 1
    ensures Refs(Detached(nodes, p, q), x)
  {
    var t := Detached(nodes, p, q);
    if nodes[q].refctr == 1 {
      LastChild(nodes, p, q, x);
    }
    forall r | r in t ensures Counted(t, r, x) {
      DetachChildren(nodes, p, q, r);
      assert Counted(nodes, r, x);
    }
  }

  lemma DetachChildren(nodes: Nodes, p: Ptr, q: Ptr, r: Ptr)
    requires p in nodes && q in nodes && nodes[p].parent == Some(q) && (p == q ==> nodes[q].refctr != 1)
    requires nodes[q].refctr == 1 ==> nodes[q].parent.None?
    ensures Children(Detached(nodes, p, q), r) == if r == q then Children(nodes, q) - {p} else Children(nodes, r)
    ensures |Children(Detached(nodes, p, q), r)| == |Children(nodes, r)| - if r == q then 1 else 0
  {
    assert p in Children(nodes, q);
    var t := nodes[p := nodes[p].(parent := None, name := None)];
    UnlinkChildren(nodes, p, q, r);
    DetachOrder(nodes, p, q);
    assert Children(Unreferenced(t, q), r) == Children(t, r);
  }

  lemma ForgetTree(nodes: Nodes, p: Ptr)
    requires Tree(nodes, None) && p in nodes && nodes[p].nlookup == 0
             && (nodes[p].refctr == 1 ==> Children(nodes, p) == {})
    ensures Tree(Unreferenced(nodes, p), None)
  {
    if nodes[p].refctr == 1 {
      DropTree(nodes, p);
    } else {
      assert LinkedNode(nodes, p);
      CountChange(nodes, p, nodes[p].(refctr := nodes[p].refctr - 1), None, None);
    }
  }

  /** The last step of a forget: the reference that stood for the lookups goes. */
  lemma ForgetRefs(nodes: Nodes, p: Ptr)
    requires Refs(nodes, Some(p)) && p in nodes && nodes[p].nlookup == 0 && nodes[p].parent.None?
    ensures Refs(Unreferenced(nodes, p), None)
    ensures nodes[p].refctr > 0 && (nodes[p].refctr == 1 <==> Children(nodes, p) == {})
  {
    var t := Unreferenced(nodes, p);
    assert Counted(nodes, p, Some(p));
    forall r | r in t ensures Counted(t, r, None) {
      assert Children(t, r) == Children(nodes, r);
      assert Counted(nodes, r, Some(p));
    }
  }

  // ----- The table -----

  lemma IdKeysDrop(nodes: Nodes, q: Ptr)
    ensures IdKeys(nodes - {q}) == IdKeys(nodes) - {q}
  {
  }

  lemma InIdChain(tab: seq<seq<Ptr>>, nodes: Nodes, h: nat, p: Ptr)
    requires TableOk(tab, IdKeys(nodes)) && h < |tab|
    ensures p in tab[h] <==> p in nodes && IdHash(nodes[p].id) == h
  {
    var keys := IdKeys(nodes);
    assert p in tab[h] <==> p in keys && keys[p] == h;
  }

  lemma InNameChain(tab: seq<seq<Ptr>>, nodes: Nodes, h: nat, p: Ptr)
    requires TableOk(tab, NameKeys(nodes)) && h < |tab|
    ensures p in tab[h] <==> p in nodes && Listed(nodes, p) && KeyOf(nodes, p) == h
  {
    var keys := NameKeys(nodes);
    assert p in tab[h] <==> p in keys && keys[p] == h;
  }

  ghost predicate Entry(nodes: Nodes, p: Ptr, parent: nat, name: Name) {
    p in nodes && Listed(nodes, p) && IdAt(nodes, nodes[p].parent.value) == parent && nodes[p].name.value == name
  }

  // ----- New nodes -----

  /** Generation and number of an inode in one number, which the kernel must not see twice. */
  function Stamp(generation: nat, id: nat): nat {
    generation * IDS + id
  }

  lemma WholeTurns(d: int, e: int)
    requires -IDS < e < IDS
    ensures (d * IDS + e) % (IDS * IDS) == 0 <==> e == 0 && d % IDS == 0
  {
    var k := (d * IDS + e) / (IDS * IDS);
    if (d * IDS + e) % (IDS * IDS) == 0 {
      assert e == (k * IDS - d) * IDS;
    }
    if d % IDS == 0 {
      assert d == d / IDS * IDS;
    }
  }

  lemma SameRemainder(a: nat, b: nat)
    ensures a % IDS == b % IDS <==> (b - a) % IDS == 0
  {
  }

  /** The field that holds the generation has 32 bits: the pairs of generation and number that the kernel sees
      repeat after 2^64 numbers, and not before. */
  lemma PairRepeats(generation: nat, id: nat, generation': nat, id': nat)
    requires id < IDS && id' < IDS
    ensures (generation % IDS, id) == (generation' % IDS, id')
            <==> (Stamp(generation', id') - Stamp(generation, id)) % (IDS * IDS) == 0
  {
    var d, e := generation' - generation, id' - id;
    assert Stamp(generation', id') - Stamp(generation, id) == d * IDS + e;
    WholeTurns(d, e);
    SameRemainder(generation, generation');
  }

  /** Numbers are in range, and no node but the root has one that is still to come. */
  ghost predicate Stamped(nodes: Nodes, root: Ptr, last: nat) {
    forall p {:trigger nodes[p].id} | p in nodes ::
      0 < nodes[p].id < UNKNOWN_INO && (p != root ==> Stamp(nodes[p].generation, nodes[p].id) <= last)
  }

  ghost predicate SameNumbers(nodes: Nodes, t: Nodes) {
    forall r | r in t :: r in nodes && t[r].id == nodes[r].id && t[r].generation == nodes[r].generation
  }

  lemma StampedStill(nodes: Nodes, t: Nodes, root: Ptr, last: nat)
    requires Stamped(nodes, root, last) && SameNumbers(nodes, t)
    ensures Stamped(t, root, last)
  {
  }

  lemma {:induction false} FreeId(live: Nodes, n: nat) returns (g: nat)
    requires |live| < n
    ensures 0 < g <= n && forall p | p in live :: live[p].id != g
  {
    if p :| p in live && live[p].id == n {
      g := FreeId(live - {p}, n - 1);
      assert forall r | r in live && r != p :: r in live - {p} && (live - {p})[r].id == live[r].id;
    } else {
      g := n;
    }
  }

  function NewNode(id: nat, generation: nat): Node {
    Node(id, generation, 1, None, None, 1, false)
  }

  lemma AddTree(nodes: Nodes, p: Ptr, n: Node)
    requires Tree(nodes, None) && p !in nodes && n.parent.None? && n.name.None? && n.id != ROOT_ID
    requires forall r | r in nodes :: nodes[r].id != n.id
    ensures Tree(nodes[p := n], None)
  {
    var t := nodes[p := n];
    forall r | r in t ensures LinkedNode(t, r) {
      assert r != p ==> LinkedNode(nodes, r);
    }
    assert UniqueIds(t) by {
      forall r, s | SameNumber(t, r, s) ensures r == s {
        if r != p && s != p {
          assert SameNumber(nodes, r, s);
        }
      }
    }
    assert UniqueNames(t) by {
      forall r, s | SameName(t, r, s) ensures r == s {
        assert SameName(nodes, r, s);
      }
    }
  }

  lemma AddChildren(nodes: Nodes, p: Ptr, n: Node, r: Ptr)
    requires Linked(nodes) && p !in nodes && n.parent.None?
    ensures Children(nodes[p := n], r) == Children(nodes, r) && Children(nodes, p) == {}
  {
    forall q | q in nodes ensures q !in Children(nodes, p) {
      assert LinkedNode(nodes, q);
    }
  }

  lemma AddRefs(nodes: Nodes, p: Ptr, n: Node)
    requires Refs(nodes, None) && Linked(nodes) && p !in nodes && n.parent.None? && n.nlookup > 0 && n.refctr == 1
    ensures Refs(nodes[p := n], None)
  {
    var t := nodes[p := n];
    forall r | r in t ensures Counted(t, r, None) {
      AddChildren(nodes, p, n, r);
      if r != p {
        assert Counted(nodes, r, None);
      }
    }
  }

  lemma AddKeys(nodes: Nodes, p: Ptr, n: Node)
    requires Linked(nodes) && p !in nodes && n.parent.None?
    ensures NameKeys(nodes[p := n]) == NameKeys(nodes) && IdKeys(nodes[p := n]) == IdKeys(nodes)[p := IdHash(n.id)]
  {
    var t := nodes[p := n];
    forall r | r in nodes && Listed(nodes, r) ensures KeyOf(t, r) == KeyOf(nodes, r) {
      assert LinkedNode(nodes, r);
    }
  }

  lemma AddView(nodes: Nodes, p: Ptr, n: Node)
    requires Linked(nodes) && p !in nodes && n.parent.None? && n.nlookup > 0
    ensures View(nodes[p := n]) == View(nodes)[p := Inode(n.id, n.generation, n.nlookup, None, n.hidden)]
  {
    var t := nodes[p := n];
    forall r | r in nodes ensures InodeOf(t, r) == InodeOf(nodes, r) {
      assert LinkedNode(nodes, r);
    }
  }

  lemma FoundNewTree(nodes: Nodes, p: Ptr, n: Node, q: Ptr, name: Name)
    requires Tree(nodes, None) && p !in nodes && q in nodes && n == NewNode(n.id, n.generation) && n.id != ROOT_ID
    requires (forall r | r in nodes :: nodes[r].id != n.id) && Free(nodes, q, name)
    ensures Tree(Attached(nodes[p := n], p, q, name), None)
  {
    AddTree(nodes, p, n);
    assert Free(nodes[p := n], q, name);
    AttachTree(nodes[p := n], p, q, name, None);
  }

  lemma FoundNewRefs(nodes: Nodes, p: Ptr, n: Node, q: Ptr, name: Name)
    requires Linked(nodes) && Refs(nodes, None) && p !in nodes && q in nodes && n == NewNode(n.id, n.generation)
    ensures Refs(Attached(nodes[p := n], p, q, name), None)
  {
    AddRefs(nodes, p, n);
    AttachRefs(nodes[p := n], p, q, name, None);
  }

  lemma FoundNewView(nodes: Nodes, p: Ptr, n: Node, q: Ptr, name: Name)
    requires Linked(nodes) && p !in nodes && q in nodes && n == NewNode(n.id, n.generation)
    ensures View(Attached(nodes[p := n], p, q, name))
            == View(nodes)[p := Inode(n.id, n.generation, 1, Some((nodes[q].id, name)), false)]
  {
    AddView(nodes, p, n);
    AttachView(nodes[p := n], p, q, name);
  }

  // ----- Lookup counts -----

  lemma LookupRefs(nodes: Nodes, p: Ptr, k: nat)
    requires Refs(nodes, None) && p in nodes && nodes[p].nlookup > 0
    ensures Refs(nodes[p := nodes[p].(nlookup := k)], if k == 0 then Some(p) else None)
  {
    var t, x := nodes[p := nodes[p].(nlookup := k)], if k == 0 then Some(p) else None;
    forall r | r in t ensures Counted(t, r, x) {
      ChildrenSame(nodes, p, t[p], r);
      assert Counted(nodes, r, None);
    }
  }

  lemma LookupView(nodes: Nodes, p: Ptr, k: nat)
    requires p in nodes && nodes[p].nlookup > 0
    ensures View(nodes[p := nodes[p].(nlookup := k)])
         == if k == 0 then View(nodes) - {p} else View(nodes)[p := WithLookups(InodeOf(nodes, p), k)]
  {
    var t := nodes[p := nodes[p].(nlookup := k)];
    assert forall r | r in nodes :: Listed(t, r) == Listed(nodes, r) && (r != p ==> InodeOf(t, r) == InodeOf(nodes, r));
  }

  // ----- The invariant -----

  /** Node maps whose links, names and counts are consistent, `x` being about to lose its lookup. */
  ghost function Consistent(x: Option<Ptr>): iset<Nodes> {
    iset nodes: Nodes | Tree(nodes, x) && Refs(nodes, x)
  }

  ghost predicate Tables(nodes: Nodes, idTable: seq<seq<Ptr>>, nameTable: seq<seq<Ptr>>) {
    && TableOk(idTable, IdKeys(nodes))
    && TableOk(nameTable, NameKeys(nodes))
  }

  ghost predicate Rooted(nodes: Nodes, root: Ptr, last: nat) {
    root in nodes && nodes[root].id == ROOT_ID && Stamped(nodes, root, last)
  }

  /** `aborted` is set where the code would abort or an assertion of it would fail. */
  datatype State = State(nodes: Nodes, idTable: seq<seq<Ptr>>, nameTable: seq<seq<Ptr>>, aborted: bool)

  /** The states between two operations, or, with `x`, within a forget. */
  ghost predicate Sound(s: State, x: Option<Ptr>, root: Ptr, last: nat) {
    !s.aborted && s.nodes in Consistent(x) && Tables(s.nodes, s.idTable, s.nameTable) && Rooted(s.nodes, root, last)
  }

  lemma CountedTables(nodes: Nodes, p: Ptr, n: Node, idTable: seq<seq<Ptr>>, nameTable: seq<seq<Ptr>>)
    requires Tables(nodes, idTable, nameTable) && p in nodes
    requires n.id == nodes[p].id && n.parent == nodes[p].parent && n.name == nodes[p].name
    ensures Tables(nodes[p := n], idTable, nameTable)
  {
    KeysSame(nodes, p, n);
  }

  /** The view with `k` lookups left of `p`. */
  ghost function Forgotten(view: map<Ptr, Inode>, p: Ptr, i: Inode, k: nat): map<Ptr, Inode> {
    if k == 0 then view - {p} else view[p := WithLookups(i, k)]
  }

  lemma SameId(nodes: Nodes, x: Option<Ptr>, p: Ptr, q: Ptr)
    requires nodes in Consistent(x) && p in nodes && q in nodes && nodes[p].id == nodes[q].id
    ensures p == q
  {
    assert SameNumber(nodes, p, q);
  }

  /** Changing the lookup count of a node. */
  lemma Recounted(nodes: Nodes, p: Ptr, k: nat, t: Nodes)
    requires nodes in Consistent(None) && p in nodes && nodes[p].nlookup > 0 && (nodes[p].id == ROOT_ID ==> k > 0)
    requires t == nodes[p := nodes[p].(nlookup := k)]
    ensures t in Consistent(if k == 0 then Some(p) else None)
    ensures View(t) == Forgotten(View(nodes), p, InodeOf(nodes, p), k)
    ensures SameNumbers(nodes, t)
  {
    CountChange(nodes, p, nodes[p].(nlookup := k), None, if k == 0 then Some(p) else None);
    LookupRefs(nodes, p, k);
    LookupView(nodes, p, k);
  }

  /** Dropping the reference that stood for the lookups. */
  lemma Released(nodes: Nodes, p: Ptr, t: Nodes)
    requires Tree(nodes, None) && Refs(nodes, Some(p)) && p in nodes && nodes[p].nlookup == 0
    requires t == Unreferenced(nodes, p)
    ensures nodes[p].refctr > 0 && nodes[p].name.None?
    ensures t in Consistent(None) && View(t) == View(nodes) && SameNumbers(nodes, t) && NameKeys(t) == NameKeys(nodes)
  {
    ForgetRefs(nodes, p);
    ForgetTree(nodes, p);
    UnrefKeys(nodes, p);
  }

  /** `t` is `nodes` without the name of `p`: nothing else that the kernel sees differs, and every node
      that is looked up is still there. */
  ghost predicate Unnamed(nodes: Nodes, p: Ptr, t: Nodes, x: Option<Ptr>)
    requires p in nodes
  {
    && Tree(t, None) && Refs(t, x)
    && p in t && t[p].parent.None? && t[p].name.None?
    && View(t) == (if nodes[p].nlookup > 0 then View(nodes)[p := WithEntry(InodeOf(nodes, p), None)] else View(nodes))
    && Kept(nodes, p, t)
  }

  ghost predicate Kept(nodes: Nodes, p: Ptr, t: Nodes) {
    && (forall r | r in t ::
      r in nodes && t[r].id == nodes[r].id && t[r].generation == nodes[r].generation
      && t[r].nlookup == nodes[r].nlookup)
    && (forall r | r in nodes && nodes[r].nlookup > 0 :: r in t)
    && (forall r | r in t && r != p :: t[r].parent == nodes[r].parent && t[r].name == nodes[r].name)
  }

  lemma AlreadyUnnamed(nodes: Nodes, p: Ptr, x: Option<Ptr>)
    requires Tree(nodes, x) && Refs(nodes, x) && p in nodes && nodes[p].name.None? && (x == None || x == Some(p))
    ensures Unnamed(nodes, p, nodes, x)
  {
    assert LinkedNode(nodes, p);
    if nodes[p].nlookup > 0 {
      assert WithEntry(InodeOf(nodes, p), None) == InodeOf(nodes, p);
    }
  }

  lemma DetachKept(nodes: Nodes, p: Ptr, q: Ptr, x: Option<Ptr>)
    requires p in nodes && q in nodes && nodes[p].parent == Some(q)
    requires nodes[q].refctr == 1 ==> p != q && nodes[q].nlookup == 0
    ensures Kept(nodes, p, Detached(nodes, p, q))
  {
  }

  lemma DetachUnnamed(nodes: Nodes, p: Ptr, q: Ptr, x: Option<Ptr>)
    requires Tree(nodes, x) && Refs(nodes, x) && p in nodes && q in nodes && nodes[p].parent == Some(q)
    requires (nodes[p].nlookup > 0 && x == None) || x == Some(p)
    ensures nodes[q].refctr > 0 && (nodes[q].refctr == 1 ==> p != q && nodes[q].name.None?)
    ensures Unnamed(nodes, p, Detached(nodes, p, q), x)
    ensures NameKeys(Detached(nodes, p, q)) == NameKeys(nodes) - {p}
  {
    assert Counted(nodes, q, x);
    assert nodes[q].refctr == 1 ==> p != q && nodes[q].name.None? && nodes[q].nlookup == 0 by {
      if nodes[q].refctr == 1 {
        LastChild(nodes, p, q, x);
      }
    }
    DetachKept(nodes, p, q, x);
    DetachKeys(nodes, p, q, x);
    DetachTree(nodes, p, q, x);
    DetachRefs(nodes, p, q, x);
  }

  // ----- Operations within a call -----

  method GetNodeNocheck(s: State, id: nat, ghost live: Nodes) returns (r: Option<Ptr>)
    requires TableOk(s.idTable, IdKeys(live))
    requires forall p | p in live :: p in s.nodes && s.nodes[p].id == live[p].id
    ensures r.Some? ==> r.value in live && live[r.value].id == id
    ensures r.None? ==> forall p | p in live :: live[p].id != id
  {
    var hash := IdHash(id);
    var chain := s.idTable[hash];
    var i := 0;
    r := None;
    while i < |chain|
      invariant 0 <= i <= |chain| && r == None && forall j | 0 <= j < i :: chain[j] in live && live[chain[j]].id != id
    {
      InIdChain(s.idTable, live, hash, chain[i]);
      if s.nodes[chain[i]].id == id {
        r := Some(chain[i]);
        break;
      }
      i := i + 1;
    }
    if r == None {
      forall p | p in live ensures live[p].id != id {
        InIdChain(s.idTable, live, hash, p);
      }
    }
  }

  method LookupNode(s: State, parent: nat, name: Name) returns (r: Option<Ptr>)
    requires TableOk(s.nameTable, NameKeys(s.nodes)) && Linked(s.nodes)
    ensures r.Some? ==> Entry(s.nodes, r.value, parent, name)
    ensures r.None? ==> forall p :: !Entry(s.nodes, p, parent, name)
  {
    var hash := NameHash(parent, name);
    var chain := s.nameTable[hash];
    var i := 0;
    r := None;
    while i < |chain|
      invariant 0 <= i <= |chain| && r == None && forall j | 0 <= j < i :: !Entry(s.nodes, chain[j], parent, name)
    {
      InNameChain(s.nameTable, s.nodes, hash, chain[i]);
      assert LinkedNode(s.nodes, chain[i]);
      if s.nodes[s.nodes[chain[i]].parent.value].id == parent && s.nodes[chain[i]].name.value == name {
        r := Some(chain[i]);
        break;
      }
      i := i + 1;
    }
    if r == None {
      forall p ensures !Entry(s.nodes, p, parent, name) {
        InNameChain(s.nameTable, s.nodes, hash, p);
      }
    }
  }

  /** `unref_node` with `delete_node`: the node goes with its last reference, at which time it must not
      have a name. */
  method UnrefNode(s: State, q: Ptr) returns (t: State)
    requires q in s.nodes && TableOk(s.idTable, IdKeys(s.nodes))
    requires s.nodes[q].refctr > 0 && (s.nodes[q].refctr == 1 ==> s.nodes[q].name.None?)
    ensures t.aborted == s.aborted && t.nodes == Unreferenced(s.nodes, q) && t.nameTable == s.nameTable
    ensures TableOk(t.idTable, IdKeys(t.nodes))
  {
    var n := s.nodes[q].(refctr := s.nodes[q].refctr - 1);
    KeysSame(s.nodes, q, n);
    t := s.(nodes := s.nodes[q := n], aborted := s.aborted || s.nodes[q].refctr <= 0);
    if n.refctr == 0 {
      ghost var keys := IdKeys(s.nodes);
      assert keys[q] == IdHash(n.id);
      var found, tab := Unlink(s.idTable, IdHash(n.id), q, keys);
      IdKeysDrop(s.nodes, q);
      t := State(s.nodes - {q}, tab, s.nameTable, t.aborted || n.name.Some?);
    }
  }

  /** `unhash_name` for a node with a name. */
  method UnhashListed(s: State, p: Ptr, ghost q: Ptr) returns (t: State)
    requires Tables(s.nodes, s.idTable, s.nameTable) && p in s.nodes && Listed(s.nodes, p)
             && s.nodes[p].parent == Some(q) && q in s.nodes
    requires s.nodes[q].refctr > 0 && (s.nodes[q].refctr == 1 ==> p != q && s.nodes[q].name.None?)
    ensures t.aborted == s.aborted && t.nodes == Detached(s.nodes, p, q)
    ensures TableOk(t.idTable, IdKeys(t.nodes))
    ensures TableOk(t.nameTable, NameKeys(s.nodes) - {p})
  {
    var parent := s.nodes[p].parent.value;
    ghost var keys := NameKeys(s.nodes);
    var hash := NameHash(s.nodes[parent].id, s.nodes[p].name.value);
    assert keys[p] == hash;
    var found, tab := Unlink(s.nameTable, hash, p, keys);
    t := s.(nameTable := tab, aborted := s.aborted || !found);
    if found {
      t := UnrefNode(t, parent);
      UnlinkKeys(t.nodes, p);
      t := t.(nodes := t.nodes[p := t.nodes[p].(parent := None, name := None)]);
    }
  }

  /** `unhash_name`: takes the name from `p`, if it has one, and a reference from its parent. */
  method UnhashName(s: State, p: Ptr, ghost x: Option<Ptr>) returns (t: State)
    requires s.nodes in Consistent(x) && Tables(s.nodes, s.idTable, s.nameTable)
    requires p in s.nodes && s.nodes[p].id != ROOT_ID && ((s.nodes[p].nlookup > 0 && x == None) || x == Some(p))
    ensures t.aborted == s.aborted && Tables(t.nodes, t.idTable, t.nameTable) && Unnamed(s.nodes, p, t.nodes, x)
  {
    t := s;
    assert LinkedNode(s.nodes, p);
    if s.nodes[p].name.Some? {
      DetachUnnamed(s.nodes, p, s.nodes[p].parent.value, x);
      t := UnhashListed(s, p, s.nodes[p].parent.value);
    } else {
      AlreadyUnnamed(s.nodes, p, x);
    }
  }

  method HashName(s: State, p: Ptr, parent: nat, name: Name, ghost live: Nodes, ghost q: Ptr) returns (t: State)
    requires TableOk(s.nameTable, NameKeys(s.nodes)) && p in s.nodes && s.nodes[p].parent.None?
    requires TableOk(s.idTable, IdKeys(live))
    requires forall p | p in live :: p in s.nodes && s.nodes[p].id == live[p].id
    requires UniqueIds(live) && q in live && live[q].id == parent
    ensures t.aborted == s.aborted && t.idTable == s.idTable && t.nodes == Attached(s.nodes, p, q, name)
    ensures TableOk(t.nameTable, NameKeys(t.nodes))
  {
    var hash := NameHash(parent, name);
    var r := GetNodeNocheck(s, parent, live);
    t := s.(aborted := s.aborted || r.None?);
    if r.Some? {
      assert SameNumber(live, q, r.value);
      AttachKeys(s.nodes, p, q, name);
      TablePush(s.nameTable, NameKeys(s.nodes), hash, p);
      var nodes := s.nodes[r.value := s.nodes[r.value].(refctr := s.nodes[r.value].refctr + 1)];
      t := t.(nodes := nodes[p := nodes[p].(parent := r, name := Some(name))],
        nameTable := Pushed(s.nameTable, hash, p));
    }
  }

  // ----- Forgetting -----

  lemma Relooked(s: State, root: Ptr, last: nat, p: Ptr, k: nat, t: Nodes)
    requires Sound(s, None, root, last) && p in s.nodes && s.nodes[p].nlookup > 0 && s.nodes[p].id != ROOT_ID
    requires t == s.nodes[p := s.nodes[p].(nlookup := k)]
    ensures Sound(s.(nodes := t), if k == 0 then Some(p) else None, root, last)
    ensures View(t) == Forgotten(View(s.nodes), p, InodeOf(s.nodes, p), k)
  {
    Recounted(s.nodes, p, k, t);
    CountedTables(s.nodes, p, t[p], s.idTable, s.nameTable);
    StampedStill(s.nodes, t, root, last);
  }

  lemma ReleasedSound(s: State, root: Ptr, last: nat, p: Ptr, u: State, t: State)
    requires Sound(s, Some(p), root, last) && p in s.nodes && s.nodes[p].nlookup == 0 && s.nodes[p].id != ROOT_ID
    requires !u.aborted && Unnamed(s.nodes, p, u.nodes, Some(p)) && TableOk(u.nameTable, NameKeys(u.nodes))
    requires t.aborted == u.aborted && t.nodes == Unreferenced(u.nodes, p) && t.nameTable == u.nameTable
    requires TableOk(t.idTable, IdKeys(t.nodes))
    ensures Sound(t, None, root, last) && View(t.nodes) == View(s.nodes)
  {
    assert LinkedNode(s.nodes, root);
    Released(u.nodes, p, t.nodes);
    StampedStill(s.nodes, u.nodes, root, last);
    StampedStill(u.nodes, t.nodes, root, last);
  }

  /** The nodes named below `p`, other than itself. */
  ghost function Others(nodes: Nodes, p: Ptr): set<Ptr> {
    Children(nodes, p) - {p}
  }

  lemma OthersKept(nodes: Nodes, p: Ptr, u: Nodes)
    requires Tree(nodes, Some(p)) && p in nodes && Unnamed(nodes, p, u, Some(p))
    ensures Children(u, p) == Others(nodes, p)
  {
    forall q | q in nodes && nodes[q].parent == Some(p) && q != p ensures q in u {
      assert nodes[q].nlookup > 0;
    }
  }

  /** When the name has gone, one reference is left exactly if no other node is named below. */
  lemma LastReference(nodes: Nodes, p: Ptr, u: Nodes)
    requires Tree(nodes, Some(p)) && p in nodes && nodes[p].nlookup == 0 && Unnamed(nodes, p, u, Some(p))
    ensures u[p].refctr == 1 <==> Others(nodes, p) == {}
  {
    OthersKept(nodes, p, u);
    assert Counted(u, p, Some(p));
  }

  /** What a forget does when no lookup is left. */
  method Release(s: State, p: Ptr, ghost root: Ptr, ghost last: nat) returns (t: State)
    requires Sound(s, Some(p), root, last) && p in s.nodes && s.nodes[p].nlookup == 0 && s.nodes[p].id != ROOT_ID
    ensures Sound(t, None, root, last) && View(t.nodes) == View(s.nodes)
    ensures p in t.nodes <==> Others(s.nodes, p) != {}
  {
    var u := UnhashName(s, p, Some(p));
    LastReference(s.nodes, p, u.nodes);
    assert u.nodes[p].refctr > 0 by {
      Released(u.nodes, p, Unreferenced(u.nodes, p));
    }
    t := UnrefNode(u, p);
    ReleasedSound(s, root, last, p, u, t);
  }

  method ForgetHeld(s: State, p: Ptr, n: nat, ghost root: Ptr, ghost last: nat) returns (t: State)
    requires Sound(s, None, root, last) && p in s.nodes && s.nodes[p].id != ROOT_ID && 0 < s.nodes[p].nlookup
             && n <= s.nodes[p].nlookup
    ensures Sound(t, None, root, last)
    ensures View(t.nodes) == Forgotten(View(s.nodes), p, InodeOf(s.nodes, p), s.nodes[p].nlookup - n)
    ensures p in t.nodes <==> n < s.nodes[p].nlookup || Others(s.nodes, p) != {}
  {
    var k := s.nodes[p].nlookup - n;
    var nodes := s.nodes[p := s.nodes[p].(nlookup := k)];
    Relooked(s, root, last, p, k, nodes);
    assert Others(nodes, p) == Others(s.nodes, p);
    t := s.(nodes := nodes);
    if k == 0 {
      t := Release(t, p, root, last);
    }
  }

  /** `forget_node`: `n` lookups less; with the last one goes the name, and the node unless it is the
      parent of others. */
  method ForgetNode(s: State, id: nat, n: nat, ghost p: Ptr, ghost root: Ptr, ghost last: nat) returns (t: State)
    requires Sound(s, None, root, last)
    requires id != ROOT_ID ==> p in s.nodes && s.nodes[p].id == id && 0 < s.nodes[p].nlookup && n <= s.nodes[p].nlookup
    ensures Sound(t, None, root, last)
    ensures id == ROOT_ID ==> t == s
    ensures id != ROOT_ID ==> View(t.nodes) == Forgotten(View(s.nodes), p, InodeOf(s.nodes, p), s.nodes[p].nlookup - n)
    ensures id != ROOT_ID ==> (p in t.nodes <==> n < s.nodes[p].nlookup || Others(s.nodes, p) != {})
  {
    t := s;
    if id != ROOT_ID {
      var r := GetNodeNocheck(s, id, s.nodes);
      t := s.(aborted := s.aborted || r.None?);
      if r.Some? {
        SameId(s.nodes, None, p, r.value);
        t := t.(aborted := t.aborted || s.nodes[r.value].nlookup < n);
        t := ForgetHeld(t, r.value, n, root, last);
      }
    }
  }

  // ----- Removing and renaming -----

  /** A node with an entry is looked up and is not the root. */
  lemma EntryHeld(nodes: Nodes, p: Ptr, parent: nat, name: Name)
    requires nodes in Consistent(None) && Entry(nodes, p, parent, name)
    ensures nodes[p].nlookup > 0 && nodes[p].id != ROOT_ID
    ensures nodes[p].parent.value in nodes && nodes[nodes[p].parent.value].id == parent
  {
    assert LinkedNode(nodes, p);
  }

  lemma UnnamedSound(s: State, root: Ptr, last: nat, p: Ptr, t: State)
    requires Sound(s, None, root, last) && p in s.nodes && t.aborted == s.aborted
    requires Unnamed(s.nodes, p, t.nodes, None) && Tables(t.nodes, t.idTable, t.nameTable)
    ensures Sound(t, None, root, last)
  {
    assert LinkedNode(s.nodes, root);
    StampedStill(s.nodes, t.nodes, root, last);
  }

  /** `remove_node`: the entry `name` of directory `dir` goes, if there is one. */
  method RemoveNode(s: State, dir: nat, name: Name, ghost root: Ptr, ghost last: nat)
    returns (t: State, ghost r: Option<Ptr>)
    requires Sound(s, None, root, last)
    ensures Sound(t, None, root, last)
    ensures r.None? ==> t == s && forall p :: !Entry(s.nodes, p, dir, name)
    ensures r.Some? ==> Entry(s.nodes, r.value, dir, name)
                        && View(t.nodes) == View(s.nodes)[r.value := WithEntry(InodeOf(s.nodes, r.value), None)]
  {
    t := s;
    var found := LookupNode(s, dir, name);
    r := found;
    if found.Some? {
      EntryHeld(s.nodes, found.value, dir, name);
      t := UnhashName(s, found.value, None);
      UnnamedSound(s, root, last, found.value, t);
    }
  }

  /** The entries of two nodes that are the same are those of one node. */
  lemma OneEntry(nodes: Nodes, p: Ptr, r: Ptr, parent: nat, name: Name)
    requires nodes in Consistent(None) && Entry(nodes, p, parent, name) && Entry(nodes, r, parent, name)
    ensures p == r
  {
    assert LinkedNode(nodes, p) && LinkedNode(nodes, r);
    assert SameNumber(nodes, nodes[p].parent.value, nodes[r].parent.value);
    assert SameName(nodes, p, r);
  }

  lemma FreeOfEntries(nodes: Nodes, q: Ptr, name: Name)
    requires q in nodes && forall p :: !Entry(nodes, p, nodes[q].id, name)
    ensures Free(nodes, q, name)
  {
    forall r | r in nodes ensures !(nodes[r].parent == Some(q) && nodes[r].name == Some(name)) {
      assert !Entry(nodes, r, nodes[q].id, name);
    }
  }

  /** An entry that is there after a name has been taken was there before. */
  lemma EntryBefore(nodes: Nodes, p: Ptr, t: Nodes, r: Ptr, parent: nat, name: Name)
    requires p in nodes && Unnamed(nodes, p, t, None) && Entry(t, r, parent, name)
    ensures r != p && Entry(nodes, r, parent, name)
  {
    assert LinkedNode(t, r);
  }

  /** Attaching a detached node under a directory that is looked up. */
  lemma Reattached(s: State, root: Ptr, last: nat, p: Ptr, q: Ptr, name: Name, t: State)
    requires Sound(s, None, root, last) && p in s.nodes && q in s.nodes && s.nodes[p].parent.None?
             && s.nodes[p].nlookup > 0 && s.nodes[p].id != ROOT_ID
    requires Free(s.nodes, q, name)
    requires t.nodes == Attached(s.nodes, p, q, name) && t.idTable == s.idTable && t.aborted == s.aborted
             && TableOk(t.nameTable, NameKeys(t.nodes))
    ensures Sound(t, None, root, last)
    ensures View(t.nodes) == View(s.nodes)[p := WithEntry(InodeOf(s.nodes, p), Some((s.nodes[q].id, name)))]
  {
    AttachTree(s.nodes, p, q, name, None);
    AttachRefs(s.nodes, p, q, name, None);
    AttachKeys(s.nodes, p, q, name);
    AttachView(s.nodes, p, q, name);
    StampedStill(s.nodes, t.nodes, root, last);
  }

  function Renamed(i: Inode, dir: nat, name: Name, hiding: bool): Inode {
    i.(entry := Some((dir, name)), hidden := i.hidden || hiding)
  }

  lemma Hidden(s: State, root: Ptr, last: nat, p: Ptr, t: State)
    requires Sound(s, None, root, last) && p in s.nodes && s.nodes[p].nlookup > 0
    requires t == s.(nodes := s.nodes[p := s.nodes[p].(hidden := true)])
    ensures Sound(t, None, root, last)
    ensures View(t.nodes) == View(s.nodes)[p := InodeOf(s.nodes, p).(hidden := true)]
  {
    CountChange(s.nodes, p, t.nodes[p], None, None);
    HiddenRefs(s.nodes, p, t.nodes);
    CountedTables(s.nodes, p, t.nodes[p], s.idTable, s.nameTable);
    StampedStill(s.nodes, t.nodes, root, last);
    HiddenView(s.nodes, p, t.nodes);
  }

  lemma HiddenView(nodes: Nodes, p: Ptr, t: Nodes)
    requires p in nodes && nodes[p].nlookup > 0 && t == nodes[p := nodes[p].(hidden := true)]
    ensures View(t) == View(nodes)[p := InodeOf(nodes, p).(hidden := true)]
  {
    assert forall r | r in nodes && r != p :: Listed(t, r) == Listed(nodes, r) && InodeOf(t, r) == InodeOf(nodes, r);
  }

  lemma HiddenRefs(nodes: Nodes, p: Ptr, t: Nodes)
    requires Refs(nodes, None) && p in nodes && t == nodes[p := nodes[p].(hidden := true)]
    ensures Refs(t, None)
  {
    forall r | r in t ensures Counted(t, r, None) {
      assert Counted(nodes, r, None);
      ChildrenSame(nodes, p, t[p], r);
    }
  }

  lemma UnnamedInode(nodes: Nodes, p: Ptr, t: Nodes)
    requires p in nodes && nodes[p].nlookup > 0 && Unnamed(nodes, p, t, None)
    ensures InodeOf(t, p) == WithEntry(InodeOf(nodes, p), None)
  {
    assert InodeOf(t, p) == View(t)[p];
  }

  lemma Moved(s: State, p: Ptr, u: State, q: Ptr, dir: nat, name: Name, root: Ptr, last: nat, t: State)
    requires Sound(s, None, root, last) && p in s.nodes && s.nodes[p].nlookup > 0 && s.nodes[p].id != ROOT_ID
    requires q in s.nodes && s.nodes[q].id == dir && s.nodes[q].nlookup > 0
    requires u.aborted == s.aborted && Unnamed(s.nodes, p, u.nodes, None) && Tables(u.nodes, u.idTable, u.nameTable)
             && Free(u.nodes, q, name)
    requires t.nodes == Attached(u.nodes, p, q, name) && t.idTable == u.idTable && t.aborted == u.aborted
             && TableOk(t.nameTable, NameKeys(t.nodes))
    ensures Sound(t, None, root, last)
    ensures View(t.nodes) == View(s.nodes)[p := WithEntry(InodeOf(s.nodes, p), Some((dir, name)))]
  {
    assert Sound(u, None, root, last) by {
      UnnamedSound(s, root, last, p, u);
    }
    var i := InodeOf(s.nodes, p);
    assert InodeOf(u.nodes, p) == WithEntry(i, None) by {
      UnnamedInode(s.nodes, p, u.nodes);
    }
    Reattached(u, root, last, p, q, name, t);
    Overwrite(View(s.nodes), p, WithEntry(i, None), WithEntry(i, Some((dir, name))));
  }

  lemma Overwrite(m: map<Ptr, Inode>, p: Ptr, a: Inode, b: Inode)
    ensures m[p := a][p := b] == m[p := b]
  {
  }

  /** The second half of `rename_node`: node `p` gets the entry `name` of `dir` instead of its own. */
  method MoveTo(s: State, p: Ptr, dir: nat, name: Name, ghost q: Ptr, ghost root: Ptr, ghost last: nat)
    returns (t: State)
    requires Sound(s, None, root, last) && p in s.nodes && s.nodes[p].nlookup > 0 && s.nodes[p].id != ROOT_ID
    requires q in s.nodes && s.nodes[q].id == dir && s.nodes[q].nlookup > 0
    requires forall r | Entry(s.nodes, r, dir, name) :: r == p
    ensures Sound(t, None, root, last)
    ensures View(t.nodes) == View(s.nodes)[p := WithEntry(InodeOf(s.nodes, p), Some((dir, name)))]
  {
    var u := UnhashName(s, p, None);
    forall r ensures !Entry(u.nodes, r, dir, name) {
      if Entry(u.nodes, r, dir, name) {
        EntryBefore(s.nodes, p, u.nodes, r, dir, name);
      }
    }
    FreeOfEntries(u.nodes, q, name);
    t := HashName(u, p, dir, name, u.nodes, q);
    Moved(s, p, u, q, dir, name, root, last, t);
  }

  lemma ViewAt(nodes: Nodes, p: Ptr)
    requires p in nodes && nodes[p].nlookup > 0
    ensures p in View(nodes) && View(nodes)[p] == InodeOf(nodes, p)
  {
  }

  method Rehash(s: State, p: Ptr, dir: nat, name: Name, hiding: bool, ghost q: Ptr, ghost root: Ptr, ghost last: nat)
    returns (t: State)
    requires Sound(s, None, root, last) && p in s.nodes && s.nodes[p].nlookup > 0 && s.nodes[p].id != ROOT_ID
    requires q in s.nodes && s.nodes[q].id == dir && s.nodes[q].nlookup > 0
    requires forall r | Entry(s.nodes, r, dir, name) :: r == p
    ensures Sound(t, None, root, last)
    ensures View(t.nodes) == View(s.nodes)[p := Renamed(InodeOf(s.nodes, p), dir, name, hiding)]
  {
    t := MoveTo(s, p, dir, name, q, root, last);
    ghost var v := t;
    assert p in View(t.nodes);
    ViewAt(t.nodes, p);
    if hiding {
      t := t.(nodes := t.nodes[p := t.nodes[p].(hidden := true)]);
      Hidden(v, root, last, p, t);
    }
  }

  /** The entries of `dir` and `name` after the one of `r` has gone. */
  lemma NoEntryLeft(s: State, r: Ptr, t: State, dir: nat, name: Name)
    requires s.nodes in Consistent(None) && Entry(s.nodes, r, dir, name) && Unnamed(s.nodes, r, t.nodes, None)
    ensures forall o :: !Entry(t.nodes, o, dir, name)
  {
    forall o ensures !Entry(t.nodes, o, dir, name) {
      if Entry(t.nodes, o, dir, name) {
        EntryBefore(s.nodes, r, t.nodes, o, dir, name);
        OneEntry(s.nodes, o, r, dir, name);
      }
    }
  }

  /** `rename_node`: the node of the old entry, if there is one, gets the new one, and a node that had it
      loses it, except that hiding a file behind an existing one is refused. */
  method RenameNode(s: State, olddir: nat, oldname: Name, newdir: nat, newname: Name, hiding: bool, ghost q: Ptr,
                    ghost root: Ptr, ghost last: nat)
    returns (t: State, err: int, ghost r: Option<Ptr>, ghost o: Option<Ptr>)
    requires Sound(s, None, root, last)
    requires q in s.nodes && s.nodes[q].id == newdir && s.nodes[q].nlookup > 0
    ensures Sound(t, None, root, last)
    ensures if r.Some? then Entry(s.nodes, r.value, olddir, oldname) else forall p ::
              !Entry(s.nodes, p, olddir, oldname)
    ensures if o.Some? then Entry(s.nodes, o.value, newdir, newname) else forall p ::
              !Entry(s.nodes, p, newdir, newname)
    ensures err == if r.Some? && o.Some? && hiding then -EBUSY else 0
    ensures r.None? || err != 0 ==> t == s
    ensures r.Some? && err == 0 ==>
              View(t.nodes)
              == Cleared(s.nodes, o)[r.value := Renamed(InodeOf(s.nodes, r.value), newdir, newname, hiding)]
    ensures r.Some? && err == 0 ==> RenamedView(View(s.nodes), View(t.nodes), r.value, o, newdir, newname, hiding)
  {
    var node := LookupNode(s, olddir, oldname);
    var newnode := LookupNode(s, newdir, newname);
    t, err, r, o := s, 0, node, newnode;
    if node.Some? {
      EntryHeld(s.nodes, node.value, olddir, oldname);
      if newnode.Some? && hiding {
        err := -EBUSY;
      } else {
        ghost var u := s;
        if newnode.Some? {
          EntryHeld(s.nodes, newnode.value, newdir, newname);
          t := UnhashName(s, newnode.value, None);
          UnnamedSound(s, root, last, newnode.value, t);
          NoEntryLeft(s, newnode.value, t, newdir, newname);
          u := t;
        }
        t := Rehash(t, node.value, newdir, newname, hiding, q, root, last);
        SameRenamed(s.nodes, o, u.nodes, node.value, newdir, newname, hiding);
        ViewAt(s.nodes, node.value);
        RenamedMeaning(s.nodes, View(t.nodes), node.value, o, newdir, newname, hiding);
      }
    }
  }

  /** The view without the entry of `o`. */
  ghost function Cleared(nodes: Nodes, o: Option<Ptr>): map<Ptr, Inode>
    requires o.Some? ==> o.value in nodes
  {
    if o.Some? then View(nodes)[o.value := WithEntry(InodeOf(nodes, o.value), None)] else View(nodes)
  }

  /** After a rename: `r` has the new entry, is hidden if it was or `hiding` is set, and is otherwise the same; the node
      that had the entry has none; nothing else has changed. */
  ghost predicate RenamedView(v: map<Ptr, Inode>, w: map<Ptr, Inode>, r: Ptr, o: Option<Ptr>, dir: nat, name: Name,
                              hiding: bool) {
    && w.Keys == v.Keys && r in v && (o.Some? ==> o.value in v)
    && w[r].entry == Some((dir, name)) && (w[r].hidden <==> v[r].hidden || hiding)
    && w[r].id == v[r].id && w[r].generation == v[r].generation && w[r].nlookup == v[r].nlookup
    && (o.Some? && o.value != r ==> w[o.value] == v[o.value].(entry := None))
    && (forall p | p in v && p != r && Some(p) != o :: w[p] == v[p])
  }

  lemma RenamedMeaning(nodes: Nodes, w: map<Ptr, Inode>, r: Ptr, o: Option<Ptr>, dir: nat, name: Name, hiding: bool)
    requires r in View(nodes) && r in nodes && (o.Some? ==> o.value in View(nodes) && o.value in nodes)
    requires w == Cleared(nodes, o)[r := Renamed(InodeOf(nodes, r), dir, name, hiding)]
    ensures RenamedView(View(nodes), w, r, o, dir, name, hiding)
  {
    ViewAt(nodes, r);
    if o.Some? {
      ViewAt(nodes, o.value);
    }
  }

  lemma SameRenamed(nodes: Nodes, o: Option<Ptr>, t: Nodes, p: Ptr, dir: nat, name: Name, hiding: bool)
    requires p in nodes && nodes[p].nlookup > 0 && p in t && t[p].nlookup > 0
    requires if o.Some? then o.value in nodes && nodes[o.value].nlookup > 0 && View(t) == Cleared(nodes, o) else
               t == nodes
    ensures Renamed(InodeOf(t, p), dir, name, hiding) == Renamed(InodeOf(nodes, p), dir, name, hiding)
  {
    ViewAt(t, p);
    ViewAt(nodes, p);
  }

  // ----- Finding or making a node -----

  /** The number of a stamp cannot be given: it is special, or a node has it. */
  ghost predicate Taken(live: Nodes, stamp: nat) {
    stamp % IDS == 0 || stamp % IDS == UNKNOWN_INO || exists p | p in live :: live[p].id == stamp % IDS
  }

  lemma StampPart(generation: nat, id: nat)
    requires id < IDS
    ensures Stamp(generation, id) % IDS == id
  {
  }

  /** `next_id`: the next number that is neither special nor in use; generation and number together only
      ever grow. */
  method NextId(s: State, ctr0: nat, generation0: nat, ghost live: Nodes) returns (ctr: nat, generation: nat)
    requires TableOk(s.idTable, IdKeys(live)) && ctr0 < IDS && |live| < IDS - 2
    requires forall p | p in live :: p in s.nodes && s.nodes[p].id == live[p].id
    ensures 0 < ctr < UNKNOWN_INO && forall p | p in live :: live[p].id != ctr
    ensures Stamp(generation, ctr) > Stamp(generation0, ctr0)
    ensures forall k {:trigger Taken(live, k)} | Stamp(generation0, ctr0) < k < Stamp(generation, ctr) :: Taken(live, k)
  {
    ghost var g := FreeId(live, IDS - 2);
    ctr, generation := ctr0, generation0;
    ghost var away := if g > ctr then g - ctr else g + IDS - ctr;
    var again := true;
    while again
      invariant ctr < IDS && Stamp(generation, ctr) >= Stamp(generation0, ctr0)
                && (!again ==> Stamp(generation, ctr) > Stamp(generation0, ctr0))
      invariant forall k {:trigger Taken(live, k)} | Stamp(generation0, ctr0) < k < Stamp(generation, ctr)
                + (if again then 1 else 0) ::
                  k == Stamp(generation0, ctr0) || Taken(live, k)
      invariant again ==> 0 < away && ctr + away == (if g > ctr then g else g + IDS)
      invariant !again ==> 0 < ctr < UNKNOWN_INO && forall p | p in live :: live[p].id != ctr
      decreases if again then away else 0
    {
      ctr := (ctr + 1) % IDS;
      if ctr == 0 {
        generation := generation + 1;
      }
      away := away - 1;
      var other := GetNodeNocheck(s, ctr, live);
      again := ctr == 0 || ctr == UNKNOWN_INO || other.Some?;
      StampPart(generation, ctr);
      assert again ==> Taken(live, Stamp(generation, ctr));
    }
  }

  lemma StampedMore(nodes: Nodes, root: Ptr, last: nat, last': nat)
    requires Stamped(nodes, root, last) && last <= last'
    ensures Stamped(nodes, root, last')
  {
  }

  lemma NewSound(s: State, root: Ptr, last: nat, p: Ptr, n: Node, q: Ptr, name: Name, t: State, last': nat)
    requires Sound(s, None, root, last) && p !in s.nodes && q in s.nodes && n == NewNode(n.id, n.generation)
    requires 0 < n.id < UNKNOWN_INO && last < last' == Stamp(n.generation, n.id)
    requires (forall r | r in s.nodes :: s.nodes[r].id != n.id) && Free(s.nodes, q, name)
    requires t.nodes == Attached(s.nodes[p := n], p, q, name) && t.aborted == s.aborted
    requires TableOk(t.nameTable, NameKeys(t.nodes)) && t.idTable == Pushed(s.idTable, IdHash(n.id), p)
    ensures Sound(t, None, root, last')
    ensures View(t.nodes) == View(s.nodes)[p := Inode(n.id, n.generation, 1, Some((s.nodes[q].id, name)), false)]
  {
    assert t.nodes in Consistent(None) by {
      FoundNewTree(s.nodes, p, n, q, name);
      FoundNewRefs(s.nodes, p, n, q, name);
    }
    assert TableOk(t.idTable, IdKeys(t.nodes)) by {
      TablePush(s.idTable, IdKeys(s.nodes), IdHash(n.id), p);
      AddKeys(s.nodes, p, n);
      AttachKeys(s.nodes[p := n], p, q, name);
    }
    assert Stamped(t.nodes, root, last') by {
      StampedMore(s.nodes, root, last, last');
    }
    FoundNewView(s.nodes, p, n, q, name);
  }

  /** The part of `find_node` for an entry that has no node yet; `p` is the memory for it. */
  method NewEntry(s: State, ctr0: nat, generation0: nat, parent: nat, name: Name, p: Ptr, ghost q: Ptr, ghost root: Ptr)
    returns (t: State, ctr: nat, generation: nat)
    requires Sound(s, None, root, Stamp(generation0, ctr0)) && ctr0 < IDS && |s.nodes| < IDS - 2 && p !in s.nodes
    requires q in s.nodes && s.nodes[q].id == parent && Free(s.nodes, q, name)
    ensures 0 < ctr < UNKNOWN_INO && (forall r | r in s.nodes :: s.nodes[r].id != ctr)
            && Stamp(generation, ctr) > Stamp(generation0, ctr0)
    ensures forall k {:trigger Taken(s.nodes, k)} | Stamp(generation0, ctr0) < k < Stamp(generation, ctr) ::
              Taken(s.nodes, k)
    ensures Sound(t, None, root, Stamp(generation, ctr))
    ensures View(t.nodes) == View(s.nodes)[p := Inode(ctr, generation, 1, Some((parent, name)), false)]
  {
    ctr, generation := NextId(s, ctr0, generation0, s.nodes);
    var n := Node(ctr, generation, 1, None, None, 0, false);
    AddKeys(s.nodes, p, n);
    t := HashName(s.(nodes := s.nodes[p := n]), p, parent, name, s.nodes, q);
    t := t.(idTable := Pushed(t.idTable, IdHash(ctr), p));
    CountedTables2(t.nodes, p, t.nodes[p].(nlookup := 1));
    t := t.(nodes := t.nodes[p := t.nodes[p].(nlookup := 1)]);
    LateCount(s.nodes, p, n, q, name, t.nodes);
    NewSound(s, root, Stamp(generation0, ctr0), p, NewNode(ctr, generation), q, name, t, Stamp(generation, ctr));
  }

  lemma CountedTables2(nodes: Nodes, p: Ptr, n: Node)
    requires p in nodes && n.id == nodes[p].id && n.parent == nodes[p].parent && n.name == nodes[p].name
    ensures NameKeys(nodes[p := n]) == NameKeys(nodes)
  {
    KeysSame(nodes, p, n);
  }

  /** Counting the lookup before or after naming the node makes no difference. */
  lemma LateCount(nodes: Nodes, p: Ptr, n: Node, q: Ptr, name: Name, t: Nodes)
    requires p !in nodes && q in nodes && n == Node(n.id, n.generation, 1, None, None, 0, false)
    requires var u := Attached(nodes[p := n], p, q, name); t == u[p := u[p].(nlookup := 1)]
    ensures t == Attached(nodes[p := NewNode(n.id, n.generation)], p, q, name)
  {
  }

  /** `find_node`: the node of the entry, made if need be, with one more lookup. */
  method FindNode(s: State, ctr0: nat, generation0: nat, parent: nat, name: Name, p: Ptr, ghost q: Ptr, ghost root: Ptr)
    returns (t: State, ctr: nat, generation: nat, r: Ptr)
    requires Sound(s, None, root, Stamp(generation0, ctr0)) && ctr0 < IDS && |s.nodes| < IDS - 2 && p !in s.nodes
    requires q in s.nodes && s.nodes[q].id == parent
    ensures ctr < IDS && Sound(t, None, root, Stamp(generation, ctr))
    ensures r != p ==> Entry(s.nodes, r, parent, name) && (ctr, generation) == (ctr0, generation0)
                       && View(t.nodes) == View(s.nodes)[r := WithLookups(InodeOf(s.nodes, r), s.nodes[r].nlookup + 1)]
    ensures r == p ==>
              forall k {:trigger Taken(s.nodes, k)} | Stamp(generation0, ctr0) < k < Stamp(generation, ctr) ::
                Taken(s.nodes, k)
    ensures r == p ==>
              (forall o :: !Entry(s.nodes, o, parent, name)) && (forall o | o in s.nodes :: s.nodes[o].id != ctr)
                       && 0 < ctr < UNKNOWN_INO && Stamp(generation, ctr) > Stamp(generation0, ctr0)
                       && View(t.nodes) == View(s.nodes)[p := Inode(ctr, generation, 1, Some((parent, name)), false)]
  {
    var found := LookupNode(s, parent, name);
    if found.Some? {
      r, ctr, generation := found.value, ctr0, generation0;
      EntryHeld(s.nodes, r, parent, name);
      var nodes := s.nodes[r := s.nodes[r].(nlookup := s.nodes[r].nlookup + 1)];
      Relooked(s, root, Stamp(generation0, ctr0), r, s.nodes[r].nlookup + 1, nodes);
      t := s.(nodes := nodes);
    } else {
      FreeOfEntries(s.nodes, q, name);
      t, ctr, generation := NewEntry(s, ctr0, generation0, parent, name, p, q, root);
      r := p;
    }
  }

  // ----- The table as an object -----

  function EmptyTable(): (t: seq<seq<Ptr>>)
    ensures |t| == TABLE_SIZE && forall h | 0 <= h < TABLE_SIZE :: t[h] == []
  {
    seq(TABLE_SIZE, i => [])
  }

  lemma EmptyTableOk()
    ensures TableOk(EmptyTable(), map[])
  {
  }

  const SLASH: Name := [47]

  function RootNode(): Node {
    Node(ROOT_ID, 0, 1, None, Some(SLASH), 1, false)
  }

  lemma InitialSound(p: Ptr, s: State)
    requires s == State(map[p := RootNode()], Pushed(EmptyTable(), IdHash(ROOT_ID), p), EmptyTable(), false)
    ensures Sound(s, None, p, 0) && View(s.nodes) == map[p := Inode(ROOT_ID, 0, 1, None, false)]
  {
    EmptyTableOk();
    TablePush(EmptyTable(), map[], IdHash(ROOT_ID), p);
    assert IdKeys(s.nodes) == map[p := IdHash(ROOT_ID)] && NameKeys(s.nodes) == map[];
    assert Children(s.nodes, p) == {};
    assert Counted(s.nodes, p, None);
  }

  /** The reference count of a node, and why it is still there. */
  lemma CountMeaning(s: State, root: Ptr, last: nat, p: Ptr)
    requires Sound(s, None, root, last) && p in s.nodes
    ensures s.nodes[p].refctr == (if s.nodes[p].nlookup > 0 then 1 else 0) + |Children(s.nodes, p)|
    ensures s.nodes[p].nlookup > 0 || Children(s.nodes, p) != {}
    ensures forall q | q in Children(s.nodes, p) ::
              q in View(s.nodes) && View(s.nodes)[q].entry.Some? && View(s.nodes)[q].entry.value.0 == s.nodes[p].id
  {
    assert Counted(s.nodes, p, None);
    forall q | q in Children(s.nodes, p)
      ensures q in View(s.nodes) && View(s.nodes)[q].entry.Some? && View(s.nodes)[q].entry.value.0 == s.nodes[p].id {
      assert LinkedNode(s.nodes, q);
      ViewAt(s.nodes, q);
    }
  }

  class Fuse {
    var nodes: Nodes
    var idTable: seq<seq<Ptr>>
    var nameTable: seq<seq<Ptr>>
    var ctr: nat
    var generation: nat
    var aborted: bool
    ghost var root: Ptr

    function Snapshot(): State
      reads this
    {
      State(nodes, idTable, nameTable, aborted)
    }

    ghost predicate Valid()
      reads this
    {
      ctr < IDS && Sound(Snapshot(), None, root, Stamp(generation, ctr))
    }

    method Restore(s: State)
      modifies this`nodes, this`idTable, this`nameTable, this`aborted
      ensures Snapshot() == s
    {
      nodes, idTable, nameTable, aborted := s.nodes, s.idTable, s.nameTable, s.aborted;
    }

    /** The part of `fuse_new` that sets up the table: the kernel knows the root. */
    constructor (p: Ptr)
      ensures Valid() && root == p && View(nodes) == map[p := Inode(ROOT_ID, 0, 1, None, false)]
    {
      ctr, generation, aborted, root := 0, 0, false, p;
      nodes, nameTable := map[p := RootNode()], EmptyTable();
      idTable := Pushed(EmptyTable(), IdHash(ROOT_ID), p);
      new;
      InitialSound(p, Snapshot());
    }

    method Find(parent: nat, name: Name, p: Ptr, ghost q: Ptr) returns (r: Ptr)
      requires Valid() && |nodes| < IDS - 2 && p !in nodes
      requires q in nodes && nodes[q].id == parent
      modifies this
      ensures Valid() && root == old(root) && Stamp(generation, ctr) >= old(Stamp(generation, ctr))
      ensures r != p ==> old(Entry(nodes, r, parent, name))
                         && View(nodes)
                           == old(View(nodes))[r := WithLookups(old(InodeOf(nodes, r)), old(nodes[r].nlookup) + 1)]
      ensures r == p ==>
                (forall o :: !Entry(old(nodes), o, parent, name))
                && (forall o | o in old(nodes) :: old(nodes)[o].id != ctr)
                         && Stamp(generation, ctr) > old(Stamp(generation, ctr))
                         && View(nodes) == old(View(nodes))[p := Inode(ctr, generation, 1, Some((parent, name)), false)]
    {
      var s;
      s, ctr, generation, r := FindNode(Snapshot(), ctr, generation, parent, name, p, q, root);
      Restore(s);
    }

    method Forget(id: nat, n: nat, ghost p: Ptr)
      requires Valid()
      requires id != ROOT_ID ==> p in nodes && nodes[p].id == id && 0 < nodes[p].nlookup && n <= nodes[p].nlookup
      modifies this`nodes, this`idTable, this`nameTable, this`aborted
      ensures Valid()
      ensures id == ROOT_ID ==> nodes == old(nodes)
      ensures id != ROOT_ID ==>
                View(nodes) == Forgotten(old(View(nodes)), p, old(InodeOf(nodes, p)), old(nodes[p].nlookup) - n)
      ensures id != ROOT_ID ==> (p in nodes <==> n < old(nodes[p].nlookup) || old(Others(nodes, p)) != {})
    {
      var s := ForgetNode(Snapshot(), id, n, p, root, Stamp(generation, ctr));
      Restore(s);
    }

    method Remove(dir: nat, name: Name) returns (ghost r: Option<Ptr>)
      requires Valid()
      modifies this`nodes, this`idTable, this`nameTable, this`aborted
      ensures Valid()
      ensures r.None? ==> nodes == old(nodes) && forall p :: !Entry(nodes, p, dir, name)
      ensures r.Some? ==> Entry(old(nodes), r.value, dir, name)
                          && View(nodes) == old(View(nodes))[r.value := WithEntry(old(InodeOf(nodes, r.value)), None)]
    {
      var s;
      s, r := RemoveNode(Snapshot(), dir, name, root, Stamp(generation, ctr));
      Restore(s);
    }

    method Rename(olddir: nat, oldname: Name, newdir: nat, newname: Name, hiding: bool, ghost q: Ptr)
      returns (err: int, ghost r: Option<Ptr>, ghost o: Option<Ptr>)
      requires Valid() && q in nodes && nodes[q].id == newdir && nodes[q].nlookup > 0
      modifies this`nodes, this`idTable, this`nameTable, this`aborted
      ensures Valid()
      ensures if r.Some? then Entry(old(nodes), r.value, olddir, oldname) else forall p ::
                !Entry(old(nodes), p, olddir, oldname)
      ensures if o.Some? then Entry(old(nodes), o.value, newdir, newname) else forall p ::
                !Entry(old(nodes), p, newdir, newname)
      ensures err == if r.Some? && o.Some? && hiding then -EBUSY else 0
      ensures r.None? || err != 0 ==> nodes == old(nodes)
      ensures r.Some? && err == 0 ==>
                View(nodes) == Cleared(old(nodes),
                o)[r.value := Renamed(old(InodeOf(nodes, r.value)), newdir, newname, hiding)]
      ensures r.Some? && err == 0 ==> RenamedView(old(View(nodes)), View(nodes), r.value, o, newdir, newname, hiding)
    {
      var s;
      s, err, r, o := RenameNode(Snapshot(), olddir, oldname, newdir, newname, hiding, q, root, Stamp(generation, ctr));
      Restore(s);
    }
  }
}
