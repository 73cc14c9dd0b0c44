/** The request lists of a session as they are linked (fuse_lowlevel.c): the stores that each step of the
    state machine makes to `next` and `prev`, and the proof that in every interleaving the links are those of
    the two lists of the machine. */
module RequestLists {
  import opened Common
  import opened Requests

  /** `next` and `prev` of the requests in memory and of the list heads. */
  datatype Links = Links(next: map<Ptr, Ptr>, prev: map<Ptr, Ptr>)

  /** The heads of the two lists, `list` and `interrupts` of the session. */
  const LIST: Ptr := 0
  const INTERRUPTS: Ptr := 1

  const EMPTY := Links(map[LIST := LIST, INTERRUPTS := INTERRUPTS], map[LIST := LIST, INTERRUPTS := INTERRUPTS])

  // ----- The stores; None stands for following a link that is not there -----

  /** `list_init_req`. */
  function Inited(l: Links, p: Ptr): Links {
    Links(l.next[p := p], l.prev[p := p])
  }

  /** `list_add_req` in front of `h`. */
  function Added(l: Links, p: Ptr, h: Ptr): Option<Links> {
    if p in l.next && p in l.prev && h in l.prev && l.prev[h] in l.next then
      var prev := l.prev[h];
      Some(Links(l.next[p := h][prev := p], l.prev[p := prev][h := p]))
    else None
  }

  /** `list_del_req`. */
  function Deleted(l: Links, p: Ptr): Option<Links> {
    if p in l.next && p in l.prev && l.prev[p] in l.next && l.next[p] in l.prev then
      var prev, next := l.prev[p], l.next[p];
      Some(Links(l.next[prev := next], l.prev[next := prev]))
    else None
  }

  function Freed(l: Links, p: Ptr): Links {
    Links(l.next - {p}, l.prev - {p})
  }

  // ----- Rings -----

  function After(i: nat, n: nat): nat
    requires i < n
  {
    if i + 1 < n then i + 1 else 0
  }

  ghost predicate Linked(l: Links, p: Ptr, q: Ptr) {
    p in l.next && l.next[p] == q && q in l.prev && l.prev[q] == p
  }

  ghost predicate LinkedAt(l: Links, r: seq<Ptr>, i: nat)
    requires i < |r|
  {
    Linked(l, r[i], r[After(i, |r|)])
  }

  /** From the head `h`, the links run through `list` and back. */
  ghost predicate Ring(l: Links, h: Ptr, list: seq<Ptr>) {
    var r := [h] + list;
    NoDup(r) && forall i {:trigger LinkedAt(l, r, i)} | 0 <= i < |r| :: LinkedAt(l, r, i)
  }

  /** Only links of these differ. */
  ghost predicate OnlyWithin(l: Links, l': Links, members: set<Ptr>) {
    forall p | p !in members :: (p in l.next <==> p in l'.next) && (p in l.next ==> l'.next[p] == l.next[p])
                                && (p in l.prev <==> p in l'.prev) && (p in l.prev ==> l'.prev[p] == l.prev[p])
  }

  ghost function Members(h: Ptr, list: seq<Ptr>): set<Ptr> {
    set p | p in [h] + list
  }

  lemma InitedRing(l: Links, p: Ptr)
    ensures Ring(Inited(l, p), p, []) && OnlyWithin(l, Inited(l, p), {p})
  {
    assert [p] + [] == [p];
  }

  /** Linking in front of the head appends to the ring. */
  lemma AddedRing(l: Links, p: Ptr, h: Ptr, list: seq<Ptr>)
    requires Ring(l, h, list) && p !in [h] + list && p in l.next && p in l.prev
    ensures var o := Added(l, p, h);
            o.Some? && Ring(o.value, h, list + [p]) && OnlyWithin(l, o.value, Members(h, list) + {p})
  {
    var r := [h] + list;
    assert LinkedAt(l, r, |r| - 1);
    var l' := Added(l, p, h).value;
    var r' := [h] + (list + [p]);
    assert r' == r + [p];
    forall i | 0 <= i < |r'| ensures LinkedAt(l', r', i) {
      if i < |r| - 1 {
        assert LinkedAt(l, r, i);
      }
    }
    assert l.prev[h] in r && h in r;
  }

  /** Unlinking a member leaves the ring of the others. */
  lemma DeletedRing(l: Links, h: Ptr, list: seq<Ptr>, k: nat)
    requires Ring(l, h, list) && k < |list|
    ensures var o := Deleted(l, list[k]);
            o.Some? && Ring(o.value, h, Without(list, k)) && OnlyWithin(l, o.value, Members(h, list))
  {
    var r := [h] + list;
    assert r[k + 1] == list[k];
    assert LinkedAt(l, r, k) && LinkedAt(l, r, k + 1);
    RingWithout(l, Deleted(l, list[k]).value, r, k + 1, [h] + Without(list, k));
    assert r[k] in r && r[After(k + 1, |r|)] in r;
  }

  lemma RingWithout(l: Links, l': Links, r: seq<Ptr>, k: nat, r': seq<Ptr>)
    requires NoDup(r) && (forall i {:trigger LinkedAt(l, r, i)} | 0 <= i < |r| :: LinkedAt(l, r, i)) && 0 < k < |r|
    requires r' == r[..k] + r[k + 1..]
    requires var prev, next := r[k - 1], r[After(k, |r|)]; l' == Links(l.next[prev := next], l.prev[next := prev])
    ensures NoDup(r') && forall i {:trigger LinkedAt(l', r', i)} | 0 <= i < |r'| :: LinkedAt(l', r', i)
  {
    forall i | 0 <= i < |r'| ensures r'[i] == r[if i < k then i else i + 1] {
    }
    forall i | 0 <= i < |r'| ensures LinkedAt(l', r', i) {
      var j := if i < k then i else i + 1;
      assert r'[i] == r[j];
      assert LinkedAt(l, r, j);
      var m := After(i, |r'|);
      assert r'[m] == r[if m < k then m else m + 1];
    }
  }

  /** Unlinking a request that is on no list changes nothing, as for an interrupt that is refused. */
  lemma SelfUnlink(l: Links, p: Ptr)
    requires Ring(l, p, [])
    ensures Deleted(l, p) == Some(l)
  {
    var r := [p] + [];
    assert r == [p];
    assert LinkedAt(l, r, 0);
    assert l.next[p := p] == l.next && l.prev[p := p] == l.prev;
  }

  /** A ring of other members is not affected. */
  lemma OtherRing(l: Links, l': Links, members: set<Ptr>, h: Ptr, list: seq<Ptr>)
    requires Ring(l, h, list) && OnlyWithin(l, l', members) && forall p | p in [h] + list :: p !in members
    ensures Ring(l', h, list)
  {
    var r := [h] + list;
    forall i | 0 <= i < |r| ensures LinkedAt(l', r, i) {
      assert LinkedAt(l, r, i);
      assert r[i] in r && r[After(i, |r|)] in r;
    }
  }

  /** The walk of `find_interrupted` and `check_interrupt` from the head along `next`: it follows live links, and
      ends at the first member with the number, or at the head if there is none. */
  method Walk(l: Links, h: Ptr, key: map<Ptr, nat>, id: nat, ghost list: seq<Ptr>) returns (curr: Ptr)
    requires Ring(l, h, list) && forall p | p in list :: p in key
    ensures var i := IndexOf(list, key, id); curr == if i < |list| then list[i] else h
  {
    ghost var r, k := [h] + list, 0;
    assert LinkedAt(l, r, 0);
    curr := l.next[h];
    while curr != h && key[curr] != id
      invariant 0 <= k <= |list| && curr == (if k < |list| then list[k] else h)
      invariant forall j | 0 <= j < k :: key[list[j]] != id
      decreases |list| - k
    {
      assert r[k + 1] == list[k];
      assert LinkedAt(l, r, k + 1);
      curr, k := l.next[curr], k + 1;
      assert k < |list| ==> r[k + 1] == list[k];
    }
    assert k < |list| ==> r[k + 1] == list[k] != r[0];
  }

  // ----- The two lists together -----

  ghost predicate Apart(g: Ptr, a: seq<Ptr>, h: Ptr, b: seq<Ptr>, alone: set<Ptr>) {
    && (forall p | p in [g] + a :: p !in [h] + b && p !in alone)
    && (forall p | p in [h] + b :: p !in alone)
  }

  /** Two rings without common members, and requests linked to themselves. */
  ghost predicate Rings(l: Links, g: Ptr, a: seq<Ptr>, h: Ptr, b: seq<Ptr>, alone: set<Ptr>) {
    Ring(l, g, a) && Ring(l, h, b) && (forall p | p in alone :: Ring(l, p, [])) && Apart(g, a, h, b, alone)
  }

  lemma Swapped(l: Links, g: Ptr, a: seq<Ptr>, h: Ptr, b: seq<Ptr>, alone: set<Ptr>)
    requires Rings(l, g, a, h, b, alone)
    ensures Rings(l, h, b, g, a, alone)
  {
  }

  /** All that is not among `members` stays as it is. */
  lemma AloneStill(l: Links, l': Links, members: set<Ptr>, alone: set<Ptr>)
    requires OnlyWithin(l, l', members) && alone !! members && forall p | p in alone :: Ring(l, p, [])
    ensures forall p | p in alone :: Ring(l', p, [])
  {
    forall p | p in alone ensures Ring(l', p, []) {
      assert [p] + [] == [p];
      OtherRing(l, l', members, p, []);
    }
  }

  lemma InitedRings(l: Links, g: Ptr, a: seq<Ptr>, h: Ptr, b: seq<Ptr>, alone: set<Ptr>, p: Ptr)
    requires Rings(l, g, a, h, b, alone) && p !in [g] + a && p !in [h] + b
    ensures Rings(Inited(l, p), g, a, h, b, alone + {p})
  {
    InitedRing(l, p);
    OtherRing(l, Inited(l, p), {p}, g, a);
    OtherRing(l, Inited(l, p), {p}, h, b);
    AloneStill(l, Inited(l, p), {p}, alone - {p});
  }

  lemma FreedRings(l: Links, g: Ptr, a: seq<Ptr>, h: Ptr, b: seq<Ptr>, alone: set<Ptr>, p: Ptr)
    requires Rings(l, g, a, h, b, alone) && p !in [g] + a && p !in [h] + b
    ensures Rings(Freed(l, p), g, a, h, b, alone - {p})
  {
    OtherRing(l, Freed(l, p), {p}, g, a);
    OtherRing(l, Freed(l, p), {p}, h, b);
    AloneStill(l, Freed(l, p), {p}, alone - {p});
  }

  lemma AddedRings(l: Links, g: Ptr, a: seq<Ptr>, h: Ptr, b: seq<Ptr>, alone: set<Ptr>, p: Ptr)
    requires Rings(l, g, a, h, b, alone) && p in alone
    ensures var o := Added(l, p, g); o.Some? && Rings(o.value, g, a + [p], h, b, alone - {p})
  {
    SelfUnlink(l, p);
    AddedRing(l, p, g, a);
    var l', m := Added(l, p, g).value, Members(g, a) + {p};
    OtherRing(l, l', m, h, b);
    AloneStill(l, l', m, alone - {p});
    assert [g] + (a + [p]) == [g] + a + [p];
  }

  lemma OneLess(g: Ptr, a: seq<Ptr>, k: nat)
    requires NoDup([g] + a) && k < |a|
    ensures a[k] in [g] + a && forall x: Ptr :: x in [g] + Without(a, k) <==> x in [g] + a && x != a[k]
  {
    var r := [g] + a;
    assert r[k + 1] == a[k];
    WithoutMembers(r, k + 1);
    assert Without(r, k + 1) == [g] + Without(a, k);
  }

  lemma DeletedRings(l: Links, g: Ptr, a: seq<Ptr>, h: Ptr, b: seq<Ptr>, alone: set<Ptr>, k: nat)
    requires Rings(l, g, a, h, b, alone) && k < |a|
    ensures var o := Deleted(l, a[k]); o.Some? && Rings(o.value, g, Without(a, k), h, b, alone)
    ensures a[k] !in [g] + Without(a, k) && a[k] !in [h] + b
  {
    OneLess(g, a, k);
    DeletedRing(l, g, a, k);
    var l' := Deleted(l, a[k]).value;
    assert Ring(l', h, b) by {
      OtherRing(l, l', Members(g, a), h, b);
    }
    AloneStill(l, l', Members(g, a), alone);
  }

  // ----- What each step does to the links -----

  function Bind(o: Option<Links>, p: Ptr, h: Ptr): Option<Links> {
    if o.None? then None else Added(o.value, p, h)
  }

  /** `check_interrupt`: the pending interrupt for the request is unlinked and freed, or the first one unlinked
      and linked to itself. */
  function CheckedLinks(l: Links, s: State, u: nat): Option<Links>
    requires Intact(s)
  {
    var i := IndexOf(s.pending, Targets(s), u);
    if s.pending == [] then Some(l)
    else
      var q := s.pending[if i < |s.pending| then i else 0];
      var o := Deleted(l, q);
      if o.None? then None else Some(if i < |s.pending| then Freed(o.value, q) else Inited(o.value, q))
  }

  function InterruptLinks(l: Links, s: State, q: Ptr, id: nat): Option<Links>
    requires Intact(s)
  {
    if IndexOf(s.list, Uniques(s), id) < |s.list| then Some(Inited(l, q))
    else if IndexOf(s.pending, Targets(s), id) < |s.pending| then Some(Freed(Inited(l, q), q))
    else Added(Inited(l, q), q, INTERRUPTS)
  }

  function RefuseLinks(l: Links, q: Ptr): Option<Links> {
    var o := Deleted(l, q);
    if o.None? then None else Some(Freed(o.value, q))
  }

  /** The stores of a step. */
  ghost function LinkStep(l: Links, s: State, a: Action): Option<Links>
    requires Enabled(s, a) && Next(s, a).Ok?
  {
    match a
    case DoArrive(t, p, u) => Bind(CheckedLinks(Inited(l, p), s, u), p, LIST)
    case DoInterrupt(t, q, id) => InterruptLinks(l, s, q, id)
    case DoRefuse(t) => RefuseLinks(l, s.threads[t].q)
    case DoUnlist(t) => Deleted(l, s.threads[t].p)
    case DoFinish(t) => Some(if s.threads[t].ctr != 0 then l else Freed(l, s.threads[t].p))
    case DoDrop(t) =>
      var p, q := s.threads[t].p, s.threads[t].q;
      Some(Freed(if p in s.reqs && s.reqs[p].ctr == 1 then Freed(l, p) else l, q))
    case _ => Some(l)
  }

  /** Memory of a new request is neither that of another one nor that of a list head. */
  ghost predicate Allocated(s: State, a: Action) {
    && (a.DoArrive? ==> a.p !in s.notes && a.p > INTERRUPTS)
    && (a.DoInterrupt? ==> a.q !in s.born && a.q > INTERRUPTS)
  }

  ghost predicate Separate(s: State) {
    && (forall p | p in s.born :: p !in s.notes && p > INTERRUPTS)
    && (forall q | q in s.notes :: q > INTERRUPTS)
  }

  ghost function Alone(s: State): set<Ptr> {
    set q | q in s.notes && s.notes[q].fate.Refused?
  }

  /** The links are those of the two lists, and those of an interrupt that is to be refused point to itself. */
  ghost predicate LinksOk(l: Links, s: State) {
    Separate(s) && Rings(l, LIST, s.list, INTERRUPTS, s.pending, Alone(s))
  }

  /** A smaller set of requests linked to themselves. */
  lemma FewerAlone(l: Links, g: Ptr, a: seq<Ptr>, h: Ptr, b: seq<Ptr>, alone: set<Ptr>, fewer: set<Ptr>)
    requires Rings(l, g, a, h, b, alone) && fewer <= alone
    ensures Rings(l, g, a, h, b, fewer)
  {
  }

  lemma NewSeparate(s: State, s': State)
    requires Separate(s)
    requires forall p | p in s'.born :: p in s.born || (p !in s.notes && p !in s'.notes && p > INTERRUPTS)
    requires forall q | q in s'.notes :: q in s.notes || (q !in s.born && q !in s'.born && q > INTERRUPTS)
    ensures Separate(s')
  {
  }

  lemma ArriveNames(s: State, t: Tid, p: Ptr, u: nat, s': State)
    requires ListsOk(s) && Arrive(s, t, p, u) == Ok(s')
    ensures s'.notes.Keys == s.notes.Keys && s'.born.Keys == s.born.Keys + {p}
  {
  }

  /** Members of the lists are not heads, and no list has members of the other. */
  lemma Strangers(s: State, p: Ptr)
    requires Inv(s) && Separate(s)
    ensures p !in s.born && p > INTERRUPTS ==> p !in [LIST] + s.list
    ensures p !in s.notes && p > INTERRUPTS ==> p !in [INTERRUPTS] + s.pending
  {
  }

  // ----- Arrival -----

  function LeftPending(s: State, u: nat): seq<Ptr>
    requires Intact(s)
  {
    var i := IndexOf(s.pending, Targets(s), u);
    if s.pending == [] then [] else Without(s.pending, if i < |s.pending| then i else 0)
  }

  function LeftAlone(s: State, u: nat, alone: set<Ptr>): set<Ptr>
    requires Intact(s)
  {
    if s.pending != [] && IndexOf(s.pending, Targets(s), u) == |s.pending| then alone + {s.pending[0]} else alone
  }

  lemma CheckedRings(l: Links, s: State, u: nat, alone: set<Ptr>)
    requires Intact(s) && Rings(l, LIST, s.list, INTERRUPTS, s.pending, alone)
    ensures var o := CheckedLinks(l, s, u);
            o.Some? && Rings(o.value, LIST, s.list, INTERRUPTS, LeftPending(s, u), LeftAlone(s, u, alone))
  {
    if s.pending != [] {
      var i := IndexOf(s.pending, Targets(s), u);
      var k := if i < |s.pending| then i else 0;
      var q, rest := s.pending[k], Without(s.pending, k);
      Swapped(l, LIST, s.list, INTERRUPTS, s.pending, alone);
      DeletedRings(l, INTERRUPTS, s.pending, LIST, s.list, alone, k);
      var l' := Deleted(l, q).value;
      Swapped(l', INTERRUPTS, rest, LIST, s.list, alone);
      if i < |s.pending| {
        FreedRings(l', LIST, s.list, INTERRUPTS, rest, alone, q);
        assert q in [INTERRUPTS] + s.pending;
        assert alone - {q} == alone;
      } else {
        InitedRings(l', LIST, s.list, INTERRUPTS, rest, alone, q);
      }
    }
  }

  lemma ArriveLists(s: State, t: Tid, p: Ptr, u: nat, s': State)
    requires ListsOk(s) && Arrive(s, t, p, u) == Ok(s')
    ensures s'.list == s.list + [p] && s'.pending == LeftPending(s, u)
  {
    if s.pending != [] {
      assert Without(s.pending, 0) == s.pending[1..];
    }
  }

  /** Of the interrupts, the one that is refused is linked to itself from then on. */
  lemma ArriveAlone(s: State, t: Tid, p: Ptr, u: nat, s': State)
    requires ListsOk(s) && p !in s.notes && Arrive(s, t, p, u) == Ok(s')
    ensures Alone(s') == LeftAlone(s, u, Alone(s) + {p}) - {p}
  {
    if s.pending != [] {
      var i := IndexOf(s.pending, Targets(s), u);
      var q := s.pending[if i < |s.pending| then i else 0];
      assert q in s.pending && s.notes[q].fate == Waiting && q != p;
      assert s'.notes == s.notes[q := s'.notes[q]];
    }
  }

  lemma ArriveLinked(l: Links, s: State, t: Tid, p: Ptr, u: nat, s': State)
    requires Inv(s) && LinksOk(l, s) && Enabled(s, DoArrive(t, p, u)) && Allocated(s, DoArrive(t, p, u))
             && Arrive(s, t, p, u) == Ok(s')
    ensures var o := LinkStep(l, s, DoArrive(t, p, u)); o.Some? && LinksOk(o.value, s')
  {
    Strangers(s, p);
    InitedRings(l, LIST, s.list, INTERRUPTS, s.pending, Alone(s), p);
    var alone := Alone(s) + {p};
    CheckedRings(Inited(l, p), s, u, alone);
    var l' := CheckedLinks(Inited(l, p), s, u).value;
    AddedRings(l', LIST, s.list, INTERRUPTS, LeftPending(s, u), LeftAlone(s, u, alone), p);
    ArriveLists(s, t, p, u, s');
    ArriveAlone(s, t, p, u, s');
    ArriveNames(s, t, p, u, s');
    NewSeparate(s, s');
  }

  // ----- The other steps -----

  function LongerPending(s: State, q: Ptr, id: nat): seq<Ptr>
    requires Intact(s)
  {
    if IndexOf(s.list, Uniques(s), id) < |s.list| || IndexOf(s.pending, Targets(s), id) < |s.pending| then s.pending
    else s.pending + [q]
  }

  lemma InterruptEffect(s: State, t: Tid, q: Ptr, id: nat, s': State)
    requires ListsOk(s) && q !in s.notes && Interrupt(s, t, q, id) == Ok(s')
    ensures s'.list == s.list && s'.pending == LongerPending(s, q, id) && Alone(s') == Alone(s)
    ensures s'.born == s.born && s'.notes.Keys == s.notes.Keys + {q}
  {
    var n := s'.notes[q];
    assert s'.notes == s.notes[q := n] && !n.fate.Refused?;
  }

  lemma InterruptRings(l: Links, s: State, q: Ptr, id: nat, alone: set<Ptr>)
    requires Intact(s) && Rings(l, LIST, s.list, INTERRUPTS, s.pending, alone)
    requires q !in [LIST] + s.list && q !in [INTERRUPTS] + s.pending && q !in alone
    ensures var o := InterruptLinks(l, s, q, id);
              o.Some? && Rings(o.value, LIST, s.list, INTERRUPTS, LongerPending(s, q, id), alone)
  {
    var more, l' := alone + {q}, Inited(l, q);
    InitedRings(l, LIST, s.list, INTERRUPTS, s.pending, alone, q);
    assert more - {q} == alone;
    if IndexOf(s.list, Uniques(s), id) < |s.list| {
      FewerAlone(l', LIST, s.list, INTERRUPTS, s.pending, more, alone);
    } else if IndexOf(s.pending, Targets(s), id) < |s.pending| {
      FreedRings(l', LIST, s.list, INTERRUPTS, s.pending, more, q);
    } else {
      Swapped(l', LIST, s.list, INTERRUPTS, s.pending, more);
      AddedRings(l', INTERRUPTS, s.pending, LIST, s.list, more, q);
      Swapped(Added(l', q, INTERRUPTS).value, INTERRUPTS, s.pending + [q], LIST, s.list, alone);
    }
  }

  lemma InterruptLinked(l: Links, s: State, t: Tid, q: Ptr, id: nat, s': State)
    requires Inv(s) && LinksOk(l, s) && Enabled(s, DoInterrupt(t, q, id)) && Allocated(s, DoInterrupt(t, q, id))
    requires Interrupt(s, t, q, id) == Ok(s')
    ensures var o := LinkStep(l, s, DoInterrupt(t, q, id)); o.Some? && LinksOk(o.value, s')
  {
    Strangers(s, q);
    InterruptRings(l, s, q, id, Alone(s));
    InterruptEffect(s, t, q, id, s');
    NewSeparate(s, s');
  }

  lemma RefuseLinked(l: Links, s: State, t: Tid, s': State)
    requires Inv(s) && LinksOk(l, s) && Enabled(s, DoRefuse(t)) && Refuse(s, t) == Ok(s')
    ensures var o := LinkStep(l, s, DoRefuse(t)); o.Some? && LinksOk(o.value, s')
  {
    assert ThreadOk(s, t);
    var q := s.threads[t].q;
    assert q in Alone(s);
    SelfUnlink(l, q);
    FreedRings(l, LIST, s.list, INTERRUPTS, s.pending, Alone(s), q);
    assert Alone(s') == Alone(s) - {q};
    NewSeparate(s, s');
  }

  lemma {:induction false} RemovedAt(list: seq<Ptr>, p: Ptr) returns (k: nat)
    requires p in list
    ensures k < |list| && list[k] == p && Removed(list, p) == Without(list, k)
  {
    if list[0] == p {
      k := 0;
    } else {
      assert list == [list[0]] + list[1..];
      k := RemovedAt(list[1..], p);
      assert Without(list, k + 1) == [list[0]] + Without(list[1..], k);
      k := k + 1;
    }
  }

  lemma UnlistLinked(l: Links, s: State, t: Tid, s': State)
    requires Inv(s) && LinksOk(l, s) && Enabled(s, DoUnlist(t)) && Unlist(s, t) == Ok(s')
    ensures var o := LinkStep(l, s, DoUnlist(t)); o.Some? && LinksOk(o.value, s')
  {
    assert ThreadOk(s, t);
    var k := RemovedAt(s.list, s.threads[t].p);
    DeletedRings(l, LIST, s.list, INTERRUPTS, s.pending, Alone(s), k);
  }

  lemma FreedStill(l: Links, s: State, p: Ptr)
    requires Inv(s) && LinksOk(l, s) && p !in s.list && p !in s.pending && p !in Alone(s) && p > INTERRUPTS
    ensures LinksOk(Freed(l, p), s)
  {
    FreedRings(l, LIST, s.list, INTERRUPTS, s.pending, Alone(s), p);
    assert Alone(s) - {p} == Alone(s);
  }

  lemma FinishLinked(l: Links, s: State, t: Tid, s': State)
    requires Inv(s) && LinksOk(l, s) && Enabled(s, DoFinish(t)) && Finish(s, t) == Ok(s')
    ensures var o := LinkStep(l, s, DoFinish(t)); o.Some? && LinksOk(o.value, s')
  {
    assert ThreadOk(s, t);
    if s.threads[t].ctr == 0 {
      FreedStill(l, s, s.threads[t].p);
    }
  }

  /** The request that an interrupter destroys is off the list. */
  lemma LastHolder(s: State, t: Tid)
    requires Inv(s) && t in s.threads && s.threads[t].Calling?
    ensures var p := s.threads[t].p; p in s.reqs && p in s.born && (s.reqs[p].ctr == 1 ==> p !in s.list)
  {
    var p := s.threads[t].p;
    assert ThreadOk(s, t);
    assert ReqOk(s, p);
    assert t in Holders(s.threads, p);
    CardWithout(Holders(s.threads, p), t);
  }

  lemma DropLinked(l: Links, s: State, t: Tid, s': State)
    requires Inv(s) && LinksOk(l, s) && Enabled(s, DoDrop(t)) && Drop(s, t) == Ok(s')
    ensures var o := LinkStep(l, s, DoDrop(t)); o.Some? && LinksOk(o.value, s')
  {
    assert ThreadOk(s, t);
    var p, q := s.threads[t].p, s.threads[t].q;
    LastHolder(s, t);
    var l' := if s.reqs[p].ctr == 1 then Freed(l, p) else l;
    if s.reqs[p].ctr == 1 {
      FreedStill(l, s, p);
    }
    FreedStill(l', s, q);
    assert Alone(s') == Alone(s);
    NewSeparate(s, s');
  }

  /** Every step follows only links that are there, and keeps the links those of the two lists. */
  lemma LinkStepOk(l: Links, s: State, a: Action, s': State)
    requires Inv(s) && LinksOk(l, s) && Enabled(s, a) && Allocated(s, a) && Next(s, a) == Ok(s')
    ensures var o := LinkStep(l, s, a); o.Some? && LinksOk(o.value, s')
  {
    match a
    case DoArrive(t, p, u) => ArriveLinked(l, s, t, p, u, s');
    case DoInterrupt(t, q, id) => InterruptLinked(l, s, t, q, id, s');
    case DoRefuse(t) => RefuseLinked(l, s, t, s');
    case DoUnlist(t) => UnlistLinked(l, s, t, s');
    case DoFinish(t) => FinishLinked(l, s, t, s');
    case DoDrop(t) => DropLinked(l, s, t, s');
    case _ => SameAlone(s, a, s');
  }

  lemma SameAlone(s: State, a: Action, s': State)
    requires Enabled(s, a) && Next(s, a) == Ok(s')
             && (a.DoSetFunc? || a.DoClear? || a.DoLock? || a.DoMark? || a.DoCall?)
    ensures s'.notes == s.notes && s'.list == s.list && s'.pending == s.pending && s'.born == s.born
  {
  }

  // ----- Links and memory -----

  ghost function Kept(s: State): set<Ptr> {
    set q | q in s.notes && InMemory(s, q)
  }

  /** The list heads and all requests that are in memory. */
  ghost function Memory(s: State): set<Ptr> {
    {LIST, INTERRUPTS} + s.reqs.Keys + Kept(s)
  }

  /** Exactly what is in memory has links. */
  ghost predicate LinksInMemory(l: Links, s: State) {
    l.next.Keys == Memory(s) && l.prev.Keys == Memory(s)
  }

  /** The request that a step brings into memory. */
  function Fresh(a: Action): set<Ptr> {
    match a
    case DoArrive(t, p, u) => {p}
    case DoInterrupt(t, q, id) => {q}
    case _ => {}
  }

  function Matched(s: State, u: nat): set<Ptr>
    requires Intact(s)
  {
    var i := IndexOf(s.pending, Targets(s), u);
    if i < |s.pending| then {s.pending[i]} else {}
  }

  predicate MergedAway(s: State, id: nat)
    requires Intact(s)
  {
    IndexOf(s.list, Uniques(s), id) == |s.list| && IndexOf(s.pending, Targets(s), id) < |s.pending|
  }

  /** The requests that a step frees. */
  ghost function Gone(s: State, a: Action): set<Ptr>
    requires Enabled(s, a) && Next(s, a).Ok?
  {
    match a
    case DoArrive(t, p, u) => Matched(s, u)
    case DoInterrupt(t, q, id) => if MergedAway(s, id) then {q} else {}
    case DoRefuse(t) => {s.threads[t].q}
    case DoFinish(t) => if s.threads[t].ctr == 0 then {s.threads[t].p} else {}
    case DoDrop(t) => if s.reqs[s.threads[t].p].ctr == 1 then {s.threads[t].p, s.threads[t].q} else {s.threads[t].q}
    case _ => {}
  }

  ghost predicate KeysAre(l: Links, keys: set<Ptr>) {
    l.next.Keys == keys && l.prev.Keys == keys
  }

  lemma InitedKeys(l: Links, p: Ptr, keys: set<Ptr>)
    requires KeysAre(l, keys)
    ensures KeysAre(Inited(l, p), keys + {p})
  {
  }

  lemma FreedKeys(l: Links, p: Ptr, keys: set<Ptr>)
    requires KeysAre(l, keys)
    ensures KeysAre(Freed(l, p), keys - {p})
  {
  }

  lemma AddedKeys(l: Links, p: Ptr, h: Ptr, keys: set<Ptr>)
    requires KeysAre(l, keys) && Added(l, p, h).Some?
    ensures KeysAre(Added(l, p, h).value, keys)
  {
    assert p in keys && h in keys && l.prev[h] in keys;
  }

  lemma DeletedKeys(l: Links, p: Ptr, keys: set<Ptr>)
    requires KeysAre(l, keys) && Deleted(l, p).Some?
    ensures KeysAre(Deleted(l, p).value, keys) && p in keys
  {
    assert l.prev[p] in keys && l.next[p] in keys;
  }

  lemma CheckedKeys(l: Links, s: State, u: nat, keys: set<Ptr>)
    requires Intact(s) && KeysAre(l, keys) && CheckedLinks(l, s, u).Some?
    ensures KeysAre(CheckedLinks(l, s, u).value, keys - Matched(s, u))
  {
    if s.pending != [] {
      var i := IndexOf(s.pending, Targets(s), u);
      var q := s.pending[if i < |s.pending| then i else 0];
      DeletedKeys(l, q, keys);
      var l' := Deleted(l, q).value;
      if i < |s.pending| {
        FreedKeys(l', q, keys);
      } else {
        InitedKeys(l', q, keys);
        assert keys + {q} == keys;
      }
    } else {
      assert keys - {} == keys;
    }
  }

  lemma ArriveKeys(l: Links, s: State, p: Ptr, u: nat, keys: set<Ptr>)
    requires Intact(s) && KeysAre(l, keys) && Bind(CheckedLinks(Inited(l, p), s, u), p, LIST).Some?
    ensures KeysAre(Bind(CheckedLinks(Inited(l, p), s, u), p, LIST).value, keys + {p} - Matched(s, u))
  {
    InitedKeys(l, p, keys);
    CheckedKeys(Inited(l, p), s, u, keys + {p});
    AddedKeys(CheckedLinks(Inited(l, p), s, u).value, p, LIST, keys + {p} - Matched(s, u));
  }

  lemma InterruptKeys(l: Links, s: State, q: Ptr, id: nat, keys: set<Ptr>)
    requires Intact(s) && KeysAre(l, keys) && InterruptLinks(l, s, q, id).Some?
    ensures KeysAre(InterruptLinks(l, s, q, id).value, keys + {q} - if MergedAway(s, id) then {q} else {})
  {
    InitedKeys(l, q, keys);
    FreedKeys(Inited(l, q), q, keys + {q});
    assert keys + {q} - {} == keys + {q};
    if !MergedAway(s, id) && IndexOf(s.list, Uniques(s), id) == |s.list| {
      AddedKeys(Inited(l, q), q, INTERRUPTS, keys + {q});
    }
  }

  lemma DropKeys(l: Links, p: Ptr, q: Ptr, last: bool, keys: set<Ptr>)
    requires KeysAre(l, keys)
    ensures KeysAre(Freed(if last then Freed(l, p) else l, q), keys - if last then {p, q} else {q})
  {
    FreedKeys(l, p, keys);
    FreedKeys(if last then Freed(l, p) else l, q, if last then keys - {p} else keys);
    assert keys - {p} - {q} == keys - {p, q};
  }

  /** The links that a step leaves. */
  lemma StepKeys(l: Links, s: State, a: Action, keys: set<Ptr>)
    requires Enabled(s, a) && Next(s, a).Ok? && KeysAre(l, keys) && LinkStep(l, s, a).Some?
    ensures KeysAre(LinkStep(l, s, a).value, keys + Fresh(a) - Gone(s, a))
  {
    assert keys + {} - {} == keys;
    match a
    case DoArrive(t, p, u) => ArriveKeys(l, s, p, u, keys);
    case DoInterrupt(t, q, id) => InterruptKeys(l, s, q, id, keys);
    case DoRefuse(t) =>
      DeletedKeys(l, s.threads[t].q, keys);
      FreedKeys(Deleted(l, s.threads[t].q).value, s.threads[t].q, keys);
      assert keys + {} == keys;
    case DoUnlist(t) => DeletedKeys(l, s.threads[t].p, keys);
    case DoFinish(t) =>
      FreedKeys(l, s.threads[t].p, keys);
      assert keys + {} == keys;
    case DoDrop(t) =>
      DropKeys(l, s.threads[t].p, s.threads[t].q, s.reqs[s.threads[t].p].ctr == 1, keys);
      assert keys + {} == keys;
    case _ =>
  }

  lemma ArriveKept(s: State, t: Tid, p: Ptr, u: nat, s': State)
    requires ListsOk(s) && Arrive(s, t, p, u) == Ok(s')
    ensures Kept(s') == Kept(s) - Matched(s, u) && s'.reqs.Keys == s.reqs.Keys + {p}
  {
    if s.pending != [] {
      var i := IndexOf(s.pending, Targets(s), u);
      var q := s.pending[if i < |s.pending| then i else 0];
      assert q in s.pending && s.notes[q].fate == Waiting;
      assert s'.notes == s.notes[q := s'.notes[q]];
    }
  }

  /** A step that changes one interrupt. */
  lemma OneKept(s: State, s': State, q: Ptr)
    requires q in s'.notes && s'.notes == s.notes[q := s'.notes[q]]
    ensures Kept(s') == if InMemory(s', q) then Kept(s) + {q} else Kept(s) - {q}
  {
  }

  lemma InterruptKept(s: State, t: Tid, q: Ptr, id: nat, s': State)
    requires ListsOk(s) && Interrupt(s, t, q, id) == Ok(s')
    ensures s'.reqs.Keys == s.reqs.Keys && Kept(s') == if MergedAway(s, id) then Kept(s) - {q} else Kept(s) + {q}
  {
    OneKept(s, s', q);
  }

  /** What is in memory after a step. */
  lemma StepMemory(s: State, a: Action, s': State)
    requires Inv(s) && Separate(s) && Enabled(s, a) && Allocated(s, a) && Next(s, a) == Ok(s')
    ensures Memory(s') == Memory(s) + Fresh(a) - Gone(s, a)
  {
    match a
    case DoArrive(t, p, u) => ArriveMemory(s, t, p, u, s');
    case DoInterrupt(t, q, id) => InterruptMemory(s, t, q, id, s');
    case DoRefuse(t) => RefuseMemory(s, t, s');
    case DoFinish(t) => FinishMemory(s, t, s');
    case DoDrop(t) => DropKept(s, t, s');
    case _ => SameMemory(s, a, s');
  }

  lemma MatchedApart(s: State, p: Ptr, u: nat)
    requires Inv(s) && Separate(s) && p !in s.notes
    ensures Matched(s, u) !! s.reqs.Keys + {p} + {LIST, INTERRUPTS}
  {
    forall q | q in Matched(s, u) ensures q !in s.reqs && q != p && q > INTERRUPTS {
      assert q in s.pending;
    }
  }

  lemma ArriveMemory(s: State, t: Tid, p: Ptr, u: nat, s': State)
    requires Inv(s) && Separate(s) && p !in s.notes && Arrive(s, t, p, u) == Ok(s')
    ensures Memory(s') == Memory(s) + {p} - Matched(s, u)
  {
    ArriveKept(s, t, p, u, s');
    MatchedApart(s, p, u);
  }

  lemma InterruptMemory(s: State, t: Tid, q: Ptr, id: nat, s': State)
    requires Inv(s) && Separate(s) && q !in s.born && q > INTERRUPTS && Interrupt(s, t, q, id) == Ok(s')
    ensures Memory(s') == Memory(s) + {q} - if MergedAway(s, id) then {q} else {}
  {
    InterruptKept(s, t, q, id, s');
  }

  lemma RefuseMemory(s: State, t: Tid, s': State)
    requires Inv(s) && Separate(s) && Enabled(s, DoRefuse(t)) && Refuse(s, t) == Ok(s')
    ensures Memory(s') == Memory(s) - {s.threads[t].q}
  {
    assert ThreadOk(s, t);
    OneKept(s, s', s.threads[t].q);
  }

  lemma FinishMemory(s: State, t: Tid, s': State)
    requires Inv(s) && Separate(s) && Enabled(s, DoFinish(t)) && Finish(s, t) == Ok(s')
    ensures Memory(s') == Memory(s) - Gone(s, DoFinish(t))
  {
    assert ThreadOk(s, t);
    assert Kept(s') == Kept(s);
  }

  lemma DropKept(s: State, t: Tid, s': State)
    requires Inv(s) && Separate(s) && Enabled(s, DoDrop(t)) && Drop(s, t) == Ok(s')
    ensures Memory(s') == Memory(s) - Gone(s, DoDrop(t))
  {
    assert ThreadOk(s, t);
    OneKept(s, s', s.threads[t].q);
  }

  lemma SameMemory(s: State, a: Action, s': State)
    requires Inv(s) && Enabled(s, a) && Next(s, a) == Ok(s')
    requires a.DoSetFunc? || a.DoClear? || a.DoLock? || a.DoMark? || a.DoCall? || a.DoUnlist?
    ensures Memory(s') == Memory(s)
  {
    assert s'.reqs.Keys == s.reqs.Keys && s'.notes == s.notes;
    assert Kept(s') == Kept(s);
  }

  /** Every step keeps the links those of what is in memory. */
  lemma MemoryStep(l: Links, s: State, a: Action, s': State)
    requires Inv(s) && Separate(s) && LinksInMemory(l, s) && Enabled(s, a) && Allocated(s, a) && Next(s, a) == Ok(s')
    requires LinkStep(l, s, a).Some?
    ensures LinksInMemory(LinkStep(l, s, a).value, s')
  {
    StepKeys(l, s, a, Memory(s));
    StepMemory(s, a, s');
  }

  // ----- Runs -----

  /** `s'` and `l'` are reached from `s` and `l` by these steps. */
  ghost predicate LinkedRun(s: State, l: Links, steps: seq<Action>, s': State, l': Links)
    decreases |steps|
  {
    if steps == [] then s' == s && l' == l
    else
      && Enabled(s, steps[0]) && Allocated(s, steps[0]) && Next(s, steps[0]).Ok? && LinkStep(l, s, steps[0]).Some?
      && LinkedRun(Next(s, steps[0]).s, LinkStep(l, s, steps[0]).value, steps[1..], s', l')
  }

  lemma {:induction false} RunKeepsLinks(s: State, l: Links, steps: seq<Action>, s': State, l': Links)
    requires Inv(s) && LinksOk(l, s) && LinksInMemory(l, s) && LinkedRun(s, l, steps, s', l')
    ensures Inv(s') && LinksOk(l', s') && LinksInMemory(l', s')
    decreases |steps|
  {
    if steps != [] {
      var n := Next(s, steps[0]).s;
      StepOk(s, steps[0], n);
      LinkStepOk(l, s, steps[0], n);
      MemoryStep(l, s, steps[0], n);
      RunKeepsLinks(n, LinkStep(l, s, steps[0]).value, steps[1..], s', l');
    }
  }

  /** In every interleaving the two lists of the machine are rings of the links, exactly what is in memory has
      links, and the next step, whatever it is, follows no link that is not there. */
  lemma ListsAreRings(steps: seq<Action>, s: State, l: Links)
    requires LinkedRun(START, EMPTY, steps, s, l)
    ensures Ring(l, LIST, s.list) && Ring(l, INTERRUPTS, s.pending) && LinksInMemory(l, s)
    ensures forall a | Enabled(s, a) && Allocated(s, a) :: Next(s, a).Ok? && LinkStep(l, s, a).Some?
  {
    Beginning();
    RunKeepsLinks(START, EMPTY, steps, s, l);
    forall a | Enabled(s, a) && Allocated(s, a) ensures Next(s, a).Ok? && LinkStep(l, s, a).Some? {
      StepFollows(l, s, a);
    }
  }

  lemma Beginning()
    ensures Inv(START) && LinksOk(EMPTY, START) && LinksInMemory(EMPTY, START)
  {
    assert [LIST] + [] == [LIST] && [INTERRUPTS] + [] == [INTERRUPTS];
  }

  lemma StepFollows(l: Links, s: State, a: Action)
    requires Inv(s) && LinksOk(l, s) && Enabled(s, a) && Allocated(s, a)
    ensures Next(s, a).Ok? && LinkStep(l, s, a).Some?
  {
    var n := if Next(s, a).Ok? then Next(s, a).s else s;
    StepOk(s, a, n);
    LinkStepOk(l, s, a, n);
  }
}
