/** POSIX ACL descriptors (acls.c): the validity check, sorting, and inheritance by a new file. */
module PosixAcl {

  const USER_OBJ := 1
  const USER := 2
  const GROUP_OBJ := 4
  const GROUP := 8
  const MASK := 16
  const OTHER := 32
  const POSIX_VERSION := 2
  const NO_ID: int := 0xffff_ffff

  type u32 = x: int | 0 <= x <= NO_ID

  /** Three permission bits. */
  datatype Perms = Perms(r: bool, w: bool, x: bool) {
    function And(p: Perms): Perms { Perms(r && p.r, w && p.w, x && p.x) }
    function Or(p: Perms): Perms { Perms(r || p.r, w || p.w, x || p.x) }
    function Without(p: Perms): Perms { Perms(r && !p.r, w && !p.w, x && !p.x) }
    predicate Within(p: Perms) { (r ==> p.r) && (w ==> p.w) && (x ==> p.x) }
  }

  const NONE := Perms(false, false, false)

  /** A mode: the special bits and the three classes. */
  datatype Mode = Mode(special: Perms, owner: Perms, group: Perms, other: Perms)

  const NO_MODE := Mode(NONE, NONE, NONE, NONE)

  /** An ACE; `extra` tells that its permission field has bits beyond the three. */
  datatype Ace = Ace(tag: nat, perms: Perms, extra: bool, id: u32)

  // ----- What a list of ACEs has to be, and what it means -----

  /** Order by tag, then id. */
  predicate Less(a: Ace, b: Ace) {
    a.tag < b.tag || (a.tag == b.tag && a.id < b.id)
  }

  predicate KnownTag(t: nat) {
    t == USER_OBJ || t == USER || t == GROUP_OBJ || t == GROUP || t == MASK || t == OTHER
  }

  /** Named users and groups carry an id, the other tags do not. */
  predicate GoodAce(a: Ace) {
    KnownTag(a.tag) && !a.extra && (a.id == NO_ID <==> a.tag != USER && a.tag != GROUP)
  }

  ghost predicate StrictlySorted(s: seq<Ace>) {
    forall i, j | 0 <= i < j < |s| :: Less(s[i], s[j])
  }

  ghost predicate GoodList(s: seq<Ace>) {
    (forall a | a in s :: GoodAce(a)) && StrictlySorted(s)
  }

  predicate HasTag(s: seq<Ace>, t: nat) {
    exists a | a in s :: a.tag == t
  }

  /** The tags present.  Each known tag is one bit, so the bit mask of the source is this set. */
  function TagsOf(s: seq<Ace>): set<nat> {
    set a | a in s :: a.tag
  }

  /** One ACE entering the permission bits of a mode: the owner's and others' are added, the
      group's are replaced. */
  function ModeStep(mode: Mode, a: Ace): Mode {
    if a.tag == USER_OBJ then mode.(owner := mode.owner.Or(a.perms))
    else if a.tag == GROUP_OBJ || a.tag == MASK then mode.(group := a.perms)
    else if a.tag == OTHER then mode.(other := mode.other.Or(a.perms))
    else mode
  }

  function ModeFrom(mode: Mode, s: seq<Ace>): Mode {
    if s == [] then mode else ModeStep(ModeFrom(mode, s[..|s| - 1]), s[|s| - 1])
  }

  function Count(s: seq<Ace>, t: nat): nat {
    if s == [] then 0 else Count(s[..|s| - 1], t) + if s[|s| - 1].tag == t then 1 else 0
  }

  /** In a good list a tag without ids appears at most once. */
  lemma {:induction false} CountGood(s: seq<Ace>, t: nat)
    requires GoodList(s) && KnownTag(t) && t != USER && t != GROUP
    ensures Count(s, t) == if HasTag(s, t) then 1 else 0
  {
    if s != [] {
      var n := |s| - 1;
      assert s == s[..n] + [s[n]];
      CountGood(s[..n], t);
      assert s[n] in s;
    }
  }

  // ----- The validity check -----

  /** The running checks of one half (access or default) of a descriptor. */
  datatype Check = Check(previous: nat, previousid: u32, tagsset: set<nat>, mode: Mode, owners: nat, groups: nat,
                         others: nat)

  function Seen(s: seq<Ace>): Check {
    Check(if s == [] then 0 else s[|s| - 1].tag, if s == [] then 0 else s[|s| - 1].id,
          TagsOf(s), ModeFrom(NO_MODE, s), Count(s, USER_OBJ), Count(s, GROUP_OBJ), Count(s, OTHER))
  }

  /** What the checks record after one more ACE. */
  lemma SeenExtended(s: seq<Ace>, a: Ace)
    ensures var c := Seen(s);
            Seen(s + [a]) == Check(a.tag, a.id, c.tagsset + {a.tag}, ModeStep(c.mode, a),
                                   c.owners + (if a.tag == USER_OBJ then 1 else 0),
                                   c.groups + (if a.tag == GROUP_OBJ then 1 else 0),
                                   c.others + (if a.tag == OTHER then 1 else 0))
  {
    var s' := s + [a];
    assert s'[..|s'| - 1] == s;
    assert forall x :: x in s' <==> x in s || x == a;
  }

  /** The local tests on one ACE decide whether the list stays good. */
  lemma GoodExtended(s: seq<Ace>, a: Ace)
    requires GoodList(s)
    ensures var c := Seen(s);
            GoodList(s + [a])
            <==> && GoodAce(a)
                 && (c.previous < a.tag || (c.previous == a.tag && c.previousid < a.id))
                 && (a.tag == USER_OBJ ==> c.owners == 0) && (a.tag == GROUP_OBJ ==> c.groups == 0)
                 && (a.tag == OTHER ==> c.others == 0)
  {
    ExtendGood(s, a);
    if GoodList(s + [a]) {
      CountExtended(s, a);
    }
  }

  /** The loop body of `ntfs_valid_posix`. */
  method CheckAce(chk: Check, a: Ace, ghost s: seq<Ace>) returns (chk': Check, ok: bool)
    requires chk == Seen(s)
    ensures chk' == Seen(s + [a])
    ensures GoodList(s) ==> (ok <==> GoodList(s + [a]))
  {
    SeenExtended(s, a);
    if GoodList(s) {
      GoodExtended(s, a);
    }
    ok := true;
    chk' := chk.(tagsset := chk.tagsset + {a.tag});
    if a.extra {
      ok := false;
    }
    if a.tag < chk.previous || (a.tag == chk.previous && a.id <= chk.previousid) {
      ok := false;
    }
    chk' := chk'.(previous := a.tag, previousid := a.id);
    if a.tag == USER_OBJ {
      if chk.owners != 0 || a.id != NO_ID {
        ok := false;
      }
      chk' := chk'.(owners := chk.owners + 1, mode := chk.mode.(owner := chk.mode.owner.Or(a.perms)));
    } else if a.tag == GROUP_OBJ {
      if chk.groups != 0 || a.id != NO_ID {
        ok := false;
      }
      chk' := chk'.(groups := chk.groups + 1, mode := chk.mode.(group := a.perms));
    } else if a.tag == OTHER {
      if chk.others != 0 || a.id != NO_ID {
        ok := false;
      }
      chk' := chk'.(others := chk.others + 1, mode := chk.mode.(other := chk.mode.other.Or(a.perms)));
    } else if a.tag == USER || a.tag == GROUP {
      if a.id == NO_ID {
        ok := false;
      }
    } else if a.tag == MASK {
      if a.id != NO_ID {
        ok := false;
      }
      chk' := chk'.(mode := chk.mode.(group := a.perms));
    } else {
      ok := false;
    }
  }

  /** Adjacent order is enough to extend a good list. */
  lemma ExtendGood(s: seq<Ace>, a: Ace)
    requires GoodList(s)
    ensures GoodList(s + [a]) <==> GoodAce(a) && (s == [] || Less(s[|s| - 1], a))
  {
    var s' := s + [a];
    assert s'[|s|] in s';
    if s != [] && Less(s[|s| - 1], a) {
      forall i, j | 0 <= i < j < |s'| ensures Less(s'[i], s'[j]) {
        if j == |s| && i < |s| - 1 {
          assert Less(s[i], s[|s| - 1]);
        }
      }
    }
    if s != [] && GoodList(s') {
      assert Less(s'[|s| - 1], s'[|s|]);
    }
  }

  lemma CountExtended(s: seq<Ace>, a: Ace)
    requires GoodList(s) && GoodList(s + [a])
    ensures a.tag == USER_OBJ || a.tag == GROUP_OBJ || a.tag == OTHER ==> Count(s, a.tag) == 0
  {
    if a.tag == USER_OBJ || a.tag == GROUP_OBJ || a.tag == OTHER {
      CountGood(s + [a], a.tag);
      assert (s + [a])[..|s|] == s && (s + [a])[|s|] == a;
    }
  }

  // ----- Sorting -----

  method SwapAdjacent(a: array<Ace>, i: nat)
    requires 0 < i < a.Length
    modifies a
    ensures a[..] == old(a[..])[i - 1 := old(a[i])][i := old(a[i - 1])]
  {
    var ace := a[i - 1];
    a[i - 1] := a[i];
    a[i] := ace;
  }

  /** `ntfs_sort_posix` repeats this pass over a range of the array until nothing moves.  `k` is
      the number of passes made: so many largest ACEs are in their places at the end. */
  method BubblePass(a: array<Ace>, lo: nat, hi: nat, ghost k: nat) returns (done: bool)
    requires lo < hi <= a.Length && k < hi - lo
    requires Settled(a[..], lo, hi, hi - k)
    modifies a
    ensures Settled(a[..], lo, hi, hi - k - 1)
    ensures done ==> a[..] == old(a[..]) && Settled(a[..], lo, hi, lo)
    ensures !done ==> k + 2 <= hi - lo
    ensures Pieces(a[..], lo, hi) == old(Pieces(a[..], lo, hi))
  {
    done := true;
    var previous := a[lo];
    ghost var s0 := a[..];
    for i := lo + 1 to hi
      invariant a[i - 1] == previous && Passing(a[..], lo, hi, i, k)
      invariant done ==> a[..] == s0 && Settled(s0, lo, i, lo)
      invariant !done ==> k + 2 <= hi - lo
      invariant Pieces(a[..], lo, hi) == Pieces(s0, lo, hi)
    {
      ghost var s := a[..];
      if Less(a[i], previous) {
        done := false;
        SwapAdjacent(a, i);
        PassSwap(s, lo, hi, i, k);
        SwapKeepsPieces(s, lo, hi, i);
      } else {
        PassKeep(s, lo, hi, i, k);
        previous := a[i];
      }
    }
  }

  /** Within a pass, the ACE before `i` is a largest one so far. */
  ghost predicate Passing(s: seq<Ace>, lo: nat, hi: nat, i: nat, k: nat)
    requires lo < i <= hi <= |s| && k < hi - lo
  {
    && (forall x | lo <= x < i :: !Less(s[i - 1], s[x]))
    && Settled(s, lo, hi, hi - k)
    && (i > hi - k - 1 ==> Settled(s, lo, hi, hi - k - 1))
  }

  lemma PassSwap(s: seq<Ace>, lo: nat, hi: nat, i: nat, k: nat)
    requires lo < i < hi <= |s| && k < hi - lo && Passing(s, lo, hi, i, k) && Less(s[i], s[i - 1])
    ensures Passing(s[i - 1 := s[i]][i := s[i - 1]], lo, hi, i + 1, k)
    ensures k + 2 <= hi - lo
  {
  }

  lemma PassKeep(s: seq<Ace>, lo: nat, hi: nat, i: nat, k: nat)
    requires lo < i < hi <= |s| && k < hi - lo && Passing(s, lo, hi, i, k) && !Less(s[i], s[i - 1])
    ensures Passing(s, lo, hi, i + 1, k)
    ensures Settled(s, lo, i, lo) ==> Settled(s, lo, i + 1, lo)
  {
  }

  /** Positions from `from` on hold their final ACEs: sorted, and not below anything in the range. */
  ghost predicate Settled(s: seq<Ace>, lo: nat, hi: nat, from: int)
    requires lo <= from <= hi <= |s|
  {
    forall x, y | lo <= x < y < hi && from <= y :: !Less(s[y], s[x])
  }

  /** What sorting a range keeps: the ACEs in it as a multiset, and all the others. */
  ghost function Pieces(s: seq<Ace>, lo: nat, hi: nat): (seq<Ace>, multiset<Ace>, seq<Ace>)
    requires lo <= hi <= |s|
  {
    (s[..lo], multiset(s[lo..hi]), s[hi..])
  }

  lemma SwapKeepsPieces(s: seq<Ace>, lo: nat, hi: nat, i: nat)
    requires lo < i < hi <= |s|
    ensures Pieces(s[i - 1 := s[i]][i := s[i - 1]], lo, hi) == Pieces(s, lo, hi)
  {
    var t := s[i - 1 := s[i]][i := s[i - 1]];
    var r, x := s[lo..hi], i - 1 - lo;
    assert t[lo..hi] == r[x := r[x + 1]][x + 1 := r[x]];
    assert multiset(t[lo..hi]) == multiset(r);
    assert t[..lo] == s[..lo] && t[hi..] == s[hi..];
  }

  method SortRange(a: array<Ace>, lo: nat, hi: nat)
    requires lo < hi <= a.Length
    modifies a
    ensures Settled(a[..], lo, hi, lo)
    ensures Pieces(a[..], lo, hi) == old(Pieces(a[..], lo, hi))
  {
    var done := false;
    ghost var k := 0;
    while !done
      invariant k <= hi - lo
      invariant done ==> Settled(a[..], lo, hi, lo)
      invariant !done ==> k < hi - lo && Settled(a[..], lo, hi, hi - k)
      invariant Pieces(a[..], lo, hi) == old(Pieces(a[..], lo, hi))
      decreases !done, hi - lo - k
    {
      done := BubblePass(a, lo, hi, k);
      k := k + 1;
    }
  }

  // ----- The mode that a list means -----

  /** The permissions of the ACE with tag `t`, none if there is no such ACE. */
  function PermsOf(s: seq<Ace>, t: nat): Perms {
    if s == [] then NONE else if s[|s| - 1].tag == t then s[|s| - 1].perms else PermsOf(s[..|s| - 1], t)
  }

  /** The mask stands for the group class when there is one. */
  function GroupClass(s: seq<Ace>): Perms {
    if HasTag(s, MASK) then PermsOf(s, MASK) else PermsOf(s, GROUP_OBJ)
  }

  lemma {:induction false} PermsAbsent(s: seq<Ace>, t: nat)
    requires !HasTag(s, t)
    ensures PermsOf(s, t) == NONE
  {
    if s != [] {
      assert s[|s| - 1] in s;
      PermsAbsent(s[..|s| - 1], t);
    }
  }

  /** Nothing in front of the last ACE of a good list has a greater tag, nor its own unless ids tell. */
  lemma TagsBeforeLast(s: seq<Ace>, t: nat)
    requires GoodList(s) && s != []
    requires t > s[|s| - 1].tag || (t == s[|s| - 1].tag && t != USER && t != GROUP)
    ensures !HasTag(s[..|s| - 1], t) && PermsOf(s[..|s| - 1], t) == NONE
  {
    var n := |s| - 1;
    forall a | a in s[..n] ensures a.tag != t {
      var i :| 0 <= i < n && s[i] == a;
      assert a in s && s[n] in s && Less(s[i], s[n]);
    }
    PermsAbsent(s[..n], t);
  }

  /** A good list means owner, group class and other permissions, whatever the scan order did. */
  lemma {:induction false} ModeMeaning(base: Perms, s: seq<Ace>)
    requires GoodList(s)
    ensures ModeFrom(Mode(base, NONE, NONE, NONE), s)
            == Mode(base, PermsOf(s, USER_OBJ), GroupClass(s), PermsOf(s, OTHER))
  {
    if s != [] {
      var n := |s| - 1;
      var r, a := s[..n], s[n];
      assert a in s && s == r + [a];
      ModeMeaning(base, r);
      assert HasTag(s, MASK) <==> HasTag(r, MASK) || a.tag == MASK;
      if a.tag != USER && a.tag != GROUP {
        TagsBeforeLast(s, a.tag);
      }
      if a.tag < MASK {
        TagsBeforeLast(s, MASK);
      }
    }
  }

  // ----- Inheritance by a new file -----

  /** A default ACE as the new file gets it, restricted to the creation mode; the owning group
      is left to the mask when there is one. */
  function Restrict(a: Ace, mode: Mode, masked: bool): Ace {
    if a.tag == USER_OBJ then a.(perms := a.perms.And(mode.owner))
    else if a.tag == MASK || (a.tag == GROUP_OBJ && !masked) then a.(perms := a.perms.And(mode.group))
    else if a.tag == OTHER then a.(perms := a.perms.And(mode.other))
    else a
  }

  function Inherited(d: seq<Ace>, mode: Mode): (r: seq<Ace>)
    ensures |r| == |d|
    ensures forall i | 0 <= i < |d| :: r[i].tag == d[i].tag && r[i].id == d[i].id && r[i].extra == d[i].extra
  {
    if d == [] then []
    else [Restrict(d[0], mode, HasTag(d[1..], MASK))] + Inherited(d[1..], mode)
  }

  lemma {:induction false} InheritedAt(d: seq<Ace>, mode: Mode, i: nat) returns (masked: bool)
    requires i < |d|
    ensures Inherited(d, mode)[i] == Restrict(d[i], mode, masked)
    ensures masked ==> HasTag(d, MASK)
  {
    if i == 0 {
      masked := HasTag(d[1..], MASK);
    } else {
      masked := InheritedAt(d[1..], mode, i - 1);
    }
  }

  function Standard(tag: nat, perms: Perms, umask: Perms): Ace {
    Ace(tag, perms.Without(umask), false, NO_ID)
  }

  /** The standard ACEs that the defaults lack, from the mode as limited by the umask. */
  function Missing(tags: set<nat>, mode: Mode, umask: Mode): seq<Ace> {
    (if USER_OBJ in tags then [] else [Standard(USER_OBJ, mode.owner, umask.owner)]) +
    (if GROUP_OBJ in tags then [] else [Standard(GROUP_OBJ, mode.group, umask.group)]) +
    (if OTHER in tags then [] else [Standard(OTHER, mode.other, umask.other)])
  }

  /** All the ACEs of a new file, in the order in which they are written. */
  function NewAces(d: seq<Ace>, mode: Mode, umask: Mode): seq<Ace> {
    Inherited(d, mode) + Missing(TagsOf(d), mode, umask)
  }

  lemma InheritedGood(d: seq<Ace>, mode: Mode)
    requires GoodList(d)
    ensures GoodList(Inherited(d, mode)) && TagsOf(Inherited(d, mode)) == TagsOf(d)
  {
    var r := Inherited(d, mode);
    forall i | 0 <= i < |r| ensures GoodAce(r[i]) {
      assert d[i] in d;
    }
    forall i, j | 0 <= i < j < |r| ensures Less(r[i], r[j]) {
      assert Less(d[i], d[j]);
    }
    SameTags(d, r);
  }

  lemma SameTags(s: seq<Ace>, t: seq<Ace>)
    requires |s| == |t| && forall i | 0 <= i < |s| :: s[i].tag == t[i].tag
    ensures TagsOf(s) == TagsOf(t)
  {
    forall a | a in s ensures a.tag in TagsOf(t) {
      var i :| 0 <= i < |s| && s[i] == a;
      assert t[i] in t;
    }
    forall a | a in t ensures a.tag in TagsOf(s) {
      var i :| 0 <= i < |t| && t[i] == a;
      assert s[i] in s;
    }
  }

  /** No two positions hold ACEs with the same tag and id. */
  ghost predicate Distinct(s: seq<Ace>) {
    forall i, j | 0 <= i < j < |s| :: Less(s[i], s[j]) || Less(s[j], s[i])
  }

  lemma NewAcesDistinct(d: seq<Ace>, mode: Mode, umask: Mode)
    requires GoodList(d)
    ensures Distinct(NewAces(d, mode, umask))
    ensures forall a | a in NewAces(d, mode, umask) :: GoodAce(a)
  {
    InheritedGood(d, mode);
    var r, m := Inherited(d, mode), Missing(TagsOf(d), mode, umask);
    MissingGood(TagsOf(d), mode, umask);
    var u := r + m;
    forall i, j | 0 <= i < j < |u| ensures Less(u[i], u[j]) || Less(u[j], u[i]) {
      if j < |r| {
        assert Less(r[i], r[j]);
      } else if i < |r| {
        assert r[i] in r && r[i].tag in TagsOf(r);
        assert u[j] == m[j - |r|] && m[j - |r|] in m;
      } else {
        assert Less(m[i - |r|], m[j - |r|]);
      }
    }
  }

  lemma MissingGood(tags: set<nat>, mode: Mode, umask: Mode)
    ensures GoodList(Missing(tags, mode, umask))
    ensures forall a | a in Missing(tags, mode, umask) :: a.tag !in tags
  {
  }

  lemma NewAcesComplete(d: seq<Ace>, mode: Mode, umask: Mode)
    requires GoodList(d)
    ensures var u := NewAces(d, mode, umask); HasTag(u, USER_OBJ) && HasTag(u, GROUP_OBJ) && HasTag(u, OTHER)
  {
    InheritedGood(d, mode);
    TagsOfSum(Inherited(d, mode), Missing(TagsOf(d), mode, umask));
    StandardPresent(TagsOf(d), mode, umask);
  }

  lemma TagsOfSum(r: seq<Ace>, m: seq<Ace>)
    ensures forall t :: HasTag(r + m, t) <==> t in TagsOf(r) || HasTag(m, t)
  {
    assert forall a :: a in r + m <==> a in r || a in m;
  }

  lemma StandardPresent(tags: set<nat>, mode: Mode, umask: Mode)
    ensures var m := Missing(tags, mode, umask);
            && (USER_OBJ in tags || HasTag(m, USER_OBJ))
            && (GROUP_OBJ in tags || HasTag(m, GROUP_OBJ))
            && (OTHER in tags || HasTag(m, OTHER))
  {
    var m := Missing(tags, mode, umask);
    if USER_OBJ !in tags { assert Standard(USER_OBJ, mode.owner, umask.owner) in m; }
    if GROUP_OBJ !in tags { assert Standard(GROUP_OBJ, mode.group, umask.group) in m; }
    if OTHER !in tags { assert Standard(OTHER, mode.other, umask.other) in m; }
  }

  lemma {:induction false} DistinctOnce(s: seq<Ace>, a: Ace)
    requires Distinct(s)
    ensures multiset(s)[a] <= 1
  {
    if s != [] {
      DistinctOnce(s[1..], a);
      assert s == [s[0]] + s[1..];
    }
  }

  /** Sorting ACEs with distinct keys gives a good list. */
  lemma SortedIsGood(u: seq<Ace>, s: seq<Ace>)
    requires Distinct(u) && (forall a | a in u :: GoodAce(a))
    requires multiset(s) == multiset(u) && Settled(s, 0, |s|, 0)
    ensures GoodList(s)
  {
    forall a | a in s ensures GoodAce(a) {
      assert a in multiset(s);
    }
    forall i, j | 0 <= i < j < |s| ensures Less(s[i], s[j]) {
      assert !Less(s[j], s[i]);
      if !Less(s[i], s[j]) {
        SameKeyTwice(u, s, i, j);
      }
    }
  }

  lemma SameKeyTwice(u: seq<Ace>, s: seq<Ace>, i: nat, j: nat)
    requires Distinct(u) && multiset(s) == multiset(u)
    requires i < j < |s|
    ensures Less(s[i], s[j]) || Less(s[j], s[i])
  {
    assert s[i] in multiset(s) && s[j] in multiset(s);
    var x :| 0 <= x < |u| && u[x] == s[i];
    var y :| 0 <= y < |u| && u[y] == s[j];
    if x == y {
      assert s == s[..i] + [s[i]] + s[i + 1..j] + [s[j]] + s[j + 1..];
      DistinctOnce(u, s[i]);
    } else if x < y {
      assert Less(u[x], u[y]) || Less(u[y], u[x]);
    } else {
      assert Less(u[y], u[x]) || Less(u[x], u[y]);
    }
  }

  // ----- What the created file grants, against what was asked for -----

  lemma {:induction false} PermsPresent(s: seq<Ace>, t: nat)
    requires HasTag(s, t)
    ensures exists a | a in s :: a.tag == t && PermsOf(s, t) == a.perms
  {
    var n := |s| - 1;
    assert s == s[..n] + [s[n]];
    if s[n].tag == t {
      assert s[n] in s;
    } else {
      PermsPresent(s[..n], t);
      var a :| a in s[..n] && a.tag == t && PermsOf(s[..n], t) == a.perms;
      assert a in s;
    }
  }

  /** What one ACE of a new file may grant. */
  lemma NewAceWithin(d: seq<Ace>, mode: Mode, umask: Mode, a: Ace)
    requires a in NewAces(d, mode, umask)
    ensures a.tag == USER_OBJ ==> a.perms.Within(mode.owner)
    ensures a.tag == MASK ==> a.perms.Within(mode.group)
    ensures a.tag == GROUP_OBJ && !HasTag(d, MASK) ==> a.perms.Within(mode.group)
    ensures a.tag == OTHER ==> a.perms.Within(mode.other)
  {
    var r := Inherited(d, mode);
    if a in r {
      var i :| 0 <= i < |r| && r[i] == a;
      var masked := InheritedAt(d, mode, i);
    }
  }

  /** Every permission class of the result is within the requested mode. */
  lemma NeverWiderThanRequested(d: seq<Ace>, mode: Mode, umask: Mode, s: seq<Ace>)
    requires GoodList(d) && GoodList(s) && multiset(s) == multiset(NewAces(d, mode, umask))
    ensures PermsOf(s, USER_OBJ).Within(mode.owner) && GroupClass(s).Within(mode.group)
            && PermsOf(s, OTHER).Within(mode.other)
  {
    var u := NewAces(d, mode, umask);
    forall a | a in s ensures a in u {
      assert a in multiset(s);
    }
    forall t | HasTag(s, t) && t != GROUP_OBJ
      ensures exists a | a in u :: a.tag == t && PermsOf(s, t) == a.perms
    {
      PermsPresent(s, t);
    }
    forall a | a in u { NewAceWithin(d, mode, umask, a); }
    if !HasTag(s, USER_OBJ) { PermsAbsent(s, USER_OBJ); }
    if !HasTag(s, OTHER) { PermsAbsent(s, OTHER); }
    if !HasTag(s, MASK) {
      assert !HasTag(d, MASK) by { MaskKept(d, mode, umask, s); }
      if HasTag(s, GROUP_OBJ) { PermsPresent(s, GROUP_OBJ); } else { PermsAbsent(s, GROUP_OBJ); }
    }
  }

  lemma MaskKept(d: seq<Ace>, mode: Mode, umask: Mode, s: seq<Ace>)
    requires GoodList(d) && multiset(s) == multiset(NewAces(d, mode, umask))
    ensures HasTag(d, MASK) ==> HasTag(s, MASK)
  {
    if HasTag(d, MASK) {
      InheritedGood(d, mode);
      assert MASK in TagsOf(Inherited(d, mode));
      var a :| a in Inherited(d, mode) && a.tag == MASK;
      assert a in NewAces(d, mode, umask) && a in multiset(s);
    }
  }

  predicate Named(a: Ace) {
    a.tag == USER || a.tag == GROUP
  }

  /** What an ACE grants: that of a named user or a group is limited by the mask, if there is one. */
  function Effective(s: seq<Ace>, a: Ace): Perms {
    if (Named(a) || a.tag == GROUP_OBJ) && HasTag(s, MASK) then a.perms.And(PermsOf(s, MASK)) else a.perms
  }

  /** The class of the mode that an ACE is in. */
  function ClassOf(mode: Mode, a: Ace): Perms {
    if a.tag == USER_OBJ then mode.owner else if a.tag == OTHER then mode.other else mode.group
  }

  /** Named ACEs of a new file are those of the defaults. */
  lemma NamedAces(d: seq<Ace>, mode: Mode, umask: Mode, a: Ace)
    requires Named(a)
    ensures a in NewAces(d, mode, umask) <==> a in d
  {
    var r := Inherited(d, mode);
    if a in r {
      var i :| 0 <= i < |r| && r[i] == a;
      var masked := InheritedAt(d, mode, i);
      assert d[i] == a;
    }
    if a in d {
      var i :| 0 <= i < |d| && d[i] == a;
      var masked := InheritedAt(d, mode, i);
      assert r[i] == a;
    }
  }

  lemma MaskWithin(d: seq<Ace>, mode: Mode, umask: Mode, s: seq<Ace>)
    requires multiset(s) == multiset(NewAces(d, mode, umask)) && HasTag(s, MASK)
    ensures PermsOf(s, MASK).Within(mode.group)
  {
    PermsPresent(s, MASK);
    var a :| a in s && a.tag == MASK && PermsOf(s, MASK) == a.perms;
    assert a in multiset(s);
    NewAceWithin(d, mode, umask, a);
  }

  /** A mask of the new file is one of the defaults. */
  lemma NoOtherMask(d: seq<Ace>, mode: Mode, umask: Mode, a: Ace)
    requires a in NewAces(d, mode, umask) && a.tag == MASK
    ensures HasTag(d, MASK)
  {
    var r := Inherited(d, mode);
    assert a in r;
    var i :| 0 <= i < |r| && r[i] == a;
    assert d[i] in d && d[i].tag == MASK;
  }

  lemma MaskFromDefaults(d: seq<Ace>, mode: Mode, umask: Mode, s: seq<Ace>)
    requires GoodList(d) && multiset(s) == multiset(NewAces(d, mode, umask))
    ensures HasTag(s, MASK) <==> HasTag(d, MASK)
  {
    MaskKept(d, mode, umask, s);
    if HasTag(s, MASK) {
      var a :| a in s && a.tag == MASK;
      assert a in multiset(s);
      NoOtherMask(d, mode, umask, a);
    }
  }

  /** ACEs without a name grant no more than the mode does to their class. */
  lemma UnnamedWithin(d: seq<Ace>, mode: Mode, umask: Mode, s: seq<Ace>, a: Ace)
    requires GoodList(d) && multiset(s) == multiset(NewAces(d, mode, umask)) && a in s && !Named(a)
    ensures Effective(s, a).Within(ClassOf(mode, a))
  {
    assert a in multiset(s);
    MaskFromDefaults(d, mode, umask, s);
    NewAceWithin(d, mode, umask, a);
    if HasTag(s, MASK) {
      MaskWithin(d, mode, umask, s);
    }
    assert GoodAce(a) by {
      NewAcesDistinct(d, mode, umask);
    }
  }

  lemma NamedKept(d: seq<Ace>, mode: Mode, umask: Mode, s: seq<Ace>, a: Ace)
    requires multiset(s) == multiset(NewAces(d, mode, umask)) && Named(a)
    ensures a in s <==> a in d
  {
    assert a in s <==> a in multiset(s);
    NamedAces(d, mode, umask, a);
  }

  ghost predicate AllWithin(s: seq<Ace>, mode: Mode) {
    forall a | a in s :: Effective(s, a).Within(ClassOf(mode, a))
  }

  ghost predicate NamedWithin(d: seq<Ace>, p: Perms) {
    forall a | a in d && Named(a) :: a.perms.Within(p)
  }

  /** No ACE of the new file grants more than the requested mode does to its class if and only if the defaults
      have a mask, or all their named ACEs are within the mode of the group already. */
  lemma GrantsWithinMode(d: seq<Ace>, mode: Mode, umask: Mode, s: seq<Ace>)
    requires GoodList(d) && multiset(s) == multiset(NewAces(d, mode, umask))
    ensures AllWithin(s, mode) <==> HasTag(d, MASK) || NamedWithin(d, mode.group)
  {
    MaskFromDefaults(d, mode, umask, s);
    if HasTag(d, MASK) || NamedWithin(d, mode.group) {
      forall a | a in s ensures Effective(s, a).Within(ClassOf(mode, a)) {
        if !Named(a) {
          UnnamedWithin(d, mode, umask, s, a);
        } else if HasTag(d, MASK) {
          MaskWithin(d, mode, umask, s);
        } else {
          NamedKept(d, mode, umask, s, a);
        }
      }
    } else {
      var a :| a in d && Named(a) && !a.perms.Within(mode.group);
      NamedKept(d, mode, umask, s, a);
      assert !Effective(s, a).Within(ClassOf(mode, a));
    }
  }

  /** A default for user 1000 and no mask: whatever the mode, the new file lets that user do everything. */
  lemma NamedWithoutMask(mode: Mode, umask: Mode)
    ensures var a := Ace(USER, Perms(true, true, true), false, 1000);
            GoodList([a]) && a in NewAces([a], mode, umask) && !HasTag([a], MASK)
  {
    var a := Ace(USER, Perms(true, true, true), false, 1000);
    NamedAces([a], mode, umask, a);
  }

  // ----- Which bits the created file has -----

  /** Bit by bit: set in `p` if and only if in both. */
  predicate Both(p: Perms, a: Perms, b: Perms) {
    (p.r <==> a.r && b.r) && (p.w <==> a.w && b.w) && (p.x <==> a.x && b.x)
  }

  /** Bit by bit: set in `p` if and only if in `a` and not in `b`. */
  predicate ButNot(p: Perms, a: Perms, b: Perms) {
    (p.r <==> a.r && !b.r) && (p.w <==> a.w && !b.w) && (p.x <==> a.x && !b.x)
  }

  /** What becomes of a class: the bits that the default with its tag and the mode both have, or, if there is no such
      default, those of the mode that the umask leaves. */
  ghost predicate ClassBits(p: Perms, d: seq<Ace>, tag: nat, mode: Perms, umask: Perms) {
    if HasTag(d, tag) then forall e | e in d && e.tag == tag :: Both(p, e.perms, mode) else ButNot(p, mode, umask)
  }

  /** The mode of the new file; a mask stands for the group. */
  ghost predicate ModeBits(m: Mode, d: seq<Ace>, mode: Mode, umask: Mode) {
    && ClassBits(m.owner, d, USER_OBJ, mode.owner, umask.owner)
    && ClassBits(m.group, d, if HasTag(d, MASK) then MASK else GROUP_OBJ, mode.group, umask.group)
    && ClassBits(m.other, d, OTHER, mode.other, umask.other)
  }

  lemma {:induction false} MaskedAt(d: seq<Ace>, mode: Mode, i: nat)
    requires i < |d|
    ensures Inherited(d, mode)[i] == Restrict(d[i], mode, HasTag(d[i + 1..], MASK))
  {
    if i > 0 {
      MaskedAt(d[1..], mode, i - 1);
      assert d[1..][i..] == d[i + 1..];
    }
  }

  /** The owning group is left alone exactly if there is a mask, which stands behind it. */
  lemma RestrictedAt(d: seq<Ace>, mode: Mode, i: nat)
    requires GoodList(d) && i < |d|
    ensures Inherited(d, mode)[i] == Restrict(d[i], mode, HasTag(d, MASK))
  {
    MaskedAt(d, mode, i);
    if HasTag(d, MASK) && d[i].tag == GROUP_OBJ {
      var j :| 0 <= j < |d| && d[j].tag == MASK;
      assert d[i + 1..][j - i - 1] == d[j] && d[j] in d[i + 1..];
    }
    if HasTag(d[i + 1..], MASK) {
      var a :| a in d[i + 1..] && a.tag == MASK;
      assert a in d;
    }
  }

  lemma OneWithTag(d: seq<Ace>, i: nat, e: Ace)
    requires GoodList(d) && i < |d| && e in d && e.tag == d[i].tag && e.tag != USER && e.tag != GROUP
    ensures e == d[i]
  {
    var j :| 0 <= j < |d| && d[j] == e;
    assert GoodAce(d[i]) && GoodAce(e);
  }

  lemma DefaultBits(d: seq<Ace>, i: nat, tag: nat, p: Perms, m: Perms, u: Perms)
    requires GoodList(d) && i < |d| && d[i].tag == tag && tag != USER && tag != GROUP && p == d[i].perms.And(m)
    ensures ClassBits(p, d, tag, m, u)
  {
    assert d[i] in d;
    forall e | e in d && e.tag == tag ensures Both(p, e.perms, m) {
      OneWithTag(d, i, e);
    }
  }

  lemma InheritedEntry(d: seq<Ace>, mode: Mode, umask: Mode, i: nat, a: Ace)
    requires GoodList(d) && i < |d| && a == Inherited(d, mode)[i]
    ensures EntryOk(d, mode, umask, a)
  {
    RestrictedAt(d, mode, i);
    if a.tag == USER_OBJ {
      DefaultBits(d, i, USER_OBJ, a.perms, mode.owner, umask.owner);
    } else if a.tag == OTHER {
      DefaultBits(d, i, OTHER, a.perms, mode.other, umask.other);
    } else if a.tag == MASK {
      DefaultBits(d, i, MASK, a.perms, mode.group, umask.group);
    } else if a.tag == GROUP_OBJ {
      if HasTag(d, MASK) {
        assert a == d[i];
      } else {
        DefaultBits(d, i, GROUP_OBJ, a.perms, mode.group, umask.group);
      }
    }
  }

  lemma MissingEntry(d: seq<Ace>, mode: Mode, umask: Mode, a: Ace)
    requires a in Missing(TagsOf(d), mode, umask)
    ensures EntryOk(d, mode, umask, a)
  {
    MissingBits(TagsOf(d), mode, umask);
    assert !HasTag(d, a.tag);
  }

  /** The bits of one entry without a name; the owning group under a mask is as in the defaults. */
  ghost predicate EntryOk(d: seq<Ace>, mode: Mode, umask: Mode, a: Ace) {
    && (a.tag == USER_OBJ ==> ClassBits(a.perms, d, USER_OBJ, mode.owner, umask.owner))
    && (a.tag == OTHER ==> ClassBits(a.perms, d, OTHER, mode.other, umask.other))
    && (a.tag == MASK ==> ClassBits(a.perms, d, MASK, mode.group, umask.group))
    && (a.tag == GROUP_OBJ && !HasTag(d, MASK) ==> ClassBits(a.perms, d, GROUP_OBJ, mode.group, umask.group))
    && (a.tag == GROUP_OBJ && HasTag(d, MASK) && HasTag(d, GROUP_OBJ) ==> a in d)
  }

  lemma EntryBits(d: seq<Ace>, mode: Mode, umask: Mode, a: Ace)
    requires GoodList(d) && a in NewAces(d, mode, umask)
    ensures EntryOk(d, mode, umask, a)
  {
    var r := Inherited(d, mode);
    if a in r {
      var i :| 0 <= i < |r| && r[i] == a;
      InheritedEntry(d, mode, umask, i, a);
    } else {
      MissingEntry(d, mode, umask, a);
    }
  }

  lemma PermsBits(d: seq<Ace>, mode: Mode, umask: Mode, s: seq<Ace>, tag: nat) returns (a: Ace)
    requires multiset(s) == multiset(NewAces(d, mode, umask)) && HasTag(s, tag)
    ensures a in NewAces(d, mode, umask) && a.tag == tag && PermsOf(s, tag) == a.perms
  {
    PermsPresent(s, tag);
    a :| a in s && a.tag == tag && PermsOf(s, tag) == a.perms;
    assert a in multiset(s);
  }

  lemma InheritedBits(d: seq<Ace>, mode: Mode, umask: Mode, s: seq<Ace>, m: Mode)
    requires GoodList(d) && multiset(s) == multiset(NewAces(d, mode, umask))
    requires HasTag(s, USER_OBJ) && HasTag(s, GROUP_OBJ) && HasTag(s, OTHER)
    requires m.owner == PermsOf(s, USER_OBJ) && m.group == GroupClass(s) && m.other == PermsOf(s, OTHER)
    ensures ModeBits(m, d, mode, umask)
  {
    MaskFromDefaults(d, mode, umask, s);
    var a := PermsBits(d, mode, umask, s, USER_OBJ);
    EntryBits(d, mode, umask, a);
    a := PermsBits(d, mode, umask, s, if HasTag(d, MASK) then MASK else GROUP_OBJ);
    EntryBits(d, mode, umask, a);
    a := PermsBits(d, mode, umask, s, OTHER);
    EntryBits(d, mode, umask, a);
  }

  // ----- Descriptors -----

  class PosixSecurity {
    var mode: Mode
    var acccnt: int
    var defcnt: int
    var firstdef: int
    var tagsset: set<nat>
    var version: nat
    var flags: nat
    var filler: nat
    const ace: array<Ace>

    constructor (size: nat, ace0: Ace)
      ensures fresh(ace) && ace.Length == size
      ensures acccnt == 0 && defcnt == 0
    {
      mode, acccnt, defcnt, firstdef, tagsset, version, flags, filler := NO_MODE, 0, 0, 0, {}, 0, 0, 0;
      ace := new Ace[size](_ => ace0);
    }

    function Total(): (n: nat)
      reads this
    {
      if acccnt + defcnt < 0 then 0 else acccnt + defcnt
    }

    /** ACEs from this position on count as default ones. */
    function Split(): (k: nat)
      reads this
      ensures k <= Total()
    {
      if firstdef < 0 then 0 else if firstdef > Total() then Total() else firstdef
    }

    function Access(): seq<Ace>
      reads this, ace
      requires Total() <= ace.Length
    {
      ace[..Split()]
    }

    function Default(): seq<Ace>
      reads this, ace
      requires Total() <= ace.Length
    {
      ace[Split()..Total()]
    }

    predicate GoodHeader()
      reads this
    {
      && version == POSIX_VERSION && flags == 0 && filler == 0
      && acccnt >= 0 && defcnt >= 0 && !(defcnt != 0 && acccnt > firstdef)
    }

    /** A descriptor that is considered safe: two good lists, the access list complete if there is
        one, and the recorded mode and tags being those of the access list. */
    ghost predicate Valid()
      reads this, ace
      requires Total() <= ace.Length
    {
      && GoodHeader() && GoodList(Access()) && GoodList(Default())
      && (acccnt > 0 ==> HasTag(Access(), USER_OBJ) && HasTag(Access(), GROUP_OBJ) && HasTag(Access(), OTHER))
      && (mode != NO_MODE && TagsOf(Access()) != {} ==> ModeFrom(NO_MODE, Access()) == mode.(special := NONE))
      && tagsset == TagsOf(Access())
    }

    /** `ntfs_valid_posix`: one scan with running checks decides validity. */
    method ValidPosix() returns (ok: bool)
      requires Total() <= ace.Length
      ensures ok <==> Valid()
    {
      ok := version == POSIX_VERSION && flags == 0 && filler == 0;
      var checks0, checks1 := Seen([]), Seen([]);
      var k := Split();
      assert ace[..0] == [] && ace[k..k] == [];
      for i := 0 to Total()
        invariant checks0 == Seen(ace[..if i < k then i else k])
        invariant checks1 == Seen(ace[k..if i < k then k else i])
        invariant ok <==> version == POSIX_VERSION && flags == 0 && filler == 0
                          && GoodList(ace[..if i < k then i else k]) && GoodList(ace[k..if i < k then k else i])
      {
        var good;
        if i >= firstdef {
          assert ace[k..i + 1] == ace[k..i] + [ace[i]];
          GoodPrefix(ace[k..i], ace[i]);
          checks1, good := CheckAce(checks1, ace[i], ace[k..i]);
        } else {
          assert ace[..i + 1] == ace[..i] + [ace[i]];
          GoodPrefix(ace[..i], ace[i]);
          checks0, good := CheckAce(checks0, ace[i], ace[..i]);
        }
        ok := ok && good;
      }
      if GoodList(Access()) {
        CountGood(Access(), USER_OBJ);
        CountGood(Access(), GROUP_OBJ);
        CountGood(Access(), OTHER);
      }
      if acccnt > 0 && (checks0.owners != 1 || checks0.groups != 1 || checks0.others != 1) {
        ok := false;
      }
      if defcnt != 0 && acccnt > firstdef {
        ok := false;
      }
      if acccnt < 0 || defcnt < 0 {
        ok := false;
      }
      if mode != NO_MODE && checks0.tagsset != {} && checks0.mode != mode.(special := NONE) {
        ok := false;
      }
      if tagsset != checks0.tagsset {
        ok := false;
      }
    }

    /** `posix_header`: the mode and the tags of the access ACEs. */
    method PosixHeader(basemode: Mode) returns (m: Mode)
      requires 0 <= acccnt <= ace.Length
      modifies this`mode, this`tagsset, this`version, this`flags, this`filler
      ensures m == mode == ModeFrom(Mode(basemode.special, NONE, NONE, NONE), ace[..acccnt])
      ensures tagsset == TagsOf(ace[..acccnt])
      ensures version == POSIX_VERSION && flags == 0 && filler == 0
    {
      m := Mode(basemode.special, NONE, NONE, NONE);
      var tags: set<nat> := {};
      for i := 0 to acccnt
        invariant m == ModeFrom(Mode(basemode.special, NONE, NONE, NONE), ace[..i])
        invariant tags == TagsOf(ace[..i])
      {
        var pace := ace[i];
        assert ace[..i + 1] == ace[..i] + [pace];
        SeenExtended(ace[..i], pace);
        tags := tags + {pace.tag};
        if pace.tag == USER_OBJ {
          m := m.(owner := m.owner.Or(pace.perms));
        } else if pace.tag == GROUP_OBJ || pace.tag == MASK {
          m := m.(group := pace.perms);
        } else if pace.tag == OTHER {
          m := m.(other := m.other.Or(pace.perms));
        }
      }
      tagsset, mode, version, flags, filler := tags, m, POSIX_VERSION, 0, 0;
    }

    /** `ntfs_sort_posix`: the access ACEs and the default ACEs, each among themselves. */
    method SortPosix()
      requires 0 <= acccnt && 0 <= defcnt
      requires acccnt <= ace.Length
      requires defcnt > 1 ==> acccnt <= firstdef && firstdef + defcnt <= ace.Length
      modifies ace
      ensures SortedParts(old(ace[..]), ace[..], acccnt, firstdef, defcnt)
    {
      ghost var s0 := ace[..];
      if acccnt > 0 {
        SortRange(ace, 0, acccnt);
      }
      ghost var s1 := ace[..];
      if defcnt > 1 {
        SortRange(ace, firstdef, firstdef + defcnt);
      }
      PartsSorted(s0, s1, ace[..], acccnt, firstdef, defcnt);
    }
  }

  /** Each of the two parts is sorted and holds the ACEs it held. */
  ghost predicate SortedParts(s: seq<Ace>, t: seq<Ace>, acccnt: nat, firstdef: int, defcnt: nat)
    requires acccnt <= |s| == |t| && (defcnt > 1 ==> acccnt <= firstdef && firstdef + defcnt <= |s|)
  {
    && Settled(t, 0, acccnt, 0) && multiset(t[..acccnt]) == multiset(s[..acccnt])
    && (defcnt > 1 ==> Settled(t, firstdef, firstdef + defcnt, firstdef)
                       && multiset(t[firstdef..firstdef + defcnt]) == multiset(s[firstdef..firstdef + defcnt]))
    && (forall i | acccnt <= i < |s| && !(defcnt > 1 && firstdef <= i < firstdef + defcnt) :: t[i] == s[i])
  }

  lemma PartsSorted(s0: seq<Ace>, s1: seq<Ace>, s2: seq<Ace>, n: nat, lo: int, cnt: nat)
    requires n <= |s0| && |s0| == |s1| == |s2| && (cnt > 1 ==> n <= lo && lo + cnt <= |s0|)
    requires Settled(s1, 0, n, 0) && Pieces(s1, 0, n) == Pieces(s0, 0, n)
    requires if cnt > 1 then Settled(s2, lo, lo + cnt, lo) && Pieces(s2, lo, lo + cnt) == Pieces(s1, lo, lo + cnt) else
               s2 == s1
    ensures SortedParts(s0, s2, n, lo, cnt)
  {
    assert s1[0..n] == s1[..n] && s0[0..n] == s0[..n];
    assert Pieces(s1, 0, n).1 == Pieces(s0, 0, n).1 && Pieces(s1, 0, n).2 == Pieces(s0, 0, n).2;
    if cnt > 1 {
      var hi := lo + cnt;
      assert Pieces(s2, lo, hi).0 == Pieces(s1, lo, hi).0 && Pieces(s2, lo, hi).1 == Pieces(s1, lo, hi).1;
      assert s2[..n] == s2[..lo][..n] && s1[..n] == s1[..lo][..n];
      SettledSame(s1, s2, n);
      SamePart(s0, s1, n, lo, hi);
    }
    forall i | n <= i < |s0| && !(cnt > 1 && lo <= i < lo + cnt) ensures s2[i] == s0[i] {
      assert s1[n..][i - n] == s0[n..][i - n];
      if cnt > 1 && i < lo {
        assert s2[..lo][i] == s1[..lo][i];
      } else if cnt > 1 {
        assert s2[lo + cnt..][i - lo - cnt] == s1[lo + cnt..][i - lo - cnt];
      }
    }
  }

  lemma SamePart(s: seq<Ace>, t: seq<Ace>, n: nat, lo: nat, hi: nat)
    requires |s| == |t| && n <= lo <= hi <= |s| && s[n..] == t[n..]
    ensures s[lo..hi] == t[lo..hi]
  {
    forall k | lo <= k < hi ensures s[k] == t[k] {
      assert s[k] == s[n..][k - n] && t[k] == t[n..][k - n];
    }
  }

  lemma SettledSame(s: seq<Ace>, t: seq<Ace>, n: nat)
    requires n <= |s| == |t| && s[..n] == t[..n] && Settled(s, 0, n, 0)
    ensures Settled(t, 0, n, 0)
  {
    forall x, y | 0 <= x < y < n ensures !Less(t[y], t[x]) {
      assert t[x] == t[..n][x] == s[x] && t[y] == t[..n][y] == s[y];
    }
  }

  /** A good list has good prefixes. */
  lemma GoodPrefix(s: seq<Ace>, a: Ace)
    ensures GoodList(s + [a]) ==> GoodList(s)
  {
    if GoodList(s + [a]) {
      forall x | x in s ensures GoodAce(x) {
        assert x in s + [a];
      }
      forall i, j | 0 <= i < j < |s| ensures Less(s[i], s[j]) {
        assert Less((s + [a])[i], (s + [a])[j]);
      }
    }
  }

  /** The default ACEs of the parent directory, none without a parent. */
  function DefaultsOf(parent: PosixSecurity?): seq<Ace>
    reads parent, if parent == null then {} else {parent.ace}
    requires parent != null ==> parent.Total() <= parent.ace.Length
  {
    if parent == null || parent.defcnt == 0 then [] else parent.Default()
  }

  /** The two lists of a descriptor that counts right: so many access ACEs, then, from the first default one on, so
      many defaults; and what a new file inherits are the latter. */
  lemma ListsMeaning(r: PosixSecurity)
    requires r.Total() <= r.ace.Length && r.acccnt >= 0 && r.defcnt >= 0 && r.acccnt == r.firstdef
    ensures r.Access() == r.ace[..r.acccnt] && r.Default() == r.ace[r.acccnt..r.acccnt + r.defcnt]
    ensures DefaultsOf(r) == r.ace[r.acccnt..r.acccnt + r.defcnt] && DefaultsOf(null) == []
  {
  }

  method RestrictAce(ace: Ace, mode: Mode, masked: bool) returns (pyace: Ace)
    ensures pyace == Restrict(ace, mode, masked)
  {
    pyace := ace;
    if pyace.tag == USER_OBJ {
      pyace := pyace.(perms := pyace.perms.And(mode.owner));
    } else if pyace.tag == GROUP_OBJ {
      if !masked {
        pyace := pyace.(perms := pyace.perms.And(mode.group));
      }
    } else if pyace.tag == OTHER {
      pyace := pyace.(perms := pyace.perms.And(mode.other));
    } else if pyace.tag == MASK {
      pyace := pyace.(perms := pyace.perms.And(mode.group));
    }
  }

  /** The first loop of `ntfs_build_inherited_posix`: copies and restricts from the last ACE to the
      first, so that a mask is known before the owning group. */
  method CopyInherited(a: array<Ace>, d: seq<Ace>, mode: Mode) returns (tags: set<nat>)
    requires |d| <= a.Length
    modifies a
    ensures a[..|d|] == Inherited(d, mode) && tags == TagsOf(d)
  {
    tags := {};
    var i := |d|;
    while i > 0
      invariant 0 <= i <= |d|
      invariant a[i..|d|] == Inherited(d[i..], mode) && tags == TagsOf(d[i..])
    {
      i := i - 1;
      var pyace := RestrictAce(d[i], mode, MASK in tags);
      CopyStep(a[..], d, i, mode);
      a[i] := pyace;
      tags := tags + {pyace.tag};
    }
    assert d[0..] == d && a[0..|d|] == a[..|d|];
  }

  /** One more ACE in front of those that have been copied. */
  lemma CopyStep(b: seq<Ace>, d: seq<Ace>, i: nat, mode: Mode)
    requires i < |d| <= |b| && b[i + 1..|d|] == Inherited(d[i + 1..], mode)
    ensures var r := Restrict(d[i], mode, MASK in TagsOf(d[i + 1..]));
            b[i := r][i..|d|] == Inherited(d[i..], mode) && TagsOf(d[i..]) == TagsOf(d[i + 1..]) + {d[i].tag}
  {
    assert d[i..] == [d[i]] + d[i + 1..];
    InheritedCons(d[i], d[i + 1..], mode);
  }

  lemma InheritedCons(a: Ace, s: seq<Ace>, mode: Mode)
    ensures Inherited([a] + s, mode) == [Restrict(a, mode, MASK in TagsOf(s))] + Inherited(s, mode)
    ensures TagsOf([a] + s) == TagsOf(s) + {a.tag}
  {
    assert ([a] + s)[1..] == s;
    TagsCons(a, s);
  }

  lemma TagsCons(a: Ace, s: seq<Ace>)
    ensures TagsOf([a] + s) == {a.tag} + TagsOf(s)
  {
    assert forall x :: x in [a] + s <==> x == a || x in s;
  }

  /** The appended ACEs: one for each standard tag that is missing, with the bits of the mode that the umask leaves. */
  lemma MissingBits(tags: set<nat>, mode: Mode, umask: Mode)
    ensures forall a | a in Missing(tags, mode, umask) ::
              && a.tag !in tags && a.id == NO_ID && !a.extra
              && ((a.tag == USER_OBJ && ButNot(a.perms, mode.owner, umask.owner))
                  || (a.tag == GROUP_OBJ && ButNot(a.perms, mode.group, umask.group))
                  || (a.tag == OTHER && ButNot(a.perms, mode.other, umask.other)))
    ensures forall t | t == USER_OBJ || t == GROUP_OBJ || t == OTHER ::
              t !in tags <==> HasTag(Missing(tags, mode, umask), t)
  {
    StandardPresent(tags, mode, umask);
  }

  /** Appends the standard ACEs that were missing. */
  method AppendMissing(a: array<Ace>, n: nat, tags: set<nat>, mode: Mode, umask: Mode) returns (i: nat)
    requires n + 3 <= a.Length
    modifies a
    ensures i == n + |Missing(tags, mode, umask)| <= n + 3
    ensures a[..i] == old(a[..n]) + Missing(tags, mode, umask) && a[i..] == old(a[..])[i..]
  {
    i := n;
    if USER_OBJ !in tags {
      a[i] := Ace(USER_OBJ, mode.owner.Without(umask.owner), false, NO_ID);
      i := i + 1;
    }
    if GROUP_OBJ !in tags {
      a[i] := Ace(GROUP_OBJ, mode.group.Without(umask.group), false, NO_ID);
      i := i + 1;
    }
    if OTHER !in tags {
      a[i] := Ace(OTHER, mode.other.Without(umask.other), false, NO_ID);
      i := i + 1;
    }
    assert a[..i] == old(a[..n]) + Missing(tags, mode, umask);
  }

  /** The access ACEs of a new descriptor; they are sorted only if something was missing. */
  method BuildAccess(r: PosixSecurity, d: seq<Ace>, mode: Mode, umask: Mode)
    requires GoodList(d) && |d| + 3 <= r.ace.Length
    modifies r, r.ace
    ensures |d| <= r.acccnt <= |d| + 3 && r.acccnt > 0
    ensures GoodList(r.ace[..r.acccnt])
    ensures multiset(r.ace[..r.acccnt]) == multiset(NewAces(d, mode, umask))
  {
    var tags := CopyInherited(r.ace, d, mode);
    r.acccnt := |d|;
    ghost var u := NewAces(d, mode, umask);
    if USER_OBJ !in tags || GROUP_OBJ !in tags || OTHER !in tags {
      var i := AppendMissing(r.ace, |d|, tags, mode, umask);
      assert r.ace[..i] == u;
      r.acccnt, r.firstdef, r.defcnt := i, i, 0;
      SortAccess(r, u);
      NewAcesDistinct(d, mode, umask);
      SortedIsGood(u, r.ace[..i]);
    } else {
      assert Missing(tags, mode, umask) == [] && r.ace[..|d|] == u;
      InheritedGood(d, mode);
      assert USER_OBJ in TagsOf(d);
    }
  }

  method SortAccess(r: PosixSecurity, ghost u: seq<Ace>)
    requires 0 < r.acccnt <= r.ace.Length && r.defcnt == 0 && r.ace[..r.acccnt] == u
    modifies r.ace
    ensures multiset(r.ace[..r.acccnt]) == multiset(u) && Settled(r.ace[..r.acccnt], 0, r.acccnt, 0)
  {
    ghost var s0 := r.ace[..];
    r.SortPosix();
    ghost var s, n := r.ace[..], r.acccnt;
    assert s[..n] == r.ace[..n] && s0[..n] == u;
    forall x, y | 0 <= x < y < n ensures !Less(s[..n][y], s[..n][x]) {
      assert !Less(s[y], s[x]);
    }
  }

  /** Appends the parent's defaults for a directory, and fills in the header. */
  method FinishDescriptor(r: PosixSecurity, d: seq<Ace>, mode: Mode, isdir: bool)
    requires 0 < r.acccnt && r.acccnt + (if isdir then |d| else 0) <= r.ace.Length
    modifies r, r.ace
    ensures r.acccnt == old(r.acccnt) == r.firstdef && r.defcnt == if isdir then |d| else 0
    ensures r.ace[..r.acccnt] == old(r.ace[..r.acccnt])
    ensures r.ace[r.acccnt..r.acccnt + r.defcnt] == if isdir then d else []
    ensures r.version == POSIX_VERSION && r.flags == 0 && r.filler == 0
    ensures r.mode == ModeFrom(Mode(mode.special, NONE, NONE, NONE), r.ace[..r.acccnt])
    ensures r.tagsset == TagsOf(r.ace[..r.acccnt])
  {
    r.firstdef := r.acccnt;
    if |d| != 0 && isdir {
      CopyDefaults(r.ace, r.acccnt, d);
      r.defcnt := |d|;
    } else {
      r.defcnt := 0;
    }
    var m := r.PosixHeader(mode);
  }

  method BuildFrom(d: seq<Ace>, mode: Mode, umask: Mode, isdir: bool) returns (r: PosixSecurity)
    requires GoodList(d)
    ensures fresh(r) && fresh(r.ace) && r.Total() <= r.ace.Length && r.Valid()
    ensures r.Default() == if isdir then d else []
    ensures multiset(r.Access()) == multiset(NewAces(d, mode, umask))
    ensures r.mode == ModeFrom(Mode(mode.special, NONE, NONE, NONE), r.Access())
    ensures r.acccnt == r.firstdef && r.acccnt >= 0 && r.defcnt >= 0
  {
    var count := if isdir then 2 * |d| + 3 else |d| + 3;
    r := new PosixSecurity(count, Ace(0, NONE, false, 0));
    BuildAccess(r, d, mode, umask);
    ghost var access := r.ace[..r.acccnt];
    FinishInherited(d, mode, umask, access);
    FinishDescriptor(r, d, mode, isdir);
    assert r.Access() == access && r.Default() == r.ace[r.acccnt..r.acccnt + r.defcnt];
  }

  /** `ntfs_build_inherited_posix`: the descriptor of a new file in a directory.  Its own validity
      check, made last, never fails. */
  method BuildInherited(parent: PosixSecurity?, mode: Mode, umask: Mode, isdir: bool) returns (r: PosixSecurity?)
    requires parent != null ==> parent.Total() <= parent.ace.Length && parent.Valid()
    requires parent != null && parent.defcnt != 0 ==> parent.firstdef == parent.acccnt
    ensures r != null && fresh(r) && fresh(r.ace) && r.Total() <= r.ace.Length && r.Valid()
    ensures multiset(r.Access()) == multiset(NewAces(DefaultsOf(parent), mode, umask))
    ensures r.Default() == if isdir then DefaultsOf(parent) else []
    ensures r.mode
            == Mode(mode.special, PermsOf(r.Access(), USER_OBJ), GroupClass(r.Access()), PermsOf(r.Access(), OTHER))
    ensures r.mode.owner.Within(mode.owner) && r.mode.group.Within(mode.group) && r.mode.other.Within(mode.other)
    ensures r.acccnt == r.firstdef && r.acccnt >= 0 && r.defcnt >= 0
    ensures ModeBits(r.mode, DefaultsOf(parent), mode, umask)
    ensures DefaultsOf(parent) == [] ==>
              && ButNot(r.mode.owner, mode.owner, umask.owner) && ButNot(r.mode.group, mode.group, umask.group)
              && ButNot(r.mode.other, mode.other, umask.other)
  {
    var d := DefaultsOf(parent);
    r := BuildFrom(d, mode, umask, isdir);
    FinishInherited(d, mode, umask, r.Access());
    InheritedBits(d, mode, umask, r.Access(), r.mode);
    var ok := r.ValidPosix();
    if !ok {
      r := null;
    }
  }

  method CopyDefaults(a: array<Ace>, n: nat, d: seq<Ace>)
    requires n + |d| <= a.Length
    modifies a
    ensures a[..n] == old(a[..n]) && a[n..n + |d|] == d
  {
    forall i | n <= i < n + |d| {
      a[i] := d[i - n];
    }
  }

  /** The header computed from the new access list agrees with the validity check. */
  lemma FinishInherited(d: seq<Ace>, mode: Mode, umask: Mode, access: seq<Ace>)
    requires GoodList(d) && GoodList(access) && multiset(access) == multiset(NewAces(d, mode, umask))
    ensures HasTag(access, USER_OBJ) && HasTag(access, GROUP_OBJ) && HasTag(access, OTHER)
    ensures var m := ModeFrom(Mode(mode.special, NONE, NONE, NONE), access);
            && ModeFrom(NO_MODE, access) == m.(special := NONE)
            && m == Mode(mode.special, PermsOf(access, USER_OBJ), GroupClass(access), PermsOf(access, OTHER))
            && m.owner.Within(mode.owner) && m.group.Within(mode.group) && m.other.Within(mode.other)
  {
    ModeMeaning(mode.special, access);
    ModeMeaning(NONE, access);
    NeverWiderThanRequested(d, mode, umask, access);
    NewAcesComplete(d, mode, umask);
    var u := NewAces(d, mode, umask);
    forall a | a in u ensures a in access {
      assert a in multiset(u);
    }
  }
}
