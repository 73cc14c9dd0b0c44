/** The byte-range lock table of one inode (fuse.c): `locks_conflict`, `locks_insert` and the
    conversions to and from the kernel's `struct flock`.

    The list holds the locks of all owners interleaved.  Its meaning is the table that POSIX
    record locking describes: for every owner and every offset, the lock held there. */
module ByteRangeLocks {
  import opened Common

  const OFFSET_MAX: int := 0x7fff_ffff_ffff_ffff
  const ENOLCK: int := 37

  datatype LockType = Rdlck | Wrlck | Unlck

  datatype Lock = Lock(typ: LockType, start: int, end: int, pid: int, owner: nat) {
    predicate Has(o: nat, x: int) {
      owner == o && start <= x <= end
    }

    predicate InRange() {
      0 <= start <= end <= OFFSET_MAX
    }
  }

  // ----- Meaning of a list -----

  /** The lock of the first list element that covers offset `x` for owner `o`. */
  function Held(locks: seq<Lock>, o: nat, x: int): (t: LockType) {
    if locks == [] then Unlck
    else if locks[0].Has(o, x) then locks[0].typ
    else Held(locks[1..], o, x)
  }

  /** Per owner sorted and disjoint: the state every list operation relies on. */
  ghost predicate Sorted(locks: seq<Lock>) {
    && (forall l | l in locks :: l.InRange() && l.typ != Unlck)
    && (forall i, j | 0 <= i < j < |locks| && locks[i].owner == locks[j].owner ::
          locks[i].end < locks[j].start)
  }

  /** Besides, no two locks of one owner and one type touch. */
  ghost predicate Canonical(locks: seq<Lock>) {
    && Sorted(locks)
    && (forall i, j | 0 <= i < j < |locks| && locks[i].owner == locks[j].owner && locks[i].typ == locks[j].typ ::
          locks[i].end + 1 < locks[j].start)
  }

  /** The table `after` is `before` with exactly the requester's range replaced. */
  ghost predicate IsUpdate(before: seq<Lock>, after: seq<Lock>, request: Lock) {
    forall o: nat, x: int ::
      Held(after, o, x) == if request.Has(o, x) then request.typ else Held(before, o, x)
  }

  // ----- Algebra of Held -----

  function First(a: LockType, b: LockType): LockType {
    if a != Unlck then a else b
  }

  lemma {:induction false} HeldAppend(a: seq<Lock>, b: seq<Lock>, o: nat, x: int)
    requires forall l | l in a :: l.typ != Unlck
    ensures Held(a + b, o, x) == First(Held(a, o, x), Held(b, o, x))
  {
    if a == [] {
      assert a + b == b;
    } else {
      assert (a + b)[1..] == a[1..] + b;
      HeldAppend(a[1..], b, o, x);
    }
  }

  lemma {:induction false} HeldNone(a: seq<Lock>, o: nat, x: int)
    requires forall l | l in a :: !l.Has(o, x)
    ensures Held(a, o, x) == Unlck
  {
    if a != [] {
      HeldNone(a[1..], o, x);
    }
  }

  lemma {:induction false} HeldSome(a: seq<Lock>, o: nat, x: int) returns (i: int)
    requires Held(a, o, x) != Unlck
    ensures 0 <= i < |a| && a[i].Has(o, x) && a[i].typ == Held(a, o, x)
  {
    if a[0].Has(o, x) {
      i := 0;
    } else {
      i := HeldSome(a[1..], o, x);
      i := i + 1;
    }
  }

  /** In a sorted list the covering element is unique, so its position does not matter. */
  lemma {:induction false} HeldAt(a: seq<Lock>, i: int, o: nat, x: int)
    requires Sorted(a) && 0 <= i < |a| && a[i].Has(o, x)
    ensures Held(a, o, x) == a[i].typ
  {
    if i > 0 {
      assert a[0].owner == o ==> a[0].end < a[i].start;
      assert Sorted(a[1..]);
      HeldAt(a[1..], i - 1, o, x);
    }
  }

  /** Splits a list around position `p`; every step of the scan edits the middle. */
  lemma HeldAround(a: seq<Lock>, m: seq<Lock>, b: seq<Lock>, o: nat, x: int)
    requires forall l | l in a + m :: l.typ != Unlck
    ensures Held(a + m + b, o, x) == First(Held(a, o, x), First(Held(m, o, x), Held(b, o, x)))
  {
    HeldAppend(a + m, b, o, x);
    HeldAppend(a, m, o, x);
  }

  // ----- One pass of the scan -----

  /** Everything of the requester's in `a` lies before `cur`, and with `apart` does not even
      touch it when it is of its type. */
  ghost predicate Behind(a: seq<Lock>, cur: Lock, apart: bool) {
    forall l | l in a && l.owner == cur.owner ::
      l.end < cur.start && (apart && l.typ == cur.typ ==> l.end + 1 < cur.start)
  }

  ghost predicate Ahead(b: seq<Lock>, cur: Lock) {
    forall l | l in b && l.owner == cur.owner ::
      cur.end < l.start && (l.typ == cur.typ ==> cur.end + 1 < l.start)
  }

  /** The state of the scan at position `p`: `cur` is the request as grown by merging so far. */
  ghost predicate Progress(l0: seq<Lock>, request: Lock, l: seq<Lock>, cur: Lock, p: int) {
    && Sorted(l) && 0 <= p <= |l|
    && (Canonical(l0) ==> Canonical(l))
    && cur.InRange() && cur == request.(start := cur.start, end := cur.end)
    && cur.start <= request.start && request.end <= cur.end
    && (forall o: nat, x: int | !cur.Has(o, x) :: Held(l, o, x) == Held(l0, o, x))
    && (forall x: int | cur.start <= x <= cur.end && !(request.start <= x <= request.end) ::
          Held(l0, request.owner, x) == request.typ)
    && Behind(l[..p], cur, Canonical(l0))
  }

  /** Replacing a lock by separated parts of it keeps the order and the rest of the table. */
  lemma Shrink(a: seq<Lock>, l: Lock, m: seq<Lock>, b: seq<Lock>)
    requires Sorted(a + [l] + b) && Canonical(m)
    requires forall e | e in m :: e.owner == l.owner && e.typ == l.typ && l.start <= e.start && e.end <= l.end
    ensures Sorted(a + m + b)
    ensures Canonical(a + [l] + b) ==> Canonical(a + m + b)
    ensures forall o: nat, x: int | Held(m, o, x) == Held([l], o, x) ::
              Held(a + m + b, o, x) == Held(a + [l] + b, o, x)
  {
    var old_, new_ := a + [l] + b, a + m + b;
    forall e | e in new_ ensures e.InRange() && e.typ != Unlck {
      assert e in m || e in old_ by {
        if e in a || e in b { assert e in old_; }
      }
    }
    forall i, j | 0 <= i < j < |new_| && new_[i].owner == new_[j].owner
      ensures new_[i].end < new_[j].start
      ensures Canonical(old_) && new_[i].typ == new_[j].typ ==> new_[i].end + 1 < new_[j].start
    {
      var i' := if i < |a| then i else if i < |a| + |m| then |a| else i - |m| + 1;
      var j' := if j < |a| then j else if j < |a| + |m| then |a| else j - |m| + 1;
      if i' == j' {
        assert m[i - |a|] in m && m[j - |a|] in m;
      } else {
        assert old_[i'].owner == old_[j'].owner;
      }
    }
    forall o: nat, x: int | Held(m, o, x) == Held([l], o, x)
      ensures Held(new_, o, x) == Held(old_, o, x)
    {
      assert forall e | e in a + m :: e in new_;
      assert forall e | e in a + [l] :: e in old_;
      HeldAround(a, m, b, o, x);
      HeldAround(a, [l], b, o, x);
    }
  }

  /** A lock of another type is cut down to `m`, its parts outside the request. */
  lemma StepTrim(l0: seq<Lock>, request: Lock, l: seq<Lock>, cur: Lock, p: int, m: seq<Lock>)
    requires Progress(l0, request, l, cur, p) && p < |l|
    requires Canonical(m)
    requires forall e | e in m ::
               e.owner == l[p].owner && e.typ == l[p].typ && l[p].start <= e.start && e.end <= l[p].end
    requires forall o: nat, x: int | !cur.Has(o, x) :: Held(m, o, x) == Held([l[p]], o, x)
    ensures Progress(l0, request, l[..p] + m + l[p + 1..], cur, p)
  {
    var a, b := l[..p], l[p + 1..];
    assert l == a + [l[p]] + b;
    Shrink(a, l[p], m, b);
    assert (a + m + b)[..p] == a;
  }

  /** What merging claims beyond the request was held with the requested type already. */
  lemma MergeClaims(l0: seq<Lock>, request: Lock, l: seq<Lock>, cur: Lock, p: int, cur': Lock)
    requires Progress(l0, request, l, cur, p) && p < |l|
    requires l[p].owner == cur.owner && l[p].typ == cur.typ
    requires l[p].start <= cur.end + 1 && cur.start <= l[p].end + 1
    requires cur' == Grown(cur, l[p])
    ensures forall x: int | cur'.start <= x <= cur'.end && !(request.start <= x <= request.end) ::
              Held(l0, request.owner, x) == request.typ
    ensures Behind(l[..p], cur', Canonical(l0))
  {
    forall x: int | cur'.start <= x <= cur'.end && !(request.start <= x <= request.end)
      ensures Held(l0, request.owner, x) == request.typ
    {
      if !(cur.start <= x <= cur.end) {
        HeldAt(l, p, cur.owner, x);
      }
    }
    forall e | e in l[..p] && e.owner == cur.owner
      ensures e.end < cur'.start && (Canonical(l0) && e.typ == cur.typ ==> e.end + 1 < cur'.start)
    {
      var i :| 0 <= i < p && l[i] == e;
      assert l[i].owner == l[p].owner;
    }
  }

  function Grown(cur: Lock, l: Lock): Lock {
    cur.(start := if l.start < cur.start then l.start else cur.start,
         end := if cur.end < l.end then l.end else cur.end)
  }

  /** A lock of the same type that overlaps or touches the request is absorbed by it. */
  lemma StepMerge(l0: seq<Lock>, request: Lock, l: seq<Lock>, cur: Lock, p: int, cur': Lock)
    requires Progress(l0, request, l, cur, p) && p < |l|
    requires l[p].owner == cur.owner && l[p].typ == cur.typ
    requires l[p].start <= cur.end + 1 && cur.start <= l[p].end + 1
    requires cur' == Grown(cur, l[p])
    ensures Progress(l0, request, l[..p] + l[p + 1..], cur', p)
  {
    MergeClaims(l0, request, l, cur, p, cur');
    var a, b := l[..p], l[p + 1..];
    assert l == a + [l[p]] + b && a + [] + b == a + b;
    Shrink(a, l[p], [], b);
    assert (a + b)[..p] == a;
    assert cur'.InRange() by { assert l[p] in l; }
    forall o: nat, x: int | !cur'.Has(o, x) ensures Held(a + b, o, x) == Held(l0, o, x) {
      assert Held([l[p]], o, x) == Held([], o, x);
      assert !cur.Has(o, x);
    }
  }

  /** A lock of the requester's entirely before the request, or of another owner, is passed by. */
  lemma StepSkip(l0: seq<Lock>, request: Lock, l: seq<Lock>, cur: Lock, p: int)
    requires Progress(l0, request, l, cur, p) && p < |l|
    requires Behind([l[p]], cur, true)
    ensures Progress(l0, request, l, cur, p + 1)
  {
    assert l[..p + 1] == l[..p] + [l[p]];
    assert l[p] in [l[p]];
  }

  /** The parts of a lock of another type that an overlapping request leaves: none, the lower
      end, the upper end, or both. */
  function Remains(l: Lock, cur: Lock): seq<Lock> {
    (if l.start < cur.start then [l.(end := cur.start - 1)] else []) +
    (if cur.end < l.end then [l.(start := cur.end + 1)] else [])
  }

  lemma RemainsMeaning(l: Lock, cur: Lock)
    requires l.InRange() && cur.InRange() && l.typ != Unlck && l.owner == cur.owner
    requires cur.start <= l.end && l.start <= cur.end
    ensures Canonical(Remains(l, cur))
    ensures forall o: nat, x: int | !cur.Has(o, x) :: Held(Remains(l, cur), o, x) == Held([l], o, x)
  {
    var lo, hi := l.(end := cur.start - 1), l.(start := cur.end + 1);
    var a := if l.start < cur.start then [lo] else [];
    var b := if cur.end < l.end then [hi] else [];
    forall o: nat, x: int | !cur.Has(o, x) ensures Held(a + b, o, x) == Held([l], o, x) {
      HeldAppend(a, b, o, x);
    }
  }

  /** A lock of another type that overlaps the request is cut down; its lower part, if any, is
      then behind the scan and its upper part, if any, is ahead of the request. */
  lemma StepCut(l0: seq<Lock>, request: Lock, l: seq<Lock>, cur: Lock, p: int)
    requires Progress(l0, request, l, cur, p) && p < |l|
    requires l[p].owner == cur.owner && l[p].typ != cur.typ
    requires cur.start <= l[p].end && l[p].start <= cur.end
    ensures Progress(l0, request, l[..p] + Remains(l[p], cur) + l[p + 1..], cur,
                     if l[p].start < cur.start then p + 1 else p)
  {
    assert l[p] in l;
    RemainsMeaning(l[p], cur);
    var m := Remains(l[p], cur);
    StepTrim(l0, request, l, cur, p, m);
    if l[p].start < cur.start {
      var l' := l[..p] + m + l[p + 1..];
      assert l'[p] == m[0];
      StepSkip(l0, request, l', cur, p);
    }
  }

  /** Once one of the requester's locks is past the request, all later ones are. */
  lemma PastIsAhead(l: seq<Lock>, p: int, cur: Lock)
    requires Sorted(l) && 0 <= p < |l|
    requires Ahead([l[p]], cur) && l[p].owner == cur.owner
    ensures Ahead(l[p..], cur)
  {
    assert l[p] in [l[p]];
    forall e | e in l[p..] && e.owner == cur.owner
      ensures cur.end < e.start && (e.typ == cur.typ ==> cur.end + 1 < e.start)
    {
      var i :| p <= i < |l| && l[i] == e;
      assert l[p].InRange();
      assert i > p ==> l[p].end < l[i].start;
    }
  }

  /** The request is already granted by one lock. */
  lemma FinishContained(l0: seq<Lock>, request: Lock, l: seq<Lock>, cur: Lock, p: int)
    requires Progress(l0, request, l, cur, p) && p < |l|
    requires l[p].owner == cur.owner && l[p].typ == cur.typ && l[p].start <= cur.start && cur.end <= l[p].end
    ensures IsUpdate(l0, l, request)
  {
    forall o: nat, x: int
      ensures Held(l, o, x) == if request.Has(o, x) then request.typ else Held(l0, o, x)
    {
      if cur.Has(o, x) {
        HeldAt(l, p, o, x);
      }
    }
  }

  lemma FinishUnlock(l0: seq<Lock>, request: Lock, l: seq<Lock>, cur: Lock, p: int)
    requires Progress(l0, request, l, cur, p) && request.typ == Unlck
    requires Ahead(l[p..], cur)
    ensures IsUpdate(l0, l, request)
  {
    assert l == l[..p] + l[p..];
    forall o: nat, x: int
      ensures Held(l, o, x) == if request.Has(o, x) then request.typ else Held(l0, o, x)
    {
      if cur.Has(o, x) {
        HeldNone(l, o, x);
      }
    }
  }

  /** Inserting `cur` between what is behind it and what is ahead of it keeps the order. */
  lemma InsertSorted(a: seq<Lock>, cur: Lock, b: seq<Lock>, apart: bool)
    requires Sorted(a + b) && cur.InRange() && cur.typ != Unlck
    requires Behind(a, cur, apart) && Ahead(b, cur)
    ensures Sorted(a + [cur] + b)
    ensures apart && Canonical(a + b) ==> Canonical(a + [cur] + b)
  {
    var l, l' := a + b, a + [cur] + b;
    forall e | e in l' ensures e.InRange() && e.typ != Unlck {
      assert e == cur || e in l;
    }
    forall i, j | 0 <= i < j < |l'| && l'[i].owner == l'[j].owner
      ensures l'[i].end < l'[j].start
      ensures apart && Canonical(l) && l'[i].typ == l'[j].typ ==> l'[i].end + 1 < l'[j].start
    {
      if i == |a| {
        assert l'[j] in b;
      } else if j == |a| {
        assert l'[i] in a;
      } else {
        assert l'[i] == l[if i < |a| then i else i - 1] && l'[j] == l[if j < |a| then j else j - 1];
      }
    }
  }

  lemma FinishInsert(l0: seq<Lock>, request: Lock, l: seq<Lock>, cur: Lock, p: int)
    requires Progress(l0, request, l, cur, p) && request.typ != Unlck
    requires Ahead(l[p..], cur)
    ensures Sorted(l[..p] + [cur] + l[p..])
    ensures Canonical(l0) ==> Canonical(l[..p] + [cur] + l[p..])
    ensures IsUpdate(l0, l[..p] + [cur] + l[p..], request)
  {
    var a, b := l[..p], l[p..];
    var l' := a + [cur] + b;
    assert l == a + b;
    InsertSorted(a, cur, b, Canonical(l0));
    forall o: nat, x: int
      ensures Held(l', o, x) == if request.Has(o, x) then request.typ else Held(l0, o, x)
    {
      if cur.Has(o, x) {
        HeldAt(l', p, o, x);
      } else {
        assert forall e | e in a + [cur] :: e in l';
        HeldAround(a, [cur], b, o, x);
        HeldAppend(a, b, o, x);
      }
    }
  }

  // ----- Which process a lock is attributed to -----

  /** A part of a lock, attributed to the same process. */
  ghost predicate PartOf(l: Lock, whole: Lock) {
    l.typ == whole.typ && l.owner == whole.owner && l.pid == whole.pid && whole.start <= l.start && l.end <= whole.end
  }

  ghost predicate HasWhole(l0: seq<Lock>, l: Lock) {
    exists i :: 0 <= i < |l0| && PartOf(l, l0[i])
  }

  /** Every lock is a part of one that was there before. */
  ghost predicate AllParts(l0: seq<Lock>, locks: seq<Lock>) {
    forall l {:trigger HasWhole(l0, l)} | l in locks :: HasWhole(l0, l)
  }

  lemma PartsSelf(l0: seq<Lock>)
    ensures AllParts(l0, l0)
  {
    forall l | l in l0 ensures HasWhole(l0, l) {
      var i :| 0 <= i < |l0| && l0[i] == l;
      assert PartOf(l, l0[i]);
    }
  }

  lemma PartsReplaced(l0: seq<Lock>, locks: seq<Lock>, p: nat, m: seq<Lock>)
    requires AllParts(l0, locks) && p < |locks| && forall l | l in m :: PartOf(l, locks[p])
    ensures AllParts(l0, locks[..p] + m + locks[p + 1..])
  {
    assert locks[p] in locks && HasWhole(l0, locks[p]);
    forall l | l in locks[..p] + m + locks[p + 1..] ensures HasWhole(l0, l) {
      if l in m {
        var i :| 0 <= i < |l0| && PartOf(locks[p], l0[i]);
        assert PartOf(l, l0[i]);
      } else {
        assert l in locks && HasWhole(l0, l);
      }
    }
  }

  lemma PartsDropped(l0: seq<Lock>, locks: seq<Lock>, p: nat)
    requires AllParts(l0, locks) && p < |locks|
    ensures AllParts(l0, locks[..p] + locks[p + 1..])
  {
    PartsReplaced(l0, locks, p, []);
    assert locks[..p] + [] == locks[..p];
  }

  lemma PartsCut(l0: seq<Lock>, locks: seq<Lock>, p: nat, cur: Lock)
    requires AllParts(l0, locks) && p < |locks| && cur.start <= locks[p].end && locks[p].start <= cur.end
    ensures AllParts(l0, locks[..p] + Remains(locks[p], cur) + locks[p + 1..])
  {
    PartsReplaced(l0, locks, p, Remains(locks[p], cur));
  }

  /** The part of the loop body for an overlapping lock of another type: delete it, trim it at
      its end or at its start (which ends the scan), or split it using the spare node. */
  method Cut(locks: seq<Lock>, lock: Lock, p: nat, spare: bool)
    returns (locks': seq<Lock>, p': nat, spare': bool, stop: bool)
    requires p < |locks| && locks[p].InRange()
    requires lock.start <= locks[p].end && locks[p].start <= lock.end
    requires spare || (lock.start <= 0 && OFFSET_MAX <= lock.end)
    ensures locks' == locks[..p] + Remains(locks[p], lock) + locks[p + 1..]
    ensures p' == if locks[p].start < lock.start then p + 1 else p
    ensures spare' == (spare && !(locks[p].start < lock.start && lock.end < locks[p].end))
    ensures stop <==> lock.start <= locks[p].start && lock.end < locks[p].end
  {
    var l := locks[p];
    locks', p', spare', stop := locks, p, spare, false;
    if lock.start <= l.start && l.end <= lock.end {
      locks' := locks'[..p] + locks'[p + 1..];
    } else if l.end <= lock.end {
      locks' := locks'[p := l.(end := lock.start - 1)];
      p' := p + 1;
    } else if lock.start <= l.start {
      locks' := locks'[p := l.(start := lock.end + 1)];
      stop := true;
    } else {
      assert spare;
      var newl2 := l.(start := lock.end + 1);
      locks' := locks'[p := l.(end := lock.start - 1)];
      locks' := locks'[..p + 1] + [newl2] + locks'[p + 1..];
      spare' := false;
      p' := p + 1;
    }
  }

  /** The loop of `locks_insert`: merges, trims, deletes and splits what the request meets.
      `done` is the early exit for a request that one lock already grants; otherwise `p` is
      where the grown request belongs.  Only one split can happen: what follows it is ahead. */
  method Scan(l0: seq<Lock>, request: Lock, spare: bool)
    returns (done: bool, locks: seq<Lock>, lock: Lock, p: nat)
    requires Sorted(l0) && request.InRange()
    requires spare || (request.typ == Unlck && request.start == 0 && request.end == OFFSET_MAX)
    ensures Progress(l0, request, locks, lock, p)
    ensures done ==> request.typ != Unlck && IsUpdate(l0, locks, request)
    ensures !done ==> Ahead(locks[p..], lock)
    ensures |locks| <= |l0| + 1
    ensures AllParts(l0, locks) && lock.pid == request.pid
  {
    PartsSelf(l0);
    done, locks, lock, p := false, l0, request, 0;
    var newl2 := spare;
    assert locks[..0] == [];
    while p < |locks|
      invariant !done && Progress(l0, request, locks, lock, p)
      invariant newl2 != spare ==>
                  p < |locks| && locks[p].owner == lock.owner && locks[p].typ != lock.typ && lock.end < locks[p].start
      invariant |locks| <= |l0| + (if newl2 == spare then 0 else 1)
      invariant AllParts(l0, locks) && lock.pid == request.pid
      decreases newl2, |locks| - p
    {
      var l := locks[p];
      assert l in locks;
      if l.owner != lock.owner {
        StepSkip(l0, request, locks, lock, p);
        p := p + 1;
      } else if lock.typ == l.typ {
        if l.end < lock.start - 1 {
          StepSkip(l0, request, locks, lock, p);
          p := p + 1;
        } else if lock.end < l.start - 1 {
          PastIsAhead(locks, p, lock);
          break;
        } else if l.start <= lock.start && lock.end <= l.end {
          FinishContained(l0, request, locks, lock, p);
          done := true;
          break;
        } else {
          ghost var cur := lock;
          if l.start < lock.start {
            lock := lock.(start := l.start);
          }
          if lock.end < l.end {
            lock := lock.(end := l.end);
          }
          StepMerge(l0, request, locks, cur, p, lock);
          PartsDropped(l0, locks, p);
          locks := locks[..p] + locks[p + 1..];
        }
      } else {
        if l.end < lock.start {
          StepSkip(l0, request, locks, lock, p);
          p := p + 1;
        } else if lock.end < l.start {
          PastIsAhead(locks, p, lock);
          break;
        } else {
          StepCut(l0, request, locks, lock, p);
          PartsCut(l0, locks, p, lock);
          var stop;
          locks, p, newl2, stop := Cut(locks, lock, p, newl2);
          if stop {
            PastIsAhead(locks, p, lock);
            break;
          }
        }
      }
    }
  }

  // ----- The lock list of an inode -----

  class InodeLocks {
    var locks: seq<Lock>

    constructor ()
      ensures Canonical(locks)
      ensures forall o: nat, x: int :: Held(locks, o, x) == Unlck
    {
      locks := [];
    }

    /** Grants or releases a range.  Two list nodes are allocated beforehand, except to release
        everything, which therefore cannot fail. */
    method LocksInsert(request: Lock, canAllocate: bool) returns (err: int)
      requires Sorted(locks) && request.InRange()
      modifies this
      ensures err == 0 || err == -ENOLCK
      ensures err == -ENOLCK <==>
                !canAllocate && !(request.typ == Unlck && request.start == 0 && request.end == OFFSET_MAX)
      ensures err != 0 ==> locks == old(locks)
      ensures err == 0 ==> IsUpdate(old(locks), locks, request)
      ensures Sorted(locks) && (old(Canonical(locks)) ==> Canonical(locks))
      ensures |locks| <= |old(locks)| + (if request.typ == Unlck then 1 else 2)
      ensures forall l | l in locks ::
                HasWhole(old(locks), l) || (l.typ == request.typ && l.owner == request.owner && l.pid == request.pid)
    {
      var newl1, newl2 := false, false;
      if request.typ != Unlck || request.start != 0 || request.end != OFFSET_MAX {
        if !canAllocate {
          return -ENOLCK;
        }
        newl1, newl2 := true, true;
      }
      var done, lock, p;
      done, locks, lock, p := Scan(locks, request, newl2);
      if done {
        return 0;
      }
      if lock.typ != Unlck {
        assert newl1;
        FinishInsert(old(locks), request, locks, lock, p);
        locks := locks[..p] + [lock] + locks[p..];
      } else {
        FinishUnlock(old(locks), request, locks, lock, p);
      }
      return 0;
    }
  }

  // ----- The canonical form is unique -----

  /** The locks of one owner in list order, without the process id that only labels them. */
  function Spans(locks: seq<Lock>, o: nat): (r: seq<Lock>)
    ensures forall l | l in r :: l.owner == o && l.pid == 0
  {
    if locks == [] then []
    else if locks[0].owner == o then [locks[0].(pid := 0)] + Spans(locks[1..], o)
    else Spans(locks[1..], o)
  }

  lemma {:induction false} SpansMeaning(locks: seq<Lock>, o: nat, x: int)
    ensures Held(Spans(locks, o), o, x) == Held(locks, o, x)
  {
    if locks != [] {
      SpansMeaning(locks[1..], o, x);
      var r := Spans(locks, o);
      if locks[0].owner == o {
        assert r[1..] == Spans(locks[1..], o);
      }
    }
  }

  lemma {:induction false} SpanSource(locks: seq<Lock>, o: nat, j: nat) returns (i: nat)
    requires j < |Spans(locks, o)|
    ensures i < |locks| && locks[i].owner == o && Spans(locks, o)[j] == locks[i].(pid := 0)
  {
    if locks[0].owner == o && j == 0 {
      i := 0;
    } else {
      i := SpanSource(locks[1..], o, if locks[0].owner == o then j - 1 else j);
      i := i + 1;
    }
  }

  lemma ConsCanonical(l: Lock, t: seq<Lock>)
    requires Canonical(t) && l.InRange() && l.typ != Unlck
    requires Ahead(t, l)
    ensures Canonical([l] + t)
  {
    var r := [l] + t;
    forall e | e in r ensures e.InRange() && e.typ != Unlck {
      assert e == l || e in t;
    }
    forall i, j | 0 <= i < j < |r| && r[i].owner == r[j].owner
      ensures r[i].end < r[j].start && (r[i].typ == r[j].typ ==> r[i].end + 1 < r[j].start)
    {
      assert r[j] in t;
      assert i > 0 ==> r[i] == t[i - 1] && r[j] == t[j - 1];
    }
  }

  lemma {:induction false} SpansCanonical(locks: seq<Lock>, o: nat)
    requires Canonical(locks)
    ensures Canonical(Spans(locks, o))
  {
    if locks != [] {
      assert Canonical(locks[1..]);
      SpansCanonical(locks[1..], o);
      if locks[0].owner == o {
        var rt := Spans(locks[1..], o);
        forall l | l in rt
          ensures locks[0].end < l.start && (locks[0].typ == l.typ ==> locks[0].end + 1 < l.start)
        {
          var j :| 0 <= j < |rt| && rt[j] == l;
          var i := SpanSource(locks[1..], o, j);
          assert locks[i + 1] == locks[1..][i];
        }
        assert locks[0] in locks;
        ConsCanonical(locks[0].(pid := 0), rt);
      }
    }
  }

  /** A canonical list of one owner. */
  ghost predicate SpanList(a: seq<Lock>, o: nat) {
    Canonical(a) && forall l | l in a :: l.owner == o && l.pid == 0
  }

  ghost predicate SameMeaning(a: seq<Lock>, b: seq<Lock>, o: nat) {
    forall x: int :: Held(a, o, x) == Held(b, o, x)
  }

  lemma NoneBeforeFirst(a: seq<Lock>, o: nat, x: int)
    requires SpanList(a, o) && (a == [] || x < a[0].start)
    ensures Held(a, o, x) == Unlck
  {
    forall l | l in a ensures !l.Has(o, x) {
      var i :| 0 <= i < |a| && a[i] == l;
      assert a[0] in a;
    }
    HeldNone(a, o, x);
  }

  lemma NotTwice(a: seq<Lock>, o: nat, x: int)
    requires Sorted(a) && a != [] && a[0].Has(o, x)
    ensures Held(a[1..], o, x) == Unlck
  {
    forall l | l in a[1..] ensures !l.Has(o, x) {
      var i :| 0 < i < |a| && a[i] == l;
    }
    HeldNone(a[1..], o, x);
  }

  /** The first span of a canonical list cannot end earlier than that of one with its meaning. */
  lemma FirstNotShorter(a: seq<Lock>, b: seq<Lock>, o: nat)
    requires SpanList(a, o) && SpanList(b, o) && a != [] && b != [] && SameMeaning(a, b, o)
    requires a[0].start == b[0].start && a[0].typ == b[0].typ
    ensures a[0].end >= b[0].end
  {
    assert a[0] in a && b[0] in b;
    if a[0].end < b[0].end {
      var x := a[0].end + 1;
      HeldAt(b, 0, o, x);
      var i := HeldSome(a, o, x);
    }
  }

  lemma FirstEqual(a: seq<Lock>, b: seq<Lock>, o: nat)
    requires SpanList(a, o) && SpanList(b, o) && a != [] && b != [] && SameMeaning(a, b, o)
    ensures a[0] == b[0]
  {
    assert a[0] in a && b[0] in b;
    HeldAt(a, 0, o, a[0].start);
    HeldAt(b, 0, o, b[0].start);
    if a[0].start < b[0].start {
      NoneBeforeFirst(b, o, a[0].start);
    } else if b[0].start < a[0].start {
      NoneBeforeFirst(a, o, b[0].start);
    } else {
      FirstNotShorter(a, b, o);
      FirstNotShorter(b, a, o);
    }
  }

  lemma TailAgrees(a: seq<Lock>, b: seq<Lock>, o: nat)
    requires SpanList(a, o) && SpanList(b, o) && a != [] && b != [] && SameMeaning(a, b, o) && a[0] == b[0]
    ensures SpanList(a[1..], o) && SpanList(b[1..], o) && SameMeaning(a[1..], b[1..], o)
  {
    forall x: int ensures Held(a[1..], o, x) == Held(b[1..], o, x) {
      assert Held(a, o, x) == Held(b, o, x);
      if a[0].Has(o, x) {
        NotTwice(a, o, x);
        NotTwice(b, o, x);
      }
    }
  }

  lemma EmptyAlone(a: seq<Lock>, o: nat)
    requires SpanList(a, o) && SameMeaning(a, [], o)
    ensures a == []
  {
    if a != [] {
      assert a[0] in a;
      HeldAt(a, 0, o, a[0].start);
    }
  }

  /** The table determines the list: two canonical single-owner lists with one meaning are equal. */
  lemma {:induction false} SpansUnique(a: seq<Lock>, b: seq<Lock>, o: nat)
    requires SpanList(a, o) && SpanList(b, o) && SameMeaning(a, b, o)
    ensures a == b
  {
    if a == [] {
      EmptyAlone(b, o);
    } else if b == [] {
      EmptyAlone(a, o);
    } else {
      FirstEqual(a, b, o);
      TailAgrees(a, b, o);
      SpansUnique(a[1..], b[1..], o);
      assert a == [a[0]] + a[1..] && b == [b[0]] + b[1..];
    }
  }

  /** Whatever interleaving of owners and whatever history led to two canonical lists, if they
      mean the same table they hold the same locks for every owner. */
  lemma CanonicalFormUnique(a: seq<Lock>, b: seq<Lock>, o: nat)
    requires Canonical(a) && Canonical(b) && SameMeaning(a, b, o)
    ensures Spans(a, o) == Spans(b, o)
  {
    SpansCanonical(a, o);
    SpansCanonical(b, o);
    forall x: int ensures Held(Spans(a, o), o, x) == Held(Spans(b, o), o, x) {
      SpansMeaning(a, o, x);
      SpansMeaning(b, o, x);
    }
    SpansUnique(Spans(a, o), Spans(b, o), o);
  }

  // ----- Conflicts and mutual exclusion -----

  predicate Clash(a: LockType, b: LockType) {
    a != Unlck && b != Unlck && (a == Wrlck || b == Wrlck)
  }

  /** Some byte of the request is held by another owner in a way that excludes the request. */
  ghost predicate Conflicts(locks: seq<Lock>, request: Lock) {
    exists o: nat, x: int :: o != request.owner && request.start <= x <= request.end
                             && Clash(Held(locks, o, x), request.typ)
  }

  predicate Overlaps(l: Lock, request: Lock) {
    && l.owner != request.owner && request.start <= l.end && l.start <= request.end
    && (l.typ == Wrlck || request.typ == Wrlck)
  }

  /** Some byte of the request is held by another owner, one of the two types being a write lock.  For the type
      of an unlock, these are the bytes write-locked by others. */
  ghost predicate Blocked(locks: seq<Lock>, request: Lock) {
    exists o: nat, x: int :: BlockedAt(locks, request, o, x)
  }

  predicate BlockedAt(locks: seq<Lock>, request: Lock, o: nat, x: int) {
    && o != request.owner && request.start <= x <= request.end
    && Held(locks, o, x) != Unlck && (Held(locks, o, x) == Wrlck || request.typ == Wrlck)
  }

  lemma BlockedMeaning(locks: seq<Lock>, request: Lock)
    ensures Conflicts(locks, request) <==> Blocked(locks, request) && request.typ != Unlck
  {
    if Conflicts(locks, request) {
      var o: nat, x: int :| o != request.owner && request.start <= x <= request.end
                            && Clash(Held(locks, o, x), request.typ);
      assert BlockedAt(locks, request, o, x);
    }
    if Blocked(locks, request) && request.typ != Unlck {
      var o: nat, x: int :| BlockedAt(locks, request, o, x);
      assert Clash(Held(locks, o, x), request.typ);
    }
  }

  /** `locks_conflict`: the first list element of another owner that overlaps the request, one of
      the two being a write lock. */
  method LocksConflict(locks: seq<Lock>, request: Lock) returns (r: Option<Lock>)
    requires Sorted(locks) && request.InRange()
    ensures r.Some? <==> Blocked(locks, request)
    ensures request.typ != Unlck ==> (r.Some? <==> Conflicts(locks, request))
    ensures r.Some? ==> exists i | 0 <= i < |locks| ::
              && r.value == locks[i] && Overlaps(locks[i], request)
              && (forall k | 0 <= k < i :: !Overlaps(locks[k], request))
  {
    BlockedMeaning(locks, request);
    for i := 0 to |locks|
      invariant forall k | 0 <= k < i :: !Overlaps(locks[k], request)
    {
      var l := locks[i];
      if l.owner != request.owner && request.start <= l.end && l.start <= request.end
         && (l.typ == Wrlck || request.typ == Wrlck) {
        var x := if l.start < request.start then request.start else l.start;
        assert l in locks;
        HeldAt(locks, i, l.owner, x);
        assert BlockedAt(locks, request, l.owner, x);
        return Some(l);
      }
    }
    if Blocked(locks, request) {
      ghost var o: nat, x: int :| BlockedAt(locks, request, o, x);
      ghost var i := HeldSome(locks, o, x);
      assert Overlaps(locks[i], request);
    }
    return None;
  }

  /** No byte is write-locked by one owner while locked by another. */
  ghost predicate Exclusive(locks: seq<Lock>) {
    forall o1: nat, o2: nat, x: int | o1 != o2 :: !Clash(Held(locks, o1, x), Held(locks, o2, x))
  }

  /** An update keeps mutual exclusion exactly when `locks_conflict` finds nothing. */
  lemma ExclusionStep(before: seq<Lock>, after: seq<Lock>, request: Lock)
    requires Exclusive(before) && IsUpdate(before, after, request)
    ensures Exclusive(after) <==> !Conflicts(before, request)
  {
    if Conflicts(before, request) {
      var o: nat, x: int :| o != request.owner && request.start <= x <= request.end
                            && Clash(Held(before, o, x), request.typ);
      assert Clash(Held(after, o, x), Held(after, request.owner, x));
    } else {
      forall o1: nat, o2: nat, x: int | o1 != o2
        ensures !Clash(Held(after, o1, x), Held(after, o2, x))
      {
        assert !Clash(Held(before, o1, x), Held(before, o2, x));
        if request.Has(o1, x) {
          assert !Clash(Held(before, o2, x), request.typ);
        } else if request.Has(o2, x) {
          assert !Clash(Held(before, o1, x), request.typ);
        }
      }
    }
  }

  /** Two owners that write-lock the same byte: the second is a conflict, and its insertion breaks exclusion. */
  lemma OneByteTwoOwners(a: Lock, b: Lock)
    requires a == Lock(Wrlck, 0, 0, 1, 1) && b == Lock(Wrlck, 0, 0, 2, 2)
    ensures Sorted([a]) && Exclusive([a]) && Conflicts([a], b)
    ensures Sorted([a, b]) && IsUpdate([a], [a, b], b) && !Exclusive([a, b])
  {
    assert [a, b] == [a] + [b];
    forall o: nat, x: int ensures Held([a, b], o, x) == if b.Has(o, x) then Wrlck else Held([a], o, x) {
      HeldAppend([a], [b], o, x);
    }
    assert Clash(Held([a], 1, 0), b.typ);
    assert Clash(Held([a, b], 1, 0), Held([a, b], 2, 0));
  }

  /** A run of the table from empty: each step is one successful insertion, made for a read or
      write lock only when no conflict was found. */
  ghost predicate Run(tables: seq<seq<Lock>>, requests: seq<Lock>) {
    && |tables| == |requests| + 1 && tables[0] == []
    && (forall k | 0 <= k < |requests| ::
          && (requests[k].typ == Unlck || !Conflicts(tables[k], requests[k]))
          && IsUpdate(tables[k], tables[k + 1], requests[k]))
  }

  lemma {:induction false} MutualExclusion(tables: seq<seq<Lock>>, requests: seq<Lock>, k: nat)
    requires Run(tables, requests) && k < |tables|
    ensures Exclusive(tables[k])
  {
    if k > 0 {
      MutualExclusion(tables, requests, k - 1);
      ExclusionStep(tables[k - 1], tables[k], requests[k - 1]);
    }
  }

  /** What a run leaves at a byte is the last request made there by that owner. */
  lemma {:induction false} LastRequestWins(tables: seq<seq<Lock>>, requests: seq<Lock>, o: nat, x: int)
    requires Run(tables, requests)
    ensures Held(tables[|requests|], o, x) == LastRequest(requests, o, x)
  {
    if requests != [] {
      var n := |requests| - 1;
      assert Run(tables[..n + 1], requests[..n]);
      LastRequestWins(tables[..n + 1], requests[..n], o, x);
      assert IsUpdate(tables[n], tables[n + 1], requests[n]);
    }
  }

  function LastRequest(requests: seq<Lock>, o: nat, x: int): LockType {
    if requests == [] then Unlck
    else if requests[|requests| - 1].Has(o, x) then requests[|requests| - 1].typ
    else LastRequest(requests[..|requests| - 1], o, x)
  }

  // ----- struct flock -----

  /** The fields of `struct flock` that the library uses; a zero length means "to the end". */
  datatype Flock = Flock(ltype: LockType, lstart: int, llen: int, lpid: int)

  /** The lock covers for its owner exactly the bytes of the kernel's range. */
  lemma FlockMeaning(f: Flock, owner: nat, o: nat, x: int)
    requires f.llen >= 0
    ensures var l := FlockToLock(f, owner);
            && l.typ == f.ltype && l.pid == f.lpid && l.owner == owner
            && (l.Has(o, x) <==>
                  o == owner && f.lstart <= x && if f.llen == 0 then x <= OFFSET_MAX else x < f.lstart + f.llen)
    ensures forall l: Lock ::
              LockToFlock(l).ltype == l.typ && LockToFlock(l).lpid == l.pid && LockToFlock(l).lstart == l.start
  {
  }

  function FlockToLock(f: Flock, owner: nat): (l: Lock)
    ensures f.lstart >= 0 && f.llen >= 0 && f.lstart + f.llen - 1 <= OFFSET_MAX && f.lstart <= OFFSET_MAX ==>
              l.InRange()
  {
    Lock(f.ltype, f.lstart, if f.llen != 0 then f.lstart + f.llen - 1 else OFFSET_MAX, f.lpid, owner)
  }

  function LockToFlock(l: Lock): (f: Flock)
    ensures l.InRange() ==> FlockToLock(f, l.owner) == l
  {
    Flock(l.typ, l.start, if l.end == OFFSET_MAX then 0 else l.end - l.start + 1, l.pid)
  }

  /** Exactly the explicit length that reaches the largest offset is not given back: it comes
      back as zero, which means the same range. */
  lemma FlockRoundTrip(f: Flock, owner: nat)
    ensures LockToFlock(FlockToLock(f, owner)) == f <==> (f.llen == 0 || f.lstart + f.llen - 1 != OFFSET_MAX)
  {
  }

  /** The last byte alone, as a range of length one. */
  lemma LastByteAlone(owner: nat)
    ensures var f := Flock(Rdlck, OFFSET_MAX, 1, 0);
            FlockToLock(f, owner).InRange() && LockToFlock(FlockToLock(f, owner)) == f.(llen := 0)
  {
  }
}
