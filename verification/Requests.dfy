/** Requests and interrupts of the low-level session (fuse_lowlevel.c), as a state machine whose steps
    are the stretches of code that run under a lock, interleaved in any order.  Pointers are never used
    again for another request, so that a request that is gone can be told from any other. */
module Requests {
  import opened Common

  type Tid = nat

  /** A request in memory.  `ctr` counts those that may still use it, `func` tells whether an interrupt
      function is set, `called` whether that function has been called, and `locker` is the interrupter
      that holds the lock of the request. */
  datatype Req = Req(unique: nat, ctr: int, interrupted: bool, func: bool, called: bool, locker: Option<Tid>)

  /** Where a thread is.
      - Handling: it works on its request, which has not been answered.
      - Refusing: before that, it answers the pending interrupt `q` with EAGAIN.
      - Replying: the answer is sent and the interrupt function cleared.
      - Leaving: its request is off the list, `ctr` uses being left at that time.
      - Holding, Locking, Marking, Calling: it interrupts `p`: has counted itself in, has the lock of
        `p`, has marked `p`, has called the function and released the lock. */
  datatype Pc =
    | Handling(p: Ptr) | Refusing(q: Ptr, p: Ptr) | Replying(p: Ptr) | Leaving(p: Ptr, ctr: int)
    | Holding(q: Ptr, p: Ptr) | Locking(q: Ptr, p: Ptr) | Marking(q: Ptr, p: Ptr) | Calling(q: Ptr, p: Ptr)

  /** What has become of an interrupt request; in the first three cases it is still in memory. */
  datatype Fate = Waiting | Held(t: Tid) | Refused(t: Tid) | Delivered(p: Ptr) | Merged(other: Ptr) | Again

  datatype Note = Note(target: nat, fate: Fate)

  /** Number and thread of a request, for ever. */
  datatype Birth = Birth(unique: nat, owner: Tid)

  datatype State = State(reqs: map<Ptr, Req>, list: seq<Ptr>, pending: seq<Ptr>, notes: map<Ptr, Note>,
                         threads: map<Tid, Pc>,
                         born: map<Ptr, Birth>, flagged: set<Ptr>)

  const START := State(map[], [], [], map[], map[], map[], {})

  // ----- Searching the two lists -----

  function IndexOf(list: seq<Ptr>, key: map<Ptr, nat>, id: nat): (i: nat)
    requires forall p | p in list :: p in key
    ensures i <= |list| && (i < |list| ==> key[list[i]] == id) && forall j | 0 <= j < i :: key[list[j]] != id
  {
    if list == [] || key[list[0]] == id then 0 else 1 + IndexOf(list[1..], key, id)
  }

  function Uniques(s: State): map<Ptr, nat> {
    map p | p in s.reqs :: s.reqs[p].unique
  }

  function Targets(s: State): map<Ptr, nat> {
    map q | q in s.notes :: s.notes[q].target
  }

  /** Everything on the two lists is in memory, so that they can be walked. */
  predicate Intact(s: State) {
    (forall p | p in s.list :: p in s.reqs) && (forall q | q in s.pending :: q in s.notes && s.notes[q].fate == Waiting)
  }

  // ----- The steps -----

  datatype Outcome = Fault | Ok(s: State)

  /** Arrival of a request, in `fuse_ll_process`: a pending interrupt for it marks it, another one is
      refused.  `check_interrupt` and `list_add_req` run under the session lock. */
  function Arrive(s: State, t: Tid, p: Ptr, u: nat): Outcome {
    if !Intact(s) then Fault else
      var i := IndexOf(s.pending, Targets(s), u);
      var r := Req(u, 1, false, false, false, None);
      var s' := s.(list := s.list + [p], born := s.born[p := Birth(u, t)]);
      if i < |s.pending| then
        Ok(s'.(reqs := s.reqs[p := r.(interrupted := true)], pending := Without(s.pending, i),
          flagged := s.flagged + {p},
               notes := s.notes[s.pending[i] := Note(u, Delivered(p))], threads := s.threads[t := Handling(p)]))
      else if s.pending != [] then
        var q := s.pending[0];
        Ok(s'.(reqs := s.reqs[p := r], pending := s.pending[1..],
          notes := s.notes[q := s.notes[q].(fate := Refused(t))],
               threads := s.threads[t := Refusing(q, p)]))
      else
        Ok(s'.(reqs := s.reqs[p := r], threads := s.threads[t := Handling(p)]))
  }

  predicate InMemory(s: State, q: Ptr) {
    q in s.notes && (s.notes[q].fate.Waiting? || s.notes[q].fate.Held? || s.notes[q].fate.Refused?)
  }

  /** The EAGAIN answer frees the interrupt request, which is on no list. */
  function Refuse(s: State, t: Tid): Outcome
    requires t in s.threads && s.threads[t].Refusing?
  {
    var q := s.threads[t].q;
    if !InMemory(s, q) then Fault else
      Ok(s.(notes := s.notes[q := s.notes[q].(fate := Again)], threads := s.threads[t := Handling(s.threads[t].p)]))
  }

  /** `fuse_req_interrupt_func`, under the lock of the request. */
  function SetFunc(s: State, t: Tid, f: bool): Outcome
    requires t in s.threads && s.threads[t].Handling?
  {
    var p := s.threads[t].p;
    if p !in s.reqs then Fault else
      Ok(s.(reqs := s.reqs[p := s.reqs[p].(func := f, called := s.reqs[p].interrupted && f)]))
  }

  /** The first part of `free_req`, under the lock of the request. */
  function Clear(s: State, t: Tid): Outcome
    requires t in s.threads && s.threads[t].Handling?
  {
    var p := s.threads[t].p;
    if p !in s.reqs then Fault else
      Ok(s.(reqs := s.reqs[p := s.reqs[p].(func := false, called := false)], threads := s.threads[t := Replying(p)]))
  }

  function Removed(list: seq<Ptr>, p: Ptr): seq<Ptr> {
    if list == [] then [] else if list[0] == p then list[1..] else [list[0]] + Removed(list[1..], p)
  }

  /** The second part of `free_req`, under the session lock. */
  function Unlist(s: State, t: Tid): Outcome
    requires t in s.threads && s.threads[t].Replying?
  {
    var p := s.threads[t].p;
    if p !in s.reqs then Fault else
      var n := s.reqs[p].ctr - 1;
      Ok(s.(list := Removed(s.list, p), reqs := s.reqs[p := s.reqs[p].(ctr := n)],
        threads := s.threads[t := Leaving(p, n)]))
  }

  /** The end of `free_req`: the last user destroys the request. */
  function Finish(s: State, t: Tid): Outcome
    requires t in s.threads && s.threads[t].Leaving?
  {
    var p := s.threads[t].p;
    if s.threads[t].ctr != 0 then Ok(s.(threads := s.threads - {t}))
    else if p !in s.reqs then Fault
    else Ok(s.(reqs := s.reqs - {p}, threads := s.threads - {t}))
  }

  /** Arrival of an interrupt: `do_interrupt` up to where `find_interrupted` drops the session lock. */
  function Interrupt(s: State, t: Tid, q: Ptr, id: nat): Outcome {
    if !Intact(s) then Fault else
      var i, j := IndexOf(s.list, Uniques(s), id), IndexOf(s.pending, Targets(s), id);
      if i < |s.list| then
        var p := s.list[i];
        Ok(s.(reqs := s.reqs[p := s.reqs[p].(ctr := s.reqs[p].ctr + 1)], notes := s.notes[q := Note(id, Held(t))],
              threads := s.threads[t := Holding(q, p)]))
      else if j < |s.pending| then
        Ok(s.(notes := s.notes[q := Note(id, Merged(s.pending[j]))]))
      else
        Ok(s.(notes := s.notes[q := Note(id, Waiting)], pending := s.pending + [q]))
  }

  /** The interrupter takes the lock of the request. */
  function Lock(s: State, t: Tid): Outcome
    requires t in s.threads && s.threads[t].Holding?
  {
    var p := s.threads[t].p;
    if p !in s.reqs then Fault else
      Ok(s.(reqs := s.reqs[p := s.reqs[p].(locker := Some(t))], threads := s.threads[t := Locking(s.threads[t].q, p)]))
  }

  /** It marks the request, under the session lock. */
  function Mark(s: State, t: Tid): Outcome
    requires t in s.threads && s.threads[t].Locking?
  {
    var p := s.threads[t].p;
    if p !in s.reqs then Fault else
      Ok(s.(reqs := s.reqs[p := s.reqs[p].(interrupted := true)], flagged := s.flagged + {p},
            threads := s.threads[t := Marking(s.threads[t].q, p)]))
  }

  /** It calls the interrupt function, if one is set, and releases the lock. */
  function Call(s: State, t: Tid): Outcome
    requires t in s.threads && s.threads[t].Marking?
  {
    var p := s.threads[t].p;
    if p !in s.reqs then Fault else
      Ok(s.(reqs := s.reqs[p := s.reqs[p].(called := s.reqs[p].called || s.reqs[p].func, locker := None)],
            threads := s.threads[t := Calling(s.threads[t].q, p)]))
  }

  /** It counts itself out, destroys the request if it was the last user, and the interrupt request. */
  function Drop(s: State, t: Tid): Outcome
    requires t in s.threads && s.threads[t].Calling?
  {
    var p, q := s.threads[t].p, s.threads[t].q;
    if p !in s.reqs || !InMemory(s, q) then Fault else
      var n := s.reqs[p].ctr - 1;
      Ok(s.(reqs := if n == 0 then s.reqs - {p} else s.reqs[p := s.reqs[p].(ctr := n)],
            notes := s.notes[q := s.notes[q].(fate := Delivered(p))], threads := s.threads - {t}))
  }

  // ----- The invariant -----

  predicate HoldsRef(pc: Pc, p: Ptr) {
    (pc.Holding? || pc.Locking? || pc.Marking? || pc.Calling?) && pc.p == p
  }

  ghost function Holders(threads: map<Tid, Pc>, p: Ptr): set<Tid> {
    set t | t in threads && HoldsRef(threads[t], p)
  }

  ghost predicate Owned(s: State, p: Ptr, t: Tid) {
    p in s.born && s.born[p].owner == t
  }

  ghost predicate ThreadOk(s: State, t: Tid)
    requires t in s.threads
  {
    match s.threads[t]
    case Handling(p) => p in s.list && Owned(s, p, t)
    case Replying(p) => p in s.list && Owned(s, p, t)
    case Refusing(q, p) => p in s.list && Owned(s, p, t) && q in s.notes && s.notes[q].fate == Refused(t)
    case Leaving(p, c) => p !in s.list && Owned(s, p, t) && (c == 0 ==> p in s.reqs && s.reqs[p].ctr == 0)
    case Holding(q, p) => Interrupts(s, t, q, p)
    case Locking(q, p) => Interrupts(s, t, q, p) && s.reqs[p].locker == Some(t)
    case Marking(q, p) => Interrupts(s, t, q, p) && s.reqs[p].locker == Some(t) && p in s.flagged
    case Calling(q, p) => Interrupts(s, t, q, p) && p in s.flagged
  }

  /** An interrupter uses a request that is in memory and is the one that its interrupt names. */
  ghost predicate Interrupts(s: State, t: Tid, q: Ptr, p: Ptr) {
    p in s.reqs && p in s.born && q in s.notes && s.notes[q] == Note(s.born[p].unique, Held(t))
  }

  ghost predicate OwnerAt(s: State, p: Ptr) {
    p in s.born && s.born[p].owner in s.threads
    && (s.threads[s.born[p].owner].Handling? || s.threads[s.born[p].owner].Refusing?
      || s.threads[s.born[p].owner].Replying?)
    && s.threads[s.born[p].owner].p == p
  }

  ghost predicate LockerAt(s: State, t: Tid, p: Ptr) {
    t in s.threads && (s.threads[t].Locking? || s.threads[t].Marking?) && s.threads[t].p == p
  }

  /** The function of an interrupted request is called, or about to be. */
  ghost predicate Signalled(s: State, p: Ptr)
    requires p in s.reqs
  {
    var r := s.reqs[p];
    r.interrupted && r.func && !(r.locker.Some? && r.locker.value in s.threads && s.threads[r.locker.value].Marking?)
    ==> r.called
  }

  ghost predicate ReqOk(s: State, p: Ptr)
    requires p in s.reqs
  {
    && p in s.born && s.reqs[p].unique == s.born[p].unique
    && s.reqs[p].ctr == (if p in s.list then 1 else 0) + |Holders(s.threads, p)|
    && (p in s.list ==> OwnerAt(s, p))
    && (s.reqs[p].ctr == 0 ==> s.born[p].owner in s.threads && s.threads[s.born[p].owner] == Leaving(p, 0))
    && (s.reqs[p].interrupted <==> p in s.flagged)
    && (s.reqs[p].locker.Some? ==> LockerAt(s, s.reqs[p].locker.value, p))
    && Signalled(s, p)
  }

  ghost predicate NoteOk(s: State, q: Ptr)
    requires q in s.notes
  {
    match s.notes[q].fate
    case Waiting => q in s.pending
    case Held(t) => t in s.threads && !s.threads[t].Refusing? && HoldsRef(s.threads[t], s.threads[t].p)
      && s.threads[t].q == q
    case Refused(t) => t in s.threads && s.threads[t].Refusing? && s.threads[t].q == q
    case Delivered(p) => p in s.born && s.born[p].unique == s.notes[q].target && p in s.flagged
    case Merged(o) => o in s.notes && s.notes[o].target == s.notes[q].target
    case Again => true
  }

  ghost predicate SameUnique(s: State, p: Ptr, q: Ptr) {
    p in s.list && q in s.list && p in s.born && q in s.born && s.born[p].unique == s.born[q].unique
  }

  ghost predicate SameTarget(s: State, p: Ptr, q: Ptr) {
    p in s.pending && q in s.pending && p in s.notes && q in s.notes && s.notes[p].target == s.notes[q].target
  }

  ghost predicate TargetsListed(s: State, q: Ptr, p: Ptr) {
    q in s.pending && p in s.list && q in s.notes && p in s.born && s.notes[q].target == s.born[p].unique
  }

  ghost predicate ListsOk(s: State) {
    && NoDup(s.list) && NoDup(s.pending) && Intact(s)
    && (forall p, q | SameUnique(s, p, q) :: p == q)
    && (forall p, q | SameTarget(s, p, q) :: p == q)
    && (forall q, p :: !TargetsListed(s, q, p))
  }

  ghost predicate Inv(s: State) {
    && ListsOk(s)
    && (forall t {:trigger ThreadOk(s, t)} | t in s.threads :: ThreadOk(s, t))
    && (forall p {:trigger ReqOk(s, p)} | p in s.reqs :: ReqOk(s, p))
    && (forall q {:trigger NoteOk(s, q)} | q in s.notes :: NoteOk(s, q))
    && (forall p {:trigger p in s.born} | p in s.list || p in s.reqs || p in s.flagged :: p in s.born)
  }

  lemma CardWithout(a: set<Tid>, t: Tid)
    ensures |a| == |a - {t}| + if t in a then 1 else 0
  {
    if t !in a {
      assert a - {t} == a;
    }
  }

  lemma OtherHolders(threads: map<Tid, Pc>, t: Tid, pc: Pc, p: Ptr)
    ensures Holders(threads[t := pc], p) - {t} == Holders(threads, p) - {t}
  {
  }

  lemma HoldersChange(threads: map<Tid, Pc>, t: Tid, pc: Pc, p: Ptr)
    ensures var before, after := t in threads && HoldsRef(threads[t], p), HoldsRef(pc, p);
            |Holders(threads[t := pc], p)|
              == |Holders(threads, p)| + (if after then 1 else 0) - (if before then 1 else 0)
  {
    CardWithout(Holders(threads, p), t);
    CardWithout(Holders(threads[t := pc], p), t);
    OtherHolders(threads, t, pc, p);
  }

  lemma HoldersGone(threads: map<Tid, Pc>, t: Tid, p: Ptr)
    requires t in threads
    ensures |Holders(threads - {t}, p)| == |Holders(threads, p)| - (if HoldsRef(threads[t], p) then 1 else 0)
  {
    CardWithout(Holders(threads, p), t);
    assert Holders(threads - {t}, p) == Holders(threads, p) - {t};
  }

  // ----- Steps that keep the lists -----

  lemma SameLists(s: State, s': State)
    requires ListsOk(s) && s'.list == s.list && s'.pending == s.pending && s'.born == s.born
    requires forall q | q in s.pending :: q in s'.notes && s'.notes[q] == s.notes[q]
    requires forall p | p in s.list :: p in s'.reqs
    ensures ListsOk(s')
  {
    forall p, q | SameUnique(s', p, q) ensures p == q {
      assert SameUnique(s, p, q);
    }
    forall p, q | SameTarget(s', p, q) ensures p == q {
      assert SameTarget(s, p, q);
    }
    forall q, p ensures !TargetsListed(s', q, p) {
      assert !TargetsListed(s, q, p);
    }
  }

  ghost predicate Unlocked(s: State, p: Ptr) {
    p in s.reqs ==> s.reqs[p].locker.None?
  }

  lemma SetFuncOk(s: State, t: Tid, f: bool, s': State)
    requires Inv(s) && t in s.threads && s.threads[t].Handling? && Unlocked(s, s.threads[t].p)
    requires SetFunc(s, t, f).Ok? ==> s' == SetFunc(s, t, f).s
    ensures SetFunc(s, t, f).Ok? && Inv(s')
  {
    assert ThreadOk(s, t);
    forall u | u in s'.threads ensures ThreadOk(s', u) {
      assert ThreadOk(s, u);
    }
    forall r | r in s'.reqs ensures ReqOk(s', r) {
      assert ReqOk(s, r);
    }
    forall q | q in s'.notes ensures NoteOk(s', q) {
      assert NoteOk(s, q);
    }
    SameLists(s, s');
  }

  lemma ClearOk(s: State, t: Tid, s': State)
    requires Inv(s) && t in s.threads && s.threads[t].Handling? && Unlocked(s, s.threads[t].p)
    requires Clear(s, t).Ok? ==> s' == Clear(s, t).s
    ensures Clear(s, t).Ok? && Inv(s')
  {
    assert ThreadOk(s, t);
    forall u | u in s'.threads ensures ThreadOk(s', u) {
      assert ThreadOk(s, u);
    }
    forall r | r in s'.reqs ensures ReqOk(s', r) {
      assert ReqOk(s, r);
      HoldersChange(s.threads, t, s'.threads[t], r);
    }
    forall q | q in s'.notes ensures NoteOk(s', q) {
      assert NoteOk(s, q);
    }
    SameLists(s, s');
  }

  lemma RefuseOk(s: State, t: Tid, s': State)
    requires Inv(s) && t in s.threads && s.threads[t].Refusing?
    requires Refuse(s, t).Ok? ==> s' == Refuse(s, t).s
    ensures Refuse(s, t).Ok? && Inv(s')
  {
    assert ThreadOk(s, t);
    forall u | u in s'.threads ensures ThreadOk(s', u) {
      assert ThreadOk(s, u);
    }
    forall r | r in s'.reqs ensures ReqOk(s', r) {
      assert ReqOk(s, r);
      HoldersChange(s.threads, t, s'.threads[t], r);
    }
    forall q | q in s'.notes ensures NoteOk(s', q) {
      assert NoteOk(s, q);
    }
    SameLists(s, s');
  }

  lemma LockOk(s: State, t: Tid, s': State)
    requires Inv(s) && t in s.threads && s.threads[t].Holding? && Unlocked(s, s.threads[t].p)
    requires Lock(s, t).Ok? ==> s' == Lock(s, t).s
    ensures Lock(s, t).Ok? && Inv(s')
  {
    assert ThreadOk(s, t);
    forall u | u in s'.threads ensures ThreadOk(s', u) {
      assert ThreadOk(s, u);
    }
    forall r | r in s'.reqs ensures ReqOk(s', r) {
      assert ReqOk(s, r);
      HoldersChange(s.threads, t, s'.threads[t], r);
    }
    forall q | q in s'.notes ensures NoteOk(s', q) {
      assert NoteOk(s, q);
    }
    SameLists(s, s');
  }

  lemma MarkOk(s: State, t: Tid, s': State)
    requires Inv(s) && t in s.threads && s.threads[t].Locking?
    requires Mark(s, t).Ok? ==> s' == Mark(s, t).s
    ensures Mark(s, t).Ok? && Inv(s')
  {
    assert ThreadOk(s, t);
    forall u | u in s'.threads ensures ThreadOk(s', u) {
      assert ThreadOk(s, u);
    }
    forall r | r in s'.reqs ensures ReqOk(s', r) {
      assert ReqOk(s, r);
      HoldersChange(s.threads, t, s'.threads[t], r);
    }
    forall q | q in s'.notes ensures NoteOk(s', q) {
      assert NoteOk(s, q);
    }
    SameLists(s, s');
  }

  lemma CallOk(s: State, t: Tid, s': State)
    requires Inv(s) && t in s.threads && s.threads[t].Marking?
    requires Call(s, t).Ok? ==> s' == Call(s, t).s
    ensures Call(s, t).Ok? && Inv(s')
  {
    assert ThreadOk(s, t);
    forall u | u in s'.threads ensures ThreadOk(s', u) {
      assert ThreadOk(s, u);
    }
    forall r | r in s'.reqs ensures ReqOk(s', r) {
      assert ReqOk(s, r);
      HoldersChange(s.threads, t, s'.threads[t], r);
    }
    forall q | q in s'.notes ensures NoteOk(s', q) {
      assert NoteOk(s, q);
    }
    SameLists(s, s');
  }

  /** Whoever uses a request is counted. */
  lemma NoHolder(s: State, p: Ptr, t: Tid)
    requires |Holders(s.threads, p)| == 0 && t in s.threads
    ensures !HoldsRef(s.threads[t], p)
  {
    assert t !in Holders(s.threads, p);
  }

  lemma FinishOk(s: State, t: Tid, s': State)
    requires Inv(s) && t in s.threads && s.threads[t].Leaving?
    requires Finish(s, t).Ok? ==> s' == Finish(s, t).s
    ensures Finish(s, t).Ok? && Inv(s')
  {
    var p := s.threads[t].p;
    assert ThreadOk(s, t);
    assert p in s.reqs ==> ReqOk(s, p);
    forall u | u in s'.threads ensures ThreadOk(s', u) {
      assert ThreadOk(s, u);
      if s.threads[t].ctr == 0 {
        NoHolder(s, p, u);
      }
    }
    forall r | r in s'.reqs ensures ReqOk(s', r) {
      assert ReqOk(s, r);
      HoldersGone(s.threads, t, r);
    }
    forall q | q in s'.notes ensures NoteOk(s', q) {
      assert NoteOk(s, q);
    }
    SameLists(s, s');
  }

  lemma OnlyHolder(s: State, p: Ptr, t: Tid, u: Tid)
    requires |Holders(s.threads, p)| == 1 && t in s.threads && u in s.threads && HoldsRef(s.threads[t], p)
             && HoldsRef(s.threads[u], p)
    ensures t == u
  {
    var h := Holders(s.threads, p);
    assert t in h && u in h;
    CardWithout(h, t);
    assert |h - {t}| == 0;
  }

  lemma DropOk(s: State, t: Tid, s': State)
    requires Inv(s) && t in s.threads && s.threads[t].Calling?
    requires Drop(s, t).Ok? ==> s' == Drop(s, t).s
    ensures Drop(s, t).Ok? && Inv(s')
  {
    var p := s.threads[t].p;
    assert ThreadOk(s, t) && ReqOk(s, p);
    HoldersGone(s.threads, t, p);
    forall u | u in s'.threads ensures ThreadOk(s', u) {
      assert ThreadOk(s, u);
      if HoldsRef(s.threads[u], p) && s.reqs[p].ctr == 1 {
        OnlyHolder(s, p, t, u);
      }
    }
    forall r | r in s'.reqs ensures ReqOk(s', r) {
      assert ReqOk(s, r);
      HoldersGone(s.threads, t, r);
    }
    forall q | q in s'.notes ensures NoteOk(s', q) {
      assert NoteOk(s, q);
    }
    SameLists(s, s');
  }

  // ----- Steps that change the lists -----

  lemma {:induction false} RemovedMembers(list: seq<Ptr>, p: Ptr)
    requires NoDup(list)
    ensures NoDup(Removed(list, p)) && forall x: Ptr :: x in Removed(list, p) <==> x in list && x != p
  {
    if list != [] {
      assert NoDup(list[1..]);
      RemovedMembers(list[1..], p);
      if list[0] == p {
        assert p !in list[1..];
      } else {
        var r := [list[0]] + Removed(list[1..], p);
        assert list[0] !in list[1..];
        forall i, j | 0 <= i < j < |r| ensures r[i] != r[j] {
          assert r[j] == Removed(list[1..], p)[j - 1];
          assert i > 0 ==> r[i] == Removed(list[1..], p)[i - 1];
        }
      }
      assert list == [list[0]] + list[1..];
    }
  }

  /** Lists that have only lost members. */
  lemma FewerLists(s: State, s': State)
    requires ListsOk(s) && s'.born == s.born && NoDup(s'.list) && NoDup(s'.pending)
    requires forall p | p in s'.list :: p in s.list && p in s'.reqs
    requires forall q | q in s'.pending :: q in s.pending && q in s'.notes && s'.notes[q] == s.notes[q]
    ensures ListsOk(s')
  {
    forall p, q | SameUnique(s', p, q) ensures p == q {
      assert SameUnique(s, p, q);
    }
    forall p, q | SameTarget(s', p, q) ensures p == q {
      assert SameTarget(s, p, q);
    }
    forall q, p ensures !TargetsListed(s', q, p) {
      assert !TargetsListed(s, q, p);
    }
  }

  lemma UnlistOk(s: State, t: Tid, s': State)
    requires Inv(s) && t in s.threads && s.threads[t].Replying?
    requires Unlist(s, t).Ok? ==> s' == Unlist(s, t).s
    ensures Unlist(s, t).Ok? && Inv(s')
  {
    var p := s.threads[t].p;
    assert ThreadOk(s, t) && ReqOk(s, p);
    RemovedMembers(s.list, p);
    forall u | u in s'.threads ensures ThreadOk(s', u) {
      assert ThreadOk(s, u);
    }
    forall r | r in s'.reqs ensures ReqOk(s', r) {
      assert ReqOk(s, r);
      HoldersChange(s.threads, t, s'.threads[t], r);
    }
    forall q | q in s'.notes ensures NoteOk(s', q) {
      assert NoteOk(s, q);
    }
    FewerLists(s, s');
  }

  /** A new request is nobody's yet. */
  lemma NewHolders(s: State, p: Ptr)
    requires Inv(s) && p !in s.born
    ensures Holders(s.threads, p) == {}
  {
    forall u | u in s.threads ensures !HoldsRef(s.threads[u], p) {
      assert ThreadOk(s, u);
    }
  }

  /** The list with a new request, whose number no listed request and no pending interrupt has. */
  lemma LongerList(s: State, s': State, p: Ptr, u: nat, t: Tid)
    requires ListsOk(s) && p !in s.born && s'.born == s.born[p := Birth(u, t)] && s'.list == s.list + [p]
             && NoDup(s'.pending)
    requires forall r | r in s.list :: r in s.born && s.born[r].unique != u
    requires forall r | r in s'.list :: r in s'.reqs
    requires forall q | q in s'.pending ::
               q in s.pending && q in s'.notes && s'.notes[q] == s.notes[q] && s.notes[q].target != u
    ensures ListsOk(s')
  {
    assert p !in s.list;
    forall r | r in s'.list && r != p ensures r in s.list {
    }
    forall r, q | SameUnique(s', r, q) ensures r == q {
      if r != p && q != p {
        assert SameUnique(s, r, q);
      }
    }
    forall r, q | SameTarget(s', r, q) ensures r == q {
      assert SameTarget(s, r, q);
    }
    forall q, r ensures !TargetsListed(s', q, r) {
      assert !TargetsListed(s, q, r);
    }
  }

  lemma ArriveLists(s: State, t: Tid, p: Ptr, u: nat, s': State)
    requires Inv(s) && p !in s.born && (forall r | r in s.list && r in s.born :: s.born[r].unique != u)
             && Arrive(s, t, p, u) == Ok(s')
    ensures ListsOk(s')
  {
    var i := IndexOf(s.pending, Targets(s), u);
    if i < |s.pending| {
      WithoutMembers(s.pending, i);
    }
    forall q | q in s'.pending
      ensures q in s.pending && q in s'.notes && s'.notes[q] == s.notes[q] && s.notes[q].target != u {
      ArrivePending(s, t, p, u, s', q);
    }
    LongerList(s, s', p, u, t);
  }

  lemma ArriveThreads(s: State, t: Tid, p: Ptr, u: nat, s': State, v: Tid)
    requires Inv(s) && t !in s.threads && p !in s.born && Arrive(s, t, p, u) == Ok(s') && v in s'.threads
    ensures ThreadOk(s', v)
  {
    if v != t {
      assert ThreadOk(s, v);
      assert !s.threads[v].Leaving? || s.threads[v].p != p;
    }
  }

  lemma ArriveReqNew(s: State, t: Tid, p: Ptr, u: nat, s': State)
    requires Inv(s) && t !in s.threads && p !in s.born && Arrive(s, t, p, u) == Ok(s')
    ensures p in s'.reqs && ReqOk(s', p)
  {
    HoldersChange(s.threads, t, s'.threads[t], p);
    NewHolders(s, p);
  }

  lemma ArriveReqs(s: State, t: Tid, p: Ptr, u: nat, s': State, r: Ptr)
    requires Inv(s) && t !in s.threads && p !in s.born && Arrive(s, t, p, u) == Ok(s') && r in s'.reqs
    ensures ReqOk(s', r)
  {
    if r == p {
      ArriveReqNew(s, t, p, u, s');
    } else {
      HoldersChange(s.threads, t, s'.threads[t], r);
      assert ReqOk(s, r);
    }
  }

  lemma ArriveNotes(s: State, t: Tid, p: Ptr, u: nat, s': State, q: Ptr)
    requires Inv(s) && t !in s.threads && p !in s.born && Arrive(s, t, p, u) == Ok(s') && q in s'.notes
    ensures NoteOk(s', q)
  {
    assert NoteOk(s, q);
    var i := IndexOf(s.pending, Targets(s), u);
    if i < |s.pending| {
      WithoutMembers(s.pending, i);
    } else if s.pending != [] {
      assert s.pending == [s.pending[0]] + s.pending[1..];
    }
  }

  lemma ArriveOk(s: State, t: Tid, p: Ptr, u: nat, s': State)
    requires Inv(s) && t !in s.threads && p !in s.born && forall r | r in s.list && r in s.born :: s.born[r].unique != u
    requires Arrive(s, t, p, u).Ok? ==> s' == Arrive(s, t, p, u).s
    ensures Arrive(s, t, p, u).Ok? && Inv(s')
  {
    ArriveLists(s, t, p, u, s');
    forall v | v in s'.threads ensures ThreadOk(s', v) {
      ArriveThreads(s, t, p, u, s', v);
    }
    forall r | r in s'.reqs ensures ReqOk(s', r) {
      ArriveReqs(s, t, p, u, s', r);
    }
    forall q | q in s'.notes ensures NoteOk(s', q) {
      ArriveNotes(s, t, p, u, s', q);
    }
  }

  lemma ArrivePending(s: State, t: Tid, p: Ptr, u: nat, s': State, q: Ptr)
    requires ListsOk(s) && Arrive(s, t, p, u) == Ok(s') && q in s'.pending
    ensures q in s.pending && q in s'.notes && s'.notes[q] == s.notes[q] && s.notes[q].target != u
  {
    var i := IndexOf(s.pending, Targets(s), u);
    if i < |s.pending| {
      WithoutMembers(s.pending, i);
      if s.notes[q].target == u {
        assert SameTarget(s, q, s.pending[i]);
      }
    } else {
      assert s.pending == [s.pending[0]] + s.pending[1..];
      var k :| 0 <= k < |s.pending| && s.pending[k] == q;
      assert Targets(s)[s.pending[k]] != u;
    }
  }

  lemma InterruptThreads(s: State, t: Tid, q: Ptr, id: nat, s': State, v: Tid)
    requires Inv(s) && t !in s.threads && q !in s.notes && Interrupt(s, t, q, id) == Ok(s') && v in s'.threads
    ensures ThreadOk(s', v)
  {
    if v != t {
      assert ThreadOk(s, v);
      if s.threads[v].Leaving? && s.threads[v].ctr == 0 && t in s'.threads {
        assert s.threads[v].p != s'.threads[t].p;
      }
    } else {
      assert ReqOk(s, s'.threads[t].p);
    }
  }

  lemma InterruptReqs(s: State, t: Tid, q: Ptr, id: nat, s': State, r: Ptr)
    requires Inv(s) && t !in s.threads && q !in s.notes && Interrupt(s, t, q, id) == Ok(s') && r in s'.reqs
    ensures ReqOk(s', r)
  {
    assert ReqOk(s, r);
    if t in s'.threads {
      HoldersChange(s.threads, t, s'.threads[t], r);
    }
  }

  lemma InterruptNotes(s: State, t: Tid, q: Ptr, id: nat, s': State, o: Ptr)
    requires Inv(s) && t !in s.threads && q !in s.notes && Interrupt(s, t, q, id) == Ok(s') && o in s'.notes
    ensures NoteOk(s', o)
  {
    if o != q {
      assert NoteOk(s, o);
    }
  }

  lemma InterruptOk(s: State, t: Tid, q: Ptr, id: nat, s': State)
    requires Inv(s) && t !in s.threads && q !in s.notes
    requires Interrupt(s, t, q, id).Ok? ==> s' == Interrupt(s, t, q, id).s
    ensures Interrupt(s, t, q, id).Ok? && Inv(s')
  {
    InterruptLists(s, t, q, id, s');
    forall v | v in s'.threads ensures ThreadOk(s', v) {
      InterruptThreads(s, t, q, id, s', v);
    }
    forall r | r in s'.reqs ensures ReqOk(s', r) {
      InterruptReqs(s, t, q, id, s', r);
    }
    forall o | o in s'.notes ensures NoteOk(s', o) {
      InterruptNotes(s, t, q, id, s', o);
    }
  }

  lemma InterruptLists(s: State, t: Tid, q: Ptr, id: nat, s': State)
    requires Inv(s) && t !in s.threads && q !in s.notes && Interrupt(s, t, q, id) == Ok(s')
    ensures ListsOk(s')
  {
    if s'.pending == s.pending {
      SameLists(s, s');
    } else {
      assert s'.pending == s.pending + [q];
      forall p: Ptr, r: Ptr | SameTarget(s', p, r) ensures p == r {
        if p != q && r != q {
          assert SameTarget(s, p, r);
        } else if p != r {
          PendingHas(s, if p == q then r else p, id);
        }
      }
      forall p, r | SameUnique(s', p, r) ensures p == r {
        assert SameUnique(s, p, r);
      }
      forall o, p ensures !TargetsListed(s', o, p) {
        assert !TargetsListed(s, o, p);
        if o == q && TargetsListed(s', o, p) {
          ListHas(s, p, id);
        }
      }
    }
  }

  lemma PendingHas(s: State, q: Ptr, id: nat)
    requires Intact(s) && q in s.pending && s.notes[q].target == id
    ensures IndexOf(s.pending, Targets(s), id) < |s.pending|
  {
    var k :| 0 <= k < |s.pending| && s.pending[k] == q;
    assert Targets(s)[s.pending[k]] == id;
  }

  lemma ListHas(s: State, p: Ptr, id: nat)
    requires Inv(s) && p in s.list && p in s.born && s.born[p].unique == id
    ensures IndexOf(s.list, Uniques(s), id) < |s.list|
  {
    assert ReqOk(s, p);
    var k :| 0 <= k < |s.list| && s.list[k] == p;
    assert Uniques(s)[s.list[k]] == id;
  }

  // ----- Runs -----

  datatype Action =
    | DoArrive(t: Tid, p: Ptr, u: nat) | DoRefuse(t: Tid) | DoSetFunc(t: Tid,
      f: bool) | DoClear(t: Tid) | DoUnlist(t: Tid) | DoFinish(t: Tid)
    | DoInterrupt(t: Tid, q: Ptr, id: nat) | DoLock(t: Tid) | DoMark(t: Tid) | DoCall(t: Tid) | DoDrop(t: Tid)

  /** When a step can be taken: threads are where it starts, the lock that it takes is free, pointers and
      threads of new requests are new, and live requests have different numbers. */
  ghost predicate Enabled(s: State, a: Action) {
    match a
    case DoArrive(t, p, u) => t !in s.threads && p !in s.born && forall r | r in s.list && r in s.born ::
      s.born[r].unique != u
    case DoRefuse(t) => t in s.threads && s.threads[t].Refusing?
    case DoSetFunc(t, f) => t in s.threads && s.threads[t].Handling? && Unlocked(s, s.threads[t].p)
    case DoClear(t) => t in s.threads && s.threads[t].Handling? && Unlocked(s, s.threads[t].p)
    case DoUnlist(t) => t in s.threads && s.threads[t].Replying?
    case DoFinish(t) => t in s.threads && s.threads[t].Leaving?
    case DoInterrupt(t, q, id) => t !in s.threads && q !in s.notes
    case DoLock(t) => t in s.threads && s.threads[t].Holding? && Unlocked(s, s.threads[t].p)
    case DoMark(t) => t in s.threads && s.threads[t].Locking?
    case DoCall(t) => t in s.threads && s.threads[t].Marking?
    case DoDrop(t) => t in s.threads && s.threads[t].Calling?
  }

  ghost function Next(s: State, a: Action): Outcome
    requires Enabled(s, a)
  {
    match a
    case DoArrive(t, p, u) => Arrive(s, t, p, u)
    case DoRefuse(t) => Refuse(s, t)
    case DoSetFunc(t, f) => SetFunc(s, t, f)
    case DoClear(t) => Clear(s, t)
    case DoUnlist(t) => Unlist(s, t)
    case DoFinish(t) => Finish(s, t)
    case DoInterrupt(t, q, id) => Interrupt(s, t, q, id)
    case DoLock(t) => Lock(s, t)
    case DoMark(t) => Mark(s, t)
    case DoCall(t) => Call(s, t)
    case DoDrop(t) => Drop(s, t)
  }

  /** No step touches freed memory, and every step keeps the invariant. */
  lemma StepOk(s: State, a: Action, s': State)
    requires Inv(s) && Enabled(s, a) && (Next(s, a).Ok? ==> s' == Next(s, a).s)
    ensures Next(s, a) == Ok(s') && Inv(s')
  {
    match a
    case DoArrive(t, p, u) => ArriveOk(s, t, p, u, s');
    case DoRefuse(t) => RefuseOk(s, t, s');
    case DoSetFunc(t, f) => SetFuncOk(s, t, f, s');
    case DoClear(t) => ClearOk(s, t, s');
    case DoUnlist(t) => UnlistOk(s, t, s');
    case DoFinish(t) => FinishOk(s, t, s');
    case DoInterrupt(t, q, id) => InterruptOk(s, t, q, id, s');
    case DoLock(t) => LockOk(s, t, s');
    case DoMark(t) => MarkOk(s, t, s');
    case DoCall(t) => CallOk(s, t, s');
    case DoDrop(t) => DropOk(s, t, s');
  }

  /** `s'` is reached from `s` by these steps. */
  ghost predicate Run(s: State, steps: seq<Action>, s': State)
    decreases |steps|
  {
    if steps == [] then s' == s
    else Enabled(s, steps[0]) && Next(s, steps[0]).Ok? && Run(Next(s, steps[0]).s, steps[1..], s')
  }

  lemma {:induction false} RunKeeps(s: State, steps: seq<Action>, s': State)
    requires Inv(s) && Run(s, steps, s')
    ensures Inv(s')
    decreases |steps|
  {
    if steps != [] {
      StepOk(s, steps[0], Next(s, steps[0]).s);
      RunKeeps(Next(s, steps[0]).s, steps[1..], s');
    }
  }

  /** In every interleaving: no step touches a request that is gone, and the count of a request is one
      for the list plus one for each interrupter that holds it. */
  lemma NoFault(steps: seq<Action>, s: State)
    requires Run(START, steps, s)
    ensures forall a | Enabled(s, a) :: Next(s, a).Ok?
    ensures forall p | p in s.reqs :: s.reqs[p].ctr == (if p in s.list then 1 else 0) + |Holders(s.threads, p)|
  {
    assert Inv(START);
    RunKeeps(START, steps, s);
    forall a | Enabled(s, a) ensures Next(s, a).Ok? {
      StepOk(s, a, if Next(s, a).Ok? then Next(s, a).s else s);
    }
    forall p | p in s.reqs ensures s.reqs[p].ctr == (if p in s.list then 1 else 0) + |Holders(s.threads, p)| {
      assert ReqOk(s, p);
    }
  }

  lemma WhoDestroys(s: State, a: Action, s': State, p: Ptr)
    requires Enabled(s, a) && Next(s, a) == Ok(s') && p in s.reqs && p !in s'.reqs
    ensures (a.DoFinish? && s.threads[a.t] == Leaving(p, 0))
            || (a.DoDrop? && s.threads[a.t].p == p && s.reqs[p].ctr == 1)
    ensures s'.threads == s.threads - {a.t}
  {
  }

  lemma LoneHolder(threads: map<Tid, Pc>, t: Tid, p: Ptr)
    requires t in threads && HoldsRef(threads[t], p) && |Holders(threads, p)| == 1
    ensures Holders(threads, p) == {t}
  {
    var h := Holders(threads, p);
    assert t in h;
    CardWithout(h, t);
    assert h == {t} + (h - {t});
  }

  /** A request goes when the last one that may use it lets go of it. */
  lemma LastUser(s: State, a: Action, s': State, p: Ptr)
    requires Inv(s) && Enabled(s, a) && Next(s, a) == Ok(s') && p in s.reqs && p !in s'.reqs
    ensures p !in s.list && Holders(s'.threads, p) == {} && p in s.born
    ensures (a.DoFinish? && s.born[p].owner == a.t && Holders(s.threads, p) == {})
            || (a.DoDrop? && Holders(s.threads, p) == {a.t})
  {
    WhoDestroys(s, a, s', p);
    assert ReqOk(s, p) && ThreadOk(s, a.t);
    HoldersGone(s.threads, a.t, p);
    if a.DoDrop? {
      assert a.t in Holders(s.threads, p);
      CardWithout(Holders(s.threads, p), a.t);
      LoneHolder(s.threads, a.t, p);
    }
  }

  /** And it does not come back, so that it is destroyed once. */
  lemma {:induction false} GoneForGood(s: State, steps: seq<Action>, s': State, p: Ptr)
    requires Inv(s) && Run(s, steps, s') && p in s.born && p !in s.reqs
    ensures p !in s'.reqs && p in s'.born
    decreases |steps|
  {
    if steps != [] {
      var n := Next(s, steps[0]).s;
      StepOk(s, steps[0], n);
      StaysGone(s, steps[0], n, p);
      GoneForGood(n, steps[1..], s', p);
    }
  }

  lemma StaysGone(s: State, a: Action, s': State, p: Ptr)
    requires Inv(s) && Enabled(s, a) && Next(s, a) == Ok(s') && p in s.born && p !in s.reqs
    ensures p !in s'.reqs && p in s'.born
  {
  }

  /** Nothing is left behind: a request in memory is listed, held, or about to be destroyed by its thread. */
  lemma NoLeak(s: State, p: Ptr)
    requires Inv(s) && p in s.reqs
    ensures p in s.list || Holders(s.threads, p) != {}
            || (s.born[p].owner in s.threads && s.threads[s.born[p].owner] == Leaving(p, 0))
  {
    assert ReqOk(s, p);
    if Holders(s.threads, p) == {} {
      assert |Holders(s.threads, p)| == 0;
    }
  }

  // ----- Interrupts -----

  /** Where an interrupt is, at any time: waiting for a request that is not listed, alone with its target;
      on its way to the request that it names; about to be refused; or done with, in one of three ways. */
  lemma InterruptAccounted(s: State, q: Ptr)
    requires Inv(s) && q in s.notes
    ensures match s.notes[q].fate
            case Waiting =>
              && q in s.pending && (forall o | o in s.pending && o != q :: s.notes[o].target != s.notes[q].target)
              && (forall p | p in s.list :: s.reqs[p].unique != s.notes[q].target)
            case Held(t) => t in s.threads && HoldsRef(s.threads[t], s.threads[t].p) && s.threads[t].p in s.reqs
              && s.reqs[s.threads[t].p].unique == s.notes[q].target
            case Refused(t) => t in s.threads && s.threads[t].Refusing? && s.threads[t].q == q
              && s.threads[t].p in s.list
            case Delivered(p) => p in s.born && s.born[p].unique == s.notes[q].target && p in s.flagged
              && (p in s.reqs ==> s.reqs[p].interrupted)
            case Merged(o) => o in s.notes && s.notes[o].target == s.notes[q].target
            case Again => true
  {
    assert NoteOk(s, q);
    match s.notes[q].fate
    case Waiting =>
      forall o | o in s.pending && o != q ensures s.notes[o].target != s.notes[q].target {
        assert !SameTarget(s, o, q);
      }
      forall p | p in s.list ensures s.reqs[p].unique != s.notes[q].target {
        assert ReqOk(s, p);
        assert !TargetsListed(s, q, p);
      }
    case Held(t) =>
      assert ThreadOk(s, t);
      assert ReqOk(s, s.threads[t].p);
    case Refused(t) =>
      assert ThreadOk(s, t);
    case Delivered(p) =>
      assert p in s.reqs ==> ReqOk(s, p);
    case Merged(o) =>
    case Again =>
  }

  /** What an arriving request does to the waiting interrupts: the one for it marks it and goes; if there is
      none, the request is not marked, and the one that has waited longest is refused. */
  lemma ArrivalMeaning(s: State, t: Tid, p: Ptr, u: nat, s': State)
    requires Inv(s) && p !in s.born && Arrive(s, t, p, u) == Ok(s')
    ensures s'.reqs == s.reqs[p := Req(u, 1, p in s'.flagged, false, false, None)] && s'.flagged - {p} == s.flagged
    ensures s'.born == s.born[p := Birth(u, t)] && s'.threads == s.threads[t := s'.threads[t]]
    ensures s'.threads[t] == if p in s'.flagged || s.pending == [] then Handling(p) else Refusing(s.pending[0], p)
    ensures p in s'.reqs && s'.reqs[p].unique == u && s'.list == s.list + [p]
            && s'.reqs[p].interrupted == (p in s'.flagged)
    ensures forall q | q in s.pending && s.notes[q].target == u :: p in s'.flagged && s'.notes[q].fate == Delivered(p)
    ensures p in s'.flagged ==> forall q: Ptr :: q in s'.pending <==> q in s.pending && s.notes[q].target != u
    ensures p in s'.flagged ==> exists k: nat | k < |s.pending| :: s'.pending == Without(s.pending, k)
    ensures forall q | q in s.notes && (q in s.pending ==> q in s'.pending) ::
              q in s'.notes && s'.notes[q] == s.notes[q]
    ensures p !in s'.flagged ==> (forall q | q in s.pending :: s.notes[q].target != u)
                                 && s'.pending == (if s.pending == [] then [] else s.pending[1..])
                                 && (s.pending != [] ==> s'.notes[s.pending[0]].fate == Refused(t))
  {
    var i := IndexOf(s.pending, Targets(s), u);
    assert p !in s.flagged;
    forall q | q in s.pending && s.notes[q].target == u ensures i < |s.pending| && q == s.pending[i] {
      PendingHas(s, q, u);
      assert SameTarget(s, q, s.pending[i]);
    }
    if i < |s.pending| {
      WithoutMembers(s.pending, i);
      assert s.pending[i] in s.pending;
    }
  }

  /** What an arriving interrupt does, `r` being the listed request that it names: it is counted in, and nothing
      else happens to the request; no other request, interrupt, thread or list changes. */
  lemma InterruptListed(s: State, t: Tid, q: Ptr, id: nat, s': State, r: Ptr)
    requires Inv(s) && q !in s.notes && t !in s.threads && Interrupt(s, t, q, id) == Ok(s')
    requires r in s.list && s.reqs[r].unique == id
    ensures s'.reqs == s.reqs[r := s.reqs[r].(ctr := s.reqs[r].ctr + 1)]
    ensures s'.threads == s.threads[t := Holding(q, r)] && s'.notes == s.notes[q := Note(id, Held(t))]
    ensures s'.list == s.list && s'.pending == s.pending && s'.born == s.born && s'.flagged == s.flagged
  {
    assert ReqOk(s, r);
    ListHas(s, r, id);
    var p := s.list[IndexOf(s.list, Uniques(s), id)];
    assert ReqOk(s, p);
    assert SameUnique(s, p, r);
  }

  /** If it names no listed request but there is a pending interrupt `o` for the same target, it is dropped in
      favour of that one; if there is none either, it becomes pending, behind the others. */
  lemma InterruptUnlisted(s: State, t: Tid, q: Ptr, id: nat, s': State)
    requires Inv(s) && q !in s.notes && t !in s.threads && Interrupt(s, t, q, id) == Ok(s')
    requires forall r | r in s.list :: s.reqs[r].unique != id
    ensures s'.reqs == s.reqs && s'.threads == s.threads && s'.list == s.list && s'.born == s.born
            && s'.flagged == s.flagged
    ensures forall o | o in s.pending && s.notes[o].target == id ::
              s'.notes == s.notes[q := Note(id, Merged(o))] && s'.pending == s.pending
    ensures (forall o | o in s.pending :: s.notes[o].target != id) ==>
              s'.notes == s.notes[q := Note(id, Waiting)] && s'.pending == s.pending + [q]
  {
    var i, j := IndexOf(s.list, Uniques(s), id), IndexOf(s.pending, Targets(s), id);
    assert forall k | 0 <= k < |s.list| :: Uniques(s)[s.list[k]] != id;
    forall o | o in s.pending && s.notes[o].target == id ensures j < |s.pending| && o == s.pending[j] {
      PendingHas(s, o, id);
      assert SameTarget(s, o, s.pending[j]);
    }
    assert j < |s.pending| ==> s.pending[j] in s.pending;
  }

  /** What the interrupter then does to the request that it holds: it is marked, its function is called if there
      is one, and its count goes down again; the interrupt is delivered to it. */
  lemma InterruptDelivered(s: State, t: Tid, s1: State, s2: State, s3: State, s4: State)
    requires Inv(s) && t in s.threads && s.threads[t].Holding? && Unlocked(s, s.threads[t].p)
    requires Lock(s, t) == Ok(s1) && Mark(s1, t) == Ok(s2) && Call(s2, t) == Ok(s3) && Drop(s3, t) == Ok(s4)
    ensures var p, q := s.threads[t].p, s.threads[t].q;
            && p in s.reqs && q in s.notes && s4.threads == s.threads - {t} && p in s4.flagged
            && s4.notes == s.notes[q := s.notes[q].(fate := Delivered(p))]
            && s4.list == s.list && s4.pending == s.pending && s4.born == s.born
            && (s.reqs[p].ctr == 1 ==> s4.reqs == s.reqs - {p})
            && (s.reqs[p].ctr != 1 ==>
                  && s4.reqs.Keys == s.reqs.Keys && (forall r | r in s.reqs && r != p :: s4.reqs[r] == s.reqs[r])
                  && s4.reqs[p].ctr == s.reqs[p].ctr - 1 && s4.reqs[p].interrupted && s4.reqs[p].locker.None?
                  && s4.reqs[p].func == s.reqs[p].func && (s.reqs[p].func ==> s4.reqs[p].called)
                  && s4.reqs[p].unique == s.reqs[p].unique)
  {
    assert ThreadOk(s, t);
  }

  /** How the fate of an interrupt changes in a step: it may be delivered when its request arrives or is
      found listed, or refused; what is done stays so. */
  lemma FateStep(s: State, a: Action, s': State, q: Ptr)
    requires Inv(s) && Enabled(s, a) && Next(s, a) == Ok(s') && q in s.notes
    ensures q in s'.notes && s'.notes[q].target == s.notes[q].target
    ensures match s.notes[q].fate
            case Waiting => s'.notes[q].fate == Waiting
              || (a.DoArrive? && (s'.notes[q].fate == Delivered(a.p) || s'.notes[q].fate == Refused(a.t)))
            case Held(t) => s'.notes[q].fate == Held(t)
              || (a.DoDrop? && a.t == t && s'.notes[q].fate == Delivered(s.threads[t].p))
            case Refused(t) => s'.notes[q].fate == Refused(t) || (a.DoRefuse? && a.t == t && s'.notes[q].fate == Again)
            case _ => s'.notes[q].fate == s.notes[q].fate
  {
    assert NoteOk(s, q);
    if a.DoRefuse? || a.DoDrop? {
      assert ThreadOk(s, a.t);
    }
    if a.DoArrive? {
      ArrivedFate(s, a.t, a.p, a.u, s', q);
    }
  }

  lemma ArrivedFate(s: State, t: Tid, p: Ptr, u: nat, s': State, q: Ptr)
    requires ListsOk(s) && Arrive(s, t, p, u) == Ok(s') && q in s.notes
    ensures q in s'.notes && s'.notes[q].target == s.notes[q].target
    ensures s'.notes[q].fate == s.notes[q].fate
            || (s.notes[q].fate == Waiting && (s'.notes[q].fate == Delivered(p) || s'.notes[q].fate == Refused(t)))
  {
  }

  /** No interrupt of a request goes unnoticed: when its lock is free, the interrupt function of a marked
      request has been called, whether it was set before the request was marked or after. */
  lemma SignalNotLost(steps: seq<Action>, s: State, p: Ptr)
    requires Run(START, steps, s) && p in s.reqs && s.reqs[p].interrupted && s.reqs[p].func && s.reqs[p].locker.None?
    ensures s.reqs[p].called
  {
    assert Inv(START);
    RunKeeps(START, steps, s);
    assert ReqOk(s, p);
  }

  /** `fuse_req_interrupt_func` sets the function as asked, and calls it at once exactly if the request has been
      marked already; the reply clears it. */
  lemma FuncMeaning(s: State, t: Tid, f: bool, s': State)
    requires Inv(s) && t in s.threads && s.threads[t].Handling?
    ensures var p := s.threads[t].p;
            && p in s.reqs
            && (SetFunc(s, t, f) == Ok(s') ==>
                  && s' == s.(reqs := s'.reqs) && s'.reqs == s.reqs[p := s'.reqs[p]]
                  && s'.reqs[p].func == f && (s'.reqs[p].called <==> f && p in s.flagged)
                  && s'.reqs[p] == s.reqs[p].(func := s'.reqs[p].func, called := s'.reqs[p].called))
            && (Clear(s, t) == Ok(s') ==>
                  && s' == s.(reqs := s'.reqs, threads := s'.threads) && s'.reqs == s.reqs[p := s'.reqs[p]]
                  && s'.threads == s.threads[t := Replying(p)] && !s'.reqs[p].func
                  && s'.reqs[p] == s.reqs[p].(func := false, called := false))
  {
    assert ThreadOk(s, t);
    assert ReqOk(s, s.threads[t].p);
  }

  /** A request with a function is one that its thread works on. */
  ghost predicate FuncAt(s: State, p: Ptr) {
    p in s.reqs && s.reqs[p].func ==>
      p in s.born && s.born[p].owner in s.threads && s.threads[s.born[p].owner] == Handling(p)
  }

  ghost predicate Funcs(s: State) {
    forall p {:trigger FuncAt(s, p)} :: FuncAt(s, p)
  }

  lemma FuncsStep(s: State, a: Action, s': State)
    requires Inv(s) && Funcs(s) && Enabled(s, a) && Next(s, a) == Ok(s')
    ensures Funcs(s')
  {
    if a.t in s.threads {
      assert ThreadOk(s, a.t);
    }
    forall p ensures FuncAt(s', p) {
      assert FuncAt(s, p);
      FuncStep(s, a, s', p);
    }
  }

  lemma FuncStep(s: State, a: Action, s': State, p: Ptr)
    requires Enabled(s, a) && Next(s, a) == Ok(s') && FuncAt(s, p) && (a.t in s.threads ==> ThreadOk(s, a.t))
    requires p in s.reqs ==> p in s.born
    ensures FuncAt(s', p)
  {
  }

  lemma {:induction false} RunKeepsFuncs(s: State, steps: seq<Action>, s': State)
    requires Inv(s) && Funcs(s) && Run(s, steps, s')
    ensures Funcs(s')
    decreases |steps|
  {
    if steps != [] {
      var n := Next(s, steps[0]).s;
      StepOk(s, steps[0], n);
      FuncsStep(s, steps[0], n);
      RunKeepsFuncs(n, steps[1..], s');
    }
  }

  /** In every interleaving: a request has an interrupt function only while its thread works on it, not from the
      reply on. */
  lemma NoFuncAfterReply(steps: seq<Action>, s: State, p: Ptr)
    requires Run(START, steps, s) && p in s.reqs && s.reqs[p].func
    ensures p in s.list && p in s.born && s.born[p].owner in s.threads && s.threads[s.born[p].owner] == Handling(p)
  {
    assert Inv(START) && Funcs(START);
    RunKeeps(START, steps, s);
    RunKeepsFuncs(START, steps, s);
    assert FuncAt(s, p) && ThreadOk(s, s.born[p].owner);
  }

  /** The locks do not deadlock: as long as there is a thread, one of the threads can go on. */
  lemma NoDeadlock(s: State, t: Tid) returns (a: Action)
    requires Inv(s) && t in s.threads
    ensures Enabled(s, a) && !a.DoArrive? && !a.DoInterrupt? && !a.DoSetFunc?
  {
    var pc := s.threads[t];
    assert ThreadOk(s, t);
    match pc
    case Refusing(q, p) => a := DoRefuse(t);
    case Replying(p) => a := DoUnlist(t);
    case Leaving(p, c) => a := DoFinish(t);
    case Locking(q, p) => a := DoMark(t);
    case Marking(q, p) => a := DoCall(t);
    case Calling(q, p) => a := DoDrop(t);
    case Handling(p) =>
      assert ReqOk(s, p);
      a := if s.reqs[p].locker.None? then DoClear(t) else LockerStep(s, s.reqs[p].locker.value);
    case Holding(q, p) =>
      assert ReqOk(s, p);
      a := if s.reqs[p].locker.None? then DoLock(t) else LockerStep(s, s.reqs[p].locker.value);
  }

  ghost function LockerStep(s: State, t: Tid): Action {
    if t in s.threads && s.threads[t].Locking? then DoMark(t) else DoCall(t)
  }
}
