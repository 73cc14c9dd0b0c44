/** Mapping of Linux ids to Windows SIDs and back (acls.c).  Ids that no entry of the mapping
    names are packed into the last two sub-authorities of a pattern SID. */
module SidMapping {
  import opened Common

  const TWO_30: int := 0x4000_0000
  const TWO_32: int := 0x1_0000_0000

  type u32 = x: int | 0 <= x < TWO_32

  /** A SID; `sub_authority_count` is the length of `sub`.  `ntfs_same_sid` compares the whole
      representation, which is equality here. */
  datatype Sid = Sid(revision: byte, authority: seq<byte>, sub: seq<u32>)

  const ADMIN: Sid := Sid(1, [0, 0, 0, 0, 0, 5], [32, 544])

  /** One line of the mapping; an id of zero marks the implicit mapping pattern. */
  datatype Mapping = Mapping(xid: u32, sid: Sid)

  /** `ntfs_valid_pattern`, for a SID with the two sub-authorities that the packing changes. */
  predicate ValidPattern(sid: Sid) {
    |sid.sub| >= 2 && 1000 <= sid.sub[|sid.sub| - 1] <= 0x7fff_ffff
  }

  ghost predicate ValidMappings(m: seq<Mapping>) {
    forall e | e in m :: e.xid == 0 ==> ValidPattern(e.sid)
  }

  // ----- Packing and unpacking -----

  /** An id in the last two sub-authorities: its low 30 bits doubled, plus one for groups, and
      its two high bits; 32-bit additions wrap. */
  function Pack(pattern: Sid, xid: u32, parity: nat): Sid
    requires |pattern.sub| >= 2 && parity <= 1
  {
    var n := |pattern.sub|;
    WithLast(pattern, (pattern.sub[n - 1] + 2 * (xid % TWO_30) + parity) % TWO_32, xid / TWO_30)
  }

  /** The pattern with its last sub-authority replaced and `carry` added to the one before. */
  function WithLast(pattern: Sid, last: u32, carry: nat): Sid
    requires |pattern.sub| >= 2
  {
    var n := |pattern.sub|;
    pattern.(sub := pattern.sub[n - 1 := last][n - 2 := (pattern.sub[n - 2] + carry) % TWO_32])
  }

  /** The smallest carry from `c` on, below 4, for which the pattern becomes `xsid`; 4 if none. */
  function FirstCarry(xsid: Sid, pattern: Sid, last: u32, c: nat): (r: nat)
    requires |pattern.sub| >= 2 && c <= 4
    ensures c <= r <= 4
    ensures r < 4 ==> xsid == WithLast(pattern, last, r)
    ensures forall d: nat | c <= d < r :: xsid != WithLast(pattern, last, d)
    decreases 4 - c
  {
    if c == 4 || xsid == WithLast(pattern, last, c) then c else FirstCarry(xsid, pattern, last, c + 1)
  }

  /** The id that `findimplicit` reads from a SID, zero if the SID does not fit the pattern. */
  function Unpack(xsid: Sid, pattern: Sid, parity: nat): (xid: u32)
    requires |pattern.sub| >= 2 && parity <= 1
  {
    var n := |pattern.sub|;
    if |xsid.sub| != n then 0 else
    var x, r := xsid.sub[n - 1], pattern.sub[n - 1];
    if x <= r || (x + r + parity) % 2 != 0 then 0 else
    var carry := FirstCarry(xsid, pattern, x, 0);
    if carry == 4 then 0 else (x - r) / 2 % TWO_30 + carry * TWO_30
  }

  lemma NextCarry(pattern: Sid, last: u32, c: nat)
    requires |pattern.sub| >= 2
    ensures var n := |pattern.sub|; var s := WithLast(pattern, last, c);
            s.(sub := s.sub[n - 2 := (s.sub[n - 2] + 1) % TWO_32]) == WithLast(pattern, last, c + 1)
  {
    var n := |pattern.sub|;
    assert ((pattern.sub[n - 2] + c) % TWO_32 + 1) % TWO_32 == (pattern.sub[n - 2] + c + 1) % TWO_32;
  }

  /** `findimplicit`: the sub-authority before the last is stepped until the SIDs agree. */
  method FindImplicit(xsid: Sid, pattern: Sid, parity: nat) returns (xid: u32)
    requires |pattern.sub| >= 2 && parity <= 1
    ensures xid == Unpack(xsid, pattern, parity)
  {
    var psid := pattern;
    var cnt := |psid.sub|;
    xid := 0;
    if |xsid.sub| == cnt {
      psid := psid.(sub := psid.sub[cnt - 1 := xsid.sub[cnt - 1]]);
      var xlast, rlast := xsid.sub[cnt - 1], pattern.sub[cnt - 1];
      assert psid == WithLast(pattern, xlast, 0);
      if xlast > rlast && (xlast + rlast + parity) % 2 == 0 {
        if psid == xsid {
          xid := (xlast - rlast) / 2 % TWO_30;
        } else {
          NextCarry(pattern, xlast, 0);
          var carry := 1;
          psid := psid.(sub := psid.sub[cnt - 2 := (psid.sub[cnt - 2] + 1) % TWO_32]);
          while psid != xsid && carry + 1 < 4
            invariant 1 <= carry < 4 && psid == WithLast(pattern, xlast, carry)
            invariant FirstCarry(xsid, pattern, xlast, 0) == FirstCarry(xsid, pattern, xlast, carry)
          {
            NextCarry(pattern, xlast, carry);
            carry := carry + 1;
            psid := psid.(sub := psid.sub[cnt - 2 := (psid.sub[cnt - 2] + 1) % TWO_32]);
          }
          if psid == xsid {
            xid := (xlast - rlast) / 2 % TWO_30 + carry * TWO_30;
          }
        }
      }
    }
  }

  lemma CarryDistinct(pattern: Sid, last: u32, c: nat, d: nat)
    requires |pattern.sub| >= 2 && c <= 3 && d <= 3
    ensures WithLast(pattern, last, c) == WithLast(pattern, last, d) ==> c == d
  {
    var n := |pattern.sub|;
    assert WithLast(pattern, last, c).sub[n - 2] == (pattern.sub[n - 2] + c) % TWO_32;
    assert WithLast(pattern, last, d).sub[n - 2] == (pattern.sub[n - 2] + d) % TWO_32;
  }

  /** The last sub-authority never wraps. */
  lemma PackNoWrap(pattern: Sid, xid: u32, parity: nat)
    requires ValidPattern(pattern) && parity <= 1
    ensures var n := |pattern.sub|;
            && |Pack(pattern, xid, parity).sub| == n
            && Pack(pattern, xid, parity).sub[n - 1] == pattern.sub[n - 1] + 2 * (xid % TWO_30) + parity
  {
  }

  /** An implicit SID is the pattern but for its last two sub-authorities: the high two bits of the id are added to
      the one, and the low thirty, doubled, with one more for a group, to the other. */
  lemma PackMeaning(pattern: Sid, xid: u32, parity: nat)
    requires ValidPattern(pattern) && parity <= 1
    ensures var n, s := |pattern.sub|, Pack(pattern, xid, parity);
            && s.revision == pattern.revision && s.authority == pattern.authority && |s.sub| == n
            && s.sub[..n - 2] == pattern.sub[..n - 2]
            && s.sub[n - 2] == (pattern.sub[n - 2] + xid / 0x4000_0000) % 0x1_0000_0000
            && s.sub[n - 1] == pattern.sub[n - 1] + 2 * (xid % 0x4000_0000) + parity
  {
    PackNoWrap(pattern, xid, parity);
  }

  /** From an id to its implicit SID and back: the identity exactly when the low 30 bits are not
      all zero or it is a group; otherwise the id is lost and comes back as root. */
  lemma UnpackPack(pattern: Sid, xid: u32, parity: nat)
    requires ValidPattern(pattern) && parity <= 1
    ensures Unpack(Pack(pattern, xid, parity), pattern, parity) == if xid % TWO_30 != 0 || parity == 1 then xid else 0
  {
    PackNoWrap(pattern, xid, parity);
    var s := Pack(pattern, xid, parity);
    var n := |pattern.sub|;
    var low, high := xid % TWO_30, xid / TWO_30;
    assert s == WithLast(pattern, s.sub[n - 1], high);
    if low != 0 || parity == 1 {
      assert (s.sub[n - 1] - pattern.sub[n - 1]) / 2 == low;
      assert (s.sub[n - 1] + pattern.sub[n - 1] + parity) % 2 == 0;
      var carry := FirstCarry(s, pattern, s.sub[n - 1], 0);
      assert carry <= high;
      CarryDistinct(pattern, s.sub[n - 1], carry, high);
    }
  }

  /** The smallest uid that is lost, with a pattern as Windows makes them for local users. */
  lemma LostUid()
    ensures var pattern := Sid(1, [0, 0, 0, 0, 0, 5], [21, 1, 2, 3, 1000]);
            && ValidPattern(pattern) && Unpack(Pack(pattern, 0x4000_0000, 0), pattern, 0) == 0
            && forall uid: u32 | 0 < uid < 0x4000_0000 :: Unpack(Pack(pattern, uid, 0), pattern, 0) == uid
  {
    var pattern := Sid(1, [0, 0, 0, 0, 0, 5], [21, 1, 2, 3, 1000]);
    UnpackPack(pattern, 0x4000_0000, 0);
    forall uid: u32 | 0 < uid < 0x4000_0000 ensures Unpack(Pack(pattern, uid, 0), pattern, 0) == uid {
      UnpackPack(pattern, uid, 0);
    }
  }

  /** What is read of a SID that fits the pattern: half of what its last sub-authority is above the pattern's, modulo
      2^30, and the difference of the one before as the high two bits. */
  lemma UnpackMeaning(pattern: Sid, x: u32, c: nat, parity: nat)
    requires ValidPattern(pattern) && parity <= 1 && c <= 3
    ensures var n := |pattern.sub|; var r := pattern.sub[n - 1];
            var xsid := pattern.(sub := pattern.sub[n - 2 := (pattern.sub[n - 2] + c) % 0x1_0000_0000][n - 1 := x]);
            Unpack(xsid, pattern, parity)
            == if x > r && (x - r) % 2 == parity then (x - r) / 2 % 0x4000_0000 + c * 0x4000_0000 else 0
  {
    var n := |pattern.sub|;
    var r, xsid := pattern.sub[n - 1], WithLast(pattern, x, c);
    assert xsid.sub == pattern.sub[n - 2 := (pattern.sub[n - 2] + c) % TWO_32][n - 1 := x];
    assert xsid.sub[n - 1] == x;
    var carry := FirstCarry(xsid, pattern, x, 0);
    assert carry <= c;
    CarryDistinct(pattern, x, carry, c);
  }

  /** From a SID to an id and back: what is read as a nonzero id packs to the same SID exactly when
      the last sub-authority is less than 2^31 above the pattern's; the rest are aliases. */
  lemma PackUnpack(xsid: Sid, pattern: Sid, parity: nat)
    requires ValidPattern(pattern) && parity <= 1
    requires Unpack(xsid, pattern, parity) != 0
    ensures |xsid.sub| == |pattern.sub|
    ensures Pack(pattern, Unpack(xsid, pattern, parity), parity) == xsid
            <==> xsid.sub[|xsid.sub| - 1] - pattern.sub[|xsid.sub| - 1] < 2 * TWO_30
  {
    var n := |pattern.sub|;
    var xid := Unpack(xsid, pattern, parity);
    var x, r := xsid.sub[n - 1], pattern.sub[n - 1];
    var carry := FirstCarry(xsid, pattern, x, 0);
    LastReadBack(x, r, parity);
    HighPart((x - r) / 2 % TWO_30, carry);
    assert Pack(pattern, xid, parity) == WithLast(pattern, r + 2 * ((x - r) / 2 % TWO_30) + parity, carry) by {
      PackNoWrap(pattern, xid, parity);
    }
    assert WithLast(pattern, r + 2 * ((x - r) / 2 % TWO_30) + parity, carry).sub[n - 1]
      == r + 2 * ((x - r) / 2 % TWO_30) + parity;
  }

  lemma LastReadBack(x: int, r: int, parity: nat)
    requires r < x && parity <= 1 && (x + r + parity) % 2 == 0
    ensures r + 2 * ((x - r) / 2 % TWO_30) + parity == x <==> x - r < 2 * TWO_30
  {
    var h := (x - r) / 2;
    assert x - r == 2 * h + parity;
  }

  lemma HighPart(low: nat, high: nat)
    requires low < TWO_30 && high < 4
    ensures (low + high * TWO_30) % TWO_30 == low && (low + high * TWO_30) / TWO_30 == high
  {
  }

  /** No implicit user is an implicit group. */
  lemma UsersAreNotGroups(pattern: Sid, uid: u32, gid: u32)
    requires ValidPattern(pattern)
    ensures Pack(pattern, uid, 0) != Pack(pattern, gid, 1)
  {
    PackNoWrap(pattern, uid, 0);
    PackNoWrap(pattern, gid, 1);
  }

  /** Different ids have different implicit SIDs, even those that cannot be read back. */
  lemma PackInjective(pattern: Sid, x: u32, y: u32, parity: nat)
    requires ValidPattern(pattern) && parity <= 1
    requires Pack(pattern, x, parity) == Pack(pattern, y, parity)
    ensures x == y
  {
    PackNoWrap(pattern, x, parity);
    PackNoWrap(pattern, y, parity);
    CarryDistinct(pattern, Pack(pattern, x, parity).sub[|pattern.sub| - 1], x / TWO_30, y / TWO_30);
  }

  // ----- The mapping list -----

  /** Where the search for an id stops: at its entry, at the pattern, or at the end. */
  function StopForId(m: seq<Mapping>, xid: u32): (i: nat)
    ensures i <= |m| && (i < |m| ==> m[i].xid == 0 || m[i].xid == xid)
    ensures forall k | 0 <= k < i :: m[k].xid != 0 && m[k].xid != xid
  {
    if m == [] || m[0].xid == 0 || m[0].xid == xid then 0 else 1 + StopForId(m[1..], xid)
  }

  function StopForSid(m: seq<Mapping>, sid: Sid): (i: nat)
    ensures i <= |m| && (i < |m| ==> m[i].xid == 0 || m[i].sid == sid)
    ensures forall k | 0 <= k < i :: m[k].xid != 0 && m[k].sid != sid
  {
    if m == [] || m[0].xid == 0 || m[0].sid == sid then 0 else 1 + StopForSid(m[1..], sid)
  }

  function SidOf(m: seq<Mapping>, xid: u32, parity: nat): Option<Sid>
    requires ValidMappings(m) && parity <= 1
  {
    if xid == 0 then Some(ADMIN) else
    var i := StopForId(m, xid);
    if i == |m| then None
    else if m[i].xid == 0 then Some(Pack(m[i].sid, xid, parity))
    else Some(m[i].sid)
  }

  function IdOf(m: seq<Mapping>, sid: Sid, parity: nat): u32
    requires ValidMappings(m) && parity <= 1
  {
    var i := StopForSid(m, sid);
    if i == |m| then 0
    else if m[i].xid == 0 then Unpack(sid, m[i].sid, parity)
    else m[i].xid
  }

  lemma StopForIdUnique(m: seq<Mapping>, xid: u32, i: nat)
    requires i <= |m| && (i < |m| ==> m[i].xid == 0 || m[i].xid == xid)
    requires forall k | 0 <= k < i :: m[k].xid != 0 && m[k].xid != xid
    ensures StopForId(m, xid) == i
  {
  }

  lemma StopForSidUnique(m: seq<Mapping>, sid: Sid, i: nat)
    requires i <= |m| && (i < |m| ==> m[i].xid == 0 || m[i].sid == sid)
    requires forall k | 0 <= k < i :: m[k].xid != 0 && m[k].sid != sid
    ensures StopForSid(m, sid) == i
  {
  }

  /** Root is S-1-5-32-544.  The SID of another id is told by the first entry that is for it or is the pattern. */
  lemma SidMeaning(m: seq<Mapping>, xid: u32, parity: nat, i: nat)
    requires ValidMappings(m) && parity <= 1 && i <= |m|
    requires forall k | 0 <= k < i :: m[k].xid != 0 && m[k].xid != xid
    ensures xid == 0 ==> SidOf(m, xid, parity) == Some(Sid(1, [0, 0, 0, 0, 0, 5], [32, 544]))
    ensures xid != 0 && i == |m| ==> SidOf(m, xid, parity) == None
    ensures xid != 0 && i < |m| && m[i].xid == xid ==> SidOf(m, xid, parity) == Some(m[i].sid)
    ensures xid != 0 && i < |m| && m[i].xid == 0 ==> SidOf(m, xid, parity) == Some(Pack(m[i].sid, xid, parity))
  {
    if i == |m| || m[i].xid == 0 || m[i].xid == xid {
      StopForIdUnique(m, xid, i);
    }
  }

  /** The id of a SID is told by the first entry that has it or is the pattern. */
  lemma IdMeaning(m: seq<Mapping>, sid: Sid, parity: nat, i: nat)
    requires ValidMappings(m) && parity <= 1 && i <= |m|
    requires forall k | 0 <= k < i :: m[k].xid != 0 && m[k].sid != sid
    ensures i == |m| ==> IdOf(m, sid, parity) == 0
    ensures i < |m| && m[i].xid != 0 && m[i].sid == sid ==> IdOf(m, sid, parity) == m[i].xid
    ensures i < |m| && m[i].xid == 0 ==> IdOf(m, sid, parity) == Unpack(sid, m[i].sid, parity)
  {
    if i == |m| || m[i].xid == 0 || m[i].sid == sid {
      StopForSidUnique(m, sid, i);
    }
  }

  /** `ntfs_find_usid` (parity 0) and `ntfs_find_gsid` (parity 1). */
  method FindSid(m: seq<Mapping>, xid: u32, parity: nat) returns (sid: Option<Sid>)
    requires ValidMappings(m) && parity <= 1
    ensures sid == SidOf(m, xid, parity)
  {
    if xid == 0 {
      return Some(ADMIN);
    }
    var p := 0;
    while p < |m| && m[p].xid != 0 && m[p].xid != xid
      invariant 0 <= p <= |m| && forall k | 0 <= k < p :: m[k].xid != 0 && m[k].xid != xid
    {
      p := p + 1;
    }
    StopForIdUnique(m, xid, p);
    if p < |m| && m[p].xid == 0 {
      var def := m[p].sid;
      assert m[p] in m;
      var cnt := |def.sub|;
      def := def.(sub := def.sub[cnt - 1 := (def.sub[cnt - 1] + 2 * (xid % TWO_30) + parity) % TWO_32]);
      if xid >= TWO_30 {
        def := def.(sub := def.sub[cnt - 2 := (def.sub[cnt - 2] + xid / TWO_30) % TWO_32]);
      }
      assert def == Pack(m[p].sid, xid, parity);
      return Some(def);
    }
    return if p < |m| then Some(m[p].sid) else None;
  }

  /** `ntfs_find_user` (parity 0) and `ntfs_find_group` (parity 1). */
  method FindId(m: seq<Mapping>, sid: Sid, parity: nat) returns (xid: u32)
    requires ValidMappings(m) && parity <= 1
    ensures xid == IdOf(m, sid, parity)
  {
    var p := 0;
    while p < |m| && m[p].xid != 0 && m[p].sid != sid
      invariant 0 <= p <= |m| && forall k | 0 <= k < p :: m[k].xid != 0 && m[k].sid != sid
    {
      p := p + 1;
    }
    StopForSidUnique(m, sid, p);
    if p < |m| && m[p].xid == 0 {
      assert m[p] in m;
      xid := FindImplicit(sid, m[p].sid, parity);
    } else {
      xid := if p < |m| then m[p].xid else 0;
    }
  }

  /** No entry before position `i` has this SID. */
  ghost predicate NotBefore(m: seq<Mapping>, i: nat, sid: Sid)
    requires i <= |m|
  {
    forall k | 0 <= k < i :: m[k].sid != sid
  }

  /** An id with a SID gets it back exactly when no earlier entry claims that SID and, if it is
      implicit, its packing can be read. */
  lemma IdRoundTrip(m: seq<Mapping>, xid: u32, parity: nat)
    requires ValidMappings(m) && parity <= 1 && xid != 0 && SidOf(m, xid, parity).Some?
    ensures var i := StopForId(m, xid);
            var sid := SidOf(m, xid, parity).value;
            IdOf(m, sid, parity) == xid
            <==> NotBefore(m, i, sid) && (m[i].xid == xid || xid % TWO_30 != 0 || parity == 1)
  {
    var i := StopForId(m, xid);
    var sid := SidOf(m, xid, parity).value;
    if NotBefore(m, i, sid) {
      StopForSidUnique(m, sid, i);
      assert m[i] in m;
      if m[i].xid == 0 {
        UnpackPack(m[i].sid, xid, parity);
      }
    } else {
      var k :| 0 <= k < i && m[k].sid == sid;
      assert StopForSid(m, sid) <= k;
    }
  }

  /** Root is the administrators' SID, and comes back unless an entry maps that SID to another id. */
  lemma RootRoundTrip(m: seq<Mapping>, parity: nat)
    requires ValidMappings(m) && parity <= 1
    ensures var i := StopForSid(m, ADMIN);
            IdOf(m, SidOf(m, 0, parity).value, parity) == 0 <==> i == |m| || m[i].xid == 0
  {
    var i := StopForSid(m, ADMIN);
    if i < |m| {
      assert m[i] in m;
    }
  }
}
