/** The attribute records of an MFT record (attrib.c): a chain of byte records, edited with `memmove`,
    that stands for a sequence of attributes sorted by type, name and value. */
module MftRecord {
  import opened Common

  const AT_UNUSED := 0
  const AT_FILE_NAME := 0x30
  const AT_DATA := 0x80
  const AT_INDEX_ROOT := 0x90
  const AT_END := 0xffff_ffff
  const HEADER := 24
  const END_SIZE := 8
  const EIO := 5
  const EEXIST := 17
  const EINVAL := 22
  const ENOSPC := 28
  const FILLED_MFT := -2

  type u16 = x: int | 0 <= x < 0x1_0000

  // ----- Little-endian fields -----

  function U16(s: seq<byte>, o: nat): (v: u16)
    requires o + 2 <= |s|
  {
    s[o] as int + 256 * (s[o + 1] as int)
  }

  function U32(s: seq<byte>, o: nat): (v: nat)
    requires o + 4 <= |s|
    ensures v <= AT_END
  {
    s[o] as int + 0x100 * (s[o + 1] as int) + 0x1_0000 * (s[o + 2] as int) + 0x100_0000 * (s[o + 3] as int)
  }

  function Le16(v: nat): (b: seq<byte>)
    requires v < 0x1_0000
    ensures |b| == 2 && U16(b, 0) == v
  {
    [(v % 256) as byte, (v / 256) as byte]
  }

  function Le32(v: nat): (b: seq<byte>)
    requires v <= AT_END
    ensures |b| == 4 && U32(b, 0) == v
  {
    var a := v / 256;
    var b := a / 256;
    [(v % 256) as byte, (a % 256) as byte, (b % 256) as byte, (b / 256) as byte]
  }

  function Align8(n: nat): (r: nat)
    ensures n <= r < n + 8 && r % 8 == 0 && (n % 8 == 0 ==> r == n)
  {
    n + 7 - (n + 7) % 8
  }

  // ----- One attribute record -----

  function TypeOf(r: seq<byte>): nat
    requires |r| >= HEADER
  {
    U32(r, 0)
  }

  /** Type, length and name are in place, and so is the value of a resident attribute. */
  predicate GoodRecord(r: seq<byte>) {
    && HEADER <= |r| <= AT_END && |r| % 8 == 0
    && U32(r, 4) == |r| && U32(r, 0) < AT_END
    && U16(r, 10) + 2 * (r[9] as int) <= |r|
    && (r[8] == 0 ==> U16(r, 20) + U32(r, 16) <= |r|)
  }

  function Units(r: seq<byte>, o: nat, n: nat): (u: seq<u16>)
    requires o + 2 * n <= |r|
    ensures |u| == n && forall i | 0 <= i < n :: u[i] == U16(r, o + 2 * i)
  {
    seq(n, i requires 0 <= i < n => U16(r, o + 2 * i))
  }

  function NameOf(r: seq<byte>): seq<u16>
    requires GoodRecord(r)
  {
    Units(r, U16(r, 10), r[9] as int)
  }

  function ValueOf(r: seq<byte>): seq<byte>
    requires GoodRecord(r)
  {
    if r[8] == 0 then r[U16(r, 20)..U16(r, 20) + U32(r, 16)] else []
  }

  // ----- The chain -----

  ghost predicate GoodRecords(recs: seq<seq<byte>>) {
    forall i | 0 <= i < |recs| :: GoodRecord(recs[i])
  }

  function Concat(recs: seq<seq<byte>>): seq<byte> {
    if recs == [] then [] else recs[0] + Concat(recs[1..])
  }

  /** The attribute area of an MFT record: the records and the end marker. */
  ghost predicate Holds(area: seq<byte>, recs: seq<seq<byte>>) {
    && GoodRecords(recs)
    && |area| == |Concat(recs)| + END_SIZE && area[..|Concat(recs)|] == Concat(recs)
    && U32(area, |Concat(recs)|) == AT_END
  }

  lemma {:induction false} ConcatAppend(a: seq<seq<byte>>, b: seq<seq<byte>>)
    ensures Concat(a + b) == Concat(a) + Concat(b)
  {
    if a == [] {
      assert a + b == b;
    } else {
      assert (a + b)[1..] == a[1..] + b;
      ConcatAppend(a[1..], b);
    }
  }

  /** The offset of record `k` in the area. */
  function Offset(recs: seq<seq<byte>>, k: nat): nat
    requires k <= |recs|
  {
    |Concat(recs[..k])|
  }

  lemma OffsetSplit(recs: seq<seq<byte>>, k: nat)
    requires k <= |recs|
    ensures Concat(recs) == Concat(recs[..k]) + Concat(recs[k..])
    ensures Offset(recs, k) <= |Concat(recs)|
  {
    assert recs == recs[..k] + recs[k..];
    ConcatAppend(recs[..k], recs[k..]);
  }

  lemma OffsetNext(recs: seq<seq<byte>>, k: nat)
    requires k < |recs|
    ensures Concat(recs) == Concat(recs[..k]) + recs[k] + Concat(recs[k + 1..])
    ensures Offset(recs, k + 1) == Offset(recs, k) + |recs[k]|
  {
    var r := recs[k];
    ConcatOne(r);
    assert recs == recs[..k] + [r] + recs[k + 1..];
    ConcatAppend(recs[..k] + [r], recs[k + 1..]);
    ConcatAppend(recs[..k], [r]);
    assert recs[..k + 1] == recs[..k] + [r];
  }

  lemma ConcatOne(r: seq<byte>)
    ensures Concat([r]) == r
  {
    assert [r][1..] == [];
    assert Concat([r]) == r + Concat([]) == r;
  }

  lemma SliceOfSlice<T>(s: seq<T>, start: nat, end: nat, o: nat, n: nat)
    requires start + o + n <= end <= |s|
    ensures s[start..end][o..o + n] == s[start + o..start + o + n]
  {
    var t, u := s[start..end], s[start + o..start + o + n];
    forall i | 0 <= i < n ensures t[o..o + n][i] == u[i] {
      assert t[o + i] == s[start + o + i];
    }
  }

  /** The bytes at offset `k` of the area are record `k`. */
  lemma RecordAt(area: seq<byte>, recs: seq<seq<byte>>, k: nat)
    requires Holds(area, recs) && k < |recs|
    ensures var o := Offset(recs, k);
            o + |recs[k]| + END_SIZE <= |area| && area[o..o + |recs[k]|] == recs[k] && GoodRecord(recs[k])
  {
    OffsetNext(recs, k);
    var o, c := Offset(recs, k), Concat(recs);
    assert c[o..o + |recs[k]|] == recs[k];
    assert area[..|c|] == area[0..|c|];
    SliceOfSlice(area, 0, |c|, o, |recs[k]|);
  }

  lemma FieldAt(s: seq<byte>, o: nat, r: seq<byte>, f: nat)
    requires o + |r| <= |s| && s[o..o + |r|] == r && f + 4 <= |r|
    ensures U32(s, o + f) == U32(r, f)
  {
    assert forall i | 0 <= i < |r| :: s[o + i] == r[i];
  }

  /** The bytes determine the records. */
  lemma {:induction false} ParseUnique(area: seq<byte>, a: seq<seq<byte>>, b: seq<seq<byte>>)
    requires Holds(area, a) && Holds(area, b)
    ensures a == b
  {
    if a != [] && b != [] {
      RecordAt(area, a, 0);
      RecordAt(area, b, 0);
      FieldAt(area, 0, a[0], 4);
      FieldAt(area, 0, b[0], 4);
      assert a[0] == b[0];
      var n := |a[0]|;
      HoldsTail(area, a);
      HoldsTail(area, b);
      ParseUnique(area[n..], a[1..], b[1..]);
      assert a == [a[0]] + a[1..] && b == [b[0]] + b[1..];
    }
  }

  lemma HoldsTail(area: seq<byte>, recs: seq<seq<byte>>)
    requires Holds(area, recs) && recs != []
    ensures |recs[0]| <= |area| && Holds(area[|recs[0]|..], recs[1..])
  {
    var n, c := |recs[0]|, Concat(recs);
    assert c == recs[0] + Concat(recs[1..]);
    assert area[n..][..|c| - n] == area[..|c|][n..] == Concat(recs[1..]);
    assert U32(area[n..], |c| - n) == U32(area, |c|);
  }

  // ----- The order of attributes -----

  type Collation = (seq<u16>, seq<u16>) -> int

  /** `ntfs_names_full_collate` is taken as a total order in which the empty name comes first. */
  ghost predicate IsCollation(c: Collation) {
    && (forall x, y :: c(x, y) == 0 <==> x == y)
    && (forall x, y :: c(x, y) < 0 <==> c(y, x) > 0)
    && (forall x, y, z | c(x, y) < 0 && c(y, z) < 0 :: c(x, z) < 0)
    && (forall x | x != [] :: c([], x) < 0)
  }

  /** `memcmp` on the common length, then the lengths. */
  function Lex(a: seq<byte>, b: seq<byte>): int {
    if a == [] then (if b == [] then 0 else -1)
    else if b == [] then 1
    else if a[0] < b[0] then -1
    else if a[0] > b[0] then 1
    else Lex(a[1..], b[1..])
  }

  lemma {:induction false} LexOrder(a: seq<byte>, b: seq<byte>)
    ensures Lex(a, b) == 0 <==> a == b
    ensures Lex(a, b) < 0 <==> Lex(b, a) > 0
  {
    if a != [] && b != [] {
      LexOrder(a[1..], b[1..]);
      assert a == [a[0]] + a[1..] && b == [b[0]] + b[1..];
    }
  }

  lemma {:induction false} LexTransitive(a: seq<byte>, b: seq<byte>, c: seq<byte>)
    requires Lex(a, b) < 0 && Lex(b, c) < 0
    ensures Lex(a, c) < 0
  {
    if a != [] && b != [] && c != [] && a[0] == b[0] == c[0] {
      LexTransitive(a[1..], b[1..], c[1..]);
    }
  }

  ghost predicate KeyLess(c: Collation, x: seq<byte>, y: seq<byte>)
    requires GoodRecord(x) && GoodRecord(y)
  {
    || TypeOf(x) < TypeOf(y)
    || (TypeOf(x) == TypeOf(y) && c(NameOf(x), NameOf(y)) < 0)
    || (TypeOf(x) == TypeOf(y) && NameOf(x) == NameOf(y) && Lex(ValueOf(x), ValueOf(y)) < 0)
  }

  lemma KeyTransitive(c: Collation, x: seq<byte>, y: seq<byte>, z: seq<byte>)
    requires IsCollation(c) && GoodRecord(x) && GoodRecord(y) && GoodRecord(z)
    requires KeyLess(c, x, y) && KeyLess(c, y, z)
    ensures KeyLess(c, x, z)
  {
    if TypeOf(x) == TypeOf(y) == TypeOf(z) && NameOf(x) == NameOf(y) == NameOf(z) {
      LexTransitive(ValueOf(x), ValueOf(y), ValueOf(z));
    }
  }

  ghost predicate SortedRecords(c: Collation, recs: seq<seq<byte>>)
    requires GoodRecords(recs)
  {
    forall i, j | 0 <= i < j < |recs| :: KeyLess(c, recs[i], recs[j])
  }

  // ----- Searching -----

  /** The name to look for: any (a null pointer), none (AT_UNNAMED), or a given one. */
  datatype NameArg = AnyName | Unnamed | Name(n: seq<u16>)

  /** How the name that is looked for compares with that of a record. */
  function CompareName(c: Collation, name: NameArg, n: seq<u16>): int {
    match name
    case AnyName => 0
    case Unnamed => if n != [] then -1 else 0
    case Name(m) => c(m, n)
  }

  /** What `ntfs_attr_find` does at a record: go on (negative), match (zero), or give up (positive). */
  function Step(c: Collation, r: seq<byte>, typ: nat, name: NameArg, val: Option<seq<byte>>): int
    requires GoodRecord(r)
  {
    if typ == AT_UNUSED then 0
    else if TypeOf(r) != typ then (if TypeOf(r) > typ then 1 else -1)
    else
      var rc := CompareName(c, name, NameOf(r));
      if rc != 0 then -rc
      else if val.None? then 0
      else -Lex(val.value, ValueOf(r))
  }

  predicate SameSign(x: int, y: int) {
    (x < 0 <==> y < 0) && (x == 0 <==> y == 0)
  }

  ghost predicate NameMatches(name: NameArg, n: seq<u16>) {
    name == AnyName || (name == Unnamed && n == []) || name == Name(n)
  }

  /** What the search is for: any attribute if the type is AT_UNUSED, else one of the type, the name and the value
      that are given. */
  ghost predicate Matches(r: seq<byte>, typ: nat, name: NameArg, val: Option<seq<byte>>)
    requires GoodRecord(r)
  {
    || typ == AT_UNUSED
    || (TypeOf(r) == typ && NameMatches(name, NameOf(r)) && (val == None || val == Some(ValueOf(r))))
  }

  lemma MatchMeaning(c: Collation, r: seq<byte>, typ: nat, name: NameArg, val: Option<seq<byte>>)
    requires IsCollation(c) && GoodRecord(r)
    ensures Step(c, r, typ, name, val) == 0 <==> Matches(r, typ, name, val)
  {
    if name.Name? {
      assert c(name.n, NameOf(r)) == 0 <==> name.n == NameOf(r);
    }
    if val.Some? {
      LexOrder(val.value, ValueOf(r));
    }
  }

  /** Compares a value with that of a record as the code does it. */
  method CompareValue(val: seq<byte>, v: seq<byte>) returns (rc: int)
    ensures rc == Lex(val, v)
  {
    var n := if |val| < |v| then |val| else |v|;
    var i := 0;
    while i < n && val[i] == v[i]
      invariant 0 <= i <= n && Lex(val, v) == Lex(val[i..], v[i..])
    {
      assert val[i..][1..] == val[i + 1..] && v[i..][1..] == v[i + 1..];
      i := i + 1;
    }
    if i < n {
      rc := if val[i] < v[i] then -1 else 1;
    } else {
      assert val[i..] == [] || v[i..] == [];
      rc := if |val| == |v| then 0 else if |val| < |v| then -1 else 1;
    }
  }

  /** A record found at `k`, or none, `k` being where the search gave up. */
  ghost predicate SearchedTo(c: Collation, recs: seq<seq<byte>>, typ: nat, name: NameArg, val: Option<seq<byte>>,
                          k: nat, found: bool)
    requires GoodRecords(recs)
  {
    && k <= |recs|
    && (forall j | 0 <= j < k :: Step(c, recs[j], typ, name, val) < 0)
    && (if found then k < |recs| && Step(c, recs[k], typ, name, val) == 0
        else k < |recs| ==> Step(c, recs[k], typ, name, val) > 0)
  }

  /** The comparison of one record of the type that is looked for. */
  method MatchRecord(c: Collation, r: seq<byte>, typ: nat, name: NameArg, val: Option<seq<byte>>) returns (step: int)
    requires GoodRecord(r) && TypeOf(r) == typ != AT_UNUSED
    ensures step == Step(c, r, typ, name, val)
  {
    if name.Unnamed? {
      if r[9] != 0 {
        return 1;
      }
    } else if name.Name? {
      var rc := c(name.n, NameOf(r));
      if rc != 0 {
        return -rc;
      }
    }
    if val.None? {
      return 0;
    }
    var rc := CompareValue(val.value, ValueOf(r));
    return -rc;
  }

  /** What stands at offset `k` of the chain: record `k`, or the end marker. */
  lemma HeadAt(s: seq<byte>, start: nat, end: nat, recs: seq<seq<byte>>, k: nat)
    requires start <= end <= |s| && Holds(s[start..end], recs) && k <= |recs|
    ensures start + Offset(recs, k) + END_SIZE <= end
    ensures var a := start + Offset(recs, k);
            && (k == |recs| ==> U32(s, a) == AT_END)
            && (k < |recs| ==> a + |recs[k]| + END_SIZE <= end && s[a..a + |recs[k]|] == recs[k]
                               && U32(s, a) == TypeOf(recs[k]) < AT_END && U32(s, a + 4) == |recs[k]|)
  {
    var o := Offset(recs, k);
    if k == |recs| {
      assert recs[..k] == recs;
    } else {
      RecordAt(s[start..end], recs, k);
      SliceOfSlice(s, start, end, o, |recs[k]|);
      FieldAt(s, start + o, recs[k], 0);
      FieldAt(s, start + o, recs[k], 4);
    }
  }

  /** The tests at one position of the chain, at record `r` or at the end marker, where `step` is positive
      too. */
  method Visit(c: Collation, s: seq<byte>, a: nat, typ: nat, name: NameArg, val: Option<seq<byte>>, ghost last: bool,
               ghost r: seq<byte>)
    returns (corrupt: bool, step: int, length: nat)
    requires a + END_SIZE <= |s| && typ <= AT_END && (last ==> U32(s, a) == AT_END)
    requires !last ==>
               GoodRecord(r) && a + |r| <= |s| && s[a..a + |r|] == r && U32(s, a) == TypeOf(r) && U32(s, a + 4) == |r|
    ensures !corrupt && (last ==> step > 0)
    ensures !last ==> length == |r| && SameSign(step, Step(c, r, typ, name, val))
  {
    corrupt, step, length := false, 1, 0;
    if a + END_SIZE > |s| {
      corrupt := true;
    } else {
      var atype := U32(s, a);
      length := U32(s, a + 4);
      if (typ != AT_UNUSED && atype > typ) || atype == AT_END {
        step := 1;
      } else if length == 0 {
        corrupt := true;
      } else if typ == AT_UNUSED {
        step := 0;
      } else if atype != typ {
        step := -1;
      } else {
        assert s[a..a + length] == r;
        step := MatchRecord(c, s[a..a + length], typ, name, val);
      }
    }
  }

  /** The same at position `k` of the chain. */
  method VisitNth(c: Collation, s: seq<byte>, start: nat, end: nat, a: nat, typ: nat, name: NameArg,
                  val: Option<seq<byte>>,
                  ghost recs: seq<seq<byte>>, ghost k: nat)
    returns (corrupt: bool, step: int, length: nat)
    requires start <= end <= |s| && Holds(s[start..end], recs) && typ <= AT_END && k <= |recs|
             && a == start + Offset(recs, k)
    ensures !corrupt && a + END_SIZE <= end && (k == |recs| ==> step > 0)
    ensures k < |recs| ==> length == |recs[k]|
    ensures k < |recs| ==> SameSign(step, Step(c, recs[k], typ, name, val))
  {
    HeadAt(s, start, end, recs, k);
    corrupt, step, length := Visit(c, s, a, typ, name, val, k == |recs|, if k < |recs| then recs[k] else []);
  }

  /** `ntfs_attr_find` over the chain in `s[start..end]`: offset `a` of the record found, or of the one
      in front of which the attribute belongs.  An intact chain is never reported corrupt. */
  method FindIn(c: Collation, s: seq<byte>, start: nat, end: nat, typ: nat, name: NameArg, val: Option<seq<byte>>,
                ghost recs: seq<seq<byte>>)
    returns (found: bool, corrupt: bool, a: nat, ghost k: nat)
    requires start <= end <= |s| && Holds(s[start..end], recs) && typ <= AT_END
    ensures !corrupt && SearchedTo(c, recs, typ, name, val, k, found)
    ensures a == start + Offset(recs, k) && a + END_SIZE <= end
  {
    a, k := start, 0;
    var step, length;
    corrupt, step, length := VisitNth(c, s, start, end, a, typ, name, val, recs, k);
    while !corrupt && step < 0
      invariant !corrupt && k <= |recs| && a == start + Offset(recs, k) && a + END_SIZE <= end
      invariant forall j | 0 <= j < k :: Step(c, recs[j], typ, name, val) < 0
      invariant k == |recs| ==> step > 0
      invariant k < |recs| ==> length == |recs[k]|
      invariant k < |recs| ==> SameSign(step, Step(c, recs[k], typ, name, val))
      decreases |recs| - k
    {
      OffsetNext(recs, k);
      a, k := a + length, k + 1;
      corrupt, step, length := VisitNth(c, s, start, end, a, typ, name, val, recs, k);
    }
    found := step == 0;
  }

  // ----- Where a missing attribute belongs -----

  function Inserted<T>(s: seq<T>, k: nat, x: T): seq<T>
    requires k <= |s|
  {
    s[..k] + [x] + s[k..]
  }

  lemma InsertedGood(recs: seq<seq<byte>>, k: nat, r: seq<byte>)
    requires GoodRecords(recs) && GoodRecord(r) && k <= |recs|
    ensures GoodRecords(Inserted(recs, k, r))
  {
    var t := Inserted(recs, k, r);
    forall i | 0 <= i < |t| ensures GoodRecord(t[i]) {
      assert t[i] == if i < k then recs[i] else if i == k then r else recs[i - 1];
    }
  }

  lemma CollateSign(c: Collation, x: seq<u16>, y: seq<u16>)
    requires IsCollation(c)
    ensures c(x, y) == 0 <==> x == y
    ensures c(x, y) < 0 <==> c(y, x) > 0
    ensures c(x, y) > 0 <==> c(y, x) < 0
  {
    assert c(x, y) < 0 <==> c(y, x) > 0;
    assert c(y, x) < 0 <==> c(x, y) > 0;
  }

  /** The search for unnamed attributes is that for the empty name. */
  lemma UnnamedStep(c: Collation, x: seq<byte>, typ: nat, val: Option<seq<byte>>)
    requires IsCollation(c) && GoodRecord(x)
    ensures Step(c, x, typ, Unnamed, val) < 0 <==> Step(c, x, typ, Name([]), val) < 0
    ensures Step(c, x, typ, Unnamed, val) > 0 <==> Step(c, x, typ, Name([]), val) > 0
  {
    CollateSign(c, [], NameOf(x));
    if NameOf(x) != [] {
      assert c([], NameOf(x)) < 0;
    }
  }

  // ----- The order by type and name alone -----

  /** Attributes of the same type and name may stand in any order. */
  ghost predicate NotAfter(c: Collation, x: seq<byte>, y: seq<byte>)
    requires GoodRecord(x) && GoodRecord(y)
  {
    TypeOf(x) < TypeOf(y) || (TypeOf(x) == TypeOf(y) && c(NameOf(x), NameOf(y)) <= 0)
  }

  ghost predicate TypeNameSorted(c: Collation, recs: seq<seq<byte>>)
    requires GoodRecords(recs)
  {
    forall i, j | 0 <= i < j < |recs| :: NotAfter(c, recs[i], recs[j])
  }

  lemma SortedByTypeName(c: Collation, recs: seq<seq<byte>>)
    requires IsCollation(c) && GoodRecords(recs) && SortedRecords(c, recs)
    ensures TypeNameSorted(c, recs)
  {
    forall i, j | 0 <= i < j < |recs| ensures NotAfter(c, recs[i], recs[j]) {
      CollateSign(c, NameOf(recs[i]), NameOf(recs[j]));
      assert KeyLess(c, recs[i], recs[j]);
    }
  }

  lemma NotAfterTransitive(c: Collation, x: seq<byte>, y: seq<byte>, z: seq<byte>)
    requires IsCollation(c) && GoodRecord(x) && GoodRecord(y) && GoodRecord(z)
    requires NotAfter(c, x, y) && NotAfter(c, y, z)
    ensures NotAfter(c, x, z)
  {
    CollateSign(c, NameOf(x), NameOf(y));
    CollateSign(c, NameOf(y), NameOf(z));
  }

  /** Where a record goes without breaking the order: not before any in front of it, and not after the one
      behind it. */
  ghost predicate Fits(c: Collation, recs: seq<seq<byte>>, k: nat, r: seq<byte>)
    requires GoodRecords(recs) && GoodRecord(r) && k <= |recs|
  {
    (forall j | 0 <= j < k :: NotAfter(c, recs[j], r)) && (k < |recs| ==> NotAfter(c, r, recs[k]))
  }

  lemma TypeNameInsert(c: Collation, recs: seq<seq<byte>>, k: nat, r: seq<byte>)
    requires IsCollation(c) && GoodRecords(recs) && TypeNameSorted(c, recs) && GoodRecord(r) && k <= |recs|
    requires Fits(c, recs, k, r)
    ensures GoodRecords(Inserted(recs, k, r)) && TypeNameSorted(c, Inserted(recs, k, r))
  {
    InsertedGood(recs, k, r);
    var t := Inserted(recs, k, r);
    forall i, j | 0 <= i < j < |t| ensures NotAfter(c, t[i], t[j]) {
      if i == k {
        assert t[j] == recs[j - 1];
        if j - 1 > k {
          NotAfterTransitive(c, r, recs[k], recs[j - 1]);
        }
      } else if j == k {
        assert t[i] == recs[i];
      } else {
        assert t[i] == recs[if i < k then i else i - 1] && t[j] == recs[if j < k then j else j - 1];
      }
    }
  }

  lemma TypeNameFits(c: Collation, recs: seq<seq<byte>>, k: nat, r: seq<byte>)
    requires GoodRecords(recs) && GoodRecord(r) && k <= |recs| && GoodRecords(Inserted(recs, k, r))
    requires TypeNameSorted(c, Inserted(recs, k, r))
    ensures Fits(c, recs, k, r)
  {
    var t := Inserted(recs, k, r);
    forall j | 0 <= j < k ensures NotAfter(c, recs[j], r) {
      assert t[j] == recs[j] && t[k] == r;
    }
    if k < |recs| {
      assert t[k] == r && t[k + 1] == recs[k];
    }
  }

  lemma StepIsTypeName(c: Collation, x: seq<byte>, r: seq<byte>, name: NameArg, val: Option<seq<byte>>)
    requires IsCollation(c) && GoodRecord(x) && GoodRecord(r) && TypeOf(r) != AT_UNUSED
    requires name == Name(NameOf(r)) || (name == Unnamed && NameOf(r) == [])
    ensures Step(c, x, TypeOf(r), name, val) < 0 ==> NotAfter(c, x, r)
    ensures Step(c, x, TypeOf(r), name, val) > 0 ==> NotAfter(c, r, x)
  {
    CollateSign(c, NameOf(r), NameOf(x));
    UnnamedStep(c, x, TypeOf(r), val);
  }

  /** On a miss, the search for a given name, or for none, with or without a value, stops where inserting
      keeps the order by type and name, whatever the order of the values. */
  lemma MissKeepsTypeName(c: Collation, recs: seq<seq<byte>>, k: nat, r: seq<byte>, name: NameArg,
                          val: Option<seq<byte>>)
    requires IsCollation(c) && GoodRecords(recs) && TypeNameSorted(c, recs) && GoodRecord(r) && TypeOf(r) != AT_UNUSED
    requires name == Name(NameOf(r)) || (name == Unnamed && NameOf(r) == [])
    requires SearchedTo(c, recs, TypeOf(r), name, val, k, false)
    ensures GoodRecords(Inserted(recs, k, r)) && TypeNameSorted(c, Inserted(recs, k, r))
  {
    forall j | 0 <= j < k ensures NotAfter(c, recs[j], r) {
      StepIsTypeName(c, recs[j], r, name, val);
    }
    if k < |recs| {
      StepIsTypeName(c, recs[k], r, name, val);
    }
    TypeNameInsert(c, recs, k, r);
  }

  /** The search with a null name for value `v` runs past record `j`: it is of the type, and so has, like
      everything of the type in front of it, a smaller value. */
  ghost predicate RunsPast(recs: seq<seq<byte>>, typ: nat, v: seq<byte>, j: nat)
    requires GoodRecords(recs)
  {
    && j < |recs| && TypeOf(recs[j]) == typ
    && forall i | 0 <= i <= j && TypeOf(recs[i]) == typ :: Lex(ValueOf(recs[i]), v) < 0
  }

  /** It stops at or in front of record `j` of the type. */
  lemma RunsPastMeaning(c: Collation, recs: seq<seq<byte>>, k: nat, typ: nat, v: seq<byte>, j: nat)
    requires IsCollation(c) && GoodRecords(recs) && TypeNameSorted(c, recs) && typ != AT_UNUSED
    requires SearchedTo(c, recs, typ, AnyName, Some(v), k, false) && j < |recs| && TypeOf(recs[j]) == typ
    ensures RunsPast(recs, typ, v, j) <==> j < k
  {
    if j < k {
      forall i | 0 <= i <= j && TypeOf(recs[i]) == typ ensures Lex(ValueOf(recs[i]), v) < 0 {
        assert Step(c, recs[i], typ, AnyName, Some(v)) < 0;
        LexOrder(ValueOf(recs[i]), v);
      }
    } else {
      assert k < j ==> NotAfter(c, recs[k], recs[j]);
      LexOrder(ValueOf(recs[k]), v);
    }
  }

  /** What makes the place found with a null name wrong for `r`: a record of the type that is run past has a
      larger name, or one that is not has a smaller name. */
  ghost predicate Misplaced(c: Collation, recs: seq<seq<byte>>, r: seq<byte>, v: seq<byte>, j: nat)
    requires GoodRecords(recs) && GoodRecord(r)
  {
    && j < |recs| && TypeOf(recs[j]) == TypeOf(r)
    && if RunsPast(recs, TypeOf(r), v, j) then c(NameOf(recs[j]), NameOf(r)) > 0 else c(NameOf(r), NameOf(recs[j])) > 0
  }

  /** Searching with a null name and a value, any attribute of the type may be inserted where it stopped,
      unless that is misplaced in this way. */
  lemma AnyNameKeepsTypeName(c: Collation, recs: seq<seq<byte>>, k: nat, r: seq<byte>, v: seq<byte>)
    requires IsCollation(c) && GoodRecords(recs) && TypeNameSorted(c, recs) && GoodRecord(r) && TypeOf(r) != AT_UNUSED
    requires SearchedTo(c, recs, TypeOf(r), AnyName, Some(v), k, false)
    ensures GoodRecords(Inserted(recs, k, r))
    ensures TypeNameSorted(c, Inserted(recs, k, r)) <==> !exists j: nat :: Misplaced(c, recs, r, v, j)
  {
    InsertedGood(recs, k, r);
    if j: nat :| Misplaced(c, recs, r, v, j) {
      RunsPastMeaning(c, recs, k, TypeOf(r), v, j);
      if TypeNameSorted(c, Inserted(recs, k, r)) {
        TypeNameFits(c, recs, k, r);
        if j > k {
          NotAfterTransitive(c, r, recs[k], recs[j]);
        }
      }
    } else {
      forall j | 0 <= j < k ensures NotAfter(c, recs[j], r) {
        NullNameFits(c, recs, k, r, v, j);
      }
      if k < |recs| {
        NullNameFits(c, recs, k, r, v, k);
      }
      TypeNameInsert(c, recs, k, r);
    }
  }

  lemma NullNameFits(c: Collation, recs: seq<seq<byte>>, k: nat, r: seq<byte>, v: seq<byte>, j: nat)
    requires IsCollation(c) && GoodRecords(recs) && TypeNameSorted(c, recs) && GoodRecord(r) && TypeOf(r) != AT_UNUSED
    requires SearchedTo(c, recs, TypeOf(r), AnyName, Some(v), k, false) && j <= k && j < |recs|
    requires !Misplaced(c, recs, r, v, j)
    ensures if j < k then NotAfter(c, recs[j], r) else NotAfter(c, r, recs[j])
  {
    assert j < k ==> Step(c, recs[j], TypeOf(r), AnyName, Some(v)) < 0;
    if TypeOf(recs[j]) == TypeOf(r) {
      RunsPastMeaning(c, recs, k, TypeOf(r), v, j);
    }
  }

  /** Of an unnamed attribute: the place is right if and only if no named one of the type is run past. */
  lemma UnnamedKeepsTypeName(c: Collation, recs: seq<seq<byte>>, k: nat, r: seq<byte>, v: seq<byte>)
    requires IsCollation(c) && GoodRecords(recs) && TypeNameSorted(c, recs) && GoodRecord(r)
    requires TypeOf(r) != AT_UNUSED && NameOf(r) == []
    requires SearchedTo(c, recs, TypeOf(r), AnyName, Some(v), k, false)
    ensures GoodRecords(Inserted(recs, k, r))
    ensures TypeNameSorted(c, Inserted(recs, k, r)) <==> !exists j: nat :: RunsPastNamed(recs, TypeOf(r), v, j)
  {
    AnyNameKeepsTypeName(c, recs, k, r, v);
    forall j: nat ensures Misplaced(c, recs, r, v, j) <==> RunsPastNamed(recs, TypeOf(r), v, j) {
      if j < |recs| {
        CollateSign(c, [], NameOf(recs[j]));
        assert NameOf(recs[j]) != [] ==> c([], NameOf(recs[j])) < 0;
      }
    }
  }

  /** Without a value to look for, such a search finds any attribute of the type, and a miss is in order. */
  lemma AnyValueKeepsTypeName(c: Collation, recs: seq<seq<byte>>, k: nat, r: seq<byte>)
    requires IsCollation(c) && GoodRecords(recs) && TypeNameSorted(c, recs) && GoodRecord(r) && TypeOf(r) != AT_UNUSED
    requires SearchedTo(c, recs, TypeOf(r), AnyName, None, k, false)
    ensures GoodRecords(Inserted(recs, k, r)) && TypeNameSorted(c, Inserted(recs, k, r))
  {
    forall j | 0 <= j < k ensures NotAfter(c, recs[j], r) {
      assert Step(c, recs[j], TypeOf(r), AnyName, None) < 0;
    }
    TypeNameInsert(c, recs, k, r);
  }

  /** A record at which the search gives up is behind everything that it could be for. */
  lemma GivesUp(c: Collation, x: seq<byte>, y: seq<byte>, typ: nat, name: NameArg, val: Option<seq<byte>>)
    requires IsCollation(c) && GoodRecord(x) && GoodRecord(y) && typ != AT_UNUSED && (name != AnyName || val == None)
    requires if val == None then NotAfter(c, x, y) else KeyLess(c, x, y)
    requires Step(c, x, typ, name, val) > 0
    ensures !Matches(y, typ, name, val)
  {
    UnnamedStep(c, x, typ, val);
    CollateSign(c, NameOf(x), NameOf(y));
    CollateSign(c, GivenFor(name), NameOf(x));
    CollateSign(c, GivenFor(name), NameOf(y));
    if val.Some? {
      LexOrder(ValueOf(x), ValueOf(y));
      LexOrder(val.value, ValueOf(x));
    }
  }

  function GivenFor(name: NameArg): seq<u16> {
    if name.Name? then name.n else []
  }

  /** The search finds an attribute if and only if there is one; for a given value this needs the attributes of one
      type and name to be sorted by value. */
  lemma FoundIffThere(c: Collation, recs: seq<seq<byte>>, typ: nat, name: NameArg, val: Option<seq<byte>>, k: nat,
                      found: bool)
    requires IsCollation(c) && GoodRecords(recs) && SearchedTo(c, recs, typ, name, val, k, found)
    requires name != AnyName || val == None
    requires if val == None then TypeNameSorted(c, recs) else SortedRecords(c, recs)
    ensures found <==> exists j | 0 <= j < |recs| :: Matches(recs[j], typ, name, val)
    ensures found ==> Matches(recs[k], typ, name, val) && forall j | 0 <= j < k :: !Matches(recs[j], typ, name, val)
  {
    forall j | 0 <= j < k ensures !Matches(recs[j], typ, name, val) {
      MatchMeaning(c, recs[j], typ, name, val);
    }
    if k < |recs| {
      MatchMeaning(c, recs[k], typ, name, val);
    }
    if !found {
      forall j | k < j < |recs| ensures !Matches(recs[j], typ, name, val) {
        GivesUp(c, recs[k], recs[j], typ, name, val);
      }
    }
  }

  // ----- The order by type, name and value -----

  /** Enough for a sorted list to stay sorted: the new record is after the one in front of it and
      before the one behind it. */
  lemma SortedInsert(c: Collation, recs: seq<seq<byte>>, k: nat, r: seq<byte>)
    requires IsCollation(c) && GoodRecords(recs) && SortedRecords(c, recs) && GoodRecord(r) && k <= |recs|
    requires forall j | 0 <= j < k :: KeyLess(c, recs[j], r)
    requires k < |recs| ==> KeyLess(c, r, recs[k])
    ensures GoodRecords(Inserted(recs, k, r)) && SortedRecords(c, Inserted(recs, k, r))
  {
    var t := Inserted(recs, k, r);
    InsertedGood(recs, k, r);
    forall i, j | 0 <= i < j < |t| ensures KeyLess(c, t[i], t[j]) {
      if i == k {
        assert t[j] == recs[j - 1];
        if j - 1 > k {
          KeyTransitive(c, r, recs[k], recs[j - 1]);
        }
      } else if j == k {
        assert t[i] == recs[i];
      } else {
        assert t[i] == recs[if i < k then i else i - 1] && t[j] == recs[if j < k then j else j - 1];
      }
    }
  }

  lemma StepIsOrder(c: Collation, x: seq<byte>, r: seq<byte>, val: Option<seq<byte>>)
    requires GoodRecord(x) && GoodRecord(r) && TypeOf(r) != AT_UNUSED
    requires c(NameOf(r), NameOf(x)) == 0 <==> NameOf(r) == NameOf(x)
    requires c(NameOf(r), NameOf(x)) > 0 <==> c(NameOf(x), NameOf(r)) < 0
    requires val == None || val == Some(ValueOf(r))
    ensures Step(c, x, TypeOf(r), Name(NameOf(r)), val) < 0 ==> KeyLess(c, x, r)
    ensures Step(c, x, TypeOf(r), Name(NameOf(r)), val) > 0 ==> KeyLess(c, r, x)
  {
    LexOrder(ValueOf(r), ValueOf(x));
    LexOrder(ValueOf(x), ValueOf(r));
  }

  /** On a miss, the search for a given name, or for none, stops exactly where inserting keeps the order. */
  lemma MissKeepsOrder(c: Collation, recs: seq<seq<byte>>, k: nat, r: seq<byte>, name: NameArg, val: Option<seq<byte>>)
    requires IsCollation(c) && GoodRecords(recs) && SortedRecords(c, recs) && GoodRecord(r) && TypeOf(r) != AT_UNUSED
    requires val == None || val == Some(ValueOf(r))
    requires name == Name(NameOf(r)) || (name == Unnamed && NameOf(r) == [])
    requires SearchedTo(c, recs, TypeOf(r), name, val, k, false)
    ensures GoodRecords(Inserted(recs, k, r)) && SortedRecords(c, Inserted(recs, k, r))
  {
    forall j | 0 <= j < k ensures KeyLess(c, recs[j], r) {
      CollateSign(c, NameOf(r), NameOf(recs[j]));
      UnnamedStep(c, recs[j], TypeOf(r), val);
      StepIsOrder(c, recs[j], r, val);
    }
    if k < |recs| {
      CollateSign(c, NameOf(r), NameOf(recs[k]));
      UnnamedStep(c, recs[k], TypeOf(r), val);
      StepIsOrder(c, recs[k], r, val);
    }
    SortedInsert(c, recs, k, r);
  }

  /** A named attribute of the type which, with everything of the type in front of it, has a smaller
      value: the search by value alone runs past it. */
  ghost predicate RunsPastNamed(recs: seq<seq<byte>>, typ: nat, v: seq<byte>, j: nat)
    requires GoodRecords(recs)
  {
    RunsPast(recs, typ, v, j) && NameOf(recs[j]) != []
  }

  /** Searching with a null name, which a passage of the comment describes as a search for the unnamed one,
      compares no names; an unnamed attribute inserted there is in order exactly when the search did
      not run past a named one. */
  lemma AnyNameKeepsOrder(c: Collation, recs: seq<seq<byte>>, k: nat, r: seq<byte>)
    requires IsCollation(c) && GoodRecords(recs) && SortedRecords(c, recs) && GoodRecord(r)
    requires TypeOf(r) != AT_UNUSED && NameOf(r) == []
    requires SearchedTo(c, recs, TypeOf(r), AnyName, Some(ValueOf(r)), k, false)
    ensures GoodRecords(Inserted(recs, k, r))
    ensures SortedRecords(c, Inserted(recs, k, r)) <==> !exists j: nat :: RunsPastNamed(recs, TypeOf(r), ValueOf(r), j)
  {
    var t := Inserted(recs, k, r);
    InsertedGood(recs, k, r);
    if j: nat :| RunsPastNamed(recs, TypeOf(r), ValueOf(r), j) {
      PastNamed(c, recs, k, r, j);
      assert t[j] == recs[j] && t[k] == r;
      assert c([], NameOf(recs[j])) < 0;
      assert !KeyLess(c, t[j], t[k]);
    } else {
      forall j | 0 <= j < k ensures KeyLess(c, recs[j], r) {
        if TypeOf(recs[j]) == TypeOf(r) {
          UnnamedBefore(c, recs, k, r, j);
        }
      }
      if k < |recs| {
        LexOrder(ValueOf(r), ValueOf(recs[k]));
      }
      SortedInsert(c, recs, k, r);
    }
  }

  /** Without a value to look for, such a search finds any attribute of the type, and a miss is in order. */
  lemma AnyValueKeepsOrder(c: Collation, recs: seq<seq<byte>>, k: nat, r: seq<byte>)
    requires IsCollation(c) && GoodRecords(recs) && SortedRecords(c, recs) && GoodRecord(r) && TypeOf(r) != AT_UNUSED
    requires SearchedTo(c, recs, TypeOf(r), AnyName, None, k, false)
    ensures GoodRecords(Inserted(recs, k, r)) && SortedRecords(c, Inserted(recs, k, r))
  {
    forall j | 0 <= j < k ensures KeyLess(c, recs[j], r) {
      assert Step(c, recs[j], TypeOf(r), AnyName, None) < 0;
    }
    SortedInsert(c, recs, k, r);
  }

  lemma PastNamed(c: Collation, recs: seq<seq<byte>>, k: nat, r: seq<byte>, j: nat)
    requires IsCollation(c) && GoodRecords(recs) && SortedRecords(c, recs) && GoodRecord(r) && TypeOf(r) != AT_UNUSED
    requires SearchedTo(c, recs, TypeOf(r), AnyName, Some(ValueOf(r)), k, false)
    requires RunsPastNamed(recs, TypeOf(r), ValueOf(r), j)
    ensures j < k
  {
    if k <= j {
      assert k < j ==> KeyLess(c, recs[k], recs[j]);
      LexOrder(ValueOf(recs[k]), ValueOf(r));
    }
  }

  lemma UnnamedBefore(c: Collation, recs: seq<seq<byte>>, k: nat, r: seq<byte>, j: nat)
    requires GoodRecords(recs) && GoodRecord(r) && TypeOf(r) != AT_UNUSED && NameOf(r) == []
    requires SearchedTo(c, recs, TypeOf(r), AnyName, Some(ValueOf(r)), k, false) && j < k
    requires TypeOf(recs[j]) == TypeOf(r) && !RunsPastNamed(recs, TypeOf(r), ValueOf(r), j)
    ensures KeyLess(c, recs[j], r)
  {
    forall i | 0 <= i <= j && TypeOf(recs[i]) == TypeOf(r) ensures Lex(ValueOf(recs[i]), ValueOf(r)) < 0 {
      assert Step(c, recs[i], TypeOf(r), AnyName, Some(ValueOf(r))) < 0;
      LexOrder(ValueOf(recs[i]), ValueOf(r));
    }
  }

  // ----- Editing the chain, on the area -----

  /** The area is what precedes record `k`, and what follows. */
  lemma AreaSplit(area: seq<byte>, recs: seq<seq<byte>>, k: nat)
    requires Holds(area, recs) && k <= |recs|
    ensures var o := Offset(recs, k);
            && o + END_SIZE <= |area| && area[..o] == Concat(recs[..k])
            && Holds(area[o..], recs[k..])
  {
    OffsetSplit(recs, k);
    var o, c := Offset(recs, k), Concat(recs);
    assert area[..o] == area[..|c|][..o] == c[..o];
    assert area[o..][..|c| - o] == area[..|c|][o..] == c[o..];
    assert U32(area[o..], |c| - o) == U32(area, |c|);
  }

  lemma AreaJoin(a: seq<byte>, recsA: seq<seq<byte>>, b: seq<byte>, recsB: seq<seq<byte>>)
    requires a == Concat(recsA) && GoodRecords(recsA) && Holds(b, recsB)
    ensures Holds(a + b, recsA + recsB)
  {
    ConcatAppend(recsA, recsB);
    var area, n := a + b, |Concat(recsB)|;
    assert area[..|a| + n] == a + b[..n];
    assert U32(area, |a| + n) == U32(b, n) by {
      assert area[|a| + n..] == b[n..];
      assert area[|a| + n] == area[|a| + n..][0] && area[|a| + n + 1] == area[|a| + n..][1];
      assert area[|a| + n + 2] == area[|a| + n..][2] && area[|a| + n + 3] == area[|a| + n..][3];
    }
  }

  lemma OffsetMonotone(recs: seq<seq<byte>>, k: nat, n: nat)
    requires k + n <= |recs|
    ensures Offset(recs, k) <= Offset(recs, k + n)
  {
    assert recs[..k + n] == recs[..k] + recs[k..k + n];
    ConcatAppend(recs[..k], recs[k..k + n]);
  }

  /** Replacing the bytes of the `n` records from `k` on by those of `mid` replaces these records. */
  lemma AreaReplace(area: seq<byte>, recs: seq<seq<byte>>, k: nat, n: nat, mid: seq<seq<byte>>)
    requires Holds(area, recs) && k + n <= |recs| && GoodRecords(mid)
    ensures Offset(recs, k) <= Offset(recs, k + n) <= |area|
    ensures Holds(area[..Offset(recs, k)] + Concat(mid) + area[Offset(recs, k + n)..], recs[..k] + mid + recs[k + n..])
  {
    OffsetMonotone(recs, k, n);
    OffsetSplit(recs, k + n);
    assert area[..Offset(recs, k)] == Concat(recs[..k]) by { AreaSplit(area, recs, k); }
    var b, recsB := area[Offset(recs, k + n)..], recs[k + n..];
    assert Holds(b, recsB) by { AreaSplit(area, recs, k + n); }
    var a, recsA := area[..Offset(recs, k)] + Concat(mid), recs[..k] + mid;
    assert a == Concat(recsA) by { ConcatAppend(recs[..k], mid); }
    AreaJoin(a, recsA, b, recsB);
  }
}
