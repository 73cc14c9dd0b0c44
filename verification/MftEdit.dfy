/** Adding, resizing and removing the attribute records of an MFT record in memory (attrib.c), against
    the sequence of records that the bytes stand for. */
module MftEdit {
  import opened Common
  import opened MftRecord

  const BLOCK_SIZE := 512
  const OLD_RECORD_SIZE := 42
  const RECORD_SIZE := 48

  // ----- Storing bytes -----

  function PutAt(s: seq<byte>, o: nat, b: seq<byte>): (r: seq<byte>)
    requires o + |b| <= |s|
    ensures |r| == |s|
    decreases |b|
  {
    if b == [] then s else PutAt(s[o := b[0]], o + 1, b[1..])
  }

  lemma {:induction false} PutAtSplits(s: seq<byte>, o: nat, b: seq<byte>)
    requires o + |b| <= |s|
    ensures PutAt(s, o, b) == s[..o] + b + s[o + |b|..]
    decreases |b|
  {
    if b != [] {
      PutAtSplits(s[o := b[0]], o + 1, b[1..]);
      assert b == [b[0]] + b[1..];
    }
  }

  lemma PutAtAside(s: seq<byte>, o: nat, b: seq<byte>, lo: nat, hi: nat)
    requires o + |b| <= |s| && lo <= hi <= |s| && (hi <= o || o + |b| <= lo)
    ensures PutAt(s, o, b)[lo..hi] == s[lo..hi]
  {
    PutAtSplits(s, o, b);
    var r := PutAt(s, o, b);
    assert forall i | lo <= i < hi :: r[i] == s[i];
  }

  lemma PutAtWithin(s: seq<byte>, o: nat, b: seq<byte>, lo: nat, hi: nat)
    requires lo <= o && o + |b| <= hi <= |s|
    ensures PutAt(s, o, b)[lo..hi] == PutAt(s[lo..hi], o - lo, b)
  {
    PutAtSplits(s, o, b);
    PutAtSplits(s[lo..hi], o - lo, b);
    var r, t := PutAt(s, o, b), PutAt(s[lo..hi], o - lo, b);
    assert forall i | lo <= i < hi :: r[i] == t[i - lo];
  }

  lemma PutAtSame(s: seq<byte>, o: nat, b: seq<byte>)
    requires o + |b| <= |s|
    ensures PutAt(s, o, b)[o..o + |b|] == b
  {
    PutAtSplits(s, o, b);
  }

  // ----- A new resident record -----

  function NameBytes(name: seq<u16>): (b: seq<byte>)
    ensures |b| == 2 * |name|
  {
    if name == [] then [] else Le16(name[0]) + NameBytes(name[1..])
  }

  lemma {:induction false} NameBytesAt(name: seq<u16>, i: nat)
    requires i < |name|
    ensures U16(NameBytes(name), 2 * i) == name[i]
  {
    if i > 0 {
      NameBytesAt(name[1..], i - 1);
      var b, t := NameBytes(name), NameBytes(name[1..]);
      assert b[2 * i] == t[2 * (i - 1)] && b[2 * i + 1] == t[2 * (i - 1) + 1];
    }
  }

  /** The header of a resident record. */
  datatype Head = Head(typ: nat, length: nat, nonResident: byte, nameLen: byte, nameOffset: u16, flags: u16,
                       instance: u16, size: nat, valueOffset: u16)

  function HeadOf(h: seq<byte>): Head
    requires |h| >= 22
  {
    Head(U32(h, 0), U32(h, 4), h[8], h[9], U16(h, 10), U16(h, 12), U16(h, 14), U32(h, 16), U16(h, 20))
  }

  /** The fields that `ntfs_resident_attr_record_add` sets, in the order in which they are stored. */
  function Header(d: Head): (h: seq<byte>)
    requires d.typ <= AT_END && d.length <= AT_END && d.size <= AT_END
    ensures |h| == 23 && HeadOf(h) == d && h[22] == if d.typ == AT_FILE_NAME then 1 else 0
  {
    var h1 := Le32(d.typ) + Le32(d.length) + [d.nonResident, d.nameLen] + Le16(d.nameOffset);
    var h2 := Le16(d.flags) + Le16(d.instance) + Le32(d.size) + Le16(d.valueOffset)
      + [if d.typ == AT_FILE_NAME then 1 else 0];
    h1 + h2
  }

  function RecordLength(nameLen: nat, size: nat): (n: nat)
    ensures n % 8 == 0 && n >= HEADER + 2 * nameLen + size
  {
    HEADER + Align8(2 * nameLen) + Align8(size)
  }

  /** Name and value are each padded to the next multiple of eight, behind a header of 24 bytes. */
  lemma RecordLengthMeaning(nameLen: nat, size: nat) returns (pad: nat, pad': nat)
    ensures pad < 8 && (2 * nameLen + pad) % 8 == 0 && ValueOffset(nameLen) == 24 + 2 * nameLen + pad
    ensures pad' < 8 && (size + pad') % 8 == 0 && RecordLength(nameLen, size) == ValueOffset(nameLen) + size + pad'
  {
    pad, pad' := Align8(2 * nameLen) - 2 * nameLen, Align8(size) - size;
  }

  /** The three stores leave header, value and name in place. */
  lemma ThreeStores(room: seq<byte>, h: seq<byte>, o: nat, v: seq<byte>, n: nat, nb: seq<byte>)
    requires |h| <= n && n + |nb| <= o && o + |v| <= |room|
    ensures var r := PutAt(PutAt(PutAt(room, 0, h), o, v), n, nb);
            r[0..|h|] == h && r[o..o + |v|] == v && r[n..n + |nb|] == nb
  {
    var r1 := PutAt(room, 0, h);
    var r2 := PutAt(r1, o, v);
    PutAtSame(room, 0, h);
    PutAtAside(r1, o, v, 0, |h|);
    PutAtAside(r2, n, nb, 0, |h|);
    PutAtSame(r1, o, v);
    PutAtAside(r2, n, nb, o, o + |v|);
    PutAtSame(r2, n, nb);
  }

  lemma StoreWithin(s: seq<byte>, a: nat, n: nat, end: nat, o: nat, b: seq<byte>)
    requires o + |b| <= n && a + n <= end <= |s|
    ensures var t := PutAt(s, a + o, b);
            t[0..a] == s[0..a] && t[a + n..end] == s[a + n..end] && t[a..a + n] == PutAt(s[a..a + n], o, b)
  {
    PutAtAside(s, a + o, b, 0, a);
    PutAtAside(s, a + o, b, a + n, end);
    PutAtWithin(s, a + o, b, a, a + n);
  }

  lemma StoresWithin(s: seq<byte>, a: nat, n: nat, end: nat, h: seq<byte>, o: nat, v: seq<byte>, m: nat, nb: seq<byte>)
    requires |h| <= n && o + |v| <= n && m + |nb| <= n && a + n <= end <= |s|
    ensures var t := PutAt(PutAt(PutAt(s, a, h), a + o, v), a + m, nb);
            && t[0..a] == s[0..a] && t[a + n..end] == s[a + n..end]
            && t[a..a + n] == PutAt(PutAt(PutAt(s[a..a + n], 0, h), o, v), m, nb)
  {
    var r1 := PutAt(s, a, h);
    StoreWithin(s, a, n, end, 0, h);
    StoreWithin(r1, a, n, end, o, v);
    StoreWithin(PutAt(r1, a + o, v), a, n, end, m, nb);
  }

  lemma StoresOutside(s: seq<byte>, a: nat, end: nat, h: seq<byte>, o: nat, v: seq<byte>, m: nat, nb: seq<byte>)
    requires a + |h| <= end && a + o + |v| <= end && a + m + |nb| <= end <= |s|
    ensures Outside(s, PutAt(PutAt(PutAt(s, a, h), a + o, v), a + m, nb), a, end, end)
  {
    var r1 := PutAt(s, a, h);
    PutAtOutside(s, a, h, a, end, end);
    PutAtOutside(r1, a + o, v, a, end, end);
    PutAtOutside(PutAt(r1, a + o, v), a + m, nb, a, end, end);
  }

  function ValueOffset(nameLen: nat): (o: nat)
  {
    HEADER + Align8(2 * nameLen)
  }

  lemma HeadKept(r: seq<byte>, h: seq<byte>)
    requires 23 == |h| <= |r| && r[0..23] == h
    ensures HeadOf(r) == HeadOf(h) && r[22] == h[22]
  {
    assert forall i | 0 <= i < 23 :: r[i] == h[i];
  }

  lemma UnitsOfBytes(r: seq<byte>, o: nat, name: seq<u16>)
    requires o + 2 * |name| <= |r| && r[o..o + 2 * |name|] == NameBytes(name)
    ensures Units(r, o, |name|) == name
  {
    var b, u := NameBytes(name), Units(r, o, |name|);
    forall i | 0 <= i < |name| ensures u[i] == name[i] {
      NameBytesAt(name, i);
      assert r[o + 2 * i] == b[2 * i] && r[o + 2 * i + 1] == b[2 * i + 1];
    }
  }

  /** An attribute as the bytes of a record state it; `resizable` if it is resident and its value comes
      after header and name. */
  datatype Attr = Attr(typ: nat, name: seq<u16>, flags: u16, instance: u16, value: seq<byte>, resizable: bool)

  function AttrOf(r: seq<byte>): Option<Attr> {
    if GoodRecord(r) then Some(Attr(TypeOf(r), NameOf(r), U16(r, 12), U16(r, 14), ValueOf(r), ValueIsLast(r))) else None
  }

  /** A resident record whose value comes after header and name, so that it can change its size. */
  predicate ValueIsLast(r: seq<byte>)
    requires GoodRecord(r)
  {
    && r[8] == 0 && HEADER <= U16(r, 20) && U16(r, 10) + 2 * (r[9] as int) <= U16(r, 20)
    && (r[9] > 0 ==> U16(r, 10) >= HEADER)
  }

  lemma AttrByHead(r: seq<byte>, d: Head, n: nat)
    requires HEADER <= |r| <= AT_END && |r| % 8 == 0 && HeadOf(r) == d && n == d.nameLen as int
    requires d.typ < AT_END && d.length == |r| && d.nonResident == 0
    requires HEADER <= d.valueOffset && d.valueOffset + d.size <= |r| && d.nameOffset + 2 * n <= d.valueOffset
             && (n > 0 ==> d.nameOffset >= HEADER)
    ensures AttrOf(r)
            == Some(Attr(d.typ, Units(r, d.nameOffset, n), d.flags, d.instance,
            r[d.valueOffset..d.valueOffset + d.size], true))
  {
  }

  function NewHead(typ: nat, length: nat, name: seq<u16>, flags: u16, instance: u16, size: nat): Head
    requires |name| < 256
  {
    Head(typ, length, 0, |name| as byte, if name == [] then 0 else HEADER, flags, instance, size, ValueOffset(|name|))
  }

  /** What the stores into `room` leave there: header, then value, then name. */
  function StoredBytes(room: seq<byte>, typ: nat, name: seq<u16>, v: seq<byte>, flags: u16,
                       instance: u16): (t: seq<byte>)
    requires typ < AT_END && |name| < 256 && |room| == RecordLength(|name|, |v|) <= AT_END
    ensures |t| == |room|
  {
    var h := Header(NewHead(typ, |room|, name, flags, instance, |v|));
    PutAt(PutAt(PutAt(room, 0, h), ValueOffset(|name|), v), HEADER, NameBytes(name))
  }

  /** Header, name and value of the stored record. */
  lemma StoredParts(room: seq<byte>, name: seq<u16>, v: seq<byte>, h: seq<byte>, o: nat, nb: seq<byte>, t: seq<byte>)
    requires |room| == RecordLength(|name|, |v|) && o == ValueOffset(|name|) && |h| == 23 && nb == NameBytes(name)
    requires t == PutAt(PutAt(PutAt(room, 0, h), o, v), HEADER, nb)
    ensures HeadOf(t) == HeadOf(h) && t[22] == h[22] && t[o..o + |v|] == v && Units(t, HEADER, |name|) == name
  {
    ThreeStores(room, h, o, v, HEADER, nb);
    HeadKept(t, h);
    UnitsOfBytes(t, HEADER, name);
  }

  /** The stored record has the given type, name and value, with the value last. */
  lemma StoredAttr(room: seq<byte>, typ: nat, name: seq<u16>, v: seq<byte>, flags: u16, instance: u16)
    requires typ < AT_END && |name| < 256 && |room| == RecordLength(|name|, |v|) <= AT_END
    ensures AttrOf(StoredBytes(room, typ, name, v, flags, instance)) == Some(Attr(typ, name, flags, instance, v, true))
    ensures StoredBytes(room, typ, name, v, flags, instance)[22] == if typ == AT_FILE_NAME then 1 else 0
  {
    var h, t := Header(NewHead(typ, |room|, name, flags, instance, |v|)),
      StoredBytes(room, typ, name, v, flags, instance);
    StoredParts(room, name, v, h, ValueOffset(|name|), NameBytes(name), t);
    AttrOfParts(t, typ, name, flags, instance, v);
  }

  lemma AttrOfParts(t: seq<byte>, typ: nat, name: seq<u16>, flags: u16, instance: u16, v: seq<byte>)
    requires typ < AT_END && |name| < 256 && |t| == RecordLength(|name|, |v|) <= AT_END
    requires HeadOf(t) == NewHead(typ, |t|, name, flags, instance, |v|)
    requires var o := ValueOffset(|name|); t[o..o + |v|] == v && Units(t, HEADER, |name|) == name
    ensures AttrOf(t) == Some(Attr(typ, name, flags, instance, v, true))
  {
    AttrByHead(t, NewHead(typ, |t|, name, flags, instance, |v|), |name|);
  }

  /** The header of a data attribute of name "A" with a value of two bytes, flags 0x8001 and instance 7, as it is on
      the disk. */
  lemma HeaderExample()
    ensures Header(NewHead(AT_DATA, 40, [65], 0x8001, 7, 2))
            == [0x80, 0, 0, 0, 40, 0, 0, 0, 0, 1, 24, 0, 0x01, 0x80, 7, 0, 2, 0, 0, 0, 32, 0, 0]
  {
  }

  /** The record added to zeroed room. */
  lemma NewRecord(typ: nat, name: seq<u16>, v: seq<byte>) returns (r: seq<byte>)
    requires typ < AT_END && |name| < 256 && RecordLength(|name|, |v|) <= AT_END
    ensures AttrOf(r) == Some(Attr(typ, name, 0, 0, v, true))
  {
    var room := Zeros(RecordLength(|name|, |v|));
    r := StoredBytes(room, typ, name, v, 0, 0);
    StoredAttr(room, typ, name, v, 0, 0);
  }

  /** A search with a null name can misplace an unnamed attribute: with a data attribute of name "A" and
      value 5 in the record, the one without a name and with value 7 is put behind it. */
  lemma AnyNameMisplaces(c: Collation) returns (named: seq<byte>, unnamed: seq<byte>)
    requires IsCollation(c)
    ensures AttrOf(named) == Some(Attr(AT_DATA, [65], 0, 0, [5], true))
    ensures AttrOf(unnamed) == Some(Attr(AT_DATA, [], 0, 0, [7], true))
    ensures GoodRecords([named]) && SortedRecords(c, [named])
    ensures SearchedTo(c, [named], AT_DATA, AnyName, Some([7]), 1, false)
    ensures GoodRecords([named, unnamed]) && !TypeNameSorted(c, [named, unnamed])
  {
    named := NewRecord(AT_DATA, [65], [5]);
    unnamed := NewRecord(AT_DATA, [], [7]);
    CollateSign(c, [], [65]);
    assert c([], [65]) < 0;
    assert !NotAfter(c, [named, unnamed][0], [named, unnamed][1]);
  }

  /** Two file name attributes may stand in either order of their values, so that the order by type and name
      holds of more records than that by value. */
  lemma FileNamesInAnyOrder(c: Collation) returns (first: seq<byte>, second: seq<byte>)
    requires IsCollation(c)
    ensures AttrOf(first) == Some(Attr(AT_FILE_NAME, [], 0, 0, [6, 2], true))
    ensures AttrOf(second) == Some(Attr(AT_FILE_NAME, [], 0, 0, [5, 1], true))
    ensures GoodRecords([first, second]) && TypeNameSorted(c, [first, second]) && !SortedRecords(c, [first, second])
  {
    first := NewRecord(AT_FILE_NAME, [], [6, 2]);
    second := NewRecord(AT_FILE_NAME, [], [5, 1]);
    CollateSign(c, [], []);
    assert !KeyLess(c, [first, second][0], [first, second][1]);
  }

  /** When adding leaves the records sorted by type and name: always, but for a null name with which a
      named attribute is run past. */
  ghost predicate KeepsOrder(c: Collation, recs: seq<seq<byte>>, k: nat, r: seq<byte>, typ: nat, name: NameArg,
                          val: Option<seq<byte>>)
    requires k <= |recs| && GoodRecords(recs) && GoodRecords(Inserted(recs, k, r))
  {
    IsCollation(c) && TypeNameSorted(c, recs)
    ==> (TypeNameSorted(c, Inserted(recs, k, r))
         <==> !(name == AnyName && val.Some? && exists j: nat :: RunsPastNamed(recs, typ, val.value, j)))
  }

  lemma UnusedStep(c: Collation, recs: seq<seq<byte>>, name: NameArg, val: Option<seq<byte>>)
    requires GoodRecords(recs)
    ensures forall i | 0 <= i < |recs| :: Step(c, recs[i], AT_UNUSED, name, val) == 0
  {
  }

  lemma AddedInOrder(c: Collation, recs: seq<seq<byte>>, k: nat, r: seq<byte>, typ: nat, name: NameArg,
                     val: Option<seq<byte>>)
    requires GoodRecords(recs) && SearchedTo(c, recs, typ, name, val, k, false)
    requires GoodRecord(r) && TypeOf(r) == typ && NameOf(r) == GivenName(name)
    ensures GoodRecords(Inserted(recs, k, r)) && KeepsOrder(c, recs, k, r, typ, name, val)
  {
    InsertedGood(recs, k, r);
    if IsCollation(c) && TypeNameSorted(c, recs) {
      if typ == AT_UNUSED {
        UnusedStep(c, recs, name, val);
      } else if name != AnyName {
        MissKeepsTypeName(c, recs, k, r, name, val);
      } else if val.None? {
        AnyValueKeepsTypeName(c, recs, k, r);
      } else {
        UnnamedKeepsTypeName(c, recs, k, r, val.value);
      }
    }
  }

  // ----- Replacing records in memory -----

  lemma SpliceBytes(s: seq<byte>, start: nat, a: nat, b: nat, end: nat, t: seq<byte>, a': nat, end': nat)
    requires start <= a <= b <= end <= |s| && a <= a' <= end' <= |t|
    requires t[0..a] == s[0..a] && t[a'..end'] == s[b..end]
    ensures t[start..end'] == s[start..end][..a - start] + t[a..a'] + s[start..end][b - start..]
  {
    var area := s[start..end];
    SliceOfSlice(s, 0, a, start, a - start);
    SliceOfSlice(t, 0, a, start, a - start);
    assert area[..a - start] == s[start..a];
    assert area[b - start..] == s[b..end];
    assert t[start..end'] == t[start..a] + t[a..a'] + t[a'..end'];
  }

  /** Memory `t` differs from `s` in that the `n` records from `k` on have become those of `mid`. */
  lemma Spliced(s: seq<byte>, start: nat, end: nat, recs: seq<seq<byte>>, k: nat, n: nat,
                t: seq<byte>, end': nat, mid: seq<seq<byte>>, a: nat, b: nat, a': nat)
    requires start <= end <= |s| && Holds(s[start..end], recs) && k + n <= |recs| && GoodRecords(mid)
    requires a == start + Offset(recs, k) && b == start + Offset(recs, k + n) <= end && a <= b && a <= a' <= end' <= |t|
    requires t[0..a] == s[0..a] && t[a..a'] == Concat(mid) && t[a'..end'] == s[b..end]
    ensures Holds(t[start..end'], recs[..k] + mid + recs[k + n..])
  {
    SpliceBytes(s, start, a, b, end, t, a', end');
    AreaReplace(s[start..end], recs, k, n, mid);
  }

  method Put(a: array<byte>, o: nat, b: seq<byte>)
    requires o + |b| <= a.Length
    modifies a
    ensures a[..] == PutAt(old(a[..]), o, b)
  {
    ghost var s := a[..];
    forall i | 0 <= i < |b| {
      a[o + i] := b[i];
    }
    PutAtSplits(s, o, b);
    assert a[..] == s[..o] + b + s[o + |b|..];
  }

  method Memmove(a: array<byte>, dst: nat, src: nat, n: nat)
    requires dst + n <= a.Length && src + n <= a.Length
    modifies a
    ensures a[..] == PutAt(old(a[..]), dst, old(a[..])[src..src + n])
  {
    var s := a[..];
    Put(a, dst, s[src..src + n]);
  }

  /** `t` is `r` cut or grown to another length, with the length field set if there is room for it. */
  ghost predicate ResizedRecord(r: seq<byte>, t: seq<byte>) {
    && (|t| >= 8 ==> U32(t, 4) == |t|)
    && (forall i | 0 <= i < |r| && i < |t| && !(4 <= i < 8) :: t[i] == r[i])
  }

  lemma Restored(t: seq<byte>, o: nat, b: seq<byte>)
    requires o + |b| <= |t|
    ensures forall i | 0 <= i < |t| && !(o <= i < o + |b|) :: PutAt(t, o, b)[i] == t[i]
  {
    PutAtSplits(t, o, b);
  }

  lemma FieldStored(t: seq<byte>, o: nat, v: nat)
    requires o + 4 <= |t| && v <= AT_END
    ensures U32(PutAt(t, o, Le32(v)), o) == v
  {
    var b := Le32(v);
    PutAtSame(t, o, b);
    FieldAt(PutAt(t, o, b), o, b, 0);
  }

  lemma LengthStored(r: seq<byte>, t: seq<byte>)
    requires 8 <= |t| <= AT_END && forall i | 0 <= i < |r| && i < |t| :: t[i] == r[i]
    ensures ResizedRecord(r, PutAt(t, 4, Le32(|t|)))
  {
    FieldStored(t, 4, |t|);
    Restored(t, 4, Le32(|t|));
  }

  /** The stores of a resize of the `attrSize` bytes at `a`. */
  function ResizedBytes(s: seq<byte>, a: nat, attrSize: nat, end: nat, newSize: nat): (t: seq<byte>)
    requires a + attrSize <= end <= |s| && end - attrSize + newSize <= |s| && newSize <= AT_END
    ensures |t| == |s|
  {
    if newSize == attrSize then s
    else
      var t := PutAt(s, a + newSize, s[a + attrSize..end]);
      if newSize >= 8 then PutAt(t, a + 4, Le32(newSize)) else t
  }

  lemma StoresAreResize(s: seq<byte>, a: nat, attrSize: nat, end: nat, newSize: nat, t: seq<byte>, u: seq<byte>)
    requires a + attrSize <= end <= |s| && end - attrSize + newSize <= |s| && attrSize != newSize <= AT_END
    requires t == PutAt(s, a + newSize, s[a + attrSize..end])
    requires u == if newSize >= 8 then PutAt(t, a + 4, Le32(newSize)) else t
    ensures u == ResizedBytes(s, a, attrSize, end, newSize)
  {
  }

  lemma CommonPrefix(s: seq<byte>, a: nat, m: nat, n: nat, t: seq<byte>)
    requires a + m <= |s| && a + n <= |s| && t == s[a..a + n]
    ensures forall i | 0 <= i < m && i < n :: t[i] == s[a..a + m][i]
  {
  }

  lemma LengthParts(t: seq<byte>, a: nat, newSize: nat, end: nat, r: seq<byte>)
    requires 8 <= newSize <= AT_END && a + newSize <= end <= |t|
    requires var q := t[a..a + newSize]; forall i | 0 <= i < |r| && i < newSize :: q[i] == r[i]
    ensures var u := PutAt(t, a + 4, Le32(newSize));
            u[0..a] == t[0..a] && u[a + newSize..end] == t[a + newSize..end] && ResizedRecord(r, u[a..a + newSize])
  {
    var b := Le32(newSize);
    PutAtAside(t, a + 4, b, 0, a);
    PutAtAside(t, a + 4, b, a + newSize, end);
    PutAtWithin(t, a + 4, b, a, a + newSize);
    LengthStored(r, t[a..a + newSize]);
  }

  lemma MovedParts(s: seq<byte>, a: nat, attrSize: nat, end: nat, newSize: nat)
    requires a + attrSize <= end <= |s| && end - attrSize + newSize <= |s|
    ensures var t, r := PutAt(s, a + newSize, s[a + attrSize..end]), s[a..a + attrSize]; var q := t[a..a + newSize];
            && t[0..a] == s[0..a] && t[a + newSize..end - attrSize + newSize] == s[a + attrSize..end]
            && (forall i | 0 <= i < attrSize && i < newSize :: q[i] == r[i])
  {
    var b := s[a + attrSize..end];
    var t := PutAt(s, a + newSize, b);
    PutAtSame(s, a + newSize, b);
    PutAtAside(s, a + newSize, b, 0, a);
    PutAtAside(s, a + newSize, b, a, a + newSize);
    CommonPrefix(s, a, attrSize, newSize, t[a..a + newSize]);
  }

  lemma ResizedSmall(s: seq<byte>, a: nat, attrSize: nat, end: nat, newSize: nat)
    requires a + attrSize <= end <= |s| && end - attrSize + newSize <= |s| && newSize < 8 && newSize != attrSize
    ensures var t := ResizedBytes(s, a, attrSize, end, newSize);
            && t[0..a] == s[0..a] && t[a + newSize..end - attrSize + newSize] == s[a + attrSize..end]
            && ResizedRecord(s[a..a + attrSize], t[a..a + newSize])
  {
    MovedParts(s, a, attrSize, end, newSize);
  }

  lemma ResizedLarge(s: seq<byte>, a: nat, attrSize: nat, end: nat, newSize: nat)
    requires a + attrSize <= end <= |s| && end - attrSize + newSize <= |s| && 8 <= newSize <= AT_END
             && newSize != attrSize
    ensures var t := ResizedBytes(s, a, attrSize, end, newSize);
            && t[0..a] == s[0..a] && t[a + newSize..end - attrSize + newSize] == s[a + attrSize..end]
            && ResizedRecord(s[a..a + attrSize], t[a..a + newSize])
  {
    MovedParts(s, a, attrSize, end, newSize);
    LengthParts(PutAt(s, a + newSize, s[a + attrSize..end]), a, newSize, end - attrSize + newSize, s[a..a + attrSize]);
  }

  /** A resize keeps what is in front, moves what follows, and leaves the record cut or grown. */
  lemma ResizedParts(s: seq<byte>, a: nat, attrSize: nat, end: nat, newSize: nat)
    requires a + attrSize <= end <= |s| && end - attrSize + newSize <= |s| && newSize <= AT_END
    requires newSize == attrSize >= 8 ==> U32(s[a..a + attrSize], 4) == attrSize
    ensures var t := ResizedBytes(s, a, attrSize, end, newSize);
            && t[0..a] == s[0..a] && t[a + newSize..end - attrSize + newSize] == s[a + attrSize..end]
            && ResizedRecord(s[a..a + attrSize], t[a..a + newSize])
  {
    if newSize == attrSize {
    } else if newSize < 8 {
      ResizedSmall(s, a, attrSize, end, newSize);
    } else {
      ResizedLarge(s, a, attrSize, end, newSize);
    }
  }

  /** When a record of type `typ` may take `newSize` bytes instead of `attrSize`. */
  function ResizeResult(typ: nat, biu: nat, attrSize: nat, newSize: nat, total: nat): int {
    if newSize == attrSize then 0
    else if biu - attrSize + newSize > total then -1
    else if typ == AT_INDEX_ROOT && newSize > attrSize && biu - attrSize + newSize + 120 > total
      && biu + 120 <= total then FILLED_MFT
    else 0
  }

  /** In sizes: refused exactly if the record would not fit, and an index root also, with a status of its own, if it
      grows into the last 120 bytes that were free; anything else is done. */
  lemma ResizeMeaning(typ: nat, biu: nat, attrSize: nat, newSize: nat, total: nat)
    requires biu <= total
    ensures var ret, muse := ResizeResult(typ, biu, attrSize, newSize, total), biu - attrSize + newSize;
            && (ret == -1 <==> muse > total)
            && (ret == FILLED_MFT <==>
                  && typ == AT_INDEX_ROOT && newSize > attrSize
                  && muse <= total < muse + 120 && biu + 120 <= total)
            && (ret == 0 || ret == -1 || ret == FILLED_MFT)
  {
  }

  /** Memory `t` differs from `s` only from `a` on, and not behind both ends. */
  ghost predicate Outside(s: seq<byte>, t: seq<byte>, a: nat, end: nat, end': nat) {
    && |t| == |s| && a <= |s| && t[..a] == s[..a]
    && (forall i | end <= i < |s| && end' <= i :: t[i] == s[i])
  }

  lemma OutsideTwice(s: seq<byte>, t: seq<byte>, u: seq<byte>, a: nat, end: nat, end': nat)
    requires Outside(s, t, a, end, end') && Outside(t, u, a, end', end')
    ensures Outside(s, u, a, end, end')
  {
  }

  lemma PutAtOutside(s: seq<byte>, o: nat, b: seq<byte>, a: nat, end: nat, end': nat)
    requires a <= o && o + |b| <= |s| && (o + |b| <= end || o + |b| <= end')
    ensures Outside(s, PutAt(s, o, b), a, end, end')
  {
    PutAtSplits(s, o, b);
  }

  lemma ResizedOutside(s: seq<byte>, a: nat, attrSize: nat, end: nat, newSize: nat)
    requires a + attrSize <= end <= |s| && end - attrSize + newSize <= |s| && newSize <= AT_END
    ensures Outside(s, ResizedBytes(s, a, attrSize, end, newSize), a, end, end - attrSize + newSize)
  {
    var end' := end - attrSize + newSize;
    if newSize != attrSize {
      var b := s[a + attrSize..end];
      PutAtOutside(s, a + newSize, b, a, end, end');
      if newSize >= 8 {
        PutAtOutside(PutAt(s, a + newSize, b), a + 4, Le32(newSize), a, end', end');
        OutsideTwice(s, PutAt(s, a + newSize, b), ResizedBytes(s, a, attrSize, end, newSize), a, end, end');
      }
    }
  }

  function GivenName(name: NameArg): seq<u16> {
    if name.Name? then name.n else []
  }

  function GivenValue(val: Option<seq<byte>>, size: nat): seq<byte> {
    if val.Some? then val.value else Zeros(size)
  }

  /** The new record: of the type and name that are given, with the value, or zeros if none is given. */
  ghost predicate AddedAs(r: seq<byte>, typ: nat, name: NameArg, val: Option<seq<byte>>, size: nat) {
    && GoodRecord(r) && TypeOf(r) == typ && |ValueOf(r)| == size
    && (name.Name? ==> NameOf(r) == name.n) && (!name.Name? ==> NameOf(r) == [])
    && (val.Some? ==> ValueOf(r) == val.value) && (val.None? ==> forall i | 0 <= i < size :: ValueOf(r)[i] == 0)
  }

  lemma AddedMeaning(r: seq<byte>, typ: nat, name: NameArg, val: Option<seq<byte>>, size: nat, flags: u16,
                     instance: u16)
    requires val.Some? ==> |val.value| == size
    requires AttrOf(r) == Some(Attr(typ, GivenName(name), flags, instance, GivenValue(val, size), true))
    ensures AddedAs(r, typ, name, val, size)
  {
  }

  lemma RecordInserted(s: seq<byte>, start: nat, end: nat, recs: seq<seq<byte>>, k: nat, a: nat, t: seq<byte>,
                       end': nat, r: seq<byte>)
    requires start <= end <= |s| && Holds(s[start..end], recs) && k <= |recs| && a == start + Offset(recs, k) <= end
    requires GoodRecord(r) && a + |r| <= end' <= |t|
    requires t[0..a] == s[0..a] && t[a..a + |r|] == r && t[a + |r|..end'] == s[a..end]
    ensures start <= end' && Holds(t[start..end'], Inserted(recs, k, r))
  {
    ConcatOne(r);
    Spliced(s, start, end, recs, k, 0, t, end', [r], a, a, a + |r|);
  }

  lemma RecordEnd(s: seq<byte>, start: nat, end: nat, recs: seq<seq<byte>>, k: nat, a: nat)
    requires start <= end <= |s| && Holds(s[start..end], recs) && k < |recs| && a == start + Offset(recs, k)
    ensures HEADER <= |recs[k]| && a + |recs[k]| == start + Offset(recs, k + 1) <= end && U32(s, a + 4) == |recs[k]|
  {
    HeadAt(s, start, end, recs, k);
    OffsetNext(recs, k);
  }

  lemma RemovedParts(s: seq<byte>, a: nat, n: nat, end: nat, t: seq<byte>)
    requires 0 < n && a + n <= end <= |s| && t == ResizedBytes(s, a, n, end, 0)
    ensures t[0..a] == s[0..a] && t[a..end - n] == s[a + n..end]
  {
    ResizedSmall(s, a, n, end, 0);
  }

  /** Resizing record `k` to zero takes it out of the sequence. */
  lemma Removed(s: seq<byte>, start: nat, end: nat, recs: seq<seq<byte>>, k: nat, a: nat, n: nat)
    requires start <= end <= |s| && Holds(s[start..end], recs) && k < |recs| && a == start + Offset(recs, k)
             && n == |recs[k]|
    ensures a + n <= end && U32(s, a + 4) == n
    ensures Holds(ResizedBytes(s, a, n, end, 0)[start..end - n], recs[..k] + recs[k + 1..])
  {
    RecordEnd(s, start, end, recs, k, a);
    var t := ResizedBytes(s, a, n, end, 0);
    RemovedParts(s, a, n, end, t);
    assert t[a..a] == Concat([]);
    Spliced(s, start, end, recs, k, 1, t, end - n, [], a, a + n, a);
    assert recs[..k] + [] == recs[..k];
  }

  lemma InsertedParts(recs: seq<seq<byte>>, k: nat, r: seq<byte>)
    requires k <= |recs|
    ensures var t := Inserted(recs, k, r); t[k] == r && t[..k] == recs[..k] && t[..k] + t[k + 1..] == recs
  {
    var t := Inserted(recs, k, r);
    assert t[k + 1..] == recs[k..];
  }

  /** The record that is added can be removed again, as the caller does when a later step fails. */
  lemma AddThenRemove(s: seq<byte>, start: nat, end: nat, recs: seq<seq<byte>>, k: nat, r: seq<byte>, a: nat)
    requires start <= end <= |s| && k <= |recs| && Holds(s[start..end], Inserted(recs, k, r))
    requires a == start + Offset(recs, k)
    ensures HEADER <= |r| && a + |r| <= end && U32(s, a + 4) == |r|
    ensures Holds(ResizedBytes(s, a, |r|, end, 0)[start..end - |r|], recs)
  {
    InsertedParts(recs, k, r);
    Removed(s, start, end, Inserted(recs, k, r), k, a, |r|);
  }

  // ----- Resizing a value -----

  /** The stores of `ntfs_resident_attr_value_resize` into the resized record at `a`. */
  function ValueStores(s: seq<byte>, a: nat, valueOffset: nat, oldLength: nat, newLength: nat): (t: seq<byte>)
    requires HEADER <= valueOffset && a + valueOffset + newLength <= |s| && newLength <= AT_END
    ensures |t| == |s|
  {
    var t := if newLength > oldLength then PutAt(s, a + valueOffset + oldLength, Zeros(newLength - oldLength)) else s;
    PutAt(t, a + 16, Le32(newLength))
  }

  /** The value cut to, or grown with zeros to, `n` bytes. */
  function Fitted(v: seq<byte>, n: nat): seq<byte> {
    if n <= |v| then v[..n] else v + Zeros(n - |v|)
  }

  lemma FittedMeaning(v: seq<byte>, n: nat)
    ensures |Fitted(v, n)| == n && forall i | 0 <= i < n :: Fitted(v, n)[i] == if i < |v| then v[i] else 0
  {
  }

  /** The attribute with its value resized. */
  function WithLength(r: seq<byte>, n: nat): Option<Attr> {
    if AttrOf(r) == None then None else Some(AttrOf(r).value.(value := Fitted(AttrOf(r).value.value, n)))
  }

  /** Type, name, flags and instance stay; the value is cut, or followed by zeros. */
  ghost predicate SameButValue(r: seq<byte>, t: seq<byte>, n: nat)
    requires GoodRecord(r)
  {
    && GoodRecord(t) && TypeOf(t) == TypeOf(r) && NameOf(t) == NameOf(r)
    && U16(t, 12) == U16(r, 12) && U16(t, 14) == U16(r, 14) && |ValueOf(t)| == n
    && forall i | 0 <= i < n :: ValueOf(t)[i] == if i < |ValueOf(r)| then ValueOf(r)[i] else 0
  }

  lemma WithLengthMeaning(r: seq<byte>, t: seq<byte>, n: nat)
    requires GoodRecord(r) && AttrOf(t) == WithLength(r, n) != None
    ensures SameButValue(r, t, n)
  {
    FittedMeaning(ValueOf(r), n);
  }

  ghost predicate SameBut(r: seq<byte>, t: seq<byte>, n: nat) {
    forall i | 0 <= i < n && i < |r| && i < |t| && !(4 <= i < 8) && !(16 <= i < 20) :: t[i] == r[i]
  }

  lemma Cleared(q: seq<byte>, o: nat, m: nat, n: nat)
    requires m < n && o + n <= |q|
    ensures var t := PutAt(q, o + m, Zeros(n - m));
              forall i | 0 <= i < |q| :: t[i] == if o + m <= i < o + n then 0 else q[i]
  {
    PutAtSplits(q, o + m, Zeros(n - m));
  }

  lemma ValueStoresParts(r: seq<byte>, q: seq<byte>, o: nat, m: nat, n: nat)
    requires ResizedRecord(r, q) && HEADER <= o && o + n <= |q| && o + m <= |r| && n <= AT_END
    ensures var t := ValueStores(q, 0, o, m, n);
            && U32(t, 4) == |t| && U32(t, 16) == n && SameBut(r, t, o + if n < m then n else m)
            && (forall i | o + m <= i < o + n :: t[i] == 0)
  {
    var q1 := if n > m then PutAt(q, o + m, Zeros(n - m)) else q;
    if n > m {
      Cleared(q, o, m, n);
    }
    Restored(q1, 16, Le32(n));
    FieldStored(q1, 16, n);
  }

  /** Header fields and name of a record whose bytes in front of the value are kept. */
  lemma KeptFields(r: seq<byte>, t: seq<byte>, n: nat)
    requires GoodRecord(r) && ValueIsLast(r) && SameBut(r, t, n) && HEADER <= U16(r, 20) <= n && U16(r, 20) <= |t|
    ensures U32(t, 0) == U32(r, 0) && t[8] == r[8] && t[9] == r[9] && U16(t, 20) == U16(r, 20)
    ensures U16(t, 10) == U16(r, 10) && U16(t, 12) == U16(r, 12) && U16(t, 14) == U16(r, 14)
  {
  }

  lemma KeptName(r: seq<byte>, t: seq<byte>)
    requires GoodRecord(r) && GoodRecord(t) && ValueIsLast(r) && SameBut(r, t, U16(r, 20))
    requires t[9] == r[9] && U16(t, 10) == U16(r, 10) && U16(r, 20) <= |t|
    ensures NameOf(t) == NameOf(r)
  {
    var o := U16(r, 10);
    forall i | 0 <= i < r[9] as int ensures U16(t, o + 2 * i) == U16(r, o + 2 * i) {
    }
  }

  lemma KeptValue(r: seq<byte>, t: seq<byte>, o: nat, m: nat, n: nat)
    requires HEADER <= o && o + m <= |r| && o + n <= |t| && SameBut(r, t, o + if n < m then n else m)
    requires forall i | o + m <= i < o + n :: t[i] == 0
    ensures t[o..o + n] == Fitted(r[o..o + m], n)
  {
  }

  lemma ValueIs(t: seq<byte>, o: nat, n: nat)
    requires GoodRecord(t) && t[8] == 0 && U16(t, 20) == o && U32(t, 16) == n
    ensures o + n <= |t| && ValueOf(t) == t[o..o + n]
  {
  }

  lemma ValueStored(r: seq<byte>, q: seq<byte>, o: nat, m: nat, n: nat, t: seq<byte>)
    requires GoodRecord(r) && ValueIsLast(r) && ResizedRecord(r, q) && o == U16(r, 20) && m == U32(r, 16)
    requires |q| == Align8(o + n) <= AT_END && t == ValueStores(q, 0, o, m, n)
    ensures AttrOf(t) == WithLength(r, n)
  {
    ValueStoresParts(r, q, o, m, n);
    KeptFields(r, t, o + if n < m then n else m);
    assert GoodRecord(t) && ValueIsLast(t);
    KeptName(r, t);
    assert ValueOf(t) == Fitted(ValueOf(r), n) by {
      ValueIs(r, o, m);
      ValueIs(t, o, n);
      KeptValue(r, t, o, m, n);
    }
  }

  lemma ValueStoresWithin(s: seq<byte>, a: nat, size: nat, end: nat, o: nat, m: nat, n: nat)
    requires HEADER <= o && o + n <= size && a + size <= end <= |s| && n <= AT_END
    ensures var t := ValueStores(s, a, o, m, n);
            t[0..a] == s[0..a] && t[a + size..end] == s[a + size..end]
              && t[a..a + size] == ValueStores(s[a..a + size], 0, o, m, n)
  {
    var t := if n > m then PutAt(s, a + o + m, Zeros(n - m)) else s;
    if n > m {
      StoreWithin(s, a, size, end, o + m, Zeros(n - m));
    }
    StoreWithin(t, a, size, end, 16, Le32(n));
  }

  lemma ValueStoresOutside(s: seq<byte>, a: nat, o: nat, m: nat, n: nat, end: nat)
    requires HEADER <= o && a + o + n <= end <= |s| && n <= AT_END
    ensures Outside(s, ValueStores(s, a, o, m, n), a, end, end)
  {
    var t := if n > m then PutAt(s, a + o + m, Zeros(n - m)) else s;
    if n > m {
      PutAtOutside(s, a + o + m, Zeros(n - m), a, end, end);
    }
    PutAtOutside(t, a + 16, Le32(n), a, end, end);
  }

  lemma ResizedField(s: seq<byte>, a: nat, attrSize: nat, end: nat, newSize: nat)
    requires HEADER <= attrSize && HEADER <= newSize <= AT_END && a + attrSize <= end <= |s|
             && end - attrSize + newSize <= |s|
    requires U32(s, a + 4) == attrSize
    ensures U32(ResizedBytes(s, a, attrSize, end, newSize), a + 16) == U32(s, a + 16)
  {
    var t, r := ResizedBytes(s, a, attrSize, end, newSize), s[a..a + attrSize];
    FieldAt(s, a, r, 4);
    FieldAt(s, a, r, 16);
    ResizedParts(s, a, attrSize, end, newSize);
    FieldAt(t, a, t[a..a + newSize], 16);
  }

  /** All the bytes of a resize of the value of length `m` at `o` in the record at `a`. */
  function ValueResizeBytes(s: seq<byte>, a: nat, attrSize: nat, end: nat, o: nat, m: nat, n: nat,
                          size: nat): (t: seq<byte>)
    requires HEADER <= o && o + n <= size <= AT_END && a + attrSize <= end <= |s| && end - attrSize + size <= |s|
    ensures |t| == |s|
  {
    ValueStores(ResizedBytes(s, a, attrSize, end, size), a, o, m, n)
  }

  lemma ValueResizeParts(s: seq<byte>, a: nat, r: seq<byte>, end: nat, o: nat, m: nat, n: nat, size: nat)
    requires HEADER <= o && o + n <= size <= AT_END && a + |r| <= end <= |s| && end - |r| + size <= |s|
    requires s[a..a + |r|] == r && HEADER <= |r| && U32(r, 4) == |r|
    ensures var t, q := ValueResizeBytes(s, a, |r|, end, o, m, n, size),
            ResizedBytes(s, a, |r|, end, size)[a..a + size];
            && t[0..a] == s[0..a] && t[a + size..end - |r| + size] == s[a + |r|..end]
            && ResizedRecord(r, q) && t[a..a + size] == ValueStores(q, 0, o, m, n)
  {
    var q, end' := ResizedBytes(s, a, |r|, end, size), end - |r| + size;
    assert q[0..a] == s[0..a] && q[a + size..end'] == s[a + |r|..end] && ResizedRecord(r, q[a..a + size]) by {
      ResizedParts(s, a, |r|, end, size);
    }
    ValueStoresWithin(q, a, size, end', o, m, n);
  }

  lemma ValueResizeRecord(s: seq<byte>, a: nat, r: seq<byte>, end: nat, o: nat, m: nat, n: nat, size: nat, t: seq<byte>)
    requires GoodRecord(r) && ValueIsLast(r) && o == U16(r, 20) && m == U32(r, 16) && size == Align8(o + n) <= AT_END
    requires a + |r| <= end <= |s| && end - |r| + size <= |s| && s[a..a + |r|] == r
    requires t == ValueResizeBytes(s, a, |r|, end, o, m, n, size)
    ensures t[0..a] == s[0..a] && t[a + size..end - |r| + size] == s[a + |r|..end]
    ensures AttrOf(t[a..a + size]) == WithLength(r, n) != None
  {
    var q := ResizedBytes(s, a, |r|, end, size)[a..a + size];
    ValueResizeParts(s, a, r, end, o, m, n, size);
    assert AttrOf(ValueStores(q, 0, o, m, n)) == WithLength(r, n) by {
      ValueStored(r, q, o, m, n, ValueStores(q, 0, o, m, n));
    }
  }

  /** The bytes before `a` are kept and those from `b` to `end` have moved to `c`, which leaves them ending at
      `end'`. */
  ghost predicate MovedTo(s: seq<byte>, end: nat, t: seq<byte>, end': nat, a: nat, b: nat, c: nat) {
    a <= b <= end <= |s| && a <= c <= end' <= |t| && t[0..a] == s[0..a] && t[c..end'] == s[b..end]
  }

  /** The resize of a value as a whole replaces record `k`. */
  lemma ValueReplaced(s: seq<byte>, start: nat, end: nat, recs: seq<seq<byte>>, k: nat, a: nat, b: nat,
                      t: seq<byte>, r: seq<byte>, c: nat, end': nat)
    requires start <= end <= |s| && Holds(s[start..end], recs) && k < |recs| && a == start + Offset(recs, k)
    requires b == a + |recs[k]| && MovedTo(s, end, t, end', a, b, c) && r == t[a..c] && AttrOf(r) != None
    ensures start <= end' && Holds(t[start..end'], recs[..k] + [r] + recs[k + 1..])
  {
    OffsetNext(recs, k);
    ConcatOne(r);
    Spliced(s, start, end, recs, k, 1, t, end', [r], a, b, c);
  }

  method StoreValue(data: array<byte>, a: nat, valueOffset: nat, oldLength: nat, newLength: nat)
    requires HEADER <= valueOffset && a + valueOffset + newLength <= data.Length && newLength <= AT_END
    modifies data
    ensures data[..] == ValueStores(old(data[..]), a, valueOffset, oldLength, newLength)
  {
    if newLength > oldLength {
      Put(data, a + valueOffset + oldLength, Zeros(newLength - oldLength));
    }
    Put(data, a + 16, Le32(newLength));
  }

  /** Where the attributes start: behind the header, which is shorter before NTFS 3.1, and the update sequence
      array of one entry and one for each 512 bytes. */
  function LayoutOffset(size: nat, before31: bool): nat {
    var usaCount := if size >= BLOCK_SIZE then size / BLOCK_SIZE + 1 else 1;
    Align8((if before31 then OLD_RECORD_SIZE else RECORD_SIZE) + 2 * usaCount)
  }

  lemma LaidOut(s: seq<byte>, a: nat, t: seq<byte>)
    requires a + END_SIZE <= |s|
    requires t == PutAt(PutAt(s, a, Le32(AT_END) + Le32(0)), a + END_SIZE, Zeros(|s| - a - END_SIZE))
    ensures Holds(t[a..a + END_SIZE], []) && forall i | a + END_SIZE <= i < |t| :: t[i] == 0
  {
    var m, z := Le32(AT_END) + Le32(0), Zeros(|s| - a - END_SIZE);
    var s1 := PutAt(s, a, m);
    PutAtSame(s, a, m);
    PutAtAside(s1, a + END_SIZE, z, a, a + END_SIZE);
    assert t[a..a + END_SIZE] == m && U32(m, 0) == U32(Le32(AT_END), 0);
    PutAtSplits(s1, a + END_SIZE, z);
  }

  /** Stores the end marker at `a` and clears what follows. */
  method LayOut(data: array<byte>, a: nat)
    requires a + END_SIZE <= data.Length
    modifies data
    ensures Holds(data[..][a..a + END_SIZE], []) && forall i | a + END_SIZE <= i < data.Length :: data[..][i] == 0
  {
    ghost var s := data[..];
    Put(data, a, Le32(AT_END) + Le32(0));
    Put(data, a + END_SIZE, Zeros(data.Length - a - END_SIZE));
    LaidOut(s, a, data[..]);
  }

  /** The first multiple of eight with room in front for the header, of 48 bytes or 42 before NTFS 3.1, and an update
      sequence array of two bytes and two for each block of 512. */
  lemma LayoutMeaning(size: nat, before31: bool)
    ensures var o, blocks := LayoutOffset(size, before31), if size >= 512 then size / 512 else 0;
            var used := (if before31 then 42 else 48) + 2 * (1 + blocks);
            o % 8 == 0 && used <= o < used + 8
  {
  }

  class MftRec {
    const data: array<byte>
    const attrsOffset: nat
    var bytesInUse: nat
    var nextInstance: u16

    /** `ntfs_mft_record_layout`: a record of the volume's size without attributes, cleared behind the end
        marker. */
    constructor (data: array<byte>, before31: bool)
      requires LayoutOffset(data.Length, before31) + END_SIZE <= data.Length
      modifies data
      ensures this.data == data && nextInstance == 0 && Valid([])
      ensures attrsOffset == LayoutOffset(data.Length, before31) && bytesInUse == attrsOffset + END_SIZE
      ensures forall i | bytesInUse <= i < data.Length :: data[i] == 0
    {
      this.data, nextInstance := data, 0;
      attrsOffset := LayoutOffset(data.Length, before31);
      bytesInUse := Align8(LayoutOffset(data.Length, before31) + END_SIZE);
      new;
      LayOut(data, attrsOffset);
      assert bytesInUse == attrsOffset + END_SIZE && data[attrsOffset..bytesInUse] == data[..][attrsOffset..bytesInUse];
    }

    /** The record holds the attributes `recs`; `bytesInUse` ends with their end marker. */
    ghost predicate Valid(recs: seq<seq<byte>>)
      reads this, data
    {
      attrsOffset <= bytesInUse <= data.Length && Holds(data[attrsOffset..bytesInUse], recs)
    }

    /** `ntfs_make_room_for_attr`: moves everything from `pos` on up by `size`, rounded up. */
    method MakeRoom(pos: nat, size0: nat) returns (err: int)
      requires bytesInUse <= data.Length
      modifies this`bytesInUse, data
      ensures err == if pos > old(bytesInUse) - END_SIZE then EINVAL
                     else if size0 > 0 && old(bytesInUse) + Align8(size0) > data.Length then ENOSPC else 0
      ensures err != 0 ==> bytesInUse == old(bytesInUse) && data[..] == old(data[..])
      ensures err == 0 ==>
                bytesInUse == old(bytesInUse) + Align8(size0) <= data.Length && pos + END_SIZE <= old(bytesInUse)
      ensures err == 0 ==> data[..][0..pos] == old(data[..])[0..pos]
                           && data[..][pos + Align8(size0)..bytesInUse] == old(data[..])[pos..old(bytesInUse)]
      ensures err == 0 ==> Outside(old(data[..]), data[..], pos, old(bytesInUse), bytesInUse)
    {
      var size := Align8(size0);
      if pos > bytesInUse - END_SIZE {
        return EINVAL;
      }
      if size == 0 {
        return 0;
      }
      var biu := bytesInUse;
      if biu + size > data.Length || pos + size > data.Length {
        return ENOSPC;
      }
      ghost var s := data[..];
      Memmove(data, pos + size, pos, biu - pos);
      bytesInUse := biu + size;
      PutAtSame(s, pos + size, s[pos..biu]);
      PutAtAside(s, pos + size, s[pos..biu], 0, pos);
      PutAtOutside(s, pos + size, s[pos..biu], pos, biu, biu + size);
      return 0;
    }

    /** Stores header, value and name of the record of `n` bytes at `a`. */
    method StoreParts(a: nat, ghost n: nat, h: seq<byte>, o: nat, v: seq<byte>, m: nat, nb: seq<byte>)
      requires |h| <= n && o + |v| <= n && m + |nb| <= n && a + n <= bytesInUse <= data.Length
      modifies data
      ensures var s := old(data[..]);
              && data[..][0..a] == s[0..a] && data[..][a + n..bytesInUse] == s[a + n..bytesInUse]
              && data[..][a..a + n] == PutAt(PutAt(PutAt(s[a..a + n], 0, h), o, v), m, nb)
              && Outside(s, data[..], a, bytesInUse, bytesInUse)
    {
      ghost var s := data[..];
      Put(data, a, h);
      Put(data, a + o, v);
      Put(data, a + m, nb);
      StoresOutside(s, a, bytesInUse, h, o, v, m, nb);
      StoresWithin(s, a, n, bytesInUse, h, o, v, m, nb);
    }

    /** The stores of `ntfs_resident_attr_record_add` into the room at `a`. */
    method FillRecord(a: nat, typ: nat, name: seq<u16>, v: seq<byte>, flags: u16, ghost n: nat)
      requires typ < AT_END && |name| < 256 && n == RecordLength(|name|, |v|) <= AT_END
               && a + n <= bytesInUse <= data.Length
      modifies data
      ensures var s := old(data[..]);
              && data[..][0..a] == s[0..a] && data[..][a + n..bytesInUse] == s[a + n..bytesInUse]
              && data[..][a..a + n] == StoredBytes(s[a..a + n], typ, name, v, flags, nextInstance)
              && Outside(s, data[..], a, bytesInUse, bytesInUse)
    {
      var h := Header(NewHead(typ, RecordLength(|name|, |v|), name, flags, nextInstance, |v|));
      StoreParts(a, n, h, ValueOffset(|name|), v, HEADER, NameBytes(name));
    }

    /** Makes room at `a` and fills it with a record. */
    method StoreRecord(a: nat, typ: nat, name: seq<u16>, v: seq<byte>, flags: u16, ghost n: nat)
      returns (err: int, ghost room: seq<byte>)
      requires a + END_SIZE <= bytesInUse <= data.Length
      requires typ < AT_END && |name| < 256 && n == RecordLength(|name|, |v|) <= AT_END
      modifies this`bytesInUse, this`nextInstance, data
      ensures err == if old(bytesInUse) + n > data.Length then ENOSPC else 0
      ensures err != 0 ==>
                bytesInUse == old(bytesInUse) && nextInstance == old(nextInstance) && data[..] == old(data[..])
      ensures err == 0 ==> bytesInUse == old(bytesInUse) + n && nextInstance == (old(nextInstance) + 1) % 0x1_0000
      ensures err == 0 ==>
                data[..][0..a] == old(data[..])[0..a]
                && data[..][a + n..bytesInUse] == old(data[..])[a..old(bytesInUse)]
      ensures err == 0 ==>
                |room| == n && data[..][a..a + n] == StoredBytes(room, typ, name, v, flags, old(nextInstance))
      ensures Outside(old(data[..]), data[..], a, old(bytesInUse), bytesInUse)
    {
      var length := RecordLength(|name|, |v|);
      assert Align8(length) == length;
      room := [];
      err := MakeRoom(a, length);
      if err == 0 {
        room := data[..][a..a + length];
        FillRecord(a, typ, name, v, flags, n);
        nextInstance := (nextInstance + 1) % 0x1_0000;
      }
    }

    /** Inserts a record in front of record `k`. */
    method InsertRecord(a: nat, typ: nat, name: seq<u16>, v: seq<byte>, flags: u16, ghost recs: seq<seq<byte>>,
                        ghost k: nat)
      returns (err: int, ghost r: seq<byte>)
      requires Valid(recs) && k <= |recs| && a == attrsOffset + Offset(recs, k) && a + END_SIZE <= bytesInUse
      requires typ < AT_END && |name| < 256 && RecordLength(|name|, |v|) <= AT_END
      modifies this`bytesInUse, this`nextInstance, data
      ensures err == if old(bytesInUse) + RecordLength(|name|, |v|) > data.Length then ENOSPC else 0
      ensures err != 0 ==>
                bytesInUse == old(bytesInUse) && nextInstance == old(nextInstance) && data[..] == old(data[..])
      ensures err == 0 ==>
                bytesInUse == old(bytesInUse) + RecordLength(|name|, |v|)
                && nextInstance == (old(nextInstance) + 1) % 0x1_0000
      ensures err == 0 ==> AttrOf(r) == Some(Attr(typ, name, flags, old(nextInstance), v, true))
      ensures err == 0 ==> Valid(Inserted(recs, k, r)) && r[22] == if typ == AT_FILE_NAME then 1 else 0
      ensures Outside(old(data[..]), data[..], a, old(bytesInUse), bytesInUse)
    {
      ghost var s, end, n, room := data[..], bytesInUse, RecordLength(|name|, |v|), [];
      r := [];
      err, room := StoreRecord(a, typ, name, v, flags, n);
      if err == 0 {
        r := data[..][a..a + n];
        StoredAttr(room, typ, name, v, flags, old(nextInstance));
        RecordInserted(s, attrsOffset, end, recs, k, a, data[..], bytesInUse, r);
      }
    }

    /** `ntfs_resident_attr_record_add`: unless it is present or does not fit, puts an attribute of the
        given type, name and value in front of record `k`, where the search for it stopped. */
    method AddResident(c: Collation, typ: nat, name: NameArg, val: Option<seq<byte>>, size: nat, flags: u16,
                       ghost recs: seq<seq<byte>>)
      returns (err: int, a: nat, ghost k: nat, ghost r: seq<byte>)
      requires Valid(recs) && typ < AT_END && |GivenName(name)| < 256 && RecordLength(|GivenName(name)|, size) <= AT_END
      requires val.Some? ==> |val.value| == size
      modifies this`bytesInUse, this`nextInstance, data
      ensures SearchedTo(c, recs, typ, name, val, k, err == EEXIST) && a == attrsOffset + Offset(recs, k)
      ensures err != EEXIST ==>
                err == if old(bytesInUse) + RecordLength(|GivenName(name)|, size) > data.Length then ENOSPC else 0
      ensures err != 0 ==>
                bytesInUse == old(bytesInUse) && nextInstance == old(nextInstance) && data[..] == old(data[..])
      ensures err == 0 ==>
                bytesInUse == old(bytesInUse) + RecordLength(|GivenName(name)|, size)
                && nextInstance == (old(nextInstance) + 1) % 0x1_0000
      ensures err == 0 ==>
                AttrOf(r) == Some(Attr(typ, GivenName(name), flags, old(nextInstance), GivenValue(val, size), true))
      ensures err == 0 ==> Valid(Inserted(recs, k, r)) && KeepsOrder(c, recs, k, r, typ, name, val)
      ensures err == 0 ==> r[22] == if typ == AT_FILE_NAME then 1 else 0
      ensures err == 0 ==> AddedAs(r, typ, name, val, size)
      ensures Outside(old(data[..]), data[..], a, old(bytesInUse), bytesInUse)
    {
      r := [];
      var found, corrupt;
      found, corrupt, a, k := FindIn(c, data[..], attrsOffset, bytesInUse, typ, name, val, recs);
      if found {
        err := EEXIST;
      } else if corrupt {
        err := EIO;
      } else {
        err, r := InsertRecord(a, typ, GivenName(name), GivenValue(val, size), flags, recs, k);
        if err == 0 {
          AddedInOrder(c, recs, k, r, typ, name, val);
          AddedMeaning(r, typ, name, val, size, flags, old(nextInstance));
        }
      }
    }

    /** `ntfs_attr_record_resize`: gives the record at `a` a length of `newSize`, rounded up, by moving
        what follows it. */
    method RecordResize(a: nat, newSize0: nat) returns (ret: int)
      requires a + 8 <= bytesInUse <= data.Length && a + U32(data[..], a + 4) <= bytesInUse
               && Align8(newSize0) <= AT_END
      modifies this`bytesInUse, data
      ensures var s := old(data[..]); var attrSize := U32(s, a + 4);
              && ret == ResizeResult(U32(s, a), old(bytesInUse), attrSize, Align8(newSize0), |s|)
              && (ret != 0 ==> bytesInUse == old(bytesInUse) && data[..] == s)
              && (ret == 0 ==> bytesInUse == old(bytesInUse) - attrSize + Align8(newSize0) <= |s|)
              && (ret == 0 ==> data[..] == ResizedBytes(s, a, attrSize, old(bytesInUse), Align8(newSize0)))
      ensures var s := old(data[..]);
              var typ, biu, attrSize, newSize := U32(s, a), old(bytesInUse), U32(s, a + 4), Align8(newSize0);
              var muse := biu - attrSize + newSize;
              && (ret == -1 <==> muse > |s|)
              && (ret == FILLED_MFT <==>
                    typ == AT_INDEX_ROOT && newSize > attrSize && muse <= |s| < muse + 120 && biu + 120 <= |s|)
              && (ret == 0 || ret == -1 || ret == FILLED_MFT)
      ensures Outside(old(data[..]), data[..], a, old(bytesInUse), bytesInUse)
    {
      var s := data[..];
      var newSize, attrSize := Align8(newSize0), U32(s, a + 4);
      ResizeMeaning(U32(s, a), bytesInUse, attrSize, newSize, data.Length);
      ret := 0;
      if newSize != attrSize {
        var newMuse := bytesInUse - attrSize + newSize;
        if newMuse > data.Length {
          ret := -1;
        } else if U32(s, a) == AT_INDEX_ROOT && newSize > attrSize && newMuse + 120 > data.Length
          && bytesInUse + 120 <= data.Length {
          ret := FILLED_MFT;
        } else {
          ghost var end := bytesInUse;
          Memmove(data, a + newSize, a + attrSize, bytesInUse - a - attrSize);
          bytesInUse := newMuse;
          ghost var t := data[..];
          assert t == PutAt(s, a + newSize, s[a + attrSize..end]);
          if newSize >= 8 {
            Put(data, a + 4, Le32(newSize));
          }
          StoresAreResize(s, a, attrSize, end, newSize, t, data[..]);
          ResizedOutside(s, a, attrSize, end, newSize);
        }
      }
    }

    /** Resizing record `k` to zero removes it. */
    method Remove(a: nat, ghost recs: seq<seq<byte>>, ghost k: nat) returns (ret: int)
      requires Valid(recs) && k < |recs| && a == attrsOffset + Offset(recs, k)
      modifies this`bytesInUse, data
      ensures ret == 0 && bytesInUse == old(bytesInUse) - |recs[k]| && Valid(recs[..k] + recs[k + 1..])
      ensures Outside(old(data[..]), data[..], a, old(bytesInUse), bytesInUse)
    {
      Removed(data[..], attrsOffset, bytesInUse, recs, k, a, |recs[k]|);
      ret := RecordResize(a, 0);
    }

    /** The stores of a value resize, for the header fields at `a`. */
    method ResizeValueBytes(a: nat, n: nat, ghost typ: nat, ghost attrSize: nat, ghost o: nat, ghost m: nat,
                            ghost size: nat)
      returns (ret: int)
      requires a + HEADER <= bytesInUse <= data.Length && HEADER <= attrSize && a + attrSize <= bytesInUse
      requires HEADER <= o && o + n <= size <= AT_END && size == Align8(o + n)
      requires U32(data[..], a) == typ && U32(data[..], a + 4) == attrSize
      requires U16(data[..], a + 20) == o && U32(data[..], a + 16) == m
      modifies this`bytesInUse, data
      ensures ret == ResizeResult(typ, old(bytesInUse), attrSize, size, data.Length)
      ensures ret != 0 ==> bytesInUse == old(bytesInUse) && data[..] == old(data[..])
      ensures ret == 0 ==> bytesInUse == old(bytesInUse) - attrSize + size <= data.Length
      ensures ret == 0 ==> data[..] == ValueResizeBytes(old(data[..]), a, attrSize, old(bytesInUse), o, m, n, size)
      ensures Outside(old(data[..]), data[..], a, old(bytesInUse), bytesInUse)
    {
      ghost var s, end := data[..], bytesInUse;
      var offset := U16(data[..], a + 20);
      ret := RecordResize(a, Align8(offset + n));
      if ret == 0 {
        ResizedField(s, a, attrSize, end, size);
        var length := U32(data[..], a + 16);
        ghost var t := data[..];
        StoreValue(data, a, offset, length, n);
        ValueStoresOutside(t, a, o, m, n, bytesInUse);
        OutsideTwice(s, t, data[..], a, end, bytesInUse);
      }
    }

    /** A value resize of the record `r` at `a`. */
    method ResizeValueAt(a: nat, n: nat, ghost r: seq<byte>, ghost size: nat) returns (ret: int)
      requires GoodRecord(r) && ValueIsLast(r) && size == Align8(U16(r, 20) + n) <= AT_END
      requires a + |r| <= bytesInUse <= data.Length && data[..][a..a + |r|] == r
      modifies this`bytesInUse, data
      ensures ret == ResizeResult(TypeOf(r), old(bytesInUse), |r|, size, data.Length)
      ensures ret != 0 ==> bytesInUse == old(bytesInUse) && data[..] == old(data[..])
      ensures ret == 0 ==> bytesInUse == old(bytesInUse) - |r| + size <= data.Length
      ensures ret == 0 ==> MovedTo(old(data[..]), old(bytesInUse), data[..], bytesInUse, a, a + |r|, a + size)
      ensures ret == 0 ==> AttrOf(data[..][a..a + size]) == WithLength(r, n) != None
      ensures Outside(old(data[..]), data[..], a, old(bytesInUse), bytesInUse)
    {
      ghost var s, end, o, m := data[..], bytesInUse, U16(r, 20), U32(r, 16);
      FieldsAt(s, a, r);
      ret := ResizeValueBytes(a, n, TypeOf(r), |r|, o, m, size);
      if ret == 0 {
        ValueResizeRecord(s, a, r, end, o, m, n, size, data[..]);
      }
    }

    lemma RecordIn(recs: seq<seq<byte>>, k: nat, a: nat)
      requires Valid(recs) && k < |recs| && a == attrsOffset + Offset(recs, k)
      ensures Holds(data[..][attrsOffset..bytesInUse], recs)
      ensures a + |recs[k]| <= bytesInUse && data[..][a..a + |recs[k]|] == recs[k]
    {
      assert data[..][attrsOffset..bytesInUse] == data[attrsOffset..bytesInUse];
      HeadAt(data[..], attrsOffset, bytesInUse, recs, k);
    }

    lemma ChainReplaced(s: seq<byte>, end: nat, recs: seq<seq<byte>>, k: nat, a: nat, b: nat, c: nat)
      requires attrsOffset <= end <= |s| && Holds(s[attrsOffset..end], recs)
      requires k < |recs| && a == attrsOffset + Offset(recs, k) && b == a + |recs[k]|
      requires MovedTo(s, end, data[..], bytesInUse, a, b, c) && AttrOf(data[..][a..c]) != None
      ensures Valid(recs[..k] + [data[..][a..c]] + recs[k + 1..])
    {
      ValueReplaced(s, attrsOffset, end, recs, k, a, b, data[..], data[..][a..c], c, bytesInUse);
      assert data[attrsOffset..bytesInUse] == data[..][attrsOffset..bytesInUse];
    }

    /** The value resize in the chain. */
    method ReplaceValue(a: nat, n: nat, ghost recs: seq<seq<byte>>, ghost k: nat, ghost size: nat)
      returns (ret: int, ghost r: seq<byte>)
      requires Valid(recs) && k < |recs| && a == attrsOffset + Offset(recs, k)
      requires ValueIsLast(recs[k]) && size == Align8(U16(recs[k], 20) + n) <= AT_END
      modifies this`bytesInUse, data
      ensures ret == ResizeResult(TypeOf(recs[k]), old(bytesInUse), |recs[k]|, size, data.Length)
      ensures ret != 0 ==> bytesInUse == old(bytesInUse) && data[..] == old(data[..])
      ensures ret == 0 ==> AttrOf(r) == WithLength(recs[k], n) != None
      ensures ret == 0 ==> Valid(recs[..k] + [r] + recs[k + 1..])
      ensures ret == 0 ==> bytesInUse == old(bytesInUse) - |recs[k]| + size
      ensures Outside(old(data[..]), data[..], a, old(bytesInUse), bytesInUse)
    {
      ghost var s, end := data[..], bytesInUse;
      RecordIn(recs, k, a);
      ret := ResizeValueAt(a, n, recs[k], size);
      r := [];
      if ret == 0 {
        r := data[..][a..a + size];
        ChainReplaced(s, end, recs, k, a, a + |recs[k]|, a + size);
      }
    }

    /** `ntfs_resident_attr_value_resize`: the value of record `k` is cut, or grown with zeros, and
        nothing else changes in the sequence. */
    method ValueResize(a: nat, n: nat, ghost recs: seq<seq<byte>>, ghost k: nat, ghost size: nat)
      returns (ret: int, ghost r: seq<byte>)
      requires Valid(recs) && k < |recs| && a == attrsOffset + Offset(recs, k)
      requires ValueIsLast(recs[k]) && size == Align8(U16(recs[k], 20) + n) <= AT_END
      modifies this`bytesInUse, data
      ensures var biu, attrSize := old(bytesInUse), |recs[k]|; var muse := biu - attrSize + size;
              && (ret == -1 <==> muse > data.Length)
              && (ret == FILLED_MFT <==>
                    && TypeOf(recs[k]) == AT_INDEX_ROOT && size > attrSize
                    && muse <= data.Length < muse + 120 && biu + 120 <= data.Length)
              && (ret == 0 || ret == -1 || ret == FILLED_MFT)
      ensures ret != 0 ==> bytesInUse == old(bytesInUse) && data[..] == old(data[..])
      ensures ret == 0 ==> bytesInUse == old(bytesInUse) - |recs[k]| + size
      ensures ret == 0 ==> SameButValue(recs[k], r, n) && Valid(recs[..k] + [r] + recs[k + 1..])
      ensures Outside(old(data[..]), data[..], a, old(bytesInUse), bytesInUse)
    {
      ResizeMeaning(TypeOf(recs[k]), bytesInUse, |recs[k]|, size, data.Length);
      ret, r := ReplaceValue(a, n, recs, k, size);
      if ret == 0 {
        WithLengthMeaning(recs[k], r, n);
      }
    }
  }

  lemma FieldsAt(s: seq<byte>, a: nat, r: seq<byte>)
    requires HEADER <= |r| && a + |r| <= |s| && s[a..a + |r|] == r
    ensures U32(s, a) == U32(r, 0) && U32(s, a + 4) == U32(r, 4) && U32(s, a + 16) == U32(r, 16)
            && U16(s, a + 20) == U16(r, 20)
  {
    FieldAt(s, a, r, 0);
    FieldAt(s, a, r, 4);
    FieldAt(s, a, r, 16);
    assert s[a..a + |r|][20] == s[a + 20] && s[a..a + |r|][21] == s[a + 21];
  }
}
