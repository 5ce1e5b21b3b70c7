/**
  What any bytes mean to the reader, also those the writer never emits: the shape of an acceptable file,
  what each form of an object decodes to, and exactly when decoding fails.
 */
module PlistForms {
  import opened Bytes
  import opened Plist
  import opened PlistEncoding
  import opened PlistFlatten
  import opened PlistGraph
  import opened PlistReader
  import opened PlistScanProofs
  import opened Wrappers

  // ---------------------------------------------------------------- the file

  /** The parts of a file: magic and version, objects, offset table, and the trailer with its unused bytes. */
  datatype Parts = Parts(version: Byte, objects: seq<Byte>, table: seq<Byte>, unused: seq<Byte>,
                         width: Byte, refWidth: Byte, count: nat, top: nat)
  {
    function TableAt(): nat {
      8 + |objects|
    }

    function Trailing(): seq<Byte> {
      unused + [width, refWidth] + BigEndian(count, 8) + BigEndian(top, 8) + BigEndian(TableAt(), 8)
    }

    function File(): seq<Byte> {
      [0x62, 0x70, 0x6c, 0x69, 0x73, 0x74, 0x30, version] + objects + table + Trailing()
    }

    /** Entry `k` of the table, read as the reader reads numbers. */
    function Entry(k: nat): nat
      requires |table| == count * width && k < count
    {
      MulGap(width, k, count);
      SizedInt(table[k * width..k * width + width])
    }

    /** The sizes fit, every entry lies before the table, and the top one does not lie in the header. */
    ghost predicate Acceptable() {
      && 0 < |objects| && 8 + |objects| < TWO_63 && count < TWO_63 && |unused| == 6
      && 1 <= width && 1 <= refWidth && |table| == count * width && top < count
      && (refWidth < 8 ==> count < Pow256(refWidth)) && (width < 8 ==> TableAt() < Pow256(width))
      && (forall k :: 0 <= k < count ==> Entry(k) < TableAt())
      && 8 <= Entry(top)
    }
  }

  lemma {:induction false} BigEndianOfUnsigned(s: seq<Byte>)
    ensures BigEndian(Unsigned(s), |s|) == s
  {
    hide BigEndian;
    if s == [] {
      NoBytes();
    } else {
      var n := |s| - 1;
      BigEndianOfUnsigned(s[..n]);
      BigEndianNext(Unsigned(s[..n]), s[n], n);
      assert s == s[..n] + [s[n]];
    }
  }

  lemma NoBytes()
    ensures BigEndian(0, 0) == []
  {
  }

  lemma BigEndianNext(x: nat, d: Byte, w: nat)
    ensures BigEndian(256 * x + d, w + 1) == BigEndian(x, w) + [d]
  {
    assert (256 * x + d) / 256 == x && (256 * x + d) % 256 == d;
  }

  lemma EightBytes(s: seq<Byte>)
    requires |s| == 8
    ensures BigEndian(SizedInt(s), 8) == s
  {
    hide BigEndian, Unsigned, Pow256;
    BigEndianOfUnsigned(s);
    UnsignedBound(s);
    Pow256Facts();
    ModUnique(Unsigned(s), TWO_64, 0, Unsigned(s));
  }

  /** The trailer the reader sees in a file of those parts. */
  lemma TrailerOfParts(p: Parts)
    requires |p.unused| == 6 && p.count < TWO_64 && p.top < TWO_64 && p.TableAt() < TWO_64
    ensures |p.File()| >= 32 && RawTrailer(p.File()) == Trailer(p.width, p.refWidth, p.count, p.top, p.TableAt())
  {
    hide BigEndian, SizedInt, Pow256;
    var b, s := p.File(), p.Trailing();
    assert b[|b| - 32..] == s;
    var x, y, z := BigEndian(p.count, 8), BigEndian(p.top, 8), BigEndian(p.TableAt(), 8);
    assert s[8..16] == x && s[16..24] == y && s[24..32] == z;
    Pow256Facts();
    SizedIntOfBigEndian(p.count, 8);
    SizedIntOfBigEndian(p.top, 8);
    SizedIntOfBigEndian(p.TableAt(), 8);
  }

  lemma EntryOfParts(p: Parts, t: Trailer, k: nat)
    requires t == Trailer(p.width, p.refWidth, p.count, p.top, p.TableAt()) && SaneTrailer(p.File(), t)
    requires |p.table| == p.count * p.width && k < p.count
    ensures TableEntry(p.File(), t, k) == p.Entry(k)
  {
    hide SizedInt, SaneTrailer, BigEndian;
    MulGap(p.width, k, p.count);
    var x, w, b := k * p.width, p.width, p.File();
    MulNotNegative(k, w);
    assert b[p.TableAt() + x..p.TableAt() + x + w] == p.table[x..x + w];
  }

  lemma SaneParts(p: Parts)
    requires |p.unused| == 6 && |p.table| == p.count * p.width
    ensures SaneTrailer(p.File(), Trailer(p.width, p.refWidth, p.count, p.top, p.TableAt())) <==>
            && p.count < TWO_63 && p.TableAt() < TWO_63 && p.top < p.count && 0 < |p.objects| && 1 <= p.width && 1 <= p.refWidth
            && (p.refWidth < 8 ==> p.count < Pow256(p.refWidth)) && (p.width < 8 ==> p.TableAt() < Pow256(p.width))
  {
    hide BigEndian, Pow256;
    assert |p.File()| == p.TableAt() + |p.table| + 32;
  }

  /** A file of acceptable parts is accepted, and read from the object that the top entry leads to. */
  lemma AcceptableIsAccepted(p: Parts)
    requires p.Acceptable()
    ensures GetTopLevelInfo(p.File()).Some? && GetTopLevelInfo(p.File()).value.offset == p.Entry(p.top)
    ensures GetTopLevelInfo(p.File()).value.trailer == Trailer(p.width, p.refWidth, p.count, p.top, p.TableAt())
  {
    hide RawTrailer, SaneTrailer, TableEntry, Parts.Entry, BigEndian, Pow256, SizedInt;
    var b, t := p.File(), Trailer(p.width, p.refWidth, p.count, p.top, p.TableAt());
    TrailerOfParts(p);
    SaneParts(p);
    forall k | 0 <= k < p.count
      ensures TableEntry(b, t, k) == p.Entry(k)
    {
      EntryOfParts(p, t, k);
    }
    MulGap(p.width, 0, p.count);
    assert b[..7] == MAGIC;
  }

  /** Taking an accepted file apart. */
  function Apart(b: seq<Byte>, t: Trailer): Parts
    requires SaneTrailer(b, t)
  {
    TableInside(b, t);
    Parts(b[7], b[8..t.offsetTableOffset], b[t.offsetTableOffset..|b| - 32], b[|b| - 32..|b| - 26],
          t.offsetIntSize, t.objectRefSize, t.numObjects, t.topObject)
  }

  lemma ApartIsFile(b: seq<Byte>, t: Trailer)
    requires 32 <= |b| && t == RawTrailer(b) && SaneTrailer(b, t) && b[..7] == MAGIC
    ensures Apart(b, t).File() == b
  {
    hide BigEndian, SizedInt, Pow256, SaneTrailer;
    TableInside(b, t);
    var s := b[|b| - 32..];
    EightBytes(s[8..16]);
    EightBytes(s[16..24]);
    EightBytes(s[24..32]);
    SaneSizes(b, t);
    var p := Apart(b, t);
    assert p.unused == s[..6] && p.TableAt() == t.offsetTableOffset;
    assert s == s[..6] + [s[6], s[7]] + s[8..16] + s[16..24] + s[24..32];
    assert p.Trailing() == s;
    assert b == b[..8] + b[8..t.offsetTableOffset] + b[t.offsetTableOffset..|b| - 32] + s;
    assert b[..8] == [0x62, 0x70, 0x6c, 0x69, 0x73, 0x74, 0x30, b[7]];
  }

  lemma SaneSizes(b: seq<Byte>, t: Trailer)
    requires SaneTrailer(b, t)
    ensures 9 <= t.offsetTableOffset && |b| - 32 - t.offsetTableOffset == t.numObjects * t.offsetIntSize
  {
  }

  /** The validator accepts exactly the files that are put together from acceptable parts. */
  lemma AcceptedExactly(b: seq<Byte>)
    ensures GetTopLevelInfo(b).Some? <==> exists p: Parts :: p.Acceptable() && p.File() == b
  {
    hide RawTrailer, SaneTrailer, TableEntry, BigEndian, Pow256, SizedInt;
    if GetTopLevelInfo(b).Some? {
      var t := RawTrailer(b);
      var p := Apart(b, t);
      ApartIsFile(b, t);
      TopIsListed(b, t);
      ApartIsAcceptable(b, t);
      assert p.Acceptable() && p.File() == b;
    }
    if p: Parts :| p.Acceptable() && p.File() == b {
      AcceptableIsAccepted(p);
    }
  }

  lemma ApartIsAcceptable(b: seq<Byte>, t: Trailer)
    requires 32 <= |b| && t == RawTrailer(b) && Accepted(b, t) && b[..7] == MAGIC && t.topObject < t.numObjects
    requires 8 <= TableEntry(b, t, t.topObject)
    ensures Apart(b, t).Acceptable()
  {
    hide RawTrailer, SaneTrailer, TableEntry, Parts.Entry, Parts.File, BigEndian, Pow256, SizedInt;
    var p := Apart(b, t);
    ApartIsFile(b, t);
    SaneSizes(b, t);
    TableInside(b, t);
    SaneParts(p);
    forall k | 0 <= k < p.count
      ensures p.Entry(k) == TableEntry(b, t, k)
    {
      EntryOfParts(p, t, k);
    }
  }

  // ---------------------------------------------------------------- forms the writer does not use

  lemma NullIsRead(b: seq<Byte>, t: Trailer, off: nat)
    requires At(b, t, off, [0x00])
    ensures Scan(b, t, off) == Some(Done(VNull))
  {
    At0(b, t, off, [0x00]);
  }

  /** A number in 1, 2, 4 or 8 bytes, whether it needs them or not; eight bytes are signed. */
  lemma PaddedIntIsRead(b: seq<Byte>, t: Trailer, off: nat, k: nat, n: nat)
    requires k <= 3 && n < Pow256(Pow2(k)) && At(b, t, off, [0x10 + k] + BigEndian(n, Pow2(k)))
    ensures Scan(b, t, off) == Some(Done(VInt(if k == 3 && TWO_63 <= n then n - TWO_64 else n)))
  {
    hide BigEndian, Unsigned, ReadCount, ScanCounted, TableOffsets, Accepted, Pow256;
    var s: seq<Byte> := [0x10 + k] + BigEndian(n, Pow2(k));
    At0(b, t, off, s);
    var w := Pow2(k);
    assert Pow2(0) == 1 && Pow2(1) == 2 && Pow2(2) == 4 && Pow2(3) == 8;
    AtSlice(b, off, s, 1, 1 + w);
    assert s[1..1 + w] == BigEndian(n, w);
    Pow256Facts();
    SizedIntOfBigEndian(n, w);
  }

  /** A set is read as the offsets of its elements, in order. */
  lemma SetIsRead(b: seq<Byte>, t: Trailer, off: nat, kids: seq<Node>, table: map<nat, nat>)
    requires Accepted(b, t) && t.objectRefSize <= 4 && t.numObjects < TWO_32 && RefsFit(t, kids, table) && |kids| * 8 < TWO_64
    requires At(b, t, off, CountHead(0xC0, |kids|) + RefsBytes(kids, table, t.objectRefSize))
    ensures Scan(b, t, off) == Some(Refs(SetKind, ChildOffsets(b, t, kids, table)))
  {
    hide Scan, ReadCount, ScanRefs, RefsBytes, CountHead, TableEntry, TableOffsets, RefsFit;
    var ptr := off + |CountHead(0xC0, |kids|)|;
    CountedAt(b, t, off, 0xC0, |kids|, RefsBytes(kids, table, t.objectRefSize));
    ScanIsCounted(b, t, off, 0xC, |kids|, ptr);
    ScanRefsOfRefsBytes(b, t, SetKind, ptr, kids, table);
  }

  // ---------------------------------------------------------------- counts, payloads and references

  /** A count is in the marker, or it is the number that follows, in as many bytes as its own marker says. */
  lemma CountIs(b: seq<Byte>, off: nat, end: nat)
    requires off <= end < |b| && ReadCount(b, off, end).Some?
    ensures var (count, ptr) := ReadCount(b, off, end).value;
            if b[off] % 16 < 15 then count == b[off] % 16 && ptr == off + 1
            else
              var w := Pow2(b[off + 1] % 16);
              ptr == off + 2 + w && (w <= 8 ==> count == Unsigned(b[off + 2..off + 2 + w]))
  {
    hide Pow2, Unsigned;
    if b[off] % 16 == 15 {
      var w := Pow2(b[off + 1] % 16);
      if w <= 8 { ShortIsExact(b[off + 2..off + 2 + w]); }
    }
  }

  lemma ShortIsExact(s: seq<Byte>)
    requires |s| <= 8
    ensures SizedInt(s) == Unsigned(s)
  {
    hide Unsigned, Pow256;
    UnsignedBound(s);
    PowUpTo8(|s|);
    ModUnique(Unsigned(s), TWO_64, 0, Unsigned(s));
  }

  lemma {:induction false} PowUpTo8(n: nat)
    requires n <= 8
    ensures Pow256(n) <= TWO_64
    decreases 8 - n
  {
    if n == 8 { Pow256Facts(); } else { PowUpTo8(n + 1); }
  }

  /** The object is a counted one, and this is what its count and payload give. */
  lemma CountedScan(b: seq<Byte>, t: Trailer, off: nat)
    requires Accepted(b, t) && 8 <= off < t.offsetTableOffset <= |b| && b[off] / 16 !in {0x0, 0x1, 0x2, 0x3, 0x8}
    ensures var r := ReadCount(b, off, t.offsetTableOffset - 1);
            Scan(b, t, off) == if r.None? then None else ScanCounted(b, t, b[off] / 16, r.value.0, r.value.1)
  {
    hide Accepted, TableOffsets, TableEntry, SizedInt, ReadCount, ScanCounted, ScanInt, Pow2;
  }

  lemma FixedScan(b: seq<Byte>, t: Trailer, off: nat)
    requires Accepted(b, t) && Scan(b, t, off).Some?
    ensures 8 <= off < t.offsetTableOffset <= |b|
    ensures b[off] / 16 in {0x0, 0x1, 0x2, 0x3, 0x8} ==>
              Scan(b, t, off).value.Done? && var v := Scan(b, t, off).value.v; !v.VData? && !v.VStr?
  {
    TableInside(b, t);
    hide Accepted, TableOffsets, TableEntry, SizedInt, ReadCount, ScanCounted, Pow2;
  }

  /** The bytes of data, and the characters of a string, are those after the head. */
  lemma PayloadIs(b: seq<Byte>, t: Trailer, off: nat)
    requires Accepted(b, t) && Scan(b, t, off).Some? && Scan(b, t, off).value.Done?
    ensures 8 <= off < t.offsetTableOffset <= |b|
    ensures var v := Scan(b, t, off).value.v;
            v.VData? || v.VStr? ==>
              && ReadCount(b, off, t.offsetTableOffset - 1).Some?
              && var (count, ptr) := ReadCount(b, off, t.offsetTableOffset - 1).value;
                 Holds(b, t, v, b[off] / 16, count, ptr)
  {
    hide SaneTrailer, TableEntry, ReadCount, ScanCounted, Scan, Holds;
    FixedScan(b, t, off);
    var v := Scan(b, t, off).value.v;
    if v.VData? || v.VStr? {
      CountedScan(b, t, off);
      var (count, ptr) := ReadCount(b, off, t.offsetTableOffset - 1).value;
      HoldsCounted(b, t, b[off] / 16, count, ptr);
    }
  }

  /** The data or string is what lies at `ptr`, two bytes a character for the wide form. */
  ghost predicate Holds(b: seq<Byte>, t: Trailer, v: Value, high: nat, count: nat, ptr: nat)
    requires (v.VData? || v.VStr?) && t.offsetTableOffset <= |b|
  {
    if high == 0x6 then
      && v.VStr? && |v.units| == count && ptr + 2 * count <= t.offsetTableOffset
      && UnitBytes(v.units) == b[ptr..ptr + 2 * count]
    else
      && high == (if v.VData? then 0x4 else 0x5) && ptr + count <= t.offsetTableOffset
      && b[ptr..ptr + count] == if v.VData? then v.bytes else v.units
  }

  lemma HoldsCounted(b: seq<Byte>, t: Trailer, high: nat, count: nat, ptr: nat)
    requires SaneTrailer(b, t) && ptr <= t.offsetTableOffset <= |b|
    ensures var r := ScanCounted(b, t, high, count, ptr);
            r.Some? && r.value.Done? ==> (r.value.v.VData? || r.value.v.VStr?) && Holds(b, t, r.value.v, high, count, ptr)
  {
    hide SaneTrailer, TableOffsets, TableEntry, ScanRefs, Units, UnitBytes;
    if high == 0x6 && ptr + 2 * count <= t.offsetTableOffset {
      UnitBytesOfUnits(b[ptr..ptr + 2 * count]);
    }
  }

  lemma UnitBytesOfUnits(s: seq<Byte>)
    requires |s| % 2 == 0
    ensures UnitBytes(Units(s)) == s
  {
    var u, got := Units(s), UnitBytes(Units(s));
    forall i | 0 <= i < |s|
      ensures got[i] == s[i]
    {
      var k := i / 2;
      assert u[k] == 256 * (s[2 * k] as int) + s[2 * k + 1] as int;
      Halved(s[2 * k], s[2 * k + 1]);
    }
  }

  lemma Halved(x: Byte, y: Byte)
    ensures (256 * (x as int) + y as int) / 256 == x && (256 * (x as int) + y as int) % 256 == y
  {
  }

  /** A reference leads to the table entry it numbers, or nowhere when there is no such entry. */
  lemma ReferenceIs(b: seq<Byte>, t: Trailer, off: nat, i: nat)
    requires Accepted(b, t) && Scan(b, t, off).Some? && Scan(b, t, off).value.Refs? && i < |Scan(b, t, off).value.refs|
    ensures 8 <= off < t.offsetTableOffset <= |b| && ReadCount(b, off, t.offsetTableOffset - 1).Some?
    ensures var at := ReadCount(b, off, t.offsetTableOffset - 1).value.1 + i * t.objectRefSize;
            && 0 <= at && at + t.objectRefSize <= t.offsetTableOffset
            && var number := SizedInt(b[at..at + t.objectRefSize]);
               Scan(b, t, off).value.refs[i] == if number < t.numObjects then TableEntry(b, t, number) else MAX_OFFSET
  {
    hide SaneTrailer, ReadCount, ScanCounted, Scan, SizedInt, TableEntry;
    FixedScan(b, t, off);
    CountedScan(b, t, off);
    var (count, ptr) := ReadCount(b, off, t.offsetTableOffset - 1).value;
    CountedReferences(b, t, b[off] / 16, count, ptr, i);
  }

  lemma CountedReferences(b: seq<Byte>, t: Trailer, high: nat, count: nat, ptr: nat, i: nat)
    requires SaneTrailer(b, t) && 8 <= ptr <= t.offsetTableOffset <= |b|
    requires var r := ScanCounted(b, t, high, count, ptr); r.Some? && r.value.Refs? && i < |r.value.refs|
    ensures var at := ptr + i * t.objectRefSize;
            && 0 <= at && at + t.objectRefSize <= t.offsetTableOffset
            && var number := SizedInt(b[at..at + t.objectRefSize]);
               ScanCounted(b, t, high, count, ptr).value.refs[i] ==
               if number < t.numObjects then TableEntry(b, t, number) else MAX_OFFSET
  {
    hide SaneTrailer, TableOffsets, TableEntry, SizedInt, Units;
    var n := |ScanCounted(b, t, high, count, ptr).value.refs|;
    MulGap(t.objectRefSize, i, n);
    MulNotNegative(i, t.objectRefSize);
  }

  // ---------------------------------------------------------------- failures

  /** Reading a count fails exactly when it is not in the marker and what follows is no number that is inside and small enough. */
  lemma CountFailsExactly(b: seq<Byte>, off: nat, end: nat)
    requires off <= end < |b|
    ensures ReadCount(b, off, end).None? <==>
            b[off] % 16 == 15 &&
            (|| end == off || b[off + 1] / 16 != 1 || end < off + 1 + Pow2(b[off + 1] % 16)
             || TWO_63 <= SizedInt(b[off + 2..off + 2 + Pow2(b[off + 1] % 16) % 256]))
  {
    hide SizedInt, Pow2;
  }

  /** How many bytes follow the head of a counted object. */
  function PayloadSize(t: Trailer, high: nat, count: nat): nat {
    if high == 0x4 || high == 0x5 then count
    else if high == 0x6 then 2 * count
    else if high == 0xD then MulNotNegative(2 * count, t.objectRefSize); 2 * count * t.objectRefSize
    else MulNotNegative(count, t.objectRefSize); count * t.objectRefSize
  }

  /** An object of a fixed form is one of these markers with enough bytes after it. */
  predicate FixedForm(b: seq<Byte>, t: Trailer, off: nat)
    requires off < t.offsetTableOffset <= |b|
  {
    var high, low, left := b[off] / 16, b[off] % 16, t.offsetTableOffset - off - 1;
    || b[off] in {0x00, 0x08, 0x09}
    || (high == 0x1 && low <= 4 && Pow2(low) <= left)
    || (b[off] == 0x22 && 4 <= left) || (b[off] == 0x23 && 8 <= left) || (b[off] == 0x33 && 8 <= left)
    || (high == 0x8 && low + 1 <= left && SizedInt(b[off + 1..off + 2 + low]) < TWO_32)
  }

  /** Data, strings and collections with a readable count and their payload before the table. */
  predicate CountedForm(b: seq<Byte>, t: Trailer, off: nat)
    requires off < t.offsetTableOffset <= |b|
  {
    var high, r := b[off] / 16, ReadCount(b, off, t.offsetTableOffset - 1);
    && high in {0x4, 0x5, 0x6, 0xA, 0xC, 0xD} && r.Some?
    && r.value.1 + PayloadSize(t, high, r.value.0) <= t.offsetTableOffset
    && (high in {0xA, 0xC} ==> r.value.0 * 8 < TWO_64) && (high == 0xD ==> 2 * r.value.0 * 8 < TWO_64)
  }

  /** Decoding fails exactly for an offset outside the objects and for bytes of neither form. */
  lemma ScanFailsExactly(b: seq<Byte>, t: Trailer, off: nat)
    requires Accepted(b, t)
    ensures t.offsetTableOffset <= |b|
    ensures Scan(b, t, off).None? <==>
            off < 8 || t.offsetTableOffset <= off || !(FixedForm(b, t, off) || CountedForm(b, t, off))
  {
    TableInside(b, t);
    hide Accepted, TableOffsets, TableEntry;
    if 8 <= off < t.offsetTableOffset {
      if b[off] / 16 in {0x0, 0x1, 0x2, 0x3, 0x8} {
        FixedFails(b, t, off);
      } else {
        CountedFails(b, t, off);
      }
    }
  }

  lemma FixedFails(b: seq<Byte>, t: Trailer, off: nat)
    requires Accepted(b, t) && 8 <= off < t.offsetTableOffset <= |b| && b[off] / 16 in {0x0, 0x1, 0x2, 0x3, 0x8}
    ensures Scan(b, t, off).None? <==> !FixedForm(b, t, off)
  {
    hide Accepted, TableOffsets, TableEntry, SizedInt, ReadCount, ScanCounted, Pow2;
    SixteenAtMost(b[off] % 16);
  }

  lemma SixteenAtMost(k: nat)
    ensures Pow2(k) <= 16 <==> k <= 4
  {
    assert Pow2(0) == 1 && Pow2(1) == 2 && Pow2(2) == 4 && Pow2(3) == 8 && Pow2(4) == 16;
    if 5 <= k { Pow2AtLeast(k); }
  }

  lemma {:induction false} Pow2AtLeast(k: nat)
    requires 5 <= k
    ensures 32 <= Pow2(k)
  {
    if k == 5 {
      assert Pow2(1) == 2 && Pow2(2) == 4 && Pow2(3) == 8 && Pow2(4) == 16;
    } else {
      Pow2AtLeast(k - 1);
    }
  }

  lemma CountedFails(b: seq<Byte>, t: Trailer, off: nat)
    requires Accepted(b, t) && 8 <= off < t.offsetTableOffset <= |b| && b[off] / 16 !in {0x0, 0x1, 0x2, 0x3, 0x8}
    ensures Scan(b, t, off).None? <==> !CountedForm(b, t, off)
    ensures !FixedForm(b, t, off)
  {
    hide Accepted, TableOffsets, TableEntry, SizedInt, ReadCount, ScanInt, Pow2, Units, OffsetOfRef;
  }

  // ---------------------------------------------------------------- the format

  /** The markers of the format description: the kind is in the high half, and for some kinds the rest is fixed. */
  lemma WriterUsesFormat(p: Prim)
    requires p != Other
    ensures var s := EncodePrim(p);
            s != [] &&
            match p
            case Str(_) => s[0] / 16 in {0x5, 0x6}
            case Int64(_) => s[0] in {0x10, 0x11, 0x12, 0x13}
            case Int128(_) => s[0] == 0x14
            case Float32(bits) => s == [0x22] + bits
            case Float64(bits) => s == [0x23] + bits
            case Date(time) => s == [0x33] + time
            case Data(_) => s[0] / 16 == 0x4
            case Bool(true) => s == [0x09]
            case Bool(false) => s == [0x08]
            case Uid(_) => s[0] / 16 == 0x8
  {
    hide BigEndian, UnitBytes, IsAscii;
  }

  lemma WriterUsesFormatForCollections(n: Node, table: map<nat, nat>, refSize: nat)
    requires n.Container? && refSize <= 4
    ensures EncodeNode(n, table, refSize) != []
    ensures EncodeNode(n, table, refSize)[0] / 16 == if n.isDict then 0xD else 0xA
  {
    hide RefsBytes;
  }

  /** What the reader returns for a marker of the format is of the kind the format says. */
  lemma ReaderUsesFormat(b: seq<Byte>, t: Trailer, off: nat)
    requires Accepted(b, t) && Scan(b, t, off).Some?
    ensures 8 <= off < |b|
    ensures match Scan(b, t, off).value
            case Done(VNull) => b[off] == 0x00
            case Done(VBool(v)) => b[off] == if v then 0x09 else 0x08
            case Done(VInt(_)) => b[off] / 16 == 0x1
            case Done(VReal(bits)) => (b[off] == 0x22 && |bits| == 4) || (b[off] == 0x23 && |bits| == 8)
            case Done(VDate(time)) => b[off] == 0x33 && |time| == 8
            case Done(VData(_)) => b[off] / 16 == 0x4
            case Done(VStr(_)) => b[off] / 16 in {0x5, 0x6}
            case Done(VUid(_)) => b[off] / 16 == 0x8
            case Done(Many(_, _)) => false
            case Refs(kind, _) => b[off] / 16 == match kind case ArrayKind => 0xA case SetKind => 0xC case DictKind => 0xD
  {
    TableInside(b, t);
    hide Accepted, TableOffsets, TableEntry, SizedInt, ReadCount, Pow2, Units, OffsetOfRef;
  }
}
