/**
  Decoding one object undoes encoding it, for every kind of object, every count and every integer
  width.
 */
module PlistScanProofs {
  import opened Bytes
  import opened Plist
  import opened PlistFlatten
  import opened PlistGraph
  import opened PlistReader
  import opened PlistEncoding
  import opened Wrappers

  /** `chunk` is the part of the object table that starts at `off`. */
  predicate At(b: seq<Byte>, t: Trailer, off: nat, chunk: seq<Byte>) {
    && Accepted(b, t)
    && 8 <= off && 0 < |chunk| && off + |chunk| <= t.offsetTableOffset <= |b|
    && b[off..off + |chunk|] == chunk
  }

  lemma At0(b: seq<Byte>, t: Trailer, off: nat, chunk: seq<Byte>)
    requires At(b, t, off, chunk)
    ensures b[off] == chunk[0]
  {
    assert b[off..off + |chunk|][0] == b[off];
  }

  lemma AtBounds(b: seq<Byte>, t: Trailer, off: nat, chunk: seq<Byte>)
    requires At(b, t, off, chunk)
    ensures Accepted(b, t) && SaneTrailer(b, t) && 8 <= off < off + |chunk| <= t.offsetTableOffset <= |b|
  {
  }

  lemma AtSlice(b: seq<Byte>, off: nat, chunk: seq<Byte>, x: nat, y: nat)
    requires off + |chunk| <= |b| && b[off..off + |chunk|] == chunk && x <= y <= |chunk|
    ensures b[off + x..off + y] == chunk[x..y]
  {
    forall k | x <= k < y
      ensures b[off + k] == chunk[k]
    {
      assert b[off..off + |chunk|][k] == b[off + k];
    }
  }

  // ---------------------------------------------------------------- integers and counts

  lemma Pow2OfLog(n: nat)
    ensures Pow2(IntLog(n)) == IntBytes(n)
  {
    assert Pow2(1) == 2 && Pow2(2) == 4 && Pow2(3) == 8;
  }

  lemma ReadIntOfEncodeInt(b: seq<Byte>, ptr: nat, end: nat, n: nat)
    requires end < |b| && n < TWO_64 && ptr + |EncodeInt(n)| <= end + 1
    requires b[ptr..ptr + |EncodeInt(n)|] == EncodeInt(n)
    ensures ReadInt(b, ptr, end) == Some((n, ptr + |EncodeInt(n)|))
  {
    hide BigEndian, SizedInt, Pow2, Pow256;
    var s, w, k := EncodeInt(n), IntBytes(n), IntLog(n);
    assert b[ptr..ptr + |s|][0] == b[ptr] == 0x10 + k;
    assert (0x10 + k) / 16 == 1 && (0x10 + k) % 16 == k && w % 256 == w;
    Pow2OfLog(n);
    AtSlice(b, ptr, s, 1, 1 + w);
    assert s[1..1 + w] == BigEndian(n, w);
    SizedIntOfBigEndian(n, w);
  }

  lemma ReadCountOfHead(b: seq<Byte>, off: nat, end: nat, marker: Byte, count: nat)
    requires marker % 16 == 0 && marker + 15 < 0x100 && count <= LONG_MAX
    requires off <= end < |b| && off + |CountHead(marker, count)| <= end + 1
    requires b[off..off + |CountHead(marker, count)|] == CountHead(marker, count)
    ensures ReadCount(b, off, end) == Some((count, off + |CountHead(marker, count)|))
    ensures b[off] / 16 == marker / 16
  {
    var s := CountHead(marker, count);
    assert b[off..off + |s|][0] == b[off];
    if count >= 15 {
      AtSlice(b, off, s, 1, |s|);
      assert s[1..] == EncodeInt(count);
      ReadIntOfEncodeInt(b, off + 1, end, count);
    }
  }

  /** The payload of a counted object follows its head. */
  lemma CountedAt(b: seq<Byte>, t: Trailer, off: nat, marker: Byte, count: nat, payload: seq<Byte>)
    requires marker % 16 == 0 && marker + 15 < 0x100 && count <= LONG_MAX
    requires At(b, t, off, CountHead(marker, count) + payload)
    ensures b[off] / 16 == marker / 16
    ensures var ptr := off + |CountHead(marker, count)|;
            && ReadCount(b, off, t.offsetTableOffset - 1) == Some((count, ptr))
            && ptr + |payload| <= t.offsetTableOffset && b[ptr..ptr + |payload|] == payload
  {
    var head := CountHead(marker, count);
    var chunk := head + payload;
    AtSlice(b, off, chunk, 0, |head|);
    assert chunk[0..|head|] == head;
    ReadCountOfHead(b, off, t.offsetTableOffset - 1, marker, count);
    AtSlice(b, off, chunk, |head|, |chunk|);
    assert chunk[|head|..|chunk|] == payload;
  }

  lemma ScanIsCounted(b: seq<Byte>, t: Trailer, off: nat, high: nat, count: nat, ptr: nat)
    requires Accepted(b, t) && 8 <= off < t.offsetTableOffset <= |b|
    requires b[off] / 16 == high && high in {0x4, 0x5, 0x6, 0xA, 0xC, 0xD}
    requires ReadCount(b, off, t.offsetTableOffset - 1) == Some((count, ptr))
    ensures Scan(b, t, off) == ScanCounted(b, t, high, count, ptr)
  {
  }

  lemma ScanOfInt(b: seq<Byte>, t: Trailer, off: nat, n: nat)
    requires n < TWO_64 && At(b, t, off, EncodeInt(n))
    ensures Scan(b, t, off) == Some(Done(VInt(if TWO_32 <= n then Signed64(n) else n)))
  {
    hide BigEndian, Unsigned, ReadCount, ScanCounted, TableOffsets, Accepted;
    var s, w := EncodeInt(n), IntBytes(n);
    At0(b, t, off, s);
    Pow2OfLog(n);
    AtSlice(b, off, s, 1, 1 + w);
    assert s[1..1 + w] == BigEndian(n, w);
    SizedIntOfBigEndian(n, w);
  }

  lemma ScanOfInt64(b: seq<Byte>, t: Trailer, off: nat, i: SInt64)
    requires At(b, t, off, EncodePrim(Int64(i)))
    ensures Scan(b, t, off) == Some(Done(VInt(i)))
  {
    ScanOfInt(b, t, off, Wrap64(i));
  }

  /** Sixteen bytes are read, and the accumulator keeps the last eight of them. */
  lemma ScanOfInt128(b: seq<Byte>, t: Trailer, off: nat, w: SInt128)
    requires At(b, t, off, EncodePrim(Int128(w)))
    ensures Scan(b, t, off) == Some(Done(VInt(w % TWO_64)))
  {
    hide BigEndian, Unsigned, ReadCount, ScanCounted, TableOffsets, Accepted, Wrap128;
    var high, low := Wrap128(w) / TWO_64, Wrap128(w) % TWO_64;
    var s := EncodePrim(Int128(w));
    At0(b, t, off, s);
    assert Pow2(4) == 16 by { assert Pow2(3) == 8; }
    AtSlice(b, off, s, 1, 17);
    assert s[1..17] == BigEndian(high, 8) + BigEndian(low, 8);
    LastEightBytes(high, low);
    LowHalf(w);
  }

  lemma LastEightBytes(high: nat, low: nat)
    requires low < TWO_64
    ensures SizedInt(BigEndian(high, 8) + BigEndian(low, 8)) == low
  {
    hide BigEndian, Unsigned, Pow256;
    UnsignedConcat(BigEndian(high, 8), BigEndian(low, 8));
    Pow256Facts();
    UnsignedOfBigEndian(low, 8);
    ModUnique(Unsigned(BigEndian(high, 8) + BigEndian(low, 8)), TWO_64, Unsigned(BigEndian(high, 8)), low);
  }

  lemma LowHalf(w: SInt128)
    ensures Wrap128(w) % TWO_64 == w % TWO_64
  {
    var q, r := w / TWO_64, w % TWO_64;
    assert w == TWO_64 * q + r;
    ModUnique(Wrap128(w), TWO_64, if w < 0 then q + TWO_64 else q, r);
  }

  lemma ScanOfUid(b: seq<Byte>, t: Trailer, off: nat, u: UInt32)
    requires At(b, t, off, EncodeUid(u))
    ensures Scan(b, t, off) == Some(Done(VUid(u)))
  {
    hide BigEndian, Unsigned, ReadCount, ScanCounted, ScanInt, TableOffsets, Accepted;
    var s, w := EncodeUid(u), IntBytes(u);
    At0(b, t, off, s);
    AtSlice(b, off, s, 1, 1 + w);
    assert s[1..1 + w] == BigEndian(u, w);
    SizedIntOfBigEndian(u, w);
  }

  // ---------------------------------------------------------------- strings and data

  lemma UnitsOfUnitBytes(units: seq<Unit>)
    ensures Units(UnitBytes(units)) == units
  {
    var b, got := UnitBytes(units), Units(UnitBytes(units));
    forall i | 0 <= i < |units|
      ensures got[i] == units[i]
    {
      assert b[2 * i] == units[i] / 256 && b[2 * i + 1] == units[i] % 256;
    }
  }

  lemma ScanOfString(b: seq<Byte>, t: Trailer, off: nat, units: seq<Unit>)
    requires |b| < TWO_63 && At(b, t, off, EncodeString(units))
    ensures Scan(b, t, off) == Some(Done(VStr(units)))
  {
    hide Scan, At, CountHead, AsciiBytes, UnitBytes;
    if IsAscii(units) {
      ScanOfBytes(b, t, off, AsciiBytes(units));
      AsciiIsItself(units);
    } else {
      ScanOfWide(b, t, off, units);
    }
  }

  lemma AsciiIsItself(units: seq<Unit>)
    requires IsAscii(units)
    ensures AsciiBytes(units) == units
  {
  }

  /** A string of one byte a character. */
  lemma ScanOfBytes(b: seq<Byte>, t: Trailer, off: nat, bytes: seq<Byte>)
    requires |b| < TWO_63 && At(b, t, off, CountHead(0x50, |bytes|) + bytes)
    ensures Scan(b, t, off) == Some(Done(VStr(bytes)))
  {
    hide Scan, ReadCount, CountHead, Units, At, Accepted, SaneTrailer, TableOffsets, TableEntry;
    AtBounds(b, t, off, CountHead(0x50, |bytes|) + bytes);
    CountedAt(b, t, off, 0x50, |bytes|, bytes);
    ScanIsCounted(b, t, off, 0x5, |bytes|, off + |CountHead(0x50, |bytes|)|);
  }

  /** A string of two bytes a character. */
  lemma ScanOfWide(b: seq<Byte>, t: Trailer, off: nat, units: seq<Unit>)
    requires |b| < TWO_63 && At(b, t, off, CountHead(0x60, |units|) + UnitBytes(units))
    ensures Scan(b, t, off) == Some(Done(VStr(units)))
  {
    hide Scan, ReadCount, CountHead, Units, UnitBytes, At, Accepted, SaneTrailer, TableOffsets, TableEntry;
    AtBounds(b, t, off, CountHead(0x60, |units|) + UnitBytes(units));
    CountedAt(b, t, off, 0x60, |units|, UnitBytes(units));
    ScanIsCounted(b, t, off, 0x6, |units|, off + |CountHead(0x60, |units|)|);
    UnitsOfUnitBytes(units);
  }

  lemma ScanOfData(b: seq<Byte>, t: Trailer, off: nat, bytes: seq<Byte>)
    requires |b| < TWO_63 && At(b, t, off, EncodePrim(Data(bytes)))
    ensures Scan(b, t, off) == Some(Done(VData(bytes)))
  {
    hide Scan, ReadCount, CountHead, Units, At, Accepted, SaneTrailer, TableOffsets, TableEntry;
    AtBounds(b, t, off, CountHead(0x40, |bytes|) + bytes);
    CountedAt(b, t, off, 0x40, |bytes|, bytes);
    ScanIsCounted(b, t, off, 0x4, |bytes|, off + |CountHead(0x40, |bytes|)|);
  }

  lemma ScanOfFixed(b: seq<Byte>, t: Trailer, off: nat, p: Prim)
    requires p.Float32? || p.Float64? || p.Date? || p.Bool?
    requires At(b, t, off, EncodePrim(p))
    ensures Scan(b, t, off) == Some(Done(PrimValue(p)))
  {
    var s := EncodePrim(p);
    At0(b, t, off, s);
    AtSlice(b, off, s, 1, |s|);
    match p
    case Float32(bits) => assert s[1..5] == bits;
    case Float64(bits) => assert s[1..9] == bits;
    case Date(time) => assert s[1..9] == time;
    case Bool(_) =>
  }

  /** What a leaf becomes when it is read back. */
  function KeptPrim(p: Prim): Value {
    if p.Int128? then VInt(p.w % TWO_64) else PrimValue(p)
  }

  lemma ScanOfPrim(b: seq<Byte>, t: Trailer, off: nat, p: Prim)
    requires p != Other && |b| < TWO_63 && At(b, t, off, EncodePrim(p))
    ensures Scan(b, t, off) == Some(Done(KeptPrim(p)))
  {
    match p
    case Str(units) => ScanOfString(b, t, off, units);
    case Int64(i) => ScanOfInt64(b, t, off, i);
    case Int128(w) => ScanOfInt128(b, t, off, w);
    case Data(bytes) => ScanOfData(b, t, off, bytes);
    case Uid(u) => ScanOfUid(b, t, off, u);
    case _ => ScanOfFixed(b, t, off, p);
  }

  // ---------------------------------------------------------------- collections

  /** How many bytes `n` references take. */
  function Span(n: nat, size: nat): nat {
    MulNotNegative(n, size);
    n * size
  }

  lemma SpanNext(n: nat, size: nat)
    ensures Span(n + 1, size) == Span(n, size) + size && Span(0, size) == 0
  {
    MulNext(n, size);
  }

  lemma {:induction false} RefsBytesSpan(kids: seq<Node>, table: map<nat, nat>, size: nat)
    requires size <= 4
    ensures |RefsBytes(kids, table, size)| == Span(|kids|, size)
  {
    if kids == [] {
      SpanNext(0, size);
    } else {
      RefsBytesLast(kids, table, size);
      hide RefsBytes, RefBytes, Span;
      RefsBytesSpan(kids[..|kids| - 1], table, size);
      SpanNext(|kids| - 1, size);
    }
  }

  lemma {:induction false} RefBytesInPlace(kids: seq<Node>, table: map<nat, nat>, size: nat, i: nat)
    requires size <= 4 && i < |kids|
    ensures Span(i, size) + size <= |RefsBytes(kids, table, size)|
    ensures RefsBytes(kids, table, size)[Span(i, size)..Span(i, size) + size] == RefBytes(RefOf(table, kids[i].addr), size)
    decreases |kids|
  {
    var n := |kids| - 1;
    RefsBytesLast(kids, table, size);
    RefsBytesSpan(kids[..n], table, size);
    hide RefsBytes, RefBytes, Span;
    var before, ref := RefsBytes(kids[..n], table, size), RefBytes(RefOf(table, kids[n].addr), size);
    var x := Span(i, size);
    if i < n {
      RefBytesInPlace(kids[..n], table, size, i);
      assert (before + ref)[x..x + size] == before[x..x + size];
    } else {
      assert (before + ref)[|before|..|before| + size] == ref;
    }
  }

  lemma RefsBytesAt(kids: seq<Node>, table: map<nat, nat>, size: nat, i: nat)
    requires size <= 4 && i <= |kids|
    ensures 0 <= i * size <= |RefsBytes(kids, table, size)| == |kids| * size
    ensures i < |kids| ==>
              && i * size + size <= |RefsBytes(kids, table, size)|
              && RefsBytes(kids, table, size)[i * size..i * size + size] == RefBytes(RefOf(table, kids[i].addr), size)
  {
    hide RefsBytes, RefBytes;
    RefsBytesSpan(kids, table, size);
    if i < |kids| { RefBytesInPlace(kids, table, size, i); }
  }

  lemma RefsBytesLast(kids: seq<Node>, table: map<nat, nat>, size: nat)
    requires size <= 4 && kids != []
    ensures var k := |kids| - 1;
            RefsBytes(kids, table, size) == RefsBytes(kids[..k], table, size) + RefBytes(RefOf(table, kids[k].addr), size)
  {
  }

  lemma RefRoundTrip(ref: nat, size: nat)
    requires size <= 4 && ref < TWO_32 && ref < Pow256(size)
    ensures SizedInt(RefBytes(ref, size)) == ref
  {
    ModUnique(ref, TWO_32, 0, ref);
    BigEndianTail(ref, 4, size);
    SizedIntOfBigEndian(ref, size);
  }

  lemma OffsetOfWrittenRef(b: seq<Byte>, t: Trailer, ptr: nat, ref: nat)
    requires SaneTrailer(b, t) && t.objectRefSize <= 4 && ref < t.numObjects < TWO_32
    requires 8 <= ptr && ptr + t.objectRefSize <= t.offsetTableOffset <= |b|
    requires b[ptr..ptr + t.objectRefSize] == RefBytes(ref, t.objectRefSize)
    ensures OffsetOfRef(b, t, ptr) == TableEntry(b, t, ref)
  {
    hide TableEntry, SizedInt, RefBytes, Pow256;
    RefRoundTrip(ref, t.objectRefSize);
  }

  /** The numbers of all kids are below the number of objects. */
  predicate RefsFit(t: Trailer, kids: seq<Node>, table: map<nat, nat>) {
    forall i :: 0 <= i < |kids| ==> RefOf(table, kids[i].addr) < t.numObjects
  }

  /** The offsets the elements of a collection are read from. */
  function ChildOffsets(b: seq<Byte>, t: Trailer, kids: seq<Node>, table: map<nat, nat>): (offs: seq<nat>)
    requires SaneTrailer(b, t) && RefsFit(t, kids, table)
    ensures |offs| == |kids|
  {
    seq(|kids|, i requires 0 <= i < |kids| => TableEntry(b, t, RefOf(table, kids[i].addr)))
  }

  lemma ChildOffsetIsRead(b: seq<Byte>, t: Trailer, ptr: nat, kids: seq<Node>, table: map<nat, nat>, i: nat)
    requires SaneTrailer(b, t) && t.objectRefSize <= 4 && t.numObjects < TWO_32 && RefsFit(t, kids, table)
    requires 8 <= ptr && ptr + |RefsBytes(kids, table, t.objectRefSize)| <= t.offsetTableOffset <= |b|
    requires b[ptr..ptr + |RefsBytes(kids, table, t.objectRefSize)|] == RefsBytes(kids, table, t.objectRefSize)
    requires i < |kids|
    ensures 0 <= i * t.objectRefSize
    ensures OffsetOfRef(b, t, ptr + i * t.objectRefSize) == TableEntry(b, t, RefOf(table, kids[i].addr))
  {
    hide RefsBytes, RefBytes, TableEntry, OffsetOfRef, SaneTrailer, TableOffsets;
    var size := t.objectRefSize;
    RefsBytesAt(kids, table, size, i);
    var x := i * size;
    AtSlice(b, ptr, RefsBytes(kids, table, size), x, x + size);
    OffsetOfWrittenRef(b, t, ptr + x, RefOf(table, kids[i].addr));
  }

  lemma ScanRefsOfRefsBytes(b: seq<Byte>, t: Trailer, kind: Kind, ptr: nat, kids: seq<Node>, table: map<nat, nat>)
    requires SaneTrailer(b, t) && t.objectRefSize <= 4 && t.numObjects < TWO_32 && RefsFit(t, kids, table)
    requires |kids| * 8 < TWO_64
    requires 8 <= ptr && ptr + |RefsBytes(kids, table, t.objectRefSize)| <= t.offsetTableOffset <= |b|
    requires b[ptr..ptr + |RefsBytes(kids, table, t.objectRefSize)|] == RefsBytes(kids, table, t.objectRefSize)
    ensures ScanRefs(b, t, kind, |kids|, ptr) == Some(Refs(kind, ChildOffsets(b, t, kids, table)))
  {
    RefsBytesAt(kids, table, t.objectRefSize, 0);
    var got := ScanRefs(b, t, kind, |kids|, ptr).value.refs;
    forall i | 0 <= i < |kids|
      ensures got[i] == ChildOffsets(b, t, kids, table)[i]
    {
      ChildOffsetIsRead(b, t, ptr, kids, table, i);
    }
    assert got == ChildOffsets(b, t, kids, table);
  }

  lemma ScanOfContainer(b: seq<Byte>, t: Trailer, off: nat, n: Node, table: map<nat, nat>)
    requires n.Container? && (n.isDict ==> |n.kids| % 2 == 0) && |n.kids| * 8 < TWO_64
    requires Accepted(b, t) && t.objectRefSize <= 4 && t.numObjects < TWO_32 && RefsFit(t, n.kids, table)
    requires At(b, t, off, EncodeNode(n, table, t.objectRefSize))
    ensures Scan(b, t, off) == Some(Refs(KindOf(n), ChildOffsets(b, t, n.kids, table)))
  {
    hide Scan, ReadCount, ScanRefs, RefsBytes, CountHead, TableEntry, TableOffsets, RefsFit;
    var refs := RefsBytes(n.kids, table, t.objectRefSize);
    if n.isDict {
      var ptr := off + |CountHead(0xD0, CountOf(n))|;
      CountedAt(b, t, off, 0xD0, CountOf(n), refs);
      ScanIsCounted(b, t, off, 0xD, CountOf(n), ptr);
      ScanRefsOfRefsBytes(b, t, DictKind, ptr, n.kids, table);
    } else {
      var ptr := off + |CountHead(0xA0, |n.kids|)|;
      CountedAt(b, t, off, 0xA0, |n.kids|, refs);
      ScanIsCounted(b, t, off, 0xA, |n.kids|, ptr);
      ScanRefsOfRefsBytes(b, t, ArrayKind, ptr, n.kids, table);
    }
  }
}
