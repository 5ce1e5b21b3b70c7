/**
  Reading a binary property list: the trailer check, the decoding of one object, and
  recursive reader with its offset-keyed cache and its path set.
 */
module PlistReader {
  import opened Bytes
  import opened Plist
  import opened PlistGraph
  import opened Wrappers

  const LONG_MAX: int := TWO_63 - 1
  const MAGIC: seq<Byte> := [0x62, 0x70, 0x6c, 0x69, 0x73, 0x74, 0x30]  // "bplist0"
  const TRAILER_SIZE := 32

  datatype Trailer = Trailer(
    offsetIntSize: Byte,
    objectRefSize: Byte,
    numObjects: nat,
    topObject: nat,
    offsetTableOffset: nat)

  // ---------------------------------------------------------------- the trailer

  /** The last 32 bytes: six unused bytes, two sizes, three 64-bit integers. */
  function RawTrailer(b: seq<Byte>): Trailer
    requires |b| >= TRAILER_SIZE
  {
    var s := b[|b| - TRAILER_SIZE..];
    Trailer(s[6], s[7], SizedInt(s[8..16]), SizedInt(s[16..24]), SizedInt(s[24..32]))
  }

  /** The arithmetic part of the trailer check, before the offset table is walked. */
  predicate SaneTrailer(b: seq<Byte>, t: Trailer) {
    && t.numObjects <= LONG_MAX && t.offsetTableOffset <= LONG_MAX
    && t.topObject < t.numObjects
    && 9 <= t.offsetTableOffset
    && 1 <= t.offsetIntSize && 1 <= t.objectRefSize
    && |b| == t.offsetTableOffset + t.numObjects * t.offsetIntSize + TRAILER_SIZE
    && (t.objectRefSize < 8 ==> t.numObjects < Pow256(t.objectRefSize))
    && (t.offsetIntSize < 8 ==> t.offsetTableOffset < Pow256(t.offsetIntSize))
  }

  lemma TableInside(b: seq<Byte>, t: Trailer)
    requires SaneTrailer(b, t)
    ensures t.offsetTableOffset + 1 + TRAILER_SIZE <= |b|
  {
    EntryFits(t, 0);
  }

  lemma EntryFits(t: Trailer, r: nat)
    requires r < t.numObjects
    ensures r * t.offsetIntSize + t.offsetIntSize <= t.numObjects * t.offsetIntSize
  {
    MulGap(t.offsetIntSize, r, t.numObjects);
  }

  /** Entry `r` of the offset table. */
  function TableEntry(b: seq<Byte>, t: Trailer, r: nat): nat
    requires SaneTrailer(b, t) && r < t.numObjects
  {
    EntryFits(t, r);
    var at := t.offsetTableOffset + r * t.offsetIntSize;
    SizedInt(b[at..at + t.offsetIntSize])
  }

  /** Everything `__CFBinaryPlistGetTopLevelInfo` establishes; the rest of the reader trusts it. */
  predicate Accepted(b: seq<Byte>, t: Trailer) {
    && SaneTrailer(b, t)
    && forall r :: 0 <= r < t.numObjects ==> TableEntry(b, t, r) < t.offsetTableOffset
  }

  datatype TopLevel = TopLevel(marker: Byte, offset: nat, trailer: Trailer)

  function GetTopLevelInfo(b: seq<Byte>): (r: Option<TopLevel>)
    ensures r.Some? ==> Accepted(b, r.value.trailer) && 8 <= r.value.offset < r.value.trailer.offsetTableOffset
  {
    if |b| < TRAILER_SIZE + 8 + 1 || b[..7] != MAGIC then None
    else
      var t := RawTrailer(b);
      if !Accepted(b, t) then None
      else
        var off := TableEntry(b, t, t.topObject);
        assert off < t.offsetTableOffset;
        TableInside(b, t);
        if off < 8 then None else Some(TopLevel(b[off], off, t))
  }

  // ---------------------------------------------------------------- one object

  /** `_readInt`: the value and the position after it. The length byte is passed as a `uint8_t`. */
  function ReadInt(b: seq<Byte>, ptr: nat, end: nat): (r: Option<(nat, nat)>)
    requires end < |b|
    ensures r.Some? ==> r.value.0 < TWO_64 && ptr < r.value.1 <= end + 1
  {
    if end < ptr || b[ptr] / 16 != 1 then None
    else
      var cnt := Pow2(b[ptr] % 16);
      if end < ptr + cnt then None
      else Some((SizedInt(b[ptr + 1..ptr + 1 + cnt % 256]), ptr + 1 + cnt))
  }

  /** The element count of a data, string or collection object and where its payload starts. */
  function ReadCount(b: seq<Byte>, off: nat, end: nat): (r: Option<(nat, nat)>)
    requires off <= end < |b|
    ensures r.Some? ==> r.value.0 <= LONG_MAX && off < r.value.1 <= end + 1
  {
    var low := b[off] % 16;
    if low != 15 then Some((low, off + 1))
    else
      match ReadInt(b, off + 1, end)
      case None => None
      case Some((n, ptr)) => if LONG_MAX < n then None else Some((n, ptr))
  }

  /** `_getOffsetOfRefAt`: the offset an object reference stands for. */
  function OffsetOfRef(b: seq<Byte>, t: Trailer, ptr: nat): (off: nat)
    requires SaneTrailer(b, t)
    ensures off == MAX_OFFSET || off in TableOffsets(b, t)
  {
    if ptr < 8 || t.offsetTableOffset < ptr + t.objectRefSize then MAX_OFFSET
    else
      var ref := SizedInt(b[ptr..ptr + t.objectRefSize]);
      if t.numObjects <= ref then MAX_OFFSET else TableEntry(b, t, ref)
  }

  /** The distinct offsets the table holds. */
  function TableOffsets(b: seq<Byte>, t: Trailer): set<nat>
    requires SaneTrailer(b, t)
  {
    set r | 0 <= r < t.numObjects :: TableEntry(b, t, r)
  }

  /** The offsets of the first `n` entries. */
  ghost function OffsetsTo(b: seq<Byte>, t: Trailer, n: nat): set<nat>
    requires SaneTrailer(b, t) && n <= t.numObjects
  {
    set r | 0 <= r < n :: TableEntry(b, t, r)
  }

  lemma {:induction false} OffsetsToAreFew(b: seq<Byte>, t: Trailer, n: nat)
    requires SaneTrailer(b, t) && n <= t.numObjects
    ensures |OffsetsTo(b, t, n)| <= n
  {
    hide TableEntry;
    if n == 0 {
      assert OffsetsTo(b, t, 0) == {};
    } else {
      OffsetsToAreFew(b, t, n - 1);
      assert OffsetsTo(b, t, n) == OffsetsTo(b, t, n - 1) + {TableEntry(b, t, n - 1)};
    }
  }

  lemma TableIsSmall(b: seq<Byte>, t: Trailer)
    requires SaneTrailer(b, t)
    ensures |TableOffsets(b, t)| <= t.numObjects
  {
    hide TableEntry, SaneTrailer;
    OffsetsToAreFew(b, t, t.numObjects);
    assert TableOffsets(b, t) == OffsetsTo(b, t, t.numObjects);
  }

  function Signed64(n: nat): int {
    if n < TWO_63 then n else n - TWO_64
  }

  function Units(b: seq<Byte>): (u: seq<Unit>)
    requires |b| % 2 == 0
    ensures |u| == |b| / 2
  {
    seq(|b| / 2, i requires 0 <= i < |b| / 2 => 256 * (b[2 * i] as int) + b[2 * i + 1] as int)
  }

  /** Decodes the object at `off` without following its references. */
  function Scan(b: seq<Byte>, t: Trailer, off: nat): (r: Option<Item>)
    requires Accepted(b, t)
    ensures r.Some? && r.value.Refs? ==>
              forall i :: 0 <= i < |r.value.refs| ==>
                r.value.refs[i] == MAX_OFFSET || r.value.refs[i] in TableOffsets(b, t)
    ensures r.Some? && r.value.Refs? && r.value.kind == DictKind ==> |r.value.refs| % 2 == 0
    ensures r.Some? && r.value.Done? ==> IsPrimitive(r.value.v)
  {
    TableInside(b, t);
    var end := t.offsetTableOffset - 1;
    if off < 8 || end < off then None
    else
      var high, low := b[off] / 16, b[off] % 16;
      if high == 0x0 then
        if low == 0 then Some(Done(VNull))
        else if low == 8 then Some(Done(VBool(false)))
        else if low == 9 then Some(Done(VBool(true)))
        else None
      else if high == 0x1 then ScanInt(b, off, end)
      else if high == 0x2 then
        if low == 2 && off + 4 <= end then Some(Done(VReal(b[off + 1..off + 5])))
        else if low == 3 && off + 8 <= end then Some(Done(VReal(b[off + 1..off + 9])))
        else None
      else if high == 0x3 then
        if low == 3 && off + 8 <= end then Some(Done(VDate(b[off + 1..off + 9]))) else None
      else if high == 0x8 then
        if end < off + low + 1 then None
        else
          var n := SizedInt(b[off + 1..off + low + 2]);
          if n < TWO_32 then Some(Done(VUid(n))) else None
      else
        match ReadCount(b, off, end)
        case None => None
        case Some((count, ptr)) => ScanCounted(b, t, high, count, ptr)
  }

  function ScanInt(b: seq<Byte>, off: nat, end: nat): (r: Option<Item>)
    requires off <= end < |b|
    ensures r.Some? ==> r.value.Done? && IsPrimitive(r.value.v)
  {
    var cnt := Pow2(b[off] % 16);
    if end < off + cnt || 16 < cnt then None
    else
      var n := SizedInt(b[off + 1..off + 1 + cnt]);
      Some(Done(VInt(if cnt == 8 then Signed64(n) else n)))
  }

  /** Objects with a count: data, the two string forms, arrays, sets and dictionaries. */
  function ScanCounted(b: seq<Byte>, t: Trailer, high: nat, count: nat, ptr: nat): (r: Option<Item>)
    requires SaneTrailer(b, t) && ptr <= t.offsetTableOffset
    ensures r.Some? && r.value.Refs? ==>
              forall i :: 0 <= i < |r.value.refs| ==>
                r.value.refs[i] == MAX_OFFSET || r.value.refs[i] in TableOffsets(b, t)
    ensures r.Some? && r.value.Refs? && r.value.kind == DictKind ==> |r.value.refs| % 2 == 0
    ensures r.Some? && r.value.Done? ==> IsPrimitive(r.value.v)
  {
    TableInside(b, t);
    var limit := t.offsetTableOffset;
    if high == 0x4 then
      if limit < ptr + count then None else Some(Done(VData(b[ptr..ptr + count])))
    else if high == 0x5 then
      if limit < ptr + count then None else Some(Done(VStr(b[ptr..ptr + count])))
    else if high == 0x6 then
      if limit < ptr + 2 * count then None else Some(Done(VStr(Units(b[ptr..ptr + 2 * count]))))
    else if high == 0xA || high == 0xC then
      ScanRefs(b, t, if high == 0xA then ArrayKind else SetKind, count, ptr)
    else if high == 0xD then ScanRefs(b, t, DictKind, 2 * count, ptr)
    else None
  }

  function ScanRefs(b: seq<Byte>, t: Trailer, kind: Kind, count: nat, ptr: nat): (r: Option<Item>)
    requires SaneTrailer(b, t)
    ensures r.Some? ==> r.value.Refs? && r.value.kind == kind && |r.value.refs| == count
    ensures r.Some? ==>
              forall i :: 0 <= i < |r.value.refs| ==>
                r.value.refs[i] == MAX_OFFSET || r.value.refs[i] in TableOffsets(b, t)
  {
    if t.offsetTableOffset < ptr + count * t.objectRefSize || TWO_64 <= count * 8 then None
    else Some(Refs(kind, seq(count, i requires 0 <= i < count => OffsetOfRef(b, t, ptr + i * t.objectRefSize))))
  }

  /** The object graph of a file. */
  function Decode(b: seq<Byte>, t: Trailer): (g: Graph)
    requires Accepted(b, t)
    ensures Closed(g)
    ensures forall off :: Lookup(g, off) == Scan(b, t, off)
  {
    Graph(map off | 0 <= off < t.offsetTableOffset && Scan(b, t, off).Some? :: Scan(b, t, off).value,
          TableOffsets(b, t))
  }

  /** `__CFTryParseBinaryPlist` */
  function TryParse(b: seq<Byte>, mutability: Mutability): Option<Value> {
    match GetTopLevelInfo(b)
    case None => None
    case Some(top) => Read(Decode(b, top.trailer), true, mutability, top.offset, map[], None, 0).0
  }

  // ---------------------------------------------------------------- the checks as they run

  /** `__check_uint64_mul_unsigned_unsigned`: the wrapped product and the overflow flag. */
  method CheckedMul(x: nat, y: nat) returns (product: nat, overflow: bool)
    requires x < TWO_64 && y < TWO_64
    ensures overflow <==> TWO_64 <= x * y
    ensures !overflow ==> product == x * y
  {
    if x == 0 { return 0, false; }
    overflow := (TWO_64 - 1) / x < y;
    QuotientBelow(TWO_64 - 1, x, y);
    MulNotNegative(x, y);
    product := (x * y) % TWO_64;
  }

  lemma MulNotNegative(x: nat, y: nat)
    ensures 0 <= x * y
  {
  }

  lemma QuotientBelow(m: nat, x: nat, y: nat)
    requires x > 0
    ensures m / x < y <==> m < x * y
  {
    var q, r := m / x, m % x;
    assert m == x * q + r;
    if q < y {
      MulGap(x, q, y);
    } else if y < q {
      MulGap(x, y, q);
    }
  }

  /** `__check_uint64_add_unsigned_unsigned` */
  method CheckedAdd(x: nat, y: nat) returns (sum: nat, overflow: bool)
    requires x < TWO_64 && y < TWO_64
    ensures sum < TWO_64
    ensures overflow <==> TWO_64 <= x + y
    ensures !overflow ==> sum == x + y
  {
    overflow := TWO_64 - 1 - y < x;
    sum := (x + y) % TWO_64;
  }

  /** The size test: header, objects, table and trailer add up to the length, without overflow. */
  method SizesAddUp(datalen: nat, t: Trailer) returns (ok: bool)
    requires datalen < TWO_64 && t.numObjects < TWO_64 && 9 <= t.offsetTableOffset < TWO_64
    ensures ok <==> datalen == t.offsetTableOffset + t.numObjects * t.offsetIntSize + TRAILER_SIZE
  {
    MulNotNegative(t.numObjects, t.offsetIntSize);
    var tableSize, overflow := CheckedMul(t.numObjects, t.offsetIntSize);
    if overflow { return false; }
    var sum;
    sum, overflow := CheckedAdd(8, t.offsetTableOffset - 8);
    if overflow { return false; }
    sum, overflow := CheckedAdd(sum, tableSize);
    if overflow { return false; }
    sum, overflow := CheckedAdd(sum, TRAILER_SIZE);
    if overflow { return false; }
    ok := datalen == sum;
  }

  /** All of the trailer checks that come before the walk over the offset table. */
  method CheckTrailer(b: seq<Byte>, t: Trailer) returns (ok: bool)
    requires TRAILER_SIZE + 9 <= |b| < TWO_63 && t == RawTrailer(b)
    ensures ok <==> SaneTrailer(b, t)
  {
    if LONG_MAX < t.numObjects || LONG_MAX < t.offsetTableOffset { return false; }
    if t.numObjects < 1 || t.numObjects <= t.topObject { return false; }
    if t.offsetTableOffset < 9 { return false; }
    if |b| - TRAILER_SIZE <= t.offsetTableOffset {
      if SaneTrailer(b, t) { TableInside(b, t); }
      return false;
    }
    if t.offsetIntSize < 1 || t.objectRefSize < 1 { return false; }
    var sizes := SizesAddUp(|b|, t);
    if !sizes { return false; }
    if t.objectRefSize < 8 && Pow256(t.objectRefSize) <= t.numObjects { return false; }
    if t.offsetIntSize < 8 && Pow256(t.offsetIntSize) <= t.offsetTableOffset { return false; }
    ok := true;
  }

  /** `__CFBinaryPlistGetTopLevelInfo`, with its 64-bit overflow tests and its loop over the table. */
  method CheckTopLevel(b: seq<Byte>) returns (r: Option<TopLevel>)
    requires |b| < TWO_63
    ensures r == GetTopLevelInfo(b)
  {
    hide TableEntry, SaneTrailer, RawTrailer;
    if |b| < TRAILER_SIZE + 8 + 1 || b[..7] != MAGIC { return None; }
    var t := RawTrailer(b);
    var sane := CheckTrailer(b, t);
    if !sane { return None; }
    var idx := 0;
    while idx < t.numObjects
      invariant 0 <= idx <= t.numObjects
      invariant forall k :: 0 <= k < idx ==> TableEntry(b, t, k) < t.offsetTableOffset
    {
      var off := GetEntry(b, t, idx);
      if t.offsetTableOffset - 1 < off { return None; }
      idx := idx + 1;
    }
    TopIsListed(b, t);
    var off := GetEntry(b, t, t.topObject);
    if off < 8 || t.offsetTableOffset <= off { return None; }
    TableInside(b, t);
    r := Some(TopLevel(b[off], off, t));
  }

  lemma TopIsListed(b: seq<Byte>, t: Trailer)
    requires SaneTrailer(b, t)
    ensures t.topObject < t.numObjects
  {
  }

  /** One entry of the offset table */
  method GetEntry(b: seq<Byte>, t: Trailer, k: nat) returns (off: nat)
    requires SaneTrailer(b, t) && k < t.numObjects
    ensures off == TableEntry(b, t, k)
  {
    hide SizedInt;
    EntryFits(t, k);
    MulNotNegative(k, t.offsetIntSize);
    off := GetSizedInt(b, t.offsetTableOffset + k * t.offsetIntSize, t.offsetIntSize);
  }

  /**
    `__CFTryParseBinaryPlist`. However the references of the file lead, the deepest of the recursive
    calls is at most 16 levels deeper than the file has objects.
   */
  method ParsePlist(b: seq<Byte>, mutability: Mutability) returns (r: Option<Value>, ghost deepest: nat)
    requires |b| < TWO_63
    ensures r == TryParse(b, mutability)
    ensures deepest <= 16 + if GetTopLevelInfo(b).Some? then GetTopLevelInfo(b).value.trailer.numObjects else 0
  {
    deepest := 0;
    var top := CheckTopLevel(b);
    if top.None? { return None, 0; }
    var reader := new Reader(Decode(b, top.value.trailer), true, mutability);
    r := reader.CreateObject(top.value.offset, 0);
    deepest := reader.deepest;
    TableIsSmall(b, top.value.trailer);
  }
}
