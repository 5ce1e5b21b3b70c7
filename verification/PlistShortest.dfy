/**
  How short the writer's bytes are, measured by the reader: no accepted file holds the same object in
  fewer bytes, with the exceptions that the forms the writer chooses from allow.
 */
module PlistShortest {
  import opened Bytes
  import opened Plist
  import opened PlistEncoding
  import opened PlistFlatten
  import opened PlistGraph
  import opened PlistLayout
  import opened PlistLayoutProofs
  import opened PlistReader
  import opened PlistScanProofs
  import opened Wrappers

  // ---------------------------------------------------------------- numbers and counts

  /** A number of 1, 2, 4 or more bytes needs no more of them than were read. */
  lemma WideEnough(s: seq<Byte>, w: nat)
    requires (w in {1, 2, 4} && |s| == w) || 8 <= w
    ensures IntBytes(SizedInt(s)) <= w
  {
    Pow256Facts();
    UnsignedBound(s);
    if w in {1, 2, 4} { SmallIsItself(Unsigned(s)); }
  }

  lemma SmallIsItself(n: nat)
    requires n < TWO_64
    ensures n % TWO_64 == n
  {
  }

  lemma Powers(k: nat)
    ensures Pow2(k) in {1, 2, 4} || 8 <= Pow2(k)
  {
    if 3 <= k {
      Pow2Large(k);
    } else {
      assert Pow2(0) == 1 && Pow2(1) == 2 && Pow2(2) == 4;
    }
  }

  lemma {:induction false} Pow2Large(k: nat)
    requires 3 <= k
    ensures 8 <= Pow2(k)
  {
    if k == 3 {
      assert Pow2(1) == 2 && Pow2(2) == 4;
    } else {
      Pow2Large(k - 1);
    }
  }

  /** However a count was written, the writer's head for it is no longer. */
  lemma CountIsShortest(b: seq<Byte>, off: nat, end: nat, marker: Byte)
    requires off <= end < |b| && marker + 15 < 0x100 && ReadCount(b, off, end).Some?
    ensures var (count, ptr) := ReadCount(b, off, end).value; off + |CountHead(marker, count)| <= ptr
  {
    hide SizedInt, Pow2, IntBytes;
    if b[off] % 16 == 15 {
      var k := b[off + 1] % 16;
      var w := Pow2(k);
      Powers(k);
      var s := b[off + 2..off + 2 + w % 256];
      WideEnough(s, w);
    }
  }

  // ---------------------------------------------------------------- strings and data

  /** Every character is one byte, and not all of them are ASCII. */
  predicate Latin(units: seq<Unit>) {
    (forall i :: 0 <= i < |units| ==> units[i] < 0x100) && !IsAscii(units)
  }

  /** What a string was decoded from: one byte a character, or two. */
  lemma StringComesFrom(b: seq<Byte>, t: Trailer, off: nat, units: seq<Unit>) returns (ptr: nat)
    requires Accepted(b, t) && Scan(b, t, off) == Some(Done(VStr(units)))
    ensures 8 <= off < t.offsetTableOffset <= |b|
    ensures ReadCount(b, off, t.offsetTableOffset - 1) == Some((|units|, ptr))
    ensures || (ptr + |units| <= t.offsetTableOffset && forall i :: 0 <= i < |units| ==> units[i] < 0x100)
            || ptr + 2 * |units| <= t.offsetTableOffset
  {
    hide ReadCount, SizedInt, TableOffsets, ScanRefs, Units, Pow2, TableEntry;
    TableInside(b, t);
    var r := ReadCount(b, off, t.offsetTableOffset - 1);
    ptr := r.value.1;
  }

  lemma StringLength(units: seq<Unit>)
    ensures |EncodePrim(Str(units))| == if IsAscii(units) then |CountHead(0x50, |units|)| + |units|
                                        else |CountHead(0x60, |units|)| + 2 * |units|
  {
  }

  /** No accepted file holds a string in fewer bytes, if it is all ASCII or has a character beyond one byte. */
  lemma StringIsShortest(b: seq<Byte>, t: Trailer, off: nat, units: seq<Unit>)
    requires Accepted(b, t) && Scan(b, t, off) == Some(Done(VStr(units))) && !Latin(units)
    ensures off + |EncodePrim(Str(units))| <= t.offsetTableOffset
  {
    hide Scan, ReadCount, CountHead, EncodePrim, Accepted;
    var ptr := StringComesFrom(b, t, off, units);
    CountIsShortest(b, off, t.offsetTableOffset - 1, 0x50);
    CountIsShortest(b, off, t.offsetTableOffset - 1, 0x60);
    StringLength(units);
  }

  lemma LatinChunk(units: seq<Unit>) returns (chunk: seq<Byte>)
    requires Latin(units)
    ensures chunk == CountHead(0x50, |units|) + units
    ensures |chunk| < |EncodePrim(Str(units))|
  {
    var bytes: seq<Byte> := seq(|units|, i requires 0 <= i < |units| => units[i]);
    assert bytes == units;
    chunk := CountHead(0x50, |units|) + bytes;
    assert |units| > 0;
  }

  lemma OneChunkFits(chunk: seq<Byte>)
    requires 0 < |chunk| < 0x2000_0000_0000_0000
    ensures Sizable([chunk]) && |Body([chunk])| == 8 + |chunk|
  {
    LayoutLength([chunk]);
    assert [chunk][..0] == [];
    assert Concat([chunk]) == Concat([chunk][..0]) + chunk;
  }

  lemma ChunkAtStart(chunk: seq<Byte>)
    requires 0 < |chunk| < 0x2000_0000_0000_0000
    ensures var b, t := Layout([chunk]), WrittenTrailer([chunk]); At(b, t, 8, chunk) && t.offsetTableOffset == 8 + |chunk|
  {
    OneChunkFits(chunk);
    WrittenTrailerIsAccepted([chunk]);
    ChunkInPlace([chunk], 0);
    StartsAt([chunk], 0);
    assert [chunk][..0] == [];
  }

  /**
    The writer's form of a string is the shortest exactly when the string is not one of one-byte characters
    some of which are not ASCII: the reader takes those from one byte each as well.
   */
  lemma StringIsShortestExactly(units: seq<Unit>)
    requires |units| < 0x1000_0000_0000_0000
    ensures (forall b: seq<Byte>, t: Trailer, off: nat :: Accepted(b, t) && Scan(b, t, off) == Some(Done(VStr(units))) ==>
               off + |EncodePrim(Str(units))| <= t.offsetTableOffset) <==> !Latin(units)
  {
    hide EncodePrim, Latin, Layout;
    if Latin(units) {
      ShorterLatin(units);
    } else {
      forall b: seq<Byte>, t: Trailer, off: nat | Accepted(b, t) && Scan(b, t, off) == Some(Done(VStr(units)))
        ensures off + |EncodePrim(Str(units))| <= t.offsetTableOffset
      {
        StringIsShortest(b, t, off, units);
      }
    }
  }

  lemma ShorterLatin(units: seq<Unit>)
    requires |units| < 0x1000_0000_0000_0000 && Latin(units)
    ensures exists b: seq<Byte>, t: Trailer, off: nat :: Accepted(b, t) && Scan(b, t, off) == Some(Done(VStr(units)))
                             && t.offsetTableOffset < off + |EncodePrim(Str(units))|
  {
    hide Scan, CountHead, EncodePrim, Layout, ReadCount;
    var chunk := LatinChunk(units);
    HeadIsShort(0x50, |units|);
    ChunkAtStart(chunk);
    var b, t := Layout([chunk]), WrittenTrailer([chunk]);
    CountedAt(b, t, 8, 0x50, |units|, units);
    ScanIsCounted(b, t, 8, 0x5, |units|, 8 + |CountHead(0x50, |units|)|);
    assert Scan(b, t, 8) == Some(Done(VStr(units)));
  }

  lemma HeadIsShort(marker: Byte, count: nat)
    requires marker + 15 < 0x100
    ensures 1 <= |CountHead(marker, count)| <= 10
  {
  }

  /** The marker tells the two forms apart, exactly by whether all characters are ASCII. */
  lemma StringMarker(units: seq<Unit>)
    ensures var s := EncodePrim(Str(units));
            s[0] / 16 == if forall i :: 0 <= i < |units| ==> units[i] < 0x80 then 5 else 6
  {
  }

  /** Data is never held in fewer bytes. */
  lemma DataIsShortest(b: seq<Byte>, t: Trailer, off: nat, bytes: seq<Byte>)
    requires Accepted(b, t) && Scan(b, t, off) == Some(Done(VData(bytes)))
    ensures off + |EncodePrim(Data(bytes))| <= t.offsetTableOffset
  {
    hide ReadCount, SizedInt, TableOffsets, ScanRefs, Units, Pow2, TableEntry, CountHead;
    TableInside(b, t);
    CountIsShortest(b, off, t.offsetTableOffset - 1, 0x40);
  }

  // ---------------------------------------------------------------- numbers

  /** No number of the 64-bit type is held in fewer bytes. */
  lemma IntIsShortest(b: seq<Byte>, t: Trailer, off: nat, i: SInt64)
    requires Accepted(b, t) && Scan(b, t, off) == Some(Done(VInt(i)))
    ensures off + |EncodePrim(Int64(i))| <= t.offsetTableOffset
  {
    hide ReadCount, SizedInt, TableOffsets, ScanRefs, Units, Pow2, TableEntry, IntBytes;
    TableInside(b, t);
    var w := Pow2(b[off] % 16);
    Powers(b[off] % 16);
    var s := b[off + 1..off + 1 + w];
    WideEnough(s, w);
  }

  /** A number of the 128-bit type takes sixteen bytes after its marker, and they lose nothing of it. */
  lemma WideIntBytes(w: SInt128)
    ensures var s := EncodePrim(Int128(w));
            |s| == 17 && s[0] == 0x14 && Unsigned(s[1..]) == if w < 0 then w + TWO_64 * TWO_64 else w
  {
    hide BigEndian, Unsigned, Pow256;
    var s, n := EncodePrim(Int128(w)), Wrap128(w);
    var high, low := BigEndian(n / TWO_64, 8), BigEndian(n % TWO_64, 8);
    assert s[1..] == high + low;
    Pow256Facts();
    UnsignedConcat(high, low);
    UnsignedOfBigEndian(n / TWO_64, 8);
    UnsignedOfBigEndian(n % TWO_64, 8);
  }

  /** A UID is held in fewer bytes only by a form of three, which the writer does not have, for one that needs all three. */
  lemma UidIsShortest(b: seq<Byte>, t: Trailer, off: nat, u: UInt32)
    requires Accepted(b, t) && Scan(b, t, off) == Some(Done(VUid(u)))
    ensures 8 <= off < |b|
    ensures off + |EncodePrim(Uid(u))| <= t.offsetTableOffset || (b[off] % 16 + 1 == 3 && 0x1_0000 <= u < 0x100_0000)
  {
    hide ReadCount, SizedInt, TableOffsets, ScanRefs, Units, Pow2, TableEntry, IntBytes;
    TableInside(b, t);
    var low := b[off] % 16;
    var s := b[off + 1..off + low + 2];
    UidWidth(s, u);
  }

  lemma UidWidth(s: seq<Byte>, u: UInt32)
    requires 1 <= |s| <= 16 && SizedInt(s) == u
    ensures IntBytes(u) <= |s| || (|s| == 3 && 0x1_0000 <= u < 0x100_0000)
  {
    hide Unsigned;
    Pow256Facts();
    assert Pow256(3) == 256 * Pow256(2);
    UnsignedBound(s);
    if |s| <= 4 { SmallIsItself(Unsigned(s)); }
  }

  /** Three bytes are read too, and would be shorter for this one. */
  lemma ThreeByteUid(b: seq<Byte>, t: Trailer, off: nat)
    requires At(b, t, off, [0x82, 1, 0, 0])
    ensures Scan(b, t, off) == Some(Done(VUid(0x1_0000))) && |EncodePrim(Uid(0x1_0000))| == 5
  {
    hide ReadCount, TableOffsets, ScanCounted, Pow2, TableEntry, ScanInt, Accepted;
    var s: seq<Byte> := [0x82, 1, 0, 0];
    At0(b, t, off, s);
    AtSlice(b, off, s, 1, 4);
    assert s[1..4] == [1, 0, 0];
    ThreeBytes();
  }

  lemma ThreeBytes()
    ensures SizedInt([1, 0, 0]) == 0x1_0000
  {
    var s: seq<Byte> := [1, 0, 0];
    assert s[..2] == [1, 0] && s[..2][..1] == [1] && s[..2][..1][..0] == [];
    assert Unsigned(s[..2][..1]) == 1;
    assert Unsigned(s[..2]) == 256;
  }

  // ---------------------------------------------------------------- collections

  /** With references of the same width no collection of as many elements is held in fewer bytes. */
  lemma CollectionIsShortest(b: seq<Byte>, t: Trailer, off: nat, n: Node, table: map<nat, nat>, refs: seq<nat>)
    requires Accepted(b, t) && t.objectRefSize <= 4 && n.Container? && Paired(n) && |refs| == |n.kids|
    requires Scan(b, t, off) == Some(Refs(KindOf(n), refs))
    ensures off + |EncodeNode(n, table, t.objectRefSize)| <= t.offsetTableOffset
  {
    hide ReadCount, SizedInt, TableOffsets, Units, Pow2, TableEntry, CountHead, RefsBytes, Paired;
    TableInside(b, t);
    RefsBytesAt(n.kids, table, t.objectRefSize, 0);
    CountIsShortest(b, off, t.offsetTableOffset - 1, if n.isDict then 0xD0 else 0xA0);
    EvenKids(n);
  }

  lemma EvenKids(n: Node)
    requires n.Container? && Paired(n)
    ensures n.isDict ==> |n.kids| == 2 * CountOf(n)
  {
  }

  // ---------------------------------------------------------------- the file

  /** `s` is the least of the four widths that hold `n`. */
  predicate LeastWidth(s: nat, n: nat) {
    s in {1, 2, 4, 8} && n < Pow256(s) && forall w :: w in {1, 2, 4, 8} && n < Pow256(w) ==> s <= w
  }

  /** Offsets and references of a written file have the least widths that hold the end of the objects and their number. */
  lemma FileIsTight(chunks: seq<seq<Byte>>)
    requires Sizable(chunks)
    ensures var b := Layout(chunks);
            var t := RawTrailer(b);
            && LeastWidth(t.offsetIntSize, t.offsetTableOffset) && LeastWidth(t.objectRefSize, t.numObjects)
            && t.numObjects == |chunks| && t.topObject == 0 && b[..8] == HEADER
            && t.offsetTableOffset == 8 + |Concat(chunks)| && b[8..t.offsetTableOffset] == Concat(chunks)
            && |b| == t.offsetTableOffset + |chunks| * t.offsetIntSize + 32
  {
    hide SizeFor, Concat, OffsetTable, TrailerBytes, Starts, RawTrailer;
    var b, t := Layout(chunks), WrittenTrailer(chunks);
    WrittenTrailerIsRead(chunks);
    LayoutLength(chunks);
    LeastSize(|Body(chunks)|);
    LeastSize(|chunks|);
    assert b[..|Body(chunks)|] == Body(chunks);
    assert b[..8] == Body(chunks)[..8] && b[8..|Body(chunks)|] == Body(chunks)[8..];
  }

  lemma LeastSize(n: nat)
    requires n < TWO_64
    ensures LeastWidth(SizeFor(n), n)
  {
    hide SizeFor;
    forall w | w in {1, 2, 4, 8} && n < Pow256(w)
      ensures SizeFor(n) <= w
    {
      SizeForIsLeast(n, w);
    }
  }
}
