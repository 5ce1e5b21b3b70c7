/**
  The layout of a binary property list around the encoded objects: header, object table, offset
  table and trailer.
 */
module PlistLayout {
  import opened Bytes

  const HEADER: seq<Byte> := [0x62, 0x70, 0x6c, 0x69, 0x73, 0x74, 0x30, 0x30]  // "bplist00"

  /** The object table: the encoded objects, one after the other. */
  function Concat(chunks: seq<seq<Byte>>): seq<Byte> {
    if chunks == [] then []
    else Concat(chunks[..|chunks| - 1]) + chunks[|chunks| - 1]
  }

  /** Where each object starts in the file. */
  function Starts(chunks: seq<seq<Byte>>): (offs: seq<nat>)
    ensures |offs| == |chunks|
  {
    if chunks == [] then []
    else
      var front := chunks[..|chunks| - 1];
      Starts(front) + [|HEADER| + |Concat(front)|]
  }

  /** The offset table, `width` bytes an entry. */
  function OffsetTable(offs: seq<nat>, width: nat): seq<Byte>
  {
    if offs == [] then []
    else OffsetTable(offs[..|offs| - 1], width) + BigEndian(offs[|offs| - 1], width)
  }

  function TrailerBytes(offsetIntSize: Byte, objectRefSize: Byte, numObjects: nat, offsetTableOffset: nat): (s: seq<Byte>)
    ensures |s| == 32
  {
    [0, 0, 0, 0, 0, 0, offsetIntSize, objectRefSize]
      + BigEndian(numObjects, 8) + BigEndian(0, 8) + BigEndian(offsetTableOffset, 8)
  }

  /** The narrowest of 1, 2, 4 and 8 bytes that holds `count`. */
  function SizeFor(count: nat): (size: nat)
    ensures size in {1, 2, 4, 8}
    ensures count < TWO_64 ==> count < Pow256(size)
  {
    Pow256Facts();
    if count < 0x100 then 1 else if count < 0x1_0000 then 2 else if count < TWO_32 then 4 else 8
  }

  lemma SizeForIsLeast(count: nat, s: nat)
    requires s in {1, 2, 4, 8} && count < Pow256(s)
    ensures SizeFor(count) <= s
  {
    Pow256Facts();
  }

  /** `_byteCount`: shift a mask until it clears the value, then round up to a power of two. */
  method ByteCount(count: nat) returns (size: nat)
    requires count < TWO_64
    ensures size == SizeFor(count)
  {
    Pow256Facts();
    size := 0;
    // `count & (~0 << 8 * size)` is non-zero exactly when `count` needs more than `size` bytes
    while count / Pow256(size) != 0
      invariant size <= 8
      invariant size > 0 ==> Pow256(size - 1) <= count
      decreases 8 - size
    {
      QuotientPositive(count, Pow256(size));
      size := size + 1;
    }
    QuotientZero(count, Pow256(size));
    Pow256Steps();
    while size != 1 && size != 2 && size != 4 && size != 8 && size <= 8
      invariant size <= 8 && count < Pow256(size)
      invariant size > 1 ==> Pow256(if size <= 2 then 1 else if size <= 4 then 2 else 4) <= count
      decreases 8 - size
    {
      size := size + 1;
    }
  }

  lemma QuotientPositive(x: nat, d: nat)
    requires d > 0 && x / d != 0
    ensures d <= x
  {
  }

  lemma QuotientZero(x: nat, d: nat)
    requires d > 0 && x / d == 0
    ensures x < d
  {
  }

  lemma Pow256Steps()
    ensures forall a, b :: 0 <= a <= b <= 8 ==> Pow256(a) <= Pow256(b)
  {
    forall a, b | 0 <= a <= b <= 8
      ensures Pow256(a) <= Pow256(b)
    {
      Pow256Grows(a, b);
    }
  }

  lemma {:induction false} Pow256Grows(a: nat, b: nat)
    requires a <= b
    ensures Pow256(a) <= Pow256(b)
    decreases b
  {
    if a < b { Pow256Grows(a, b - 1); }
  }

  function Body(chunks: seq<seq<Byte>>): (s: seq<Byte>)
    ensures |s| == |HEADER| + |Concat(chunks)|
  {
    HEADER + Concat(chunks)
  }

  /** The whole file for a list of encoded objects. */
  function Layout(chunks: seq<seq<Byte>>): seq<Byte> {
    var width := SizeFor(|Body(chunks)|);
    Body(chunks) + OffsetTable(Starts(chunks), width)
      + TrailerBytes(width, SizeFor(|chunks|), |chunks|, |Body(chunks)|)
  }

  lemma {:induction false} ConcatPrefix(chunks: seq<seq<Byte>>, i: nat)
    requires i <= |chunks|
    ensures Concat(chunks[..i]) <= Concat(chunks)
    decreases |chunks| - i
  {
    if i < |chunks| {
      assert chunks[..i + 1][..i] == chunks[..i];
      ConcatPrefix(chunks, i + 1);
    } else {
      assert chunks[..i] == chunks;
    }
  }

  lemma NextChunk(chunks: seq<seq<Byte>>, i: nat)
    requires i < |chunks|
    ensures Body(chunks[..i + 1]) == Body(chunks[..i]) + chunks[i]
    ensures Body(chunks[..i + 1]) <= Body(chunks)
    ensures Starts(chunks[..i + 1]) == Starts(chunks[..i]) + [|Body(chunks[..i])|]
  {
    ConcatPrefix(chunks, i + 1);
    assert chunks[..i + 1][..i] == chunks[..i];
  }

  lemma {:induction false} OffsetTableLength(offs: seq<nat>, width: nat)
    ensures |OffsetTable(offs, width)| == |offs| * width
  {
    if offs != [] {
      OffsetTableLength(offs[..|offs| - 1], width);
      MulNext(|offs| - 1, width);
    }
  }

  lemma LayoutLength(chunks: seq<seq<Byte>>)
    ensures |Layout(chunks)| == |Body(chunks)| + |chunks| * SizeFor(|Body(chunks)|) + 32
  {
    OffsetTableLength(Starts(chunks), SizeFor(|Body(chunks)|));
  }

  lemma {:induction false} OffsetTablePrefix(offs: seq<nat>, width: nat, k: nat)
    requires k <= |offs|
    ensures OffsetTable(offs[..k], width) <= OffsetTable(offs, width)
    decreases |offs| - k
  {
    if k < |offs| {
      assert offs[..k + 1][..k] == offs[..k];
      OffsetTablePrefix(offs, width, k + 1);
    } else {
      assert offs[..k] == offs;
    }
  }

  lemma NextOffset(offs: seq<nat>, width: nat, k: nat)
    requires k < |offs|
    ensures OffsetTable(offs[..k + 1], width) == OffsetTable(offs[..k], width) + BigEndian(offs[k], width)
    ensures OffsetTable(offs[..k + 1], width) <= OffsetTable(offs, width)
  {
    assert offs[..k + 1][..k] == offs[..k];
    OffsetTablePrefix(offs, width, k + 1);
  }
}
