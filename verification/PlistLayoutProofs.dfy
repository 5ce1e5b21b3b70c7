/**
  Every file the writer lays out passes every trailer check of the reader, and the reader finds each
  object where the writer put it.
 */
module PlistLayoutProofs {
  import opened Bytes
  import opened Plist
  import opened PlistLayout
  import opened PlistReader
  import opened Wrappers

  /** What a list of encoded objects must satisfy: at least one, none empty, lengths in range. */
  predicate Sizable(chunks: seq<seq<Byte>>) {
    && 0 < |chunks| < TWO_32
    && |Layout(chunks)| < TWO_63
    && forall i :: 0 <= i < |chunks| ==> |chunks[i]| > 0
  }

  function WrittenTrailer(chunks: seq<seq<Byte>>): Trailer {
    Trailer(SizeFor(|Body(chunks)|), SizeFor(|chunks|), |chunks|, 0, |Body(chunks)|)
  }

  lemma {:induction false} StartsAt(chunks: seq<seq<Byte>>, i: nat)
    requires i < |chunks|
    ensures Starts(chunks)[i] == |Body(chunks[..i])|
    ensures Starts(chunks)[i] + |chunks[i]| <= |Body(chunks)|
    ensures Body(chunks)[Starts(chunks)[i]..Starts(chunks)[i] + |chunks[i]|] == chunks[i]
    decreases |chunks|
  {
    var front := chunks[..|chunks| - 1];
    if i < |front| {
      StartsAt(front, i);
      assert front[..i] == chunks[..i];
      assert Body(chunks) == Body(front) + chunks[|front|];
    } else {
      assert chunks[..i] == front;
      assert Body(chunks) == Body(front) + chunks[|front|];
    }
  }

  lemma {:induction false} TableAt(offs: seq<nat>, width: nat, r: nat)
    requires r < |offs|
    ensures 0 <= r * width && r * width + width <= |OffsetTable(offs, width)|
    ensures OffsetTable(offs, width)[r * width..r * width + width] == BigEndian(offs[r], width)
    decreases |offs|
  {
    var front := offs[..|offs| - 1];
    OffsetTableLength(front, width);
    if r < |front| {
      TableAt(front, width, r);
    }
  }

  lemma TrailerOf(width: Byte, refSize: Byte, n: nat, at: nat)
    requires n < TWO_64 && at < TWO_64
    ensures var s := TrailerBytes(width, refSize, n, at);
            && s[6] == width && s[7] == refSize
            && SizedInt(s[8..16]) == n && SizedInt(s[16..24]) == 0 && SizedInt(s[24..32]) == at
  {
    var s := TrailerBytes(width, refSize, n, at);
    Pow256Facts();
    assert s[8..16] == BigEndian(n, 8);
    assert s[16..24] == BigEndian(0, 8);
    assert s[24..32] == BigEndian(at, 8);
    SizedIntOfBigEndian(n, 8);
    SizedIntOfBigEndian(0, 8);
    SizedIntOfBigEndian(at, 8);
  }

  lemma WrittenTrailerIsRead(chunks: seq<seq<Byte>>)
    requires Sizable(chunks)
    ensures |Layout(chunks)| >= TRAILER_SIZE && RawTrailer(Layout(chunks)) == WrittenTrailer(chunks)
  {
    var b, t := Layout(chunks), WrittenTrailer(chunks);
    var tail := TrailerBytes(t.offsetIntSize, t.objectRefSize, |chunks|, |Body(chunks)|);
    assert b[|b| - 32..] == tail;
    TrailerOf(t.offsetIntSize, t.objectRefSize, |chunks|, |Body(chunks)|);
  }

  lemma WrittenTrailerIsSane(chunks: seq<seq<Byte>>)
    requires Sizable(chunks)
    ensures SaneTrailer(Layout(chunks), WrittenTrailer(chunks))
  {
    LayoutLength(chunks);
    MulGap(SizeFor(|Body(chunks)|), 0, |chunks|);
    StartsAt(chunks, 0);
  }

  lemma SliceOfMiddle(a: seq<Byte>, m: seq<Byte>, c: seq<Byte>, x: nat, w: nat)
    requires x + w <= |m|
    ensures (a + m + c)[|a| + x..|a| + x + w] == m[x..x + w]
  {
  }

  lemma EntryOf(b: seq<Byte>, t: Trailer, r: nat, at: nat, n: nat)
    requires SaneTrailer(b, t) && r < t.numObjects && at == t.offsetTableOffset + r * t.offsetIntSize
    requires at + t.offsetIntSize <= |b| && b[at..at + t.offsetIntSize] == BigEndian(n, t.offsetIntSize)
    requires n < Pow256(t.offsetIntSize) && n < TWO_64
    ensures TableEntry(b, t, r) == n
  {
    SizedIntOfBigEndian(n, t.offsetIntSize);
  }

  lemma EntryInPlace(chunks: seq<seq<Byte>>, t: Trailer, r: nat) returns (at: nat)
    requires r < |chunks| && t == WrittenTrailer(chunks)
    ensures at == t.offsetTableOffset + r * t.offsetIntSize
    ensures at + t.offsetIntSize <= |Layout(chunks)|
    ensures Layout(chunks)[at..at + t.offsetIntSize] == BigEndian(Starts(chunks)[r], t.offsetIntSize)
  {
    var width := SizeFor(|Body(chunks)|);
    TableAt(Starts(chunks), width, r);
    SliceOfMiddle(Body(chunks), OffsetTable(Starts(chunks), width),
                  TrailerBytes(width, SizeFor(|chunks|), |chunks|, |Body(chunks)|), r * width, width);
    at := |Body(chunks)| + r * width;
  }

  /** The reader's view of the offset table is the writer's. */
  lemma TableEntryIsStart(chunks: seq<seq<Byte>>, r: nat)
    requires Sizable(chunks) && r < |chunks|
    requires SaneTrailer(Layout(chunks), WrittenTrailer(chunks))
    ensures TableEntry(Layout(chunks), WrittenTrailer(chunks), r) == Starts(chunks)[r]
  {
    var t := WrittenTrailer(chunks);
    var at := EntryInPlace(chunks, t, r);
    StartsAt(chunks, r);
    EntryOf(Layout(chunks), t, r, at, Starts(chunks)[r]);
  }

  lemma WrittenTrailerIsAccepted(chunks: seq<seq<Byte>>)
    requires Sizable(chunks)
    ensures Accepted(Layout(chunks), WrittenTrailer(chunks))
  {
    var b, t := Layout(chunks), WrittenTrailer(chunks);
    WrittenTrailerIsSane(chunks);
    forall r | 0 <= r < t.numObjects
      ensures TableEntry(b, t, r) < t.offsetTableOffset
    {
      TableEntryIsStart(chunks, r);
      StartsAt(chunks, r);
    }
  }

  /** The validator accepts every file the writer lays out, and starts reading at the first object. */
  lemma WriterIsAccepted(chunks: seq<seq<Byte>>)
    requires Sizable(chunks)
    ensures GetTopLevelInfo(Layout(chunks)) == Some(TopLevel(Layout(chunks)[8], 8, WrittenTrailer(chunks)))
  {
    var b := Layout(chunks);
    WrittenTrailerIsRead(chunks);
    WrittenTrailerIsAccepted(chunks);
    TableInside(b, WrittenTrailer(chunks));
    TableEntryIsStart(chunks, 0);
    StartsAt(chunks, 0);
    assert chunks[..0] == [];
    assert b[..7] == HEADER[..7] == MAGIC;
  }

  /** The bytes at an object's offset are the object's encoding. */
  lemma ChunkInPlace(chunks: seq<seq<Byte>>, i: nat)
    requires i < |chunks|
    ensures var off := Starts(chunks)[i];
            && 8 <= off && off + |chunks[i]| <= |Body(chunks)| <= |Layout(chunks)|
            && Layout(chunks)[off..off + |chunks[i]|] == chunks[i]
  {
    StartsAt(chunks, i);
    var off := Starts(chunks)[i];
    assert Layout(chunks)[..|Body(chunks)|] == Body(chunks);
    assert Layout(chunks)[off..off + |chunks[i]|] == Body(chunks)[off..off + |chunks[i]|];
  }
}
