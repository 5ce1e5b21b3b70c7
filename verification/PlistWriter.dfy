/**
  The writer: a fixed-size buffer in front of a destination that may fail, and the encoding routines
  that go through it. They are proved to produce the bytes that `PlistEncoding` defines.
 */
module PlistWriter {
  import opened Bytes
  import opened Plist
  import opened PlistFlatten
  import opened PlistLayout
  import opened PlistEncoding
  import opened Wrappers

  const BUFFER_SIZE := 8192 - 32

  /** Writing failed exactly when it went to a stream whose last reply asked for was the first of zero or less. */
  predicate Refused(isData: bool, replies: seq<int>, asked: nat, failed: bool) {
    && asked <= |replies| && (isData ==> asked == 0)
    && (forall i :: 0 <= i < asked - 1 ==> 0 < replies[i])
    && (failed <==> 0 < asked && replies[asked - 1] <= 0)
  }

  /**
    `__CFBinaryPlistWriteBuffer`. `stream` is what has reached the destination. A data object takes
    everything; the answers of a write stream, one per call, are in `allReplies`, of which `asked` have
    been given, and a stream that has run out of answers takes everything too.
   */
  class WriteBuffer {
    const streamIsData: bool
    const allReplies: seq<int>
    var stream: seq<Byte>
    var asked: nat
    var error: bool
    var written: nat
    var used: nat
    const buffer: array<Byte>

    /** Everything handed to the buffer so far. */
    ghost var content: seq<Byte>

    ghost predicate Valid()
      reads this, buffer
    {
      && buffer.Length == BUFFER_SIZE && used < BUFFER_SIZE
      && written == |stream| && stream <= content
      && (!error ==> stream + buffer[..used] == content)
      && ErrorIsEarned()
    }

    constructor (isData: bool, replies: seq<int>)
      ensures Valid() && fresh(buffer)
      ensures content == [] && !error && stream == [] && used == 0
      ensures streamIsData == isData && allReplies == replies
    {
      streamIsData, allReplies := isData, replies;
      stream, asked, error, written, used := [], 0, false, 0, 0;
      buffer := new Byte[BUFFER_SIZE](_ => 0);
      content := [];
    }

    /** There is an error exactly when the last reply that was asked for refused; those before it did not. */
    predicate ErrorIsEarned()
      reads this
    {
      Refused(streamIsData, allReplies, asked, error)
    }

    /** `writeBytes` */
    method WriteBytes(bytes: seq<Byte>)
      requires written == |stream| && ErrorIsEarned()
      modifies this`stream, this`asked, this`error, this`written
      ensures old(error) ==> error && stream == old(stream)
      ensures ErrorIsEarned() && written == |stream| && (!error ==> stream == old(stream) + bytes)
      ensures old(stream) <= stream <= old(stream) + bytes
    {
      if |bytes| == 0 {
        assert stream + bytes == stream;
        return;
      }
      if error { return; }
      if streamIsData {
        stream := stream + bytes;
        written := written + |bytes|;
        return;
      }
      var done := 0;
      while done < |bytes|
        invariant 0 <= done <= |bytes| && !error
        invariant stream == old(stream) + bytes[..done] && written == |stream|
        invariant ErrorIsEarned()
        decreases |bytes| - done
      {
        var ret := |bytes| - done;
        if asked < |allReplies| {
          ret := if allReplies[asked] < ret then allReplies[asked] else ret;
          asked := asked + 1;
        }
        if ret <= 0 {
          error := true;
          return;
        }
        assert bytes[..done] + bytes[done..done + ret] == bytes[..done + ret];
        stream := stream + bytes[done..done + ret];
        written := written + ret;
        done := done + ret;
      }
      assert bytes[..done] == bytes;
    }

    /** `bufferFlush` */
    method Flush()
      requires Valid()
      modifies this`stream, this`asked, this`error, this`written, this`used
      ensures Valid() && used == 0
      ensures old(error) ==> error && stream == old(stream)
      ensures !error ==> stream == content
    {
      WriteBytes(buffer[..used]);
      used := 0;
      assert stream + buffer[..0] == stream;
    }

    /** Copies into the buffer; `memmove` or its unrolled form for four bytes and fewer. */
    method Fill(bytes: seq<Byte>, at: nat)
      requires at + |bytes| <= buffer.Length
      modifies buffer
      ensures buffer[..at] == old(buffer[..at]) && buffer[at..at + |bytes|] == bytes
    {
      forall i | 0 <= i < |bytes| {
        buffer[at + i] := bytes[i];
      }
    }

    /** `bufferWrite`: the destination and the buffer together always hold what was written. */
    method Write(bytes: seq<Byte>)
      requires Valid()
      modifies this, buffer
      ensures Valid() && content == old(content) + bytes
      ensures old(error) ==> error && stream == old(stream)
    {
      ghost var before, held := stream, buffer[..used];
      if |bytes| == 0 {
        assert content + bytes == content;
        return;
      }
      if BUFFER_SIZE <= |bytes| {
        Flush();
        content := content + bytes;
        WriteBytes(bytes);
        assert stream + buffer[..0] == stream;
        return;
      }
      var copyLen := if |bytes| < BUFFER_SIZE - used then |bytes| else BUFFER_SIZE - used;
      Fill(bytes[..copyLen], used);
      assert buffer[..used + copyLen] == held + bytes[..copyLen];
      content := content + bytes;
      used := used + copyLen;
      if used == BUFFER_SIZE {
        assert buffer[..] == held + bytes[..copyLen];
        WriteBytes(buffer[..]);
        assert before + (held + bytes[..copyLen]) + bytes[copyLen..] == (before + held) + bytes;
        Fill(bytes[copyLen..], 0);
        assert buffer[..|bytes| - copyLen] == bytes[copyLen..];
        used := |bytes| - copyLen;
      } else {
        assert bytes[..copyLen] == bytes;
        assert before + (held + bytes) == (before + held) + bytes;
      }
    }

    /** `_appendInt` */
    method AppendInt(bigint: nat)
      requires Valid() && bigint < TWO_64
      modifies this, buffer
      ensures Valid() && content == old(content) + EncodeInt(bigint)
      ensures old(error) ==> error && stream == old(stream)
    {
      var nbytes, marker;
      if bigint <= 0xff {
        nbytes, marker := 1, 0x10;
      } else if bigint <= 0xffff {
        nbytes, marker := 2, 0x11;
      } else if bigint <= 0xffff_ffff {
        nbytes, marker := 4, 0x12;
      } else {
        nbytes, marker := 8, 0x13;
      }
      BigEndianTail(bigint, 8, nbytes);
      Write([marker]);
      Write(BigEndian(bigint, 8)[8 - nbytes..]);
      Assoc(old(content), [marker], BigEndian(bigint, nbytes));
    }

    /** `_appendUID` */
    method AppendUid(uid: UInt32)
      requires Valid()
      modifies this, buffer
      ensures Valid() && content == old(content) + EncodeUid(uid)
      ensures old(error) ==> error && stream == old(stream)
    {
      var nbytes := if uid <= 0xff then 1 else if uid <= 0xffff then 2 else 4;
      BigEndianTail(uid, 8, nbytes);
      Write([0x80 + nbytes - 1]);
      Write(BigEndian(uid, 8)[8 - nbytes..]);
      Assoc(old(content), [0x80 + nbytes - 1], BigEndian(uid, nbytes));
    }

    method AppendCount(marker: Byte, count: nat)
      requires Valid() && marker + 15 < 0x100 && count < TWO_64
      modifies this, buffer
      ensures Valid() && content == old(content) + CountHead(marker, count)
      ensures old(error) ==> error && stream == old(stream)
    {
      Write([marker + if count < 15 then count else 15]);
      if 15 <= count {
        AppendInt(count);
        Assoc(old(content), [marker + 15], EncodeInt(count));
      }
    }

    method AppendCounted(marker: Byte, count: nat, payload: seq<Byte>)
      requires Valid() && marker + 15 < 0x100 && count < TWO_64
      modifies this, buffer
      ensures Valid() && content == old(content) + (CountHead(marker, count) + payload)
      ensures old(error) ==> error && stream == old(stream)
    {
      AppendCount(marker, count);
      Write(payload);
      Assoc(old(content), CountHead(marker, count), payload);
    }

    /** `_appendString` */
    method AppendString(units: seq<Unit>)
      requires Valid() && |units| < TWO_63
      modifies this, buffer
      ensures Valid() && content == old(content) + EncodeString(units)
      ensures |old(content)| < |content|
      ensures content[|old(content)|] / 16 == if forall i :: 0 <= i < |units| ==> units[i] < 0x80 then 5 else 6
      ensures old(error) ==> error && stream == old(stream)
    {
      if IsAscii(units) {
        AppendCounted(0x50, |units|, AsciiBytes(units));
      } else {
        AppendCounted(0x60, |units|, UnitBytes(units));
      }
    }

    method WriteTagged(marker: Byte, payload: seq<Byte>)
      requires Valid()
      modifies this, buffer
      ensures Valid() && content == old(content) + ([marker] + payload)
      ensures old(error) ==> error && stream == old(stream)
    {
      Write([marker]);
      Write(payload);
      Assoc(old(content), [marker], payload);
    }

    /** `_appendNumber` */
    method AppendNumber(p: Prim)
      requires Valid() && (p.Int64? || p.Int128? || p.Float32? || p.Float64?)
      modifies this, buffer
      ensures Valid() && content == old(content) + EncodePrim(p)
      ensures old(error) ==> error && stream == old(stream)
    {
      match p
      case Int64(i) => AppendInt(Wrap64(i));
      case Int128(w) =>
        var high, low := BigEndian(Wrap128(w) / TWO_64, 8), BigEndian(Wrap128(w) % TWO_64, 8);
        assert [0x14] + high + low == [0x14] + (high + low);
        WriteTagged(0x14, high + low);
      case Float32(bits) => WriteTagged(0x22, bits);
      case Float64(bits) => WriteTagged(0x23, bits);
    }

    /** `_appendObject` for objects that are not collections; false when there is no encoding. */
    method AppendPrim(p: Prim) returns (ok: bool)
      requires Valid()
      requires p.Str? ==> |p.units| < TWO_63
      requires p.Data? ==> |p.bytes| < TWO_63
      modifies this, buffer
      ensures Valid() && content == old(content) + EncodePrim(p)
      ensures ok <==> p != Other
      ensures old(error) ==> error && stream == old(stream)
    {
      ok := true;
      match p
      case Str(units) => AppendString(units);
      case Date(time) => WriteTagged(0x33, time);
      case Data(bytes) => AppendCounted(0x40, |bytes|, bytes);
      case Bool(b) => Write([if b then 0x09 else 0x08]);
      case Uid(u) => AppendUid(u);
      case Other =>
        ok := false;
        assert content + [] == content;
      case _ => AppendNumber(p);
    }

    /** The reference loop of `_appendObject` */
    method AppendRefs(kids: seq<Node>, objtable: map<nat, nat>, objRefSize: nat)
      requires Valid() && objRefSize <= 4
      modifies this, buffer
      ensures Valid() && content == old(content) + RefsBytes(kids, objtable, objRefSize)
      ensures old(error) ==> error && stream == old(stream)
    {
      var idx := 0;
      while idx < |kids|
        invariant 0 <= idx <= |kids| && Valid()
        invariant content == old(content) + RefsBytes(kids[..idx], objtable, objRefSize)
        invariant old(error) ==> error && stream == old(stream)
      {
        var refnum := RefOf(objtable, kids[idx].addr) % TWO_32;
        var ref := BigEndian(refnum, 4)[4 - objRefSize..];
        Write(ref);
        NextRef(kids, objtable, objRefSize, idx);
        Assoc(old(content), RefsBytes(kids[..idx], objtable, objRefSize), ref);
        idx := idx + 1;
      }
      assert kids[..idx] == kids;
    }

    /** `_appendObject` with an object table */
    method AppendObject(obj: Node, objtable: map<nat, nat>, objRefSize: nat) returns (ok: bool)
      requires Valid() && objRefSize <= 4 && Countable(obj)
      modifies this, buffer
      ensures Valid() && content == old(content) + EncodeNode(obj, objtable, objRefSize)
      ensures ok <==> !(obj.Leaf? && obj.prim.Other?)
      ensures old(error) ==> error && stream == old(stream)
    {
      if obj.Leaf? {
        ok := AppendPrim(obj.prim);
      } else {
        ok := true;
        AppendCount(if obj.isDict then 0xD0 else 0xA0, CountOf(obj));
        AppendRefs(obj.kids, objtable, objRefSize);
        Assoc(old(content), CountHead(if obj.isDict then 0xD0 else 0xA0, CountOf(obj)),
              RefsBytes(obj.kids, objtable, objRefSize));
      }
    }
  }

  lemma Assoc(a: seq<Byte>, b: seq<Byte>, c: seq<Byte>)
    ensures a + b + c == a + (b + c)
  {
  }

  lemma PrefixPlus(a: seq<Byte>, b: seq<Byte>, c: seq<Byte>, full: seq<Byte>)
    requires b <= c
    ensures a + c <= full ==> a + b <= full
  {
    assert a + b <= a + c;
  }

  lemma NextRef(kids: seq<Node>, table: map<nat, nat>, refSize: nat, i: nat)
    requires i < |kids| && refSize <= 4
    ensures RefsBytes(kids[..i + 1], table, refSize)
         == RefsBytes(kids[..i], table, refSize) + RefBytes(RefOf(table, kids[i].addr), refSize)
  {
    assert kids[..i + 1][..i] == kids[..i];
  }

  /** Lengths are signed 64-bit integers. */
  predicate Countable(n: Node) {
    match n
    case Leaf(_, Str(units)) => |units| < TWO_63
    case Leaf(_, Data(bytes)) => |bytes| < TWO_63
    case Leaf(_, _) => true
    case Container(_, _, kids) => |kids| < TWO_63
  }

  /** The object loop of `__CFBinaryPlistWrite`, which notes where each object starts. */
  method WriteObjects(buf: WriteBuffer, objs: seq<Node>, table: map<nat, nat>, refSize: nat,
                      ghost chunks: seq<seq<Byte>>, ghost full: seq<Byte>)
    returns (ok: bool, offsets: seq<nat>)
    requires buf.Valid() && buf.stream <= full && refSize <= 4 && (!buf.error ==> buf.content == HEADER)
    requires forall i :: 0 <= i < |objs| ==> Countable(objs[i])
    requires chunks == EncodeEach(objs, table, refSize) && Body(chunks) <= full
    modifies buf, buf.buffer
    ensures buf.Valid() && buf.stream <= full
    ensures ok <==> AllKnown(objs)
    ensures ok ==> |offsets| == |objs|
    ensures ok && !buf.error ==> buf.content == Body(chunks) && offsets == Starts(chunks)
  {
    var idx := 0;
    offsets := [];
    while idx < |objs|
      invariant 0 <= idx <= |objs| && |offsets| == idx && buf.Valid() && buf.stream <= full
      invariant AllKnown(objs[..idx])
      invariant !buf.error ==> buf.content == Body(chunks[..idx]) && offsets == Starts(chunks[..idx])
    {
      NextChunk(chunks, idx);
      var start;
      ok, start := WriteObject(buf, objs[idx], table, refSize, chunks[idx], full);
      if !ok { return; }
      offsets := offsets + [start];
      AllKnownNext(objs, idx);
      idx := idx + 1;
    }
    ok := true;
    assert objs[..idx] == objs && chunks[..idx] == chunks;
  }

  method WriteObject(buf: WriteBuffer, obj: Node, table: map<nat, nat>, refSize: nat,
                     ghost chunk: seq<Byte>, ghost full: seq<Byte>)
    returns (ok: bool, start: nat)
    requires buf.Valid() && buf.stream <= full && refSize <= 4 && Countable(obj)
    requires chunk == EncodeNode(obj, table, refSize) && (!buf.error ==> buf.content + chunk <= full)
    modifies buf, buf.buffer
    ensures buf.Valid() && buf.stream <= full && (old(buf.error) ==> buf.error)
    ensures ok <==> !(obj.Leaf? && obj.prim.Other?)
    ensures !buf.error ==> buf.content == old(buf.content) + chunk && start == |old(buf.content)|
  {
    start := buf.written + buf.used;
    ok := buf.AppendObject(obj, table, refSize);
  }

  lemma AllKnownNext(objs: seq<Node>, i: nat)
    requires i < |objs| && AllKnown(objs[..i]) && !(objs[i].Leaf? && objs[i].prim.Other?)
    ensures AllKnown(objs[..i + 1])
  {
    assert objs[..i + 1] == objs[..i] + [objs[i]];
  }

  /** The offset table loop of `__CFBinaryPlistWrite`. */
  method WriteOffsets(buf: WriteBuffer, offsets: seq<nat>, width: nat, ghost full: seq<Byte>)
    requires buf.Valid() && width <= 8 && buf.stream <= full
    requires !buf.error ==> buf.content + OffsetTable(offsets, width) <= full
    modifies buf, buf.buffer
    ensures buf.Valid() && buf.stream <= full && (old(buf.error) ==> buf.error)
    ensures !buf.error ==> buf.content == old(buf.content) + OffsetTable(offsets, width)
  {
    ghost var base := buf.content;
    var idx := 0;
    while idx < |offsets|
      invariant 0 <= idx <= |offsets| && buf.Valid() && buf.stream <= full && (old(buf.error) ==> buf.error)
      invariant !buf.error ==> buf.content == base + OffsetTable(offsets[..idx], width)
    {
      BigEndianTail(offsets[idx], 8, width);
      NextOffset(offsets, width, idx);
      var entry := BigEndian(offsets[idx], 8)[8 - width..];
      Assoc(base, OffsetTable(offsets[..idx], width), entry);
      PrefixPlus(base, OffsetTable(offsets[..idx + 1], width), OffsetTable(offsets, width), full);
      buf.Write(entry);
      idx := idx + 1;
    }
    assert offsets[..idx] == offsets;
  }

  /** The end of `__CFBinaryPlistWrite`: offset table, trailer and flush. */
  method Finish(buf: WriteBuffer, offsets: seq<nat>, refSize: Byte, width: Byte, tableOffset: nat, ghost full: seq<Byte>)
    requires buf.Valid() && width <= 8 && buf.stream <= full
    requires !buf.error ==>
               full == buf.content + OffsetTable(offsets, width) + TrailerBytes(width, refSize, |offsets|, tableOffset)
    modifies buf, buf.buffer
    ensures buf.stream <= full && (old(buf.error) ==> buf.error)
    ensures buf.ErrorIsEarned()
    ensures !buf.error ==> buf.stream == full
  {
    WriteOffsets(buf, offsets, width, full);
    buf.Write(TrailerBytes(width, refSize, |offsets|, tableOffset));
    buf.Flush();
  }

  /** `__CFBinaryPlistWrite` after the flattening pass. */
  method WriteFile(objs: seq<Node>, table: map<nat, nat>, isData: bool, replies: seq<int>)
    returns (length: nat, sink: seq<Byte>, ghost asked: nat)
    requires |objs| < TWO_32 && |Assemble(objs, table)| < TWO_63
    requires forall i :: 0 <= i < |objs| ==> Countable(objs[i])
    ensures !AllKnown(objs) ==> length == 0
    ensures sink <= Assemble(objs, table)
    ensures length != 0 ==> sink == Assemble(objs, table) && length == |sink|
    ensures AllKnown(objs) ==> Refused(isData, replies, asked, length == 0)
  {
    ghost var full := Assemble(objs, table);
    var cnt := |objs|;
    var buf := new WriteBuffer(isData, replies);
    buf.Write(HEADER);
    var refSize := ByteCount(cnt);
    ghost var chunks := EncodeEach(objs, table, refSize);
    assert HEADER <= Body(chunks) <= full;
    var ok, offsets := WriteObjects(buf, objs, table, refSize, chunks, full);
    if !ok {
      return 0, buf.stream, buf.asked;
    }
    var tableOffset := buf.written + buf.used;
    assert !buf.error ==> tableOffset == |Body(chunks)|;
    var width := ByteCount(tableOffset);
    Finish(buf, offsets, refSize, width, tableOffset, full);
    asked := buf.asked;
    if buf.error {
      return 0, buf.stream, asked;
    }
    LayoutLength(chunks);
    length, sink := tableOffset + cnt * width + 32, buf.stream;
  }

  /**
    `__CFBinaryPlistWrite`. A non-zero length means that the destination received the whole file;
    whatever the destination answers, it never holds anything but a prefix of it. Of the replies of a
    stream, `asked` were needed.
   */
  method WritePlist(u: Uniquing, plist: Node, isData: bool, replies: seq<int>)
    returns (length: nat, sink: seq<Byte>, ghost asked: nat)
    requires var f := Flatten(u, EMPTY, plist);
             && |f.objlist| < TWO_32
             && |Assemble(f.objlist, f.objtable)| < TWO_63
             && forall i :: 0 <= i < |f.objlist| ==> Countable(f.objlist[i])
    ensures Encode(u, plist).None? ==> length == 0
    ensures Encode(u, plist).Some? ==> sink <= Encode(u, plist).value
    ensures Encode(u, plist).Some? && length != 0 ==> sink == Encode(u, plist).value && length == |sink|
    ensures Encode(u, plist).Some? ==> Refused(isData, replies, asked, length == 0)
  {
    var flattener := new Flattener(u);
    flattener.Run(plist);
    length, sink, asked := WriteFile(flattener.objlist, flattener.objtable, isData, replies);
  }
}
