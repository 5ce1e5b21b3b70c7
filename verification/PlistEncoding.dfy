/**
  The bytes of a binary property list: one encoding per object.
 */
module PlistEncoding {
  import opened Bytes
  import opened Plist
  import opened PlistFlatten
  import opened PlistLayout
  import opened Wrappers

  /** The exponent in an integer's marker: the value takes 1, 2, 4 or 8 bytes. */
  function IntLog(n: nat): (k: nat)
    ensures k <= 3
  {
    if n <= 0xff then 0 else if n <= 0xffff then 1 else if n <= 0xffff_ffff then 2 else 3
  }

  function IntBytes(n: nat): (w: nat)
    ensures w in {1, 2, 4, 8}
    ensures n < TWO_64 ==> n < Pow256(w)
  {
    Pow256Facts();
    if n <= 0xff then 1 else if n <= 0xffff then 2 else if n <= 0xffff_ffff then 4 else 8
  }

  /** `_appendInt`; a value of 2^64 or more is cut to its low 64 bits. */
  function EncodeInt(n: nat): (s: seq<Byte>)
    ensures |s| == 1 + IntBytes(n)
  {
    [0x10 + IntLog(n)] + BigEndian(n, IntBytes(n))
  }

  /** `_appendUID` */
  function EncodeUid(u: UInt32): seq<Byte> {
    [0x80 + IntBytes(u) - 1] + BigEndian(u, IntBytes(u))
  }

  /** A marker whose low four bits are the count, or 15 and then the count as an integer object. */
  function CountHead(marker: Byte, count: nat): (s: seq<Byte>)
    requires marker + 15 < 0x100
    ensures |s| > 0
  {
    if count < 15 then [marker + count] else [marker + 15] + EncodeInt(count)
  }

  predicate IsAscii(units: seq<Unit>) {
    forall i :: 0 <= i < |units| ==> units[i] < 0x80
  }

  function AsciiBytes(units: seq<Unit>): (s: seq<Byte>)
    requires IsAscii(units)
    ensures |s| == |units|
  {
    seq(|units|, i requires 0 <= i < |units| => units[i])
  }

  function UnitBytes(units: seq<Unit>): (s: seq<Byte>)
    ensures |s| == 2 * |units|
  {
    seq(2 * |units|, i requires 0 <= i < 2 * |units| => if i % 2 == 0 then units[i / 2] / 256 else units[i / 2] % 256)
  }

  /** `_appendString`: one byte per character when every character is ASCII, else two. */
  function EncodeString(units: seq<Unit>): seq<Byte> {
    if IsAscii(units) then CountHead(0x50, |units|) + AsciiBytes(units)
    else CountHead(0x60, |units|) + UnitBytes(units)
  }

  /** Two's complement in 64 and in 128 bits. */
  function Wrap64(i: SInt64): (n: nat)
    ensures n < TWO_64
  {
    if i < 0 then i + TWO_64 else i
  }

  function Wrap128(w: SInt128): (n: nat)
    ensures n < TWO_64 * TWO_64
  {
    if w < 0 then w + TWO_64 * TWO_64 else w
  }

  /** `_appendObject` for everything that is not a collection; `Other` has no encoding. */
  function EncodePrim(p: Prim): seq<Byte> {
    match p
    case Str(units) => EncodeString(units)
    case Int64(i) => EncodeInt(Wrap64(i))
    case Int128(w) => [0x14] + BigEndian(Wrap128(w) / TWO_64, 8) + BigEndian(Wrap128(w) % TWO_64, 8)
    case Float32(bits) => [0x22] + bits
    case Float64(bits) => [0x23] + bits
    case Date(time) => [0x33] + time
    case Data(bytes) => CountHead(0x40, |bytes|) + bytes
    case Bool(b) => [if b then 0x09 else 0x08]
    case Uid(u) => EncodeUid(u)
    case Other => []
  }

  /** A reference: the low bytes of the 32-bit object number. */
  function RefBytes(ref: nat, refSize: nat): (s: seq<Byte>)
    requires refSize <= 4
    ensures |s| == refSize
  {
    BigEndian(ref % TWO_32, 4)[4 - refSize..]
  }

  function RefsBytes(kids: seq<Node>, table: map<nat, nat>, refSize: nat): seq<Byte>
    requires refSize <= 4
  {
    if kids == [] then []
    else
      var k := |kids| - 1;
      RefsBytes(kids[..k], table, refSize) + RefBytes(RefOf(table, kids[k].addr), refSize)
  }

  function CountOf(n: Node): nat
    requires n.Container?
  {
    if n.isDict then |n.kids| / 2 else |n.kids|
  }

  /** `_appendObject` */
  function EncodeNode(n: Node, table: map<nat, nat>, refSize: nat): seq<Byte>
    requires refSize <= 4
  {
    match n
    case Leaf(_, p) => EncodePrim(p)
    case Container(_, isDict, kids) =>
      CountHead(if isDict then 0xD0 else 0xA0, CountOf(n)) + RefsBytes(kids, table, refSize)
  }

  /** One byte string per listed object. */
  function EncodeEach(objs: seq<Node>, table: map<nat, nat>, refSize: nat): (chunks: seq<seq<Byte>>)
    requires refSize <= 4
    ensures |chunks| == |objs|
  {
    seq(|objs|, i requires 0 <= i < |objs| => EncodeNode(objs[i], table, refSize))
  }

  /** What `__CFBinaryPlistWrite` writes; nothing at all when some object has no encoding. */
  function Encode(u: Uniquing, root: Node): Option<seq<Byte>>
    requires |Flatten(u, EMPTY, root).objlist| < TWO_32
  {
    var f := Flatten(u, EMPTY, root);
    if AllKnown(f.objlist) then Some(Assemble(f.objlist, f.objtable)) else None
  }

  /** The whole file for a list of objects and their numbers. */
  function Assemble(objs: seq<Node>, table: map<nat, nat>): seq<Byte>
    requires |objs| < TWO_32
  {
    Layout(EncodeEach(objs, table, SizeFor(|objs|)))
  }
}
