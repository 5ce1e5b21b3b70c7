/**
  Property lists: the object graph a writer is given, and the value a reader returns.

  A graph is represented by its unfolding. Every node carries the address of the object it stands
  for, so an object that is shared occurs several times, each time with the same address; `Heap`
  says that equal addresses carry equal nodes. An inductive datatype has no infinite unfolding, so
  these are exactly the acyclic object graphs.
 */
module Plist {
  import opened Bytes

  type SInt64 = x: int | -TWO_63 <= x < TWO_63
  type SInt128 = x: int | -(TWO_64 * TWO_63) <= x < TWO_64 * TWO_63
  type UInt32 = x: int | 0 <= x < TWO_32
  type Bits32 = s: seq<Byte> | |s| == 4 witness [0, 0, 0, 0]
  type Bits64 = s: seq<Byte> | |s| == 8 witness [0, 0, 0, 0, 0, 0, 0, 0]

  /** Non-container objects. A CFNumber remembers whether it was made with the 128-bit type. */
  datatype Prim =
    | Str(units: seq<Unit>)
    | Int64(i: SInt64)
    | Int128(w: SInt128)
    | Float32(bits32: Bits32)
    | Float64(bits64: Bits64)
    | Date(time: Bits64)
    | Data(bytes: seq<Byte>)
    | Bool(b: bool)
    | Uid(u: UInt32)
    | Other  // null, sets and every type the writer has no encoding for

  /** A dictionary's `kids` are its keys followed by its values, in the dictionary's own order. */
  datatype Node =
    | Leaf(addr: nat, prim: Prim)
    | Container(addr: nat, isDict: bool, kids: seq<Node>)

  datatype Kind = ArrayKind | SetKind | DictKind

  /** What a reader returns. A dictionary's `items` are its keys followed by its values. */
  datatype Value =
    | VNull
    | VBool(b: bool)
    | VInt(n: int)
    | VReal(bits: seq<Byte>)
    | VDate(time: seq<Byte>)
    | VData(bytes: seq<Byte>)
    | VStr(units: seq<Unit>)
    | VUid(u: UInt32)
    | Many(kind: Kind, items: seq<Value>)

  /** `_plistIsPrimitive` */
  predicate IsPrimitive(v: Value) {
    !v.Many?
  }

  function KindOf(n: Node): Kind
    requires n.Container?
  {
    if n.isDict then DictKind else ArrayKind
  }

  /** The property list a non-container object stands for; `Other` never reaches a file. */
  function PrimValue(p: Prim): Value {
    match p
    case Str(units) => VStr(units)
    case Int64(i) => VInt(i)
    case Int128(w) => VInt(w)
    case Float32(bits) => VReal(bits)
    case Float64(bits) => VReal(bits)
    case Date(time) => VDate(time)
    case Data(bytes) => VData(bytes)
    case Bool(b) => VBool(b)
    case Uid(u) => VUid(u)
    case Other => VNull
  }

  /** The property list an object graph stands for. */
  function Denote(n: Node): Value {
    match n
    case Leaf(_, p) => PrimValue(p)
    case Container(_, _, kids) =>
      Many(KindOf(n), seq(|kids|, i requires 0 <= i < |kids| => Denote(kids[i])))
  }

  /** The same, except that a 128-bit number keeps only its low 64 bits, read as unsigned. */
  function Kept(n: Node): Value {
    match n
    case Leaf(_, Int128(w)) => VInt(w % TWO_64)
    case Leaf(_, p) => PrimValue(p)
    case Container(_, _, kids) =>
      Many(KindOf(n), seq(|kids|, i requires 0 <= i < |kids| => Kept(kids[i])))
  }

  /** Dictionaries have as many values as keys. */
  predicate Paired(n: Node) {
    match n
    case Leaf(_, _) => true
    case Container(_, isDict, kids) =>
      && (isDict ==> |kids| % 2 == 0)
      && forall i :: 0 <= i < |kids| ==> Paired(kids[i])
  }

  /** The writer has an encoding for every object. */
  predicate Supported(n: Node) {
    match n
    case Leaf(_, p) => p != Other
    case Container(_, _, kids) => forall i :: 0 <= i < |kids| ==> Supported(kids[i])
  }

  /** No dictionary has an array or a dictionary as a key. */
  predicate KeysPrimitive(n: Node) {
    match n
    case Leaf(_, _) => true
    case Container(_, isDict, kids) =>
      && (isDict ==> forall i :: 0 <= i < |kids| / 2 ==> kids[i].Leaf?)
      && forall i :: 0 <= i < |kids| ==> KeysPrimitive(kids[i])
  }

  /** Every number made with the 128-bit type is in the unsigned 64-bit range. */
  predicate NarrowInts(n: Node) {
    match n
    case Leaf(_, p) => p.Int128? ==> 0 <= p.w < TWO_64
    case Container(_, _, kids) => forall i :: 0 <= i < |kids| ==> NarrowInts(kids[i])
  }

  /** `heap` is the memory the graph was unfolded from: one node per address. */
  predicate Heap(heap: map<nat, Node>, n: Node) {
    && n.addr in heap && heap[n.addr] == n
    && (n.Container? ==> forall i :: 0 <= i < |n.kids| ==> Heap(heap, n.kids[i]))
  }

  /** Dropping the high half loses nothing exactly when all 128-bit numbers fit in 64 bits. */
  lemma {:induction false} KeptIsDenoted(n: Node)
    ensures Kept(n) == Denote(n) <==> NarrowInts(n)
  {
    match n
    case Leaf(_, p) =>
      if p.Int128? && 0 <= p.w < TWO_64 {
        ModUnique(p.w, TWO_64, 0, p.w);
      }
    case Container(_, _, kids) =>
      forall i | 0 <= i < |kids|
        ensures Kept(kids[i]) == Denote(kids[i]) <==> NarrowInts(kids[i])
      {
        KeptIsDenoted(kids[i]);
      }
      var ks := Kept(n).items;
      var ds := Denote(n).items;
      assert |ks| == |ds| == |kids|;
      assert forall i :: 0 <= i < |kids| ==> ks[i] == Kept(kids[i]) && ds[i] == Denote(kids[i]);
      assert ks == ds <==> forall i :: 0 <= i < |kids| ==> ks[i] == ds[i];
  }
}
