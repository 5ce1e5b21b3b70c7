/**
  Reading what was written: for every acyclic object graph, exactly what comes back.
 */
module PlistRoundTrip {
  import opened Bytes
  import opened Plist
  import opened PlistFlatten
  import opened PlistLayout
  import opened PlistEncoding
  import opened PlistGraph
  import opened PlistGraphProofs
  import opened PlistReader
  import opened PlistLayoutProofs
  import opened PlistScanProofs
  import opened Wrappers

  // ---------------------------------------------------------------- the graph that was written

  /** What the object table holds for listed object `n`, given where each object starts. */
  ghost predicate Represents(g: Graph, f: Flat, starts: seq<nat>, off: nat, n: Node) {
    && off in g.objects
    && match n {
         case Leaf(_, p) => g.objects[off] == Done(KeptPrim(p))
         case Container(_, _, kids) =>
           var item := g.objects[off];
           && item.Refs? && item.kind == KindOf(n) && |item.refs| == |kids|
           && forall j :: 0 <= j < |kids| ==>
                var r := RefOf(f.objtable, kids[j].addr);
                r < |starts| && item.refs[j] == starts[r]
       }
  }

  ghost predicate Encodes(g: Graph, f: Flat, starts: seq<nat>) {
    && |starts| == |f.objlist|
    && forall i :: 0 <= i < |starts| ==> Represents(g, f, starts, starts[i], f.objlist[i])
  }

  /** A complete and valid numbering of the graph below every listed object. */
  ghost predicate Ready(u: Uniquing, heap: map<nat, Node>, g: Graph, f: Flat, starts: seq<nat>) {
    Valid(u, heap, f) && Complete(f, 0) && Closed(g) && Encodes(g, f, starts)
  }

  lemma LeafMeans(g: Graph, f: Flat, starts: seq<nat>, off: nat, n: Node)
    requires n.Leaf? && Represents(g, f, starts, off, n)
    ensures Means(g, off, Kept(n))
  {
    assert Parse(g, off, 1) == Some(KeptPrim(n.prim));
  }

  /** Element `j` of a listed collection is itself listed, or equals a listed leaf. */
  lemma KidIsListed(u: Uniquing, heap: map<nat, Node>, g: Graph, f: Flat, starts: seq<nat>, i: nat, j: nat)
    returns (k: nat)
    requires Ready(u, heap, g, f, starts) && i < |starts|
    requires f.objlist[i].Container? && j < |f.objlist[i].kids|
    ensures k < |starts| && g.objects[starts[i]].refs[j] == starts[k]
    ensures Same(f.objlist[k], f.objlist[i].kids[j])
  {
    var n := f.objlist[i];
    assert Have(f, n.kids) && Heap(heap, n) && Heap(heap, n.kids[j]);
    k := f.objtable[n.kids[j].addr];
  }

  lemma {:induction false} ListedMeansKept(u: Uniquing, heap: map<nat, Node>, g: Graph, f: Flat, starts: seq<nat>, i: nat)
    requires Ready(u, heap, g, f, starts) && i < |starts| && KeysPrimitive(f.objlist[i])
    ensures Means(g, starts[i], Kept(f.objlist[i]))
    decreases f.objlist[i]
  {
    var n := f.objlist[i];
    if n.Leaf? {
      LeafMeans(g, f, starts, starts[i], n);
    } else {
      var item := g.objects[starts[i]];
      forall j | 0 <= j < |n.kids|
        ensures Means(g, item.refs[j], Kept(n.kids[j]))
      {
        var k := KidIsListed(u, heap, g, f, starts, i, j);
        if f.objlist[k] == n.kids[j] {
          ListedMeansKept(u, heap, g, f, starts, k);
        } else {
          LeafMeans(g, f, starts, starts[k], f.objlist[k]);
        }
      }
      var vs := Kept(n).items;
      assert GoodItems(item.kind, vs);
      CollectionMeans(g, starts[i], vs);
    }
  }

  ghost predicate Unreadable(g: Graph, off: nat) {
    forall n: nat :: Parse(g, off, n).None?
  }

  lemma CollectionKeyFails(u: Uniquing, heap: map<nat, Node>, g: Graph, f: Flat, starts: seq<nat>, i: nat, j: nat)
    requires Ready(u, heap, g, f, starts) && i < |starts| && f.objlist[i].Container? && f.objlist[i].isDict
    requires j < |f.objlist[i].kids| / 2 && f.objlist[i].kids[j].Container?
    ensures Unreadable(g, starts[i])
  {
    var k := KidIsListed(u, heap, g, f, starts, i, j);
    forall n: nat
      ensures Parse(g, starts[i], n).None?
    {
      if Parse(g, starts[i], n).Some? {
        RefsOfParse(g, starts[i], n);
        RefsOfParse(g, starts[k], n - 1);
      }
    }
  }

  lemma KidFails(g: Graph, off: nat, j: nat)
    requires off in g.objects && g.objects[off].Refs? && j < |g.objects[off].refs|
    requires Unreadable(g, g.objects[off].refs[j])
    ensures Unreadable(g, off)
  {
    forall n: nat
      ensures Parse(g, off, n).None?
    {
      if Parse(g, off, n).Some? { RefsOfParse(g, off, n); }
    }
  }

  /** A collection used as a dictionary key anywhere below makes the object unreadable. */
  lemma {:induction false} ListedMeansNothing(u: Uniquing, heap: map<nat, Node>, g: Graph, f: Flat, starts: seq<nat>, i: nat)
    requires Ready(u, heap, g, f, starts) && i < |starts| && !KeysPrimitive(f.objlist[i])
    ensures Unreadable(g, starts[i])
    decreases f.objlist[i]
  {
    var node := f.objlist[i];
    if j :| 0 <= j < |node.kids| && !KeysPrimitive(node.kids[j]) {
      var k := KidIsListed(u, heap, g, f, starts, i, j);
      ListedMeansNothing(u, heap, g, f, starts, k);
      KidFails(g, starts[i], j);
    } else {
      var j :| 0 <= j < |node.kids| / 2 && node.kids[j].Container?;
      CollectionKeyFails(u, heap, g, f, starts, i, j);
    }
  }

  // ---------------------------------------------------------------- the file

  /** The graph is no larger than the 32-bit object numbers and the reader's size arithmetic allow. */
  predicate FitsFile(u: Uniquing, root: Node) {
    var f := Flatten(u, EMPTY, root);
    |f.objlist| < TWO_32 && |Assemble(f.objlist, f.objtable)| * 8 < TWO_64
  }

  /** Everything known about the flattened graph of a root object. */
  lemma FlattenedRoot(u: Uniquing, heap: map<nat, Node>, root: Node)
    requires Heap(heap, root) && Paired(root) && Supported(root)
    ensures var f := Flatten(u, EMPTY, root);
            && Valid(u, heap, f) && Complete(f, 0) && AllKnown(f.objlist)
            && |f.objlist| > 0 && f.objlist[0] == root
  {
    FlattenKeeps(u, heap, EMPTY, root);
    FlattenListsUnknown(u, EMPTY, root);
    if root.Container? {
      AppendKeeps(u, heap, EMPTY, root);
      FlattenAllKeeps(u, heap, Append(u, EMPTY, root), root.kids);
    }
  }

  lemma ChunkIsNotEmpty(n: Node, table: map<nat, nat>, refSize: nat)
    requires refSize <= 4 && !(n.Leaf? && n.prim.Other?)
    ensures |EncodeNode(n, table, refSize)| > 0
  {
  }

  lemma ChunksAreSizable(objs: seq<Node>, table: map<nat, nat>)
    requires 0 < |objs| < TWO_32 && AllKnown(objs) && |Assemble(objs, table)| < TWO_63
    ensures Sizable(EncodeEach(objs, table, SizeFor(|objs|)))
  {
    forall i | 0 <= i < |objs|
      ensures |EncodeEach(objs, table, SizeFor(|objs|))[i]| > 0
    {
      ChunkIsNotEmpty(objs[i], table, SizeFor(|objs|));
    }
  }

  lemma {:induction false} RefsAreShort(kids: seq<Node>, table: map<nat, nat>, size: nat)
    requires 1 <= size <= 4
    ensures |kids| <= |RefsBytes(kids, table, size)|
  {
    if kids != [] {
      RefsAreShort(kids[..|kids| - 1], table, size);
    }
  }

  lemma LeafIsRead(f: Flat, chunks: seq<seq<Byte>>, b: seq<Byte>, t: Trailer, off: nat, i: nat)
    requires i < |f.objlist| < TWO_32 && f.objlist[i].Leaf? && !f.objlist[i].prim.Other? && |b| < TWO_63
    requires At(b, t, off, EncodeNode(f.objlist[i], f.objtable, SizeFor(|f.objlist|)))
    ensures Represents(Decode(b, t), f, Starts(chunks), off, f.objlist[i])
  {
    ScanOfPrim(b, t, off, f.objlist[i].prim);
    assert Lookup(Decode(b, t), off) == Scan(b, t, off);
  }

  lemma ContainerIsRead(u: Uniquing, heap: map<nat, Node>, f: Flat, chunks: seq<seq<Byte>>, b: seq<Byte>, t: Trailer,
                        off: nat, i: nat)
    requires Valid(u, heap, f) && Complete(f, 0) && i < |f.objlist| < TWO_32 && f.objlist[i].Container?
    requires |chunks| == |f.objlist| && Sizable(chunks) && |b| * 8 < TWO_64
    requires b == Layout(chunks) && t == WrittenTrailer(chunks) && Accepted(b, t)
    requires At(b, t, off, EncodeNode(f.objlist[i], f.objtable, t.objectRefSize))
    ensures Represents(Decode(b, t), f, Starts(chunks), off, f.objlist[i])
  {
    var n := f.objlist[i];
    RefsAreShort(n.kids, f.objtable, t.objectRefSize);
    assert Have(f, n.kids) && Paired(n);
    ScanOfContainer(b, t, off, n, f.objtable);
    assert Lookup(Decode(b, t), off) == Scan(b, t, off);
    forall j | 0 <= j < |n.kids|
      ensures RefOf(f.objtable, n.kids[j].addr) < |chunks|
      ensures ChildOffsets(b, t, n.kids, f.objtable)[j] == Starts(chunks)[RefOf(f.objtable, n.kids[j].addr)]
    {
      TableEntryIsStart(chunks, RefOf(f.objtable, n.kids[j].addr));
    }
  }

  lemma ObjectIsRead(u: Uniquing, heap: map<nat, Node>, f: Flat, chunks: seq<seq<Byte>>, b: seq<Byte>, t: Trailer, i: nat)
    requires Valid(u, heap, f) && Complete(f, 0) && i < |f.objlist| < TWO_32
    requires |chunks| == |f.objlist| && Sizable(chunks) && !(f.objlist[i].Leaf? && f.objlist[i].prim.Other?)
    requires chunks[i] == EncodeNode(f.objlist[i], f.objtable, SizeFor(|chunks|))
    requires b == Layout(chunks) && |b| * 8 < TWO_64 && t == WrittenTrailer(chunks) && Accepted(b, t)
    ensures Represents(Decode(b, t), f, Starts(chunks), Starts(chunks)[i], f.objlist[i])
  {
    ChunkInPlace(chunks, i);
    assert At(b, t, Starts(chunks)[i], chunks[i]);
    if f.objlist[i].Leaf? {
      LeafIsRead(f, chunks, b, t, Starts(chunks)[i], i);
    } else {
      ContainerIsRead(u, heap, f, chunks, b, t, Starts(chunks)[i], i);
    }
  }

  /** The graph the reader decodes is the graph the writer flattened. */
  lemma DecodedIsWritten(u: Uniquing, heap: map<nat, Node>, f: Flat, chunks: seq<seq<Byte>>, b: seq<Byte>, t: Trailer)
    requires Valid(u, heap, f) && Complete(f, 0) && AllKnown(f.objlist) && 0 < |f.objlist| < TWO_32
    requires chunks == EncodeEach(f.objlist, f.objtable, SizeFor(|f.objlist|)) && Sizable(chunks)
    requires b == Layout(chunks) && |b| * 8 < TWO_64 && t == WrittenTrailer(chunks) && Accepted(b, t)
    ensures Encodes(Decode(b, t), f, Starts(chunks))
  {
    forall i | 0 <= i < |f.objlist|
      ensures Represents(Decode(b, t), f, Starts(chunks), Starts(chunks)[i], f.objlist[i])
    {
      ObjectIsRead(u, heap, f, chunks, b, t, i);
    }
  }

  /** The writer refuses a graph exactly when some object in it has no encoding. */
  lemma EncodeFailsExactly(u: Uniquing, root: Node)
    requires |Flatten(u, EMPTY, root).objlist| < TWO_32
    ensures Encode(u, root).Some? <==> Supported(root)
  {
    FlattenListsUnknown(u, EMPTY, root);
  }

  /**
    The round trip, for every acyclic graph within the size limits: the reader rejects the file if a
    collection is used as a dictionary key, and otherwise returns the graph's value, with shared and
    uniqued objects in every place they were used; only the high halves of 128-bit numbers are lost.
   */
  lemma RoundTrip(u: Uniquing, heap: map<nat, Node>, root: Node, mutability: Mutability)
    requires Heap(heap, root) && Paired(root) && Supported(root) && FitsFile(u, root)
    ensures Encode(u, root).Some?
    ensures TryParse(Encode(u, root).value, mutability) == if KeysPrimitive(root) then Some(Kept(root)) else None
  {
    var f := Flatten(u, EMPTY, root);
    FlattenedRoot(u, heap, root);
    var chunks := EncodeEach(f.objlist, f.objtable, SizeFor(|f.objlist|));
    ChunksAreSizable(f.objlist, f.objtable);
    var b, t := Layout(chunks), WrittenTrailer(chunks);
    WriterIsAccepted(chunks);
    WrittenTrailerIsAccepted(chunks);
    DecodedIsWritten(u, heap, f, chunks, b, t);
    ReadFirst(u, heap, root, f, chunks, Decode(b, t), mutability);
  }

  lemma ReadFirst(u: Uniquing, heap: map<nat, Node>, root: Node, f: Flat, chunks: seq<seq<Byte>>, g: Graph,
                  mutability: Mutability)
    requires Ready(u, heap, g, f, Starts(chunks)) && |chunks| > 0 && f.objlist[0] == root
    ensures Read(g, true, mutability, 8, map[], None, 0).0 == if KeysPrimitive(root) then Some(Kept(root)) else None
  {
    StartsAt(chunks, 0);
    assert chunks[..0] == [];
    if KeysPrimitive(root) {
      ListedMeansKept(u, heap, g, f, Starts(chunks), 0);
      ReadReturnsMeaning(g, true, mutability, 8, map[], Kept(root));
    } else {
      var r := Read(g, true, mutability, 8, map[], None, 0).0;
      if r.Some? {
        ReadReturnsMeaning(g, true, mutability, 8, map[], r.value);
        var n: nat :| Parse(g, 8, n) == r;
        ListedMeansNothing(u, heap, g, f, Starts(chunks), 0);
      }
    }
  }

  /**
    Reading back gives exactly the value that was written if and only if no dictionary has a
    collection as a key and no 128-bit number lies outside the unsigned 64-bit range.
   */
  lemma RoundTripExactly(u: Uniquing, heap: map<nat, Node>, root: Node, mutability: Mutability)
    requires Heap(heap, root) && Paired(root) && Supported(root) && FitsFile(u, root)
    ensures Encode(u, root).Some?
    ensures TryParse(Encode(u, root).value, mutability) == Some(Denote(root)) <==>
            KeysPrimitive(root) && NarrowInts(root)
  {
    RoundTrip(u, heap, root, mutability);
    KeptIsDenoted(root);
  }

  lemma LeafFits(u: Uniquing, root: Node)
    requires root.Leaf? && |EncodePrim(root.prim)| < 0x1_0000
    ensures FitsFile(u, root)
  {
    var f := Flatten(u, EMPTY, root);
    assert f.objlist == [root];
    var chunks := EncodeEach(f.objlist, f.objtable, 1);
    assert chunks == [EncodePrim(root.prim)];
    LayoutLength(chunks);
    assert Concat(chunks) == Concat(chunks[..0]) + chunks[0];
  }

  /**
    A number of the 128-bit type comes back as its low 64 bits: -1 as 2^64 - 1, and 2^64 as 0.
   */
  lemma WideIntKeepsLowHalf(u: Uniquing, root: Node, mutability: Mutability)
    requires root.Leaf? && root.prim.Int128?
    ensures FitsFile(u, root) && Encode(u, root).Some?
    ensures TryParse(Encode(u, root).value, mutability) == Some(VInt(root.prim.w % TWO_64))
  {
    WideIntFits(u, root);
    hide FitsFile, Encode, TryParse;
    RoundTrip(u, map[root.addr := root], root, mutability);
  }

  lemma WideIntFits(u: Uniquing, root: Node)
    requires root.Leaf? && root.prim.Int128?
    ensures FitsFile(u, root)
  {
    hide FitsFile, BigEndian;
    assert |EncodePrim(root.prim)| == 17;
    LeafFits(u, root);
  }

  /** A dictionary whose one key is an empty array. */
  const ARRAY_KEYED := Container(1, true, [Container(2, false, []), Leaf(3, Bool(true))])

  lemma ArrayKeyedIsFlat(u: Uniquing)
    ensures Flatten(u, EMPTY, ARRAY_KEYED).objlist == [ARRAY_KEYED] + ARRAY_KEYED.kids
  {
    var f, kids := Append(u, EMPTY, ARRAY_KEYED), ARRAY_KEYED.kids;
    assert kids[..1] == [kids[0]] && kids[..1][..0] == [];
    assert FlattenAll(u, f, kids[..1]) == Append(u, f, kids[0]);
    assert FlattenAll(u, f, kids) == Append(u, Append(u, f, kids[0]), kids[1]);
  }

  lemma ConcatNext(chunks: seq<seq<Byte>>, i: nat)
    requires i < |chunks|
    ensures |Concat(chunks[..i + 1])| == |Concat(chunks[..i])| + |chunks[i]|
  {
    assert chunks[..i + 1][..i] == chunks[..i];
  }

  lemma ArrayKeyedFits(u: Uniquing)
    ensures FitsFile(u, ARRAY_KEYED)
  {
    hide Flatten, Concat, RefsBytes;
    var f := Flatten(u, EMPTY, ARRAY_KEYED);
    ArrayKeyedIsFlat(u);
    var chunks := EncodeEach(f.objlist, f.objtable, 1);
    RefsBytesAt(ARRAY_KEYED.kids, f.objtable, 1, 0);
    RefsBytesAt([], f.objtable, 1, 0);
    assert |chunks[0]| == 3 && |chunks[1]| == 1 && |chunks[2]| == 1;
    NoChunks(chunks[..0]);
    ConcatNext(chunks, 0);
    ConcatNext(chunks, 1);
    ConcatNext(chunks, 2);
    assert chunks[..3] == chunks;
    LayoutLength(chunks);
  }

  lemma NoChunks(none: seq<seq<Byte>>)
    requires none == []
    ensures Concat(none) == []
  {
  }

  /** The writer accepts that dictionary, and the reader rejects the file. */
  lemma ArrayAsKeyIsLost(u: Uniquing, mutability: Mutability)
    ensures FitsFile(u, ARRAY_KEYED) && Encode(u, ARRAY_KEYED).Some?
    ensures TryParse(Encode(u, ARRAY_KEYED).value, mutability) == None
  {
    hide FitsFile, Encode, TryParse;
    ArrayKeyedFits(u);
    var kids := ARRAY_KEYED.kids;
    RoundTrip(u, map[1 := ARRAY_KEYED, 2 := kids[0], 3 := kids[1]], ARRAY_KEYED, mutability);
    assert !KeysPrimitive(ARRAY_KEYED) by { assert kids[0].Container?; }
  }
}
