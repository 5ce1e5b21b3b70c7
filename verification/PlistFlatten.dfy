/**
  The first pass of the writer: it lists the objects of the graph in the order they will be written,
  numbers them by address, and writes one copy of leaves that the uniquing set takes to be equal.
 */
module PlistFlatten {
  import opened Plist

  /** How the uniquing set compares its members: by address, or by content. */
  datatype Uniquing = ByAddress | ByContent

  datatype Key = AtAddress(addr: nat) | WithContent(prim: Prim)

  function KeyOf(u: Uniquing, n: Node): Key
    requires n.Leaf?
  {
    if u == ByAddress then AtAddress(n.addr) else WithContent(n.prim)
  }

  /** Strings, numbers, dates and data go through the uniquing set. */
  predicate Uniqued(n: Node) {
    n.Leaf? && !n.prim.Bool? && !n.prim.Uid? && !n.prim.Other?
  }

  datatype Flat = Flat(objlist: seq<Node>, objtable: map<nat, nat>, uniquingset: map<Key, Node>)

  const EMPTY := Flat([], map[], map[])

  /** `CFDictionaryAddValue` keeps an entry that is already there. */
  function AddIfAbsent<K, V>(m: map<K, V>, k: K, v: V): map<K, V> {
    if k in m then m else m[k := v]
  }

  /** `CFDictionaryGetValue` gives 0 for an absent key. */
  function RefOf(table: map<nat, nat>, addr: nat): nat {
    if addr in table then table[addr] else 0
  }

  function Append(u: Uniquing, f: Flat, n: Node): Flat {
    Flat(f.objlist + [n], AddIfAbsent(f.objtable, n.addr, |f.objlist|),
         if Uniqued(n) then f.uniquingset[KeyOf(u, n) := n] else f.uniquingset)
  }

  /** `_flattenPlist` */
  function Flatten(u: Uniquing, f: Flat, n: Node): Flat
    decreases n
  {
    if Uniqued(n) && KeyOf(u, n) in f.uniquingset then
      var unique := f.uniquingset[KeyOf(u, n)];
      if unique.addr == n.addr then f
      else f.(objtable := AddIfAbsent(f.objtable, n.addr, RefOf(f.objtable, unique.addr)))
    else if n.Leaf? then Append(u, f, n)
    else FlattenAll(u, Append(u, f, n), n.kids)
  }

  function FlattenAll(u: Uniquing, f: Flat, ns: seq<Node>): Flat
    decreases ns
  {
    if ns == [] then f
    else Flatten(u, FlattenAll(u, f, ns[..|ns| - 1]), ns[|ns| - 1])
  }

  // ---------------------------------------------------------------- what flattening keeps

  /** The object listed for an address is that object, or a leaf with the same content. */
  predicate Same(a: Node, b: Node) {
    a == b || (a.Leaf? && b.Leaf? && a.prim == b.prim)
  }

  predicate Numbered(heap: map<nat, Node>, f: Flat) {
    forall a :: a in f.objtable ==>
      a in heap && f.objtable[a] < |f.objlist| && Same(f.objlist[f.objtable[a]], heap[a])
  }

  predicate Listed(heap: map<nat, Node>, f: Flat) {
    forall i :: 0 <= i < |f.objlist| ==> Heap(heap, f.objlist[i]) && Paired(f.objlist[i])
  }

  predicate UniquedOnce(u: Uniquing, heap: map<nat, Node>, f: Flat) {
    forall k :: k in f.uniquingset ==>
      var m := f.uniquingset[k];
      Uniqued(m) && KeyOf(u, m) == k && m.addr in f.objtable && m.addr in heap && heap[m.addr] == m
  }

  predicate Valid(u: Uniquing, heap: map<nat, Node>, f: Flat) {
    Listed(heap, f) && Numbered(heap, f) && UniquedOnce(u, heap, f)
  }

  /** Every element of a collection listed from position `from` on has a number. */
  predicate Complete(f: Flat, from: nat) {
    forall i :: from <= i < |f.objlist| && f.objlist[i].Container? ==> Have(f, f.objlist[i].kids)
  }

  predicate Have(f: Flat, ns: seq<Node>) {
    forall i :: 0 <= i < |ns| ==> ns[i].addr in f.objtable
  }

  predicate Grows(f: Flat, f': Flat) {
    && f.objlist <= f'.objlist
    && (forall a :: a in f.objtable ==> a in f'.objtable && f'.objtable[a] == f.objtable[a])
  }

  lemma AppendNumbers(u: Uniquing, heap: map<nat, Node>, f: Flat, n: Node)
    requires Numbered(heap, f) && n.addr in heap && heap[n.addr] == n
    ensures Numbered(heap, Append(u, f, n)) && Grows(f, Append(u, f, n))
    ensures n.addr in Append(u, f, n).objtable
  {
  }

  lemma AppendKeeps(u: Uniquing, heap: map<nat, Node>, f: Flat, n: Node)
    requires Valid(u, heap, f) && Heap(heap, n) && Paired(n)
    ensures Valid(u, heap, Append(u, f, n)) && Grows(f, Append(u, f, n))
    ensures n.addr in Append(u, f, n).objtable
  {
    AppendNumbers(u, heap, f, n);
    hide Numbered, Listed, UniquedOnce, Heap, Paired;
    AppendLists(u, heap, f, n);
    AppendUniques(u, heap, f, n);
  }

  lemma AppendLists(u: Uniquing, heap: map<nat, Node>, f: Flat, n: Node)
    requires Listed(heap, f) && Heap(heap, n) && Paired(n)
    ensures Listed(heap, Append(u, f, n))
  {
    hide Heap, Paired;
  }

  lemma AppendUniques(u: Uniquing, heap: map<nat, Node>, f: Flat, n: Node)
    requires UniquedOnce(u, heap, f) && Heap(heap, n)
    ensures UniquedOnce(u, heap, Append(u, f, n))
  {
    var f' := Append(u, f, n);
    assert n.addr in heap && heap[n.addr] == n;
    hide Heap;
    forall k | k in f'.uniquingset
      ensures var m := f'.uniquingset[k];
              Uniqued(m) && KeyOf(u, m) == k && m.addr in f'.objtable && m.addr in heap && heap[m.addr] == m
    {
    }
  }

  /** A leaf that the uniquing set already holds gets the number of the member it equals. */
  lemma ShareKeeps(u: Uniquing, heap: map<nat, Node>, f: Flat, n: Node)
    requires Valid(u, heap, f) && n.addr in heap && heap[n.addr] == n
    requires Uniqued(n) && KeyOf(u, n) in f.uniquingset
    ensures var f' := Flatten(u, f, n);
            && Numbered(heap, f') && UniquedOnce(u, heap, f') && Grows(f, f')
            && f'.objlist == f.objlist && n.addr in f'.objtable
  {
    var unique := f.uniquingset[KeyOf(u, n)];
    assert heap[unique.addr] == unique && Same(f.objlist[f.objtable[unique.addr]], n);
  }

  /** Flattening keeps the numbering valid and numbers the node and everything below it. */
  lemma {:induction false} FlattenKeeps(u: Uniquing, heap: map<nat, Node>, f: Flat, n: Node)
    requires Valid(u, heap, f) && Heap(heap, n) && Paired(n)
    ensures var f' := Flatten(u, f, n);
            Valid(u, heap, f') && Grows(f, f') && n.addr in f'.objtable && Complete(f', |f.objlist|)
    decreases n
  {
    if Uniqued(n) && KeyOf(u, n) in f.uniquingset {
      ShareKeeps(u, heap, f, n);
    } else {
      AppendKeeps(u, heap, f, n);
      if n.Container? {
        var f1 := Append(u, f, n);
        FlattenAllKeeps(u, heap, f1, n.kids);
        var f' := FlattenAll(u, f1, n.kids);
        assert f'.objlist[|f.objlist|] == n;
      }
    }
  }

  lemma {:induction false} FlattenAllKeeps(u: Uniquing, heap: map<nat, Node>, f: Flat, ns: seq<Node>)
    requires Valid(u, heap, f) && forall i :: 0 <= i < |ns| ==> Heap(heap, ns[i]) && Paired(ns[i])
    ensures var f' := FlattenAll(u, f, ns);
            Valid(u, heap, f') && Grows(f, f') && Have(f', ns) && Complete(f', |f.objlist|)
    decreases ns
  {
    if ns != [] {
      var front, last := ns[..|ns| - 1], ns[|ns| - 1];
      FlattenAllKeeps(u, heap, f, front);
      var f1 := FlattenAll(u, f, front);
      FlattenKeeps(u, heap, f1, last);
      var f' := Flatten(u, f1, last);
      GrowsKeepsComplete(f1, f', |f.objlist|);
      GrowsKeepsHave(f1, f', ns);
    }
  }

  lemma GrowsKeepsHave(f: Flat, f': Flat, ns: seq<Node>)
    requires ns != [] && Grows(f, f') && Have(f, ns[..|ns| - 1]) && ns[|ns| - 1].addr in f'.objtable
    ensures Have(f', ns)
  {
    forall i | 0 <= i < |ns|
      ensures ns[i].addr in f'.objtable
    {
      if i < |ns| - 1 { assert ns[..|ns| - 1][i] == ns[i]; }
    }
  }

  lemma GrowsKeepsComplete(f: Flat, f': Flat, from: nat)
    requires from <= |f.objlist| && Grows(f, f') && Complete(f, from) && Complete(f', |f.objlist|)
    ensures Complete(f', from)
  {
    forall i | from <= i < |f'.objlist| && f'.objlist[i].Container?
      ensures Have(f', f'.objlist[i].kids)
    {
      if i < |f.objlist| { assert f'.objlist[i] == f.objlist[i]; }
    }
  }

  predicate AllKnown(ns: seq<Node>) {
    forall i :: 0 <= i < |ns| ==> !(ns[i].Leaf? && ns[i].prim.Other?)
  }

  /** An object without an encoding anywhere in the graph ends up in the list. */
  lemma {:induction false} FlattenListsUnknown(u: Uniquing, f: Flat, n: Node)
    ensures AllKnown(Flatten(u, f, n).objlist) <==> AllKnown(f.objlist) && Supported(n)
    decreases n
  {
    if !(Uniqued(n) && KeyOf(u, n) in f.uniquingset) {
      var f1 := Append(u, f, n);
      assert f1.objlist[..|f.objlist|] == f.objlist && f1.objlist[|f.objlist|] == n;
      if n.Container? {
        FlattenAllListsUnknown(u, f1, n.kids);
      }
    }
  }

  lemma {:induction false} FlattenAllListsUnknown(u: Uniquing, f: Flat, ns: seq<Node>)
    ensures AllKnown(FlattenAll(u, f, ns).objlist) <==>
            AllKnown(f.objlist) && forall i :: 0 <= i < |ns| ==> Supported(ns[i])
    decreases ns
  {
    if ns != [] {
      var front := ns[..|ns| - 1];
      FlattenAllListsUnknown(u, f, front);
      FlattenListsUnknown(u, FlattenAll(u, f, front), ns[|ns| - 1]);
      assert forall i :: 0 <= i < |front| ==> front[i] == ns[i];
    }
  }

  /** Each value that goes through the uniquing set is listed once and is in the set. */
  predicate ListedOnce(u: Uniquing, f: Flat) {
    && (forall i :: 0 <= i < |f.objlist| && Uniqued(f.objlist[i]) ==> KeyOf(u, f.objlist[i]) in f.uniquingset)
    && (forall i, j :: 0 <= i < j < |f.objlist| && Uniqued(f.objlist[i]) && Uniqued(f.objlist[j]) ==>
          KeyOf(u, f.objlist[i]) != KeyOf(u, f.objlist[j]))
  }

  lemma {:induction false} FlattenListsOnce(u: Uniquing, f: Flat, n: Node)
    requires ListedOnce(u, f)
    ensures ListedOnce(u, Flatten(u, f, n))
    decreases n
  {
    if !(Uniqued(n) && KeyOf(u, n) in f.uniquingset) && n.Container? {
      FlattenAllListsOnce(u, Append(u, f, n), n.kids);
    }
  }

  lemma {:induction false} FlattenAllListsOnce(u: Uniquing, f: Flat, ns: seq<Node>)
    requires ListedOnce(u, f)
    ensures ListedOnce(u, FlattenAll(u, f, ns))
    decreases ns
  {
    if ns != [] {
      FlattenAllListsOnce(u, f, ns[..|ns| - 1]);
      FlattenListsOnce(u, FlattenAll(u, f, ns[..|ns| - 1]), ns[|ns| - 1]);
    }
  }

  // ---------------------------------------------------------------- the pass itself

  /** The three collections `_flattenPlist` fills. */
  class Flattener {
    const uniquing: Uniquing
    var objlist: seq<Node>
    var objtable: map<nat, nat>
    var uniquingset: map<Key, Node>

    constructor (u: Uniquing)
      ensures uniquing == u && State() == EMPTY
    {
      uniquing := u;
      objlist, objtable, uniquingset := [], map[], map[];
    }

    function State(): Flat
      reads this
    {
      Flat(objlist, objtable, uniquingset)
    }

    method Run(plist: Node)
      modifies this
      ensures State() == Flatten(uniquing, old(State()), plist)
      decreases plist
    {
      if Uniqued(plist) {
        var before := |uniquingset|;
        var key := KeyOf(uniquing, plist);
        uniquingset := AddIfAbsent(uniquingset, key, plist);
        if |uniquingset| == before {
          AddIfAbsentSize(old(uniquingset), key, plist);
          var unique := uniquingset[key];
          if unique.addr != plist.addr {
            var refnum := RefOf(objtable, unique.addr);
            objtable := AddIfAbsent(objtable, plist.addr, refnum);
          }
          return;
        }
        AddIfAbsentSize(old(uniquingset), key, plist);
      }
      var refnum := |objlist|;
      objlist := objlist + [plist];
      objtable := AddIfAbsent(objtable, plist.addr, refnum);
      if plist.Container? {
        ghost var start := State();
        var idx := 0;
        while idx < |plist.kids|
          invariant 0 <= idx <= |plist.kids|
          invariant State() == FlattenAll(uniquing, start, plist.kids[..idx])
        {
          assert plist.kids[..idx + 1][..idx] == plist.kids[..idx];
          Run(plist.kids[idx]);
          idx := idx + 1;
        }
        assert plist.kids[..idx] == plist.kids;
      }
    }
  }

  lemma AddIfAbsentSize<K, V>(m: map<K, V>, k: K, v: V)
    ensures |AddIfAbsent(m, k, v)| == |m| <==> k in m
  {
    if k !in m {
      assert m[k := v].Keys == m.Keys + {k};
    }
  }
}
