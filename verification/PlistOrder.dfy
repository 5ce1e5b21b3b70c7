/** Which objects of a graph the writer lists, and in which order, said without its uniquing set. */
module PlistOrder {
  import opened Plist
  import opened PlistFlatten

  /** The objects of a graph as they are met: each one before its elements. */
  function Preorder(n: Node): seq<Node>
    decreases n
  {
    [n] + if n.Leaf? then [] else PreorderAll(n.kids)
  }

  function PreorderAll(ns: seq<Node>): seq<Node>
    decreases ns
  {
    if ns == [] then [] else PreorderAll(ns[..|ns| - 1]) + Preorder(ns[|ns| - 1])
  }

  /** Strings, numbers, dates and data are written once. */
  predicate Shared(n: Node) {
    n.Leaf? && (n.prim.Str? || n.prim.Int64? || n.prim.Int128? || n.prim.Float32? || n.prim.Float64? || n.prim.Date? || n.prim.Data?)
  }

  /** Two of them that are taken to be the same object. */
  predicate Alike(u: Uniquing, a: Node, b: Node) {
    Shared(a) && Shared(b) && if u == ByAddress then a.addr == b.addr else a.prim == b.prim
  }

  predicate Met(u: Uniquing, seen: seq<Node>, n: Node) {
    exists i :: 0 <= i < |seen| && Alike(u, seen[i], n)
  }

  /** The objects that are not like one met before. */
  function Firsts(u: Uniquing, s: seq<Node>): seq<Node> {
    if s == [] then []
    else
      var front, last := s[..|s| - 1], s[|s| - 1];
      Firsts(u, front) + if Met(u, front, last) then [] else [last]
  }

  /** The list and the set after the objects in `seen`. */
  ghost predicate Follows(u: Uniquing, f: Flat, seen: seq<Node>) {
    && f.objlist == Firsts(u, seen)
    && forall n :: Shared(n) ==> (KeyOf(u, n) in f.uniquingset <==> Met(u, seen, n))
  }

  lemma SharedIsUniqued(n: Node)
    ensures Shared(n) <==> Uniqued(n)
  {
  }

  lemma AlikeIsSameKey(u: Uniquing, a: Node, b: Node)
    requires Shared(a) && Shared(b)
    ensures Alike(u, a, b) <==> KeyOf(u, a) == KeyOf(u, b)
  {
  }

  lemma MetNext(u: Uniquing, seen: seq<Node>, x: Node, n: Node)
    ensures Met(u, seen + [x], n) <==> Met(u, seen, n) || Alike(u, x, n)
  {
    var all := seen + [x];
    if Met(u, seen, n) {
      var i :| 0 <= i < |seen| && Alike(u, seen[i], n);
      assert all[i] == seen[i];
    }
    if Alike(u, x, n) { assert all[|seen|] == x; }
  }

  lemma FirstsNext(u: Uniquing, seen: seq<Node>, x: Node)
    ensures Firsts(u, seen + [x]) == Firsts(u, seen) + if Met(u, seen, x) then [] else [x]
  {
    assert (seen + [x])[..|seen|] == seen;
  }

  /** Listing one object. */
  lemma AppendFollows(u: Uniquing, f: Flat, seen: seq<Node>, x: Node)
    requires Follows(u, f, seen) && !Met(u, seen, x)
    ensures Follows(u, Append(u, f, x), seen + [x])
  {
    FirstsNext(u, seen, x);
    SharedIsUniqued(x);
    forall n | Shared(n)
      ensures KeyOf(u, n) in Append(u, f, x).uniquingset <==> Met(u, seen + [x], n)
    {
      MetNext(u, seen, x, n);
      if Shared(x) { AlikeIsSameKey(u, x, n); }
    }
  }

  /** Meeting an object that is not listed again. */
  lemma ShareFollows(u: Uniquing, f: Flat, f': Flat, seen: seq<Node>, x: Node)
    requires Follows(u, f, seen) && Met(u, seen, x) && f'.objlist == f.objlist && f'.uniquingset == f.uniquingset
    ensures Follows(u, f', seen + [x])
  {
    FirstsNext(u, seen, x);
    MetIsShared(u, seen, x);
    hide Firsts;
    forall n | Shared(n)
      ensures KeyOf(u, n) in f'.uniquingset <==> Met(u, seen + [x], n)
    {
      MetNext(u, seen, x, n);
      AlikeIsSameKey(u, x, n);
      hide Alike, KeyOf, Shared, Met;
      if Alike(u, x, n) { assert KeyOf(u, x) in f.uniquingset; }
    }
  }

  lemma MetIsShared(u: Uniquing, seen: seq<Node>, x: Node)
    ensures Met(u, seen, x) ==> Shared(x)
  {
  }

  /** The set knows what was met. */
  lemma KnownIsMet(u: Uniquing, f: Flat, seen: seq<Node>, n: Node)
    requires Follows(u, f, seen)
    ensures Met(u, seen, n) <==> Uniqued(n) && KeyOf(u, n) in f.uniquingset
  {
    SharedIsUniqued(n);
    MetIsShared(u, seen, n);
    hide Met, Firsts, Shared;
  }

  lemma FlattenKnown(u: Uniquing, f: Flat, n: Node)
    requires Uniqued(n) && KeyOf(u, n) in f.uniquingset
    ensures var f' := Flatten(u, f, n);
            f'.objlist == f.objlist && f'.uniquingset == f.uniquingset && Preorder(n) == [n]
  {
  }

  lemma FlattenNew(u: Uniquing, f: Flat, n: Node)
    requires !(Uniqued(n) && KeyOf(u, n) in f.uniquingset)
    ensures n.Leaf? ==> Flatten(u, f, n) == Append(u, f, n) && Preorder(n) == [n]
    ensures n.Container? ==> Flatten(u, f, n) == FlattenAll(u, Append(u, f, n), n.kids) && Preorder(n) == [n] + PreorderAll(n.kids)
  {
  }

  lemma {:induction false} FlattenFollows(u: Uniquing, f: Flat, seen: seq<Node>, n: Node)
    requires Follows(u, f, seen)
    ensures Follows(u, Flatten(u, f, n), seen + Preorder(n))
    decreases n
  {
    hide Follows, Met, Uniqued, KeyOf, Flatten, Preorder, PreorderAll, FlattenAll;
    KnownIsMet(u, f, seen, n);
    if Met(u, seen, n) {
      FlattenKnown(u, f, n);
      ShareFollows(u, f, Flatten(u, f, n), seen, n);
    } else {
      FlattenNew(u, f, n);
      AppendFollows(u, f, seen, n);
      if n.Container? {
        FlattenAllFollows(u, Append(u, f, n), seen + [n], n.kids);
        assert seen + ([n] + PreorderAll(n.kids)) == seen + [n] + PreorderAll(n.kids);
      }
    }
  }

  lemma {:induction false} FlattenAllFollows(u: Uniquing, f: Flat, seen: seq<Node>, ns: seq<Node>)
    requires Follows(u, f, seen)
    ensures Follows(u, FlattenAll(u, f, ns), seen + PreorderAll(ns))
    decreases ns
  {
    if ns == [] {
      assert seen + PreorderAll(ns) == seen;
    } else {
      var front, last := ns[..|ns| - 1], ns[|ns| - 1];
      AllButLast(u, f, ns);
      hide Follows, FlattenAll, PreorderAll, Flatten, Preorder;
      FlattenAllFollows(u, f, seen, front);
      FlattenFollows(u, FlattenAll(u, f, front), seen + PreorderAll(front), last);
      Associates(seen, PreorderAll(front), Preorder(last));
    }
  }

  lemma AllButLast(u: Uniquing, f: Flat, ns: seq<Node>)
    requires ns != []
    ensures var front, last := ns[..|ns| - 1], ns[|ns| - 1];
            FlattenAll(u, f, ns) == Flatten(u, FlattenAll(u, f, front), last) && PreorderAll(ns) == PreorderAll(front) + Preorder(last)
  {
  }

  lemma Associates(a: seq<Node>, b: seq<Node>, c: seq<Node>)
    ensures (a + b) + c == a + (b + c)
  {
  }

  /**
    The list the writer makes of a graph is its preorder, from which exactly those strings, numbers, dates
    and data are left out that are like one met before.
   */
  lemma ListedInOrder(u: Uniquing, root: Node)
    ensures Flatten(u, EMPTY, root).objlist == Firsts(u, Preorder(root))
  {
    FlattenFollows(u, EMPTY, [], root);
    assert [] + Preorder(root) == Preorder(root);
  }

  /** No two of the listed strings, numbers, dates and data are alike: by content none has equal content. */
  lemma {:induction false} FirstsDiffer(u: Uniquing, s: seq<Node>, i: nat, j: nat)
    requires i < j < |Firsts(u, s)|
    ensures !Alike(u, Firsts(u, s)[i], Firsts(u, s)[j])
    decreases |s|
  {
    var front, last := s[..|s| - 1], s[|s| - 1];
    var before := Firsts(u, front);
    if j < |before| {
      FirstsDiffer(u, front, i, j);
    } else {
      FirstsAreMet(u, front, i);
    }
  }

  lemma {:induction false} FirstsAreMet(u: Uniquing, s: seq<Node>, i: nat)
    requires i < |Firsts(u, s)|
    ensures Firsts(u, s)[i] in s
    decreases |s|
  {
    var front := s[..|s| - 1];
    if i < |Firsts(u, front)| {
      FirstsAreMet(u, front, i);
      assert forall x :: x in front ==> x in s;
    }
  }

  /** With uniquing by content no two listed leaves of these kinds have equal content, and none is missing. */
  lemma WrittenOnce(root: Node, i: nat, j: nat)
    requires i < j < |Flatten(ByContent, EMPTY, root).objlist|
    ensures var a, b := Flatten(ByContent, EMPTY, root).objlist[i], Flatten(ByContent, EMPTY, root).objlist[j];
            a.Leaf? && b.Leaf? && a.prim == b.prim ==> a.prim.Bool? || a.prim.Uid? || a.prim.Other?
  {
    ListedInOrder(ByContent, root);
    FirstsDiffer(ByContent, Preorder(root), i, j);
  }
}
