/**
  Properties of the reader that hold for every byte string with an accepted trailer: the cache and
  the late-starting path set do not change what is read, and reading succeeds exactly on acyclic
  graphs of decodable objects.
 */
module PlistGraphProofs {
  import opened Plist
  import opened PlistGraph
  import opened Wrappers

  // ---------------------------------------------------------------- fuel

  lemma ParseOfRefs(g: Graph, off: nat, vs: seq<Value>, n: nat)
    requires n > 0 && off in g.objects && g.objects[off].Refs?
    requires Parses(g, g.objects[off].refs, vs, n - 1) && GoodItems(g.objects[off].kind, vs)
    ensures Parse(g, off, n) == Some(Many(g.objects[off].kind, vs))
  {
    var refs := g.objects[off].refs;
    assert seq(|refs|, i requires 0 <= i < |refs| => Parse(g, refs[i], n - 1).value) == vs;
  }

  lemma RefsOfParse(g: Graph, off: nat, n: nat)
    requires Parse(g, off, n).Some? && g.objects[off].Refs?
    ensures var v := Parse(g, off, n).value;
            && v.Many? && v.kind == g.objects[off].kind && GoodItems(v.kind, v.items)
            && Parses(g, g.objects[off].refs, v.items, n - 1)
  {
  }

  lemma {:induction false} ParseMono(g: Graph, off: nat, n: nat, m: nat)
    requires n <= m && Parse(g, off, n).Some?
    ensures Parse(g, off, m) == Parse(g, off, n)
    decreases n
  {
    if g.objects[off].Refs? {
      var refs, vs := g.objects[off].refs, Parse(g, off, n).value.items;
      RefsOfParse(g, off, n);
      forall i | 0 <= i < |refs|
        ensures Parse(g, refs[i], m - 1) == Some(vs[i])
      {
        ParseMono(g, refs[i], n - 1, m - 1);
      }
      ParseOfRefs(g, off, vs, m);
    }
  }

  /** The object at `off` stands for `v`. */
  ghost predicate Means(g: Graph, off: nat, v: Value)
  {
    exists n: nat :: Parse(g, off, n) == Some(v)
  }

  lemma MeansIsUnique(g: Graph, off: nat, v: Value, w: Value)
    requires Means(g, off, v) && Means(g, off, w)
    ensures v == w
  {
    var n: nat :| Parse(g, off, n) == Some(v);
    var m: nat :| Parse(g, off, m) == Some(w);
    if n <= m { ParseMono(g, off, n, m); } else { ParseMono(g, off, m, n); }
  }

  /** The height of the object at `off`: the least fuel that reads it. */
  lemma {:induction false} LeastFuel(g: Graph, off: nat, n: nat) returns (m: nat)
    requires Parse(g, off, n).Some?
    ensures 0 < m <= n && Parse(g, off, m) == Parse(g, off, n)
    ensures forall k: nat :: k < m ==> Parse(g, off, k).None?
  {
    if Parse(g, off, n - 1).Some? {
      ParseMono(g, off, n - 1, n);
      m := LeastFuel(g, off, n - 1);
    } else {
      m := n;
      forall k: nat | k < m
        ensures Parse(g, off, k).None?
      {
        if Parse(g, off, k).Some? { ParseMono(g, off, k, n - 1); }
      }
    }
  }

  // ---------------------------------------------------------------- the reader is sound

  ghost predicate Sound(g: Graph, cache: Cache)
  {
    forall off :: off in cache ==> Means(g, off, cache[off])
  }

  lemma {:induction false} CommonFuel(g: Graph, refs: seq<nat>, vs: seq<Value>) returns (n: nat)
    requires |vs| == |refs|
    requires forall i :: 0 <= i < |refs| ==> Means(g, refs[i], vs[i])
    ensures Parses(g, refs, vs, n)
    decreases |refs|
  {
    if refs == [] {
      n := 0;
    } else {
      var last := |refs| - 1;
      var m := CommonFuel(g, refs[..last], vs[..last]);
      var k: nat :| Parse(g, refs[last], k) == Some(vs[last]);
      n := m + k;
      forall i | 0 <= i < |refs|
        ensures Parse(g, refs[i], n) == Some(vs[i])
      {
        if i < last {
          assert Parse(g, refs[..last][i], m) == Some(vs[..last][i]);
          ParseMono(g, refs[i], m, n);
        } else {
          ParseMono(g, refs[i], k, n);
        }
      }
    }
  }

  lemma CollectionMeans(g: Graph, off: nat, vs: seq<Value>)
    requires Lookup(g, off).Some? && Lookup(g, off).value.Refs?
    requires var item := Lookup(g, off).value;
             && |vs| == |item.refs|
             && GoodItems(item.kind, vs)
             && forall i :: 0 <= i < |vs| ==> Means(g, item.refs[i], vs[i])
    ensures Means(g, off, Many(Lookup(g, off).value.kind, vs))
  {
    var item := Lookup(g, off).value;
    var n := CommonFuel(g, item.refs, vs);
    ParseOfRefs(g, off, vs, n + 1);
  }

  /** Reading a collection that is neither cached nor on the path is reading its elements. */
  lemma ReadOfRefs(g: Graph, caching: bool, mutability: Mutability,
                   off: nat, cache: Cache, path: Option<set<nat>>, depth: nat, kind: Kind, refs: seq<nat>)
    requires Closed(g) && InContext(g, off, path, depth)
    requires !(caching && off in cache) && !(path.Some? && off in path.value)
    requires off in g.objects && g.objects[off] == Refs(kind, refs)
    ensures GoodRefs(g, refs) && GoodPath(g, Extend(path, off, depth), depth + 1)
    ensures Room(g, Extend(path, off, depth), depth + 1) < Room(g, path, depth)
    ensures var (r, cache') := ReadAll(g, caching, mutability, kind, refs, 0, [], cache,
                                       Extend(path, off, depth), depth + 1);
            Read(g, caching, mutability, off, cache, path, depth) ==
              if r.None? then (None, cache')
              else (Some(Many(kind, r.value)), Remember(caching, mutability, cache', off, Many(kind, r.value)))
  {
    ExtendKeepsPath(g, off, path, depth);
  }

  lemma {:induction false} ReadIsSound(g: Graph, caching: bool, mutability: Mutability, off: nat, cache: Cache,
                                       path: Option<set<nat>>, depth: nat, r: Option<Value>, cache': Cache)
    requires Closed(g) && InContext(g, off, path, depth)
    requires caching ==> Sound(g, cache)
    requires (r, cache') == Read(g, caching, mutability, off, cache, path, depth)
    ensures r.Some? ==> Means(g, off, r.value)
    ensures caching ==> Sound(g, cache')
    decreases Room(g, path, depth), 1
  {
    if (caching && off in cache) || (path.Some? && off in path.value) || off !in g.objects {
    } else if g.objects[off].Done? {
      assert Parse(g, off, 1) == Some(g.objects[off].v);
    } else {
      RefsAreSound(g, caching, mutability, off, cache, path, depth, r, cache');
    }
  }

  lemma {:induction false} RefsAreSound(g: Graph, caching: bool, mutability: Mutability, off: nat, cache: Cache,
                                        path: Option<set<nat>>, depth: nat, r: Option<Value>, cache': Cache)
    requires Closed(g) && InContext(g, off, path, depth)
    requires caching ==> Sound(g, cache)
    requires !(caching && off in cache) && !(path.Some? && off in path.value)
    requires off in g.objects && g.objects[off].Refs?
    requires (r, cache') == Read(g, caching, mutability, off, cache, path, depth)
    ensures r.Some? ==> Means(g, off, r.value)
    ensures caching ==> Sound(g, cache')
    decreases Room(g, path, depth), 0
  {
    var kind, refs := g.objects[off].kind, g.objects[off].refs;
    var path' := Extend(path, off, depth);
    ReadOfRefs(g, caching, mutability, off, cache, path, depth, kind, refs);
    var (s, cache'') := ReadAll(g, caching, mutability, kind, refs, 0, [], cache, path', depth + 1);
    ReadAllIsSound(g, caching, mutability, kind, refs, 0, [], cache, path', depth + 1, s, cache'');
    if s.Some? {
      CollectionMeans(g, off, s.value);
    }
  }

  lemma {:induction false} ReadAllIsSound(g: Graph, caching: bool, mutability: Mutability, kind: Kind,
                                          refs: seq<nat>, idx: nat, got: seq<Value>, cache: Cache,
                                          path: Option<set<nat>>, depth: nat, r: Option<seq<Value>>, cache': Cache)
    requires Closed(g) && idx == |got| <= |refs| && GoodRefs(g, refs)
    requires GoodPath(g, path, depth)
    requires caching ==> Sound(g, cache)
    requires forall i :: 0 <= i < idx ==> Means(g, refs[i], got[i])
    requires kind == DictKind ==> forall i :: 0 <= i < idx && i < |refs| / 2 ==> IsPrimitive(got[i])
    requires (r, cache') == ReadAll(g, caching, mutability, kind, refs, idx, got, cache, path, depth)
    ensures caching ==> Sound(g, cache')
    ensures r.Some? ==> |r.value| == |refs| && GoodItems(kind, r.value)
    ensures r.Some? ==> forall i :: 0 <= i < |refs| ==> Means(g, refs[i], r.value[i])
    decreases Room(g, path, depth), 2, |refs| - idx
  {
    if idx < |refs| {
      var (s, cache'') := Read(g, caching, mutability, refs[idx], cache, path, depth);
      ReadIsSound(g, caching, mutability, refs[idx], cache, path, depth, s, cache'');
      if s.Some? && !(kind == DictKind && idx < |refs| / 2 && !IsPrimitive(s.value)) {
        ReadAllIsSound(g, caching, mutability, kind, refs, idx + 1, got + [s.value], cache'', path, depth, r, cache');
      }
    }
  }

  // ---------------------------------------------------------------- the reader is complete

  /** No offset on the path can be read with `n` levels: they are all higher than the object at hand. */
  ghost predicate Above(g: Graph, path: Option<set<nat>>, n: nat)
  {
    path.Some? ==> forall s :: s in path.value ==> Parse(g, s, n).None?
  }

  lemma AboveLower(g: Graph, path: Option<set<nat>>, n: nat, m: nat)
    requires m <= n && Above(g, path, n)
    ensures Above(g, path, m)
  {
    if path.Some? {
      forall s | s in path.value
        ensures Parse(g, s, m).None?
      {
        if Parse(g, s, m).Some? { ParseMono(g, s, m, n); }
      }
    }
  }

  /** One level down: the elements of a readable collection are lower than everything on the new path. */
  lemma StepDown(g: Graph, path: Option<set<nat>>, off: nat, depth: nat, n: nat) returns (m: nat, vs: seq<Value>)
    requires Parse(g, off, n).Some? && g.objects[off].Refs? && Above(g, path, n)
    ensures m < n && Above(g, Extend(path, off, depth), m)
    ensures Parses(g, g.objects[off].refs, vs, m) && GoodItems(g.objects[off].kind, vs)
    ensures Parse(g, off, n) == Some(Many(g.objects[off].kind, vs))
  {
    var height := LeastFuel(g, off, n);
    m := height - 1;
    vs := Parse(g, off, n).value.items;
    RefsOfParse(g, off, height);
    AboveLower(g, path, n, m);
  }

  lemma {:induction false} ReadIsComplete(g: Graph, caching: bool, mutability: Mutability, off: nat, cache: Cache,
                                          path: Option<set<nat>>, depth: nat, n: nat, r: Option<Value>, cache': Cache)
    requires Closed(g) && InContext(g, off, path, depth)
    requires caching ==> Sound(g, cache)
    requires Parse(g, off, n).Some? && Above(g, path, n)
    requires (r, cache') == Read(g, caching, mutability, off, cache, path, depth)
    ensures r == Parse(g, off, n)
    decreases n, 1
  {
    if caching && off in cache {
      assert Means(g, off, Parse(g, off, n).value);
      MeansIsUnique(g, off, Parse(g, off, n).value, cache[off]);
    } else if g.objects[off].Refs? {
      var m, vs := StepDown(g, path, off, depth, n);
      RefsAreComplete(g, caching, mutability, off, cache, path, depth, m, vs, r, cache');
    }
  }

  lemma {:induction false} RefsAreComplete(g: Graph, caching: bool, mutability: Mutability, off: nat, cache: Cache,
                                           path: Option<set<nat>>, depth: nat, n: nat, vs: seq<Value>,
                                           r: Option<Value>, cache': Cache)
    requires Closed(g) && InContext(g, off, path, depth)
    requires caching ==> Sound(g, cache) && off !in cache
    requires path.Some? ==> off !in path.value
    requires off in g.objects && g.objects[off].Refs?
    requires Parses(g, g.objects[off].refs, vs, n) && GoodItems(g.objects[off].kind, vs)
    requires Above(g, Extend(path, off, depth), n)
    requires (r, cache') == Read(g, caching, mutability, off, cache, path, depth)
    ensures r == Some(Many(g.objects[off].kind, vs))
    decreases n, 3
  {
    var kind, refs := g.objects[off].kind, g.objects[off].refs;
    ReadOfRefs(g, caching, mutability, off, cache, path, depth, kind, refs);
    var path' := Extend(path, off, depth);
    var (s, cache'') := ReadAll(g, caching, mutability, kind, refs, 0, [], cache, path', depth + 1);
    ReadAllIsComplete(g, caching, mutability, kind, refs, 0, [], cache, path', depth + 1, n, vs, s, cache'');
  }

  lemma {:induction false} ReadAllIsComplete(g: Graph, caching: bool, mutability: Mutability, kind: Kind,
                                             refs: seq<nat>, idx: nat, got: seq<Value>, cache: Cache,
                                             path: Option<set<nat>>, depth: nat, n: nat, vs: seq<Value>,
                                             r: Option<seq<Value>>, cache': Cache)
    requires Closed(g) && idx <= |refs| && GoodRefs(g, refs)
    requires GoodPath(g, path, depth)
    requires caching ==> Sound(g, cache)
    requires Parses(g, refs, vs, n) && GoodItems(kind, vs) && got == vs[..idx]
    requires Above(g, path, n)
    requires (r, cache') == ReadAll(g, caching, mutability, kind, refs, idx, got, cache, path, depth)
    ensures r == Some(vs)
    decreases n, 2, |refs| - idx
  {
    if idx < |refs| {
      var (s, cache'') := Read(g, caching, mutability, refs[idx], cache, path, depth);
      ReadIsComplete(g, caching, mutability, refs[idx], cache, path, depth, n, s, cache'');
      ReadIsSound(g, caching, mutability, refs[idx], cache, path, depth, s, cache'');
      assert got + [vs[idx]] == vs[..idx + 1];
      ReadAllIsComplete(g, caching, mutability, kind, refs, idx + 1, got + [vs[idx]], cache'', path, depth, n, vs, r, cache');
    } else {
      assert vs[..idx] == vs;
    }
  }

  /** What the reader returns is the meaning of the object, whatever sound cache it starts from. */
  lemma ReadReturnsMeaning(g: Graph, caching: bool, mutability: Mutability, off: nat, cache: Cache, v: Value)
    requires Closed(g) && (caching ==> Sound(g, cache))
    ensures Read(g, caching, mutability, off, cache, None, 0).0 == Some(v) <==> Means(g, off, v)
  {
    var (r, cache') := Read(g, caching, mutability, off, cache, None, 0);
    ReadIsSound(g, caching, mutability, off, cache, None, 0, r, cache');
    if Means(g, off, v) {
      var n: nat :| Parse(g, off, n) == Some(v);
      ReadIsComplete(g, caching, mutability, off, cache, None, 0, n, r, cache');
    }
  }

  /**
    Cache transparency: with the cache or without it, from any cache whose entries were read from
    these bytes, and for every mutability option, the reader accepts the same objects and returns
    the same values.
   */
  lemma CacheIsTransparent(g: Graph, mutability: Mutability, mutability': Mutability,
                           off: nat, cache: Cache)
    requires Closed(g) && Sound(g, cache)
    ensures Read(g, true, mutability, off, cache, None, 0).0
         == Read(g, false, mutability', off, map[], None, 0).0
  {
    var r := Read(g, true, mutability, off, cache, None, 0).0;
    var r' := Read(g, false, mutability', off, map[], None, 0).0;
    if r.Some? {
      ReadReturnsMeaning(g, true, mutability, off, cache, r.value);
      ReadReturnsMeaning(g, false, mutability', off, map[], r.value);
    } else if r'.Some? {
      ReadReturnsMeaning(g, true, mutability, off, cache, r'.value);
      ReadReturnsMeaning(g, false, mutability', off, map[], r'.value);
    }
  }

  // ---------------------------------------------------------------- sharing

  /** The cache holds nothing that the caller asked to be able to change. */
  predicate NothingMutable(mutability: Mutability, cache: Cache) {
    forall off :: off in cache ==>
      && (mutability != Immutable ==> !cache[off].Many?)
      && (mutability == MutableContainersAndLeaves ==> !cache[off].VStr? && !cache[off].VData?)
  }

  /** An object that is read from several places is handed out as one object only when it cannot be changed. */
  lemma {:induction false} NothingMutableIsShared(g: Graph, caching: bool, mutability: Mutability,
                                                  off: nat, cache: Cache, path: Option<set<nat>>, depth: nat)
    requires Closed(g) && InContext(g, off, path, depth) && NothingMutable(mutability, cache)
    ensures NothingMutable(mutability, Read(g, caching, mutability, off, cache, path, depth).1)
    decreases Room(g, path, depth), 0
  {
    if !(caching && off in cache) && !(path.Some? && off in path.value) && off in g.objects && g.objects[off].Refs? && off != MAX_OFFSET {
      var refs := g.objects[off].refs;
      CollectionIsRead(g, caching, mutability, off, g.objects[off].kind, refs, cache, path, depth);
      hide Read, ReadAll, Extend, Room;
      ElementsShareNothingMutable(g, caching, mutability, g.objects[off].kind, refs, 0, [], cache, Extend(path, off, depth), depth + 1);
    }
  }

  lemma {:induction false} ElementsShareNothingMutable(g: Graph, caching: bool, mutability: Mutability, kind: Kind, refs: seq<nat>,
                                                       idx: nat, got: seq<Value>, cache: Cache, path: Option<set<nat>>, depth: nat)
    requires Closed(g) && idx <= |refs| && GoodRefs(g, refs) && GoodPath(g, path, depth) && NothingMutable(mutability, cache)
    ensures NothingMutable(mutability, ReadAll(g, caching, mutability, kind, refs, idx, got, cache, path, depth).1)
    decreases Room(g, path, depth), 1, |refs| - idx
  {
    hide NothingMutable, Read, Room;
    if idx < |refs| {
      NothingMutableIsShared(g, caching, mutability, refs[idx], cache, path, depth);
      var (r, next) := Read(g, caching, mutability, refs[idx], cache, path, depth);
      if r.Some? && !(kind == DictKind && idx < |refs| / 2 && !IsPrimitive(r.value)) {
        ElementsShareNothingMutable(g, caching, mutability, kind, refs, idx + 1, got + [r.value], next, path, depth);
      }
    }
  }

  // ---------------------------------------------------------------- cycles

  /** The collection at `x` refers to `y`. */
  predicate Edge(g: Graph, x: nat, y: nat)
  {
    var item := Lookup(g, x);
    item.Some? && item.value.Refs? && y in item.value.refs
  }

  predicate Walk(g: Graph, p: seq<nat>)
  {
    p != [] && forall i :: 0 <= i < |p| - 1 ==> Edge(g, p[i], p[i + 1])
  }

  predicate Distinct(p: seq<nat>) {
    forall i, j :: 0 <= i < j < |p| ==> p[i] != p[j]
  }

  /** No walk from `off` meets an object twice: nothing reachable from `off` lies on a cycle. */
  ghost predicate Acyclic(g: Graph, off: nat)
  {
    forall p :: Walk(g, p) && p[0] == off ==> Distinct(p)
  }

  /** The object itself can be decoded, and the keys of a dictionary are decodable non-collections. */
  predicate Decodable(g: Graph, off: nat)
  {
    match Lookup(g, off)
    case None => false
    case Some(Done(_)) => true
    case Some(Refs(kind, refs)) =>
      kind == DictKind ==>
        forall i :: 0 <= i < |refs| / 2 ==> Lookup(g, refs[i]).Some? && Lookup(g, refs[i]).value.Done?
  }

  ghost predicate AllDecodable(g: Graph, off: nat)
  {
    forall p :: Walk(g, p) && p[0] == off ==> Decodable(g, p[|p| - 1])
  }

  /** Heights drop along a walk. */
  lemma {:induction false} WalkDescends(g: Graph, p: seq<nat>, i: nat, j: nat, n: nat)
    requires Walk(g, p) && i <= j < |p| && Parse(g, p[i], n).Some?
    ensures j - i < n && Parse(g, p[j], n - (j - i)).Some?
    decreases j - i
  {
    if i < j {
      assert Edge(g, p[i], p[i + 1]);
      WalkDescends(g, p, i + 1, j, n - 1);
    }
  }

  lemma ReadableIsAcyclic(g: Graph, off: nat, n: nat)
    requires Closed(g) && Parse(g, off, n).Some?
    ensures Acyclic(g, off)
  {
    forall p | Walk(g, p) && p[0] == off
      ensures Distinct(p)
    {
      forall i, j | 0 <= i < j < |p|
        ensures p[i] != p[j]
      {
        WalkDescends(g, p, 0, i, n);
        var m := LeastFuel(g, p[i], n - i);
        WalkDescends(g, p, i, j, m);
      }
    }
  }

  lemma ReadableIsDecodable(g: Graph, off: nat, n: nat)
    requires Closed(g) && Parse(g, off, n).Some?
    ensures AllDecodable(g, off)
  {
    forall p | Walk(g, p) && p[0] == off
      ensures Decodable(g, p[|p| - 1])
    {
      WalkDescends(g, p, 0, |p| - 1, n);
      var m := n - (|p| - 1);
      var item := Lookup(g, p[|p| - 1]).value;
      if item.Refs? && item.kind == DictKind {
        forall i | 0 <= i < |item.refs| / 2
          ensures Lookup(g, item.refs[i]).Some? && Lookup(g, item.refs[i]).value.Done?
        {
          RefsOfParse(g, p[|p| - 1], m);
        }
      }
    }
  }

  /** A walk of distinct objects is no longer than the table. */
  lemma {:induction false} DistinctSize(p: seq<nat>, u: set<nat>)
    requires Distinct(p) && forall i :: 0 <= i < |p| ==> p[i] in u
    ensures |p| <= |u|
    decreases |p|
  {
    if p != [] {
      var last := p[|p| - 1];
      DistinctSize(p[..|p| - 1], u - {last});
      assert u == (u - {last}) + {last};
    }
  }

  lemma WalkFits(g: Graph, off: nat, p: seq<nat>)
    requires Closed(g) && Acyclic(g, off) && AllDecodable(g, off) && Walk(g, p) && p[0] == off
    ensures |p| <= |g.table| + 1
  {
    var tail := p[1..];
    assert Distinct(tail) by { assert Distinct(p); }
    forall i | 0 <= i < |tail|
      ensures tail[i] in g.table
    {
      assert Edge(g, p[i], p[i + 1]);
      var front := p[..i + 2];
      assert Walk(g, front) && front[|front| - 1] == tail[i];
      assert Decodable(g, tail[i]);
    }
    DistinctSize(tail, g.table);
  }

  lemma WalkOn(g: Graph, p: seq<nat>, x: nat)
    requires Walk(g, p) && Edge(g, p[|p| - 1], x)
    ensures Walk(g, p + [x])
  {
    var q := p + [x];
    forall k | 0 <= k < |q| - 1
      ensures Edge(g, q[k], q[k + 1])
    {
      if k < |p| - 1 { assert Edge(g, p[k], p[k + 1]); }
    }
  }

  lemma {:induction false} AcyclicIsReadable(g: Graph, off: nat, p: seq<nat>, n: nat)
    requires Closed(g) && Acyclic(g, off) && AllDecodable(g, off)
    requires Walk(g, p) && p[0] == off && n + |p| == |g.table| + 2
    ensures Parse(g, p[|p| - 1], n).Some?
    decreases n
  {
    var last := p[|p| - 1];
    assert Decodable(g, last);
    WalkFits(g, off, p);
    if g.objects[last].Refs? {
      var refs := g.objects[last].refs;
      forall i | 0 <= i < |refs|
        ensures Parse(g, refs[i], n - 1).Some?
      {
        WalkOn(g, p, refs[i]);
        AcyclicIsReadable(g, off, p + [refs[i]], n - 1);
      }
      ParseOfRefs(g, last, seq(|refs|, i requires 0 <= i < |refs| => Parse(g, refs[i], n - 1).value), n);
    }
  }

  /**
    The reader succeeds if and only if nothing reachable lies on a cycle and everything reachable
    can be decoded, although cycle detection starts only at depth 16 and comes after the cache.
   */
  lemma ReadSucceedsExactlyWhenAcyclic(g: Graph, caching: bool, mutability: Mutability,
                                       off: nat, cache: Cache)
    requires Closed(g) && (caching ==> Sound(g, cache))
    ensures Read(g, caching, mutability, off, cache, None, 0).0.Some?
       <==> Acyclic(g, off) && AllDecodable(g, off)
  {
    var r := Read(g, caching, mutability, off, cache, None, 0).0;
    if r.Some? {
      ReadReturnsMeaning(g, caching, mutability, off, cache, r.value);
      var n: nat :| Parse(g, off, n) == r;
      ReadableIsAcyclic(g, off, n);
      ReadableIsDecodable(g, off, n);
    }
    if Acyclic(g, off) && AllDecodable(g, off) {
      var n := |g.table| + 1;
      AcyclicIsReadable(g, off, [off], n);
      ReadReturnsMeaning(g, caching, mutability, off, cache, Parse(g, off, n).value);
    }
  }
}
