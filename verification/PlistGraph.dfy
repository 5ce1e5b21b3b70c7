/**
  The recursive reader of binary property lists, over the graph of decoded objects: its cache keyed
  by offset, its path set that only starts at depth 16, and what they do to the result.
 */
module PlistGraph {
  import opened Bytes
  import opened Plist
  import opened Wrappers

  const MAX_OFFSET: int := TWO_64 - 1  // UINT64_MAX, `FAIL_MAXOFFSET`

  /** One decoded object: a finished value, or the offsets of a collection's elements. */
  datatype Item = Done(v: Value) | Refs(kind: Kind, refs: seq<nat>)

  /**
    The decodable objects of a file by offset, and the offsets its table holds. An offset is absent
    from `objects` when the reader would fail on it without looking at anything else.
   */
  datatype Graph = Graph(objects: map<nat, Item>, table: set<nat>)

  /** References lead to table entries, or to the offset that stands for a bad reference. */
  ghost predicate Closed(g: Graph) {
    && MAX_OFFSET !in g.objects
    && (forall off :: off in g.objects && g.objects[off].Refs? ==> GoodRefs(g, g.objects[off].refs))
    && (forall off :: off in g.objects && g.objects[off].Done? ==> IsPrimitive(g.objects[off].v))
  }

  ghost predicate GoodRefs(g: Graph, refs: seq<nat>) {
    forall i :: 0 <= i < |refs| ==> refs[i] == MAX_OFFSET || refs[i] in g.table
  }

  function Lookup(g: Graph, off: nat): Option<Item> {
    if off in g.objects then Some(g.objects[off]) else None
  }

  // ---------------------------------------------------------------- meaning

  /** Dictionary keys, the first half of `vs`, must not be collections. */
  predicate GoodItems(kind: Kind, vs: seq<Value>) {
    kind == DictKind ==> forall i :: 0 <= i < |vs| / 2 ==> IsPrimitive(vs[i])
  }

  /**
    The reference reader: no cache and no cycle detection, but at most `fuel` levels deep.
   */
  ghost function Parse(g: Graph, off: nat, fuel: nat): Option<Value>
    decreases fuel
  {
    if fuel == 0 || off !in g.objects then None
    else
      match g.objects[off]
      case Done(v) => Some(v)
      case Refs(kind, refs) =>
        if forall i :: 0 <= i < |refs| ==> Parse(g, refs[i], fuel - 1).Some? then
          var vs := seq(|refs|, i requires 0 <= i < |refs| => Parse(g, refs[i], fuel - 1).value);
          if GoodItems(kind, vs) then Some(Many(kind, vs)) else None
        else None
  }

  /** `vs` are the values of `refs`, each at most `fuel` levels deep. */
  ghost predicate Parses(g: Graph, refs: seq<nat>, vs: seq<Value>, fuel: nat) {
    |vs| == |refs| && forall i :: 0 <= i < |refs| ==> Parse(g, refs[i], fuel) == Some(vs[i])
  }

  // ---------------------------------------------------------------- the reader

  datatype Mutability = Immutable | MutableContainers | MutableContainersAndLeaves

  /** Which objects enter the cache depends on the kind of object and on the mutability asked for. */
  predicate Cacheable(mutability: Mutability, v: Value) {
    match v
    case VNull => false
    case VBool(_) => false
    case VData(_) => mutability != MutableContainersAndLeaves
    case VStr(_) => mutability != MutableContainersAndLeaves
    case Many(_, _) => mutability == Immutable
    case _ => true
  }

  type Cache = map<nat, Value>

  function Remember(caching: bool, mutability: Mutability, cache: Cache, off: nat, v: Value): Cache {
    if caching && Cacheable(mutability, v) then cache[off := v] else cache
  }

  /**
    What holds of every call the reader makes: below depth 17 there is no path set; above it, the
    set has one member per level and consists of object offsets.
   */
  predicate GoodPath(g: Graph, path: Option<set<nat>>, depth: nat) {
    && (path.None? ==> depth <= 16)
    && (path.Some? ==> path.value <= g.table && depth == 16 + |path.value|)
  }

  predicate InContext(g: Graph, off: nat, path: Option<set<nat>>, depth: nat) {
    && GoodPath(g, path, depth)
    && (depth > 0 ==> off == MAX_OFFSET || off in g.table)
  }

  /** The path set never outgrows the offsets of the table, so neither does the depth. */
  lemma ContextIsShallow(g: Graph, off: nat, path: Option<set<nat>>, depth: nat)
    requires InContext(g, off, path, depth)
    ensures depth <= 16 + |g.table|
  {
    if path.Some? {
      assert g.table == path.value + (g.table - path.value);
    }
  }

  /** How much deeper the reader can still go. */
  function Room(g: Graph, path: Option<set<nat>>, depth: nat): nat
    requires path.None? ==> depth <= 16
  {
    if path.None? then 17 - depth + |g.table| else |g.table - path.value|
  }

  /** The path set a collection at `off` hands to its elements. */
  function Extend(path: Option<set<nat>>, off: nat, depth: nat): Option<set<nat>> {
    match path
    case Some(s) => Some(s + {off})
    case None => if 15 < depth then Some({off}) else None
  }

  lemma ExtendKeepsPath(g: Graph, off: nat, path: Option<set<nat>>, depth: nat)
    requires InContext(g, off, path, depth)
    requires off != MAX_OFFSET && (path.Some? ==> off !in path.value)
    ensures GoodPath(g, Extend(path, off, depth), depth + 1)
    ensures Room(g, Extend(path, off, depth), depth + 1) < Room(g, path, depth)
  {
    match path
    case Some(s) =>
      assert g.table - s == (g.table - (s + {off})) + {off};
    case None =>
      if 15 < depth {
        assert g.table == (g.table - {off}) + {off};
      }
  }

  /**
    `__CFBinaryPlistCreateObjectFiltered` with no key paths. The result is the value read and the
    cache afterwards; `caching` says whether there is a cache at all.
   */
  function Read(g: Graph, caching: bool, mutability: Mutability,
                off: nat, cache: Cache, path: Option<set<nat>>, depth: nat): (Option<Value>, Cache)
    requires Closed(g) && InContext(g, off, path, depth)
    decreases Room(g, path, depth), 0
  {
    if caching && off in cache then (Some(cache[off]), cache)
    else if path.Some? && off in path.value then (None, cache)
    else
      match Lookup(g, off)
      case None => (None, cache)
      case Some(Done(v)) => (Some(v), Remember(caching, mutability, cache, off, v))
      case Some(Refs(kind, refs)) =>
        assert off != MAX_OFFSET && GoodRefs(g, refs);
        ExtendKeepsPath(g, off, path, depth);
        var (r, cache') := ReadAll(g, caching, mutability, kind, refs, 0, [],
                                   cache, Extend(path, off, depth), depth + 1);
        match r
        case None => (None, cache')
        case Some(vs) =>
          (Some(Many(kind, vs)), Remember(caching, mutability, cache', off, Many(kind, vs)))
  }

  /** The element loop: `got` holds the elements before `idx`. */
  function ReadAll(g: Graph, caching: bool, mutability: Mutability,
                   kind: Kind, refs: seq<nat>, idx: nat, got: seq<Value>,
                   cache: Cache, path: Option<set<nat>>, depth: nat): (Option<seq<Value>>, Cache)
    requires Closed(g) && idx <= |refs| && GoodRefs(g, refs)
    requires GoodPath(g, path, depth)
    decreases Room(g, path, depth), 1, |refs| - idx
  {
    if idx == |refs| then (Some(got), cache)
    else
      var (r, cache') := Read(g, caching, mutability, refs[idx], cache, path, depth);
      match r
      case None => (None, cache')
      case Some(v) =>
        if kind == DictKind && idx < |refs| / 2 && !IsPrimitive(v) then (None, cache')
        else ReadAll(g, caching, mutability, kind, refs, idx + 1, got + [v], cache', path, depth)
  }

  /** What reading a collection comes down to. */
  lemma CollectionIsRead(g: Graph, caching: bool, mutability: Mutability, off: nat, kind: Kind, refs: seq<nat>,
                         cache: Cache, path: Option<set<nat>>, depth: nat)
    requires Closed(g) && InContext(g, off, path, depth) && off in g.objects && g.objects[off] == Refs(kind, refs)
    requires !(caching && off in cache) && !(path.Some? && off in path.value)
    ensures GoodRefs(g, refs) && GoodPath(g, Extend(path, off, depth), depth + 1)
    ensures Room(g, Extend(path, off, depth), depth + 1) < Room(g, path, depth)
    ensures var all := ReadAll(g, caching, mutability, kind, refs, 0, [], cache, Extend(path, off, depth), depth + 1);
            Read(g, caching, mutability, off, cache, path, depth) ==
            if all.0.None? then (None, all.1)
            else (Some(Many(kind, all.0.value)), Remember(caching, mutability, all.1, off, Many(kind, all.0.value)))
  {
    hide ReadAll, Remember;
    assert off != MAX_OFFSET && GoodRefs(g, refs);
    ExtendKeepsPath(g, off, path, depth);
  }

  /** How the reader extends its path set, and what it is again afterwards. */
  lemma ExtendedPath(path: Option<set<nat>>, off: nat, depth: nat)
    requires !(path.Some? && off in path.value)
    ensures Extend(path, off, depth)
         == if path.Some? then Some(path.value + {off}) else if 15 < depth then Some({} + {off}) else None
    ensures path.Some? ==> path.value + {off} - {off} == path.value
  {
    var none: set<nat> := {};
    assert none + {off} == {off};
  }

  // ---------------------------------------------------------------- the reader as it runs

  /**
    The mutable state of a parse: the cache `objects` (used only when `caching`) and the path set,
    which exists only while the reader is deeper than 16 levels.
   */
  class Reader {
    const graph: Graph
    const caching: bool
    const mutability: Mutability
    var objects: Cache
    var path: Option<set<nat>>

    /** The depth of the deepest call so far. */
    ghost var deepest: nat

    constructor (g: Graph, useCache: bool, m: Mutability)
      ensures graph == g && caching == useCache && mutability == m
      ensures objects == map[] && path == None && deepest == 0
    {
      graph, caching, mutability := g, useCache, m;
      objects, path, deepest := map[], None, 0;
    }

    /** `__CFBinaryPlistCreateObjectFiltered` with no key paths */
    method CreateObject(off: nat, depth: nat) returns (r: Option<Value>)
      requires Closed(graph) && InContext(graph, off, path, depth)
      modifies this
      ensures (r, objects) == Read(graph, caching, mutability, off, old(objects), old(path), depth)
      ensures r.Some? ==> path == old(path)
      ensures old(deepest) <= deepest && depth <= deepest && (deepest == old(deepest) || deepest <= 16 + |graph.table|)
      decreases Room(graph, path, depth), 1
    {
      ContextIsShallow(graph, off, path, depth);
      if deepest < depth { deepest := depth; }
      if caching && off in objects { return Some(objects[off]); }
      if path.Some? && off in path.value { return None; }
      var item := Lookup(graph, off);
      if item.None? { return None; }
      if item.value.Done? {
        objects := Remember(caching, mutability, objects, off, item.value.v);
        return Some(item.value.v);
      }
      r := CreateCollection(off, item.value.kind, item.value.refs, depth);
    }

    /** The array, set and dictionary cases: the path set is extended for the elements and restored. */
    method CreateCollection(off: nat, kind: Kind, refs: seq<nat>, depth: nat) returns (r: Option<Value>)
      requires Closed(graph) && InContext(graph, off, path, depth)
      requires off in graph.objects && graph.objects[off] == Refs(kind, refs)
      requires !(caching && off in objects) && !(path.Some? && off in path.value)
      modifies this
      ensures (r, objects) == Read(graph, caching, mutability, off, old(objects), old(path), depth)
      ensures r.Some? ==> path == old(path)
      ensures old(deepest) <= deepest && (deepest == old(deepest) || deepest <= 16 + |graph.table|)
      decreases Room(graph, path, depth), 0
    {
      hide Read, ReadAll, Extend, Room, Remember;
      CollectionIsRead(graph, caching, mutability, off, kind, refs, objects, path, depth);
      ExtendedPath(path, off, depth);
      var madeSet := path.None? && 15 < depth;
      if madeSet { path := Some({}); }
      if path.Some? { path := Some(path.value + {off}); }
      var list := CreateElements(kind, refs, depth + 1);
      if list.None? { return None; }
      if path.Some? { path := Some(path.value - {off}); }
      if madeSet { path := None; }
      r := Some(Many(kind, list.value));
      objects := Remember(caching, mutability, objects, off, r.value);
    }

    /** The element loop of a collection */
    method CreateElements(kind: Kind, refs: seq<nat>, depth: nat) returns (r: Option<seq<Value>>)
      requires Closed(graph) && GoodRefs(graph, refs) && GoodPath(graph, path, depth)
      modifies this
      ensures (r, objects) == ReadAll(graph, caching, mutability, kind, refs, 0, [], old(objects), old(path), depth)
      ensures r.Some? ==> path == old(path)
      ensures old(deepest) <= deepest && (deepest == old(deepest) || deepest <= 16 + |graph.table|)
      decreases Room(graph, path, depth), 2
    {
      var idx, list := 0, [];
      while idx < |refs|
        invariant 0 <= idx <= |refs| && path == old(path)
        invariant old(deepest) <= deepest && (deepest == old(deepest) || deepest <= 16 + |graph.table|)
        invariant ReadAll(graph, caching, mutability, kind, refs, 0, [], old(objects), path, depth)
               == ReadAll(graph, caching, mutability, kind, refs, idx, list, objects, path, depth)
      {
        var pl := CreateObject(refs[idx], depth);
        if pl.None? || (kind == DictKind && idx < |refs| / 2 && !IsPrimitive(pl.value)) {
          return None;
        }
        list := list + [pl.value];
        idx := idx + 1;
      }
      r := Some(list);
    }
  }
}
