/**
  The steps CFBasicHash is built from: probing, choosing a size, moving entries to new buckets, and
  what each change of one bucket does to the table's invariant.
 */
module HashSteps {
  import opened HashModel
  import opened HashSpec
  import opened HashStore

  /**
    `__CFBasicHashGetNumBucketsIndexForCapacity`: the least table index with room for `capacity`
    entries, and the one after it when growing fast.
   */
  method IndexForCapacity(tables: Tables, fast: bool, capacity: nat) returns (idx: nat)
    requires tables.Sane() && capacity <= tables.Most(fast)
    ensures idx == GrownIndex(tables, fast, capacity)
    ensures idx < |tables.capacities| && capacity <= tables.capacities[idx]
    ensures fast ==> 0 < idx && capacity <= tables.capacities[idx - 1]
    ensures forall j :: 0 <= j < (if fast then idx - 1 else idx) ==> tables.capacities[j] < capacity
  {
    Capacities(tables, |tables.capacities| - 2, |tables.capacities| - 1);
    idx := 0;
    while tables.capacities[idx] < capacity
      invariant idx < |tables.capacities| && LeastFrom(tables, 0, capacity) == LeastFrom(tables, idx, capacity)
      decreases |tables.capacities| - idx
    {
      idx := idx + 1;
    }
    if fast { idx := idx + 1; }
  }

  /** `__CFBasicHashFindBucket_NoCollision`: the first empty bucket probed for a key known to be absent. */
  method FindEmpty(cb: KeyCallbacks, store: Store, key: Word) returns (idx: nat)
    requires store.Valid() && exists p :: 0 <= p < |store.Slots()| && store.Slots()[p].Empty?
    ensures idx < |store.Slots()| && store.Slots()[idx].Empty?
    ensures Unbroken(store.Slots(), cb.Home(|store.Slots()|, key), idx)
  {
    ghost var slots := store.Slots();
    ghost var free :| 0 <= free < |slots| && slots[free].Empty?;
    var n := store.values.Length;
    var h := cb.hash(cb.canon(key)) % n;
    var i := 0;
    idx := h;
    while !store.SlotAt(idx).Empty?
      invariant i < n && idx < n && Dist(n, h, idx) == i <= Dist(n, h, free)
      invariant forall q :: 0 <= q < n && Dist(n, h, q) < i ==> !slots[q].Empty?
      decreases n - i
    {
      idx := idx + 1;
      if n <= idx { idx := idx - n; }
      i := i + 1;
    }
  }

  /** A live bucket holds words that can be stored, and a count in range. */
  predicate CleanSlot(hasKeys: bool, hasCounts: bool, s: Slot)
    requires s.Live?
  {
    && Storable(s.key) && Storable(s.value) && (!hasKeys ==> s.key == s.value)
    && 1 <= s.count <= LONG_MAX && (!hasCounts ==> s.count == 1)
  }

  predicate Clean(hasKeys: bool, hasCounts: bool, slots: seq<Slot>) {
    forall p :: 0 <= p < |slots| && slots[p].Live? ==> CleanSlot(hasKeys, hasCounts, slots[p])
  }

  ghost predicate Good(cb: KeyCallbacks, hasKeys: bool, hasCounts: bool, slots: seq<Slot>, at: map<Word, nat>) {
    Consistent(cb, slots, at) && Clean(hasKeys, hasCounts, slots)
  }

  /** The first `probes` buckets probed from `h` are in use and none of them holds the key. */
  predicate Missed(cb: KeyCallbacks, slots: seq<Slot>, key: Word, h: nat, probes: nat)
    requires h < |slots|
  {
    forall q :: 0 <= q < |slots| && Dist(|slots|, h, q) < probes ==>
      !slots[q].Empty? && !(slots[q].Live? && cb.Equal(slots[q].key, key))
  }

  /** When probing for a key meets an empty bucket, or has seen all buckets, before meeting the key, the key is absent. */
  lemma AbsentAfter(cb: KeyCallbacks, slots: seq<Slot>, at: map<Word, nat>, key: Word, probes: nat)
    requires Consistent(cb, slots, at) && 0 < |slots| && Missed(cb, slots, key, cb.Home(|slots|, key), probes)
    requires probes < |slots| ==>
               exists stop :: 0 <= stop < |slots| && slots[stop].Empty? && Dist(|slots|, cb.Home(|slots|, key), stop) == probes
    ensures cb.canon(key) !in at
  {
  }

  /** The probing loop of `CFBasicHashFindBucket.m`; `probes` is how many buckets it passed over. */
  method Probe(cb: KeyCallbacks, store: Store, key: Word) returns (idx: int, count: nat, ghost probes: nat)
    requires store.Valid() && 0 < store.values.Length
    ensures 0 < count ==> 0 <= idx < |store.Slots()| && store.Slots()[idx].Live? && cb.Equal(store.Slots()[idx].key, key)
    ensures 0 < count ==> count == store.Slots()[idx].count
    ensures count == 0 ==>
              var slots := store.Slots();
              var n, h := |slots|, cb.Home(|slots|, key);
              && Missed(cb, slots, key, h, probes)
              && (probes < n ==> exists stop :: 0 <= stop < n && slots[stop].Empty? && Dist(n, h, stop) == probes)
              && (idx != -1 ==> 0 <= idx < n && !slots[idx].Live? && Unbroken(slots, h, idx))
              && (idx == -1 ==> forall p :: 0 <= p < n ==> slots[p].Live?)
  {
    hide Missed, Unbroken, Probing;
    ghost var slots := store.Slots();
    var n := store.values.Length;
    var h := cb.hash(cb.canon(key)) % n;
    var deletedIdx: int := -1;
    var probe: nat := h;
    var i := 0;
    ProbeStart(cb, slots, key, h);
    while i < n
      invariant 0 <= i <= n && (i < n ==> probe < n && Dist(n, h, probe) == i)
      invariant Probing(cb, slots, key, h, i, deletedIdx)
    {
      var s := store.SlotAt(probe);
      assert s == slots[probe];
      if s.Empty? {
        ProbeStop(cb, slots, key, h, i, deletedIdx, probe);
        return (if deletedIdx == -1 then probe else deletedIdx), 0, i;
      } else if s.Live? && cb.Equal(s.key, key) {
        return probe, s.count, i;
      }
      ProbeNext(cb, slots, key, h, i, deletedIdx, probe);
      if s.Deleted? && deletedIdx == -1 { deletedIdx := probe; }
      probe := probe + 1;
      if n <= probe { probe := probe - n; }
      i := i + 1;
    }
    ProbeEnd(cb, slots, key, h, deletedIdx);
    idx, count, probes := deletedIdx, 0, n;
  }

  /** After passing over `i` buckets, `d` is the first deleted one among them, or -1. */
  predicate Probing(cb: KeyCallbacks, slots: seq<Slot>, key: Word, h: nat, i: nat, d: int)
    requires h < |slots|
  {
    && Missed(cb, slots, key, h, i)
    && (d == -1 ==> forall q :: 0 <= q < |slots| && Dist(|slots|, h, q) < i ==> !slots[q].Deleted?)
    && (d != -1 ==> 0 <= d < |slots| && slots[d].Deleted? && Unbroken(slots, h, d))
  }

  lemma ProbeStart(cb: KeyCallbacks, slots: seq<Slot>, key: Word, h: nat)
    requires h < |slots|
    ensures Probing(cb, slots, key, h, 0, -1)
  {
  }

  lemma ProbeNext(cb: KeyCallbacks, slots: seq<Slot>, key: Word, h: nat, i: nat, d: int, probe: nat)
    requires h < |slots| && probe < |slots| && Dist(|slots|, h, probe) == i && Probing(cb, slots, key, h, i, d)
    requires !slots[probe].Empty? && !(slots[probe].Live? && cb.Equal(slots[probe].key, key))
    ensures Probing(cb, slots, key, h, i + 1, if slots[probe].Deleted? && d == -1 then probe else d)
  {
    forall q | 0 <= q < |slots| && Dist(|slots|, h, q) < i + 1
      ensures q == probe || Dist(|slots|, h, q) < i
    {
    }
  }

  lemma ProbeStop(cb: KeyCallbacks, slots: seq<Slot>, key: Word, h: nat, i: nat, d: int, probe: nat)
    requires h < |slots| && probe < |slots| && Dist(|slots|, h, probe) == i && Probing(cb, slots, key, h, i, d)
    requires slots[probe].Empty?
    ensures Missed(cb, slots, key, h, i)
    ensures var idx := if d == -1 then probe else d;
            0 <= idx < |slots| && !slots[idx].Live? && Unbroken(slots, h, idx)
  {
  }

  lemma ProbeEnd(cb: KeyCallbacks, slots: seq<Slot>, key: Word, h: nat, d: int)
    requires h < |slots| && Probing(cb, slots, key, h, |slots|, d)
    ensures Missed(cb, slots, key, h, |slots|)
    ensures if d == -1 then forall p :: 0 <= p < |slots| ==> slots[p].Live?
            else 0 <= d < |slots| && !slots[d].Live? && Unbroken(slots, h, d)
  {
    forall p | 0 <= p < |slots|
      ensures Dist(|slots|, h, p) < |slots|
    {
    }
  }

  /** What part of a rehash has moved so far: the entries of the first `n` old buckets. */
  ghost predicate Moved(cb: KeyCallbacks, from: seq<Slot>, fromAt: map<Word, nat>, n: nat, to: seq<Slot>, toAt: map<Word, nat>)
    requires Indexed(cb, from, fromAt) && Indexed(cb, to, toAt)
  {
    && (forall c :: c in toAt <==> c in fromAt && fromAt[c] < n)
    && (forall c :: c in toAt ==> to[toAt[c]] == from[fromAt[c]])
    && (forall p :: 0 <= p < |to| ==> !to[p].Deleted?)
  }

  lemma MoveNext(cb: KeyCallbacks, from: seq<Slot>, fromAt: map<Word, nat>, n: nat, to: seq<Slot>, toAt: map<Word, nat>, i: nat)
    requires Indexed(cb, from, fromAt) && Consistent(cb, to, toAt) && n < |from| && Moved(cb, from, fromAt, n, to, toAt)
    requires from[n].Live? && i < |to| && to[i].Empty? && Unbroken(to, cb.Home(|to|, from[n].key), i)
    ensures var toAt2 := toAt[cb.canon(from[n].key) := i];
            var to2 := to[i := from[n]];
            Consistent(cb, to2, toAt2) && Moved(cb, from, fromAt, n + 1, to2, toAt2)
  {
    var s := from[n];
    var c := cb.canon(s.key);
    assert c in fromAt && fromAt[c] == n && c !in toAt;
    FillKeeps(cb, to, toAt, i, s);
    forall d | d in toAt
      ensures toAt[d] != i
    {
    }
    forall d | d in fromAt && fromAt[d] == n
      ensures d == c
    {
    }
  }

  lemma MoveOwned(from: seq<Slot>, n: nat, to: seq<Slot>, i: nat, side: bool)
    requires n < |from| && i < |to| && !to[i].Live?
    requires Owned(to, side) == Owned(from[..n], side)
    ensures Owned(to[i := from[n]], side) == Owned(from[..n + 1], side)
  {
    OwnedUpdate(to, side, i, from[n]);
    assert from[..n + 1][..n] == from[..n];
  }

  lemma SkipOwned(from: seq<Slot>, n: nat, side: bool)
    requires n < |from| && !from[n].Live?
    ensures Owned(from[..n + 1], side) == Owned(from[..n], side)
  {
    assert from[..n + 1][..n] == from[..n];
  }

  /** While some old entry has not moved yet, the new buckets have an empty one. */
  lemma RoomToMove(cb: KeyCallbacks, from: seq<Slot>, fromAt: map<Word, nat>, n: nat, to: seq<Slot>, toAt: map<Word, nat>) returns (p: nat)
    requires Indexed(cb, from, fromAt) && Indexed(cb, to, toAt) && Moved(cb, from, fromAt, n, to, toAt)
    requires n < |from| && from[n].Live? && |LiveSet(from)| <= |to|
    ensures p < |to| && to[p].Empty?
  {
    SizeOfIndex(cb, from, fromAt);
    SizeOfIndex(cb, to, toAt);
    SmallerIndex(toAt.Keys, fromAt.Keys, cb.canon(from[n].key));
    p := SomeFree(to);
  }

  lemma SmallerIndex(a: set<Word>, b: set<Word>, c: Word)
    requires a <= b && c in b && c !in a
    ensures |a| < |b|
  {
    assert b == a + (b - a) && c in b - a;
  }

  lemma AllMoved(cb: KeyCallbacks, from: seq<Slot>, fromAt: map<Word, nat>, to: seq<Slot>, toAt: map<Word, nat>)
    requires Indexed(cb, from, fromAt) && Indexed(cb, to, toAt) && Moved(cb, from, fromAt, |from|, to, toAt)
    ensures Contents(cb, to, toAt) == Contents(cb, from, fromAt)
    ensures DeletedSet(to) == {} && |LiveSet(to)| == |LiveSet(from)|
  {
    SizeOfIndex(cb, from, fromAt);
    SizeOfIndex(cb, to, toAt);
    assert toAt.Keys == fromAt.Keys;
  }

  /** The copying loop of `__CFBasicHashRehash` */
  method Migrate(cb: KeyCallbacks, from: Store, ghost fromAt: map<Word, nat>, to: Store) returns (ghost toAt: map<Word, nat>)
    requires from.Valid() && to.Valid() && from != to
    requires to.hasKeys == from.hasKeys && to.hasCounts == from.hasCounts && to.width == from.width
    requires {to.values, to.keys} !! {from.values, from.keys} && to.counts != from.counts
    requires Good(cb, from.hasKeys, from.hasCounts, from.Slots(), fromAt)
    requires |LiveSet(from.Slots())| <= |to.Slots()| && forall p :: 0 <= p < |to.Slots()| ==> to.Slots()[p].Empty?
    modifies to.values, to.keys, to.counts
    ensures to.Valid() && Good(cb, to.hasKeys, to.hasCounts, to.Slots(), toAt)
    ensures from.Valid() && from.Slots() == old(from.Slots())
    ensures Contents(cb, to.Slots(), toAt) == Contents(cb, from.Slots(), fromAt)
    ensures DeletedSet(to.Slots()) == {} && |LiveSet(to.Slots())| == |LiveSet(from.Slots())|
    ensures forall side :: Owned(to.Slots(), side) == Owned(from.Slots(), side)
  {
    hide Placed, Indexed, Clean, Moved, Owned, Contents;
    toAt := map[];
    var idx := 0;
    ghost var slots := from.Slots();
    ghost var cur := to.Slots();
    StartMove(cb, to.hasKeys, to.hasCounts, slots, fromAt, cur);
    while idx < from.values.Length
      invariant 0 <= idx <= |slots| && from.Valid() && from.Slots() == slots && to.Valid() && to.Slots() == cur
      invariant |LiveSet(slots)| <= |cur| && Moving(cb, to.hasKeys, to.hasCounts, slots, fromAt, idx, cur, toAt)
      modifies to.values, to.keys, to.counts
    {
      var s := from.SlotAt(idx);
      assert s == slots[idx];
      if s.Live? {
        CleanAt(to.hasKeys, to.hasCounts, slots, idx);
        ghost var p := RoomToMove(cb, slots, fromAt, idx, cur, toAt);
        var i := MoveOne(cb, s, to);
        MoveAll(cb, to.hasKeys, to.hasCounts, slots, fromAt, idx, cur, toAt, i);
        cur, toAt := cur[i := s], toAt[cb.canon(s.key) := i];
      } else {
        MoveNone(cb, to.hasKeys, to.hasCounts, slots, fromAt, idx, cur, toAt);
      }
      idx := idx + 1;
    }
    assert slots[..idx] == slots;
    AllMoved(cb, slots, fromAt, cur, toAt);
  }

  lemma CleanAt(hasKeys: bool, hasCounts: bool, slots: seq<Slot>, p: nat)
    requires Clean(hasKeys, hasCounts, slots) && p < |slots| && slots[p].Live?
    ensures CleanSlot(hasKeys, hasCounts, slots[p])
  {
  }

  /** One turn of that loop: a live entry goes to the first empty bucket probed for its key. */
  method MoveOne(cb: KeyCallbacks, s: Slot, to: Store) returns (i: nat)
    requires to.Valid() && s.Live? && 0 < s.count <= MaxCount(to.width) && (!to.hasCounts ==> s.count == 1)
    requires Storable(s.key) && Storable(s.value) && (!to.hasKeys ==> s.key == s.value)
    requires exists p :: 0 <= p < |to.Slots()| && to.Slots()[p].Empty?
    modifies to.values, to.keys, to.counts
    ensures to.Valid() && i < old(|to.Slots()|) && to.Slots() == old(to.Slots())[i := s]
    ensures old(to.Slots()[i].Empty?) && Unbroken(old(to.Slots()), cb.Home(old(|to.Slots()|), s.key), i)
  {
    i := FindEmpty(cb, to, s.key);
    to.Place(i, s.key, s.value, s.count);
  }

  /** The loop's invariant: everything in the first `n` old buckets has moved. */
  ghost predicate Moving(cb: KeyCallbacks, hasKeys: bool, hasCounts: bool, from: seq<Slot>, fromAt: map<Word, nat>, n: nat,
                         to: seq<Slot>, toAt: map<Word, nat>)
    requires Indexed(cb, from, fromAt) && n <= |from|
  {
    && Good(cb, hasKeys, hasCounts, to, toAt) && Moved(cb, from, fromAt, n, to, toAt)
    && Owned(to, true) == Owned(from[..n], true) && Owned(to, false) == Owned(from[..n], false)
  }

  lemma StartMove(cb: KeyCallbacks, hasKeys: bool, hasCounts: bool, from: seq<Slot>, fromAt: map<Word, nat>, to: seq<Slot>)
    requires Indexed(cb, from, fromAt) && forall p :: 0 <= p < |to| ==> to[p].Empty?
    ensures Moving(cb, hasKeys, hasCounts, from, fromAt, 0, to, map[])
  {
    OwnedOfEmpty(to, true);
    OwnedOfEmpty(to, false);
  }

  lemma MoveAll(cb: KeyCallbacks, hasKeys: bool, hasCounts: bool, from: seq<Slot>, fromAt: map<Word, nat>, n: nat,
                to: seq<Slot>, toAt: map<Word, nat>, i: nat)
    requires Good(cb, hasKeys, hasCounts, from, fromAt) && n < |from| && from[n].Live?
    requires Moving(cb, hasKeys, hasCounts, from, fromAt, n, to, toAt)
    requires i < |to| && to[i].Empty? && Unbroken(to, cb.Home(|to|, from[n].key), i)
    ensures Moving(cb, hasKeys, hasCounts, from, fromAt, n + 1, to[i := from[n]], toAt[cb.canon(from[n].key) := i])
  {
    hide Placed, Indexed, Moved, Owned;
    MoveNext(cb, from, fromAt, n, to, toAt, i);
    MoveOwned(from, n, to, i, true);
    MoveOwned(from, n, to, i, false);
  }

  lemma MoveNone(cb: KeyCallbacks, hasKeys: bool, hasCounts: bool, from: seq<Slot>, fromAt: map<Word, nat>, n: nat,
                 to: seq<Slot>, toAt: map<Word, nat>)
    requires Indexed(cb, from, fromAt) && n < |from| && !from[n].Live?
    requires Moving(cb, hasKeys, hasCounts, from, fromAt, n, to, toAt)
    ensures Moving(cb, hasKeys, hasCounts, from, fromAt, n + 1, to, toAt)
  {
    SkipOwned(from, n, true);
    SkipOwned(from, n, false);
  }

  lemma KeysOfContents(cb: KeyCallbacks, slots: seq<Slot>, at: map<Word, nat>)
    requires Indexed(cb, slots, at)
    ensures Contents(cb, slots, at).Keys == at.Keys
  {
  }

  lemma NoKeys(cb: KeyCallbacks, slots: seq<Slot>, at: map<Word, nat>)
    requires Indexed(cb, slots, at) && slots == []
    ensures at == map[]
  {
  }

  lemma SomeEmpty(slots: seq<Slot>)
    requires |LiveSet(slots)| < |slots| && |DeletedSet(slots)| == 0
    ensures exists p :: 0 <= p < |slots| && slots[p].Empty?
  {
    var p := SomeFree(slots);
    assert p !in DeletedSet(slots);
  }

  lemma AllLive(slots: seq<Slot>)
    requires forall p :: 0 <= p < |slots| ==> slots[p].Live?
    ensures |LiveSet(slots)| == |slots|
  {
    RangeSize(|slots|, LiveSet(slots));
  }

  /** What filling a free bucket does to everything the table's invariant speaks of. */
  lemma Filled(cb: KeyCallbacks, hasKeys: bool, hasCounts: bool, slots: seq<Slot>, at: map<Word, nat>, i: nat, s: Slot)
    requires Good(cb, hasKeys, hasCounts, slots, at) && i < |slots| && !slots[i].Live? && s.Live?
    requires CleanSlot(hasKeys, hasCounts, s) && cb.canon(s.key) !in at && Unbroken(slots, cb.Home(|slots|, s.key), i)
    ensures var c, after := cb.canon(s.key), slots[i := s];
            && Good(cb, hasKeys, hasCounts, after, at[c := i])
            && Contents(cb, after, at[c := i]) == Contents(cb, slots, at)[c := EntryOf(s)]
            && |LiveSet(after)| == |LiveSet(slots)| + 1
            && |DeletedSet(after)| == |DeletedSet(slots)| - (if slots[i].Deleted? then 1 else 0)
    ensures Owned(slots[i := s], true) == Owned(slots, true) + multiset{s.key}
    ensures Owned(slots[i := s], false) == Owned(slots, false) + multiset{s.value}
  {
    hide Placed, Indexed, Contents, Owned, LiveSet, DeletedSet, Unbroken;
    FillKeeps(cb, slots, at, i, s);
    LiveSetFill(slots, i, s);
    OwnedUpdate(slots, true, i, s);
    OwnedUpdate(slots, false, i, s);
  }

  // ---------------------------------------------------------------- retains and releases

  function Noted(on: bool, m: multiset<Word>, w: Word): multiset<Word> {
    if on then m + multiset{w} else m
  }

  /** When callbacks are in use, every retain is matched by a release or by a live bucket. */
  predicate Balance(on: bool, retains: multiset<Word>, releases: multiset<Word>, owned: multiset<Word>) {
    on ==> retains == releases + owned
  }

  lemma RetainKeeps(on: bool, retains: multiset<Word>, releases: multiset<Word>, owned: multiset<Word>, w: Word)
    requires Balance(on, retains, releases, owned)
    ensures Balance(on, Noted(on, retains, w), releases, owned + multiset{w})
  {
    assert releases + (owned + multiset{w}) == (releases + owned) + multiset{w};
  }

  lemma ReleaseKeeps(on: bool, retains: multiset<Word>, releases: multiset<Word>, owned: multiset<Word>, w: Word)
    requires Balance(on, retains, releases, owned + multiset{w})
    ensures Balance(on, retains, Noted(on, releases, w), owned)
  {
    assert releases + (owned + multiset{w}) == (releases + multiset{w}) + owned;
  }

  /** What overwriting a live bucket does to everything the table's invariant speaks of. */
  lemma Updated(cb: KeyCallbacks, hasKeys: bool, hasCounts: bool, slots: seq<Slot>, at: map<Word, nat>, i: nat, s: Slot)
    requires Good(cb, hasKeys, hasCounts, slots, at) && i < |slots| && slots[i].Live? && s.Live?
    requires CleanSlot(hasKeys, hasCounts, s) && cb.Equal(s.key, slots[i].key)
    ensures var c, after := cb.canon(s.key), slots[i := s];
            && Good(cb, hasKeys, hasCounts, after, at) && c in at
            && Contents(cb, after, at) == Contents(cb, slots, at)[c := EntryOf(s)]
            && LiveSet(after) == LiveSet(slots) && DeletedSet(after) == DeletedSet(slots)
    ensures Owned(slots[i := s], true) + multiset{slots[i].key} == Owned(slots, true) + multiset{s.key}
    ensures Owned(slots[i := s], false) + multiset{slots[i].value} == Owned(slots, false) + multiset{s.value}
    ensures s.key == slots[i].key ==> Owned(slots[i := s], true) == Owned(slots, true)
    ensures s.value == slots[i].value ==> Owned(slots[i := s], false) == Owned(slots, false)
  {
    hide Placed, Indexed, Contents, Owned, LiveSet, DeletedSet;
    UpdateKeeps(cb, slots, at, i, s);
    LiveSetUpdate(slots, i, s);
    OwnedUpdate(slots, true, i, s);
    OwnedUpdate(slots, false, i, s);
    CancelOne(Owned(slots[i := s], true), Owned(slots, true), s.key);
    CancelOne(Owned(slots[i := s], false), Owned(slots, false), s.value);
  }

  lemma CancelOne(a: multiset<Word>, b: multiset<Word>, w: Word)
    ensures a + multiset{w} == b + multiset{w} ==> a == b
  {
    assert (a + multiset{w}) - multiset{w} == a && (b + multiset{w}) - multiset{w} == b;
  }

  /** What removing a live bucket's entry does to everything the table's invariant speaks of. */
  lemma Removed(cb: KeyCallbacks, hasKeys: bool, hasCounts: bool, slots: seq<Slot>, at: map<Word, nat>, i: nat)
    requires Good(cb, hasKeys, hasCounts, slots, at) && i < |slots| && slots[i].Live?
    ensures var c, after := cb.canon(slots[i].key), slots[i := Deleted];
            && Good(cb, hasKeys, hasCounts, after, at - {c})
            && Contents(cb, after, at - {c}) == Contents(cb, slots, at) - {c}
            && |LiveSet(after)| == |LiveSet(slots)| - 1 && |DeletedSet(after)| == |DeletedSet(slots)| + 1
    ensures Owned(slots[i := Deleted], true) + multiset{slots[i].key} == Owned(slots, true)
    ensures Owned(slots[i := Deleted], false) + multiset{slots[i].value} == Owned(slots, false)
  {
    hide Placed, Indexed, Contents, Owned, LiveSet, DeletedSet;
    RemoveKeeps(cb, slots, at, i);
    LiveSetRemove(slots, i);
    OwnedUpdate(slots, true, i, Deleted);
    OwnedUpdate(slots, false, i, Deleted);
  }

  lemma SwapKeeps(on: bool, retains: multiset<Word>, releases: multiset<Word>, owned: multiset<Word>, after: multiset<Word>,
                  was: Word, w: Word)
    requires Balance(on, retains, releases, owned) && after + multiset{was} == owned + multiset{w}
    ensures Balance(on, Noted(on, retains, w), Noted(on, releases, was), after)
  {
    RetainKeeps(on, retains, releases, owned, w);
    ReleaseKeeps(on, Noted(on, retains, w), releases, after, was);
  }

  /** A bucket that probing found holds the entry the table has for the key. */
  lemma FoundEntry(cb: KeyCallbacks, hasKeys: bool, hasCounts: bool, slots: seq<Slot>, at: map<Word, nat>, key: Word, i: nat)
    requires Good(cb, hasKeys, hasCounts, slots, at) && i < |slots| && slots[i].Live? && cb.Equal(slots[i].key, key)
    ensures cb.canon(key) in Contents(cb, slots, at) && Contents(cb, slots, at)[cb.canon(key)] == EntryOf(slots[i])
    ensures CleanSlot(hasKeys, hasCounts, slots[i])
  {
  }

  function AllNoted(on: bool, m: multiset<Word>, ws: multiset<Word>): multiset<Word> {
    if on then m + ws else m
  }

  lemma NoteNext(on: bool, m: multiset<Word>, slots: seq<Slot>, k: nat, side: bool)
    requires k < |slots|
    ensures var sofar, s := AllNoted(on, m, Owned(slots[..k], side)), slots[k];
            AllNoted(on, m, Owned(slots[..k + 1], side))
              == if s.Live? then Noted(on, sofar, if side then s.key else s.value) else sofar
  {
    assert slots[..k + 1][..k] == slots[..k];
    assert m + (Owned(slots[..k], side) + Held(slots[k], side)) == (m + Owned(slots[..k], side)) + Held(slots[k], side);
  }

  lemma ReleasedAll(on: bool, retains: multiset<Word>, releases: multiset<Word>, owned: multiset<Word>)
    requires Balance(on, retains, releases, owned)
    ensures Balance(on, retains, AllNoted(on, releases, owned), multiset{})
  {
    assert (releases + owned) + multiset{} == releases + owned;
  }

  lemma NothingNoted(on: bool, m: multiset<Word>)
    ensures AllNoted(on, m, multiset{}) == m
  {
  }

  /** A table without buckets. */
  lemma NoEntries(cb: KeyCallbacks, hasKeys: bool, hasCounts: bool, slots: seq<Slot>, at: map<Word, nat>)
    ensures slots == [] && at == map[] ==> Good(cb, hasKeys, hasCounts, slots, at)
    ensures slots == [] && Good(cb, hasKeys, hasCounts, slots, at) ==>
              && Contents(cb, slots, at) == map[] && LiveSet(slots) == {} && DeletedSet(slots) == {}
              && Owned(slots, true) == multiset{} && Owned(slots, false) == multiset{}
  {
  }

  // ---------------------------------------------------------------- renumbering

  function ShiftedSlot(up: bool, v: Word, s: Slot): Slot {
    if s.Live? then s.(value := Shifted(up, v, s.value)) else s
  }

  /** The buckets after the renumbering loop has seen the first `n`. */
  function ShiftedSlots(up: bool, v: Word, slots: seq<Slot>, n: nat): (r: seq<Slot>)
    ensures |r| == |slots|
  {
    seq(|slots|, p requires 0 <= p < |slots| => if p < n then ShiftedSlot(up, v, slots[p]) else slots[p])
  }

  lemma ShiftKeeps(cb: KeyCallbacks, hasCounts: bool, slots: seq<Slot>, at: map<Word, nat>, up: bool, v: Word)
    requires Good(cb, true, hasCounts, slots, at) && CanShift(up, Contents(cb, slots, at), v)
    ensures var after := ShiftedSlots(up, v, slots, |slots|);
            && Good(cb, true, hasCounts, after, at)
            && Contents(cb, after, at) == AllShifted(up, Contents(cb, slots, at), v)
            && LiveSet(after) == LiveSet(slots) && DeletedSet(after) == DeletedSet(slots)
            && Owned(after, true) == Owned(slots, true)
  {
    hide Placed, Indexed, Contents, Clean, Owned, AllShifted, CanShift, Shifted;
    var after := ShiftedSlots(up, v, slots, |slots|);
    SameShape(cb, slots, after);
    StorableShift(cb, hasCounts, slots, at, up, v);
    ShiftedContents(cb, slots, at, up, v);
    SameKeys(slots, after);
  }

  lemma ShiftedContents(cb: KeyCallbacks, slots: seq<Slot>, at: map<Word, nat>, up: bool, v: Word)
    requires Indexed(cb, slots, at)
    ensures var after := ShiftedSlots(up, v, slots, |slots|);
            Indexed(cb, after, at) && Contents(cb, after, at) == AllShifted(up, Contents(cb, slots, at), v)
  {
    hide Shifted;
    var after := ShiftedSlots(up, v, slots, |slots|);
    assert forall p :: 0 <= p < |slots| ==> after[p] == ShiftedSlot(up, v, slots[p]);
  }

  lemma StorableShift(cb: KeyCallbacks, hasCounts: bool, slots: seq<Slot>, at: map<Word, nat>, up: bool, v: Word)
    requires Good(cb, true, hasCounts, slots, at) && CanShift(up, Contents(cb, slots, at), v)
    ensures Clean(true, hasCounts, ShiftedSlots(up, v, slots, |slots|))
  {
    var after := ShiftedSlots(up, v, slots, |slots|);
    forall p | 0 <= p < |after| && after[p].Live?
      ensures CleanSlot(true, hasCounts, after[p])
    {
      var c := cb.canon(slots[p].key);
      assert c in Contents(cb, slots, at) && Contents(cb, slots, at)[c] == EntryOf(slots[p]);
    }
  }

  predicate Alike(s: Slot, t: Slot) {
    s.Empty? == t.Empty? && s.Live? == t.Live? && (s.Live? ==> s.key == t.key)
  }

  lemma SameShape(cb: KeyCallbacks, slots: seq<Slot>, after: seq<Slot>)
    requires |slots| == |after| && (forall p :: 0 <= p < |slots| ==> Alike(slots[p], after[p])) && Placed(cb, slots)
    ensures Placed(cb, after)
  {
    forall p | 0 <= p < |after| && after[p].Live?
      ensures Unbroken(after, cb.Home(|after|, after[p].key), p)
    {
      assert Alike(slots[p], after[p]);
      assert Unbroken(slots, cb.Home(|slots|, slots[p].key), p);
    }
  }

  lemma {:induction false} SameKeys(slots: seq<Slot>, after: seq<Slot>)
    requires |slots| == |after| && forall p :: 0 <= p < |slots| ==> Alike(slots[p], after[p])
    ensures Owned(after, true) == Owned(slots, true)
  {
    if slots != [] {
      var last := |slots| - 1;
      SameKeys(slots[..last], after[..last]);
      assert Alike(slots[last], after[last]);
    }
  }

  /** Buckets that are alike are probed alike. */
  lemma StillUnbroken(slots: seq<Slot>, h: nat, i: nat)
    requires h < |slots| && i < |slots| && Unbroken(slots, h, i)
    ensures forall after: seq<Slot> ::
              |after| == |slots| && (forall p :: 0 <= p < |slots| ==> Alike(slots[p], after[p])) ==> Unbroken(after, h, i)
  {
  }

  lemma SomeBucketHolds(cb: KeyCallbacks, slots: seq<Slot>, at: map<Word, nat>, v: Word)
    requires Indexed(cb, slots, at) && exists c :: c in Contents(cb, slots, at) && Contents(cb, slots, at)[c].value == v
    ensures exists p :: 0 <= p < |slots| && slots[p].Live? && slots[p].value == v
  {
    var c :| c in Contents(cb, slots, at) && Contents(cb, slots, at)[c].value == v;
    assert slots[at[c]].value == v;
  }

  lemma EntryAt(cb: KeyCallbacks, slots: seq<Slot>, at: map<Word, nat>, p: nat)
    requires Indexed(cb, slots, at) && p < |slots| && slots[p].Live?
    ensures var c := cb.canon(slots[p].key);
            c in Contents(cb, slots, at) && Contents(cb, slots, at)[c] == EntryOf(slots[p])
  {
  }
}
