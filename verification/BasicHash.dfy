/**
  CFBasicHash with linear probing, the style CFDictionary, CFSet and CFBag use: finding, adding,
  replacing, removing, growing, shrinking and renumbering.
 */
module BasicHash {
  import opened HashModel
  import opened HashSpec
  import opened HashSteps
  import opened HashStore

  class Table {
    const tables: Tables
    const cb: KeyCallbacks
    const hasKeys: bool      // a dictionary; otherwise the value is its own key
    const hasCounts: bool    // a bag
    const fastGrow: bool
    const intValues: bool    // values are integers and have no callbacks
    var store: Store
    var numBucketsIdx: nat
    var used: nat            // `used_buckets`
    var deleted: nat         // a 16-bit field
    var keyRetains: multiset<Word>
    var keyReleases: multiset<Word>
    var valueRetains: multiset<Word>
    var valueReleases: multiset<Word>

    /** What the store holds, and for each key class in the table the bucket that holds it. */
    ghost var slots: seq<Slot>
    ghost var at: map<Word, nat>

    constructor (tables: Tables, cb: KeyCallbacks, hasKeys: bool, hasCounts: bool, fastGrow: bool, intValues: bool)
      requires tables.Sane()
      ensures Valid() && Balanced() && Entries() == map[] && fresh(Repr())
      ensures this.cb == cb && this.tables == tables && this.hasKeys == hasKeys && this.hasCounts == hasCounts
      ensures this.fastGrow == fastGrow && numBucketsIdx == 0
    {
      this.tables, this.cb, this.hasKeys, this.hasCounts := tables, cb, hasKeys, hasCounts;
      this.fastGrow, this.intValues := fastGrow, intValues;
      store := new Store(0, hasKeys, hasCounts, 0);
      numBucketsIdx, used, deleted, slots, at := 0, 0, 0, [], map[];
      keyRetains, keyReleases, valueRetains, valueReleases := multiset{}, multiset{}, multiset{}, multiset{};
    }

    /** The objects the table owns. */
    ghost function Repr(): set<object>
      reads this, store
    {
      {this, store, store.values, store.keys, store.counts}
    }

    /** The arrays agree with the header fields and with each other. */
    ghost predicate Shaped()
      reads this, store, store.values, store.keys, store.counts
    {
      && tables.Sane() && store.Valid() && store.hasKeys == hasKeys && store.hasCounts == hasCounts
      && store.Slots() == slots && numBucketsIdx < |tables.sizes| && |slots| == tables.sizes[numBucketsIdx]
    }

    /** Everything that holds of a table except that `deleted` is right. */
    ghost predicate Usable()
      reads this, store, store.values, store.keys, store.counts
    {
      && Shaped()
      && Good(cb, hasKeys, hasCounts, slots, at)
      && used == |LiveSet(slots)| <= tables.capacities[numBucketsIdx]
    }

    ghost predicate Valid()
      reads this, store, store.values, store.keys, store.counts
    {
      Usable() && deleted == |DeletedSet(slots)| < 0x1_0000
    }

    /** Every retain is matched by a release or by a live bucket. */
    ghost predicate Balanced()
      reads this
    {
      && Balance(hasKeys, keyRetains, keyReleases, Owned(slots, true))
      && Balance(!intValues, valueRetains, valueReleases, Owned(slots, false))
    }

    /** There is room for one more entry, or a larger table to move to. */
    ghost predicate Roomy()
      requires tables.Sane() && numBucketsIdx < |tables.capacities|
      reads this
    {
      CanGrow(tables, fastGrow, numBucketsIdx, used)
    }

    /** The index after one more entry has been added to `was` ones at index `idx`. */
    ghost function IndexAfterAdding(was: nat, idx: nat): nat
      requires tables.Sane() && idx < |tables.capacities| && CanGrow(tables, fastGrow, idx, was)
    {
      if was < tables.capacities[idx] then idx else GrownIndex(tables, fastGrow, was + 1)
    }

    /** The index after a removal has left `n` entries at index `idx`. */
    ghost function IndexAfterRemoving(n: nat, idx: nat): nat
      requires tables.Sane() && idx < |tables.capacities| && n <= tables.Most(false)
    {
      if Sparse(tables, fastGrow, idx, n) then GrownIndex(tables, false, n) else idx
    }

    /** What the table stands for. */
    ghost function Entries(): map<Word, Entry>
      requires Indexed(cb, slots, at)
      reads this
    {
      Contents(cb, slots, at)
    }

    /**
      `CFBasicHashFindBucket` with linear probing. A count of zero means that the key is absent; then
      the index is a free bucket for it, or -1 when no bucket is free.
     */
    method FindBucket(key: Word) returns (idx: int, count: nat)
      requires Valid()
      ensures 0 < count ==> 0 <= idx < |slots| && slots[idx].Live? && cb.Equal(slots[idx].key, key)
      ensures 0 < count ==> count == slots[idx].count
      ensures 0 < count ==> cb.canon(key) in Entries() && Entries()[cb.canon(key)] == EntryOf(slots[idx])
      ensures 0 < count ==> CleanSlot(hasKeys, hasCounts, slots[idx])
      ensures count == 0 ==> cb.canon(key) !in at && cb.canon(key) !in Entries()
      ensures count == 0 && idx != -1 ==>
                && 0 <= idx < |slots| && !slots[idx].Live?
                && Unbroken(slots, cb.Home(|slots|, key), idx)
      ensures count == 0 && idx == -1 ==> forall p :: 0 <= p < |slots| ==> slots[p].Live?
    {
      hide Placed, Indexed, Clean, LiveSet, DeletedSet, Contents, Unbroken;
      KeysOfContents(cb, slots, at);
      if numBucketsIdx == 0 {
        NoKeys(cb, slots, at);
        return -1, 0;
      }
      assert tables.capacities[numBucketsIdx - 1] < tables.capacities[numBucketsIdx - 1 + 1];
      ghost var probes;
      idx, count, probes := Probe(cb, store, key);
      if count == 0 {
        AbsentAfter(cb, slots, at, key, probes);
      } else {
        FoundEntry(cb, hasKeys, hasCounts, slots, at, key, idx);
      }
    }

    /**
      `__CFBasicHashRehash`: the same entries in fresh buckets, with no deleted ones. A count of new
      items of 0 keeps the size, a negative one picks the least size for what is there.
     */
    method Rehash(newItemCount: int)
      requires Usable()
      requires 0 < newItemCount ==> used + newItemCount <= tables.Most(fastGrow && newItemCount == 1)
      modifies `store, `numBucketsIdx, `deleted, `slots, `at
      ensures Valid() && deleted == 0 && Entries() == old(Entries())
      ensures forall side :: Owned(slots, side) == old(Owned(slots, side))
      ensures fresh(Repr() - {this})
      ensures newItemCount >= 0 ==> used + newItemCount <= tables.capacities[numBucketsIdx]
      ensures newItemCount == 0 ==> numBucketsIdx == old(numBucketsIdx)
      ensures 0 < newItemCount ==> numBucketsIdx == GrownIndex(tables, fastGrow && newItemCount == 1, used + newItemCount)
      ensures newItemCount < 0 ==> used <= tables.Most(false) && numBucketsIdx == GrownIndex(tables, false, used)
    {
      hide Good, Owned, Contents, LiveSet, DeletedSet, GrownIndex;
      Capacities(tables, numBucketsIdx, |tables.capacities| - 1);
      var newIdx := numBucketsIdx;
      if newItemCount != 0 {
        newIdx := IndexForCapacity(tables, fastGrow && newItemCount == 1, used + if newItemCount < 0 then 0 else newItemCount);
      }
      Resize(newIdx);
    }

    /** The part of `__CFBasicHashRehash` after the new size is known. */
    method Resize(newIdx: nat)
      requires Usable() && newIdx < |tables.sizes| && used <= tables.capacities[newIdx]
      modifies `store, `numBucketsIdx, `deleted, `slots, `at
      ensures Valid() && deleted == 0 && Entries() == old(Entries()) && numBucketsIdx == newIdx
      ensures forall side :: Owned(slots, side) == old(Owned(slots, side))
      ensures fresh(Repr() - {this})
    {
      hide Placed, Indexed, Clean, Owned, Contents, LiveSet, DeletedSet, Store.Slots;
      var bigger := new Store(tables.sizes[newIdx], hasKeys, hasCounts, store.width);
      ghost var newAt := Migrate(cb, store, at, bigger);
      ghost var newSlots := bigger.Slots();
      store, numBucketsIdx, deleted, slots, at := bigger, newIdx, 0, newSlots, newAt;
    }

    /** Fills a free bucket that probing for the key reaches: the second half of `__CFBasicHashAddValue`. */
    method FillBucket(i: nat, key: Word, value: Word)
      requires Valid() && used < tables.capacities[numBucketsIdx]
      requires Storable(key) && Storable(value) && (!hasKeys ==> key == value)
      requires i < |slots| && !slots[i].Live? && Unbroken(slots, cb.Home(|slots|, key), i)
      requires cb.canon(key) !in at
      modifies `slots, `at, `used, `deleted, store, store.values, store.keys, store.counts
      ensures Valid() && fresh(Repr() - old(Repr()))
      ensures Entries() == old(Entries())[cb.canon(key) := Entry(key, value, 1)]
      ensures Owned(slots, true) == old(Owned(slots, true)) + multiset{key}
      ensures Owned(slots, false) == old(Owned(slots, false)) + multiset{value}
      ensures used == old(used) + 1
    {
      hide Placed, Indexed, Clean, Owned, Contents, LiveSet, DeletedSet, Unbroken;
      ghost var s := Live(key, value, 1);
      Filled(cb, hasKeys, hasCounts, slots, at, i, s);
      var reused := WriteBucket(i, key, value);
      used, deleted, at := used + 1, if reused then deleted - 1 else deleted, at[cb.canon(key) := i];
    }

    method WriteBucket(i: nat, key: Word, value: Word) returns (reused: bool)
      requires Shaped() && i < |slots| && !slots[i].Live?
      requires Storable(key) && Storable(value) && (!hasKeys ==> key == value)
      modifies `slots, store, store.values, store.keys, store.counts
      ensures Shaped() && slots == old(slots)[i := Live(key, value, 1)] && fresh(Repr() - old(Repr()))
      ensures reused == old(slots)[i].Deleted?
    {
      reused := store.SlotAt(i).Deleted?;
      store.Fill(i, key, value);
      slots := slots[i := Live(key, value, 1)];
    }

    /** `__CFBasicHashImportValue` and `__CFBasicHashImportKey` */
    method Retain(key: Word, value: Word)
      modifies `keyRetains, `valueRetains
      ensures keyRetains == Noted(hasKeys, old(keyRetains), key)
      ensures valueRetains == Noted(!intValues, old(valueRetains), value)
    {
      if !intValues { valueRetains := valueRetains + multiset{value}; }
      if hasKeys { keyRetains := keyRetains + multiset{key}; }
    }

    /** `__CFBasicHashEjectValue` and `__CFBasicHashEjectKey` */
    method Release(key: Word, value: Word)
      modifies `keyReleases, `valueReleases
      ensures keyReleases == Noted(hasKeys, old(keyReleases), key)
      ensures valueReleases == Noted(!intValues, old(valueReleases), value)
    {
      if !intValues { valueReleases := valueReleases + multiset{value}; }
      if hasKeys { keyReleases := keyReleases + multiset{key}; }
    }

    /** Fills a free bucket and retains what it now holds. */
    method Insert(i: nat, key: Word, value: Word)
      requires Valid() && Balanced() && used < tables.capacities[numBucketsIdx]
      requires Storable(key) && Storable(value) && (!hasKeys ==> key == value)
      requires i < |slots| && !slots[i].Live? && Unbroken(slots, cb.Home(|slots|, key), i)
      requires cb.canon(key) !in at
      modifies Repr()
      ensures Valid() && Balanced() && fresh(Repr() - old(Repr()))
      ensures Entries() == old(Entries())[cb.canon(key) := Entry(key, value, 1)] && numBucketsIdx == old(numBucketsIdx)
    {
      hide Good, Owned, Contents, LiveSet, DeletedSet, Unbroken, Balance, Noted;
      RetainKeeps(hasKeys, keyRetains, keyReleases, Owned(slots, true), key);
      RetainKeeps(!intValues, valueRetains, valueReleases, Owned(slots, false), value);
      FillBucket(i, key, value);
      Retain(key, value);
    }

    /** The free bucket a new key goes to, after making room: the first half of `__CFBasicHashAddValue`. */
    method FreeBucket(key: Word, bucket: int) returns (i: nat)
      requires Valid() && Roomy() && cb.canon(key) !in at
      requires bucket != -1 ==> 0 <= bucket < |slots| && !slots[bucket].Live? && Unbroken(slots, cb.Home(|slots|, key), bucket)
      requires bucket == -1 ==> forall p :: 0 <= p < |slots| ==> slots[p].Live?
      modifies `store, `numBucketsIdx, `deleted, `slots, `at
      ensures Valid() && Entries() == old(Entries()) && fresh(Repr() - old(Repr()))
      ensures forall side :: Owned(slots, side) == old(Owned(slots, side))
      ensures i < |slots| && !slots[i].Live? && Unbroken(slots, cb.Home(|slots|, key), i) && cb.canon(key) !in at
      ensures used == old(used) < tables.capacities[numBucketsIdx] && numBucketsIdx == IndexAfterAdding(used, old(numBucketsIdx))
    {
      hide Placed, Indexed, Clean, Owned, Contents, LiveSet, DeletedSet, Unbroken, GrownIndex;
      if tables.capacities[numBucketsIdx] < used + 1 {
        KeysOfContents(cb, slots, at);
        Rehash(1);
        KeysOfContents(cb, slots, at);
        SomeEmpty(slots);
        i := FindEmpty(cb, store, key);
      } else {
        if bucket == -1 { AllLive(slots); }
        i := bucket;
      }
    }

    /** `__CFBasicHashAddValue` */
    method AddBucket(bucket: int, key: Word, value: Word)
      requires Valid() && Balanced() && Roomy()
      requires Storable(key) && Storable(value) && (!hasKeys ==> key == value)
      requires bucket != -1 ==> 0 <= bucket < |slots| && !slots[bucket].Live? && Unbroken(slots, cb.Home(|slots|, key), bucket)
      requires bucket == -1 ==> forall p :: 0 <= p < |slots| ==> slots[p].Live?
      requires cb.canon(key) !in at
      modifies Repr()
      ensures Valid() && Balanced() && fresh(Repr() - old(Repr()))
      ensures Entries() == old(Entries())[cb.canon(key) := Entry(key, value, 1)]
      ensures numBucketsIdx == IndexAfterAdding(old(used), old(numBucketsIdx))
    {
      hide Placed, Indexed, Clean, Owned, Contents, LiveSet, DeletedSet, Unbroken, GrownIndex;
      var i := FreeBucket(key, bucket);
      Insert(i, key, value);
    }

    /** Writes a new key and value into a live bucket: `__CFBasicHashReplaceValue` without its callbacks. */
    method OverwriteBucket(i: nat, key: Word, value: Word)
      requires Valid() && i < |slots| && slots[i].Live? && cb.Equal(key, slots[i].key)
      requires Storable(key) && Storable(value) && (!hasKeys ==> key == value)
      modifies `slots, store.values, store.keys
      ensures Valid() && Repr() == old(Repr())
      ensures Entries() == old(Entries())[cb.canon(key) := Entry(key, value, old(slots)[i].count)]
      ensures Owned(slots, true) + multiset{old(slots)[i].key} == old(Owned(slots, true)) + multiset{key}
      ensures Owned(slots, false) + multiset{old(slots)[i].value} == old(Owned(slots, false)) + multiset{value}
    {
      hide Placed, Indexed, Clean, Owned, Contents, LiveSet, DeletedSet;
      ghost var s := Live(key, value, slots[i].count);
      CleanAt(hasKeys, hasCounts, slots, i);
      Updated(cb, hasKeys, hasCounts, slots, at, i, s);
      store.Replace(i, key, value);
      slots := slots[i := s];
    }

    /** `__CFBasicHashReplaceValue` */
    method ReplaceBucket(i: nat, key: Word, value: Word)
      requires Valid() && Balanced() && i < |slots| && slots[i].Live? && cb.Equal(key, slots[i].key)
      requires Storable(key) && Storable(value) && (!hasKeys ==> key == value)
      modifies Repr()
      ensures Valid() && Balanced() && Repr() == old(Repr()) && numBucketsIdx == old(numBucketsIdx)
      ensures Entries() == old(Entries())[cb.canon(key) := Entry(key, value, old(slots)[i].count)]
    {
      hide Good, Owned, Contents, LiveSet, DeletedSet, Balance, Noted, Store.Slots, Tables.Sane;
      var was := store.SlotAt(i);
      ghost var keys, values := Owned(slots, true), Owned(slots, false);
      OverwriteBucket(i, key, value);
      SwapKeeps(hasKeys, keyRetains, keyReleases, keys, Owned(slots, true), was.key, key);
      SwapKeeps(!intValues, valueRetains, valueReleases, values, Owned(slots, false), was.value, value);
      Retain(key, value);
      Release(was.key, was.value);
    }

    /** `__CFBasicHashIncSlotCount` and `__CFBasicHashDecSlotCount` on a bucket that stays live */
    method StepCount(i: nat, up: bool)
      requires Valid() && hasCounts && i < |slots| && slots[i].Live?
      requires if up then slots[i].count < LONG_MAX else 1 < slots[i].count
      modifies `slots, store, store.counts
      ensures Valid() && fresh(Repr() - old(Repr()))
      ensures var was := old(slots)[i];
              Entries() == old(Entries())[cb.canon(was.key) := Entry(was.key, was.value, if up then was.count + 1 else was.count - 1)]
      ensures Owned(slots, true) == old(Owned(slots, true)) && Owned(slots, false) == old(Owned(slots, false))
    {
      hide Placed, Indexed, Clean, Owned, Contents, LiveSet, DeletedSet, Store.Slots, Tables.Sane;
      ghost var s := slots[i].(count := if up then slots[i].count + 1 else slots[i].count - 1);
      CleanAt(hasKeys, hasCounts, slots, i);
      Updated(cb, hasKeys, hasCounts, slots, at, i, s);
      if up { store.IncCount(i); } else { store.DecCount(i); }
      slots := slots[i := s];
    }

    /** The bucket writes of `__CFBasicHashRemoveValue` */
    method MarkDeleted(i: nat)
      requires Valid() && i < |slots| && slots[i].Live? && slots[i].count == 1
      modifies `slots, `at, `used, `deleted, store.values, store.keys, store.counts
      ensures Usable() && Repr() == old(Repr())
      ensures Entries() == old(Entries()) - {cb.canon(old(slots)[i].key)}
      ensures deleted == (old(deleted) + 1) % 0x1_0000 && |DeletedSet(slots)| == old(deleted) + 1
      ensures used + 1 == old(used) && numBucketsIdx == old(numBucketsIdx)
      ensures Owned(slots, true) + multiset{old(slots)[i].key} == old(Owned(slots, true))
      ensures Owned(slots, false) + multiset{old(slots)[i].value} == old(Owned(slots, false))
    {
      hide Placed, Indexed, Clean, Owned, Contents, LiveSet, DeletedSet;
      Removed(cb, hasKeys, hasCounts, slots, at, i);
      store.Remove(i);
      used, deleted, at := used - 1, (deleted + 1) % 0x1_0000, at - {cb.canon(slots[i].key)};
      slots := slots[i := Deleted];
    }

    /** The bucket writes and callbacks of `__CFBasicHashRemoveValue` */
    method ClearBucket(i: nat)
      requires Valid() && Balanced() && i < |slots| && slots[i].Live? && slots[i].count == 1
      modifies Repr()
      ensures Usable() && Balanced() && Repr() == old(Repr())
      ensures Entries() == old(Entries()) - {cb.canon(old(slots)[i].key)}
      ensures deleted == (old(deleted) + 1) % 0x1_0000 && |DeletedSet(slots)| == old(deleted) + 1
      ensures used + 1 == old(used) && numBucketsIdx == old(numBucketsIdx)
    {
      hide Good, Owned, Contents, LiveSet, DeletedSet, Balance, Noted;
      var was := store.SlotAt(i);
      MarkDeleted(i);
      ReleaseKeeps(hasKeys, keyRetains, keyReleases, Owned(slots, true), was.key);
      ReleaseKeeps(!intValues, valueRetains, valueReleases, Owned(slots, false), was.value);
      Release(was.key, was.value);
    }

    /** How `__CFBasicHashRemoveValue` ends: a smaller table, or a fresh one when too many buckets are deleted. */
    method Tidy()
      requires Usable() && |DeletedSet(slots)| <= 0x1_0000 && deleted == |DeletedSet(slots)| % 0x1_0000
      modifies `store, `numBucketsIdx, `deleted, `slots, `at
      ensures Valid() && Entries() == old(Entries()) && fresh(Repr() - old(Repr()))
      ensures forall side :: Owned(slots, side) == old(Owned(slots, side))
      ensures used == old(used) <= tables.Most(false) && numBucketsIdx == IndexAfterRemoving(used, old(numBucketsIdx))
      ensures Sparse(tables, fastGrow, old(numBucketsIdx), used) ==> deleted == 0
      ensures !Sparse(tables, fastGrow, old(numBucketsIdx), used) && 20 <= |slots| ==> deleted < |slots| / 4 || deleted == 0
    {
      hide Good, Owned, Contents, LiveSet, DeletedSet, GrownIndex;
      Capacities(tables, numBucketsIdx, |tables.capacities| - 1);
      if Sparse(tables, fastGrow, numBucketsIdx, used) {
        Rehash(-1);
      } else {
        var n := tables.sizes[numBucketsIdx];
        if deleted == 0 || (20 <= n && n / 4 <= deleted) {
          Rehash(0);
        }
      }
    }

    /** `__CFBasicHashRemoveValue` */
    method RemoveBucket(i: nat)
      requires Valid() && Balanced() && i < |slots| && slots[i].Live? && slots[i].count == 1
      modifies Repr()
      ensures Valid() && Balanced() && fresh(Repr() - old(Repr()))
      ensures Entries() == old(Entries()) - {cb.canon(old(slots)[i].key)}
      ensures used + 1 == old(used) && used <= tables.Most(false) && numBucketsIdx == IndexAfterRemoving(used, old(numBucketsIdx))
    {
      hide Good, Owned, Contents, LiveSet, DeletedSet, Balance, GrownIndex;
      ClearBucket(i);
      Tidy();
    }

    /** `CFBasicHashAddValue`; true when the table changed. */
    method AddValue(key: Word, value: Word) returns (changed: bool)
      requires Valid() && Balanced() && Proper(hasKeys, Add(key, value)) && (cb.canon(key) in Entries() || Roomy())
      modifies Repr()
      ensures Valid() && Balanced() && fresh(Repr() - old(Repr()))
      ensures Entries() == Added(cb, hasCounts, old(Entries()), key, value)
      ensures changed <==> Entries() != old(Entries())
      ensures cb.canon(key) in old(Entries()) ==> numBucketsIdx == old(numBucketsIdx)
      ensures cb.canon(key) !in old(Entries()) ==> numBucketsIdx == IndexAfterAdding(old(used), old(numBucketsIdx))
    {
      hide Placed, Indexed, Clean, Unbroken, Owned, LiveSet, DeletedSet, Balance, Contents, GrownIndex;
      var i, count := FindBucket(key);
      if 0 < count {
        changed := hasCounts && count < LONG_MAX;
        if changed { StepCount(i, true); }
      } else {
        AddBucket(i, key, value);
        changed := true;
      }
    }

    /** `CFBasicHashReplaceValue` */
    method ReplaceValue(key: Word, value: Word)
      requires Valid() && Balanced() && Proper(hasKeys, Replace(key, value))
      modifies Repr()
      ensures Valid() && Balanced() && fresh(Repr() - old(Repr()))
      ensures Entries() == Replaced(cb, old(Entries()), key, value) && numBucketsIdx == old(numBucketsIdx)
    {
      hide Placed, Indexed, Clean, Unbroken, Owned, LiveSet, DeletedSet, Balance, Contents;
      var i, count := FindBucket(key);
      if 0 < count {
        ReplaceBucket(i, key, value);
      }
    }

    /** `CFBasicHashSetValue` */
    method SetValue(key: Word, value: Word)
      requires Valid() && Balanced() && Proper(hasKeys, Set(key, value)) && (cb.canon(key) in Entries() || Roomy())
      modifies Repr()
      ensures Valid() && Balanced() && fresh(Repr() - old(Repr()))
      ensures Entries() == Assigned(cb, old(Entries()), key, value)
      ensures cb.canon(key) in old(Entries()) ==> numBucketsIdx == old(numBucketsIdx)
      ensures cb.canon(key) !in old(Entries()) ==> numBucketsIdx == IndexAfterAdding(old(used), old(numBucketsIdx))
    {
      hide Placed, Indexed, Clean, Unbroken, Owned, LiveSet, DeletedSet, Balance, Contents, GrownIndex;
      var i, count := FindBucket(key);
      if 0 < count {
        ReplaceBucket(i, key, value);
      } else {
        AddBucket(i, key, value);
      }
    }

    /** `CFBasicHashRemoveValue`; returns the count before the removal. */
    method RemoveValue(key: Word) returns (count: nat)
      requires Valid() && Balanced()
      modifies Repr()
      ensures Valid() && Balanced() && fresh(Repr() - old(Repr()))
      ensures Storable(key) ==> Entries() == Without(cb, old(Entries()), key)
      ensures Storable(key) ==> count == if cb.canon(key) in old(Entries()) then old(Entries())[cb.canon(key)].count else 0
      ensures !Storable(key) ==> Entries() == old(Entries()) && count == 0
      ensures used == old(used) ==> numBucketsIdx == old(numBucketsIdx)
      ensures used != old(used) ==> used <= tables.Most(false) && numBucketsIdx == IndexAfterRemoving(used, old(numBucketsIdx))
    {
      hide Placed, Indexed, Clean, Unbroken, Owned, LiveSet, DeletedSet, Balance, Contents, GrownIndex;
      if key == SUB_ZERO || key == SUB_ONE {
        return 0;
      }
      var i;
      i, count := FindBucket(key);
      if 1 < count {
        if hasCounts && count < LONG_MAX { StepCount(i, false); }
      } else if 0 < count {
        RemoveBucket(i);
      }
    }

    /** `CFBasicHashSetCapacity` */
    method SetCapacity(capacity: nat)
      requires Valid() && Balanced() && (used < capacity ==> capacity <= tables.Most(fastGrow && capacity == used + 1))
      modifies Repr()
      ensures Valid() && Balanced() && fresh(Repr() - old(Repr()))
      ensures Entries() == old(Entries()) && capacity <= tables.capacities[numBucketsIdx]
      ensures numBucketsIdx == if old(used) < capacity then GrownIndex(tables, fastGrow && capacity == old(used) + 1, capacity)
                               else old(numBucketsIdx)
    {
      hide Placed, Indexed, Clean, Unbroken, Owned, LiveSet, DeletedSet, Balance, Contents, GrownIndex;
      if used < capacity {
        Rehash(capacity - used);
      }
    }

    /** The releasing loop of `__CFBasicHashDrain` */
    method ReleaseAll()
      requires Valid() && Balanced()
      modifies `keyReleases, `valueReleases
      ensures Balance(hasKeys, keyRetains, keyReleases, multiset{})
      ensures Balance(!intValues, valueRetains, valueReleases, multiset{})
    {
      hide Good, Contents, LiveSet, DeletedSet, Balance, Noted, AllNoted, Owned;
      OwnedOfEmpty(slots[..0], true);
      OwnedOfEmpty(slots[..0], false);
      NothingNoted(hasKeys, keyReleases);
      NothingNoted(!intValues, valueReleases);
      ghost var keys, values := keyReleases, valueReleases;
      var idx := 0;
      while idx < store.values.Length
        invariant Shaped() && 0 <= idx <= |slots|
        invariant keyReleases == AllNoted(hasKeys, keys, Owned(slots[..idx], true))
        invariant valueReleases == AllNoted(!intValues, values, Owned(slots[..idx], false))
        modifies `keyReleases, `valueReleases
      {
        var s := store.SlotAt(idx);
        assert s == slots[idx];
        NoteNext(hasKeys, keys, slots, idx, true);
        NoteNext(!intValues, values, slots, idx, false);
        if s.Live? { Release(s.key, s.value); }
        idx := idx + 1;
      }
      assert slots[..idx] == slots;
      ReleasedAll(hasKeys, keyRetains, keys, Owned(slots, true));
      ReleasedAll(!intValues, valueRetains, values, Owned(slots, false));
    }

    /** The field updates of `__CFBasicHashDrain` */
    method DropBuckets()
      requires tables.Sane() && store.width <= 3
      modifies `store, `numBucketsIdx, `used, `deleted, `slots, `at
      ensures Valid() && fresh(Repr() - {this}) && Entries() == map[] && numBucketsIdx == 0
      ensures Owned(slots, true) == multiset{} && Owned(slots, false) == multiset{}
    {
      hide Good, Contents, LiveSet, DeletedSet, Owned;
      NoEntries(cb, hasKeys, hasCounts, [], map[]);
      store := new Store(0, hasKeys, hasCounts, store.width);
      numBucketsIdx, used, deleted, slots, at := 0, 0, 0, [], map[];
    }

    /** `CFBasicHashRemoveAllValues` */
    method RemoveAllValues()
      requires Valid() && Balanced()
      modifies this
      ensures Valid() && Balanced() && fresh(Repr() - old(Repr())) && Entries() == map[] && numBucketsIdx == 0
      ensures hasKeys ==> keyRetains == keyReleases
      ensures !intValues ==> valueRetains == valueReleases
    {
      hide Good, Contents, LiveSet, DeletedSet, Owned;
      if numBucketsIdx == 0 {
        NoEntries(cb, hasKeys, hasCounts, slots, at);
      } else {
        ReleaseAll();
        DropBuckets();
      }
    }

    /** The renumbering loops of `CFBasicHashAddIntValueAndInc` and `CFBasicHashRemoveIntValueAndDec` */
    method ShiftLoop(up: bool, v: Word) returns (found: int)
      requires Shaped() && hasKeys && Clean(hasKeys, hasCounts, slots)
      requires Clean(hasKeys, hasCounts, ShiftedSlots(up, v, slots, |slots|))
      modifies `slots, store.values
      ensures Shaped() && slots == ShiftedSlots(up, v, old(slots), |old(slots)|)
      ensures found == -1 ==> forall p :: 0 <= p < |slots| && old(slots)[p].Live? ==> old(slots)[p].value != v
      ensures found != -1 ==> 0 <= found < |slots| && old(slots)[found].Live? && old(slots)[found].value == v
    {
      hide Clean, Store.Slots, Tables.Sane;
      found := -1;
      var idx := 0;
      ghost var before := slots;
      assert before == ShiftedSlots(up, v, before, 0);
      while idx < store.values.Length
        invariant 0 <= idx <= |slots| == |before| && Shaped() && slots == ShiftedSlots(up, v, before, idx)
        invariant found == -1 ==> forall p :: 0 <= p < idx && before[p].Live? ==> before[p].value != v
        invariant found != -1 ==> 0 <= found < idx && before[found].Live? && before[found].value == v
        modifies `slots, store.values
      {
        var s := store.SlotAt(idx);
        assert s == before[idx];
        if s.Live? {
          if v == s.value { found := idx; }
          if (if up then v <= s.value else v < s.value) {
            CleanAt(hasKeys, hasCounts, ShiftedSlots(up, v, before, |before|), idx);
            store.SetValue(idx, Shifted(up, v, s.value));
            slots := slots[idx := ShiftedSlot(up, v, s)];
          }
        }
        assert slots == ShiftedSlots(up, v, before, idx + 1);
        idx := idx + 1;
      }
    }

    /** The loop as a change of the table's entries. */
    method Renumber(up: bool, v: Word) returns (found: int)
      requires Valid() && hasKeys && CanShift(up, Entries(), v)
      modifies `slots, store.values
      ensures Valid() && Repr() == old(Repr()) && Entries() == AllShifted(up, old(Entries()), v)
      ensures Owned(slots, true) == old(Owned(slots, true)) && |slots| == old(|slots|) && at == old(at)
      ensures forall p :: 0 <= p < |slots| ==> Alike(old(slots)[p], slots[p])
      ensures found == -1 ==> forall p :: 0 <= p < |slots| && old(slots)[p].Live? ==> old(slots)[p].value != v
      ensures found != -1 ==> 0 <= found < |slots| && old(slots)[found].Live? && old(slots)[found].value == v
    {
      hide Placed, Indexed, Contents, LiveSet, DeletedSet, Owned, Clean, AllShifted, CanShift;
      ShiftKeeps(cb, hasCounts, slots, at, up, v);
      found := ShiftLoop(up, v);
    }

    /** `CFBasicHashAddIntValueAndInc` */
    method AddIntValue(key: Word, v: Word) returns (added: bool)
      requires Valid() && Balanced() && hasKeys && intValues && Storable(key) && Storable(v)
      requires cb.canon(key) in Entries() || (Roomy() && CanShift(true, Entries(), v))
      modifies Repr()
      ensures Valid() && Balanced() && fresh(Repr() - old(Repr()))
      ensures added <==> cb.canon(key) !in old(Entries())
      ensures Entries() == if added then Numbered(cb, old(Entries()), key, v) else old(Entries())
    {
      hide Placed, Indexed, Clean, Unbroken, Owned, LiveSet, DeletedSet, Contents, Numbered, CanShift, Balance;
      var bucket, count := FindBucket(key);
      added := count == 0;
      if added { NumberNew(bucket, key, v); }
    }

    /** What `CFBasicHashAddIntValueAndInc` does for a key that is not there. */
    method NumberNew(bucket: int, key: Word, v: Word)
      requires Valid() && Balanced() && Roomy() && hasKeys && intValues && Storable(key) && Storable(v)
      requires CanShift(true, Entries(), v) && cb.canon(key) !in at
      requires bucket != -1 ==> 0 <= bucket < |slots| && !slots[bucket].Live? && Unbroken(slots, cb.Home(|slots|, key), bucket)
      requires bucket == -1 ==> forall p :: 0 <= p < |slots| ==> slots[p].Live?
      modifies Repr()
      ensures Valid() && Balanced() && fresh(Repr() - old(Repr()))
      ensures Entries() == Numbered(cb, old(Entries()), key, v)
    {
      hide Placed, Indexed, Clean, Unbroken, Owned, LiveSet, DeletedSet, Contents, Numbered, CanShift, Balance;
      var i := FreeBucket(key, bucket);
      NumberBucket(i, key, v);
    }

    /** The part of `CFBasicHashAddIntValueAndInc` after room has been made. */
    method NumberBucket(i: nat, key: Word, v: Word)
      requires Valid() && Balanced() && used < tables.capacities[numBucketsIdx]
      requires hasKeys && intValues && Storable(key) && Storable(v) && CanShift(true, Entries(), v) && cb.canon(key) !in at
      requires i < |slots| && !slots[i].Live? && Unbroken(slots, cb.Home(|slots|, key), i)
      modifies Repr()
      ensures Valid() && Balanced() && fresh(Repr() - old(Repr()))
      ensures Entries() == Numbered(cb, old(Entries()), key, v)
    {
      hide Placed, Indexed, Clean, Unbroken, Owned, LiveSet, DeletedSet, Contents, AllShifted, CanShift, Shifted;
      StillUnbroken(slots, cb.Home(|slots|, key), i);
      var _ := Renumber(true, v);
      Insert(i, key, v);
    }

    /** `CFBasicHashRemoveIntValueAndDec`, of a number that some key has */
    method RemoveIntValue(v: Word) returns (ghost gone: Word)
      requires Valid() && Balanced() && hasKeys && !hasCounts && intValues && CanShift(false, Entries(), v)
      requires exists c :: c in Entries() && Entries()[c].value == v
      modifies Repr()
      ensures Valid() && Balanced() && fresh(Repr() - old(Repr()))
      ensures gone in old(Entries()) && old(Entries())[gone].value == v
      ensures Entries() == Unnumbered(old(Entries()), gone, v)
    {
      hide Placed, Indexed, Clean, Owned, LiveSet, DeletedSet, Contents, AllShifted, CanShift, Shifted;
      SomeBucketHolds(cb, slots, at, v);
      ghost var before, beforeAt := slots, at;
      var found := Renumber(false, v);
      EntryAt(cb, before, beforeAt, found);
      CleanAt(hasKeys, hasCounts, slots, found);
      gone := cb.canon(slots[found].key);
      RemoveBucket(found);
    }
  }
}
