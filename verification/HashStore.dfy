/**
  The bucket arrays of a CFBasicHash: raw words with sentinels for empty and deleted buckets,
  substitutes for the two sentinel values, and per-bucket counts whose width grows on demand.
 */
module HashStore {
  import opened HashModel

  /** What is written for a value: the sentinels are replaced by their substitutes. */
  function Mask(w: Word): Word {
    if w == 0 then SUB_ZERO else if w == DELETED then SUB_ONE else w
  }

  function Unmask(raw: Word): Word {
    if raw == SUB_ZERO then 0 else if raw == SUB_ONE then DELETED else raw
  }

  /** Every storable word survives, and none of them reads as an empty or deleted bucket. */
  lemma MaskRoundTrip(w: Word)
    ensures Mask(w) != 0 && Mask(w) != DELETED
    ensures Unmask(Mask(w)) == w <==> Storable(w)
  {
  }

  /** The largest count a counter of width index 0, 1, 2 or 3 is allowed to hold. */
  function MaxCount(width: nat): nat {
    match width
    case 0 => 0x7F
    case 1 => 0x7FFF
    case 2 => 0x7FFF_FFFF
    case _ => LONG_MAX
  }

  class Store {
    const hasKeys: bool
    const hasCounts: bool
    const values: array<Word>
    const keys: array<Word>
    var counts: array<nat>
    var width: nat

    ghost predicate Valid()
      reads this, values, keys, counts
    {
      && values != keys && width <= 3
      && (hasKeys ==> keys.Length == values.Length)
      && (hasCounts ==> counts.Length == values.Length)
      && (hasKeys ==> forall i :: 0 <= i < values.Length ==>
            (values[i] == 0 <==> keys[i] == 0) && (values[i] == DELETED <==> keys[i] == DELETED))
      && (hasCounts ==> forall i :: 0 <= i < values.Length ==>
            counts[i] <= MaxCount(width) && (counts[i] > 0 <==> values[i] != 0 && values[i] != DELETED))
    }

    /** `__CFBasicHashGetBucket` and the empty and deleted tests */
    function SlotAt(i: nat): Slot
      requires Valid() && i < values.Length
      reads this, values, keys, counts
    {
      if values[i] == 0 then Empty
      else if values[i] == DELETED then Deleted
      else Live(Unmask(if hasKeys then keys[i] else values[i]), Unmask(values[i]), if hasCounts then counts[i] else 1)
    }

    ghost function Slots(): (s: seq<Slot>)
      requires Valid()
      reads this, values, keys, counts
      ensures |s| == values.Length
      ensures forall i :: 0 <= i < |s| ==> s[i] == SlotAt(i)
    {
      seq(values.Length, i requires 0 <= i < values.Length && Valid() reads this, values, keys, counts => SlotAt(i))
    }

    constructor (n: nat, withKeys: bool, withCounts: bool, countsWidth: nat)
      requires countsWidth <= 3
      ensures Valid() && fresh(values) && fresh(keys) && fresh(counts)
      ensures hasKeys == withKeys && hasCounts == withCounts && width == countsWidth
      ensures Slots() == seq(n, _ => Empty)
    {
      hasKeys, hasCounts, width := withKeys, withCounts, countsWidth;
      values := new Word[n](_ => 0);
      keys := new Word[if withKeys then n else 0](_ => 0);
      counts := new nat[if withCounts then n else 0](_ => 0);
    }

    /** The counters fit their width. */
    ghost predicate Fits()
      reads this, counts
    {
      && width <= 3 && counts.Length == values.Length
      && forall j :: 0 <= j < counts.Length ==> counts[j] <= MaxCount(width)
    }

    /** `__CFBasicHashBumpCounts`: the same counts in the next wider counters. */
    method BumpCounts()
      requires Fits() && width < 3
      modifies this
      ensures Fits() && width == old(width) + 1 && fresh(counts) && counts[..] == old(counts[..])
    {
      var wider := new nat[values.Length](_ => 0);
      var idx := 0;
      while idx < values.Length
        invariant 0 <= idx <= values.Length == wider.Length
        invariant wider[..idx] == counts[..idx]
        modifies wider
      {
        wider[idx] := counts[idx];
        idx := idx + 1;
      }
      assert wider[..] == counts[..];
      forall j | 0 <= j < wider.Length
        ensures wider[j] <= MaxCount(width + 1)
      {
        assert wider[..][j] == counts[..][j];
      }
      counts, width := wider, width + 1;
    }

    /** `__CFBasicHashIncSlotCount`: widens all counters first when this one is at its limit. */
    method IncCounter(i: nat)
      requires Fits() && i < counts.Length && counts[i] < LONG_MAX
      modifies this, counts
      ensures Fits() && (counts == old(counts) || fresh(counts))
      ensures counts[..] == old(counts[..])[i := old(counts[i]) + 1]
      decreases 3 - width
    {
      if counts[i] < MaxCount(width) {
        counts[i] := counts[i] + 1;
      } else {
        BumpCounts();
        assert counts[..][i] == old(counts[..])[i];
        IncCounter(i);
      }
    }

    /** The bucket writes of `__CFBasicHashAddValue` */
    method Fill(i: nat, key: Word, value: Word)
      requires Valid() && i < values.Length && !SlotAt(i).Live?
      requires Storable(key) && Storable(value) && (!hasKeys ==> key == value)
      modifies this, values, keys, counts
      ensures Valid() && Slots() == old(Slots())[i := Live(key, value, 1)]
      ensures counts == old(counts) || fresh(counts)
    {
      values[i] := Mask(value);
      if hasKeys { keys[i] := Mask(key); }
      if hasCounts {
        IncCounter(i);
        CountsAre(i, old(counts[..]));
      }
      assert Slots() == old(Slots())[i := Live(key, value, 1)];
    }

    lemma CountsAre(i: nat, before: seq<nat>)
      requires i < counts.Length == |before| && counts[..] == before[i := before[i] + 1]
      ensures forall j :: 0 <= j < counts.Length ==> counts[j] == if j == i then before[i] + 1 else before[j]
    {
      forall j | 0 <= j < counts.Length
        ensures counts[j] == if j == i then before[i] + 1 else before[j]
      {
        assert counts[j] == counts[..][j];
      }
    }

    /** The bucket writes of `__CFBasicHashRehash`, which copies a count as it is. */
    method Place(i: nat, key: Word, value: Word, count: nat)
      requires Valid() && i < values.Length && !SlotAt(i).Live?
      requires Storable(key) && Storable(value) && (!hasKeys ==> key == value)
      requires 0 < count <= MaxCount(width) && (!hasCounts ==> count == 1)
      modifies values, keys, counts
      ensures Valid() && Slots() == old(Slots())[i := Live(key, value, count)]
    {
      values[i] := Mask(value);
      if hasKeys { keys[i] := Mask(key); }
      if hasCounts { counts[i] := count; }
      assert Slots() == old(Slots())[i := Live(key, value, count)];
    }

    /** The bucket writes of `__CFBasicHashReplaceValue` */
    method Replace(i: nat, key: Word, value: Word)
      requires Valid() && i < values.Length && SlotAt(i).Live?
      requires Storable(key) && Storable(value) && (!hasKeys ==> key == value)
      modifies values, keys
      ensures Valid() && Slots() == old(Slots())[i := Live(key, value, old(SlotAt(i)).count)]
    {
      values[i] := Mask(value);
      if hasKeys { keys[i] := Mask(key); }
      assert Slots() == old(Slots())[i := Live(key, value, old(SlotAt(i)).count)];
    }

    /** A new integer value in a live bucket, as the renumbering loops write it. */
    method SetValue(i: nat, value: Word)
      requires Valid() && hasKeys && i < values.Length && SlotAt(i).Live? && Storable(value)
      modifies values
      ensures Valid() && Slots() == old(Slots())[i := old(SlotAt(i)).(value := value)]
    {
      values[i] := Mask(value);
      assert Slots() == old(Slots())[i := old(SlotAt(i)).(value := value)];
    }

    /** The bucket writes of `__CFBasicHashRemoveValue` */
    method Remove(i: nat)
      requires Valid() && i < values.Length && SlotAt(i).Live? && SlotAt(i).count == 1
      modifies values, keys, counts
      ensures Valid() && Slots() == old(Slots())[i := Deleted]
    {
      values[i] := DELETED;
      if hasKeys { keys[i] := DELETED; }
      if hasCounts { counts[i] := counts[i] - 1; }
      assert Slots() == old(Slots())[i := Deleted];
    }

    /** `__CFBasicHashIncSlotCount` on a live bucket */
    method IncCount(i: nat)
      requires Valid() && hasCounts && i < values.Length && SlotAt(i).Live? && SlotAt(i).count < LONG_MAX
      modifies this, counts
      ensures Valid() && Slots() == old(Slots())[i := old(SlotAt(i)).(count := old(SlotAt(i)).count + 1)]
      ensures counts == old(counts) || fresh(counts)
    {
      IncCounter(i);
      CountsAre(i, old(counts[..]));
      assert Slots() == old(Slots())[i := old(SlotAt(i)).(count := old(SlotAt(i)).count + 1)];
    }

    /** `__CFBasicHashDecSlotCount` on a bucket that stays live */
    method DecCount(i: nat)
      requires Valid() && hasCounts && i < values.Length && SlotAt(i).Live? && 1 < SlotAt(i).count
      modifies counts
      ensures Valid() && Slots() == old(Slots())[i := old(SlotAt(i)).(count := old(SlotAt(i)).count - 1)]
    {
      counts[i] := counts[i] - 1;
      assert Slots() == old(Slots())[i := old(SlotAt(i)).(count := old(SlotAt(i)).count - 1)];
    }
  }
}
