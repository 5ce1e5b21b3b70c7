/**
  The storage of a mutable CFArray: a run of values somewhere inside a larger block, and the range
  replacement that moves the part before the range, the part after it, both, or everything to a new block.
 */
module ArrayDeque {
  import opened Bytes
  import opened Sequences

  /** Values are pointers; 0 is NULL. */
  type Ptr = nat

  // ---------------------------------------------------------------- capacities

  /** The number of bits of `n`: `flsl` */
  function BitLength(n: nat): nat {
    if n == 0 then 0 else 1 + BitLength(n / 2)
  }

  lemma {:induction false} BitLengthBounds(n: nat)
    requires 0 < n
    ensures 0 < BitLength(n) && Pow2(BitLength(n) - 1) <= n < Pow2(BitLength(n))
  {
    if 1 < n {
      BitLengthBounds(n / 2);
    }
  }

  lemma {:induction false} Pow2Grows(i: nat, j: nat)
    requires i <= j
    ensures Pow2(i) <= Pow2(j)
    decreases j
  {
    if i < j { Pow2Grows(i, j - 1); }
  }

  const TWO_31: nat := 0x8000_0000

  /** `1 << k` in a 32-bit int, for a shift that C defines or that sets the sign bit. */
  function Shift32(k: nat): int
    requires k <= 31
  {
    if k < 31 then Pow2(k) else 0 - TWO_31
  }

  /** `__CFArrayDequeRoundUpCapacity` */
  function RoundUpCapacity(capacity: nat): (r: int)
    requires BitLength(capacity) <= 31
  {
    if capacity < 4 then 4 else Shift32(BitLength(capacity))
  }

  lemma Pow2Of30()
    ensures Pow2(30) == 0x4000_0000
  {
    assert Pow2(10) == 1024;
    assert Pow2(20) == 0x10_0000 by { assert Pow2(15) == 0x8000; }
    assert Pow2(25) == 0x200_0000;
  }

  /** The rounded capacity is large enough exactly below 2^30: from there on the shift is negative. */
  lemma RoundUpIsEnough(n: nat)
    requires BitLength(n) <= 31
    ensures n < RoundUpCapacity(n) <==> n < 0x4000_0000
    ensures n < 0x4000_0000 ==> RoundUpCapacity(n) <= if n < 4 then 4 else 2 * n
  {
    if 4 <= n {
      BitLengthBounds(n);
      Pow2Of30();
      if n < 0x4000_0000 {
        if 31 <= BitLength(n) { Pow2Grows(30, BitLength(n) - 1); }
      } else if BitLength(n) <= 30 {
        Pow2Grows(BitLength(n), 30);
      }
    }
  }

  lemma ShortEnough(n: nat)
    requires n < 0x4000_0000
    ensures BitLength(n) <= 31
  {
    if 0 < n {
      BitLengthBounds(n);
      Pow2Of30();
      if 31 < BitLength(n) { Pow2Grows(30, BitLength(n) - 1); }
    }
  }

  /** The slack below which an insertion reallocates. */
  function Wiggle(capacity: nat): (w: nat)
    ensures 4 <= w
  {
    if capacity / 0x2_0000 < 4 then 4 else capacity / 0x2_0000
  }

  /** When the range replacement moves everything to a new block. The new count is cut to 32 bits first. */
  predicate Tight(capacity: nat, count: nat, future: nat) {
    capacity < future % TWO_32 || (count < future && capacity - count < Wiggle(capacity))
  }

  /** The block, or the one that replaces it, has room for the new count. */
  predicate HasRoom(capacity: nat, count: nat, future: nat) {
    if Tight(capacity, count, future) then future + Wiggle(capacity) < 0x4000_0000 else future <= capacity
  }

  lemma RoundedUp(n: nat)
    requires n < 0x4000_0000
    ensures BitLength(n) <= 31 && n < RoundUpCapacity(n)
  {
    ShortEnough(n);
    RoundUpIsEnough(n);
  }

  // ---------------------------------------------------------------- moving and clearing

  /** A block after `n` values at `src` have been moved to `dst`. */
  function Moved(s: seq<Ptr>, dst: nat, src: nat, n: nat): (r: seq<Ptr>)
    requires dst + n <= |s| && src + n <= |s|
    ensures |r| == |s|
  {
    seq(|s|, i requires 0 <= i < |s| => if dst <= i < dst + n then s[src + (i - dst)] else s[i])
  }

  function Cleared(s: seq<Ptr>, lo: nat, hi: nat): (r: seq<Ptr>)
    ensures |r| == |s|
  {
    seq(|s|, i requires 0 <= i < |s| => if lo <= i < hi then 0 else s[i])
  }

  /** `memmove` inside one block; the two regions may overlap. */
  method MoveWithin(a: array<Ptr>, dst: nat, src: nat, n: nat)
    requires dst + n <= a.Length && src + n <= a.Length
    modifies a
    ensures a[..] == Moved(old(a[..]), dst, src, n)
  {
    forall i | 0 <= i < n {
      a[dst + i] := a[src + i];
    }
  }

  /** `memset` to zero */
  method ClearWithin(a: array<Ptr>, lo: nat, hi: nat)
    requires lo <= hi <= a.Length
    modifies a
    ensures a[..] == Cleared(old(a[..]), lo, hi)
  {
    forall i | lo <= i < hi {
      a[i] := 0;
    }
  }

  /** `memmove` into a block from elsewhere */
  method CopyIn(a: array<Ptr>, dst: nat, values: seq<Ptr>)
    requires dst + |values| <= a.Length
    modifies a
    ensures a[..] == Placed(old(a[..]), dst, values)
  {
    forall i | 0 <= i < |values| {
      a[dst + i] := values[i];
    }
  }

  /** The two copies into a new block, with a gap between them. */
  method CopyParts(block: array<Ptr>, dst: nat, left: seq<Ptr>, gap: nat, right: seq<Ptr>)
    requires dst + |left| + gap + |right| <= block.Length
    modifies block
    ensures block[..] == Placed(Placed(old(block[..]), dst, left), dst + |left| + gap, right)
  {
    hide Placed;
    ghost var blank := block[..];
    if left != [] { CopyIn(block, dst, left); } else { PlaceNothing(blank, dst, left); }
    ghost var half := block[..];
    if right != [] { CopyIn(block, dst + |left| + gap, right); } else { PlaceNothing(half, dst + |left| + gap, right); }
  }

  predicate Holds(s: seq<Ptr>, left: nat, was: seq<Ptr>) {
    left + |was| <= |s| && forall i :: 0 <= i < |was| ==> s[left + i] == was[i]
  }

  /**
    The values `was` lie in a block from `left` on with room for `n` values in the place of those
    from `a` to `a + b`.
   */
  predicate Spread(s: seq<Ptr>, left: nat, was: seq<Ptr>, a: nat, b: nat, n: nat)
    requires a + b <= |was|
  {
    && left + |was| - b + n <= |s|
    && (forall i :: 0 <= i < a ==> s[left + i] == was[i])
    && (forall i :: a + b <= i < |was| ==> s[left + i - b + n] == was[i])
  }

  /** The buckets that `cnt` values from `l` on occupied and `cnt2` values from `l2` on do not are cleared. */
  predicate Vacated(s: seq<Ptr>, l: nat, cnt: nat, l2: nat, cnt2: nat) {
    forall i :: l <= i < l + cnt && i < |s| && !(l2 <= i < l2 + cnt2) ==> s[i] == 0
  }

  /** Moving only the part after the range. */
  function RightMoved(s: seq<Ptr>, l: nat, cnt: nat, a: nat, b: nat, n: nat): (r: seq<Ptr>)
    requires a + b <= cnt && l + cnt <= |s| && l + cnt - b + n <= |s|
    ensures |r| == |s|
  {
    var t := Moved(s, l + a + n, l + a + b, cnt - a - b);
    if n < b then Cleared(t, l + n + cnt - b, l + cnt) else t
  }

  lemma RightMovedAt(s: seq<Ptr>, l: nat, cnt: nat, a: nat, b: nat, n: nat, j: nat)
    requires a + b <= cnt && l + cnt <= |s| && l + cnt - b + n <= |s| && j < |s|
    ensures RightMoved(s, l, cnt, a, b, n)[j]
         == if n < b && l + n + cnt - b <= j < l + cnt then 0
            else if l + a + n <= j < l + n + cnt - b then s[j - n + b] else s[j]
  {
  }

  lemma RightMovedSpreads(s: seq<Ptr>, l: nat, was: seq<Ptr>, a: nat, b: nat, n: nat)
    requires a + b <= |was| && Holds(s, l, was) && l + |was| - b + n <= |s|
    ensures Spread(RightMoved(s, l, |was|, a, b, n), l, was, a, b, n)
    ensures Vacated(RightMoved(s, l, |was|, a, b, n), l, |was|, l, |was| - b + n)
  {
    hide RightMoved;
    var r := RightMoved(s, l, |was|, a, b, n);
    forall i | 0 <= i < a
      ensures r[l + i] == was[i]
    {
      RightMovedAt(s, l, |was|, a, b, n, l + i);
    }
    forall i | a + b <= i < |was|
      ensures r[l + i - b + n] == was[i]
    {
      RightMovedAt(s, l, |was|, a, b, n, l + i - b + n);
      assert s[l + i] == was[i];
    }
    forall j | l + |was| - b + n <= j < l + |was|
      ensures r[j] == 0
    {
      RightMovedAt(s, l, |was|, a, b, n, j);
    }
  }

  /** Moving only the part before the range. */
  function LeftMoved(s: seq<Ptr>, l: nat, cnt: nat, a: nat, b: nat, n: nat): (r: seq<Ptr>)
    requires a + b <= cnt && l + cnt <= |s| && n <= l + b
    ensures |r| == |s|
  {
    var l2 := l + b - n;
    var t := Moved(s, l2, l, a);
    if l < l2 then Cleared(t, l, l2) else t
  }

  lemma LeftMovedSpreads(s: seq<Ptr>, l: nat, was: seq<Ptr>, a: nat, b: nat, n: nat)
    requires a + b <= |was| && Holds(s, l, was) && n <= l + b
    ensures Spread(LeftMoved(s, l, |was|, a, b, n), l + b - n, was, a, b, n)
    ensures Vacated(LeftMoved(s, l, |was|, a, b, n), l, |was|, l + b - n, |was| - b + n)
  {
    var l2, r := l + b - n, LeftMoved(s, l, |was|, a, b, n);
    forall i | 0 <= i < a
      ensures r[l2 + i] == was[i]
    {
      assert s[l + i] == was[i];
    }
    forall i | a + b <= i < |was|
      ensures r[l2 + i - b + n] == was[i]
    {
      assert s[l + i] == was[i];
    }
  }

  /** Moving both parts, the one that moves away from the other first. */
  function BothMoved(s: seq<Ptr>, l: nat, cnt: nat, a: nat, b: nat, n: nat, l2: nat): (r: seq<Ptr>)
    requires a + b <= cnt && l + cnt <= |s| && l2 + cnt - b + n <= |s|
    ensures |r| == |s|
  {
    var c := cnt - a - b;
    var oldC0, newC0 := l + a + b, l2 + a + n;
    if l2 < l then
      var t := Moved(Moved(s, l2, l, a), newC0, oldC0, c);
      if newC0 < oldC0 then Cleared(t, newC0 + c, oldC0 + c) else t
    else
      var t := Moved(Moved(s, newC0, oldC0, c), l2, l, a);
      if l < l2 then Cleared(t, l, l2) else t
  }

  lemma BothMovedAt(s: seq<Ptr>, l: nat, cnt: nat, a: nat, b: nat, n: nat, l2: nat, j: nat)
    requires a + b <= cnt && l + cnt <= |s| && l2 + cnt - b + n <= |s| && b <= n && j < |s|
    ensures var r := BothMoved(s, l, cnt, a, b, n, l2)[j];
            && (l2 <= j < l2 + a ==> r == s[l + (j - l2)])
            && (l2 + a + n <= j < l2 + cnt - b + n ==> r == s[l + (j - l2) - n + b])
            && (l <= j < l2 || l2 + cnt - b + n <= j < l + cnt ==> r == 0)
  {
  }

  lemma BothMovedSpreads(s: seq<Ptr>, l: nat, was: seq<Ptr>, a: nat, b: nat, n: nat, l2: nat)
    requires a + b <= |was| && Holds(s, l, was) && l2 + |was| - b + n <= |s| && b <= n
    ensures Spread(BothMoved(s, l, |was|, a, b, n, l2), l2, was, a, b, n)
    ensures Vacated(BothMoved(s, l, |was|, a, b, n, l2), l, |was|, l2, |was| - b + n)
  {
    hide BothMoved;
    var r := BothMoved(s, l, |was|, a, b, n, l2);
    forall i | 0 <= i < a
      ensures r[l2 + i] == was[i]
    {
      BothMovedAt(s, l, |was|, a, b, n, l2, l2 + i);
    }
    forall i | a + b <= i < |was|
      ensures r[l2 + i - b + n] == was[i]
    {
      BothMovedAt(s, l, |was|, a, b, n, l2, l2 + i - b + n);
      assert s[l + i] == was[i];
    }
    forall j | l <= j < l + |was| && !(l2 <= j < l2 + |was| - b + n)
      ensures r[j] == 0
    {
      BothMovedAt(s, l, |was|, a, b, n, l2, j);
    }
  }

  // ---------------------------------------------------------------- the array

  /** A sequence with the `len` values from `loc` on replaced by others. */
  function Spliced(s: seq<Ptr>, loc: nat, len: nat, values: seq<Ptr>): (r: seq<Ptr>)
    requires loc + len <= |s|
    ensures |r| == |s| - len + |values|
  {
    s[..loc] + values + s[loc + len..]
  }

  class MutableArray {
    const hasRetain: bool
    const hasRelease: bool
    var store: array?<Ptr>
    var leftIdx: nat
    var count: nat
    var retained: multiset<Ptr>
    var released: multiset<Ptr>

    ghost predicate Valid()
      reads this, store
    {
      if store == null then count == 0 else leftIdx + count <= store.Length
    }

    ghost function Contents(): (s: seq<Ptr>)
      requires Valid()
      reads this, store
      ensures |s| == count
    {
      if store == null then [] else store[leftIdx..leftIdx + count]
    }

    /** With both callbacks, every retain is matched by a release or by a value in the array. */
    ghost predicate Balanced()
      requires Valid()
      reads this, store
    {
      Owed(hasRetain && hasRelease, retained, released, Contents())
    }

    constructor (hasRetain: bool, hasRelease: bool)
      ensures Valid() && Balanced() && Contents() == [] && store == null
      ensures this.hasRetain == hasRetain && this.hasRelease == hasRelease
    {
      this.hasRetain, this.hasRelease := hasRetain, hasRelease;
      store, leftIdx, count := null, 0, 0;
      retained, released := multiset{}, multiset{};
    }

    /** The retaining loop of `_CFArrayReplaceValues` */
    method RetainAll(values: seq<Ptr>)
      requires Valid()
      modifies `retained
      ensures Valid() && Contents() == old(Contents())
      ensures retained == Tally(hasRetain, old(retained), values)
    {
      hide Tally;
      TallyNothing(hasRetain, retained, values[..0]);
      var idx := 0;
      while idx < |values|
        invariant 0 <= idx <= |values| && retained == Tally(hasRetain, old(retained), values[..idx])
      {
        assert values[..idx + 1] == values[..idx] + [values[idx]];
        TallyNext(hasRetain, old(retained), values[..idx], values[idx]);
        if hasRetain { retained := retained + multiset{values[idx]}; }
        idx := idx + 1;
      }
      assert values[..idx] == values;
    }

    /** The loop of `__CFArrayReleaseValues` */
    method ReleaseLoop(a: array<Ptr>, from: nat, len: nat)
      requires from + len <= a.Length
      modifies `released, a
      ensures a[..] == Cleared(old(a[..]), from, from + len)
      ensures released == Tally(hasRelease, old(released), old(a[..])[from..from + len])
    {
      hide Cleared, Tally;
      ghost var was := a[..];
      var idx := 0;
      ClearNothing(was, from);
      TallyNothing(hasRelease, released, was[from..from]);
      while idx < len
        invariant 0 <= idx <= len && a[..] == Cleared(was, from, from + idx)
        invariant released == Tally(hasRelease, old(released), was[from..from + idx])
        modifies `released, a
      {
        ClearNext(was, from, from + idx);
        assert a[..][from + idx] == was[from + idx];
        TallyNext(hasRelease, old(released), was[from..from + idx], was[from + idx]);
        assert was[from..from + idx + 1] == was[from..from + idx] + [was[from + idx]];
        if hasRelease { released := released + multiset{a[from + idx]}; }
        ghost var now := a[..];
        a[from + idx] := 0;
        assert a[..] == now[from + idx := 0];
        idx := idx + 1;
      }
    }

    /** `__CFArrayReleaseValues` on a deque, without giving up the storage */
    method ReleaseValues(loc: nat, len: nat)
      requires Valid() && loc + len <= count
      modifies `released, store
      ensures Valid()
      ensures Contents() == Spliced(old(Contents()), loc, len, Zeros(len))
      ensures released == Tally(hasRelease, old(released), old(Contents())[loc..loc + len])
    {
      hide Cleared, Spliced, Tally;
      ghost var was := Contents();
      if 0 < len {
        var a, l := store, leftIdx;
        ghost var block := a[..];
        assert was == block[l..l + count];
        ClearedInside(block, l, count, loc, len);
        ReleaseLoop(a, l + loc, len);
        ghost var now := a[..];
        assert Contents() == now[l..l + count];
      } else {
        SpliceNothing(was, loc);
        TallyNothing(hasRelease, released, was[loc..loc + len]);
      }
    }

    /** `CFArrayRemoveAllValues`: releases every value once and gives up the storage. */
    method RemoveAllValues()
      requires Valid() && Balanced()
      modifies this, store
      ensures Valid() && Balanced() && Contents() == [] && store == null
      ensures released == Tally(hasRelease, old(released), old(Contents()))
    {
      hide Tally, Owed, Spliced;
      ghost var was := Contents();
      assert was[0..count] == was;
      AllReleased(hasRetain, hasRelease, retained, released, was);
      ReleaseValues(0, count);
      store, count := null, 0;
    }

    /** `__CFArrayRepositionDequeRegions`, the case that allocates a new block. */
    method Reallocate(loc: nat, len: nat, newCount: nat)
      requires Valid() && store != null && loc + len <= count
      requires count - len + newCount + Wiggle(store.Length) < 0x4000_0000
      modifies `store, `leftIdx
      ensures store != null && fresh(store) && Spread(store[..], leftIdx, old(Contents()), loc, len, newCount)
      ensures var right := store.Length - leftIdx - (count - len + newCount); leftIdx <= right <= leftIdx + 1
    {
      hide Spread, Placed, RoundUpCapacity, BitLength, Wiggle;
      var futureCnt := count - len + newCount;
      RoundedUp(futureCnt + Wiggle(store.Length));
      var capacity := RoundUpCapacity(futureCnt + Wiggle(store.Length));
      var newL := (capacity - futureCnt) / 2;
      PartsOfRun(store[..], leftIdx, count, loc, len);
      var left := store[leftIdx..leftIdx + loc];
      var right := store[leftIdx + loc + len..leftIdx + count];
      var block := new Ptr[capacity];
      TwoParts(block[..], newL, Contents(), loc, len, newCount);
      CopyParts(block, newL, left, newCount, right);
      store, leftIdx := block, newL;
    }

    /** `__CFArrayRepositionDequeRegions`, the cases that stay in the block. */
    method MoveRegions(a: array<Ptr>, loc: nat, len: nat, newCount: nat)
      requires Valid() && store == a && loc + len <= count && len != newCount
      requires count - len + newCount <= a.Length
      modifies a, `leftIdx
      ensures Spread(a[..], leftIdx, old(Contents()), loc, len, newCount)
      ensures Vacated(a[..], old(leftIdx), count, leftIdx, count - len + newCount)
    {
      hide Moved, Cleared, Spread, Vacated, Holds;
      var l, c := leftIdx, count - loc - len;
      var r := a.Length - count - l;
      var numNew := newCount - len;
      ghost var was := Contents();
      ghost var block := a[..];
      assert was == block[l..l + count];
      HoldsSlice(block, l, count);
      if (numNew < 0 && c < loc) || (numNew <= r && c < loc) {
        RightMovedSpreads(block, l, was, loc, len, newCount);
        if 0 < c { MoveWithin(a, l + loc + newCount, l + loc + len, c); } else { NoMove(block, l + loc + newCount, l + loc + len); }
        if newCount < len { ClearWithin(a, l + loc + newCount + c, l + loc + len + c); }
      } else if numNew < 0 || (numNew <= l && loc <= c) {
        LeftMovedSpreads(block, l, was, loc, len, newCount);
        var newL := l - numNew;
        leftIdx := newL;
        if 0 < loc { MoveWithin(a, newL, l, loc); } else { NoMove(block, newL, l); }
        if l < newL { ClearWithin(a, l, newL); }
      } else {
        Recenter(a, loc, len, newCount);
      }
    }

    /** The re-centering case: inserting, and the side with the smaller part has no room. */
    method Recenter(a: array<Ptr>, loc: nat, len: nat, newCount: nat)
      requires Valid() && store == a && loc + len <= count && len < newCount
      requires count - len + newCount <= a.Length
      modifies a, `leftIdx
      ensures Spread(a[..], leftIdx, old(Contents()), loc, len, newCount)
      ensures Vacated(a[..], old(leftIdx), count, leftIdx, count - len + newCount)
    {
      hide Moved, Cleared, Spread, Vacated, Holds;
      var l, c := leftIdx, count - loc - len;
      var r := a.Length - count - l;
      var newL := (l + r - (newCount - len)) / 2;
      newL := newL - newL / 2;
      var oldC0, newC0 := l + loc + len, newL + loc + newCount;
      ghost var was := Contents();
      ghost var block := a[..];
      assert was == block[l..l + count];
      HoldsSlice(block, l, count);
      BothMovedSpreads(block, l, was, loc, len, newCount, newL);
      leftIdx := newL;
      if newL < l {
        if 0 < loc { MoveWithin(a, newL, l, loc); } else { NoMove(block, newL, l); }
        ghost var half := a[..];
        if 0 < c { MoveWithin(a, newC0, oldC0, c); } else { NoMove(half, newC0, oldC0); }
        if newC0 < oldC0 { ClearWithin(a, newC0 + c, oldC0 + c); }
      } else {
        if 0 < c { MoveWithin(a, newC0, oldC0, c); } else { NoMove(block, newC0, oldC0); }
        ghost var half := a[..];
        if 0 < loc { MoveWithin(a, newL, l, loc); } else { NoMove(half, newL, l); }
        if l < newL { ClearWithin(a, l, newL); }
      }
    }

    /** `__CFArrayRepositionDequeRegions` */
    method RepositionRegions(loc: nat, len: nat, newCount: nat)
      requires Valid() && store != null && loc + len <= count && len != newCount
      requires HasRoom(store.Length, count, count - len + newCount)
      modifies `store, `leftIdx, store
      ensures store != null && Spread(store[..], leftIdx, old(Contents()), loc, len, newCount)
      ensures store == old(store) ==> Vacated(store[..], old(leftIdx), count, leftIdx, count - len + newCount)
      ensures store == old(store) || fresh(store)
      ensures store == old(store) <==>
              var future, slack := count - len + newCount, old(store).Length - count;
              future % TWO_32 <= old(store).Length && (future <= count || (4 <= slack && old(store).Length / 0x2_0000 <= slack))
    {
      if Tight(store.Length, count, count - len + newCount) {
        Reallocate(loc, len, newCount);
      } else {
        MoveRegions(store, loc, len, newCount);
      }
    }

    /** Replacing as many values as there were moves nothing; otherwise there has to be a block with room. */
    ghost predicate Fits(len: nat, newCount: nat)
      requires len <= count
      reads this
    {
      if store == null then newCount < 0x4000_0000
      else len == newCount || HasRoom(store.Length, count, count - len + newCount)
    }

    /** `_CFArrayReplaceValues` */
    method ReplaceValues(loc: nat, len: nat, values: seq<Ptr>)
      requires Valid() && Balanced() && loc + len <= count
      requires Fits(len, |values|)
      modifies this, store
      ensures Valid() && Balanced() && (store == old(store) || fresh(store))
      ensures Contents() == Spliced(old(Contents()), loc, len, values)
      ensures Contents() == old(Contents())[..loc] + values + old(Contents())[loc + len..]
      ensures store == old(store) && store != null ==>
                forall i :: old(leftIdx) <= i < old(leftIdx) + old(count) && !(leftIdx <= i < leftIdx + count) ==> store[..][i] == 0
      ensures store == old(store) && store != null ==> Vacated(store[..], old(leftIdx), old(count), leftIdx, count)
      ensures retained == Tally(hasRetain, old(retained), values)
      ensures released == Tally(hasRelease, old(released), old(Contents())[loc..loc + len])
    {
      hide Zeros, Tally, Owed, Spliced, Vacated, HasRoom, Contents;
      ghost var was := Contents();
      SpliceOwes(hasRetain, hasRelease, retained, released, was, loc, len, values);
      RetainAll(values);
      ReleaseValues(loc, len);
      ghost var mid := Contents();
      assert mid == Spliced(was, loc, len, Zeros(len));
      SpliceTwice(was, loc, len, Zeros(len), values);
      FillGap(loc, len, values);
      assert Contents() == Spliced(mid, loc, len, values);
      SplicedIs(was, loc, len, values);
      if store == old(store) && store != null { VacatedIs(store[..], old(leftIdx), old(count), leftIdx, count); }
    }

    /** `_CFArrayReplaceValues` without the callbacks: what lies in the range does not matter. */
    method FillGap(loc: nat, len: nat, values: seq<Ptr>)
      requires Valid() && loc + len <= count
      requires Fits(len, |values|)
      modifies `store, `leftIdx, `count, store
      ensures Valid() && (store == old(store) || fresh(store))
      ensures Contents() == Spliced(old(Contents()), loc, len, values)
      ensures store == old(store) && store != null ==> Vacated(store[..], old(leftIdx), old(count), leftIdx, count)
    {
      hide Spread, Placed, Spliced, Vacated;
      ghost var was := Contents();
      MakeRoom(loc, len, |values|);
      var a, l, future := store, leftIdx, count - len + |values|;
      ghost var block := a[..];
      if 0 < |values| { CopyIn(a, l + loc, values); } else { PlaceNothing(block, l + loc, values); }
      ghost var now := a[..];
      SplicedContents(block, l, was, loc, len, values);
      StillVacated(block, old(leftIdx), count, l, future, loc, values);
      assert now[l..l + future] == Spliced(was, loc, len, values);
      count := future;
      assert Contents() == now[l..l + future];
    }

    /** The middle part of `_CFArrayReplaceValues`: storage with a gap for the new values. */
    method MakeRoom(loc: nat, len: nat, newCount: nat)
      requires Valid() && loc + len <= count
      requires Fits(len, newCount)
      modifies `store, `leftIdx, store
      ensures store != null && (store == old(store) || fresh(store))
      ensures Spread(store[..], leftIdx, old(Contents()), loc, len, newCount)
      ensures store == old(store) ==> Vacated(store[..], old(leftIdx), count, leftIdx, count - len + newCount)
    {
      if store == null {
        RoundedUp(newCount);
        var capacity := RoundUpCapacity(newCount);
        store := new Ptr[capacity];
        leftIdx := (capacity - newCount) / 2;
      } else if len != newCount {
        RepositionRegions(loc, len, newCount);
      }
    }
  }

  lemma VacatedIs(s: seq<Ptr>, l: nat, cnt: nat, l2: nat, cnt2: nat)
    requires Vacated(s, l, cnt, l2, cnt2) && l + cnt <= |s|
    ensures forall i :: l <= i < l + cnt && !(l2 <= i < l2 + cnt2) ==> s[i] == 0
  {
  }

  lemma SplicedIs(s: seq<Ptr>, loc: nat, len: nat, values: seq<Ptr>)
    requires loc + len <= |s|
    ensures Spliced(s, loc, len, values) == s[..loc] + values + s[loc + len..]
  {
  }

  /** The rounded capacity is a power of two. */
  lemma RoundedIsPower(n: nat)
    requires n < 0x4000_0000
    ensures BitLength(n) <= 31 && exists k :: RoundUpCapacity(n) == Pow2(k)
  {
    RoundedUp(n);
    assert Pow2(2) == 4;
  }

  /** The parts before and after a range of a run are slices of the block. */
  lemma PartsOfRun(s: seq<Ptr>, l: nat, n: nat, loc: nat, len: nat)
    requires l + n <= |s| && loc + len <= n
    ensures s[l..l + loc] == s[l..l + n][..loc] && s[l + loc + len..l + n] == s[l..l + n][loc + len..]
  {
    var was := s[l..l + n];
    var x, y := s[l..l + loc], was[..loc];
    assert forall i :: 0 <= i < loc ==> x[i] == y[i];
    var v, w := s[l + loc + len..l + n], was[loc + len..];
    assert forall i :: 0 <= i < n - loc - len ==> v[i] == w[i];
  }

  lemma HoldsSlice(s: seq<Ptr>, l: nat, n: nat)
    requires l + n <= |s|
    ensures Holds(s, l, s[l..l + n])
  {
  }

  lemma ClearNothing(s: seq<Ptr>, lo: nat)
    ensures Cleared(s, lo, lo) == s
  {
  }

  lemma ClearNext(s: seq<Ptr>, lo: nat, hi: nat)
    requires lo <= hi < |s|
    ensures Cleared(s, lo, hi)[hi] == s[hi] && Cleared(s, lo, hi)[hi := 0] == Cleared(s, lo, hi + 1)
  {
  }

  lemma ClearedInside(s: seq<Ptr>, l: nat, n: nat, loc: nat, len: nat)
    requires l + n <= |s| && loc + len <= n
    ensures var was, r := s[l..l + n], Cleared(s, l + loc, l + loc + len);
            r[l..l + n] == Spliced(was, loc, len, Zeros(len)) && s[l + loc..l + loc + len] == was[loc..loc + len]
  {
    var was := s[l..l + n];
    var x, y := s[l + loc..l + loc + len], was[loc..loc + len];
    assert forall i :: 0 <= i < len ==> x[i] == y[i];
    var r, w := Cleared(s, l + loc, l + loc + len)[l..l + n], Spliced(was, loc, len, Zeros(len));
    assert forall i :: 0 <= i < n ==> r[i] == w[i];
  }

  /** Both parts copied to a new block. */
  lemma TwoParts(blank: seq<Ptr>, l: nat, was: seq<Ptr>, a: nat, b: nat, n: nat)
    requires a + b <= |was| && l + |was| - b + n <= |blank|
    ensures Spread(Placed(Placed(blank, l, was[..a]), l + a + n, was[a + b..]), l, was, a, b, n)
  {
    var r := Placed(Placed(blank, l, was[..a]), l + a + n, was[a + b..]);
    forall i | a + b <= i < |was|
      ensures r[l + i - b + n] == was[i]
    {
      assert was[a + b..][i - a - b] == was[i];
    }
  }

  lemma NoMove(s: seq<Ptr>, dst: nat, src: nat)
    requires dst <= |s| && src <= |s|
    ensures Moved(s, dst, src, 0) == s
  {
  }

  lemma PlaceNothing(s: seq<Ptr>, dst: nat, none: seq<Ptr>)
    requires dst <= |s| && none == []
    ensures Placed(s, dst, none) == s
  {
  }

  lemma StillVacated(block: seq<Ptr>, l: nat, cnt: nat, l2: nat, cnt2: nat, loc: nat, values: seq<Ptr>)
    requires loc + |values| <= cnt2 && l2 + cnt2 <= |block|
    ensures Vacated(block, l, cnt, l2, cnt2) ==> Vacated(Placed(block, l2 + loc, values), l, cnt, l2, cnt2)
  {
  }

  lemma SpliceNothing(s: seq<Ptr>, loc: nat)
    requires loc <= |s|
    ensures Spliced(s, loc, 0, Zeros(0)) == s
  {
  }

  /** What was in the range first does not matter. */
  lemma SpliceTwice(was: seq<Ptr>, loc: nat, len: nat, first: seq<Ptr>, values: seq<Ptr>)
    requires loc + len <= |was| && |first| == len
    ensures |Spliced(was, loc, len, first)| == |was|
    ensures Spliced(Spliced(was, loc, len, first), loc, len, values) == Spliced(was, loc, len, values)
  {
  }

  /** Filling the gap completes the replacement. */
  lemma SplicedContents(block: seq<Ptr>, l: nat, was: seq<Ptr>, loc: nat, len: nat, values: seq<Ptr>)
    requires loc + len <= |was| && Spread(block, l, was, loc, len, |values|)
    ensures l + |was| - len + |values| <= |block|
    ensures Placed(block, l + loc, values)[l..l + |was| - len + |values|] == Spliced(was, loc, len, values)
  {
    var r := Placed(block, l + loc, values);
    var want := Spliced(was, loc, len, values);
    forall i | 0 <= i < |want|
      ensures r[l + i] == want[i]
    {
      if i < loc {
        assert block[l + i] == was[i];
      } else if loc + |values| <= i {
        var j := i - |values| + len;
        assert block[l + j - len + |values|] == was[j];
      }
    }
  }

  // ---------------------------------------------------------------- retains and releases

  function Tally(on: bool, m: multiset<Ptr>, values: seq<Ptr>): multiset<Ptr> {
    if on then m + multiset(values) else m
  }

  predicate Owed(on: bool, retained: multiset<Ptr>, released: multiset<Ptr>, contents: seq<Ptr>) {
    on ==> retained == released + multiset(contents)
  }

  lemma TallyNothing(on: bool, m: multiset<Ptr>, none: seq<Ptr>)
    requires none == []
    ensures Tally(on, m, none) == m
  {
  }

  lemma TallyNext(on: bool, m: multiset<Ptr>, values: seq<Ptr>, v: Ptr)
    ensures Tally(on, m, values + [v]) == if on then Tally(on, m, values) + multiset{v} else Tally(on, m, values)
  {
    assert m + multiset(values + [v]) == (m + multiset(values)) + multiset{v};
  }

  lemma AllReleased(hasRetain: bool, hasRelease: bool, retained: multiset<Ptr>, released: multiset<Ptr>, was: seq<Ptr>)
    requires Owed(hasRetain && hasRelease, retained, released, was)
    ensures Owed(hasRetain && hasRelease, retained, Tally(hasRelease, released, was), [])
  {
  }

  /** Retaining the new values and releasing the replaced ones keeps the account. */
  lemma SpliceOwes(hasRetain: bool, hasRelease: bool, retained: multiset<Ptr>, released: multiset<Ptr>, was: seq<Ptr>,
                   loc: nat, len: nat, values: seq<Ptr>)
    requires loc + len <= |was| && Owed(hasRetain && hasRelease, retained, released, was)
    ensures Owed(hasRetain && hasRelease, Tally(hasRetain, retained, values), Tally(hasRelease, released, was[loc..loc + len]),
                 Spliced(was, loc, len, values))
  {
    var a, b, c := multiset(was[..loc]), multiset(was[loc..loc + len]), multiset(was[loc + len..]);
    assert was == was[..loc] + was[loc..loc + len] + was[loc + len..];
    assert multiset(was) == a + b + c;
    assert multiset(was[..loc] + values + was[loc + len..]) == a + multiset(values) + c;
    assert (released + (a + b + c)) + multiset(values) == (released + b) + (a + multiset(values) + c);
  }

  function Zeros(n: nat): seq<Ptr> {
    seq(n, _ => 0)
  }
}
