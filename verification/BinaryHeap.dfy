/** CFBinaryHeap: sifting with a hole, and extraction in order. */
module BinaryHeap {
  import opened ArrayDeque

  /** "Not greater" as the comparator, or the comparison of pointers, answers it. */
  type AtMost = (Ptr, Ptr) -> bool

  ghost predicate TotalPreorder(le: AtMost) {
    && (forall x, y :: le(x, y) || le(y, x))
    && (forall x, y, z :: le(x, y) && le(y, z) ==> le(x, z))
  }

  function Parent(i: nat): nat
    requires 0 < i
  {
    (i - 1) / 2
  }

  /** No value is greater than one below it. */
  ghost predicate Heap(le: AtMost, s: seq<Ptr>) {
    forall i :: 0 < i < |s| ==> le(s[Parent(i)], s[i])
  }

  /** A heap but for the value at `h`, which may be any value between the one above and those below it. */
  ghost predicate HoleAt(le: AtMost, s: seq<Ptr>, h: nat) {
    && h < |s|
    && (forall i :: 0 < i < |s| && i != h && Parent(i) != h ==> le(s[Parent(i)], s[i]))
    && (forall i :: 0 < i < |s| && Parent(i) == h && 0 < h ==> le(s[Parent(h)], s[i]))
  }

  ghost predicate BelowChildren(le: AtMost, s: seq<Ptr>, h: nat, v: Ptr) {
    forall i :: 0 < i < |s| && Parent(i) == h ==> le(v, s[i])
  }

  ghost predicate AboveParent(le: AtMost, s: seq<Ptr>, h: nat, v: Ptr) {
    0 < h < |s| ==> le(s[Parent(h)], v)
  }

  lemma FillHole(le: AtMost, s: seq<Ptr>, h: nat, v: Ptr)
    requires HoleAt(le, s, h) && BelowChildren(le, s, h, v) && AboveParent(le, s, h, v)
    ensures Heap(le, s[h := v])
  {
  }

  /** The value above the hole moves into it. */
  lemma HoleUp(le: AtMost, s: seq<Ptr>, h: nat, v: Ptr)
    requires TotalPreorder(le) && HoleAt(le, s, h) && 0 < h && BelowChildren(le, s, h, v) && !le(s[Parent(h)], v)
    ensures HoleAt(le, s[h := s[Parent(h)]], Parent(h)) && BelowChildren(le, s[h := s[Parent(h)]], Parent(h), v)
  {
    var p, t := Parent(h), s[h := s[Parent(h)]];
    forall i | 0 < i < |t| && Parent(i) == p
      ensures le(v, t[i]) && (0 < p ==> le(t[Parent(p)], t[i]))
    {
      assert i != h ==> le(s[p], s[i]);
    }
    forall i | 0 < i < |t| && i != p && Parent(i) != p
      ensures le(t[Parent(i)], t[i])
    {
    }
  }

  /** The lesser value below the hole moves into it. */
  lemma HoleDown(le: AtMost, s: seq<Ptr>, h: nat, c: nat, v: Ptr)
    requires TotalPreorder(le) && HoleAt(le, s, h) && 0 < c < |s| && Parent(c) == h && le(s[c], v)
    requires forall i :: 0 < i < |s| && Parent(i) == h ==> le(s[c], s[i])
    ensures HoleAt(le, s[h := s[c]], c) && AboveParent(le, s[h := s[c]], c, v)
  {
    var t := s[h := s[c]];
    forall i | 0 < i < |t| && Parent(i) == c
      ensures le(t[Parent(c)], t[i])
    {
      assert le(s[Parent(i)], s[i]);
    }
    forall i | 0 < i < |t| && i != c && Parent(i) != c
      ensures le(t[Parent(i)], t[i])
    {
    }
  }

  /** Moving a value into the hole it leaves behind keeps the values that are there once the hole is filled. */
  lemma SameValues(s: seq<Ptr>, h: nat, g: nat, v: Ptr)
    requires h < |s| && g < |s| && h != g
    ensures multiset(s[h := s[g]][g := v]) == multiset(s[h := v])
  {
    var x, y := s[h := s[g]][g := v], s[h := v];
    assert x == y[h := y[g]][g := y[h]];
  }

  /** The first value of a heap is a least one. */
  lemma {:induction false} FirstIsLeast(le: AtMost, s: seq<Ptr>, i: nat)
    requires TotalPreorder(le) && Heap(le, s) && i < |s|
    ensures le(s[0], s[i])
  {
    if i > 0 {
      FirstIsLeast(le, s, Parent(i));
      assert le(s[Parent(i)], s[i]);
    }
  }

  /** The lesser child is no greater than any child. */
  lemma LesserChild(le: AtMost, s: seq<Ptr>, h: nat, c: nat)
    requires TotalPreorder(le) && c < |s| && (c == 2 * h + 1 || c == 2 * h + 2)
    requires c == 2 * h + 1 && c + 1 < |s| ==> le(s[c], s[c + 1])
    requires c == 2 * h + 2 ==> le(s[c], s[c - 1])
    ensures forall i :: 0 < i < |s| && Parent(i) == h ==> le(s[c], s[i])
  {
    forall i | 0 < i < |s| && Parent(i) == h
      ensures i == 2 * h + 1 || i == 2 * h + 2
    {
    }
  }

  // ---------------------------------------------------------------- sifting

  /** The loop of `CFBinaryHeapAddValue` */
  method SiftUp(a: array<Ptr>, n: nat, value: Ptr, le: AtMost)
    requires 0 < n <= a.Length && TotalPreorder(le) && Heap(le, a[..n - 1])
    modifies a
    ensures Heap(le, a[..n]) && multiset(a[..n]) == multiset(old(a[..n - 1])) + multiset{value}
  {
    hide Heap, HoleAt, BelowChildren, AboveParent, TotalPreorder;
    var idx := n - 1;
    ghost var all := multiset(a[..n - 1]) + multiset{value};
    assert a[..n][..n - 1] == a[..n - 1];
    LastIsHole(le, a[..n], value);
    while 0 < idx
      invariant 0 <= idx < n && HoleAt(le, a[..n], idx) && BelowChildren(le, a[..n], idx, value)
      invariant multiset(a[..n][idx := value]) == all
    {
      var pidx := Parent(idx);
      var item := a[pidx];
      ghost var s := a[..n];
      if le(item, value) {
        break;
      }
      HoleUp(le, s, idx, value);
      SameValues(s, idx, pidx, value);
      a[idx] := item;
      assert a[..n] == s[idx := s[pidx]];
      idx := pidx;
    }
    UnderParent(le, a[..n], idx, value);
    FillHole(le, a[..n], idx, value);
    ghost var s := a[..n];
    a[idx] := value;
    assert a[..n] == s[idx := value];
  }

  lemma LastIsHole(le: AtMost, s: seq<Ptr>, v: Ptr)
    requires 0 < |s| && Heap(le, s[..|s| - 1])
    ensures var h := |s| - 1;
            && HoleAt(le, s, h) && BelowChildren(le, s, h, v)
            && multiset(s[h := v]) == multiset(s[..h]) + multiset{v}
  {
    var h := |s| - 1;
    assert s[h := v] == s[..h] + [v];
    forall i | 0 < i < |s| && i != h && Parent(i) != h
      ensures le(s[Parent(i)], s[i])
    {
      assert le(s[..h][Parent(i)], s[..h][i]);
    }
  }

  lemma UnderParent(le: AtMost, s: seq<Ptr>, h: nat, v: Ptr)
    requires h < |s| && (h == 0 || le(s[Parent(h)], v))
    ensures AboveParent(le, s, h, v)
  {
  }

  /** The loop of `CFBinaryHeapRemoveMinimumValue`: the value takes the place of the first one. */
  method SiftDown(a: array<Ptr>, n: nat, value: Ptr, le: AtMost)
    requires 0 < n <= a.Length && TotalPreorder(le) && Heap(le, a[..n])
    modifies a
    ensures Heap(le, a[..n]) && multiset(a[..n]) == multiset(old(a[..n])[0 := value])
  {
    hide Heap, HoleAt, BelowChildren, AboveParent, TotalPreorder, Parent;
    var idx := 0;
    ghost var all := multiset(a[..n][0 := value]);
    FirstIsHole(le, a[..n], value);
    var cidx := 1;
    while cidx < n
      invariant 0 <= idx < n && cidx == 2 * idx + 1 && HoleAt(le, a[..n], idx) && AboveParent(le, a[..n], idx, value)
      invariant multiset(a[..n][idx := value]) == all
      decreases n - idx
    {
      ghost var s := a[..n];
      if cidx + 1 < n { Totality(le, s, cidx); }
      var item := a[cidx];
      if cidx + 1 < n {
        var item2 := a[cidx + 1];
        if !le(item, item2) {
          cidx := cidx + 1;
          item := item2;
        }
      }
      ChildOf(idx, cidx);
      LesserChild(le, s, idx, cidx);
      if !le(item, value) {
        SmallEnough(le, s, idx, cidx, value);
        break;
      }
      HoleDown(le, s, idx, cidx, value);
      SameValues(s, idx, cidx, value);
      a[idx] := item;
      assert a[..n] == s[idx := s[cidx]];
      idx := cidx;
      cidx := 2 * idx + 1;
    }
    if n <= 2 * idx + 1 { Childless(le, a[..n], idx, value); }
    FillHole(le, a[..n], idx, value);
    ghost var s := a[..n];
    a[idx] := value;
    assert a[..n] == s[idx := value];
  }

  lemma FirstIsHole(le: AtMost, s: seq<Ptr>, v: Ptr)
    requires 0 < |s| && Heap(le, s)
    ensures HoleAt(le, s, 0) && AboveParent(le, s, 0, v)
  {
  }

  lemma Totality(le: AtMost, s: seq<Ptr>, c: nat)
    requires TotalPreorder(le) && c + 1 < |s|
    ensures le(s[c], s[c + 1]) || le(s[c + 1], s[c])
  {
  }

  lemma ChildOf(h: nat, c: nat)
    requires c == 2 * h + 1 || c == 2 * h + 2
    ensures Parent(c) == h
  {
  }

  lemma SmallEnough(le: AtMost, s: seq<Ptr>, h: nat, c: nat, v: Ptr)
    requires TotalPreorder(le) && c < |s| && !le(s[c], v)
    requires forall i :: 0 < i < |s| && Parent(i) == h ==> le(s[c], s[i])
    ensures BelowChildren(le, s, h, v)
  {
    assert le(v, s[c]);
  }

  lemma Childless(le: AtMost, s: seq<Ptr>, h: nat, v: Ptr)
    requires |s| <= 2 * h + 1
    ensures BelowChildren(le, s, h, v)
  {
  }

  // ---------------------------------------------------------------- the heap

  /** A count of calls after one more, if there is such a callback. */
  function Noted(on: bool, calls: multiset<Ptr>, v: Ptr): multiset<Ptr> {
    if on then calls + multiset{v} else calls
  }

  /** With both callbacks, every retain is matched by a release or by a value that is held. */
  predicate Paired(on: bool, retained: multiset<Ptr>, released: multiset<Ptr>, held: multiset<Ptr>) {
    on ==> retained == released + held
  }

  lemma PairedAdding(hasRetain: bool, hasRelease: bool, retained: multiset<Ptr>, released: multiset<Ptr>,
                     held: multiset<Ptr>, v: Ptr)
    requires Paired(hasRetain && hasRelease, retained, released, held)
    ensures Paired(hasRetain && hasRelease, Noted(hasRetain, retained, v), released, held + multiset{v})
  {
  }

  lemma PairedRemoving(hasRetain: bool, hasRelease: bool, retained: multiset<Ptr>, released: multiset<Ptr>,
                       held: multiset<Ptr>, v: Ptr)
    requires Paired(hasRetain && hasRelease, retained, released, held + multiset{v})
    ensures Paired(hasRetain && hasRelease, retained, Noted(hasRelease, released, v), held)
  {
  }

  class Queue {
    const le: AtMost
    const hasRetain: bool
    const hasRelease: bool
    var buckets: array<Ptr>
    var count: nat
    var retained: multiset<Ptr>
    var released: multiset<Ptr>

    ghost predicate Valid()
      reads this, buckets
    {
      count <= buckets.Length && TotalPreorder(le) && Heap(le, buckets[..count])
    }

    ghost function Values(): (m: multiset<Ptr>)
      requires count <= buckets.Length
      reads this, buckets
    {
      multiset(buckets[..count])
    }

    ghost predicate Balanced()
      requires count <= buckets.Length
      reads this, buckets
    {
      Paired(hasRetain && hasRelease, retained, released, Values())
    }

    constructor (le: AtMost, hasRetain: bool, hasRelease: bool)
      requires TotalPreorder(le)
      ensures Valid() && Balanced() && fresh(buckets) && Values() == multiset{} && count == 0
      ensures this.le == le && this.hasRetain == hasRetain && this.hasRelease == hasRelease
      ensures retained == released == multiset{}
    {
      this.le, this.hasRetain, this.hasRelease := le, hasRetain, hasRelease;
      buckets := new Ptr[4];
      count := 0;
      retained, released := multiset{}, multiset{};
    }

    /** `__CFBinaryHeapGrow` */
    method Grow()
      requires count == buckets.Length && count + 1 < 0x4000_0000
      modifies `buckets
      ensures fresh(buckets) && count < buckets.Length && buckets[..count] == old(buckets[..count])
    {
      ShortEnough(count + 1);
      RoundUpIsEnough(count + 1);
      var wider := new Ptr[RoundUpCapacity(count + 1)];
      var narrow := buckets;
      forall i | 0 <= i < count { wider[i] := narrow[i]; }
      buckets := wider;
    }

    /** `CFBinaryHeapAddValue` */
    method AddValue(value: Ptr)
      requires Valid() && Balanced() && (count < buckets.Length || count + 1 < 0x4000_0000)
      modifies this, buckets
      ensures Valid() && Balanced() && (buckets == old(buckets) || fresh(buckets))
      ensures count == old(count) + 1 && Values() == old(Values()) + multiset{value}
      ensures retained == Noted(hasRetain, old(retained), value) && released == old(released)
    {
      hide Heap, TotalPreorder, Paired, Noted;
      PairedAdding(hasRetain, hasRelease, retained, released, Values(), value);
      PlaceValue(value);
      Retain(value);
    }

    /** The growing and the loop of `CFBinaryHeapAddValue` */
    method PlaceValue(value: Ptr)
      requires Valid() && (count < buckets.Length || count + 1 < 0x4000_0000)
      modifies `buckets, `count, buckets
      ensures Valid() && (buckets == old(buckets) || fresh(buckets))
      ensures count == old(count) + 1 && Values() == old(Values()) + multiset{value}
    {
      hide Heap, TotalPreorder;
      ghost var s := buckets[..count];
      if count == buckets.Length { Grow(); }
      var n := count + 1;
      assert buckets[..n - 1] == s;
      SiftUp(buckets, n, value, le);
      count := n;
    }

    method Retain(value: Ptr)
      modifies `retained
      ensures retained == Noted(hasRetain, old(retained), value)
    {
      if hasRetain { retained := retained + multiset{value}; }
    }

    method Release(value: Ptr)
      modifies `released
      ensures released == Noted(hasRelease, old(released), value)
    {
      if hasRelease { released := released + multiset{value}; }
    }

    /** `CFBinaryHeapGetMinimum`; an empty heap has none, and the answer is NULL. */
    method GetMinimum() returns (least: Ptr)
      requires Valid()
      ensures count == 0 ==> least == 0
      ensures 0 < count ==> least == buckets[0] && least in Values() && forall v :: v in Values() ==> le(least, v)
    {
      if count == 0 { return 0; }
      LeastOfAll(le, buckets[..count]);
      assert buckets[..count][0] == buckets[0];
      least := buckets[0];
    }

    /** `CFBinaryHeapRemoveMinimumValue`: takes out a least value and releases it; nothing happens to an empty heap. */
    method RemoveMinimumValue()
      requires Valid() && Balanced()
      modifies this, buckets
      ensures Valid() && Balanced() && buckets == old(buckets)
      ensures old(count) == 0 ==> count == 0 && released == old(released)
      ensures 0 < old(count) ==>
                && count == old(count) - 1 && old(Values()) == Values() + multiset{old(buckets[0])}
                && released == Noted(hasRelease, old(released), old(buckets[0]))
      ensures retained == old(retained)
    {
      hide Heap, TotalPreorder, Paired, Noted;
      if count == 0 { return; }
      var least := buckets[0];
      Release(least);
      ghost var before := Values();
      TakeFirst();
      assert before == Values() + multiset{least};
      PairedRemoving(hasRetain, hasRelease, retained, old(released), Values(), least);
    }

    /** The loop of `CFBinaryHeapRemoveMinimumValue` */
    method TakeFirst()
      requires Valid() && 0 < count
      modifies `count, buckets
      ensures Valid() && count == old(count) - 1
      ensures old(Values()) == Values() + multiset{old(buckets[0])}
    {
      hide Heap, TotalPreorder;
      ghost var s := buckets[..count];
      var val := buckets[count - 1];
      count := count - 1;
      ShorterHeap(le, s);
      assert buckets[..count] == s[..|s| - 1];
      if count == 0 {
        buckets[0] := val;
        assert s == [val];
      } else {
        SiftDown(buckets, count, val, le);
        LastReplacesFirst(s);
      }
    }

    /** `CFBinaryHeapRemoveAllValues`: every value is released once. */
    method RemoveAllValues()
      requires Valid() && Balanced()
      modifies `count, `released
      ensures Valid() && Balanced() && count == 0 && Values() == multiset{}
      ensures released == if hasRelease then old(released) + old(Values()) else old(released)
    {
      hide Heap;
      ghost var s := buckets[..count];
      if hasRelease {
        var idx := 0;
        assert multiset(s[..0]) == multiset{};
        while idx < count
          invariant 0 <= idx <= count == |s| && s == buckets[..count]
          invariant released == old(released) + multiset(s[..idx])
          modifies `released
        {
          OneMore(s, idx);
          Release(buckets[idx]);
          idx := idx + 1;
        }
        assert s[..idx] == s;
      }
      EmptyHeap(le);
      count := 0;
      assert buckets[..0] == [];
    }
  }

  lemma EmptyHeap(le: AtMost)
    ensures Heap(le, [])
  {
  }

  lemma LeastOfAll(le: AtMost, s: seq<Ptr>)
    requires TotalPreorder(le) && Heap(le, s) && s != []
    ensures forall v :: v in multiset(s) ==> le(s[0], v)
  {
    forall v | v in multiset(s)
      ensures le(s[0], v)
    {
      var i :| 0 <= i < |s| && s[i] == v;
      FirstIsLeast(le, s, i);
    }
  }

  lemma ShorterHeap(le: AtMost, s: seq<Ptr>)
    requires Heap(le, s) && s != []
    ensures Heap(le, s[..|s| - 1])
  {
    var t := s[..|s| - 1];
    forall i | 0 < i < |t|
      ensures le(t[Parent(i)], t[i])
    {
      assert le(s[Parent(i)], s[i]);
    }
  }

  lemma LastReplacesFirst(s: seq<Ptr>)
    requires 1 < |s|
    ensures multiset(s) == multiset(s[..|s| - 1][0 := s[|s| - 1]]) + multiset{s[0]}
  {
    var n := |s| - 1;
    assert s == [s[0]] + s[1..n] + [s[n]];
    assert s[..n][0 := s[n]] == [s[n]] + s[1..n];
  }

  // ---------------------------------------------------------------- extraction in order

  ghost predicate Ascending(le: AtMost, s: seq<Ptr>) {
    forall i, j :: 0 <= i < j < |s| ==> le(s[i], s[j])
  }

  /** `CFBinaryHeapCreateCopy`: adds the values of one heap to a new one. */
  method CreateCopy(heap: Queue) returns (copy: Queue)
    requires heap.Valid() && heap.count < 0x4000_0000
    ensures fresh(copy) && fresh(copy.buckets) && copy.Valid() && copy.Balanced() && copy.le == heap.le
    ensures copy.hasRetain == heap.hasRetain && copy.hasRelease == heap.hasRelease
    ensures copy.count == heap.count && copy.Values() == heap.Values()
  {
    hide Heap, TotalPreorder, Paired, Noted;
    copy := new Queue(heap.le, heap.hasRetain, heap.hasRelease);
    var idx := 0;
    ghost var s := heap.buckets[..heap.count];
    while idx < heap.count
      invariant 0 <= idx <= heap.count && fresh(copy) && fresh(copy.buckets) && copy.Valid() && copy.Balanced()
      invariant copy.count == idx && copy.Values() == multiset(s[..idx])
    {
      OneMore(s, idx);
      copy.AddValue(heap.buckets[idx]);
      idx := idx + 1;
    }
    assert s[..idx] == s;
  }

  lemma OneMore(s: seq<Ptr>, i: nat)
    requires i < |s|
    ensures multiset(s[..i + 1]) == multiset(s[..i]) + multiset{s[i]}
  {
    assert s[..i + 1] == s[..i] + [s[i]];
  }

  /**
    `CFBinaryHeapGetValues`: a sorted permutation of the values. The heap itself is not touched, and the
    drained copy has released every value it retained.
   */
  method GetValues(heap: Queue) returns (values: seq<Ptr>, ghost copy: Queue)
    requires heap.Valid() && heap.count < 0x4000_0000
    ensures multiset(values) == heap.Values() && Ascending(heap.le, values)
    ensures fresh(copy) && copy.count == 0 && (heap.hasRetain && heap.hasRelease ==> copy.retained == copy.released)
  {
    hide Heap, TotalPreorder, Drawn, Noted;
    values := [];
    ghost var all := heap.Values();
    DrawNone(heap.le, all);
    var heapCopy := CreateCopy(heap);
    while 0 < heapCopy.count
      invariant fresh(heapCopy) && fresh(heapCopy.buckets) && heapCopy.Valid() && heapCopy.Balanced()
      invariant Drawn(heap.le, values, heapCopy.Values(), all)
      decreases heapCopy.count
    {
      ghost var before := heapCopy.Values();
      var value := heapCopy.GetMinimum();
      heapCopy.RemoveMinimumValue();
      DrawNext(heap.le, values, before, heapCopy.Values(), value, all);
      values := values + [value];
    }
    DrawnAll(heap.le, values, heapCopy.Values(), all);
    copy := heapCopy;
  }

  /** Values drawn so far, in order, and what is left, none of it less than those. */
  ghost predicate Drawn(le: AtMost, values: seq<Ptr>, rest: multiset<Ptr>, all: multiset<Ptr>) {
    && multiset(values) + rest == all && Ascending(le, values)
    && (forall i, v :: 0 <= i < |values| && v in rest ==> le(values[i], v))
  }

  lemma DrawNone(le: AtMost, all: multiset<Ptr>)
    ensures Drawn(le, [], all, all)
  {
  }

  lemma DrawNext(le: AtMost, values: seq<Ptr>, before: multiset<Ptr>, rest: multiset<Ptr>, v: Ptr, all: multiset<Ptr>)
    requires Drawn(le, values, before, all) && before == rest + multiset{v} && forall w :: w in before ==> le(v, w)
    ensures Drawn(le, values + [v], rest, all)
  {
    assert v in before;
    assert multiset(values + [v]) + rest == multiset(values) + (rest + multiset{v});
    var next := values + [v];
    forall i, w | 0 <= i < |next| && w in rest
      ensures le(next[i], w)
    {
      assert w in before;
    }
  }

  lemma DrawnAll(le: AtMost, values: seq<Ptr>, rest: multiset<Ptr>, all: multiset<Ptr>)
    requires Drawn(le, values, rest, all)
    ensures rest == multiset{} ==> multiset(values) == all
    ensures Ascending(le, values)
  {
  }
}
