/** Binary search and exchange sort over a range of a CFArray, with a caller's comparator. */
module ArraySearch {
  import opened Bytes
  import opened ArrayDeque

  type Comparator = (Ptr, Ptr) -> int

  /** The negative answers of a comparator form a strict weak order. */
  ghost predicate Ordering(cmp: Comparator) {
    && (forall x, y :: cmp(x, y) < 0 ==> cmp(y, x) >= 0)
    && (forall x, y, z :: cmp(x, z) < 0 ==> cmp(x, y) < 0 || cmp(y, z) < 0)
  }

  lemma Between(cmp: Comparator, x: Ptr, y: Ptr, z: Ptr)
    requires Ordering(cmp)
    ensures cmp(x, z) < 0 ==> cmp(x, y) < 0 || cmp(y, z) < 0
  {
  }

  /** No value is less than an earlier one. */
  ghost predicate Sorted(cmp: Comparator, s: seq<Ptr>) {
    forall i, j :: 0 <= i < j < |s| ==> cmp(s[j], s[i]) >= 0
  }

  /** The number of values less than a given one. */
  function CountLess(cmp: Comparator, s: seq<Ptr>, value: Ptr): (n: nat)
    ensures n <= |s|
  {
    if s == [] then 0
    else CountLess(cmp, s[..|s| - 1], value) + if cmp(s[|s| - 1], value) < 0 then 1 else 0
  }

  /** All values before `k` are less than the given one and none from `k` on is. */
  ghost predicate Splits(cmp: Comparator, s: seq<Ptr>, value: Ptr, k: nat) {
    && k <= |s|
    && (forall i :: 0 <= i < k ==> cmp(s[i], value) < 0)
    && (forall i :: k <= i < |s| ==> cmp(s[i], value) >= 0)
  }

  lemma {:induction false} SplitIsCount(cmp: Comparator, s: seq<Ptr>, value: Ptr, k: nat)
    requires Splits(cmp, s, value, k)
    ensures k == CountLess(cmp, s, value)
  {
    if s != [] {
      SplitIsCount(cmp, s[..|s| - 1], value, if k == |s| then k - 1 else k);
    }
  }

  /** In a sorted range, what is before a lesser value is less, and what is after a value that is not less is not. */
  lemma LessBefore(cmp: Comparator, s: seq<Ptr>, value: Ptr, j: nat)
    requires Ordering(cmp) && Sorted(cmp, s) && j < |s|
    ensures cmp(s[j], value) < 0 ==> forall i :: 0 <= i <= j ==> cmp(s[i], value) < 0
    ensures cmp(s[j], value) >= 0 ==> forall i :: j <= i < |s| ==> cmp(s[i], value) >= 0
  {
    forall i | 0 <= i <= j && cmp(s[j], value) < 0
      ensures cmp(s[i], value) < 0
    {
      Between(cmp, s[j], s[i], value);
    }
    forall i | j <= i < |s| && cmp(s[j], value) >= 0
      ensures cmp(s[i], value) >= 0
    {
      Between(cmp, s[i], s[j], value);
    }
  }

  /** The answer lies after `idx` and at most at `idx + window`. */
  ghost predicate Narrowed(cmp: Comparator, s: seq<Ptr>, value: Ptr, idx: int, window: nat) {
    && -1 <= idx && 0 < window && idx + window <= |s|
    && (forall i :: 0 <= i <= idx ==> cmp(s[i], value) < 0)
    && (forall i :: idx + window <= i < |s| ==> cmp(s[i], value) >= 0)
  }

  /** `CFArrayBSearchValues`: the windows of the loop are powers of two and may overlap at first. */
  method BSearchValues(values: seq<Ptr>, location: nat, length: nat, value: Ptr, cmp: Comparator) returns (r: nat)
    requires location + length <= |values| && length < TWO_31
    requires Ordering(cmp) && Sorted(cmp, values[location..location + length])
    ensures location <= r <= location + length
    ensures Splits(cmp, values[location..location + length], value, r - location)
    ensures r == location + CountLess(cmp, values[location..location + length], value)
  {
    var s := values[location..location + length];
    var k := Search(s, value, cmp);
    SplitIsCount(cmp, s, value, k);
    r := location + k;
  }

  method Search(s: seq<Ptr>, value: Ptr, cmp: Comparator) returns (k: nat)
    requires |s| < TWO_31 && Ordering(cmp) && Sorted(cmp, s)
    ensures Splits(cmp, s, value, k)
  {
    hide Sorted, Ordering;
    if |s| == 0 {
      return 0;
    }
    LessBefore(cmp, s, value, |s| - 1);
    if cmp(s[|s| - 1], value) < 0 {
      return |s|;
    }
    NotAfter(cmp, value, s[0]);
    LessBefore(cmp, s, value, 0);
    if cmp(value, s[0]) < 0 {
      return 0;
    }
    BitLengthBounds(|s|);
    var lg := BitLength(|s|) - 1;
    LessBefore(cmp, s, value, Pow2(lg) - 1);
    var idx := if cmp(s[Pow2(lg) - 1], value) < 0 then |s| - Pow2(lg) else -1;
    while lg != 0
      invariant 0 <= lg && Narrowed(cmp, s, value, idx, Pow2(lg))
    {
      lg := lg - 1;
      LessBefore(cmp, s, value, idx + Pow2(lg));
      if cmp(s[idx + Pow2(lg)], value) < 0 {
        idx := idx + Pow2(lg);
      }
    }
    k := idx + 1;
  }

  lemma NotAfter(cmp: Comparator, x: Ptr, y: Ptr)
    requires Ordering(cmp)
    ensures cmp(x, y) < 0 ==> cmp(y, x) >= 0
  {
  }

  // ---------------------------------------------------------------- exchange sort

  /** The values of a range before a cut are no greater than those after it, which are sorted. */
  ghost predicate Settled(cmp: Comparator, s: seq<Ptr>, lo: nat, cut: nat, hi: nat) {
    && lo <= cut <= hi <= |s|
    && (forall i, j :: lo <= i < j < hi && cut <= j ==> cmp(s[j], s[i]) >= 0)
  }

  /** `__CFZSort` */
  method ZSort(a: array<Ptr>, location: nat, length: nat, cmp: Comparator)
    requires location + length <= a.Length && Ordering(cmp)
    modifies a
    ensures Sorted(cmp, a[location..location + length])
    ensures multiset(a[location..location + length]) == old(multiset(a[location..location + length]))
    ensures a[..location] == old(a[..location]) && a[location + length..] == old(a[location + length..])
  {
    hide Settled, Reordered, Ordering, Sorted;
    var cnt := length;
    ghost var before := a[..];
    Unsorted(cmp, before, location, location + length);
    while 1 < cnt
      invariant 0 <= cnt <= length && Settled(cmp, a[..], location, location + cnt, location + length)
      invariant Reordered(before, a[..], location, location + length)
    {
      ghost var mid := a[..];
      Bubble(a, location, cnt, location + length, cmp);
      ReorderedAgain(before, mid, a[..], location, location + length);
      cnt := cnt - 1;
    }
    ReorderedRange(before, a[..], location, location + length);
    AllSettled(cmp, a[..], location, location + cnt, location + length);
    assert a[location..location + length] == a[..][location..location + length];
    assert a[..location] == a[..][..location] && a[location + length..] == a[..][location + length..];
    assert before[location..location + length] == old(a[location..location + length]);
    assert before[..location] == old(a[..location]) && before[location + length..] == old(a[location + length..]);
  }

  lemma Unsorted(cmp: Comparator, s: seq<Ptr>, lo: nat, hi: nat)
    requires lo <= hi <= |s|
    ensures Settled(cmp, s, lo, hi, hi) && Reordered(s, s, lo, hi)
  {
  }

  lemma AllSettled(cmp: Comparator, s: seq<Ptr>, lo: nat, cut: nat, hi: nat)
    requires Settled(cmp, s, lo, cut, hi) && cut <= lo + 1
    ensures Sorted(cmp, s[lo..hi])
  {
  }

  /** One pass: the greatest of the first `cnt` values of the range reaches their end. */
  method Bubble(a: array<Ptr>, location: nat, cnt: nat, hi: nat, cmp: Comparator)
    requires 1 < cnt && location + cnt <= hi <= a.Length && Ordering(cmp)
    requires Settled(cmp, a[..], location, location + cnt, hi)
    modifies a
    ensures Settled(cmp, a[..], location, location + cnt - 1, hi)
    ensures Reordered(old(a[..]), a[..], location, hi)
  {
    hide Settled, Reordered, Ordering, Greatest, Swapped;
    var idx := location;
    ghost var before := a[..];
    BubbleStarts(cmp, before, location, location + cnt, hi);
    while idx < location + cnt - 1
      invariant location <= idx < location + cnt && Settled(cmp, a[..], location, location + cnt, hi)
      invariant Greatest(cmp, a[..], location, idx)
      invariant Reordered(before, a[..], location, hi)
    {
      ghost var s := a[..];
      if cmp(a[idx + 1], a[idx]) < 0 {
        SwapKeeps(cmp, s, location, idx, location + cnt, hi);
        SwapReorders(before, s, location, idx, hi);
        Exchange(a, idx);
      } else {
        NextIsGreatest(cmp, s, location, idx);
      }
      idx := idx + 1;
    }
    CutMoves(cmp, a[..], location, location + cnt, hi);
  }

  function Swapped(s: seq<Ptr>, i: nat): (r: seq<Ptr>)
    requires i + 1 < |s|
  {
    s[i := s[i + 1]][i + 1 := s[i]]
  }

  /** The same values outside a range, and the same with repetitions inside it. */
  ghost predicate Reordered(s: seq<Ptr>, t: seq<Ptr>, lo: nat, hi: nat) {
    && lo <= hi <= |s| == |t| && s[..lo] == t[..lo] && s[hi..] == t[hi..]
    && multiset(s[lo..hi]) == multiset(t[lo..hi])
  }

  lemma SwapReorders(before: seq<Ptr>, s: seq<Ptr>, lo: nat, i: nat, hi: nat)
    requires Reordered(before, s, lo, hi) && lo <= i && i + 1 < hi
    ensures Reordered(before, Swapped(s, i), lo, hi)
  {
    var t := Swapped(s, i);
    assert s[lo..hi] == s[lo..i] + [s[i]] + [s[i + 1]] + s[i + 2..hi];
    assert t[lo..hi] == s[lo..i] + [s[i + 1]] + [s[i]] + s[i + 2..hi];
    assert t[..lo] == s[..lo] && t[hi..] == s[hi..];
  }

  lemma ReorderedAgain(s: seq<Ptr>, t: seq<Ptr>, u: seq<Ptr>, lo: nat, hi: nat)
    requires Reordered(s, t, lo, hi) && Reordered(t, u, lo, hi)
    ensures Reordered(s, u, lo, hi)
  {
  }

  lemma ReorderedRange(s: seq<Ptr>, t: seq<Ptr>, lo: nat, hi: nat)
    requires Reordered(s, t, lo, hi)
    ensures multiset(t[lo..hi]) == multiset(s[lo..hi]) && t[..lo] == s[..lo] && t[hi..] == s[hi..]
  {
  }

  /** `CFArrayExchangeValuesAtIndices` on neighbours */
  method Exchange(a: array<Ptr>, i: nat)
    requires i + 1 < a.Length
    modifies a
    ensures a[..] == Swapped(old(a[..]), i)
  {
    a[i], a[i + 1] := a[i + 1], a[i];
  }

  /** The value at `i` is no less than those before it in the range. */
  ghost predicate Greatest(cmp: Comparator, s: seq<Ptr>, lo: nat, i: nat) {
    i < |s| && forall j :: lo <= j < i ==> cmp(s[i], s[j]) >= 0
  }

  lemma BubbleStarts(cmp: Comparator, s: seq<Ptr>, lo: nat, cut: nat, hi: nat)
    requires lo < cut && Settled(cmp, s, lo, cut, hi)
    ensures Greatest(cmp, s, lo, lo) && Reordered(s, s, lo, hi)
  {
  }

  lemma SwapKeeps(cmp: Comparator, s: seq<Ptr>, lo: nat, i: nat, cut: nat, hi: nat)
    requires Ordering(cmp) && Settled(cmp, s, lo, cut, hi) && lo <= i && i + 1 < cut
    requires cmp(s[i + 1], s[i]) < 0 && Greatest(cmp, s, lo, i)
    ensures Settled(cmp, Swapped(s, i), lo, cut, hi) && Greatest(cmp, Swapped(s, i), lo, i + 1)
  {
  }

  lemma NextIsGreatest(cmp: Comparator, s: seq<Ptr>, lo: nat, i: nat)
    requires Ordering(cmp) && lo <= i && i + 1 < |s| && cmp(s[i + 1], s[i]) >= 0 && Greatest(cmp, s, lo, i)
    ensures Greatest(cmp, s, lo, i + 1)
  {
    forall j | lo <= j < i
      ensures cmp(s[i + 1], s[j]) >= 0
    {
      Between(cmp, s[i + 1], s[i], s[j]);
    }
  }

  lemma CutMoves(cmp: Comparator, s: seq<Ptr>, lo: nat, cut: nat, hi: nat)
    requires lo < cut && Settled(cmp, s, lo, cut, hi) && Greatest(cmp, s, lo, cut - 1)
    ensures Settled(cmp, s, lo, cut - 1, hi)
  {
  }
}
