/** Counting, comparing and enumerating CFBasicHash tables. */
module HashQueries {
  import opened Bytes
  import opened HashModel
  import opened HashSpec
  import opened HashLaws
  import opened HashSteps
  import opened BasicHash

  // ---------------------------------------------------------------- counting

  /** The sum of the counts of all entries. */
  ghost function TotalOf(m: Dict): nat
    decreases |m|
  {
    if m == map[] then 0 else var c :| c in m; m[c].count + TotalOf(m - {c})
  }

  lemma {:induction false} TotalWithout(m: Dict, c: Word)
    requires c in m
    ensures TotalOf(m) == m[c].count + TotalOf(m - {c})
    decreases |m|
  {
    var d :| d in m && TotalOf(m) == m[d].count + TotalOf(m - {d});
    if c != d {
      TotalWithout(m - {d}, c);
      TotalWithout(m - {c}, d);
      assert m - {d} - {c} == m - {c} - {d};
    }
  }

  function SlotCount(s: Slot): nat {
    if s.Live? then s.count else 0
  }

  function Total(slots: seq<Slot>): nat {
    if slots == [] then 0 else Total(slots[..|slots| - 1]) + SlotCount(slots[|slots| - 1])
  }

  /** What the first `n` buckets stand for. */
  ghost function Part(cb: KeyCallbacks, slots: seq<Slot>, at: map<Word, nat>, n: nat): Dict
    requires Indexed(cb, slots, at)
  {
    map c | c in at && at[c] < n :: EntryOf(slots[at[c]])
  }

  lemma {:induction false} TotalOfPart(cb: KeyCallbacks, slots: seq<Slot>, at: map<Word, nat>, n: nat)
    requires Indexed(cb, slots, at) && n <= |slots|
    ensures Total(slots[..n]) == TotalOf(Part(cb, slots, at, n))
  {
    if n == 0 {
      assert Part(cb, slots, at, n) == map[];
    } else {
      TotalOfPart(cb, slots, at, n - 1);
      assert slots[..n][..n - 1] == slots[..n - 1];
      PartNext(cb, slots, at, n - 1);
    }
  }

  lemma PartNext(cb: KeyCallbacks, slots: seq<Slot>, at: map<Word, nat>, n: nat)
    requires Indexed(cb, slots, at) && n < |slots|
    ensures TotalOf(Part(cb, slots, at, n + 1)) == TotalOf(Part(cb, slots, at, n)) + SlotCount(slots[n])
  {
    var before, after := Part(cb, slots, at, n), Part(cb, slots, at, n + 1);
    if slots[n].Live? {
      var c := cb.canon(slots[n].key);
      TotalWithout(after, c);
      assert after - {c} == before;
    } else {
      assert after == before;
    }
  }

  lemma TotalOfContents(cb: KeyCallbacks, slots: seq<Slot>, at: map<Word, nat>)
    requires Indexed(cb, slots, at)
    ensures Total(slots) == TotalOf(Contents(cb, slots, at))
  {
    TotalOfPart(cb, slots, at, |slots|);
    assert slots[..|slots|] == slots;
    assert Part(cb, slots, at, |slots|) == Contents(cb, slots, at);
  }

  /** When every count is one, the total is the number of entries. */
  lemma {:induction false} TotalOfOnes(m: Dict)
    requires forall c :: c in m ==> m[c].count == 1
    ensures TotalOf(m) == |m|
    decreases |m|
  {
    if m != map[] {
      var c :| c in m;
      TotalWithout(m, c);
      TotalOfOnes(m - {c});
      assert m.Keys == (m - {c}).Keys + {c};
    }
  }

  /** `CFBasicHashGetCount`, in 64-bit arithmetic. */
  method Count(t: Table) returns (total: Word)
    requires t.Valid()
    ensures total == TotalOf(t.Entries()) % TWO_64
  {
    TotalOfContents(t.cb, t.slots, t.at);
    if t.hasCounts {
      total := SumCounts(t);
    } else {
      UsedIsTotal(t);
      total := t.used % TWO_64;
    }
  }

  lemma UsedIsTotal(t: Table)
    requires t.Valid() && !t.hasCounts
    ensures t.used == TotalOf(t.Entries())
  {
    SizeOfIndex(t.cb, t.slots, t.at);
    assert t.Entries().Keys == t.at.Keys;
    TotalOfOnes(t.Entries());
  }

  method SumCounts(t: Table) returns (total: Word)
    requires t.Shaped()
    ensures total == Total(t.slots) % TWO_64
  {
    total := 0;
    var idx := 0;
    while idx < t.store.values.Length
      invariant 0 <= idx <= |t.slots| && total == Total(t.slots[..idx]) % TWO_64
    {
      var s := t.store.SlotAt(idx);
      assert s == t.slots[idx] && t.slots[..idx + 1][..idx] == t.slots[..idx];
      WrapSum(Total(t.slots[..idx]), SlotCount(s));
      total := (total + SlotCount(s)) % TWO_64;
      idx := idx + 1;
    }
    assert t.slots[..idx] == t.slots;
  }

  lemma WrapSum(x: nat, y: nat)
    ensures (x % TWO_64 + y) % TWO_64 == (x + y) % TWO_64
  {
  }

  /** `CFBasicHashGetCountOfKey` */
  method CountOfKey(t: Table, key: Word) returns (count: nat)
    requires t.Valid()
    ensures Storable(key) ==> count == if t.cb.canon(key) in t.Entries() then t.Entries()[t.cb.canon(key)].count else 0
    ensures !Storable(key) ==> count == 0
  {
    if key == SUB_ZERO || key == SUB_ONE {
      return 0;
    }
    if t.used == 0 {
      UsedIsSize(t);
      return 0;
    }
    var i;
    i, count := t.FindBucket(key);
  }

  /** The number of entries is the number of used buckets. */
  lemma UsedIsSize(t: Table)
    requires t.Valid()
    ensures t.used == |t.Entries()|
  {
    SizeOfIndex(t.cb, t.slots, t.at);
    assert t.Entries().Keys == t.at.Keys;
  }

  // ---------------------------------------------------------------- equality

  /** What the comparing loop checks of one entry against the other table. */
  predicate Matched(hasKeys: bool, eq: (Word, Word) -> bool, e: Entry, c: Word, m: Dict) {
    && c in m && m[c].count == e.count
    && (hasKeys ==> e.value == m[c].value || eq(e.value, m[c].value))
  }

  ghost predicate AllMatched(hasKeys: bool, eq: (Word, Word) -> bool, m: Dict, n: Dict) {
    forall c :: c in m ==> Matched(hasKeys, eq, m[c], c, n)
  }

  /** Equal collections: the same keys, each with equal counts and, in a dictionary, equal values. */
  ghost predicate SameContents(hasKeys: bool, eq: (Word, Word) -> bool, m: Dict, n: Dict) {
    && m.Keys == n.Keys
    && (forall c :: c in m ==> m[c].count == n[c].count)
    && (hasKeys ==> forall c :: c in m ==> m[c].value == n[c].value || eq(m[c].value, n[c].value))
  }

  /** Where the keys agree, matching every entry is having the same contents. */
  lemma MatchedIsSame(hasKeys: bool, eq: (Word, Word) -> bool, m: Dict, n: Dict)
    requires m.Keys == n.Keys
    ensures AllMatched(hasKeys, eq, m, n) <==> SameContents(hasKeys, eq, m, n)
  {
    if AllMatched(hasKeys, eq, m, n) {
      forall c | c in m
        ensures m[c].count == n[c].count && (hasKeys ==> m[c].value == n[c].value || eq(m[c].value, n[c].value))
      {
        assert Matched(hasKeys, eq, m[c], c, n);
      }
    } else {
      var c :| c in m && !Matched(hasKeys, eq, m[c], c, n);
      assert c in n;
    }
  }

  ghost predicate Counted(m: Dict) {
    forall c :: c in m ==> 0 < m[c].count
  }

  /** Comparing one way is enough once the totals agree. */
  lemma {:induction false} MatchedTotalsAgree(hasKeys: bool, eq: (Word, Word) -> bool, m: Dict, n: Dict)
    requires AllMatched(hasKeys, eq, m, n) && Counted(n)
    ensures TotalOf(m) <= TotalOf(n)
    ensures TotalOf(m) == TotalOf(n) <==> m.Keys == n.Keys
    decreases |m|
  {
    hide AllMatched;
    if m == map[] {
      if c :| c in n {
        TotalWithout(n, c);
      }
    } else {
      var c :| c in m;
      SmallerMatch(hasKeys, eq, m, n, c);
      TotalWithout(m, c);
      TotalWithout(n, c);
      MatchedTotalsAgree(hasKeys, eq, m - {c}, n - {c});
      SameKeySets(m, n, c);
    }
  }

  lemma SmallerMatch(hasKeys: bool, eq: (Word, Word) -> bool, m: Dict, n: Dict, c: Word)
    requires AllMatched(hasKeys, eq, m, n)
    ensures AllMatched(hasKeys, eq, m - {c}, n - {c})
    ensures c in m ==> Matched(hasKeys, eq, m[c], c, n)
  {
    forall d | d in m - {c}
      ensures Matched(hasKeys, eq, (m - {c})[d], d, n - {c})
    {
      assert Matched(hasKeys, eq, m[d], d, n);
    }
  }

  lemma SameKeySets(m: Dict, n: Dict, c: Word)
    requires c in m && c in n
    ensures (m - {c}).Keys == (n - {c}).Keys <==> m.Keys == n.Keys
  {
    assert m.Keys == (m - {c}).Keys + {c} && n.Keys == (n - {c}).Keys + {c};
  }

  /** What `CFBasicHashesAreEqual` answers, as a function of the two collections. */
  ghost predicate Compared(hasKeys: bool, eq: (Word, Word) -> bool, m: Dict, n: Dict) {
    && TotalOf(m) % TWO_64 == TotalOf(n) % TWO_64
    && (TotalOf(m) % TWO_64 == 0 || AllMatched(hasKeys, eq, m, n))
  }

  /** The answer is right whenever the totals fit 64 bits. */
  lemma ComparisonIsExact(hasKeys: bool, eq: (Word, Word) -> bool, m: Dict, n: Dict)
    requires Counted(m) && Counted(n) && TotalOf(m) < TWO_64 && TotalOf(n) < TWO_64
    ensures Compared(hasKeys, eq, m, n) <==> SameContents(hasKeys, eq, m, n)
  {
    hide AllMatched, SameContents;
    if m.Keys == n.Keys { MatchedIsSame(hasKeys, eq, m, n); }
    DifferentKeys(hasKeys, eq, m, n);
    if AllMatched(hasKeys, eq, m, n) {
      MatchedTotalsAgree(hasKeys, eq, m, n);
    }
    if TotalOf(m) == TotalOf(n) == 0 {
      NoTotal(m);
      NoTotal(n);
      NothingToMatch(hasKeys, eq, m, n);
    }
  }

  lemma DifferentKeys(hasKeys: bool, eq: (Word, Word) -> bool, m: Dict, n: Dict)
    ensures SameContents(hasKeys, eq, m, n) ==> m.Keys == n.Keys
  {
  }

  lemma NoTotal(m: Dict)
    requires Counted(m) && TotalOf(m) == 0
    ensures m == map[]
  {
    if c :| c in m { TotalWithout(m, c); }
  }

  lemma NothingToMatch(hasKeys: bool, eq: (Word, Word) -> bool, m: Dict, n: Dict)
    requires m == map[]
    ensures AllMatched(hasKeys, eq, m, n)
  {
  }

  /**
    Whatever the totals are, a no is right. The answer as a whole is right exactly when one of the
    two tests rightly says no, or the entries match and the totals are equal before they are cut.
   */
  lemma AnswerIsRightExactlyWhen(hasKeys: bool, eq: (Word, Word) -> bool, m: Dict, n: Dict)
    requires Counted(m) && Counted(n)
    ensures SameContents(hasKeys, eq, m, n) ==> Compared(hasKeys, eq, m, n)
    ensures (Compared(hasKeys, eq, m, n) <==> SameContents(hasKeys, eq, m, n)) <==>
            || TotalOf(m) % TWO_64 != TotalOf(n) % TWO_64
            || (TotalOf(m) % TWO_64 != 0 && !AllMatched(hasKeys, eq, m, n))
            || (AllMatched(hasKeys, eq, m, n) && TotalOf(m) == TotalOf(n))
  {
    hide AllMatched, SameContents;
    if m.Keys == n.Keys { MatchedIsSame(hasKeys, eq, m, n); }
    DifferentKeys(hasKeys, eq, m, n);
    if AllMatched(hasKeys, eq, m, n) {
      MatchedTotalsAgree(hasKeys, eq, m, n);
    }
  }

  /** Dictionaries with the same keys and one unequal value are told apart. */
  lemma OneValueDiffers(eq: (Word, Word) -> bool, m: Dict, n: Dict, c: Word)
    requires Counted(m) && Counted(n) && m.Keys == n.Keys && TotalOf(m) % TWO_64 != 0
    requires c in m && m[c].value != n[c].value && !eq(m[c].value, n[c].value)
    ensures !Compared(true, eq, m, n)
  {
    MatchedIsSame(true, eq, m, n);
  }

  /** A bag of three keys whose counts add up to 2^64. */
  function Brimming(a: Word, b: Word, c: Word): Dict
    requires a != b && b != c && c != a
  {
    map[a := Entry(a, a, LONG_MAX), b := Entry(b, b, LONG_MAX), c := Entry(c, c, 2)]
  }

  lemma BrimmingTotal(a: Word, b: Word, c: Word)
    requires a != b && b != c && c != a
    ensures TotalOf(Brimming(a, b, c)) == TWO_64
  {
    var n := Brimming(a, b, c);
    TotalWithout(n, a);
    TotalWithout(n - {a}, b);
    TotalWithout(n - {a} - {b}, c);
    assert n - {a} - {b} - {c} == map[];
  }

  /** Such a bag compares equal to an empty bag, where the totals differ, and to one with other keys, where they do not. */
  lemma OverflowingTotalsCompareEqual(eq: (Word, Word) -> bool)
    ensures Compared(false, eq, map[], Brimming(1, 2, 3)) && !SameContents(false, eq, map[], Brimming(1, 2, 3))
    ensures Compared(false, eq, Brimming(1, 2, 3), Brimming(4, 5, 6))
    ensures !SameContents(false, eq, Brimming(1, 2, 3), Brimming(4, 5, 6))
  {
    BrimmingTotal(1, 2, 3);
    BrimmingTotal(4, 5, 6);
    assert 1 in Brimming(1, 2, 3) && 1 !in Brimming(4, 5, 6);
  }

  /** Every table holds sound counts. */
  lemma EntriesAreSound(t: Table)
    requires t.Valid()
    ensures Sound(t.hasCounts, t.Entries())
  {
    forall c | c in t.Entries()
      ensures 1 <= t.Entries()[c].count <= LONG_MAX && (!t.hasCounts ==> t.Entries()[c].count == 1)
    {
      CleanAt(t.hasKeys, t.hasCounts, t.slots, t.at[c]);
    }
  }

  lemma TablesCompareExactly(t: Table, u: Table, eq: (Word, Word) -> bool)
    requires t.Valid() && u.Valid()
    ensures TotalOf(t.Entries()) < TWO_64 && TotalOf(u.Entries()) < TWO_64 ==>
              (Compared(t.hasKeys, eq, t.Entries(), u.Entries()) <==> SameContents(t.hasKeys, eq, t.Entries(), u.Entries()))
  {
    hide Compared, SameContents;
    EntriesAreSound(t);
    EntriesAreSound(u);
    if TotalOf(t.Entries()) < TWO_64 && TotalOf(u.Entries()) < TWO_64 {
      ComparisonIsExact(t.hasKeys, eq, t.Entries(), u.Entries());
    }
  }

  /** `CFBasicHashesAreEqual`, on two tables with the same key callbacks. */
  method AreEqual(t: Table, u: Table, eq: (Word, Word) -> bool) returns (equal: bool)
    requires t.Valid() && u.Valid() && t.cb == u.cb && t.hasKeys == u.hasKeys
    ensures equal <==> Compared(t.hasKeys, eq, t.Entries(), u.Entries())
    ensures TotalOf(t.Entries()) < TWO_64 && TotalOf(u.Entries()) < TWO_64 ==>
              (equal <==> SameContents(t.hasKeys, eq, t.Entries(), u.Entries()))
  {
    hide Good, Contents, LiveSet, DeletedSet, AllMatched, SameContents;
    TablesCompareExactly(t, u, eq);
    var n := Count(t);
    var m := Count(u);
    if n != m {
      return false;
    }
    if n == 0 {
      return true;
    }
    equal := CompareEntries(t, u, eq);
  }

  /** The comparing loop: it stops at the first mismatch, or when all used buckets have been seen. */
  method CompareEntries(t: Table, u: Table, eq: (Word, Word) -> bool) returns (equal: bool)
    requires t.Valid() && u.Valid() && t.cb == u.cb && t.hasKeys == u.hasKeys
    ensures equal <==> AllMatched(t.hasKeys, eq, t.Entries(), u.Entries())
  {
    hide Placed, Indexed, Clean, Contents, LiveSet, DeletedSet, AllMatched, PartMatched;
    NothingMatched(t, u.Entries(), eq);
    var used := t.used;
    var idx := 0;
    while 0 < used && idx < t.store.values.Length
      invariant 0 <= idx <= |t.slots| && 0 <= used && used + |LiveSet(t.slots[..idx])| == t.used
      invariant PartMatched(t, u.Entries(), eq, idx)
    {
      var s := t.store.SlotAt(idx);
      assert s == t.slots[idx];
      LiveNext(t.slots, idx);
      if s.Live? {
        EntryAt(t.cb, t.slots, t.at, idx);
        CleanAt(t.hasKeys, t.hasCounts, t.slots, idx);
        var ok := CompareOne(u, eq, s);
        MatchNext(t, u.Entries(), eq, idx);
        if !ok {
          return false;
        }
        used := used - 1;
      } else {
        MatchNext(t, u.Entries(), eq, idx);
      }
      idx := idx + 1;
    }
    if idx == |t.slots| { assert t.slots[..idx] == t.slots; }
    PartIsAll(t, u.Entries(), eq, idx);
    equal := true;
  }

  method CompareOne(u: Table, eq: (Word, Word) -> bool, s: Slot) returns (ok: bool)
    requires u.Valid() && s.Live? && 0 < s.count
    ensures ok <==> Matched(u.hasKeys, eq, EntryOf(s), u.cb.canon(s.key), u.Entries())
  {
    hide Placed, Indexed, Clean, Contents, LiveSet, DeletedSet;
    var i, count := u.FindBucket(s.key);
    if s.count != count {
      return false;
    }
    var other := u.store.SlotAt(i);
    ok := u.hasKeys ==> s.value == other.value || eq(s.value, other.value);
  }

  /** The entries in the first `n` buckets match. */
  ghost predicate PartMatched(t: Table, m: Dict, eq: (Word, Word) -> bool, n: nat)
    requires t.Valid() && n <= |t.slots|
    reads t, t.store, t.store.values, t.store.keys, t.store.counts
  {
    forall p :: 0 <= p < n && t.slots[p].Live? ==> Matched(t.hasKeys, eq, EntryOf(t.slots[p]), t.cb.canon(t.slots[p].key), m)
  }

  lemma NothingMatched(t: Table, m: Dict, eq: (Word, Word) -> bool)
    requires t.Valid()
    ensures PartMatched(t, m, eq, 0) && |LiveSet(t.slots[..0])| == 0
  {
    assert LiveSet(t.slots[..0]) == {};
  }

  lemma MatchNext(t: Table, m: Dict, eq: (Word, Word) -> bool, n: nat)
    requires t.Valid() && n < |t.slots| && PartMatched(t, m, eq, n)
    ensures var s := t.slots[n];
            if s.Live? ==> Matched(t.hasKeys, eq, EntryOf(s), t.cb.canon(s.key), m) then PartMatched(t, m, eq, n + 1)
            else !AllMatched(t.hasKeys, eq, t.Entries(), m)
  {
    if t.slots[n].Live? { EntryAt(t.cb, t.slots, t.at, n); }
  }

  lemma LiveNext(slots: seq<Slot>, n: nat)
    requires n < |slots|
    ensures |LiveSet(slots[..n + 1])| == |LiveSet(slots[..n])| + if slots[n].Live? then 1 else 0
  {
    assert LiveSet(slots[..n + 1]) == LiveSet(slots[..n]) + if slots[n].Live? then {n} else {};
  }

  /** Once all used buckets have been seen, no bucket after them is live. */
  lemma NoneAfter(slots: seq<Slot>, n: nat, p: nat)
    requires n <= p < |slots| && |LiveSet(slots[..n])| == |LiveSet(slots)|
    ensures !slots[p].Live?
  {
    var seen, all := LiveSet(slots[..n]), LiveSet(slots);
    assert all == seen + (all - seen);
    assert all - seen == {};
    assert p !in seen;
  }

  lemma PartIsAll(t: Table, m: Dict, eq: (Word, Word) -> bool, n: nat)
    requires t.Valid() && n <= |t.slots| && PartMatched(t, m, eq, n)
    requires n == |t.slots| || |LiveSet(t.slots[..n])| == |LiveSet(t.slots)|
    ensures AllMatched(t.hasKeys, eq, t.Entries(), m)
  {
    forall c | c in t.Entries()
      ensures Matched(t.hasKeys, eq, t.Entries()[c], c, m)
    {
      var p := t.at[c];
      if n <= p {
        NoneAfter(t.slots, n, p);
      }
    }
  }

  // ---------------------------------------------------------------- enumeration

  function LiveKeys(slots: seq<Slot>): seq<Word> {
    if slots == [] then []
    else LiveKeys(slots[..|slots| - 1]) + if slots[|slots| - 1].Live? then [slots[|slots| - 1].key] else []
  }

  /** `__CFBasicHashFastEnumeration`: the keys of the live buckets from `state` on, at most `room` of them. */
  method FastEnumeration(t: Table, state: nat, room: nat) returns (items: seq<Word>, next: nat)
    requires t.Valid() && state <= |t.slots|
    ensures state <= next <= |t.slots| && |items| <= room
    ensures LiveKeys(t.slots[..next]) == LiveKeys(t.slots[..state]) + items
    ensures |items| < room ==> LiveKeys(t.slots[..next]) == LiveKeys(t.slots)
  {
    hide Good, LiveSet, DeletedSet;
    items, next := [], state;
    var used := t.used;
    while 0 < used && next < t.store.values.Length && |items| < room
      invariant state <= next <= |t.slots| && |items| <= room && used == t.used - |items|
      invariant LiveKeys(t.slots[..next]) == LiveKeys(t.slots[..state]) + items
      decreases |t.slots| - next
    {
      var s := t.store.SlotAt(next);
      assert s == t.slots[next];
      assert t.slots[..next + 1][..next] == t.slots[..next];
      if s.Live? {
        items := items + [s.key];
        used := used - 1;
      }
      next := next + 1;
    }
    if |items| < room {
      FinishedKeys(t.slots, state, next, items);
    }
  }

  lemma {:induction false} LiveKeysSize(slots: seq<Slot>, n: nat)
    requires n <= |slots|
    ensures |LiveKeys(slots[..n])| == |LiveSet(slots[..n])|
  {
    if n == 0 {
      assert LiveSet(slots[..0]) == {};
    } else {
      LiveKeysSize(slots, n - 1);
      LiveNext(slots, n - 1);
      assert slots[..n][..n - 1] == slots[..n - 1];
    }
  }

  lemma {:induction false} DeadTail(slots: seq<Slot>, n: nat, m: nat)
    requires n <= m <= |slots| && forall p :: n <= p < m ==> !slots[p].Live?
    ensures LiveKeys(slots[..m]) == LiveKeys(slots[..n])
    decreases m
  {
    if n < m {
      DeadTail(slots, n, m - 1);
      assert slots[..m][..m - 1] == slots[..m - 1];
    }
  }

  lemma {:induction false} LiveKeysGrow(slots: seq<Slot>, n: nat, m: nat)
    requires n <= m <= |slots|
    ensures |LiveKeys(slots[..n])| <= |LiveKeys(slots[..m])|
    decreases m
  {
    if n < m {
      LiveKeysGrow(slots, n, m - 1);
      assert slots[..m][..m - 1] == slots[..m - 1];
    }
  }

  /** A batch that ends because all buckets or as many keys as there are have been seen. */
  lemma FinishedKeys(slots: seq<Slot>, state: nat, next: nat, items: seq<Word>)
    requires state <= next <= |slots| && LiveKeys(slots[..next]) == LiveKeys(slots[..state]) + items
    requires next == |slots| || |items| >= |LiveSet(slots)|
    ensures LiveKeys(slots[..next]) == LiveKeys(slots)
  {
    assert slots[..|slots|] == slots;
    if next < |slots| {
      LiveKeysSize(slots, next);
      LiveKeysSize(slots, |slots|);
      LiveKeysGrow(slots, next, |slots|);
      forall p | next <= p < |slots|
        ensures !slots[p].Live?
      {
        NoneAfter(slots, next, p);
      }
      DeadTail(slots, next, |slots|);
    }
  }

  lemma NoKeysYet(slots: seq<Slot>)
    ensures LiveKeys(slots[..0]) == []
  {
  }

  lemma {:induction false} KeysOfBuckets(slots: seq<Slot>)
    ensures forall k :: k in LiveKeys(slots) <==> exists p :: 0 <= p < |slots| && slots[p].Live? && slots[p].key == k
  {
    if slots != [] {
      KeysOfBuckets(slots[..|slots| - 1]);
    }
  }

  /** The enumerated keys are the stored keys of the entries, each once. */
  lemma LiveKeysAreEntries(t: Table)
    requires t.Valid()
    ensures |LiveKeys(t.slots)| == |t.Entries()|
    ensures forall c :: c in t.Entries() ==> t.Entries()[c].key in LiveKeys(t.slots)
    ensures forall k :: k in LiveKeys(t.slots) ==> t.cb.canon(k) in t.Entries() && t.Entries()[t.cb.canon(k)].key == k
  {
    hide LiveKeys;
    KeysOfBuckets(t.slots);
    assert t.slots[..|t.slots|] == t.slots;
    LiveKeysSize(t.slots, |t.slots|);
    UsedIsSize(t);
  }

  /** Enumerating in batches of any size until one comes back empty gives every live bucket's key, in bucket order. */
  method Enumerate(t: Table, room: nat) returns (all: seq<Word>)
    requires t.Valid() && 0 < room
    ensures all == LiveKeys(t.slots) && |all| == |t.Entries()|
    ensures forall c :: c in t.Entries() ==> t.Entries()[c].key in all
    ensures forall k :: k in all ==> t.cb.canon(k) in t.Entries() && t.Entries()[t.cb.canon(k)].key == k
  {
    hide Good, LiveSet, DeletedSet, LiveKeys, Contents, Table.Shaped, Tables.Sane;
    LiveKeysAreEntries(t);
    NoKeysYet(t.slots);
    var state := 0;
    var items;
    all := [];
    items, state := FastEnumeration(t, state, room);
    while items != []
      invariant state <= |t.slots| && LiveKeys(t.slots[..state]) == all + items
      invariant items == [] ==> LiveKeys(t.slots[..state]) == LiveKeys(t.slots)
      decreases |t.slots| - state, |items|
    {
      all := all + items;
      items, state := FastEnumeration(t, state, room);
    }
  }
}
