/**
  The state of a CFBasicHash table as a sequence of slots, what it stands for, and what every update
  of a slot keeps.
 */
module HashModel {

  /** Pointer-sized words; keys, values and hash codes are all words. */
  type Word = x: int | 0 <= x < 0x1_0000_0000_0000_0000

  const DELETED: Word := 0xFFFF_FFFF_FFFF_FFFF  // `~0UL`, the mark of a deleted bucket; 0 marks an empty one
  const SUB_ZERO: Word := 0xa7baadb1           // stands for 0 in a live bucket
  const SUB_ONE: Word := 0xa5baadb9            // stands for ~0 in a live bucket

  const LONG_MAX: nat := 0x7FFF_FFFF_FFFF_FFFF

  /** The two substitutes themselves cannot be stored; the table halts on them. */
  predicate Storable(w: Word) {
    w != SUB_ZERO && w != SUB_ONE
  }

  /** Numbers of buckets and the numbers of entries they may hold, by table index. */
  datatype Tables = Tables(sizes: seq<nat>, capacities: seq<nat>)
  {
    /** All the table code relies on: a full table still fits, and each index has more room than the last. */
    ghost predicate Sane() {
      && |sizes| == |capacities| >= 3 && sizes[0] == 0
      && (forall i :: 0 <= i < |sizes| ==> capacities[i] <= sizes[i])
      && (forall i :: 0 <= i < |sizes| - 1 ==> capacities[i] < capacities[i + 1])
    }

    /** The largest capacity there is an index for, or one before the last index when one more is added to it. */
    function Most(oneMore: bool): nat
      requires |capacities| >= 2
    {
      capacities[|capacities| - if oneMore then 2 else 1]
    }
  }

  lemma {:induction false} Capacities(t: Tables, i: nat, j: nat)
    requires t.Sane() && i <= j < |t.capacities|
    ensures t.capacities[i] <= t.capacities[j]
    decreases j
  {
    if i < j {
      Capacities(t, i, j - 1);
      assert t.capacities[j - 1] < t.capacities[j - 1 + 1];
    }
  }

  datatype Slot = Empty | Deleted | Live(key: Word, value: Word, count: nat)

  datatype Entry = Entry(key: Word, value: Word, count: nat)

  /**
    The key callbacks. Key equality is an equivalence, given by the representative each key has, and
    equal keys have equal hash codes.
   */
  datatype KeyCallbacks = KeyCallbacks(canon: Word -> Word, hash: Word -> Word)
  {
    predicate Equal(a: Word, b: Word) {
      canon(a) == canon(b)
    }

    /** The first bucket probed for a key in a table of `n` buckets. */
    function Home(n: nat, key: Word): (h: nat)
      requires n > 0
      ensures h < n
    {
      hash(canon(key)) % n
    }
  }

  /** How many probes linear probing from `h` makes before it reaches `p`. */
  function Dist(n: nat, h: nat, p: nat): (d: nat)
    requires h < n && p < n
    ensures d < n
  {
    if h <= p then p - h else p - h + n
  }

  /** No empty bucket is probed before `p` on the way from `h`. */
  predicate Unbroken(slots: seq<Slot>, h: nat, p: nat)
    requires h < |slots| && p < |slots|
  {
    forall q :: 0 <= q < |slots| && Dist(|slots|, h, q) < Dist(|slots|, h, p) ==> !slots[q].Empty?
  }

  /** Every live bucket can be reached by probing for its key. */
  predicate Placed(cb: KeyCallbacks, slots: seq<Slot>) {
    forall p :: 0 <= p < |slots| && slots[p].Live? ==> Unbroken(slots, cb.Home(|slots|, slots[p].key), p)
  }

  /** `at` says for each key class which live bucket holds it; no class has two. */
  ghost predicate Indexed(cb: KeyCallbacks, slots: seq<Slot>, at: map<Word, nat>) {
    && (forall p :: 0 <= p < |slots| && slots[p].Live? ==>
          cb.canon(slots[p].key) in at && at[cb.canon(slots[p].key)] == p)
    && (forall c :: c in at ==>
          at[c] < |slots| && slots[at[c]].Live? && cb.canon(slots[at[c]].key) == c)
  }

  ghost predicate Consistent(cb: KeyCallbacks, slots: seq<Slot>, at: map<Word, nat>) {
    Placed(cb, slots) && Indexed(cb, slots, at)
  }

  function EntryOf(s: Slot): Entry
    requires s.Live?
  {
    Entry(s.key, s.value, s.count)
  }

  /** What the table stands for: key classes with the stored key, its value and its count. */
  ghost function Contents(cb: KeyCallbacks, slots: seq<Slot>, at: map<Word, nat>): map<Word, Entry>
    requires Indexed(cb, slots, at)
  {
    map c | c in at :: EntryOf(slots[at[c]])
  }

  ghost function LiveSet(slots: seq<Slot>): set<nat> {
    set p | 0 <= p < |slots| && slots[p].Live?
  }

  ghost function DeletedSet(slots: seq<Slot>): set<nat> {
    set p | 0 <= p < |slots| && slots[p].Deleted?
  }

  // ---------------------------------------------------------------- updates of one bucket

  /** Filling a free bucket that probing reaches adds one entry. */
  lemma FillKeeps(cb: KeyCallbacks, slots: seq<Slot>, at: map<Word, nat>, i: nat, s: Slot)
    requires Consistent(cb, slots, at) && i < |slots| && !slots[i].Live? && s.Live?
    requires cb.canon(s.key) !in at && Unbroken(slots, cb.Home(|slots|, s.key), i)
    ensures var c := cb.canon(s.key);
            && Consistent(cb, slots[i := s], at[c := i])
            && Contents(cb, slots[i := s], at[c := i]) == Contents(cb, slots, at)[c := EntryOf(s)]
  {
    forall c | c in at
      ensures at[c] != i
    {
    }
  }

  /** Turning a live bucket into a deleted one removes its entry. */
  lemma RemoveKeeps(cb: KeyCallbacks, slots: seq<Slot>, at: map<Word, nat>, i: nat)
    requires Consistent(cb, slots, at) && i < |slots| && slots[i].Live?
    ensures var c := cb.canon(slots[i].key);
            && Consistent(cb, slots[i := Deleted], at - {c})
            && Contents(cb, slots[i := Deleted], at - {c}) == Contents(cb, slots, at) - {c}
  {
  }

  /** Overwriting a live bucket with an equal key changes one entry. */
  lemma UpdateKeeps(cb: KeyCallbacks, slots: seq<Slot>, at: map<Word, nat>, i: nat, s: Slot)
    requires Consistent(cb, slots, at) && i < |slots| && slots[i].Live?
    requires s.Live? && cb.Equal(s.key, slots[i].key)
    ensures var c := cb.canon(s.key);
            && Consistent(cb, slots[i := s], at) && c in at && at[c] == i
            && Contents(cb, slots[i := s], at) == Contents(cb, slots, at)[c := EntryOf(s)]
  {
  }

  lemma LiveSetFill(slots: seq<Slot>, i: nat, s: Slot)
    requires i < |slots| && !slots[i].Live? && s.Live?
    ensures |LiveSet(slots[i := s])| == |LiveSet(slots)| + 1
    ensures |DeletedSet(slots[i := s])| == |DeletedSet(slots)| - (if slots[i].Deleted? then 1 else 0)
  {
    assert LiveSet(slots[i := s]) == LiveSet(slots) + {i};
    if slots[i].Deleted? {
      assert DeletedSet(slots) == DeletedSet(slots[i := s]) + {i};
    } else {
      assert DeletedSet(slots) == DeletedSet(slots[i := s]);
    }
  }

  lemma LiveSetRemove(slots: seq<Slot>, i: nat)
    requires i < |slots| && slots[i].Live?
    ensures |LiveSet(slots[i := Deleted])| == |LiveSet(slots)| - 1
    ensures |DeletedSet(slots[i := Deleted])| == |DeletedSet(slots)| + 1
  {
    assert LiveSet(slots) == LiveSet(slots[i := Deleted]) + {i};
    assert DeletedSet(slots[i := Deleted]) == DeletedSet(slots) + {i};
  }

  lemma LiveSetUpdate(slots: seq<Slot>, i: nat, s: Slot)
    requires i < |slots| && slots[i].Live? && s.Live?
    ensures LiveSet(slots[i := s]) == LiveSet(slots) && DeletedSet(slots[i := s]) == DeletedSet(slots)
  {
  }

  // ---------------------------------------------------------------- counting

  lemma {:induction false} SizeOfIndex(cb: KeyCallbacks, slots: seq<Slot>, at: map<Word, nat>)
    requires Indexed(cb, slots, at)
    ensures |at| == |LiveSet(slots)|
  {
    var live := LiveSet(slots);
    assert forall c :: c in at ==> at[c] in live;
    assert forall p :: p in live ==> cb.canon(slots[p].key) in at;
    BijectionSize(at, live, map p | p in live :: cb.canon(slots[p].key));
  }

  lemma {:induction false} BijectionSize(at: map<Word, nat>, live: set<nat>, back: map<nat, Word>)
    requires back.Keys == live
    requires forall c :: c in at ==> at[c] in live && back[at[c]] == c
    requires forall p :: p in live ==> back[p] in at && at[back[p]] == p
    ensures |at| == |live|
    decreases |live|
  {
    if live == {} {
      assert at == map[];
    } else {
      var p :| p in live;
      var c := back[p];
      BijectionSize(at - {c}, live - {p}, back - {p});
      assert at.Keys == (at - {c}).Keys + {c};
    }
  }

  lemma {:induction false} RangeSize(n: nat, s: set<nat>)
    requires forall p :: p in s <==> 0 <= p < n
    ensures |s| == n
  {
    if n > 0 {
      RangeSize(n - 1, s - {n - 1});
      assert s == (s - {n - 1}) + {n - 1};
    } else {
      assert s == {};
    }
  }

  /** With fewer live buckets than buckets, some bucket is free. */
  lemma SomeFree(slots: seq<Slot>) returns (p: nat)
    requires |LiveSet(slots)| < |slots|
    ensures p < |slots| && !slots[p].Live?
  {
    if forall q :: 0 <= q < |slots| ==> slots[q].Live? {
      RangeSize(|slots|, LiveSet(slots));
    }
    p :| 0 <= p < |slots| && !slots[p].Live?;
  }

  // ---------------------------------------------------------------- retained keys and values

  /** The word a live bucket retains: its key or its value. */
  function Held(s: Slot, keySide: bool): multiset<Word> {
    if s.Live? then multiset{if keySide then s.key else s.value} else multiset{}
  }

  /** All the keys, or all the values, of live buckets, with repetitions. */
  ghost function Owned(slots: seq<Slot>, keySide: bool): multiset<Word> {
    if slots == [] then multiset{}
    else Owned(slots[..|slots| - 1], keySide) + Held(slots[|slots| - 1], keySide)
  }

  lemma {:induction false} OwnedUpdate(slots: seq<Slot>, keySide: bool, i: nat, s: Slot)
    requires i < |slots|
    ensures Owned(slots[i := s], keySide) + Held(slots[i], keySide) == Owned(slots, keySide) + Held(s, keySide)
    decreases |slots|
  {
    var last := |slots| - 1;
    var updated := slots[i := s];
    if i < last {
      OwnedUpdate(slots[..last], keySide, i, s);
      assert updated[..last] == slots[..last][i := s] && updated[last] == slots[last];
      AddToBoth(Owned(updated[..last], keySide), Held(slots[i], keySide),
                Owned(slots[..last], keySide), Held(s, keySide), Held(slots[last], keySide));
    } else {
      assert updated[..last] == slots[..last] && updated[last] == s;
    }
  }

  lemma AddToBoth(a: multiset<Word>, b: multiset<Word>, c: multiset<Word>, d: multiset<Word>, e: multiset<Word>)
    requires a + b == c + d
    ensures (a + e) + b == (c + e) + d
  {
    forall w: Word
      ensures ((a + e) + b)[w] == ((c + e) + d)[w]
    {
      assert (a + b)[w] == (c + d)[w];
    }
  }

  lemma {:induction false} OwnedOfEmpty(slots: seq<Slot>, keySide: bool)
    requires forall p :: 0 <= p < |slots| ==> !slots[p].Live?
    ensures Owned(slots, keySide) == multiset{}
  {
    if slots != [] {
      OwnedOfEmpty(slots[..|slots| - 1], keySide);
    }
  }
}
