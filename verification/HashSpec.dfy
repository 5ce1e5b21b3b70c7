/** What the CFBasicHash operations mean, as operations on a map from key classes to entries. */
module HashSpec {
  import opened HashModel

  type Dict = map<Word, Entry>

  /** Adding keeps an entry that is there; a bag counts it once more, up to the largest count. */
  function Added(cb: KeyCallbacks, bag: bool, m: Dict, key: Word, value: Word): Dict {
    var c := cb.canon(key);
    if c !in m then m[c := Entry(key, value, 1)]
    else if bag && m[c].count < LONG_MAX then m[c := m[c].(count := m[c].count + 1)]
    else m
  }

  /** Replacing changes only an entry that is there, its key included. */
  function Replaced(cb: KeyCallbacks, m: Dict, key: Word, value: Word): Dict {
    var c := cb.canon(key);
    if c in m then m[c := Entry(key, value, m[c].count)] else m
  }

  function Assigned(cb: KeyCallbacks, m: Dict, key: Word, value: Word): Dict {
    var c := cb.canon(key);
    m[c := Entry(key, value, if c in m then m[c].count else 1)]
  }

  /** Removing takes one from the count of a bag's entry; a count that has reached the largest one sticks. */
  function Without(cb: KeyCallbacks, m: Dict, key: Word): Dict {
    var c := cb.canon(key);
    if c !in m || m[c].count == LONG_MAX then m
    else if 1 < m[c].count then m[c := m[c].(count := m[c].count - 1)]
    else m - {c}
  }

  datatype Op = Add(key: Word, value: Word)
              | Replace(key: Word, value: Word)
              | Set(key: Word, value: Word)
              | Remove(key: Word)
              | RemoveAll
              | Reserve(capacity: nat)

  function Step(cb: KeyCallbacks, bag: bool, m: Dict, op: Op): Dict {
    match op
    case Add(key, value) => Added(cb, bag, m, key, value)
    case Replace(key, value) => Replaced(cb, m, key, value)
    case Set(key, value) => Assigned(cb, m, key, value)
    case Remove(key) => if Storable(key) then Without(cb, m, key) else m
    case RemoveAll => map[]
    case Reserve(_) => m
  }

  function Steps(cb: KeyCallbacks, bag: bool, m: Dict, ops: seq<Op>): Dict
    decreases |ops|
  {
    if ops == [] then m else Steps(cb, bag, Step(cb, bag, m, ops[0]), ops[1..])
  }

  // ---------------------------------------------------------------- table sizes

  /** The least index from `i` on with room for `n` entries. */
  function LeastFrom(t: Tables, i: nat, n: nat): (idx: nat)
    requires t.Sane() && i < |t.capacities| && n <= t.Most(false)
    ensures i <= idx < |t.capacities| && n <= t.capacities[idx]
    ensures forall j :: i <= j < idx ==> t.capacities[j] < n
    decreases |t.capacities| - i
  {
    if n <= t.capacities[i] then i else LeastFrom(t, i + 1, n)
  }

  /** The index of the smallest table with room for `n` entries, or the one after it. */
  function GrownIndex(t: Tables, oneMore: bool, n: nat): (idx: nat)
    requires t.Sane() && n <= t.Most(oneMore)
    ensures idx < |t.capacities| && n <= t.capacities[idx]
  {
    Capacities(t, |t.capacities| - 2, |t.capacities| - 1);
    var least := LeastFrom(t, 0, n);
    if oneMore then
      assert least < |t.capacities| - 1;
      assert t.capacities[least] < t.capacities[least + 1];
      least + 1
    else least
  }

  /** When a removal picks a smaller table: few entries for the size, with more slack when growing fast. */
  predicate Sparse(t: Tables, fast: bool, idx: nat, n: nat)
    requires idx < |t.capacities|
  {
    var back := if fast then 5 else 2;
    back < idx && n < t.capacities[idx - back]
  }

  /** A table for which `n + 1` entries are too many at `idx` can still move to a larger size. */
  predicate CanGrow(t: Tables, fast: bool, idx: nat, n: nat)
    requires t.Sane() && idx < |t.capacities|
  {
    n < t.capacities[idx] || n + 1 <= t.Most(fast)
  }

  /** The source stops the program when an operation needs a larger table than there is. */
  predicate Allowed(t: Tables, fast: bool, cb: KeyCallbacks, m: Dict, idx: nat, op: Op)
    requires t.Sane() && idx < |t.capacities|
  {
    match op
    case Add(key, _) => cb.canon(key) in m || CanGrow(t, fast, idx, |m|)
    case Set(key, _) => cb.canon(key) in m || CanGrow(t, fast, idx, |m|)
    case Reserve(n) => |m| < n ==> n <= t.Most(fast && n == |m| + 1)
    case _ => true
  }

  /** The index after an operation that turned `m` into a map of `after` entries. */
  function NextIndex(t: Tables, fast: bool, cb: KeyCallbacks, m: Dict, idx: nat, op: Op, after: nat): (next: nat)
    requires t.Sane() && idx < |t.capacities| && Allowed(t, fast, cb, m, idx, op)
    requires op.Remove? ==> after <= |m| <= t.capacities[idx]
    ensures next < |t.capacities|
  {
    match op
    case Add(key, _) => if cb.canon(key) in m || |m| < t.capacities[idx] then idx else GrownIndex(t, fast, |m| + 1)
    case Set(key, _) => if cb.canon(key) in m || |m| < t.capacities[idx] then idx else GrownIndex(t, fast, |m| + 1)
    case Replace(_, _) => idx
    case Remove(_) =>
      Capacities(t, idx, |t.capacities| - 1);
      if after < |m| && Sparse(t, fast, idx, after) then GrownIndex(t, false, after) else idx
    case RemoveAll => 0
    case Reserve(n) => if |m| < n then GrownIndex(t, fast && n == |m| + 1, n) else idx
  }

  /** The words an operation hands to the table are ones it can store, and sets and bags use values as keys. */
  predicate Proper(hasKeys: bool, op: Op) {
    (op.Add? || op.Replace? || op.Set?) ==>
      Storable(op.key) && Storable(op.value) && (!hasKeys ==> op.key == op.value)
  }

  // ---------------------------------------------------------------- tables whose values number their keys

  /** The number a value gets when `v` is inserted before it, or taken out below it. */
  function Shifted(up: bool, v: Word, w: Word): (r: Word) {
    if up then (if v <= w then (w + 1) % 0x1_0000_0000_0000_0000 else w)
    else if v < w then w - 1 else w
  }

  /** No value moves to a word that cannot be stored. */
  predicate CanShift(up: bool, m: Dict, v: Word) {
    forall c :: c in m ==> Storable(Shifted(up, v, m[c].value))
  }

  function AllShifted(up: bool, m: Dict, v: Word): Dict {
    map c | c in m :: m[c].(value := Shifted(up, v, m[c].value))
  }

  /** A new key takes number `v`; the keys from there on move up by one. */
  function Numbered(cb: KeyCallbacks, m: Dict, key: Word, v: Word): Dict {
    AllShifted(true, m, v)[cb.canon(key) := Entry(key, v, 1)]
  }

  /** The key class `gone` goes away; the keys numbered above `v` move down by one. */
  function Unnumbered(m: Dict, gone: Word, v: Word): Dict {
    AllShifted(false, m, v) - {gone}
  }

  /** The values are the numbers from 0 to one less than the number of keys, each once. */
  ghost predicate Dense(m: Dict) {
    && (forall c :: c in m ==> m[c].value < |m|)
    && (forall c, d :: c in m && d in m && m[c].value == m[d].value ==> c == d)
  }

  /** A dense numbering of fewer than 0xa5baadb9 keys can always be shifted. */
  lemma DenseShifts(up: bool, m: Dict, v: Word)
    requires Dense(m) && |m| < SUB_ONE
    ensures CanShift(up, m, v)
  {
    forall c | c in m
      ensures Storable(Shifted(up, v, m[c].value))
    {
      SmallShifts(up, v, m[c].value);
    }
  }

  lemma SmallShifts(up: bool, v: Word, w: Word)
    requires w + 1 < SUB_ONE
    ensures Storable(Shifted(up, v, w))
  {
  }

  lemma ShiftUpIsInjective(v: Word, w: Word, x: Word)
    requires w < DELETED && x < DELETED
    ensures Shifted(true, v, w) != v && Shifted(true, v, w) <= w + 1
    ensures w < v ==> Shifted(true, v, w) == w
    ensures Shifted(true, v, w) == Shifted(true, v, x) ==> w == x
  {
  }

  /** The new key has the number, and every other number is the old one, or one more from there on. */
  lemma NumbersAre(cb: KeyCallbacks, m: Dict, key: Word, v: Word, c: Word)
    requires c in m && c != cb.canon(key) && m[c].value < DELETED
    ensures var r := Numbered(cb, m, key, v);
            && cb.canon(key) in r && r[cb.canon(key)] == Entry(key, v, 1)
            && c in r && r[c].key == m[c].key && r[c].count == m[c].count
            && r[c].value == if m[c].value < v then m[c].value else m[c].value + 1
  {
  }

  /** The key with the number is gone, and every other number is the old one, or one less above it. */
  lemma NumbersAreWithout(m: Dict, gone: Word, c: Word)
    requires gone in m && c in m && c != gone
    ensures var r := Unnumbered(m, gone, m[gone].value);
            && gone !in r && c in r && r[c].key == m[c].key && r[c].count == m[c].count
            && r[c].value == if m[c].value <= m[gone].value then m[c].value else m[c].value - 1
  {
  }

  lemma NumberingStaysDense(cb: KeyCallbacks, m: Dict, key: Word, v: Word)
    requires Dense(m) && |m| < DELETED && cb.canon(key) !in m && v <= |m|
    ensures Dense(Numbered(cb, m, key, v)) && |Numbered(cb, m, key, v)| == |m| + 1
  {
    hide Shifted;
    var k := cb.canon(key);
    var r := Numbered(cb, m, key, v);
    assert r.Keys == m.Keys + {k};
    forall c | c in m
      ensures c in r && r[c].value == Shifted(true, v, m[c].value) && r[c].value < |r| && r[c].value != v
    {
      ShiftUpIsInjective(v, m[c].value, m[c].value);
    }
    forall c, d | c in r && d in r && r[c].value == r[d].value
      ensures c == d
    {
      if c != k && d != k {
        ShiftUpIsInjective(v, m[c].value, m[d].value);
      }
    }
  }

  lemma UnnumberingStaysDense(m: Dict, gone: Word)
    requires Dense(m) && gone in m
    ensures Dense(Unnumbered(m, gone, m[gone].value)) && |Unnumbered(m, gone, m[gone].value)| == |m| - 1
  {
    var r := Unnumbered(m, gone, m[gone].value);
    assert m.Keys == r.Keys + {gone};
    assert |m| == |m.Keys| && |r| == |r.Keys|;
    forall c | c in r
      ensures r[c].value < |r|
    {
      OtherValues(m, gone, c);
      ShiftDownFits(m[gone].value, m[c].value, |m|);
    }
    forall c, d | c in r && d in r && r[c].value == r[d].value
      ensures c == d
    {
      OtherValues(m, gone, c);
      OtherValues(m, gone, d);
      ShiftDownIsInjective(m[gone].value, m[c].value, m[d].value);
      assert m[c].value == m[d].value;
    }
  }

  lemma OtherValues(m: Dict, gone: Word, c: Word)
    requires Dense(m) && gone in m && c in m && c != gone
    ensures m[c].value != m[gone].value && m[c].value < |m| && m[gone].value < |m|
  {
  }

  lemma ShiftDownFits(v: Word, w: Word, n: nat)
    requires v < n && w < n && v != w
    ensures Shifted(false, v, w) < n - 1
  {
  }

  lemma ShiftDownIsInjective(v: Word, w: Word, x: Word)
    requires v != w && v != x && Shifted(false, v, w) == Shifted(false, v, x)
    ensures w == x
  {
  }

  /** The other keys keep their order when one is put in or taken out. */
  lemma ShiftKeepsOrder(up: bool, m: Dict, v: Word, c: Word, d: Word)
    requires c in m && d in m && m[c].value < m[d].value < DELETED && (up || v !in {m[c].value, m[d].value})
    ensures AllShifted(up, m, v)[c].value < AllShifted(up, m, v)[d].value
  {
  }

  /** Taking out what was just put in restores every number. */
  lemma UnnumberUndoesNumber(cb: KeyCallbacks, m: Dict, key: Word, v: Word)
    requires cb.canon(key) !in m && forall c :: c in m && v <= m[c].value ==> m[c].value < DELETED
    ensures Unnumbered(Numbered(cb, m, key, v), cb.canon(key), v) == m
  {
  }
}
