/**
  What runs of CFBasicHash operations do to one key class, said with the operations of the run alone:
  how often it was added and removed, and which key and value were given last.
 */
module HashLaws {
  import opened HashModel
  import opened HashSpec

  /** The operation can change the entry of class `c`. */
  predicate Touches(cb: KeyCallbacks, op: Op, c: Word) {
    op.RemoveAll? || ((op.Add? || op.Replace? || op.Set? || op.Remove?) && cb.canon(op.key) == c)
  }

  ghost predicate OnlyAdds(cb: KeyCallbacks, ops: seq<Op>, c: Word) {
    forall i :: 0 <= i < |ops| && Touches(cb, ops[i], c) ==> ops[i].Add?
  }

  ghost predicate OnlyRemoves(cb: KeyCallbacks, ops: seq<Op>, c: Word) {
    forall i :: 0 <= i < |ops| && Touches(cb, ops[i], c) ==> ops[i].Remove?
  }

  /** How often the run adds class `c`. */
  function Adds(cb: KeyCallbacks, ops: seq<Op>, c: Word): nat {
    if ops == [] then 0
    else
      var last := ops[|ops| - 1];
      Adds(cb, ops[..|ops| - 1], c) + if last.Add? && cb.canon(last.key) == c then 1 else 0
  }

  /** How often the run removes class `c`; a substitute word is never found. */
  function Removes(cb: KeyCallbacks, ops: seq<Op>, c: Word): nat {
    if ops == [] then 0
    else
      var last := ops[|ops| - 1];
      Removes(cb, ops[..|ops| - 1], c) + if last.Remove? && cb.canon(last.key) == c && Storable(last.key) then 1 else 0
  }

  function CountAt(m: Dict, c: Word): nat {
    if c in m then m[c].count else 0
  }

  /** Counts are positive and no larger than the largest one; without counts they are one. */
  ghost predicate Sound(bag: bool, m: Dict) {
    forall c :: c in m ==> 1 <= m[c].count <= LONG_MAX && (!bag ==> m[c].count == 1)
  }

  function Least(a: nat, b: nat): nat {
    if a < b then a else b
  }

  // ---------------------------------------------------------------- runs from the end

  lemma {:induction false} StepsConcat(cb: KeyCallbacks, bag: bool, m: Dict, ops: seq<Op>, more: seq<Op>)
    ensures Steps(cb, bag, m, ops + more) == Steps(cb, bag, Steps(cb, bag, m, ops), more)
    decreases |ops|
  {
    hide Step;
    if ops == [] {
      assert ops + more == more;
    } else {
      assert (ops + more)[1..] == ops[1..] + more;
      StepsConcat(cb, bag, Step(cb, bag, m, ops[0]), ops[1..], more);
    }
  }

  lemma StepsLast(cb: KeyCallbacks, bag: bool, m: Dict, ops: seq<Op>)
    requires ops != []
    ensures var n := |ops| - 1; Steps(cb, bag, m, ops) == Step(cb, bag, Steps(cb, bag, m, ops[..n]), ops[n])
  {
    hide Step;
    var n := |ops| - 1;
    assert ops == ops[..n] + [ops[n]];
    StepsConcat(cb, bag, m, ops[..n], [ops[n]]);
    assert [ops[n]][1..] == [];
  }

  lemma StepIsSound(cb: KeyCallbacks, bag: bool, m: Dict, op: Op)
    requires Sound(bag, m)
    ensures Sound(bag, Step(cb, bag, m, op))
  {
  }

  lemma {:induction false} StepsAreSound(cb: KeyCallbacks, bag: bool, m: Dict, ops: seq<Op>)
    requires Sound(bag, m)
    ensures Sound(bag, Steps(cb, bag, m, ops))
    decreases |ops|
  {
    hide Step, Sound;
    if ops != [] {
      StepIsSound(cb, bag, m, ops[0]);
      StepsAreSound(cb, bag, Step(cb, bag, m, ops[0]), ops[1..]);
    }
  }

  // ---------------------------------------------------------------- adding

  /**
    A run that touches a class only by adding it, whatever it does to others. An entry that was there
    keeps its key and value. Without counts it keeps its count; in a bag the count goes up by the
    number of adds, as far as the largest count.
   */
  lemma {:induction false} AddsAreCounted(cb: KeyCallbacks, bag: bool, m: Dict, ops: seq<Op>, c: Word)
    requires Sound(bag, m) && OnlyAdds(cb, ops, c)
    ensures var after := Steps(cb, bag, m, ops);
            && (c in after <==> c in m || 0 < Adds(cb, ops, c))
            && (c in m ==> after[c].key == m[c].key && after[c].value == m[c].value)
            && (bag ==> CountAt(after, c) == Least(LONG_MAX, CountAt(m, c) + Adds(cb, ops, c)))
            && (!bag ==> CountAt(after, c) == Least(1, CountAt(m, c) + Adds(cb, ops, c)))
    decreases |ops|
  {
    if ops == [] {
      assert Steps(cb, bag, m, ops) == m;
    } else {
      var n := |ops| - 1;
      AddsAreCounted(cb, bag, m, ops[..n], c);
      StepsLast(cb, bag, m, ops);
      StepsAreSound(cb, bag, m, ops[..n]);
      AddStep(cb, bag, Steps(cb, bag, m, ops[..n]), ops[n], c);
    }
  }

  lemma AddStep(cb: KeyCallbacks, bag: bool, m: Dict, op: Op, c: Word)
    requires Sound(bag, m) && (Touches(cb, op, c) ==> op.Add?)
    ensures var after := Step(cb, bag, m, op);
            var more := if op.Add? && cb.canon(op.key) == c then 1 else 0;
            && (c in after <==> c in m || 0 < more)
            && (c in m ==> after[c].key == m[c].key && after[c].value == m[c].value)
            && (bag ==> CountAt(after, c) == Least(LONG_MAX, CountAt(m, c) + more))
            && (!bag ==> CountAt(after, c) == Least(1, CountAt(m, c) + more))
  {
  }

  /** A class that is touched by nothing keeps its entry, or stays absent. */
  lemma {:induction false} UntouchedStays(cb: KeyCallbacks, bag: bool, m: Dict, ops: seq<Op>, c: Word)
    requires forall i :: 0 <= i < |ops| ==> !Touches(cb, ops[i], c)
    ensures var after := Steps(cb, bag, m, ops);
            (c in after <==> c in m) && (c in m ==> after[c] == m[c])
    decreases |ops|
  {
    if ops != [] {
      var n := |ops| - 1;
      UntouchedStays(cb, bag, m, ops[..n], c);
      StepsLast(cb, bag, m, ops);
      assert !Touches(cb, ops[n], c);
    }
  }

  /** The first add of an absent class gives the key and the value, whatever is added to it later. */
  lemma FirstAddGives(cb: KeyCallbacks, bag: bool, m: Dict, key: Word, value: Word, ops: seq<Op>)
    requires Sound(bag, m) && cb.canon(key) !in m && OnlyAdds(cb, ops, cb.canon(key))
    ensures var c := cb.canon(key);
            var after := Steps(cb, bag, m, [Add(key, value)] + ops);
            c in after && after[c].key == key && after[c].value == value
  {
    var op := Add(key, value);
    assert ([op] + ops)[1..] == ops;
    StepIsSound(cb, bag, m, op);
    AddsAreCounted(cb, bag, Step(cb, bag, m, op), ops, cb.canon(key));
  }

  // ---------------------------------------------------------------- removing

  /**
    A run that touches a class only by removing it. A count that is the largest one sticks; any other
    goes down by the number of removals, and at none the entry is gone. What stays keeps key and value.
   */
  lemma {:induction false} RemovesAreCounted(cb: KeyCallbacks, bag: bool, m: Dict, ops: seq<Op>, c: Word)
    requires Sound(bag, m) && OnlyRemoves(cb, ops, c)
    ensures var after := Steps(cb, bag, m, ops);
            && (c in after ==> c in m && after[c].key == m[c].key && after[c].value == m[c].value)
            && (c in after <==> 0 < CountAt(after, c))
            && CountAt(after, c) == if CountAt(m, c) == LONG_MAX then LONG_MAX
                                    else if CountAt(m, c) < Removes(cb, ops, c) then 0
                                    else CountAt(m, c) - Removes(cb, ops, c)
    decreases |ops|
  {
    if ops == [] {
      assert Steps(cb, bag, m, ops) == m;
    } else {
      var n := |ops| - 1;
      RemovesAreCounted(cb, bag, m, ops[..n], c);
      StepsLast(cb, bag, m, ops);
      StepsAreSound(cb, bag, m, ops[..n]);
      RemoveStep(cb, bag, Steps(cb, bag, m, ops[..n]), ops[n], c);
    }
  }

  lemma RemoveStep(cb: KeyCallbacks, bag: bool, m: Dict, op: Op, c: Word)
    requires Sound(bag, m) && (Touches(cb, op, c) ==> op.Remove?)
    ensures var after := Step(cb, bag, m, op);
            var fewer := if op.Remove? && cb.canon(op.key) == c && Storable(op.key) then 1 else 0;
            && (c in after ==> c in m && after[c].key == m[c].key && after[c].value == m[c].value)
            && (c in after <==> 0 < CountAt(after, c))
            && CountAt(after, c) == if CountAt(m, c) == LONG_MAX || CountAt(m, c) < fewer then CountAt(m, c) else CountAt(m, c) - fewer
  {
  }

  /**
    In a bag, as many removals as there were adds restore the entry, if and only if the count did not
    reach the largest one on the way, or was there already.
   */
  lemma RemovesUndoAdds(cb: KeyCallbacks, m: Dict, adds: seq<Op>, removes: seq<Op>, c: Word)
    requires Sound(true, m) && OnlyAdds(cb, adds, c) && OnlyRemoves(cb, removes, c)
    requires Adds(cb, adds, c) == Removes(cb, removes, c)
    ensures var after := Steps(cb, true, m, adds + removes);
            (c in after <==> c in m) && (c in m ==> after[c] == m[c]) <==>
            CountAt(m, c) == LONG_MAX || CountAt(m, c) + Adds(cb, adds, c) < LONG_MAX
  {
    hide Steps, Adds, Removes;
    StepsConcat(cb, true, m, adds, removes);
    AddsAreCounted(cb, true, m, adds, c);
    StepsAreSound(cb, true, m, adds);
    RemovesAreCounted(cb, true, Steps(cb, true, m, adds), removes, c);
  }

  // ---------------------------------------------------------------- setting and replacing

  /** The last key and value set for a class are the ones it has, however often it is added later; its count goes on from before. */
  lemma LastSetWins(cb: KeyCallbacks, bag: bool, m: Dict, ops: seq<Op>, key: Word, value: Word, more: seq<Op>)
    requires Sound(bag, m) && OnlyAdds(cb, more, cb.canon(key))
    ensures var c := cb.canon(key);
            var before, after := Steps(cb, bag, m, ops), Steps(cb, bag, m, ops + [Set(key, value)] + more);
            && c in after && after[c].key == key && after[c].value == value
            && after[c].count == Least(if bag then LONG_MAX else 1,
                                       (if c in before then before[c].count else 1) + Adds(cb, more, c))
  {
    var c, before := cb.canon(key), Steps(cb, bag, m, ops);
    var mid := Steps(cb, bag, m, ops + [Set(key, value)]);
    OneMoreStep(cb, bag, m, ops, Set(key, value));
    StepsAreSound(cb, bag, m, ops);
    StepIsSound(cb, bag, before, Set(key, value));
    StepsConcat(cb, bag, m, ops + [Set(key, value)], more);
    hide Steps, Adds;
    AddsAreCounted(cb, bag, mid, more, c);
  }

  lemma OneMoreStep(cb: KeyCallbacks, bag: bool, m: Dict, ops: seq<Op>, op: Op)
    ensures Steps(cb, bag, m, ops + [op]) == Step(cb, bag, Steps(cb, bag, m, ops), op)
  {
    hide Step;
    StepsConcat(cb, bag, m, ops, [op]);
    assert [op][1..] == [];
  }

  /** Replacing is setting for a class that is there, and nothing at all for one that is not. */
  lemma ReplaceOnlyThere(cb: KeyCallbacks, bag: bool, m: Dict, ops: seq<Op>, key: Word, value: Word, more: seq<Op>)
    requires Sound(bag, m)
    ensures Steps(cb, bag, m, ops + [Replace(key, value)] + more)
         == Steps(cb, bag, m, ops + (if cb.canon(key) in Steps(cb, bag, m, ops) then [Set(key, value)] else []) + more)
  {
    hide Steps;
    OneMoreStep(cb, bag, m, ops, Replace(key, value));
    OneMoreStep(cb, bag, m, ops, Set(key, value));
    assert ops + [] == ops;
    StepsConcat(cb, bag, m, ops + [Replace(key, value)], more);
    StepsConcat(cb, bag, m, ops + [Set(key, value)], more);
    StepsConcat(cb, bag, m, ops, more);
  }

  /** What came before the removal of everything does not matter. */
  lemma RemoveAllForgets(cb: KeyCallbacks, bag: bool, m: Dict, ops: seq<Op>, more: seq<Op>)
    ensures Steps(cb, bag, m, ops + [RemoveAll] + more) == Steps(cb, bag, map[], more)
  {
    OneMoreStep(cb, bag, m, ops, RemoveAll);
    StepsConcat(cb, bag, m, ops + [RemoveAll], more);
  }

  // ---------------------------------------------------------------- table sizes

  /** `idx` is the least index with room for `n` entries. */
  ghost predicate LeastIndex(t: Tables, idx: nat, n: nat) {
    idx < |t.capacities| && n <= t.capacities[idx] && forall j :: 0 <= j < idx ==> t.capacities[j] < n
  }

  lemma LeastIsLeast(t: Tables, idx: nat, n: nat, k: nat)
    requires LeastIndex(t, idx, n) && k < |t.capacities| && n <= t.capacities[k]
    ensures idx <= k
  {
  }

  lemma GrownIsLeast(t: Tables, oneMore: bool, n: nat)
    requires t.Sane() && n <= t.Most(oneMore)
    ensures var idx := GrownIndex(t, oneMore, n); if oneMore then 0 < idx && LeastIndex(t, idx - 1, n) else LeastIndex(t, idx, n)
  {
    Capacities(t, |t.capacities| - 2, |t.capacities| - 1);
  }

  /** A table grows only for a new key when it is full, to the least size for one more entry, or one beyond it when growing fast. */
  lemma GrowsOnlyWhenFull(t: Tables, fast: bool, cb: KeyCallbacks, m: Dict, idx: nat, op: Op, after: nat)
    requires t.Sane() && idx < |t.capacities| && Allowed(t, fast, cb, m, idx, op) && (op.Add? || op.Set?)
    ensures var next := NextIndex(t, fast, cb, m, idx, op, after);
            if cb.canon(op.key) in m || |m| + 1 <= t.capacities[idx] then next == idx
            else if fast then 0 < next && LeastIndex(t, next - 1, |m| + 1) else LeastIndex(t, next, |m| + 1)
  {
    hide GrownIndex;
    if cb.canon(op.key) !in m && t.capacities[idx] < |m| + 1 {
      GrownIsLeast(t, fast, |m| + 1);
    }
  }

  /**
    A removal shrinks a table exactly when an entry went and those left would fit two sizes below, or
    five when growing fast, with room to spare; it then drops at least that many sizes, to the least one.
   */
  lemma ShrinksFar(t: Tables, fast: bool, cb: KeyCallbacks, m: Dict, idx: nat, key: Word, after: nat)
    requires t.Sane() && idx < |t.capacities| && after <= |m| <= t.capacities[idx]
    ensures var next := NextIndex(t, fast, cb, m, idx, Remove(key), after);
            && (next != idx <==> after < |m| && (if fast then 5 < idx && after < t.capacities[idx - 5]
                                                 else 2 < idx && after < t.capacities[idx - 2]))
            && (next != idx ==> LeastIndex(t, next, after) && next <= if fast then idx - 5 else idx - 2)
  {
    Capacities(t, idx, |t.capacities| - 1);
    if after < |m| && Sparse(t, fast, idx, after) {
      GrownIsLeast(t, false, after);
      LeastIsLeast(t, GrownIndex(t, false, after), after, if fast then idx - 5 else idx - 2);
    }
  }

  /** Asking for a capacity moves the table only when it is more than the entries there are. */
  lemma ReservesExactly(t: Tables, fast: bool, cb: KeyCallbacks, m: Dict, idx: nat, n: nat)
    requires t.Sane() && idx < |t.capacities| && Allowed(t, fast, cb, m, idx, Reserve(n))
    ensures var next := NextIndex(t, fast, cb, m, idx, Reserve(n), |m|);
            if n <= |m| then next == idx
            else if fast && n == |m| + 1 then 0 < next && LeastIndex(t, next - 1, n) else LeastIndex(t, next, n)
  {
    hide GrownIndex;
    if |m| < n { GrownIsLeast(t, fast && n == |m| + 1, n); }
  }

  /** An operation is allowed exactly when it needs no larger size, or there is one, and one beyond it when growing fast. */
  lemma AllowedExactly(t: Tables, fast: bool, cb: KeyCallbacks, m: Dict, idx: nat, op: Op)
    requires t.Sane() && idx < |t.capacities|
    ensures Allowed(t, fast, cb, m, idx, op) <==>
            if op.Reserve? then op.capacity <= |m| || Reachable(t, fast && op.capacity == |m| + 1, op.capacity)
            else if op.Add? || op.Set? then cb.canon(op.key) in m || |m| + 1 <= t.capacities[idx] || Reachable(t, fast, |m| + 1)
            else true
  {
    hide Reachable;
    if op.Reserve? { ReachableExactly(t, fast && op.capacity == |m| + 1, op.capacity); }
    if op.Add? || op.Set? { ReachableExactly(t, fast, |m| + 1); }
  }

  /** Some index has room for `n` entries, and one more follows it if need be. */
  ghost predicate Reachable(t: Tables, oneMore: bool, n: nat) {
    exists i :: 0 <= i < |t.capacities| && n <= t.capacities[i] && (oneMore ==> i + 1 < |t.capacities|)
  }

  lemma ReachableExactly(t: Tables, oneMore: bool, n: nat)
    requires t.Sane()
    ensures Reachable(t, oneMore, n) <==> n <= t.Most(oneMore)
  {
    if i :| 0 <= i < |t.capacities| && n <= t.capacities[i] && (oneMore ==> i + 1 < |t.capacities|) {
      Capacities(t, i, |t.capacities| - if oneMore then 2 else 1);
    }
  }
}
