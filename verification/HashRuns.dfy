/** Whole runs of a CFBasicHash table: after any operations it holds what the map operations give. */
module HashRuns {
  import opened HashModel
  import opened HashSpec
  import opened HashSteps
  import opened HashQueries
  import opened BasicHash

  /** The size an operation leaves, said with the map and the index before it. */
  twostate predicate Resized(t: Table, op: Op)
    reads t
    requires old(t.tables.Sane() && t.numBucketsIdx < |t.tables.capacities| && Indexed(t.cb, t.slots, t.at))
    requires Indexed(t.cb, t.slots, t.at) && old(Allowed(t.tables, t.fastGrow, t.cb, t.Entries(), t.numBucketsIdx, op))
  {
    && (op.Remove? ==> |t.Entries()| <= old(|t.Entries()|) <= t.tables.capacities[old(t.numBucketsIdx)])
    && t.numBucketsIdx ==
       NextIndex(t.tables, t.fastGrow, t.cb, old(t.Entries()), old(t.numBucketsIdx), op, |t.Entries()|)
  }

  /** Adding and setting as changes of the map and of the table's size. */
  method DoAdding(t: Table, op: Op)
    requires t.Valid() && t.Balanced() && Proper(t.hasKeys, op) && (op.Add? || op.Set?)
    requires Allowed(t.tables, t.fastGrow, t.cb, t.Entries(), t.numBucketsIdx, op)
    modifies t.Repr()
    ensures t.Valid() && t.Balanced() && fresh(t.Repr() - old(t.Repr()))
    ensures t.Entries() == Step(t.cb, t.hasCounts, old(t.Entries()), op) && Resized(t, op)
  {
    hide Placed, Indexed, Clean, Contents, Owned, LiveSet, DeletedSet, Balance, GrownIndex, Added, Assigned;
    UsedIsSize(t);
    if op.Add? {
      var _ := t.AddValue(op.key, op.value);
    } else {
      t.SetValue(op.key, op.value);
    }
  }

  /** Each operation as a change of the map and of the table's size. */
  method Do(t: Table, op: Op)
    requires t.Valid() && t.Balanced() && Proper(t.hasKeys, op)
    requires Allowed(t.tables, t.fastGrow, t.cb, t.Entries(), t.numBucketsIdx, op)
    modifies t.Repr()
    ensures t.Valid() && t.Balanced() && fresh(t.Repr() - old(t.Repr()))
    ensures t.Entries() == Step(t.cb, t.hasCounts, old(t.Entries()), op) && Resized(t, op)
  {
    hide Placed, Indexed, Clean, Contents, Owned, LiveSet, DeletedSet, Balance, GrownIndex, Replaced, Without;
    UsedIsSize(t);
    if op.Add? || op.Set? {
      DoAdding(t, op);
    } else if op.Replace? {
      t.ReplaceValue(op.key, op.value);
    } else if op.Remove? {
      StepSize(t.cb, t.hasCounts, t.Entries(), op);
      var _ := t.RemoveValue(op.key);
      UsedIsSize(t);
    } else if op.RemoveAll? {
      t.RemoveAllValues();
    } else {
      t.SetCapacity(op.capacity);
    }
  }

  /** No operation of a run needs a larger table than there is. */
  ghost predicate AllAllowed(t: Tables, fast: bool, cb: KeyCallbacks, bag: bool, m: Dict, idx: nat, ops: seq<Op>)
    requires t.Sane() && idx < |t.capacities| && |m| <= t.capacities[idx]
    decreases |ops|
  {
    ops == [] ||
    (Allowed(t, fast, cb, m, idx, ops[0]) &&
     var next := Step(cb, bag, m, ops[0]);
     StepFits(t, fast, cb, bag, m, idx, ops[0]);
     AllAllowed(t, fast, cb, bag, next, NextIndex(t, fast, cb, m, idx, ops[0], |next|), ops[1..]))
  }

  /** The index of the table's size after a run. */
  ghost function LastIndex(t: Tables, fast: bool, cb: KeyCallbacks, bag: bool, m: Dict, idx: nat, ops: seq<Op>): nat
    requires t.Sane() && idx < |t.capacities| && |m| <= t.capacities[idx] && AllAllowed(t, fast, cb, bag, m, idx, ops)
    decreases |ops|
  {
    if ops == [] then idx
    else
      var next := Step(cb, bag, m, ops[0]);
      StepFits(t, fast, cb, bag, m, idx, ops[0]);
      LastIndex(t, fast, cb, bag, next, NextIndex(t, fast, cb, m, idx, ops[0], |next|), ops[1..])
  }

  /** The size picked for an operation has room for what the operation leaves. */
  lemma StepFits(t: Tables, fast: bool, cb: KeyCallbacks, bag: bool, m: Dict, idx: nat, op: Op)
    requires t.Sane() && idx < |t.capacities| && |m| <= t.capacities[idx] && Allowed(t, fast, cb, m, idx, op)
    ensures var after := |Step(cb, bag, m, op)|;
            && (op.Remove? ==> after <= |m|)
            && after <= t.capacities[NextIndex(t, fast, cb, m, idx, op, after)]
  {
    hide GrownIndex, Step;
    StepSize(cb, bag, m, op);
    if !op.Add? && !op.Set? {
      Capacities(t, idx, |t.capacities| - 1);
    }
  }

  /** Only adding and setting make the map larger, by the new key. */
  lemma StepSize(cb: KeyCallbacks, bag: bool, m: Dict, op: Op)
    ensures (op.Add? || op.Set?) && cb.canon(op.key) !in m ==> |Step(cb, bag, m, op)| == |m| + 1
    ensures !(op.Add? || op.Set?) || cb.canon(op.key) in m ==> |Step(cb, bag, m, op)| <= |m|
    ensures op.RemoveAll? ==> |Step(cb, bag, m, op)| == 0
  {
    StepKeys(cb, bag, m, op);
    hide Step;
    var next := Step(cb, bag, m, op);
    if next.Keys <= m.Keys {
      assert m.Keys == next.Keys + (m.Keys - next.Keys);
    }
    assert |next| == |next.Keys| && |m| == |m.Keys|;
  }

  lemma StepKeys(cb: KeyCallbacks, bag: bool, m: Dict, op: Op)
    ensures var next := Step(cb, bag, m, op);
            if op.Add? || op.Set? then next.Keys == m.Keys + {cb.canon(op.key)}
            else next.Keys <= m.Keys && (op.RemoveAll? ==> next == map[])
  {
  }

  /** In particular a run is allowed when its length and its reservations are within the largest sizes. */
  lemma {:induction false} ShortRunsAreAllowed(t: Tables, fast: bool, cb: KeyCallbacks, bag: bool, m: Dict, idx: nat, ops: seq<Op>)
    requires t.Sane() && idx < |t.capacities| && |m| <= t.capacities[idx] && |m| + |ops| <= t.Most(fast)
    requires forall op :: op in ops && op.Reserve? ==> op.capacity <= t.Most(fast)
    ensures AllAllowed(t, fast, cb, bag, m, idx, ops)
    decreases |ops|
  {
    hide Step, NextIndex;
    if ops != [] {
      Capacities(t, |t.capacities| - 2, |t.capacities| - 1);
      StepFits(t, fast, cb, bag, m, idx, ops[0]);
      StepSize(cb, bag, m, ops[0]);
      var next := Step(cb, bag, m, ops[0]);
      ShortRunsAreAllowed(t, fast, cb, bag, next, NextIndex(t, fast, cb, m, idx, ops[0], |next|), ops[1..]);
    }
  }

  /** Any run from any table, of any length. */
  method Run(t: Table, ops: seq<Op>)
    requires t.Valid() && t.Balanced() && |t.Entries()| <= t.tables.capacities[t.numBucketsIdx]
    requires AllAllowed(t.tables, t.fastGrow, t.cb, t.hasCounts, t.Entries(), t.numBucketsIdx, ops)
    requires forall op :: op in ops ==> Proper(t.hasKeys, op)
    modifies t.Repr()
    ensures t.Valid() && t.Balanced() && fresh(t.Repr() - old(t.Repr()))
    ensures t.Entries() == Steps(t.cb, t.hasCounts, old(t.Entries()), ops)
    ensures t.numBucketsIdx ==
            LastIndex(t.tables, t.fastGrow, t.cb, t.hasCounts, old(t.Entries()), old(t.numBucketsIdx), ops)
    decreases |ops|
  {
    hide Placed, Indexed, Clean, Contents, Owned, LiveSet, DeletedSet, Balance, Step, NextIndex, Allowed;
    if ops != [] {
      Do(t, ops[0]);
      UsedIsSize(t);
      Run(t, ops[1..]);
    }
  }

  /** A run from an empty table gives what the map operations give from the empty map. */
  method RunFromEmpty(tables: Tables, cb: KeyCallbacks, hasKeys: bool, hasCounts: bool, fastGrow: bool, intValues: bool,
                      ops: seq<Op>) returns (t: Table)
    requires tables.Sane() && AllAllowed(tables, fastGrow, cb, hasCounts, map[], 0, ops)
    requires forall op :: op in ops ==> Proper(hasKeys, op)
    ensures t.Valid() && t.Balanced() && t.Entries() == Steps(cb, hasCounts, map[], ops)
    ensures t.numBucketsIdx == LastIndex(tables, fastGrow, cb, hasCounts, map[], 0, ops)
  {
    hide Placed, Indexed, Clean, Contents, Owned, LiveSet, DeletedSet, Balance, Step, NextIndex, Allowed;
    t := new Table(tables, cb, hasKeys, hasCounts, fastGrow, intValues);
    Run(t, ops);
  }
}
