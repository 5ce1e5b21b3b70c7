/** Application preferences: a search list of domains, and a merged dictionary that caches its answers. */
module Preferences {
  import opened Wrappers

  type Domain = nat
  type Key = string
  type Value = nat
  type Dict = map<Key, Value>

  function Get(d: Dict, key: Key): Option<Value> {
    if key in d then Some(d[key]) else None
  }

  /** The keys and values of a domain; a domain without a dictionary has none. */
  function DictOf(contents: map<Domain, Dict>, d: Domain): Dict {
    if d in contents then contents[d] else map[]
  }

  // ---------------------------------------------------------------- what a lookup means

  /** The value in the first domain of the search list that holds the key. */
  function FirstMatch(search: seq<Domain>, contents: map<Domain, Dict>, key: Key): Option<Value> {
    if search == [] then None
    else if key in DictOf(contents, search[0]) then Get(DictOf(contents, search[0]), key)
    else FirstMatch(search[1..], contents, key)
  }

  /** Dictionaries written over one another from the end of the list to its start. */
  function Merged(search: seq<Domain>, contents: map<Domain, Dict>): Dict {
    if search == [] then map[] else Merged(search[1..], contents) + DictOf(contents, search[0])
  }

  /** Writing over in reverse order is searching in order. */
  lemma {:induction false} MergedIsFirstMatch(search: seq<Domain>, contents: map<Domain, Dict>, key: Key)
    ensures Get(Merged(search, contents), key) == FirstMatch(search, contents, key)
  {
    if search != [] {
      MergedIsFirstMatch(search[1..], contents, key);
    }
  }

  /** The answer is the value in the first domain that has the key, and there is none exactly when no domain has it. */
  lemma {:induction false} FirstMatchIs(search: seq<Domain>, contents: map<Domain, Dict>, key: Key)
    ensures FirstMatch(search, contents, key).None? <==> Unheld(search, contents, key)
    ensures forall i :: 0 <= i < |search| && key in DictOf(contents, search[i]) && Unheld(search[..i], contents, key) ==>
              FirstMatch(search, contents, key) == Some(DictOf(contents, search[i])[key])
  {
    if search != [] {
      var rest := search[1..];
      FirstMatchIs(rest, contents, key);
      UnheldCons(search, contents, key);
      forall i | 0 <= i < |search| && key in DictOf(contents, search[i]) && Unheld(search[..i], contents, key)
        ensures FirstMatch(search, contents, key) == Some(DictOf(contents, search[i])[key])
      {
        if 0 < i {
          assert search[..i][1..] == rest[..i - 1] && rest[i - 1] == search[i];
          UnheldCons(search[..i], contents, key);
        }
      }
    }
  }

  /** No domain of the list has the key. */
  predicate Unheld(search: seq<Domain>, contents: map<Domain, Dict>, key: Key) {
    forall i :: 0 <= i < |search| ==> key !in DictOf(contents, search[i])
  }

  lemma UnheldCons(search: seq<Domain>, contents: map<Domain, Dict>, key: Key)
    requires search != []
    ensures Unheld(search, contents, key) <==> key !in DictOf(contents, search[0]) && Unheld(search[1..], contents, key)
  {
    assert forall i :: 0 <= i < |search| - 1 ==> search[1..][i] == search[i + 1];
    if key !in DictOf(contents, search[0]) && Unheld(search[1..], contents, key) {
      forall i | 0 <= i < |search|
        ensures key !in DictOf(contents, search[i])
      {
        if 0 < i { assert search[1..][i - 1] == search[i]; }
      }
    }
  }

  /** A change of a domain that is not searched changes nothing. */
  lemma {:induction false} UnsearchedDomain(search: seq<Domain>, contents: map<Domain, Dict>, d: Domain, dict: Dict)
    requires d !in search
    ensures Merged(search, contents[d := dict]) == Merged(search, contents)
  {
    if search != [] {
      assert search[0] in search;
      assert forall e :: e in search[1..] ==> e in search;
      UnsearchedDomain(search[1..], contents, d, dict);
    }
  }

  // ---------------------------------------------------------------- search lists

  /** `CFArrayGetFirstIndexOfValue`; a negative length finds nothing. */
  function FirstIndex(s: seq<Domain>, loc: nat, len: int, d: Domain): (i: int)
    requires loc + len <= |s|
    ensures i == -1 || (loc <= i < loc + len && s[i] == d && d !in s[loc..i])
    ensures i == -1 ==> len <= 0 || d !in s[loc..loc + len]
    decreases len
  {
    if len <= 0 then -1
    else
      var i := FirstIndex(s, loc, len - 1, d);
      if i != -1 then i
      else if s[loc + len - 1] == d then assert s[loc..loc + len - 1] == s[loc..loc + len][..len - 1]; loc + len - 1
      else assert s[loc..loc + len] == s[loc..loc + len - 1] + [s[loc + len - 1]]; -1
  }

  function Without(s: seq<Domain>, d: Domain): seq<Domain> {
    if s == [] then [] else Without(s[..|s| - 1], d) + if s[|s| - 1] == d then [] else [s[|s| - 1]]
  }

  function Occurrences(s: seq<Domain>, d: Domain): nat {
    if s == [] then 0 else Occurrences(s[..|s| - 1], d) + if s[|s| - 1] == d then 1 else 0
  }

  lemma {:induction false} OccurrencesConcat(s: seq<Domain>, t: seq<Domain>, d: Domain)
    ensures Occurrences(s + t, d) == Occurrences(s, d) + Occurrences(t, d)
    decreases |t|
  {
    if t == [] {
      assert s + t == s;
    } else {
      var n := |t| - 1;
      OccurrencesConcat(s, t[..n], d);
      assert (s + t)[..|s| + n] == s + t[..n];
    }
  }

  lemma {:induction false} NoOccurrence(s: seq<Domain>, d: Domain)
    ensures Occurrences(s, d) == 0 <==> d !in s
  {
    if s != [] {
      NoOccurrence(s[..|s| - 1], d);
      assert s == s[..|s| - 1] + [s[|s| - 1]];
    }
  }

  function RemoveAt(s: seq<Domain>, i: nat): seq<Domain>
    requires i < |s|
  {
    s[..i] + s[i + 1..]
  }

  /** For each occurrence of `d`, the number of other domains before it, added up. */
  function Weight(s: seq<Domain>, d: Domain): nat {
    if s == [] then 0
    else Weight(s[..|s| - 1], d) + if s[|s| - 1] == d then |Without(s[..|s| - 1], d)| else 0
  }

  /**
    The search for the next occurrence gets as far as the one at `q`: none before it has made the range of
    the search so short, by the other domains before the ones further back, that it ends in front of `q`.
   */
  predicate Reached(s: seq<Domain>, d: Domain, q: nat)
    requires q < |s|
  {
    s[q] == d && forall p :: 0 <= p < q && s[p] == d ==> q + Weight(s[..p], d) < |s|
  }

  /** What removing `d` leaves of the first `n` domains: all that are not reached. */
  function Surviving(s: seq<Domain>, d: Domain, n: nat): seq<Domain>
    requires n <= |s|
  {
    if n == 0 then []
    else Surviving(s, d, n - 1) + if Reached(s, d, n - 1) then [] else [s[n - 1]]
  }

  /** A search list after the removal of `d`. */
  function Pruned(s: seq<Domain>, d: Domain): seq<Domain> {
    Surviving(s, d, |s|)
  }

  /** When removing `d` removes every occurrence. */
  ghost predicate Removable(s: seq<Domain>, d: Domain) {
    forall p, q :: 0 <= p < q < |s| && s[p] == d && s[q] == d ==> q + Weight(s[..p], d) < |s|
  }

  lemma {:induction false} SurvivingOthers(s: seq<Domain>, d: Domain, n: nat)
    requires n <= |s|
    ensures Without(Surviving(s, d, n), d) == Without(s[..n], d)
  {
    hide Reached;
    if 0 < n {
      SurvivingOthers(s, d, n - 1);
      assert s[..n][..n - 1] == s[..n - 1];
      var before := Surviving(s, d, n - 1);
      assert (before + [s[n - 1]])[..|before|] == before && before + [] == before;
      ReachedIsGone(s, d, n - 1);
    }
  }

  lemma ReachedIsGone(s: seq<Domain>, d: Domain, q: nat)
    requires q < |s|
    ensures Reached(s, d, q) ==> s[q] == d
  {
  }

  lemma {:induction false} SurvivingCount(s: seq<Domain>, d: Domain, n: nat)
    requires n <= |s|
    ensures Occurrences(Surviving(s, d, n), d) <= Occurrences(s[..n], d)
    ensures d in s[..n] ==> Occurrences(Surviving(s, d, n), d) < Occurrences(s[..n], d)
  {
    hide Reached;
    if 0 < n {
      SurvivingCount(s, d, n - 1);
      assert s[..n][..n - 1] == s[..n - 1];
      var before := Surviving(s, d, n - 1);
      assert (before + [s[n - 1]])[..|before|] == before && before + [] == before;
      if d !in s[..n - 1] {
        FirstIsReached(s, d, n - 1);
      }
      ReachedIsGone(s, d, n - 1);
    }
  }

  /** The first occurrence is always reached. */
  lemma FirstIsReached(s: seq<Domain>, d: Domain, q: nat)
    requires q < |s| && d !in s[..q]
    ensures Reached(s, d, q) <==> s[q] == d
  {
    assert s[0..q] == s[..q];
    NoneBetween(s, d, 0, q);
  }

  lemma {:induction false} SurvivorsOf(s: seq<Domain>, d: Domain, n: nat)
    requires n <= |s|
    ensures d !in Surviving(s, d, n) <==> forall q :: 0 <= q < n && s[q] == d ==> Reached(s, d, q)
  {
    hide Reached;
    if 0 < n {
      SurvivorsOf(s, d, n - 1);
      ReachedIsGone(s, d, n - 1);
    }
  }

  /**
    Removal keeps the other domains in order and takes at least one occurrence if there is one. It takes
    all of them exactly when each is reached.
   */
  lemma PrunedKeeps(s: seq<Domain>, d: Domain)
    ensures Without(Pruned(s, d), d) == Without(s, d)
    ensures d in s ==> Occurrences(Pruned(s, d), d) < Occurrences(s, d)
    ensures d !in Pruned(s, d) <==> Removable(s, d)
  {
    assert s[..|s|] == s;
    SurvivingOthers(s, d, |s|);
    SurvivingCount(s, d, |s|);
    SurvivorsOf(s, d, |s|);
  }

  lemma {:induction false} WeightGrows(s: seq<Domain>, d: Domain, p: nat, q: nat)
    requires p <= q <= |s|
    ensures Weight(s[..p], d) <= Weight(s[..q], d)
    decreases q
  {
    if p < q {
      WeightGrows(s, d, p, q - 1);
      assert s[..q][..q - 1] == s[..q - 1];
    }
  }

  lemma {:induction false} AbsentWeighsNothing(s: seq<Domain>, d: Domain)
    requires d !in s
    ensures Weight(s, d) == 0 && Without(s, d) == s && Occurrences(s, d) == 0
  {
    if s != [] {
      var n := |s| - 1;
      assert s[n] in s && s[n] != d;
      assert forall e :: e in s[..n] ==> e in s;
      AbsentWeighsNothing(s[..n], d);
      assert s == s[..n] + [s[n]];
    }
  }

  lemma NoneBetween(s: seq<Domain>, d: Domain, lo: nat, hi: nat)
    requires lo <= hi <= |s| && d !in s[lo..hi]
    ensures forall i :: lo <= i < hi ==> s[i] != d
  {
    forall i | lo <= i < hi
      ensures s[i] != d
    {
      assert s[i] == s[lo..hi][i - lo];
    }
  }

  /** From one occurrence to the next. */
  lemma ToNext(s: seq<Domain>, d: Domain, p: nat, q: nat)
    requires p < q <= |s| && s[p] == d && d !in s[p + 1..q]
    ensures Without(s[..q], d) == Without(s[..p], d) + s[p + 1..q]
    ensures Weight(s[..q], d) == Weight(s[..p], d) + |Without(s[..p], d)|
    decreases q
  {
    if q == p + 1 {
      assert s[..q][..p] == s[..p];
    } else {
      assert s[p + 1..q] == s[p + 1..q - 1] + [s[q - 1]];
      ToNext(s, d, p, q - 1);
      assert s[..q][..q - 1] == s[..q - 1];
    }
  }

  /** After the removal of the occurrence at `p`, and of all those before it. */
  ghost predicate Removing(search: seq<Domain>, d: Domain, p: nat, s: seq<Domain>, loc: nat, len: int) {
    && p < |search| && search[p] == d
    && s == Without(search[..p], d) + search[p + 1..] && loc == |Without(search[..p], d)|
    && len == |s| - loc - Weight(search[..p], d)
    && Surviving(search, d, p + 1) == Without(search[..p], d)
    && (forall a, b :: 0 <= a < b <= p && search[a] == d && search[b] == d ==> b + Weight(search[..a], d) < |search|)
  }

  /** Where `d` does not occur everything survives. */
  lemma {:induction false} SurvivingBetween(s: seq<Domain>, d: Domain, lo: nat, hi: nat)
    requires lo <= hi <= |s| && forall i :: lo <= i < hi ==> !Reached(s, d, i)
    ensures Surviving(s, d, hi) == Surviving(s, d, lo) + s[lo..hi]
    decreases hi
  {
    hide Reached;
    if lo < hi {
      SurvivingBetween(s, d, lo, hi - 1);
      assert s[lo..hi] == s[lo..hi - 1] + [s[hi - 1]];
    }
  }

  lemma RemoveFirst(search: seq<Domain>, d: Domain, p: nat)
    requires p < |search| && search[p] == d && d !in search[..p]
    ensures Removing(search, d, p, RemoveAt(search, p), p, |search| - p - 1)
  {
    hide Weight, Without, Reached;
    AbsentWeighsNothing(search[..p], d);
    assert search[0..p] == search[..p];
    NoneBetween(search, d, 0, p);
    forall i | 0 <= i < p
      ensures !Reached(search, d, i)
    {
      ReachedIsGone(search, d, i);
    }
    SurvivingBetween(search, d, 0, p);
    FirstIsReached(search, d, p);
  }

  lemma RemoveNext(search: seq<Domain>, d: Domain, p: nat, s: seq<Domain>, loc: nat, len: int, idx: nat) returns (q: nat)
    requires Removing(search, d, p, s, loc, len) && loc <= idx < loc + len <= |s| && s[idx] == d && d !in s[loc..idx]
    ensures Removing(search, d, q, RemoveAt(s, idx), idx, len - idx - 1)
  {
    hide Weight, Without, Surviving, Reached;
    q := p + 1 + (idx - loc);
    assert s[loc..] == search[p + 1..];
    assert s[idx] == s[loc..][idx - loc] == search[q];
    assert s[loc..idx] == search[p + 1..q];
    ToNext(search, d, p, q);
    assert RemoveAt(s, idx) == Without(search[..q], d) + search[q + 1..];
    NoneBetween(search, d, p + 1, q);
    forall a, b | 0 <= a < b <= q && search[a] == d && search[b] == d
      ensures b + Weight(search[..a], d) < |search|
    {
      if p < b { WeightGrows(search, d, a, p); }
    }
    ReachedNext(search, d, p + 1, q);
  }

  /** What survives up to the next occurrence reached. */
  lemma ReachedNext(s: seq<Domain>, d: Domain, lo: nat, q: nat)
    requires lo <= q < |s| && s[q] == d && forall i :: lo <= i < q ==> s[i] != d
    requires forall a, b :: 0 <= a < b <= q && s[a] == d && s[b] == d ==> b + Weight(s[..a], d) < |s|
    ensures Surviving(s, d, q + 1) == Surviving(s, d, lo) + s[lo..q]
  {
    hide Weight;
    SurvivingBetween(s, d, lo, q);
    assert Reached(s, d, q);
  }

  /** No occurrence after the last removed one is reached when the search finds none in its range. */
  lemma RemovedEnough(search: seq<Domain>, d: Domain, p: nat, s: seq<Domain>, loc: nat, len: int)
    requires Removing(search, d, p, s, loc, len) && loc + len <= |s| && (len <= 0 || d !in s[loc..loc + len])
    ensures s == Pruned(search, d)
  {
    assert s[loc..] == search[p + 1..];
    forall q | p < q < |search|
      ensures !Reached(search, d, q)
    {
      assert search[q] == s[loc..][q - p - 1] == s[loc + (q - p - 1)];
      if search[q] == d {
        if 0 < len { NoneBetween(s, d, loc, loc + len); }
        assert q + Weight(search[..p], d) >= |search|;
      }
    }
    SurvivingBetween(search, d, p + 1, |search|);
  }

  /** The loop of `_CFApplicationPreferencesRemoveDomain`; after the second removal its range may end too early. */
  method Prune(search: seq<Domain>, d: Domain) returns (s: seq<Domain>)
    ensures s == Pruned(search, d)
  {
    hide Without, Weight, Removing, Surviving, Reached;
    s := search;
    var loc, len := 0, |s|;
    var idx := FirstIndex(s, loc, len, d);
    assert s[0..|s|] == s;
    if idx == -1 {
      NothingToRemove(s, d);
      return;
    }
    assert s[0..idx] == s[..idx];
    ghost var p: nat := idx;
    RemoveFirst(s, d, idx);
    s := RemoveAt(s, idx);
    loc, len := idx, len - idx - 1;
    idx := FirstIndex(s, loc, len, d);
    while idx != -1
      invariant 0 <= loc <= |s| && loc + len <= |s| && idx == FirstIndex(s, loc, len, d)
      invariant Removing(search, d, p, s, loc, len)
      decreases |s|
    {
      p := RemoveNext(search, d, p, s, loc, len, idx);
      s := RemoveAt(s, idx);
      loc, len := idx, len - idx - 1;
      idx := FirstIndex(s, loc, len, d);
    }
    RemovedEnough(search, d, p, s, loc, len);
  }

  lemma NothingToRemove(s: seq<Domain>, d: Domain)
    requires d !in s
    ensures Pruned(s, d) == s
  {
    assert forall i :: 0 <= i < |s| ==> s[i] in s;
    SurvivingBetween(s, d, 0, |s|);
  }

  /** Two occurrences are always both removed. */
  lemma TwoAreRemovable(s: seq<Domain>, d: Domain)
    requires Occurrences(s, d) <= 2
    ensures Removable(s, d)
  {
    forall p, q | 0 <= p < q < |s| && s[p] == d && s[q] == d
      ensures q + Weight(s[..p], d) < |s|
    {
      assert s == s[..p] + ([d] + (s[p + 1..q] + ([d] + s[q + 1..])));
      OccurrencesConcat(s[..p], [d] + (s[p + 1..q] + ([d] + s[q + 1..])), d);
      OccurrencesConcat([d], s[p + 1..q] + ([d] + s[q + 1..]), d);
      OccurrencesConcat(s[p + 1..q], [d] + s[q + 1..], d);
      OccurrencesConcat([d], s[q + 1..], d);
      NoOccurrence(s[..p], d);
      AbsentWeighsNothing(s[..p], d);
    }
  }

  lemma ThreeWeigh()
    ensures Weight([7], 5) == 0 && Weight([7, 5], 5) == 1
  {
    assert [7, 5][..1] == [7] && [7][..0] == [];
    assert Without([7], 5) == [7];
  }

  lemma ThreeReached(s: seq<Domain>)
    requires s == [7, 5, 5, 5]
    ensures !Reached(s, 5, 0) && Reached(s, 5, 1) && Reached(s, 5, 2) && !Reached(s, 5, 3) && !Removable(s, 5)
  {
    hide Weight;
    ThreeWeigh();
    assert s[..1] == [7] && s[..2] == [7, 5];
    assert s[2] == 5 && s[3] == 5 && 3 + Weight(s[..2], 5) == |s|;
  }

  /** With three occurrences one can stay behind. */
  lemma ThreeOccurrences()
    ensures Pruned([7, 5, 5, 5], 5) == [7, 5] && !Removable([7, 5, 5, 5], 5)
  {
    hide Reached, Removable;
    var s := [7, 5, 5, 5];
    ThreeReached(s);
    assert Surviving(s, 5, 1) == [7];
    assert Surviving(s, 5, 2) == [7];
    assert Surviving(s, 5, 3) == [7];
    assert Surviving(s, 5, 4) == [7, 5];
  }

  function InsertAt(s: seq<Domain>, i: nat, d: Option<Domain>): (r: seq<Domain>)
    requires i <= |s|
    ensures |s| <= |r|
  {
    if d.None? then s else s[..i] + [d.value] + s[i..]
  }

  function Index(s: seq<Domain>, d: Option<Domain>): (i: int)
    ensures -1 <= i < |s|
  {
    if d.None? then -1 else FirstIndex(s, 0, |s|, d.value)
  }

  /** The standard domains adding a suite looks at. */
  datatype Suite = Suite(app: Option<Domain>, appAnyUser: Option<Domain>, global: Option<Domain>, globalHost: Option<Domain>,
                         any: Option<Domain>, host: Option<Domain>, anyUser: Option<Domain>, anyUserHost: Option<Domain>)

  /** A suite's user domains go below the application's domain or on top, its any-user domains lower down. */
  function WithSuite(search: seq<Domain>, suite: Suite): seq<Domain> {
    var i := Index(search, suite.app) + 1;
    var s := InsertAt(InsertAt(search, i, suite.any), i, suite.host);
    var j := if Index(s, suite.appAnyUser) != -1 then Index(s, suite.appAnyUser)
             else if Index(s, suite.global) != -1 then Index(s, suite.global)
             else if Index(s, suite.globalHost) != -1 then Index(s, suite.globalHost)
             else |s| - 1;
    InsertAt(InsertAt(s, j + 1, suite.anyUser), j + 1, suite.anyUserHost)
  }

  function Holding(d: Option<Domain>): multiset<Domain> {
    if d.None? then multiset{} else multiset{d.value}
  }

  lemma InsertAdds(s: seq<Domain>, i: nat, d: Option<Domain>)
    requires i <= |s|
    ensures multiset(InsertAt(s, i, d)) == multiset(s) + Holding(d)
  {
    assert s == s[..i] + s[i..];
  }

  /** Adding a suite adds its domains and drops none. */
  lemma SuiteOnlyAdds(search: seq<Domain>, suite: Suite)
    ensures multiset(WithSuite(search, suite))
         == multiset(search) + Holding(suite.any) + Holding(suite.host) + Holding(suite.anyUser) + Holding(suite.anyUserHost)
  {
    hide FirstIndex, InsertAt;
    var i := Index(search, suite.app) + 1;
    var s := InsertAt(search, i, suite.any);
    InsertAdds(search, i, suite.any);
    InsertAdds(s, i, suite.host);
    s := InsertAt(s, i, suite.host);
    var j := if Index(s, suite.appAnyUser) != -1 then Index(s, suite.appAnyUser)
             else if Index(s, suite.global) != -1 then Index(s, suite.global)
             else if Index(s, suite.globalHost) != -1 then Index(s, suite.globalHost)
             else |s| - 1;
    InsertAdds(s, j + 1, suite.anyUser);
    InsertAdds(InsertAt(s, j + 1, suite.anyUser), j + 1, suite.anyUserHost);
  }

  function Listed(d: Option<Domain>): seq<Domain> {
    if d.None? then [] else [d.value]
  }

  ghost predicate Missing(s: seq<Domain>, d: Option<Domain>) {
    d.None? || d.value !in s
  }

  /** Position `j` is the one after the first occurrence of `d`. */
  ghost predicate JustAfter(s: seq<Domain>, d: Option<Domain>, j: nat) {
    d.Some? && 0 < j <= |s| && s[j - 1] == d.value && d.value !in s[..j - 1]
  }

  lemma IndexFinds(s: seq<Domain>, d: Option<Domain>)
    ensures if Index(s, d) == -1 then Missing(s, d) else JustAfter(s, d, Index(s, d) + 1)
  {
    if d.Some? {
      assert s[0..|s|] == s;
      var i := FirstIndex(s, 0, |s|, d.value);
      if i != -1 { assert s[0..i] == s[..i]; }
    }
  }

  lemma InsertTwo(s: seq<Domain>, i: nat, d: Option<Domain>, e: Option<Domain>)
    requires i <= |s|
    ensures InsertAt(InsertAt(s, i, d), i, e) == s[..i] + Listed(e) + Listed(d) + s[i..]
  {
    var t := InsertAt(s, i, d);
    assert t == s[..i] + Listed(d) + s[i..];
    assert t[..i] == s[..i] && t[i..] == Listed(d) + s[i..];
  }

  /** Where the suite's domains go: the host domain before the other one of each pair, and no other domain moves. */
  lemma SuiteLayout(search: seq<Domain>, suite: Suite) returns (i: nat, j: nat, s: seq<Domain>)
    ensures i <= |search| && s == search[..i] + Listed(suite.host) + Listed(suite.any) + search[i..]
    ensures JustAfter(search, suite.app, i) || (Missing(search, suite.app) && i == 0)
    ensures j <= |s| && WithSuite(search, suite) == s[..j] + Listed(suite.anyUserHost) + Listed(suite.anyUser) + s[j..]
    ensures || JustAfter(s, suite.appAnyUser, j)
            || (Missing(s, suite.appAnyUser) && JustAfter(s, suite.global, j))
            || (Missing(s, suite.appAnyUser) && Missing(s, suite.global) && JustAfter(s, suite.globalHost, j))
            || (Missing(s, suite.appAnyUser) && Missing(s, suite.global) && Missing(s, suite.globalHost) && j == |s|)
  {
    hide InsertAt, Index, Missing, JustAfter, FirstIndex;
    i := Index(search, suite.app) + 1;
    s := InsertAt(InsertAt(search, i, suite.any), i, suite.host);
    InsertTwo(search, i, suite.any, suite.host);
    IndexFinds(search, suite.app);
    IndexFinds(s, suite.appAnyUser);
    IndexFinds(s, suite.global);
    IndexFinds(s, suite.globalHost);
    j := 1 + if Index(s, suite.appAnyUser) != -1 then Index(s, suite.appAnyUser)
             else if Index(s, suite.global) != -1 then Index(s, suite.global)
             else if Index(s, suite.globalHost) != -1 then Index(s, suite.globalHost)
             else |s| - 1;
    InsertTwo(s, j, suite.anyUser, suite.anyUserHost);
  }

  /** The answer of a list searched before another one. */
  lemma {:induction false} MatchConcat(s: seq<Domain>, t: seq<Domain>, contents: map<Domain, Dict>, key: Key)
    ensures FirstMatch(s + t, contents, key)
         == if FirstMatch(s, contents, key).Some? then FirstMatch(s, contents, key) else FirstMatch(t, contents, key)
  {
    if s == [] {
      assert s + t == t;
    } else {
      MatchConcat(s[1..], t, contents, key);
      assert (s + t)[1..] == s[1..] + t;
    }
  }

  /** The answer of the domains searched first, or else of the others. */
  function OrElse(a: Option<Value>, b: Option<Value>): Option<Value> {
    if a.Some? then a else b
  }

  /**
    Lookups after a suite has been added, of a key that its any-user domains do not hold: the domains
    down to the application's own still answer first, then the suite's user domains, the host one before
    the other, then the rest. A key that no domain of the suite holds is answered as before.
   */
  lemma SuiteAnswers(search: seq<Domain>, suite: Suite, contents: map<Domain, Dict>, key: Key) returns (i: nat)
    ensures i <= |search| && (JustAfter(search, suite.app, i) || (Missing(search, suite.app) && i == 0))
    ensures var added, lower := Listed(suite.host) + Listed(suite.any), Listed(suite.anyUserHost) + Listed(suite.anyUser);
            FirstMatch(lower, contents, key).None? ==>
              && FirstMatch(WithSuite(search, suite), contents, key)
                 == OrElse(FirstMatch(search[..i], contents, key),
                           OrElse(FirstMatch(added, contents, key), FirstMatch(search[i..], contents, key)))
              && (FirstMatch(added, contents, key).None? ==>
                    FirstMatch(WithSuite(search, suite), contents, key) == FirstMatch(search, contents, key))
  {
    var j, s;
    i, j, s := SuiteLayout(search, suite);
    hide WithSuite, JustAfter, Missing, FirstMatch;
    var added, lower := Listed(suite.host) + Listed(suite.any), Listed(suite.anyUserHost) + Listed(suite.anyUser);
    InsertedAnswers(search, i, added, contents, key);
    InsertedAnswers(s, j, lower, contents, key);
    assert s == search[..i] + added + search[i..];
    assert WithSuite(search, suite) == s[..j] + lower + s[j..];
  }

  /** Domains put into a list at `i` answer after those before `i` and before the others. */
  lemma InsertedAnswers(s: seq<Domain>, i: nat, added: seq<Domain>, contents: map<Domain, Dict>, key: Key)
    requires i <= |s|
    ensures FirstMatch(s[..i] + added + s[i..], contents, key)
         == OrElse(FirstMatch(s[..i], contents, key), OrElse(FirstMatch(added, contents, key), FirstMatch(s[i..], contents, key)))
    ensures FirstMatch(added, contents, key).None? ==>
              FirstMatch(s[..i] + added + s[i..], contents, key) == FirstMatch(s, contents, key)
  {
    assert s == s[..i] + s[i..];
    MatchConcat(s[..i], s[i..], contents, key);
    MatchConcat(s[..i] + added, s[i..], contents, key);
    MatchConcat(s[..i], added, contents, key);
  }

  // ---------------------------------------------------------------- the cached preferences

  /** The domains and what is stored in them, shared by everyone. */
  class World {
    var contents: map<Domain, Dict>

    constructor (contents: map<Domain, Dict>)
      ensures this.contents == contents
    {
      this.contents := contents;
    }

    /** `_CFPreferencesDomainSet`: no value removes the key. */
    method DomainSet(d: Domain, key: Key, value: Option<Value>)
      modifies this
      ensures contents == Stored(old(contents), d, key, value)
      ensures Get(DictOf(contents, d), key) == value
      ensures forall k :: k != key ==> Get(DictOf(contents, d), k) == Get(DictOf(old(contents), d), k)
      ensures forall e :: e != d ==> DictOf(contents, e) == DictOf(old(contents), e)
    {
      contents := Stored(contents, d, key, value);
    }
  }

  function Stored(contents: map<Domain, Dict>, d: Domain, key: Key, value: Option<Value>): map<Domain, Dict> {
    contents[d := if value.None? then DictOf(contents, d) - {key} else DictOf(contents, d)[key := value.value]]
  }

  /** Searching domains in which a change does not show. */
  lemma {:induction false} AnsweredAsBefore(search: seq<Domain>, before: map<Domain, Dict>, after: map<Domain, Dict>, key: Key)
    requires forall i :: 0 <= i < |search| ==> Get(DictOf(after, search[i]), key) == Get(DictOf(before, search[i]), key)
    ensures FirstMatch(search, after, key) == FirstMatch(search, before, key)
  {
    if search != [] {
      assert forall i :: 0 <= i < |search| - 1 ==> search[1..][i] == search[i + 1];
      AnsweredAsBefore(search[1..], before, after, key);
    }
  }

  /**
    Lookups after a value has been stored in domain `d`. Other keys are answered as before. The key itself
    is answered by the domains before the first `d`; if none of them holds it, by the new value.
   */
  lemma LookupAfterStoring(search: seq<Domain>, contents: map<Domain, Dict>, d: Domain, key: Key, v: Value, other: Key)
    ensures other != key ==>
              FirstMatch(search, Stored(contents, d, key, Some(v)), other) == FirstMatch(search, contents, other)
    ensures d !in search ==>
              FirstMatch(search, Stored(contents, d, key, Some(v)), key) == FirstMatch(search, contents, key)
    ensures forall i :: 0 <= i < |search| && search[i] == d && d !in search[..i] ==>
              FirstMatch(search, Stored(contents, d, key, Some(v)), key) == OrElse(FirstMatch(search[..i], contents, key), Some(v))
  {
    var after := Stored(contents, d, key, Some(v));
    if other != key { AnsweredAsBefore(search, contents, after, other); }
    if d !in search { AnsweredAsBefore(search, contents, after, key); }
    forall i | 0 <= i < |search| && search[i] == d && d !in search[..i]
      ensures FirstMatch(search, after, key) == OrElse(FirstMatch(search[..i], contents, key), Some(v))
    {
      assert search == search[..i] + search[i..];
      MatchConcat(search[..i], search[i..], after, key);
      assert search[0..i] == search[..i];
      NoneBetween(search, d, 0, i);
      AnsweredAsBefore(search[..i], contents, after, key);
    }
  }

  /** Lookups after a key has been removed from domain `d`: the key is answered as if `d` were not searched. */
  lemma {:induction false} LookupAfterRemoving(search: seq<Domain>, contents: map<Domain, Dict>, d: Domain, key: Key, other: Key)
    ensures other != key ==>
              FirstMatch(search, Stored(contents, d, key, None), other) == FirstMatch(search, contents, other)
    ensures FirstMatch(search, Stored(contents, d, key, None), key) == FirstMatch(Without(search, d), contents, key)
  {
    var after := Stored(contents, d, key, None);
    if other != key { AnsweredAsBefore(search, contents, after, other); }
    if search != [] {
      var n := |search| - 1;
      LookupAfterRemoving(search[..n], contents, d, key, key);
      assert search == search[..n] + [search[n]];
      MatchConcat(search[..n], [search[n]], after, key);
      MatchConcat(Without(search[..n], d), [search[n]], contents, key);
      OneDomain(search[n], contents, key);
      OneDomain(search[n], after, key);
      assert Without(search[..n], d) + [] == Without(search[..n], d);
    }
  }

  lemma OneDomain(e: Domain, contents: map<Domain, Dict>, key: Key)
    ensures FirstMatch([e], contents, key) == Get(DictOf(contents, e), key)
  {
    assert [e][1..] == [];
  }

  /** What is left without `d` has none of it, and of every other domain as many as before. */
  lemma {:induction false} WithoutKeeps(s: seq<Domain>, d: Domain, e: Domain)
    ensures d !in Without(s, d) && (d !in s ==> Without(s, d) == s)
    ensures e != d ==> Occurrences(Without(s, d), e) == Occurrences(s, e)
  {
    if s != [] {
      var n := |s| - 1;
      WithoutKeeps(s[..n], d, e);
      var front := Without(s[..n], d);
      if s[n] == d {
        assert front + [] == front;
      } else {
        assert (front + [s[n]])[..|front|] == front;
        assert s == s[..n] + [s[n]];
      }
    }
  }

  class AppPreferences {
    const world: World
    const appDomain: Option<Domain>
    var search: seq<Domain>
    var dictRep: Option<Dict>

    /** A cached dictionary is the one the domains would give now. */
    ghost predicate Valid()
      reads this, world
    {
      dictRep.Some? ==> dictRep.value == Merged(search, world.contents)
    }

    constructor (world: World, appDomain: Option<Domain>)
      ensures Valid() && this.world == world && this.appDomain == appDomain && search == []
    {
      this.world, this.appDomain, search, dictRep := world, appDomain, [], None;
    }

    /** `computeDictRep` */
    method ComputeDictRep() returns (dict: Dict)
      ensures dict == Merged(search, world.contents)
    {
      dict := map[];
      var idx := |search|;
      while idx != 0
        invariant 0 <= idx <= |search| && dict == Merged(search[idx..], world.contents)
      {
        idx := idx - 1;
        assert search[idx..][1..] == search[idx + 1..];
        dict := dict + DictOf(world.contents, search[idx]);
      }
      assert search[0..] == search;
    }

    /** `_CFApplicationPreferencesCreateValueForKey2` answers as the search list would. */
    method CreateValueForKey(key: Key) returns (value: Option<Value>)
      requires Valid()
      modifies `dictRep
      ensures Valid() && value == FirstMatch(search, world.contents, key)
    {
      if dictRep.None? {
        var dict := ComputeDictRep();
        dictRep := Some(dict);
      }
      MergedIsFirstMatch(search, world.contents, key);
      value := Get(dictRep.value, key);
    }

    /** `_CFApplicationPreferencesSet` and `_CFApplicationPreferencesRemove` */
    method Set(key: Key, value: Option<Value>)
      requires Valid()
      modifies `dictRep, world
      ensures Valid()
      ensures world.contents == if appDomain.None? then old(world.contents) else Stored(old(world.contents), appDomain.value, key, value)
    {
      if appDomain.Some? {
        ghost var before := world.contents;
        world.DomainSet(appDomain.value, key, value);
        if appDomain.value in search {
          dictRep := None;
        } else {
          UnsearchedDomain(search, before, appDomain.value, world.contents[appDomain.value]);
        }
      }
    }

    /** A change made by others and the message `_CFApplicationPreferencesDomainHasChanged` that follows it. */
    method ForeignSet(d: Domain, key: Key, value: Option<Value>)
      requires Valid()
      modifies `dictRep, world
      ensures Valid() && world.contents == Stored(old(world.contents), d, key, value)
    {
      ghost var before := world.contents;
      world.DomainSet(d, key, value);
      if d in search {
        dictRep := None;
      } else {
        UnsearchedDomain(search, before, d, world.contents[d]);
      }
    }

    /** `_CFApplicationPreferencesUpdate` */
    method Update()
      modifies `dictRep
      ensures Valid() && dictRep.None?
    {
      dictRep := None;
    }

    /** `_CFApplicationPreferencesSetSearchList` */
    method SetSearchList(list: seq<Domain>)
      modifies `search, `dictRep
      ensures Valid() && dictRep.None? && search == list
    {
      search := [];
      var idx := 0;
      while idx < |list|
        invariant 0 <= idx <= |list| && search == list[..idx]
      {
        search := search + [list[idx]];
        idx := idx + 1;
      }
      dictRep := None;
    }

    /** `_CFApplicationPreferencesAddDomain` */
    method AddDomain(d: Domain, addAtTop: bool)
      modifies `search, `dictRep
      ensures Valid() && search == if addAtTop then [d] + old(search) else old(search) + [d]
    {
      search := if addAtTop then [d] + search else search + [d];
      dictRep := None;
    }

    /** `_CFApplicationPreferencesRemoveDomain` */
    method RemoveDomain(d: Domain)
      modifies `search, `dictRep
      ensures Valid() && search == Pruned(old(search), d)
    {
      search := Prune(search, d);
      dictRep := None;
    }

    /** `_CFApplicationPreferencesAddSuitePreferences`, as one completed step */
    method AddSuitePreferences(suite: Suite)
      modifies `search, `dictRep
      ensures Valid() && search == WithSuite(old(search), suite)
    {
      hide InsertAt, FirstIndex;
      var idx := Index(search, suite.app) + 1;
      search := InsertAt(search, idx, suite.any);
      search := InsertAt(search, idx, suite.host);
      idx := Index(search, suite.appAnyUser);
      if idx == -1 {
        idx := Index(search, suite.global);
        if idx == -1 {
          idx := Index(search, suite.globalHost);
          if idx == -1 {
            idx := |search| - 1;
          }
        }
      }
      idx := idx + 1;
      search := InsertAt(search, idx, suite.anyUser);
      search := InsertAt(search, idx, suite.anyUserHost);
      dictRep := None;
    }
  }

  // ---------------------------------------------------------------- runs

  datatype Op = Lookup(key: Key)
              | Set(key: Key, value: Option<Value>)
              | ForeignSet(d: Domain, key: Key, value: Option<Value>)
              | Update
              | SetSearchList(list: seq<Domain>)
              | AddDomain(d: Domain, addAtTop: bool)
              | RemoveDomain(d: Domain)
              | AddSuite(suite: Suite)

  /** What is searched, without any cache. */
  datatype State = State(search: seq<Domain>, contents: map<Domain, Dict>)

  /** One operation without a cache. */
  function Step(appDomain: Option<Domain>, s: State, op: Op): State {
    match op
    case Lookup(_) => s
    case Update => s
    case Set(key, value) => if appDomain.None? then s else s.(contents := Stored(s.contents, appDomain.value, key, value))
    case ForeignSet(d, key, value) => s.(contents := Stored(s.contents, d, key, value))
    case SetSearchList(list) => s.(search := list)
    case AddDomain(d, addAtTop) => s.(search := if addAtTop then [d] + s.search else s.search + [d])
    case RemoveDomain(d) => s.(search := Pruned(s.search, d))
    case AddSuite(suite) => s.(search := WithSuite(s.search, suite))
  }

  function Steps(appDomain: Option<Domain>, s: State, ops: seq<Op>): State {
    if ops == [] then s else Step(appDomain, Steps(appDomain, s, ops[..|ops| - 1]), ops[|ops| - 1])
  }

  /** What an operation answers: a lookup what the search list gives at that point, the others nothing. */
  function Answer(s: State, op: Op): Option<Value> {
    match op
    case Lookup(key) => FirstMatch(s.search, s.contents, key)
    case _ => None
  }

  /**
    After any run, storing a value through the application's domain is seen by the next lookup of the key,
    unless a domain searched earlier holds it; lookups of other keys are not affected.
   */
  lemma ReadsOwnWrites(app: Domain, s: State, ops: seq<Op>, key: Key, v: Value, i: nat, other: Key)
    requires var search := Steps(Some(app), s, ops).search; i < |search| && search[i] == app && app !in search[..i]
    ensures var before, after := Steps(Some(app), s, ops), Steps(Some(app), s, ops + [Set(key, Some(v))]);
            && Answer(after, Lookup(key)) == OrElse(FirstMatch(before.search[..i], before.contents, key), Some(v))
            && (other != key ==> Answer(after, Lookup(other)) == Answer(before, Lookup(other)))
  {
    var before := Steps(Some(app), s, ops);
    assert (ops + [Set(key, Some(v))])[..|ops|] == ops;
    LookupAfterStoring(before.search, before.contents, app, key, v, other);
  }

  method Do(p: AppPreferences, op: Op) returns (answer: Option<Value>)
    requires p.Valid()
    modifies p, p.world
    ensures p.Valid() && State(p.search, p.world.contents) == Step(p.appDomain, old(State(p.search, p.world.contents)), op)
    ensures answer == Answer(old(State(p.search, p.world.contents)), op)
  {
    answer := None;
    match op
    case Lookup(key) => answer := p.CreateValueForKey(key);
    case Set(key, value) => p.Set(key, value);
    case ForeignSet(d, key, value) => p.ForeignSet(d, key, value);
    case Update => p.Update();
    case SetSearchList(list) => p.SetSearchList(list);
    case AddDomain(d, addAtTop) => p.AddDomain(d, addAtTop);
    case RemoveDomain(d) => p.RemoveDomain(d);
    case AddSuite(suite) => p.AddSuitePreferences(suite);
  }

  /** In every run each answer is the one of the run without a cache, and so is the state at the end. */
  method Run(p: AppPreferences, ops: seq<Op>) returns (answers: seq<Option<Value>>)
    requires p.Valid()
    modifies p, p.world
    ensures p.Valid() && State(p.search, p.world.contents) == Steps(p.appDomain, old(State(p.search, p.world.contents)), ops)
    ensures |answers| == |ops|
    ensures forall i :: 0 <= i < |ops| ==>
              answers[i] == Answer(Steps(p.appDomain, old(State(p.search, p.world.contents)), ops[..i]), ops[i])
  {
    hide Step, Answer;
    ghost var start := State(p.search, p.world.contents);
    answers := [];
    var i := 0;
    while i < |ops|
      invariant 0 <= i <= |ops| && |answers| == i && p.Valid()
      invariant State(p.search, p.world.contents) == Steps(p.appDomain, start, ops[..i])
      invariant forall k :: 0 <= k < i ==> answers[k] == Answer(Steps(p.appDomain, start, ops[..k]), ops[k])
    {
      var answer := Do(p, ops[i]);
      answers := answers + [answer];
      assert ops[..i + 1][..i] == ops[..i];
      i := i + 1;
    }
    assert ops[..i] == ops;
  }
}
