/** The enum store dictionary: the ordered index tree of entry references,
    kept in the exact order of their values, optionally with a posting-list
    reference per key (the posting dictionary), and the folded variant that
    keeps each posting-list reference on the first key of its run of
    folded-equal keys. The B-tree is modelled by its in-order key sequence
    and the parallel sequence of its leaf data. */
module Dictionaries {
  import opened EnumTypes
  import opened ValueStores

  /** Keys handed to writeValues per call by writeAllValues. */
  const BatchSize: nat := 1000

  // ---------------------------------------------------------------------------
  // The tree as a sequence
  // ---------------------------------------------------------------------------

  ghost predicate KeysIn(keys: seq<Index>, entries: map<Index, Entry>)
  {
    forall i :: 0 <= i < |keys| ==> keys[i] in entries
  }

  /** In-order traversal yields strictly increasing values. */
  ghost predicate Sorted(keys: seq<Index>, entries: map<Index, Entry>)
  {
    && KeysIn(keys, entries)
    && forall i, j :: 0 <= i < j < |keys| ==> Less(entries[keys[i]].value, entries[keys[j]].value)
  }

  /** Some key of the tree holds the value. */
  ghost predicate HasValue(keys: seq<Index>, entries: map<Index, Entry>, v: Value)
    requires KeysIn(keys, entries)
  {
    exists i :: 0 <= i < |keys| && entries[keys[i]].value == v
  }

  /** A posting-list reference is held only by a key whose predecessor lies
      in a strictly smaller folded class: only the first key of each run of
      folded-equal keys holds one. */
  ghost predicate PostingsAtRunHeads(keys: seq<Index>, data: seq<Index>, entries: map<Index, Entry>)
  {
    && |data| == |keys|
    && KeysIn(keys, entries)
    && forall i :: 0 < i < |keys| && IsValid(data[i]) ==>
         FoldedLess(entries[keys[i - 1]].value, entries[keys[i]].value)
  }

  lemma SortedExtends(keys: seq<Index>, before: map<Index, Entry>, after: map<Index, Entry>)
    requires Sorted(keys, before) && Extends(before, after)
    ensures Sorted(keys, after)
  {
  }

  lemma PostingsExtends(keys: seq<Index>, data: seq<Index>, before: map<Index, Entry>, after: map<Index, Entry>)
    requires PostingsAtRunHeads(keys, data, before) && Extends(before, after)
    ensures PostingsAtRunHeads(keys, data, after)
  {
  }

  /** Sorted keys are distinct references. */
  lemma SortedDistinct(keys: seq<Index>, entries: map<Index, Entry>)
    requires Sorted(keys, entries)
    ensures forall i, j :: 0 <= i < j < |keys| ==> keys[i] != keys[j]
  {
  }

  // ---------------------------------------------------------------------------
  // Tree searches (lowerBound and find of the B-tree)
  // ---------------------------------------------------------------------------

  /** lowerBound(probe, cmp): the first position whose key the comparator
      does not order before the probe. */
  function LowerBound(keys: seq<Index>, entries: map<Index, Entry>, c: Cmp, probe: Value): (p: nat)
    requires KeysIn(keys, entries)
    ensures p <= |keys|
    ensures forall i :: 0 <= i < p ==> CmpLess(c, entries[keys[i]].value, probe)
    ensures p < |keys| ==> !CmpLess(c, entries[keys[p]].value, probe)
  {
    if |keys| == 0 || !CmpLess(c, entries[keys[0]].value, probe) then 0
    else
      var p := 1 + LowerBound(keys[1..], entries, c, probe);
      assert forall i :: 1 <= i < p ==> keys[i] == keys[1..][i - 1];
      p
  }

  /** In a sorted tree, every key from the lower bound on is not ordered
      before the probe, for the exact and for the folded comparator. */
  lemma LowerBoundOrdered(keys: seq<Index>, entries: map<Index, Entry>, c: Cmp, probe: Value)
    requires Sorted(keys, entries)
    ensures forall i :: LowerBound(keys, entries, c, probe) <= i < |keys| ==>
              !CmpLess(c, entries[keys[i]].value, probe)
  {
  }

  /** The lower bound of a key's own value is that key's position. */
  lemma LowerBoundFindsKey(keys: seq<Index>, entries: map<Index, Entry>, q: nat)
    requires Sorted(keys, entries) && q < |keys|
    ensures LowerBound(keys, entries, Exact, entries[keys[q]].value) == q
  {
  }

  /** find(probe, cmp): the lower bound if the key there compares equal. */
  function FindPos(keys: seq<Index>, entries: map<Index, Entry>, c: Cmp, probe: Value): (r: Option<nat>)
    requires KeysIn(keys, entries)
    ensures r.Some? ==> r.value == LowerBound(keys, entries, c, probe)
    ensures r.Some? ==> r.value < |keys| && CmpEqual(c, entries[keys[r.value]].value, probe)
  {
    var p := LowerBound(keys, entries, c, probe);
    if p < |keys| && !CmpLess(c, probe, entries[keys[p]].value) then Some(p) else None
  }

  /** find fails exactly when no key compares equal to the probe; when it
      succeeds, no earlier key does. */
  lemma FindPosComplete(keys: seq<Index>, entries: map<Index, Entry>, c: Cmp, probe: Value)
    requires Sorted(keys, entries)
    ensures FindPos(keys, entries, c, probe).None? <==>
              forall i :: 0 <= i < |keys| ==> !CmpEqual(c, entries[keys[i]].value, probe)
    ensures FindPos(keys, entries, c, probe).Some? ==>
              forall i :: 0 <= i < FindPos(keys, entries, c, probe).value ==>
                !CmpEqual(c, entries[keys[i]].value, probe)
  {
    LowerBoundOrdered(keys, entries, c, probe);
    var p := LowerBound(keys, entries, c, probe);
    if p < |keys| && CmpLess(c, probe, entries[keys[p]].value) {
      forall i | p <= i < |keys|
        ensures CmpLess(c, probe, entries[keys[i]].value)
      {
        if i > p {
          assert Less(entries[keys[p]].value, entries[keys[i]].value);
        }
      }
    }
  }

  /** The keys comparing equal to the probe, in tree order. */
  function Matching(keys: seq<Index>, entries: map<Index, Entry>, c: Cmp, probe: Value): (r: seq<Index>)
    requires KeysIn(keys, entries)
    ensures forall k :: k in r ==> k in keys
  {
    if keys == [] then []
    else
      (if CmpEqual(c, entries[keys[0]].value, probe) then [keys[0]] else [])
      + Matching(keys[1..], entries, c, probe)
  }

  /** When the matching keys are exactly those of keys[p..q], Matching is that slice. */
  lemma {:induction false} MatchingOfRun(keys: seq<Index>, entries: map<Index, Entry>, c: Cmp, probe: Value, p: nat, q: nat)
    requires KeysIn(keys, entries) && p <= q <= |keys|
    requires forall i :: 0 <= i < |keys| ==> (CmpEqual(c, entries[keys[i]].value, probe) <==> p <= i < q)
    ensures Matching(keys, entries, c, probe) == keys[p..q]
  {
    if keys != [] {
      var rest := keys[1..];
      assert forall i :: 0 <= i < |rest| ==> rest[i] == keys[i + 1];
      if p > 0 {
        MatchingOfRun(rest, entries, c, probe, p - 1, q - 1);
        assert rest[p - 1..q - 1] == keys[p..q];
      } else if q > 0 {
        MatchingOfRun(rest, entries, c, probe, 0, q - 1);
        assert [keys[0]] + rest[..q - 1] == keys[..q];
      } else {
        MatchingOfRun(rest, entries, c, probe, 0, 0);
      }
    }
  }

  /** findIndex from an invalid index, as a value: the key holding `v`, or
      the invalid index when no key holds it. */
  function LookupIndex(keys: seq<Index>, entries: map<Index, Entry>, v: Value): Index
    requires KeysIn(keys, entries)
  {
    match FindPos(keys, entries, Exact, v)
    case Some(p) => keys[p]
    case None => InvalidIndex
  }

  /** The lookup finds the one key holding the value, and only fails when
      no key holds it. */
  lemma LookupIndexFinds(keys: seq<Index>, entries: map<Index, Entry>, v: Value)
    requires Sorted(keys, entries)
    ensures HasValue(keys, entries, v) ==>
              LookupIndex(keys, entries, v) in keys && entries[LookupIndex(keys, entries, v)].value == v
    ensures !HasValue(keys, entries, v) ==> LookupIndex(keys, entries, v) == InvalidIndex
    ensures forall i :: 0 <= i < |keys| && entries[keys[i]].value == v ==> keys[i] == LookupIndex(keys, entries, v)
  {
    FindPosComplete(keys, entries, Exact, v);
    forall i | 0 <= i < |keys| && entries[keys[i]].value == v
      ensures keys[i] == LookupIndex(keys, entries, v)
    {
      var p := FindPos(keys, entries, Exact, v).value;
      OrdersAgree(entries[keys[p]].value, v, v);
      assert entries[keys[p]].value == entries[keys[i]].value;
      assert !Less(entries[keys[i]].value, entries[keys[p]].value);
      assert !Less(entries[keys[p]].value, entries[keys[i]].value);
    }
    if HasValue(keys, entries, v) {
      var i :| 0 <= i < |keys| && entries[keys[i]].value == v;
      assert keys[i] == LookupIndex(keys, entries, v);
    }
  }

  /** The folded lower bound depends only on the folded part of the probe. */
  lemma {:induction false} LowerBoundFolded(keys: seq<Index>, entries: map<Index, Entry>, u: Value, v: Value)
    requires KeysIn(keys, entries) && FoldedEqual(u, v)
    ensures LowerBound(keys, entries, Folded, u) == LowerBound(keys, entries, Folded, v)
  {
    if |keys| > 0 && FoldedLess(entries[keys[0]].value, u) {
      LowerBoundFolded(keys[1..], entries, u, v);
    }
  }

  /** dict.find(idx, folded comparator) on a key: the first key of idx's
      run of folded-equal keys. */
  function RunHead(keys: seq<Index>, entries: map<Index, Entry>, idx: Index): (h: Index)
    requires KeysIn(keys, entries) && idx in keys
    ensures h in keys
  {
    RunHeadInRange(keys, entries, idx);
    keys[LowerBound(keys, entries, Folded, entries[idx].value)]
  }

  lemma RunHeadInRange(keys: seq<Index>, entries: map<Index, Entry>, idx: Index)
    requires KeysIn(keys, entries) && idx in keys
    ensures idx in entries && LowerBound(keys, entries, Folded, entries[idx].value) < |keys|
  {
    var q :| 0 <= q < |keys| && keys[q] == idx;
    assert !FoldedLess(entries[keys[q]].value, entries[idx].value);
  }

  /** The run head is folded-equal to the key, and is the least key of its
      folded class: every key before it is in a smaller folded class. */
  lemma {:induction false} RunHeadIsFirstOfClass(keys: seq<Index>, entries: map<Index, Entry>, idx: Index)
    requires Sorted(keys, entries) && idx in keys
    ensures idx in entries && FoldedEqual(entries[RunHead(keys, entries, idx)].value, entries[idx].value)
    ensures forall i :: (0 <= i < |keys| && keys[i] != RunHead(keys, entries, idx) &&
                         FoldedEqual(entries[keys[i]].value, entries[idx].value)) ==>
              Less(entries[RunHead(keys, entries, idx)].value, entries[keys[i]].value)
  {
    RunHeadInRange(keys, entries, idx);
    var v := entries[idx].value;
    var p := LowerBound(keys, entries, Folded, v);
    var q :| 0 <= q < |keys| && keys[q] == idx;
    assert !CmpLess(Folded, entries[keys[q]].value, v);
    assert p <= q;
    assert p < q ==> Less(entries[keys[p]].value, entries[keys[q]].value);
    forall i | 0 <= i < |keys| && keys[i] != keys[p] && FoldedEqual(entries[keys[i]].value, v)
      ensures Less(entries[keys[p]].value, entries[keys[i]].value)
    {
      assert !CmpLess(Folded, entries[keys[i]].value, v);
      assert p < i;
    }
  }

  /** In a folded dictionary the posting reference of a folded class sits at
      the class's run head: any key of idx's class holding one is RunHead. */
  lemma RunHeadHoldsPosting(keys: seq<Index>, data: seq<Index>, entries: map<Index, Entry>, idx: Index)
    requires Sorted(keys, entries) && PostingsAtRunHeads(keys, data, entries) && idx in keys
    ensures forall i :: 0 <= i < |keys| && IsValid(data[i]) && FoldedEqual(entries[keys[i]].value, entries[idx].value) ==>
              keys[i] == RunHead(keys, entries, idx)
  {
    RunHeadInRange(keys, entries, idx);
    var v := entries[idx].value;
    var p := LowerBound(keys, entries, Folded, v);
    LowerBoundOrdered(keys, entries, Folded, v);
    forall i | 0 <= i < |keys| && IsValid(data[i]) && FoldedEqual(entries[keys[i]].value, v)
      ensures i == p
    {
      assert !CmpLess(Folded, entries[keys[i]].value, v);
      assert p <= i;
      var j := if i > 0 then i - 1 else i;
      assert j < p || !FoldedLess(entries[keys[j]].value, v);
      assert i == 0 || FoldedLess(entries[keys[j]].value, entries[keys[i]].value);
    }
  }

  // ---------------------------------------------------------------------------
  // Insertion and removal at a position
  // ---------------------------------------------------------------------------

  function InsertAt<T>(s: seq<T>, p: nat, x: T): (r: seq<T>)
    requires p <= |s|
    ensures |r| == |s| + 1 && r[p] == x
    ensures forall i :: 0 <= i < p ==> r[i] == s[i]
    ensures forall i :: p < i < |r| ==> r[i] == s[i - 1]
  {
    s[..p] + [x] + s[p..]
  }

  function RemoveAt<T>(s: seq<T>, p: nat): (r: seq<T>)
    requires p < |s|
    ensures |r| == |s| - 1
    ensures forall i :: 0 <= i < p ==> r[i] == s[i]
    ensures forall i :: p <= i < |r| ==> r[i] == s[i + 1]
  {
    s[..p] + s[p + 1..]
  }

  /** The keys of `s` that are not in `r`, in order. */
  function Without(s: seq<Index>, r: set<Index>): (t: seq<Index>)
    ensures forall x :: x in t <==> x in s && x !in r
  {
    if s == [] then [] else (if s[0] in r then [] else [s[0]]) + Without(s[1..], r)
  }

  lemma {:induction false} WithoutEmpty(s: seq<Index>)
    ensures Without(s, {}) == s
  {
    if s != [] {
      WithoutEmpty(s[1..]);
      assert [s[0]] + s[1..] == s;
    }
  }

  lemma {:induction false} WithoutTwice(s: seq<Index>, r1: set<Index>, r2: set<Index>)
    ensures Without(Without(s, r1), r2) == Without(s, r1 + r2)
  {
    if s != [] {
      WithoutTwice(s[1..], r1, r2);
      var w := Without(s, r1);
      if s[0] in r1 {
        assert w == Without(s[1..], r1);
      } else {
        assert w == [s[0]] + Without(s[1..], r1);
        assert w[0] == s[0] && w[1..] == Without(s[1..], r1);
      }
    }
  }

  /** Removing the key at a position of a sequence without duplicates is
      removing that key by identity. */
  lemma {:induction false} RemoveAtIsWithout(s: seq<Index>, p: nat)
    requires p < |s|
    requires forall i, j :: 0 <= i < j < |s| ==> s[i] != s[j]
    ensures RemoveAt(s, p) == Without(s, {s[p]})
  {
    var rest := s[1..];
    assert forall i :: 0 <= i < |rest| ==> rest[i] == s[i + 1];
    if p == 0 {
      WithoutNotPresent(rest, {s[0]});
    } else {
      RemoveAtIsWithout(rest, p - 1);
      assert rest[p - 1] == s[p];
      assert RemoveAt(s, p) == [s[0]] + RemoveAt(rest, p - 1);
    }
  }

  lemma {:induction false} WithoutNotPresent(s: seq<Index>, r: set<Index>)
    requires forall i :: 0 <= i < |s| ==> s[i] !in r
    ensures Without(s, r) == s
  {
    if s != [] {
      WithoutNotPresent(s[1..], r);
      assert [s[0]] + s[1..] == s;
    }
  }

  /** Sortedness survives inserting a key between its neighbours. */
  lemma InsertKeepsSorted(keys: seq<Index>, entries: map<Index, Entry>, p: nat, idx: Index)
    requires Sorted(keys, entries) && idx in entries && p <= |keys|
    requires forall i :: 0 <= i < p ==> Less(entries[keys[i]].value, entries[idx].value)
    requires forall i :: p <= i < |keys| ==> Less(entries[idx].value, entries[keys[i]].value)
    ensures Sorted(InsertAt(keys, p, idx), entries)
  {
    var r := InsertAt(keys, p, idx);
    forall i, j | 0 <= i < j < |r|
      ensures Less(entries[r[i]].value, entries[r[j]].value)
    {
      if j < p {
      } else if j == p {
      } else if i < p {
        assert Less(entries[keys[i]].value, entries[keys[j - 1]].value) || i == j - 1;
      } else if i == p {
      } else {
        assert Less(entries[keys[i - 1]].value, entries[keys[j - 1]].value);
      }
    }
  }

  lemma RemoveKeepsSorted(keys: seq<Index>, entries: map<Index, Entry>, p: nat)
    requires Sorted(keys, entries) && p < |keys|
    ensures Sorted(RemoveAt(keys, p), entries)
  {
    var r := RemoveAt(keys, p);
    forall i, j | 0 <= i < j < |r|
      ensures Less(entries[r[i]].value, entries[r[j]].value)
    {
      var i' := if i < p then i else i + 1;
      var j' := if j < p then j else j + 1;
      assert r[i] == keys[i'] && r[j] == keys[j'] && i' < j';
    }
  }

  // ---------------------------------------------------------------------------
  // The folded dictionary's posting-list hand-off
  // ---------------------------------------------------------------------------

  /** Leaf data after `add` inserted a key at position p with a null posting
      reference and, on hand-off, moved the successor's reference to it. */
  function AddedData(data: seq<Index>, p: nat, handOff: bool): (r: seq<Index>)
    requires p <= |data| && (handOff ==> p < |data|)
  {
    var d := InsertAt(data, p, InvalidIndex);
    if handOff then d[p := data[p]][p + 1 := InvalidIndex] else d
  }

  /** Add hands off when the successor holds a posting reference and the
      folded comparator does not order the new value before it. */
  predicate AddHandOff(folded: bool, keys: seq<Index>, data: seq<Index>, entries: map<Index, Entry>, p: nat, v: Value)
    requires KeysIn(keys, entries) && |data| == |keys| && p <= |keys|
  {
    folded && p < |keys| && IsValid(data[p]) && !FoldedLess(v, entries[keys[p]].value)
  }

  /** Leaf data after `remove` took out position p and, on hand-off, gave its
      posting reference to the key now at p. */
  function RemovedData(data: seq<Index>, p: nat, handOff: bool): (r: seq<Index>)
    requires p < |data| && (handOff ==> p + 1 < |data|)
  {
    var d := RemoveAt(data, p);
    if handOff then d[p := data[p]] else d
  }

  /** Remove hands off when the removed key held a posting reference and its
      successor holds none and is not ordered after it by the folded comparator. */
  predicate RemoveHandOff(folded: bool, keys: seq<Index>, data: seq<Index>, entries: map<Index, Entry>, p: nat)
    requires KeysIn(keys, entries) && |data| == |keys| && p < |keys|
  {
    && folded && IsValid(data[p]) && p + 1 < |keys| && !IsValid(data[p + 1])
    && !FoldedLess(entries[keys[p]].value, entries[keys[p + 1]].value)
  }

  /** The new key at its sorted position takes the successor's posting
      reference exactly when the successor holds one and is folded-equal to it. */
  lemma AddHandOffIsFoldedEqual(keys: seq<Index>, data: seq<Index>, entries: map<Index, Entry>, p: nat, idx: Index)
    requires p <= |keys| && |data| == |keys| && Sorted(InsertAt(keys, p, idx), entries)
    ensures KeysIn(keys, entries) && idx in entries
    ensures AddHandOff(true, keys, data, entries, p, entries[idx].value) <==>
              p < |keys| && IsValid(data[p]) && FoldedEqual(entries[idx].value, entries[keys[p]].value)
  {
    var r := InsertAt(keys, p, idx);
    assert forall i :: 0 <= i < |keys| ==> keys[i] == r[if i < p then i else i + 1];
    if p < |keys| {
      assert r[p + 1] == keys[p];
    }
  }

  /** Adding a key keeps every posting reference on the head of its run. */
  lemma AddKeepsPostingsAtRunHeads(keys: seq<Index>, data: seq<Index>, entries: map<Index, Entry>, p: nat, idx: Index)
    requires Sorted(keys, entries) && PostingsAtRunHeads(keys, data, entries)
    requires p <= |keys| && idx in entries
    requires Sorted(InsertAt(keys, p, idx), entries)
    ensures PostingsAtRunHeads(InsertAt(keys, p, idx),
                               AddedData(data, p, AddHandOff(true, keys, data, entries, p, entries[idx].value)),
                               entries)
  {
    var v := entries[idx].value;
    var h := AddHandOff(true, keys, data, entries, p, v);
    var k' := InsertAt(keys, p, idx);
    var d' := AddedData(data, p, h);
    assert |d'| == |k'|;
    forall i | 0 < i < |k'| && IsValid(d'[i])
      ensures FoldedLess(entries[k'[i - 1]].value, entries[k'[i]].value)
    {
      if i < p {
        assert k'[i] == keys[i] && k'[i - 1] == keys[i - 1] && d'[i] == data[i];
      } else if i == p {
        assert h && d'[p] == data[p];
        assert k'[p + 1] == keys[p];
        assert Less(v, entries[keys[p]].value);
        assert FoldedLess(entries[keys[p - 1]].value, entries[keys[p]].value);
      } else if i == p + 1 {
        assert !h && d'[i] == data[p];
        assert k'[i] == keys[p] && k'[p] == idx;
      } else {
        assert k'[i] == keys[i - 1] && k'[i - 1] == keys[i - 2] && d'[i] == data[i - 1];
      }
    }
  }

  /** Removing a key keeps every posting reference on the head of its run. */
  lemma RemoveKeepsPostingsAtRunHeads(keys: seq<Index>, data: seq<Index>, entries: map<Index, Entry>, p: nat)
    requires Sorted(keys, entries) && PostingsAtRunHeads(keys, data, entries) && p < |keys|
    ensures PostingsAtRunHeads(RemoveAt(keys, p),
                               RemovedData(data, p, RemoveHandOff(true, keys, data, entries, p)),
                               entries)
  {
    var h := RemoveHandOff(true, keys, data, entries, p);
    var k' := RemoveAt(keys, p);
    var d' := RemovedData(data, p, h);
    forall i | 0 < i < |k'| && IsValid(d'[i])
      ensures FoldedLess(entries[k'[i - 1]].value, entries[k'[i]].value)
    {
      if i < p {
        assert k'[i] == keys[i] && k'[i - 1] == keys[i - 1] && d'[i] == data[i];
      } else if i == p {
        assert k'[i] == keys[p + 1] && k'[i - 1] == keys[p - 1];
        assert Less(entries[keys[p - 1]].value, entries[keys[p]].value);
        assert Less(entries[keys[p]].value, entries[keys[p + 1]].value);
        if h {
          assert FoldedLess(entries[keys[p - 1]].value, entries[keys[p]].value);
        } else {
          assert d'[i] == data[p + 1];
          assert FoldedLess(entries[keys[p]].value, entries[keys[p + 1]].value);
        }
      } else {
        assert k'[i] == keys[i + 1] && k'[i - 1] == keys[i] && d'[i] == data[i + 1];
      }
    }
  }

  /** Within one run of folded-equal keys at most one key holds a posting
      reference: two holders always lie in different folded classes. */
  lemma PostingHeldOncePerRun(keys: seq<Index>, data: seq<Index>, entries: map<Index, Entry>, i: nat, j: nat)
    requires Sorted(keys, entries) && PostingsAtRunHeads(keys, data, entries)
    requires i < j < |keys| && IsValid(data[i]) && IsValid(data[j])
    ensures FoldedLess(entries[keys[i]].value, entries[keys[j]].value)
  {
    assert FoldedLess(entries[keys[j - 1]].value, entries[keys[j]].value);
    if i < j - 1 {
      assert Less(entries[keys[i]].value, entries[keys[j - 1]].value);
    }
  }

  /** Removing the holder of a run's posting reference while the run has a
      further member passes the reference on to that member: the posting list
      of a folded class is not lost while the class has keys. */
  lemma RemoveKeepsRunPosting(keys: seq<Index>, data: seq<Index>, entries: map<Index, Entry>, p: nat)
    requires Sorted(keys, entries) && PostingsAtRunHeads(keys, data, entries)
    requires p + 1 < |keys| && IsValid(data[p])
    requires FoldedEqual(entries[keys[p]].value, entries[keys[p + 1]].value)
    ensures RemoveHandOff(true, keys, data, entries, p)
    ensures RemovedData(data, p, true)[p] == data[p] && RemoveAt(keys, p)[p] == keys[p + 1]
  {
  }

  // ---------------------------------------------------------------------------
  // Posting references across a batch of removals
  // ---------------------------------------------------------------------------

  /** Some key of the tree lies in the folded class of v, so the folded lower
      bound lands on the first of them. */
  ghost predicate ClassKept(keys: seq<Index>, entries: map<Index, Entry>, v: Value)
    requires KeysIn(keys, entries)
  {
    var h := LowerBound(keys, entries, Folded, v);
    h < |keys| && FoldedEqual(entries[keys[h]].value, v)
  }

  /** The lower bound is the one position before which every key compares
      less and at which the key does not. */
  lemma LowerBoundUnique(keys: seq<Index>, entries: map<Index, Entry>, c: Cmp, probe: Value, q: nat)
    requires KeysIn(keys, entries) && q <= |keys|
    requires forall i :: 0 <= i < q ==> CmpLess(c, entries[keys[i]].value, probe)
    requires q < |keys| ==> !CmpLess(c, entries[keys[q]].value, probe)
    ensures LowerBound(keys, entries, c, probe) == q
  {
    var p := LowerBound(keys, entries, c, probe);
    assert !(p < q);
  }

  /** A class with a key in a sorted tree is kept, and its first key is the
      folded lower bound. */
  lemma ClassKeptByMember(keys: seq<Index>, entries: map<Index, Entry>, v: Value, j: nat)
    requires Sorted(keys, entries) && j < |keys| && FoldedEqual(entries[keys[j]].value, v)
    ensures ClassKept(keys, entries, v) && LowerBound(keys, entries, Folded, v) <= j
  {
    var h := LowerBound(keys, entries, Folded, v);
    assert h <= j;
    assert h < j ==> Less(entries[keys[h]].value, entries[keys[j]].value);
  }

  /** Every posting reference of the later tree was held, in the earlier one,
      by a key of the same folded class. */
  ghost predicate RefsFromClass(keys0: seq<Index>, data0: seq<Index>, keys1: seq<Index>, data1: seq<Index>,
                                entries: map<Index, Entry>)
  {
    && KeysIn(keys0, entries) && KeysIn(keys1, entries) && |data0| == |keys0| && |data1| == |keys1|
    && forall j :: 0 <= j < |keys1| && IsValid(data1[j]) ==>
         exists i :: 0 <= i < |keys0| && data0[i] == data1[j]
                     && FoldedEqual(entries[keys0[i]].value, entries[keys1[j]].value)
  }

  /** Every posting reference of the earlier tree sits on the first key of
      its folded class in the later tree, as long as the class keeps a key. */
  ghost predicate HeadsKept(keys0: seq<Index>, data0: seq<Index>, keys1: seq<Index>, data1: seq<Index>,
                            entries: map<Index, Entry>)
  {
    && KeysIn(keys0, entries) && KeysIn(keys1, entries) && |data0| == |keys0| && |data1| == |keys1|
    && forall i :: 0 <= i < |keys0| && IsValid(data0[i]) && ClassKept(keys1, entries, entries[keys0[i]].value) ==>
         data1[LowerBound(keys1, entries, Folded, entries[keys0[i]].value)] == data0[i]
  }

  /** Every key present in both trees has the same leaf data in both. */
  ghost predicate DataKept(keys0: seq<Index>, data0: seq<Index>, keys1: seq<Index>, data1: seq<Index>)
  {
    && |data0| == |keys0| && |data1| == |keys1|
    && forall i, j :: 0 <= i < |keys0| && 0 <= j < |keys1| && keys0[i] == keys1[j] ==> data1[j] == data0[i]
  }

  /** What removals do to the leaf data: no posting reference appears out of
      nowhere or changes class; in the folded dictionary each class that
      keeps a key keeps its posting list on its first key; elsewhere every
      remaining key keeps its data. */
  ghost predicate PostingsCarried(folded: bool, keys0: seq<Index>, data0: seq<Index>, keys1: seq<Index>,
                                  data1: seq<Index>, entries: map<Index, Entry>)
  {
    && RefsFromClass(keys0, data0, keys1, data1, entries)
    && (folded ==> HeadsKept(keys0, data0, keys1, data1, entries))
    && (!folded ==> DataKept(keys0, data0, keys1, data1))
  }

  /** A key holding a posting reference is where the folded lookup of its
      own value lands. */
  lemma HolderIsFoldedLowerBound(keys: seq<Index>, data: seq<Index>, entries: map<Index, Entry>, i: nat)
    requires Sorted(keys, entries) && PostingsAtRunHeads(keys, data, entries)
    requires i < |keys| && IsValid(data[i])
    ensures LowerBound(keys, entries, Folded, entries[keys[i]].value) == i
  {
    var v := entries[keys[i]].value;
    forall j | 0 <= j < i
      ensures FoldedLess(entries[keys[j]].value, v)
    {
      assert FoldedLess(entries[keys[i - 1]].value, v);
      assert j < i - 1 ==> Less(entries[keys[j]].value, entries[keys[i - 1]].value);
    }
    LowerBoundUnique(keys, entries, Folded, v, i);
  }

  /** A valid tree carries its own postings. */
  lemma PostingsCarriedStart(folded: bool, keys: seq<Index>, data: seq<Index>, entries: map<Index, Entry>)
    requires Sorted(keys, entries) && |data| == |keys|
    requires folded ==> PostingsAtRunHeads(keys, data, entries)
    ensures PostingsCarried(folded, keys, data, keys, data, entries)
  {
    forall j | 0 <= j < |keys| && IsValid(data[j])
      ensures exists i :: 0 <= i < |keys| && data[i] == data[j]
                          && FoldedEqual(entries[keys[i]].value, entries[keys[j]].value)
    {
      assert data[j] == data[j] && FoldedEqual(entries[keys[j]].value, entries[keys[j]].value);
    }
    if folded {
      forall i | 0 <= i < |keys| && IsValid(data[i])
        ensures LowerBound(keys, entries, Folded, entries[keys[i]].value) == i
      {
        HolderIsFoldedLowerBound(keys, data, entries, i);
      }
    } else {
      SortedDistinct(keys, entries);
    }
  }

  /** One removal keeps every posting reference inside its folded class. */
  lemma RemoveRefsFromClass(folded: bool, keys0: seq<Index>, data0: seq<Index>, keys: seq<Index>, data: seq<Index>,
                            entries: map<Index, Entry>, p: nat)
    requires Sorted(keys, entries) && |data| == |keys| && p < |keys|
    requires RefsFromClass(keys0, data0, keys, data, entries)
    ensures RefsFromClass(keys0, data0, RemoveAt(keys, p),
                          RemovedData(data, p, RemoveHandOff(folded, keys, data, entries, p)), entries)
  {
    var handOff := RemoveHandOff(folded, keys, data, entries, p);
    var keys1, data1 := RemoveAt(keys, p), RemovedData(data, p, handOff);
    if handOff {
      assert Less(entries[keys[p]].value, entries[keys[p + 1]].value);
    }
    forall j | 0 <= j < |keys1| && IsValid(data1[j])
      ensures exists i :: 0 <= i < |keys0| && data0[i] == data1[j]
                          && FoldedEqual(entries[keys0[i]].value, entries[keys1[j]].value)
    {
      var m := if handOff && j == p then p else if j < p then j else j + 1;
      assert data1[j] == data[m] && FoldedEqual(entries[keys[m]].value, entries[keys1[j]].value);
      var i :| 0 <= i < |keys0| && data0[i] == data[m] && FoldedEqual(entries[keys0[i]].value, entries[keys[m]].value);
    }
  }

  /** One removal in the folded dictionary: a class that still has a key
      had one before, and the first key of the class holds afterwards the
      posting reference its first key held before. */
  lemma RemoveKeepsHead(keys: seq<Index>, data: seq<Index>, entries: map<Index, Entry>, p: nat, v: Value)
    requires Sorted(keys, entries) && PostingsAtRunHeads(keys, data, entries) && p < |keys|
    requires KeysIn(RemoveAt(keys, p), entries) && ClassKept(RemoveAt(keys, p), entries, v)
    ensures ClassKept(keys, entries, v)
    ensures var h := LowerBound(keys, entries, Folded, v);
            IsValid(data[h]) ==>
              RemovedData(data, p, RemoveHandOff(true, keys, data, entries, p))[LowerBound(RemoveAt(keys, p), entries, Folded, v)]
              == data[h]
  {
    var keys1 := RemoveAt(keys, p);
    var h1 := LowerBound(keys1, entries, Folded, v);
    var m := if h1 < p then h1 else h1 + 1;
    assert keys1[h1] == keys[m];
    ClassKeptByMember(keys, entries, v, m);
    var h := LowerBound(keys, entries, Folded, v);
    var handOff := RemoveHandOff(true, keys, data, entries, p);
    if IsValid(data[h]) {
      if p < h {
        LowerBoundUnique(keys1, entries, Folded, v, h - 1);
        assert !(handOff && h - 1 == p);
      } else if p == h {
        assert h < m;
        assert Less(entries[keys[h]].value, entries[keys[h + 1]].value);
        assert h + 1 < m ==> Less(entries[keys[h + 1]].value, entries[keys[m]].value);
        assert FoldedEqual(entries[keys[h + 1]].value, v);
        assert handOff;
        LowerBoundUnique(keys1, entries, Folded, v, h);
      } else {
        LowerBoundUnique(keys1, entries, Folded, v, h);
      }
    }
  }

  /** One removal in the folded dictionary keeps each class's posting list
      on the first key of the class. */
  lemma RemoveHeadsKept(keys0: seq<Index>, data0: seq<Index>, keys: seq<Index>, data: seq<Index>,
                        entries: map<Index, Entry>, p: nat)
    requires Sorted(keys, entries) && PostingsAtRunHeads(keys, data, entries) && p < |keys|
    requires HeadsKept(keys0, data0, keys, data, entries)
    ensures HeadsKept(keys0, data0, RemoveAt(keys, p),
                      RemovedData(data, p, RemoveHandOff(true, keys, data, entries, p)), entries)
  {
    var keys1 := RemoveAt(keys, p);
    var data1 := RemovedData(data, p, RemoveHandOff(true, keys, data, entries, p));
    forall i | 0 <= i < |keys0| && IsValid(data0[i]) && ClassKept(keys1, entries, entries[keys0[i]].value)
      ensures data1[LowerBound(keys1, entries, Folded, entries[keys0[i]].value)] == data0[i]
    {
      RemoveKeepsHead(keys, data, entries, p, entries[keys0[i]].value);
    }
  }

  /** One removal without hand-off leaves every remaining key its data. */
  lemma RemoveDataKept(keys0: seq<Index>, data0: seq<Index>, keys: seq<Index>, data: seq<Index>, p: nat)
    requires |data| == |keys| && p < |keys|
    requires DataKept(keys0, data0, keys, data)
    ensures DataKept(keys0, data0, RemoveAt(keys, p), RemovedData(data, p, false))
  {
    var keys1, data1 := RemoveAt(keys, p), RemovedData(data, p, false);
    forall i, j | 0 <= i < |keys0| && 0 <= j < |keys1| && keys0[i] == keys1[j]
      ensures data1[j] == data0[i]
    {
      var m := if j < p then j else j + 1;
      assert keys1[j] == keys[m] && data1[j] == data[m];
    }
  }

  /** One removal, with the dictionary's hand-off, carries the postings on. */
  lemma RemoveCarriesPostings(folded: bool, keys0: seq<Index>, data0: seq<Index>, keys: seq<Index>,
                              data: seq<Index>, entries: map<Index, Entry>, p: nat)
    requires Sorted(keys, entries) && |data| == |keys| && p < |keys|
    requires folded ==> PostingsAtRunHeads(keys, data, entries)
    requires PostingsCarried(folded, keys0, data0, keys, data, entries)
    ensures PostingsCarried(folded, keys0, data0, RemoveAt(keys, p),
                            RemovedData(data, p, RemoveHandOff(folded, keys, data, entries, p)), entries)
  {
    RemoveRefsFromClass(folded, keys0, data0, keys, data, entries, p);
    if folded {
      RemoveHeadsKept(keys0, data0, keys, data, entries, p);
    } else {
      RemoveDataKept(keys0, data0, keys, data, p);
    }
  }

  /** The least member of a non-empty set: std::set is visited in ascending
      reference order. */
  method Least(s: set<Index>) returns (m: Index)
    requires s != {}
    ensures m in s && forall o :: o in s ==> m <= o
  {
    m :| m in s;
    var rest := s - {m};
    while rest != {}
      invariant rest <= s && m in s
      invariant forall o :: o in s && o !in rest ==> m <= o
      decreases rest
    {
      var y :| y in rest;
      if y < m {
        m := y;
      }
      rest := rest - {y};
    }
  }

  /** Concatenation of the batches handed to writeValues, in call order. */
  function Flatten(batches: seq<seq<Index>>): seq<Index>
  {
    if batches == [] then [] else Flatten(batches[..|batches| - 1]) + batches[|batches| - 1]
  }

  lemma FlattenAppend(batches: seq<seq<Index>>, b: seq<Index>)
    ensures Flatten(batches + [b]) == Flatten(batches) + b
  {
    assert (batches + [b])[..|batches|] == batches;
  }

  /** The references among `candidates` whose entries have reference count 0. */
  ghost function ZeroRefs(candidates: set<Index>, entries: map<Index, Entry>): set<Index>
  {
    set k | k in candidates && k in entries && entries[k].refCount == 0
  }

  /** The keys of a sequence whose entries have reference count 0. */
  ghost function ZeroRefKeys(keys: seq<Index>, entries: map<Index, Entry>): set<Index>
  {
    set k | k in keys && k in entries && entries[k].refCount == 0
  }

  // ---------------------------------------------------------------------------
  // The dictionary object
  // ---------------------------------------------------------------------------

  /** EnumStoreDictionary<EnumTree> (hasData false), EnumStoreDictionary<
      EnumPostingTree> (hasData true) and EnumStoreFoldedDictionary (folded). */
  class EnumStoreDictionary {
    const hasData: bool
    const folded: bool
    var keys: seq<Index>
    var data: seq<Index>
    var frozenKeys: seq<Index>

    ghost predicate ValidFor(entries: map<Index, Entry>)
      reads this
    {
      && (folded ==> hasData)
      && |data| == |keys|
      && Sorted(keys, entries)
      && Sorted(frozenKeys, entries)
      && (!hasData ==> forall i :: 0 <= i < |data| ==> !IsValid(data[i]))
      && (folded ==> PostingsAtRunHeads(keys, data, entries))
    }

    ghost predicate Valid(store: ValueStore)
      reads this, store
    {
      store.Valid() && ValidFor(store.entries)
    }

    /** The dictionary only compares values, so it stays valid while entries
        are added to the store or change their reference counts. */
    lemma ValidForExtends(before: map<Index, Entry>, after: map<Index, Entry>)
      requires ValidFor(before) && Extends(before, after)
      ensures ValidFor(after)
    {
      SortedExtends(keys, before, after);
      SortedExtends(frozenKeys, before, after);
      if folded {
        PostingsExtends(keys, data, before, after);
      }
    }

    constructor (hasData: bool, folded: bool)
      requires folded ==> hasData
      ensures this.hasData == hasData && this.folded == folded
      ensures keys == [] && data == [] && frozenKeys == []
      ensures forall entries :: ValidFor(entries)
    {
      this.hasData := hasData;
      this.folded := folded;
      keys := [];
      data := [];
      frozenKeys := [];
    }

    /** getNumUniques(): the number of keys, as a uint32_t. */
    method GetNumUniques() returns (n: u32)
      ensures n == |keys| % U32Modulus
      ensures |keys| < U32Modulus ==> n == |keys|
    {
      n := |keys| % U32Modulus;
    }

    /** getPostingDictionary(): the tree with its posting references; only a
        dictionary with leaf data has one (the source aborts otherwise). In a
        folded dictionary the references sit at the run heads. */
    method GetPostingDictionary(store: ValueStore) returns (treeKeys: seq<Index>, postings: seq<Index>)
      requires Valid(store) && hasData
      ensures treeKeys == keys && postings == data
      ensures |postings| == |treeKeys| && Sorted(treeKeys, store.entries)
      ensures folded ==> PostingsAtRunHeads(treeKeys, postings, store.entries)
    {
      treeKeys, postings := keys, data;
    }

    /** hasData(): whether the tree carries posting references. */
    method HasData(store: ValueStore) returns (r: bool)
      requires Valid(store)
      ensures r == hasData
      ensures folded ==> r
      ensures !r ==> forall i :: 0 <= i < |data| ==> !IsValid(data[i])
    {
      r := hasData;
    }

    /** writeAllValues(writer, rootRef): walks the tree given by `root` and
        hands its keys to writeValues in batches; the result lists the
        batches in call order. */
    method WriteAllValues(root: seq<Index>) returns (batches: seq<seq<Index>>)
      ensures Flatten(batches) == root
      ensures forall j :: 0 <= j < |batches| ==> 0 < |batches[j]| <= BatchSize
      ensures forall j :: 0 <= j < |batches| - 1 ==> |batches[j]| == BatchSize
    {
      batches := [];
      var idxs: seq<Index> := [];
      var i := 0;
      while i < |root|
        invariant 0 <= i <= |root|
        invariant Flatten(batches) + idxs == root[..i]
        invariant |idxs| <= BatchSize
        invariant i > 0 ==> |idxs| > 0
        invariant forall j :: 0 <= j < |batches| ==> |batches[j]| == BatchSize
      {
        if |idxs| >= BatchSize {
          FlattenAppend(batches, idxs);
          batches := batches + [idxs];
          idxs := [];
        }
        idxs := idxs + [root[i]];
        assert root[..i + 1] == root[..i] + [root[i]];
        i := i + 1;
      }
      if |idxs| > 0 {
        FlattenAppend(batches, idxs);
        batches := batches + [idxs];
      }
      assert root[..|root|] == root;
    }

    /** findIndex(cmp, idx) on the live tree with the exact comparator. */
    method FindIndex(store: ValueStore, probe: Value, idx: Index) returns (found: bool, result: Index)
      requires Valid(store)
      ensures found <==> HasValue(keys, store.entries, probe)
      ensures found ==> result in keys && store.entries[result].value == probe
      ensures !found ==> result == idx
    {
      FindPosComplete(keys, store.entries, Exact, probe);
      var r := FindPos(keys, store.entries, Exact, probe);
      if r.None? {
        return false, idx;
      }
      return true, keys[r.value];
    }

    /** findFrozenIndex(cmp, idx): the same search on the frozen view. */
    method FindFrozenIndex(store: ValueStore, probe: Value, idx: Index) returns (found: bool, result: Index)
      requires Valid(store)
      ensures found <==> HasValue(frozenKeys, store.entries, probe)
      ensures found ==> result in frozenKeys && store.entries[result].value == probe
      ensures !found ==> result == idx
    {
      var view := frozenKeys;
      FindPosComplete(view, store.entries, Exact, probe);
      var r := FindPos(view, store.entries, Exact, probe);
      if r.None? {
        return false, idx;
      }
      return true, view[r.value];
    }

    /** findMatchingEnums(cmp): the keys of the frozen view that compare
        equal to the probe, collected from the found position onward. */
    method FindMatchingEnums(store: ValueStore, c: Cmp, probe: Value) returns (result: seq<Index>)
      requires Valid(store)
      ensures result == Matching(frozenKeys, store.entries, c, probe)
    {
      var view := frozenKeys;
      var entries := store.entries;
      var r := FindPos(view, entries, c, probe);
      var i := if r.Some? then r.value else |view|;
      ghost var start := i;
      result := [];
      FindPosComplete(view, entries, c, probe);
      LowerBoundOrdered(view, entries, c, probe);
      while i < |view| && !CmpLess(c, probe, entries[view[i]].value)
        invariant start <= i <= |view|
        invariant result == view[start..i]
        invariant forall j :: start <= j < i ==> CmpEqual(c, entries[view[j]].value, probe)
      {
        result := result + [view[i]];
        i := i + 1;
      }
      forall j | i <= j < |view|
        ensures !CmpEqual(c, entries[view[j]].value, probe)
      {
        if j > i {
          assert Less(entries[view[i]].value, entries[view[j]].value);
        }
      }
      MatchingOfRun(view, entries, c, probe, start, i);
    }

    /** add(cmp, insertEntry) with the exact comparator bound to `v`: returns
        the key holding an equal value without allocating, or allocates a new
        entry, inserts it at its sorted position with a null posting
        reference and, in the folded dictionary, takes over the successor's
        posting reference when the successor is folded-equal. */
    method Add(store: ValueStore, v: Value) returns (idx: Index, inserted: bool)
      requires Valid(store)
      modifies this, store
      ensures Valid(store)
      ensures frozenKeys == old(frozenKeys) && store.held == old(store.held)
      ensures Extends(old(store.entries), store.entries)
      ensures idx in keys && store.entries[idx].value == v
      ensures inserted <==> !HasValue(old(keys), old(store.entries), v)
      ensures !inserted ==> keys == old(keys) && data == old(data) && store.entries == old(store.entries)
      ensures inserted ==>
        var p := LowerBound(old(keys), old(store.entries), Exact, v);
        && idx !in old(store.entries)
        && store.entries == old(store.entries)[idx := Entry(v, 0)]
        && keys == InsertAt(old(keys), p, idx)
        && data == AddedData(old(data), p, AddHandOff(folded, old(keys), old(data), old(store.entries), p, v))
    {
      var p := LowerBound(keys, store.entries, Exact, v);
      LowerBoundOrdered(keys, store.entries, Exact, v);
      if p < |keys| && !Less(v, store.entries[keys[p]].value) {
        // an equal key is present: nothing changes
        return keys[p], false;
      }
      assert forall i :: 0 <= i < |keys| ==> store.entries[keys[i]].value != v;
      ghost var before := store.entries;
      idx := store.Allocate(v);
      inserted := true;
      ValidForExtends(before, store.entries);
      var entries := store.entries;
      var handOff := folded && p < |keys| && IsValid(data[p]) && !FoldedLess(v, entries[keys[p]].value);
      assert handOff == AddHandOff(folded, keys, data, before, p, v);
      InsertKeepsSorted(keys, entries, p, idx);
      if folded {
        AddKeepsPostingsAtRunHeads(keys, data, entries, p, idx);
      }
      keys := InsertAt(keys, p, idx);
      data := AddedData(data, p, handOff);
    }

    /** remove(cmp, ref): `ref` must be a key. Removes it; in the folded
        dictionary a posting reference it held moves to its successor when
        the successor holds none and is folded-equal to it. */
    method Remove(store: ValueStore, ref: Index) returns (ghost p: nat)
      requires Valid(store)
      requires IsValid(ref) && ref in keys
      modifies this
      ensures Valid(store)
      ensures frozenKeys == old(frozenKeys)
      ensures ref in store.entries && p < |old(keys)| && old(keys)[p] == ref
      ensures keys == RemoveAt(old(keys), p)
      ensures data == RemovedData(old(data), p, RemoveHandOff(folded, old(keys), old(data), store.entries, p))
    {
      var entries := store.entries;
      ghost var q :| 0 <= q < |keys| && keys[q] == ref;
      LowerBoundFindsKey(keys, entries, q);
      var pos := LowerBound(keys, entries, Exact, entries[ref].value);
      p := pos;
      ghost var oldKeys, oldData := keys, data;
      var postingRef := data[pos];
      keys := RemoveAt(keys, pos);
      data := RemoveAt(data, pos);
      // a folded-equal successor without a posting reference takes over this one
      if folded && IsValid(postingRef) && pos < |keys| && !IsValid(data[pos])
         && !FoldedLess(entries[ref].value, entries[keys[pos]].value)
      {
        data := data[pos := postingRef];
      }
      assert data == RemovedData(oldData, p, RemoveHandOff(folded, oldKeys, oldData, entries, p));
      RemoveKeepsSorted(oldKeys, entries, p);
      if folded {
        RemoveKeepsPostingsAtRunHeads(oldKeys, oldData, entries, p);
      }
    }

    /** One round of removeUnusedEnums: `ref`, not removed yet, leaves the
        tree, which keeps carrying the postings of the tree it started as. */
    method RemoveUnused(store: ValueStore, ref: Index, ghost keys0: seq<Index>, ghost data0: seq<Index>,
                        ghost done: set<Index>)
      requires Valid(store) && IsValid(ref) && ref in keys0 && ref !in done
      requires keys == Without(keys0, done)
      requires PostingsCarried(folded, keys0, data0, keys, data, store.entries)
      modifies this
      ensures Valid(store) && frozenKeys == old(frozenKeys)
      ensures keys == Without(keys0, done + {ref})
      ensures PostingsCarried(folded, keys0, data0, keys, data, store.entries)
    {
      ghost var before, beforeData, entries := keys, data, store.entries;
      ghost var p := Remove(store, ref);
      RemoveCarriesPostings(folded, keys0, data0, before, beforeData, entries, p);
      SortedDistinct(before, entries);
      RemoveAtIsWithout(before, p);
      WithoutTwice(keys0, done, {ref});
    }

    /** removeUnusedEnums(unused, cmp): removes every member of `unused`, in
        ascending reference order; an empty set changes nothing. */
    method RemoveUnusedEnums(unused: set<Index>, store: ValueStore)
      requires Valid(store)
      requires forall ref :: ref in unused ==> IsValid(ref) && ref in keys
      modifies this
      ensures Valid(store)
      ensures frozenKeys == old(frozenKeys)
      ensures keys == Without(old(keys), unused)
      ensures PostingsCarried(folded, old(keys), old(data), keys, data, store.entries)
      ensures unused == {} ==> keys == old(keys) && data == old(data)
    {
      PostingsCarriedStart(folded, keys, data, store.entries);
      if unused == {} {
        WithoutEmpty(keys);
        return;
      }
      var rest := unused;
      ghost var done: set<Index> := {};
      WithoutEmpty(keys);
      while rest != {}
        invariant Valid(store)
        invariant done + rest == unused && done !! rest
        invariant frozenKeys == old(frozenKeys)
        invariant keys == Without(old(keys), done)
        invariant PostingsCarried(folded, old(keys), old(data), keys, data, store.entries)
        decreases rest
      {
        var ref := Least(rest);
        RemoveUnused(store, ref, old(keys), old(data), done);
        done := done + {ref};
        rest := rest - {ref};
      }
    }

    /** freeUnusedEnums(cmp): scans every key, lets the enum store collect
        (and put on hold) those with reference count 0, then removes them.
        Exactly the keys with reference count 0 leave the tree. */
    method FreeUnusedEnums(store: ValueStore)
      requires Valid(store)
      modifies this, store
      ensures Valid(store)
      ensures store.entries == old(store.entries) && frozenKeys == old(frozenKeys)
      ensures keys == Without(old(keys), ZeroRefKeys(old(keys), store.entries))
      ensures forall k :: k in old(keys) ==> (k in keys <==> store.entries[k].refCount != 0)
      ensures store.held == old(store.held) + ZeroRefKeys(old(keys), store.entries)
      ensures PostingsCarried(folded, old(keys), old(data), keys, data, store.entries)
    {
      var unused: set<Index> := {};
      var i := 0;
      while i < |keys|
        modifies store
        invariant 0 <= i <= |keys|
        invariant store.Valid() && store.entries == old(store.entries)
        invariant unused == ZeroRefKeys(keys[..i], store.entries)
        invariant store.held == old(store.held) + unused
      {
        unused := store.FreeUnusedEnum(keys[i], unused);
        assert keys[..i + 1] == keys[..i] + [keys[i]];
        i := i + 1;
      }
      assert keys[..i] == keys;
      RemoveUnusedEnums(unused, store);
    }

    /** freeUnusedEnums(toRemove, cmp): only the candidates are examined;
        those with reference count 0 are put on hold and removed, so only
        members of `toRemove` whose count is 0 ever leave the tree. The
        removal asserts that such a candidate is a key. */
    method FreeUnusedEnumsOf(toRemove: set<Index>, store: ValueStore)
      requires Valid(store)
      requires forall ref :: ref in toRemove ==> ref in store.entries
      requires forall ref :: ref in toRemove && store.entries[ref].refCount == 0 ==> ref in keys
      modifies this, store
      ensures Valid(store)
      ensures store.entries == old(store.entries) && frozenKeys == old(frozenKeys)
      ensures keys == Without(old(keys), ZeroRefs(toRemove, store.entries))
      ensures store.held == old(store.held) + ZeroRefs(toRemove, store.entries)
      ensures PostingsCarried(folded, old(keys), old(data), keys, data, store.entries)
      ensures toRemove == {} ==> keys == old(keys) && data == old(data)
    {
      var unused: set<Index> := {};
      var rest := toRemove;
      while rest != {}
        modifies store
        invariant rest <= toRemove
        invariant store.Valid() && store.entries == old(store.entries)
        invariant unused == ZeroRefs(toRemove - rest, store.entries)
        invariant store.held == old(store.held) + unused
        decreases rest
      {
        var ref := Least(rest);
        unused := store.FreeUnusedEnum(ref, unused);
        rest := rest - {ref};
      }
      assert toRemove - rest == toRemove;
      RemoveUnusedEnums(unused, store);
    }

    /** build(refs): replaces the tree by the given sorted keys, with no
        posting references. */
    method Build(store: ValueStore, refs: seq<Index>)
      requires Valid(store) && Sorted(refs, store.entries)
      modifies this
      ensures Valid(store)
      ensures keys == refs && frozenKeys == old(frozenKeys)
      ensures forall i :: 0 <= i < |data| ==> !IsValid(data[i])
    {
      keys := refs;
      data := seq(|refs|, i => InvalidIndex);
    }

    /** build_with_payload(refs, payloads): replaces the tree by the given
        sorted keys; a posting dictionary takes the payloads as its leaf data. */
    method BuildWithPayload(store: ValueStore, refs: seq<Index>, payloads: seq<u32>)
      requires Valid(store) && Sorted(refs, store.entries) && |payloads| == |refs|
      requires folded ==> PostingsAtRunHeads(refs, payloads, store.entries)
      modifies this
      ensures Valid(store)
      ensures keys == refs && frozenKeys == old(frozenKeys)
      ensures hasData ==> data == payloads
      ensures !hasData ==> forall i :: 0 <= i < |data| ==> !IsValid(data[i])
    {
      keys := refs;
      if hasData {
        data := payloads;
      } else {
        data := seq(|refs|, i => InvalidIndex);
      }
    }

    /** The frozen view readers use is a snapshot of the tree as it is now. */
    method Freeze()
      modifies this`frozenKeys
      ensures frozenKeys == keys
    {
      frozenKeys := keys;
    }

    /** onReset(): drops every key. */
    method OnReset(store: ValueStore)
      requires Valid(store)
      modifies this
      ensures Valid(store)
      ensures keys == [] && data == [] && frozenKeys == old(frozenKeys)
    {
      keys := [];
      data := [];
    }
  }
}
