/** EnumStoreT: the facade that owns the value store and the dictionary,
    loads and saves the unique values, hands out and counts entry
    references, and decides when the values should be compacted; with its
    helpers NonEnumeratedLoader and BatchUpdater. */
module EnumStores {
  import opened EnumTypes
  import opened EntryTypes
  import opened ValueStores
  import opened Dictionaries

  // ---------------------------------------------------------------------------
  // Compaction policy
  // ---------------------------------------------------------------------------

  /** Minimum dead bytes in the values before compaction is considered. */
  const DeadBytesSlack: nat := 0x10000
  /** Minimum dead address space before compaction is considered. */
  const DeadAddressSpaceSlack: nat := 0x10000

  datatype MemoryUsage = MemoryUsage(allocatedBytes: nat, usedBytes: nat, deadBytes: nat, allocatedBytesOnHold: nat)

  datatype AddressSpace = AddressSpace(used: nat, dead: nat, limit: nat)

  /** The two ratios of a CompactionStrategy that consider_compact reads. */
  datatype CompactionStrategy = CompactionStrategy(maxDeadBytesRatio: real, maxDeadAddressSpaceRatio: real)

  /** The call compact_worst(compactMemory, compactAddressSpace). */
  datatype CompactRequest = CompactWorst(compactMemory: bool, compactAddressSpace: bool)

  /** MemoryUsage::merge: every counter is summed. */
  function Merge(a: MemoryUsage, b: MemoryUsage): MemoryUsage
  {
    MemoryUsage(a.allocatedBytes + b.allocatedBytes, a.usedBytes + b.usedBytes,
                a.deadBytes + b.deadBytes, a.allocatedBytesOnHold + b.allocatedBytesOnHold)
  }

  /** One dimension of the compaction rule: enough dead space, and more of
      it than the allowed fraction of the used space. */
  predicate ShouldCompact(used: nat, dead: nat, slack: nat, ratio: real)
  {
    dead >= slack && (used as real) * ratio < dead as real
  }

  /** Below the slack nothing is compacted; above it, more dead space, less
      used space or a smaller allowed ratio never turn compaction off. */
  lemma ShouldCompactMonotone(used: nat, dead: nat, slack: nat, ratio: real,
                              used': nat, dead': nat, ratio': real)
    requires 0.0 <= ratio' <= ratio && used' <= used && dead <= dead'
    ensures dead < slack ==> !ShouldCompact(used, dead, slack, ratio)
    ensures ShouldCompact(used, dead, slack, ratio) ==> ShouldCompact(used', dead', slack, ratio')
  {
    if ShouldCompact(used, dead, slack, ratio) {
      assert (dead as real) <= (dead' as real);
      assert (used' as real) * ratio' <= (used as real) * ratio' by {
        MulMonotone(used' as real, used as real, ratio');
      }
      assert (used as real) * ratio' <= (used as real) * ratio by {
        MulMonotoneRight(used as real, ratio', ratio);
      }
    }
  }

  lemma MulMonotone(a: real, b: real, c: real)
    requires a <= b && 0.0 <= c
    ensures a * c <= b * c
  {
  }

  lemma MulMonotoneRight(c: real, a: real, b: real)
    requires a <= b && 0.0 <= c
    ensures c * a <= c * b
  {
  }

  /** A store with no dead space is never compacted, whatever the ratio. */
  lemma NoDeadSpaceNoCompaction(used: nat, ratio: real)
    requires ratio >= 0.0
    ensures !ShouldCompact(used, 0, DeadBytesSlack, ratio)
    ensures !ShouldCompact(used, 0, DeadAddressSpaceSlack, ratio)
  {
  }

  // ---------------------------------------------------------------------------
  // Values of a run of references
  // ---------------------------------------------------------------------------

  /** The values of the given references, in the given order. */
  function ValuesOf(idxs: seq<Index>, entries: map<Index, Entry>): (vs: seq<Value>)
    requires KeysIn(idxs, entries)
    ensures |vs| == |idxs|
    ensures forall i :: 0 <= i < |idxs| ==> vs[i] == entries[idxs[i]].value
  {
    if idxs == [] then [] else ValuesOf(idxs[..|idxs| - 1], entries) + [entries[idxs[|idxs| - 1]].value]
  }

  /** Each value is strictly below the next one. */
  ghost predicate StrictlyIncreasing(vs: seq<Value>)
  {
    forall i :: 0 < i < |vs| ==> Less(vs[i - 1], vs[i])
  }

  /** Keys whose values increase step by step form a sorted tree. */
  lemma {:induction false} IncreasingIsSorted(idxs: seq<Index>, entries: map<Index, Entry>)
    requires KeysIn(idxs, entries) && StrictlyIncreasing(ValuesOf(idxs, entries))
    ensures Sorted(idxs, entries)
  {
    if idxs != [] {
      var init := idxs[..|idxs| - 1];
      assert forall i :: 0 <= i < |init| ==> init[i] == idxs[i];
      IncreasingIsSorted(init, entries);
      var last := |idxs| - 1;
      forall i, j | 0 <= i < j < |idxs|
        ensures Less(entries[idxs[i]].value, entries[idxs[j]].value)
      {
        if j == last && i < last - 1 {
          assert Less(entries[idxs[i]].value, entries[idxs[last - 1]].value);
          assert Less(entries[idxs[last - 1]].value, entries[idxs[last]].value);
        } else if j == last {
          assert i == last - 1;
        } else {
          assert init[i] == idxs[i] && init[j] == idxs[j];
        }
      }
    }
  }

  lemma {:induction false} ValuesOfAppend(idxs: seq<Index>, entries: map<Index, Entry>, k: Index)
    requires KeysIn(idxs, entries) && k in entries
    ensures KeysIn(idxs + [k], entries)
    ensures ValuesOf(idxs + [k], entries) == ValuesOf(idxs, entries) + [entries[k].value]
  {
    assert (idxs + [k])[..|idxs|] == idxs;
  }

  /** The values of references stay the same when entries are only added
      or recounted. */
  lemma ValuesOfExtends(idxs: seq<Index>, before: map<Index, Entry>, after: map<Index, Entry>)
    requires KeysIn(idxs, before) && Extends(before, after)
    ensures KeysIn(idxs, after) && ValuesOf(idxs, after) == ValuesOf(idxs, before)
  {
  }

  /** The bytes of a batched write are the bytes of one write of all the
      keys: writeAllValues' batching does not change the saved file. */
  lemma {:induction false} BatchedWriteIsWholeWrite(t: EntryType, batches: seq<seq<Index>>, entries: map<Index, Entry>)
    requires IsInteger(t) && forall j :: 0 <= j < |batches| ==> KeysIn(batches[j], entries)
    requires forall k :: k in entries ==> Fits(t, entries[k].value)
    ensures KeysIn(Flatten(batches), entries) && AllFit(t, ValuesOf(Flatten(batches), entries))
    ensures EncodeRecords(t, ValuesOf(Flatten(batches), entries)) == ConcatRecords(t, batches, entries)
  {
    if batches != [] {
      var init := batches[..|batches| - 1];
      var last := batches[|batches| - 1];
      BatchedWriteIsWholeWrite(t, init, entries);
      ValuesOfConcat(Flatten(init), last, entries);
      EncodeRecordsConcat(t, ValuesOf(Flatten(init), entries), ValuesOf(last, entries));
    }
  }

  /** The concatenated records written for each batch in turn. */
  function ConcatRecords(t: EntryType, batches: seq<seq<Index>>, entries: map<Index, Entry>): seq<byte>
    requires IsInteger(t)
    requires forall j :: 0 <= j < |batches| ==> KeysIn(batches[j], entries)
    requires forall k :: k in entries ==> Fits(t, entries[k].value)
  {
    if batches == [] then []
    else ConcatRecords(t, batches[..|batches| - 1], entries)
         + EncodeRecords(t, ValuesOf(batches[|batches| - 1], entries))
  }

  lemma {:induction false} ValuesOfConcat(a: seq<Index>, b: seq<Index>, entries: map<Index, Entry>)
    requires KeysIn(a, entries) && KeysIn(b, entries)
    ensures KeysIn(a + b, entries)
    ensures ValuesOf(a + b, entries) == ValuesOf(a, entries) + ValuesOf(b, entries)
  {
  }

  lemma {:induction false} EncodeRecordsConcat(t: EntryType, a: seq<Value>, b: seq<Value>)
    requires IsInteger(t) && AllFit(t, a) && AllFit(t, b)
    ensures AllFit(t, a + b)
    ensures EncodeRecords(t, a + b) == EncodeRecords(t, a) + EncodeRecords(t, b)
  {
    if a != [] {
      assert (a + b)[1..] == a[1..] + b;
      EncodeRecordsConcat(t, a[1..], b);
    } else {
      assert a + b == b;
    }
  }

  /** One step of loading: the record at `pos` is the next decoded value,
      re-encoding it extends the consumed prefix, and the previous value is
      the one loaded last. */
  lemma LoadStep(t: EntryType, src: seq<byte>, pos: nat, loaded: seq<Value>)
    requires IsInteger(t) && pos + FixedSize(t) <= |src|
    requires AllFit(t, loaded) && EncodeRecords(t, loaded) == src[..pos]
    requires DecodeRecords(t, src) == loaded + DecodeRecords(t, src[pos..])
    ensures var v := DecodeRecord(t, src[pos..][..FixedSize(t)]);
            && AllFit(t, loaded + [v])
            && EncodeRecords(t, loaded + [v]) == src[..pos + FixedSize(t)]
            && DecodeRecords(t, src) == (loaded + [v]) + DecodeRecords(t, src[pos + FixedSize(t)..])
            && |DecodeRecords(t, src)| > |loaded| && DecodeRecords(t, src)[|loaded|] == v
            && (loaded != [] ==> DecodeRecords(t, src)[|loaded| - 1] == loaded[|loaded| - 1])
  {
    var w := FixedSize(t);
    var v := DecodeRecord(t, src[pos..][..w]);
    LoadStepDecode(t, src, pos, loaded);
    LoadStepEncode(t, src, pos, loaded, v);
  }

  lemma LoadStepDecode(t: EntryType, src: seq<byte>, pos: nat, loaded: seq<Value>)
    requires IsInteger(t) && pos + FixedSize(t) <= |src|
    requires DecodeRecords(t, src) == loaded + DecodeRecords(t, src[pos..])
    ensures DecodeRecords(t, src) == (loaded + [DecodeRecord(t, src[pos..][..FixedSize(t)])])
                                     + DecodeRecords(t, src[pos + FixedSize(t)..])
  {
    var w := FixedSize(t);
    var rest := src[pos..];
    var v := DecodeRecord(t, rest[..w]);
    var tail := DecodeRecords(t, src[pos + w..]);
    assert rest[w..] == src[pos + w..];
    DecodeFront(t, rest);
    ConcatAssoc(loaded, [v], tail);
  }

  lemma ConcatAssoc<T>(a: seq<T>, b: seq<T>, c: seq<T>)
    ensures a + (b + c) == (a + b) + c
  {
  }

  /** A buffer holding a whole record decodes to that record's value
      followed by the values of the rest. */
  lemma DecodeFront(t: EntryType, b: seq<byte>)
    requires IsInteger(t) && |b| >= FixedSize(t)
    ensures DecodeRecords(t, b) == [DecodeRecord(t, b[..FixedSize(t)])] + DecodeRecords(t, b[FixedSize(t)..])
  {
  }

  lemma LoadStepEncode(t: EntryType, src: seq<byte>, pos: nat, loaded: seq<Value>, v: Value)
    requires IsInteger(t) && pos + FixedSize(t) <= |src|
    requires AllFit(t, loaded) && EncodeRecords(t, loaded) == src[..pos]
    requires v == DecodeRecord(t, src[pos..][..FixedSize(t)])
    ensures AllFit(t, loaded + [v]) && EncodeRecords(t, loaded + [v]) == src[..pos + FixedSize(t)]
  {
    var w := FixedSize(t);
    var r := src[pos..][..w];
    RecordRoundTrip(t, v, r);
    EncodeRecordsAppend(t, loaded, v);
    assert src[..pos + w] == src[..pos] + r;
  }

  lemma LoadStart(t: EntryType, src: seq<byte>, entries: map<Index, Entry>)
    requires IsInteger(t)
    ensures LoadedState(t, src, 0, [], entries, entries)
  {
    assert src[..0] == [] && src[0..] == src;
  }

  /** Loading stops at the end of the input or at a partial record: the
      loaded values are all the complete records, and re-encoding them gives
      back the consumed prefix, followed by fewer than fixedSize() bytes. */
  lemma LoadEnd(t: EntryType, src: seq<byte>, pos: nat, idxs: seq<Index>,
                before: map<Index, Entry>, entries: map<Index, Entry>)
    requires LoadedState(t, src, pos, idxs, before, entries) && |src| - pos < FixedSize(t)
    ensures Extends(before, entries) && KeysIn(idxs, entries)
    ensures forall i :: 0 <= i < |idxs| ==> idxs[i] !in before && entries[idxs[i]].refCount == 0
    ensures ValuesOf(idxs, entries) == DecodeRecords(t, src)
    ensures pos == |src| ==> EncodeRecords(t, DecodeRecords(t, src)) == src
    ensures pos < |src| ==>
              var enc := EncodeRecords(t, DecodeRecords(t, src));
              |enc| < |src| < |enc| + FixedSize(t) && src[..|enc|] == enc
  {
    assert src[..|src|] == src;
  }

  /** The state while loading `src`: the records before `pos` were loaded,
      in order, into fresh entries (absent from `before`) listed in `idxs`. */
  ghost predicate LoadedState(t: EntryType, src: seq<byte>, pos: nat, idxs: seq<Index>,
                              before: map<Index, Entry>, entries: map<Index, Entry>)
  {
    && IsInteger(t) && pos <= |src|
    && Extends(before, entries)
    && KeysIn(idxs, entries)
    && (forall i :: 0 <= i < |idxs| ==> idxs[i] !in before && entries[idxs[i]].refCount == 0)
    && AllFit(t, ValuesOf(idxs, entries))
    && EncodeRecords(t, ValuesOf(idxs, entries)) == src[..pos]
    && DecodeRecords(t, src) == ValuesOf(idxs, entries) + DecodeRecords(t, src[pos..])
  }

  /** The record about to be loaded is above the value loaded last, when the
      records of the input increase. */
  lemma LoadOrder(t: EntryType, src: seq<byte>, pos: nat, idxs: seq<Index>,
                  before: map<Index, Entry>, entries: map<Index, Entry>)
    requires LoadedState(t, src, pos, idxs, before, entries) && pos + FixedSize(t) <= |src|
    requires StrictlyIncreasing(DecodeRecords(t, src))
    ensures idxs != [] ==> Less(entries[idxs[|idxs| - 1]].value, DecodeRecord(t, src[pos..][..FixedSize(t)]))
  {
    LoadStep(t, src, pos, ValuesOf(idxs, entries));
  }

  /** Allocating the next record's value keeps the loading state, one record on. */
  lemma LoadAdvance(t: EntryType, src: seq<byte>, pos: nat, idxs: seq<Index>,
                    before: map<Index, Entry>, entries: map<Index, Entry>, newIdx: Index, entries': map<Index, Entry>)
    requires LoadedState(t, src, pos, idxs, before, entries) && pos + FixedSize(t) <= |src|
    requires newIdx !in entries
    requires entries' == entries[newIdx := Entry(DecodeRecord(t, src[pos..][..FixedSize(t)]), 0)]
    ensures LoadedState(t, src, pos + FixedSize(t), idxs + [newIdx], before, entries')
  {
    var loaded := ValuesOf(idxs, entries);
    LoadStep(t, src, pos, loaded);
    ValuesOfExtends(idxs, entries, entries');
    ValuesOfAppend(idxs, entries', newIdx);
  }

  /** Sorted consecutive keys change folded class exactly where the folded
      comparison is strictly below zero: foldedChange's assertion holds for
      every pair of neighbours in a sorted tree. */
  lemma FoldedChangeOnNeighbours(keys: seq<Index>, entries: map<Index, Entry>, i: nat)
    requires Sorted(keys, entries) && 0 < i < |keys|
    ensures CompareFolded(entries[keys[i - 1]].value, entries[keys[i]].value) <= 0
    ensures FoldedLess(entries[keys[i - 1]].value, entries[keys[i]].value) <==>
              forall j :: 0 <= j < i ==> !FoldedEqual(entries[keys[j]].value, entries[keys[i]].value)
  {
    if FoldedLess(entries[keys[i - 1]].value, entries[keys[i]].value) {
      forall j | 0 <= j < i
        ensures !FoldedEqual(entries[keys[j]].value, entries[keys[i]].value)
      {
        if j < i - 1 {
          assert Less(entries[keys[j]].value, entries[keys[i - 1]].value);
        }
      }
    }
  }

  // ---------------------------------------------------------------------------
  // The enum store
  // ---------------------------------------------------------------------------

  class EnumStore {
    const entryType: EntryType
    const store: ValueStore
    const dict: EnumStoreDictionary
    var valuesMemoryUsage: MemoryUsage
    var valuesAddressSpaceUsage: AddressSpace

    ghost predicate Valid()
      reads this, store, dict
    {
      && dict.Valid(store)
      && (dict.folded ==> HasFold(entryType))
      && ValuesValid()
    }

    /** The value store is valid and holds only values of the entry type. */
    ghost predicate ValuesValid()
      reads this, store
    {
      store.Valid() && forall k :: k in store.entries ==> Fits(entryType, store.entries[k].value)
    }

    /** EnumStoreT(has_postings): a dictionary with posting references when
        asked for, folded when the entry type has a folded comparator. */
    constructor (entryType: EntryType, hasPostings: bool)
      ensures Valid() && fresh(store) && fresh(dict)
      ensures this.entryType == entryType
      ensures dict.hasData == hasPostings && dict.folded == (hasPostings && HasFold(entryType))
      ensures store.entries == map[] && dict.keys == [] && dict.frozenKeys == []
      ensures valuesAddressSpaceUsage == AddressSpace(0, 0, U32Modulus)
    {
      this.entryType := entryType;
      store := new ValueStore();
      dict := new EnumStoreDictionary(hasPostings, hasPostings && HasFold(entryType));
      valuesMemoryUsage := MemoryUsage(0, 0, 0, 0);
      valuesAddressSpaceUsage := AddressSpace(0, 0, U32Modulus);
    }

    /** getRefCount(idx). */
    method GetRefCount(idx: Index) returns (r: u32)
      requires Valid() && idx in store.entries
      ensures r == store.entries[idx].refCount
    {
      r := store.RefCount(idx);
    }

    /** incRefCount(idx): one more reference, modulo 2^32. */
    method IncRefCount(idx: Index)
      requires Valid() && idx in store.entries
      modifies store
      ensures Valid() && store.held == old(store.held)
      ensures store.entries == old(store.entries)[idx := Entry(old(store.entries)[idx].value, IncU32(old(store.entries)[idx].refCount))]
    {
      ghost var before := store.entries;
      store.SetRefCount(idx, IncU32(store.RefCount(idx)));
      dict.ValidForExtends(before, store.entries);
    }

    /** decRefCount(idx): one reference less, modulo 2^32. */
    method DecRefCount(idx: Index)
      requires Valid() && idx in store.entries
      modifies store
      ensures Valid() && store.held == old(store.held)
      ensures store.entries == old(store.entries)[idx := Entry(old(store.entries)[idx].value, DecU32(old(store.entries)[idx].refCount))]
    {
      ghost var before := store.entries;
      store.SetRefCount(idx, DecU32(store.RefCount(idx)));
      dict.ValidForExtends(before, store.entries);
    }

    /** fixupRefCount(idx, refCount): the count becomes exactly `refCount`. */
    method FixupRefCount(idx: Index, refCount: u32)
      requires Valid() && idx in store.entries
      modifies store
      ensures Valid() && store.held == old(store.held)
      ensures store.entries == old(store.entries)[idx := Entry(old(store.entries)[idx].value, refCount)]
    {
      ghost var before := store.entries;
      store.SetRefCount(idx, refCount);
      dict.ValidForExtends(before, store.entries);
    }

    /** getNumUniques(): the dictionary's key count, truncated to u32. */
    method GetNumUniques() returns (n: u32)
      ensures n == |dict.keys| % U32Modulus
      ensures |dict.keys| < U32Modulus ==> n == |dict.keys|
    {
      n := dict.GetNumUniques();
    }

    /** getValue(idx, value): false and `value` untouched for the invalid
        reference, otherwise true and the stored value. */
    method GetValue(idx: Index, value: Value) returns (ok: bool, valueOut: Value)
      requires Valid() && (IsValid(idx) ==> idx in store.entries)
      ensures ok <==> IsValid(idx)
      ensures !ok ==> valueOut == value
      ensures ok ==> valueOut == store.entries[idx].value
    {
      if !IsValid(idx) {
        return false, value;
      }
      return true, store.entries[idx].value;
    }

    /** writeValues(writer, idxs): one record of sizeof(T) bytes per
        reference, in the given order. */
    method WriteValues(idxs: seq<Index>) returns (bytes: seq<byte>)
      requires Valid() && IsInteger(entryType) && KeysIn(idxs, store.entries)
      ensures AllFit(entryType, ValuesOf(idxs, store.entries))
      ensures bytes == EncodeRecords(entryType, ValuesOf(idxs, store.entries))
      ensures |bytes| == FixedSize(entryType) * |idxs|
      ensures DecodeRecords(entryType, bytes) == ValuesOf(idxs, store.entries)
    {
      var entries := store.entries;
      bytes := [];
      var i := 0;
      while i < |idxs|
        invariant 0 <= i <= |idxs|
        invariant KeysIn(idxs[..i], entries) && AllFit(entryType, ValuesOf(idxs[..i], entries))
        invariant bytes == EncodeRecords(entryType, ValuesOf(idxs[..i], entries))
      {
        var v := entries[idxs[i]].value;
        assert idxs[..i + 1] == idxs[..i] + [idxs[i]];
        ValuesOfAppend(idxs[..i], entries, idxs[i]);
        EncodeRecordsAppend(entryType, ValuesOf(idxs[..i], entries), v);
        bytes := bytes + EncodeRecord(entryType, v);
        i := i + 1;
      }
      assert idxs[..i] == idxs;
      RecordsRoundTrip(entryType, ValuesOf(idxs, entries));
    }

    /** foldedChange(idx1, idx2): asserts that the first value is not above
        the second in the folded order and tells whether it is strictly below. */
    method FoldedChange(idx1: Index, idx2: Index) returns (changed: bool)
      requires Valid() && idx1 in store.entries && idx2 in store.entries
      requires CompareFolded(store.entries[idx1].value, store.entries[idx2].value) <= 0
      ensures changed <==> !FoldedEqual(store.entries[idx1].value, store.entries[idx2].value)
    {
      var cmpres := CompareFolded(store.entries[idx1].value, store.entries[idx2].value);
      changed := cmpres < 0;
    }

    /** findEnum(value, e): the handle of the equal key in the frozen view. */
    method FindEnum(value: Value, e: Index) returns (found: bool, eOut: Index)
      requires Valid()
      ensures found <==> HasValue(dict.frozenKeys, store.entries, value)
      ensures found ==> eOut in dict.frozenKeys && store.entries[eOut].value == value
      ensures !found ==> eOut == e
    {
      var f, idx := dict.FindFrozenIndex(store, value, InvalidIndex);
      if f {
        return true, idx;
      }
      return false, e;
    }

    /** findFoldedEnums(value): every key of the frozen view folded-equal to
        the value, in dictionary order. */
    method FindFoldedEnums(value: Value) returns (result: seq<Index>)
      requires Valid()
      ensures result == Matching(dict.frozenKeys, store.entries, Folded, value)
      ensures forall k :: k in result ==> k in dict.frozenKeys && FoldedEqual(store.entries[k].value, value)
    {
      result := dict.FindMatchingEnums(store, Folded, value);
      MatchingMembers(dict.frozenKeys, store.entries, Folded, value);
    }

    /** findIndex(value, idx): the key holding the value in the live tree. */
    method FindIndex(value: Value, idx: Index) returns (found: bool, idxOut: Index)
      requires Valid()
      ensures found <==> HasValue(dict.keys, store.entries, value)
      ensures found ==> idxOut in dict.keys && store.entries[idxOut].value == value
      ensures !found ==> idxOut == idx
    {
      found, idxOut := dict.FindIndex(store, value, idx);
    }

    /** addEnum(value, newIdx): the key already holding the value, or a new
        entry allocated for it and inserted in the tree. */
    method AddEnum(value: Value) returns (newIdx: Index)
      requires Valid() && Fits(entryType, value)
      modifies store, dict
      ensures Valid()
      ensures newIdx in dict.keys && store.entries[newIdx].value == value
      ensures forall k :: k in old(dict.keys) ==> k in dict.keys
      ensures dict.frozenKeys == old(dict.frozenKeys) && store.held == old(store.held)
      ensures HasValue(old(dict.keys), old(store.entries), value) ==>
                store.entries == old(store.entries) && dict.keys == old(dict.keys) && dict.data == old(dict.data)
      ensures !HasValue(old(dict.keys), old(store.entries), value) ==>
                var p := LowerBound(old(dict.keys), old(store.entries), Exact, value);
                && newIdx !in old(store.entries)
                && store.entries == old(store.entries)[newIdx := Entry(value, 0)]
                && dict.keys == InsertAt(old(dict.keys), p, newIdx)
                && dict.data == AddedData(old(dict.data), p,
                                          AddHandOff(dict.folded, old(dict.keys), old(dict.data), old(store.entries), p, value))
    {
      var inserted;
      newIdx, inserted := dict.Add(store, value);
    }

    /** freeUnusedEnums(): every key with reference count 0 leaves the tree
        and is put on hold. */
    method FreeUnusedEnums()
      requires Valid()
      modifies store, dict
      ensures Valid()
      ensures store.entries == old(store.entries) && dict.frozenKeys == old(dict.frozenKeys)
      ensures forall k :: k in old(dict.keys) ==> (k in dict.keys <==> store.entries[k].refCount != 0)
      ensures dict.keys == Without(old(dict.keys), ZeroRefKeys(old(dict.keys), store.entries))
      ensures store.held == old(store.held) + ZeroRefKeys(old(dict.keys), store.entries)
      ensures PostingsCarried(dict.folded, old(dict.keys), old(dict.data), dict.keys, dict.data, store.entries)
    {
      dict.FreeUnusedEnums(store);
    }

    /** freeUnusedEnums(toRemove): only candidates with reference count 0
        leave the tree. */
    method FreeUnusedEnumsOf(toRemove: set<Index>)
      requires Valid()
      requires forall ref :: ref in toRemove ==> ref in store.entries
      requires forall ref :: ref in toRemove && store.entries[ref].refCount == 0 ==> ref in dict.keys
      modifies store, dict
      ensures Valid()
      ensures store.entries == old(store.entries) && dict.frozenKeys == old(dict.frozenKeys)
      ensures dict.keys == Without(old(dict.keys), ZeroRefs(toRemove, store.entries))
      ensures store.held == old(store.held) + ZeroRefs(toRemove, store.entries)
      ensures PostingsCarried(dict.folded, old(dict.keys), old(dict.data), dict.keys, dict.data, store.entries)
    {
      dict.FreeUnusedEnumsOf(toRemove, store);
    }

    /** load_unique_value(src, available, idx): -1 and nothing allocated when
        fewer than sizeof(T) bytes are left; otherwise one entry allocated for
        the record at the front and sizeof(T) returned. The loaded value must
        be above the previously loaded one. */
    method LoadUniqueValue(src: seq<byte>, idx: Index) returns (sz: int, newIdx: Index)
      requires ValuesValid() && IsInteger(entryType)
      requires IsValid(idx) ==> idx in store.entries
      requires IsValid(idx) && |src| >= FixedSize(entryType) ==>
                 Less(store.entries[idx].value, DecodeRecord(entryType, src[..FixedSize(entryType)]))
      modifies store
      ensures ValuesValid() && store.held == old(store.held)
      ensures Extends(old(store.entries), store.entries)
      ensures |src| < FixedSize(entryType) ==> sz == -1 && newIdx == idx && store.entries == old(store.entries)
      ensures |src| >= FixedSize(entryType) ==>
                && sz == FixedSize(entryType) && IsValid(newIdx) && newIdx !in old(store.entries)
                && store.entries == old(store.entries)[newIdx := Entry(DecodeRecord(entryType, src[..FixedSize(entryType)]), 0)]
    {
      var w := FixedSize(entryType);
      if |src| < w {
        return -1, idx;
      }
      var value := DecodeRecord(entryType, src[..w]);
      newIdx := store.Allocate(value);
      sz := w;
    }

    /** One round of load_unique_values_internal's loop. */
    method LoadNext(src: seq<byte>, pos: nat, idxs: seq<Index>, idx1: Index, ghost before: map<Index, Entry>)
      returns (sz: int, newIdx: Index)
      requires ValuesValid() && LoadedState(entryType, src, pos, idxs, before, store.entries) && pos < |src|
      requires StrictlyIncreasing(DecodeRecords(entryType, src))
      requires idxs == [] ==> idx1 == InvalidIndex
      requires idxs != [] ==> idx1 == idxs[|idxs| - 1]
      modifies store
      ensures ValuesValid() && store.held == old(store.held)
      ensures sz < 0 ==> sz == -1 && |src| - pos < FixedSize(entryType) && LoadedState(entryType, src, pos, idxs, before, store.entries)
      ensures sz >= 0 ==> sz == FixedSize(entryType) && pos + sz <= |src| &&
                          LoadedState(entryType, src, pos + sz, idxs + [newIdx], before, store.entries)
    {
      var w := FixedSize(entryType);
      var rest := src[pos..];
      ghost var entriesBefore := store.entries;
      if |rest| >= w {
        LoadOrder(entryType, src, pos, idxs, before, store.entries);
      }
      sz, newIdx := LoadUniqueValue(rest, idx1);
      if sz >= 0 {
        LoadAdvance(entryType, src, pos, idxs, before, entriesBefore, newIdx, store.entries);
      }
    }

    /** load_unique_values_internal(src, available, idx): reads records until
        the input is used up; a trailing partial record makes the result -1.
        One fresh entry is appended per complete record, in input order, and
        re-encoding the loaded values gives back the bytes consumed. */
    method LoadUniqueValuesInternal(src: seq<byte>) returns (sz: int, idxs: seq<Index>)
      requires ValuesValid() && IsInteger(entryType)
      requires StrictlyIncreasing(DecodeRecords(entryType, src))
      modifies store
      ensures ValuesValid() && store.held == old(store.held)
      ensures Extends(old(store.entries), store.entries)
      ensures KeysIn(idxs, store.entries)
      ensures forall i :: 0 <= i < |idxs| ==> idxs[i] !in old(store.entries) && store.entries[idxs[i]].refCount == 0
      ensures ValuesOf(idxs, store.entries) == DecodeRecords(entryType, src)
      ensures sz == |src| || sz == -1
      ensures sz == |src| ==> EncodeRecords(entryType, DecodeRecords(entryType, src)) == src
      ensures sz == -1 ==>
                var enc := EncodeRecords(entryType, DecodeRecords(entryType, src));
                |enc| < |src| < |enc| + FixedSize(entryType) && src[..|enc|] == enc
    {
      var left := |src|;
      var pos := 0;
      var idx1 := InvalidIndex;
      idxs := [];
      LoadStart(entryType, src, store.entries);
      while left > 0
        invariant pos + left == |src| && store.held == old(store.held)
        invariant ValuesValid()
        invariant LoadedState(entryType, src, pos, idxs, old(store.entries), store.entries)
        invariant idxs == [] ==> idx1 == InvalidIndex
        invariant idxs != [] ==> idx1 == idxs[|idxs| - 1]
        decreases left
      {
        var s, i1 := LoadNext(src, pos, idxs, idx1, old(store.entries));
        if s < 0 {
          sz := s;
          break;
        }
        pos := pos + s;
        left := left - s;
        idxs := idxs + [i1];
        idx1 := i1;
      }
      LoadEnd(entryType, src, pos, idxs, old(store.entries), store.entries);
      if left == 0 {
        sz := |src| - left;
      }
    }

    /** load_unique_values(src, available, idx): loads the records and, only
        when no partial record was met, builds the tree from the loaded keys. */
    method LoadUniqueValues(src: seq<byte>) returns (sz: int, idxs: seq<Index>)
      requires Valid() && IsInteger(entryType)
      requires StrictlyIncreasing(DecodeRecords(entryType, src))
      modifies store, dict
      ensures Valid() && KeysIn(idxs, store.entries)
      ensures Extends(old(store.entries), store.entries) && store.held == old(store.held)
      ensures forall i :: 0 <= i < |idxs| ==> idxs[i] !in old(store.entries) && store.entries[idxs[i]].refCount == 0
      ensures ValuesOf(idxs, store.entries) == DecodeRecords(entryType, src)
      ensures sz == |src| || sz == -1
      ensures sz >= 0 ==> dict.keys == idxs && forall i :: 0 <= i < |dict.data| ==> !IsValid(dict.data[i])
      ensures sz < 0 ==> dict.keys == old(dict.keys) && dict.data == old(dict.data)
      ensures dict.frozenKeys == old(dict.frozenKeys)
    {
      ghost var before := store.entries;
      sz, idxs := LoadUniqueValuesInternal(src);
      dict.ValidForExtends(before, store.entries);
      if sz >= 0 {
        IncreasingIsSorted(idxs, store.entries);
        dict.Build(store, idxs);
      }
    }

    /** update_stat(): caches the usage of the values (as reported by the
        data store) and reports it merged with the dictionary's usage. */
    method UpdateStat(valuesMemory: MemoryUsage, valuesAddressSpace: AddressSpace, dictMemory: MemoryUsage)
      returns (total: MemoryUsage)
      modifies this`valuesMemoryUsage, this`valuesAddressSpaceUsage
      ensures valuesMemoryUsage == valuesMemory && valuesAddressSpaceUsage == valuesAddressSpace
      ensures total.usedBytes == valuesMemory.usedBytes + dictMemory.usedBytes
      ensures total.deadBytes == valuesMemory.deadBytes + dictMemory.deadBytes
      ensures total.allocatedBytes == valuesMemory.allocatedBytes + dictMemory.allocatedBytes
      ensures total.allocatedBytesOnHold == valuesMemory.allocatedBytesOnHold + dictMemory.allocatedBytesOnHold
    {
      valuesMemoryUsage := valuesMemory;
      valuesAddressSpaceUsage := valuesAddressSpace;
      total := Merge(valuesMemoryUsage, dictMemory);
    }

    /** consider_compact(strategy): decides each dimension on the usage cached
        by the last update_stat and asks compact_worst for the dimensions that
        qualify; no request when neither does. */
    method ConsiderCompact(strategy: CompactionStrategy) returns (r: Option<CompactRequest>)
      ensures var compactMemory := ShouldCompact(valuesMemoryUsage.usedBytes, valuesMemoryUsage.deadBytes,
                                                 DeadBytesSlack, strategy.maxDeadBytesRatio);
              var compactAddressSpace := ShouldCompact(valuesAddressSpaceUsage.used, valuesAddressSpaceUsage.dead,
                                                       DeadAddressSpaceSlack, strategy.maxDeadAddressSpaceRatio);
              && (r.None? <==> !compactMemory && !compactAddressSpace)
              && (r.Some? ==> r.value.compactMemory == compactMemory && r.value.compactAddressSpace == compactAddressSpace)
      ensures valuesMemoryUsage.deadBytes < DeadBytesSlack && valuesAddressSpaceUsage.dead < DeadAddressSpaceSlack ==> r.None?
    {
      var usedBytes := valuesMemoryUsage.usedBytes;
      var deadBytes := valuesMemoryUsage.deadBytes;
      var usedAddressSpace := valuesAddressSpaceUsage.used;
      var deadAddressSpace := valuesAddressSpaceUsage.dead;
      var compactMemory := deadBytes >= DeadBytesSlack
                           && (usedBytes as real) * strategy.maxDeadBytesRatio < deadBytes as real;
      var compactAddressSpace := deadAddressSpace >= DeadAddressSpaceSlack
                                 && (usedAddressSpace as real) * strategy.maxDeadAddressSpaceRatio < deadAddressSpace as real;
      if compactMemory || compactAddressSpace {
        return Some(CompactWorst(compactMemory, compactAddressSpace));
      }
      return None;
    }

    /** freezeTree(): readers now see the tree as it is. */
    method FreezeTree()
      modifies dict`frozenKeys
      ensures dict.frozenKeys == dict.keys
    {
      dict.Freeze();
    }
  }

  /** Every reference Matching returns is a key of the tree that compares
      equal to the probe. */
  lemma {:induction false} MatchingMembers(keys: seq<Index>, entries: map<Index, Entry>, c: Cmp, probe: Value)
    requires KeysIn(keys, entries)
    ensures forall k :: k in Matching(keys, entries, c, probe) ==> k in keys && CmpEqual(c, entries[k].value, probe)
  {
    if keys != [] {
      MatchingMembers(keys[1..], entries, c, probe);
    }
  }

  // ---------------------------------------------------------------------------
  // NonEnumeratedLoader
  // ---------------------------------------------------------------------------

  /** Loads an enum store from a save file without enum indexes: values are
      allocated one by one with their posting index, then the tree is built
      from them in one go. */
  class NonEnumeratedLoader {
    const enumStore: EnumStore
    var refs: seq<Index>
    var payloads: seq<u32>

    ghost predicate Valid()
      reads this, enumStore, enumStore.store, enumStore.dict
    {
      && enumStore.Valid()
      && |refs| == |payloads|
      && KeysIn(refs, enumStore.store.entries)
    }

    constructor (enumStore: EnumStore)
      requires enumStore.Valid()
      ensures Valid() && this.enumStore == enumStore && refs == [] && payloads == []
    {
      this.enumStore := enumStore;
      refs := [];
      payloads := [];
    }

    /** insert(value, posting_idx): a fresh entry; its reference and the
        posting index are appended side by side. */
    method Insert(value: Value, postingIdx: u32) returns (newRef: Index)
      requires Valid() && Fits(enumStore.entryType, value)
      modifies this, enumStore.store
      ensures Valid()
      ensures refs == old(refs) + [newRef] && payloads == old(payloads) + [postingIdx]
      ensures IsValid(newRef) && newRef !in old(enumStore.store.entries)
      ensures enumStore.store.entries == old(enumStore.store.entries)[newRef := Entry(value, 0)]
      ensures enumStore.store.held == old(enumStore.store.held)
    {
      ghost var before := enumStore.store.entries;
      newRef := enumStore.store.Allocate(value);
      enumStore.dict.ValidForExtends(before, enumStore.store.entries);
      refs := refs + [newRef];
      payloads := payloads + [postingIdx];
    }

    /** set_ref_count_for_last_value(ref_count): only the last inserted entry
        changes; it is asserted that one was inserted. */
    method SetRefCountForLastValue(refCount: u32)
      requires Valid() && |refs| > 0
      modifies enumStore.store
      ensures Valid()
      ensures var last := refs[|refs| - 1];
              enumStore.store.entries == old(enumStore.store.entries)[last := Entry(old(enumStore.store.entries)[last].value, refCount)]
      ensures enumStore.store.held == old(enumStore.store.held)
    {
      var last := refs[|refs| - 1];
      ghost var before := enumStore.store.entries;
      enumStore.store.SetRefCount(last, refCount);
      enumStore.dict.ValidForExtends(before, enumStore.store.entries);
    }

    /** build_dictionary(): the tree becomes the inserted references with
        their posting indexes; the references must have been inserted in
        value order. */
    method BuildDictionary()
      requires Valid() && Sorted(refs, enumStore.store.entries)
      requires enumStore.dict.folded ==> PostingsAtRunHeads(refs, payloads, enumStore.store.entries)
      modifies enumStore.dict
      ensures Valid()
      ensures enumStore.dict.keys == refs && enumStore.dict.frozenKeys == old(enumStore.dict.frozenKeys)
      ensures enumStore.dict.hasData ==> enumStore.dict.data == payloads
      ensures !enumStore.dict.hasData ==> forall i :: 0 <= i < |enumStore.dict.data| ==> !IsValid(enumStore.dict.data[i])
    {
      enumStore.dict.BuildWithPayload(enumStore.store, refs, payloads);
    }
  }

  // ---------------------------------------------------------------------------
  // BatchUpdater
  // ---------------------------------------------------------------------------

  /** Collects the references that may have become unused during a batch of
      changes, and frees those still unused on commit. */
  class BatchUpdater {
    const enumStore: EnumStore
    var possiblyUnused: set<Index>

    ghost predicate Valid()
      reads this, enumStore, enumStore.store, enumStore.dict
    {
      && enumStore.Valid()
      && forall k :: k in possiblyUnused ==> k in enumStore.dict.keys
    }

    constructor (enumStore: EnumStore)
      requires enumStore.Valid()
      ensures Valid() && this.enumStore == enumStore && possiblyUnused == {}
    {
      this.enumStore := enumStore;
      possiblyUnused := {};
    }

    /** insert(value): adds the value and always records its reference. */
    method Insert(value: Value) returns (idx: Index)
      requires Valid() && Fits(enumStore.entryType, value)
      modifies this, enumStore.store, enumStore.dict
      ensures Valid()
      ensures possiblyUnused == old(possiblyUnused) + {idx}
      ensures idx in enumStore.dict.keys && enumStore.store.entries[idx].value == value
      ensures enumStore.dict.frozenKeys == old(enumStore.dict.frozenKeys)
      ensures enumStore.store.held == old(enumStore.store.held)
      ensures HasValue(old(enumStore.dict.keys), old(enumStore.store.entries), value) ==>
                && enumStore.store.entries == old(enumStore.store.entries)
                && enumStore.dict.keys == old(enumStore.dict.keys) && enumStore.dict.data == old(enumStore.dict.data)
      ensures !HasValue(old(enumStore.dict.keys), old(enumStore.store.entries), value) ==>
                var p := LowerBound(old(enumStore.dict.keys), old(enumStore.store.entries), Exact, value);
                && idx !in old(enumStore.store.entries)
                && enumStore.store.entries == old(enumStore.store.entries)[idx := Entry(value, 0)]
                && enumStore.dict.keys == InsertAt(old(enumStore.dict.keys), p, idx)
                && enumStore.dict.data == AddedData(old(enumStore.dict.data), p,
                     AddHandOff(enumStore.dict.folded, old(enumStore.dict.keys), old(enumStore.dict.data),
                                old(enumStore.store.entries), p, value))
    {
      idx := enumStore.AddEnum(value);
      possiblyUnused := possiblyUnused + {idx};
    }

    /** inc_ref_count(idx): one more reference; nothing recorded. */
    method IncRefCount(idx: Index)
      requires Valid() && idx in enumStore.store.entries
      modifies enumStore.store
      ensures Valid() && possiblyUnused == old(possiblyUnused) && idx in enumStore.store.entries
      ensures enumStore.store.entries[idx].refCount == IncU32(old(enumStore.store.entries[idx].refCount))
      ensures enumStore.store.entries ==
                old(enumStore.store.entries)[idx := Entry(old(enumStore.store.entries)[idx].value,
                                                          IncU32(old(enumStore.store.entries)[idx].refCount))]
      ensures enumStore.store.held == old(enumStore.store.held)
    {
      enumStore.IncRefCount(idx);
    }

    /** dec_ref_count(idx): one reference less; the reference is recorded
        exactly when its count reaches 0. */
    method DecRefCount(idx: Index)
      requires Valid() && idx in enumStore.dict.keys
      modifies this, enumStore.store
      ensures Valid()
      ensures idx in enumStore.store.entries
      ensures enumStore.store.entries[idx].refCount == DecU32(old(enumStore.store.entries[idx].refCount))
      ensures enumStore.store.entries ==
                old(enumStore.store.entries)[idx := Entry(old(enumStore.store.entries)[idx].value,
                                                          DecU32(old(enumStore.store.entries)[idx].refCount))]
      ensures enumStore.store.held == old(enumStore.store.held)
      ensures enumStore.store.entries[idx].refCount == 0 ==> possiblyUnused == old(possiblyUnused) + {idx}
      ensures enumStore.store.entries[idx].refCount != 0 ==> possiblyUnused == old(possiblyUnused)
    {
      enumStore.DecRefCount(idx);
      var rc := enumStore.GetRefCount(idx);
      if rc == 0 {
        possiblyUnused := possiblyUnused + {idx};
      }
    }

    /** commit(): frees exactly the recorded references still at count 0. */
    method Commit()
      requires Valid()
      modifies enumStore.store, enumStore.dict
      ensures enumStore.Valid()
      ensures enumStore.dict.keys ==
                Without(old(enumStore.dict.keys), ZeroRefs(possiblyUnused, enumStore.store.entries))
      ensures enumStore.store.held == old(enumStore.store.held) + ZeroRefs(possiblyUnused, enumStore.store.entries)
      ensures enumStore.store.entries == old(enumStore.store.entries)
      ensures enumStore.dict.frozenKeys == old(enumStore.dict.frozenKeys)
      ensures PostingsCarried(enumStore.dict.folded, old(enumStore.dict.keys), old(enumStore.dict.data),
                              enumStore.dict.keys, enumStore.dict.data, enumStore.store.entries)
    {
      enumStore.FreeUnusedEnumsOf(possiblyUnused);
    }
  }
}
