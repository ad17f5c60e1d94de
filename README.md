# Enum store model

A Dafny model of the enum store of Vespa's searchlib attribute layer, and of
the commit step of the single-value string attribute with posting lists.

The enum store is a deduplicating value dictionary for attribute columns:

- It hands out one stable entry reference (`Index`, 0 meaning invalid) per
  distinct value.
- It counts, per entry, how many documents refer to it, as a 32-bit count
  that wraps.
- It removes the entries whose count has dropped to zero.
- It saves and loads its unique values as fixed-size records.
- It decides when the value store should be compacted.

The dictionary is a B-tree of entry references, ordered by the exact
comparator. It is modelled by its in-order key sequence (`keys`), the
parallel sequence of leaf data (`data`, posting-list references, 0 being
null), and a `frozenKeys` snapshot that stands for the readers' frozen view.

The folded dictionary keeps each posting-list reference on the first key of
its run of case-folding-equal keys (`PostingsAtRunHeads`). `Add` and
`Remove` hand that reference over to the neighbouring key.

The commit step of `SingleValueStringPostingAttributeT` works in two loops:

- It reduces the queued changes to one new enum index per document.
- It then turns those into posting-list additions and removals. Each is keyed
  by the first key of the folded run, which is where the posting list lives.

A value is a concrete pair of integers, `Value(folded, tieBreak)`, that
stands for its position in the comparators' orders:

- The exact order compares `folded` first, then `tieBreak`.
- The folded order compares `folded` only.
- Integer values carry their number in `folded` and have `tieBreak` 0.

The shape of the string orders is an assumption. For strings, `folded` ranks
the case-folded form, and `tieBreak` ranks the exact bytes among strings with
the same folded form. The comparators themselves (`enumcomparator.h`) are
not part of this model.

A record is the little-endian two's-complement encoding of an integer entry
type's value.

Modules, one per file: `EnumTypes` (`enum_types.dfy`), `EntryTypes`
(`entry_types.dfy`), `ValueStores` (`value_store.dfy`), `Dictionaries`
(`dictionary.dfy`), `EnumStores` (`enum_store.dfy`),
`StringPostingAttributes` (`string_posting_attribute.dfy`).

## Model

| member | source | states |
|---|---|---|
| EnumTypes.IncU32 | searchlib/src/vespa/searchlib/attribute/enumstore.h:122 | inc_ref_count on a uint32_t: one more, and 2^32-1 wraps to 0 |
| EnumTypes.DecU32 | searchlib/src/vespa/searchlib/attribute/enumstore.h:123 | dec_ref_count on a uint32_t: one less, and 0 wraps to 2^32-1 |
| EnumTypes.IncDecInverse | searchlib/src/vespa/searchlib/attribute/enumstore.h:122-123 | incrementing and decrementing undo each other for every count, across the wrap |
| EnumTypes.Compare | searchlib/src/vespa/searchlib/attribute/enumstore.hpp:68 | the exact comparator: negative exactly when the first value orders first, zero exactly when the values are equal |
| EnumTypes.CompareFolded | searchlib/src/vespa/searchlib/attribute/enumstore.hpp:145 | the folded comparator: negative, zero or positive exactly as the folded forms order |
| EnumTypes.OrdersAgree | searchlib/src/vespa/searchlib/attribute/enum_store_dictionary.cpp:201-210 | the exact order is a strict total order; it never contradicts the folded order and refines it, so folded-equal keys are adjacent in the tree |
| EntryTypes.FixedSize | searchlib/src/vespa/searchlib/attribute/enumstore.h:32-51 | fixedSize is between 1 and 8 bytes for every entry type |
| EntryTypes.NumericSize | searchlib/src/vespa/searchlib/attribute/enumstore.h:36-38 | a numeric type's size is its fixed size and it has no fold |
| EntryTypes.StringSize | searchlib/src/vespa/searchlib/attribute/enumstore.h:48-50 | a string's size is its length plus the terminating byte, and strings have a fold |
| EntryTypes.RecordRoundTrip | searchlib/src/vespa/searchlib/attribute/enumstore.hpp:63-65 | decoding the record written for a value gives the value back, and every record of the right size is the encoding of what it decodes to |
| EntryTypes.EncodeRecordsAppend | searchlib/src/vespa/searchlib/attribute/enumstore.hpp:136-138 | writing one more value appends exactly its record |
| EntryTypes.RecordsRoundTrip | searchlib/src/vespa/searchlib/attribute/enumstore.hpp:35-54 | decoding the concatenated records of a value sequence gives the sequence back |
| EntryTypes.FloatCompareIsTotalOrder | searchlib/src/vespa/searchlib/attribute/enumstore.h:57-74 | NaNs compare equal to each other and below every number; numbers compare as numbers; compare(a,b) == -compare(b,a); the order is transitive |
| ValueStores.ValueStore.Allocate | searchlib/src/vespa/searchlib/attribute/enumstore.hpp:65 | allocate returns a valid reference never used before, holding the value with count 0, and changes no other entry |
| ValueStores.ValueStore.SetRefCount | searchlib/src/vespa/searchlib/attribute/enumstore.h:189 | set_ref_count changes only that entry's count, to the given value |
| ValueStores.ValueStore.FreeUnusedEnum | searchlib/src/vespa/searchlib/attribute/enumstore.hpp:25-33 | the reference is added to `unused` and put on hold exactly when its count is 0; otherwise nothing changes |
| Dictionaries.LowerBound | searchlib/src/vespa/searchlib/attribute/enum_store_dictionary.cpp:201 | lowerBound: every key before the position orders before the probe, and the key at the position does not |
| Dictionaries.LowerBoundOrdered | searchlib/src/vespa/searchlib/attribute/enum_store_dictionary.cpp:201-202 | in a sorted tree no key from the lower bound on orders before the probe |
| Dictionaries.FindPos | searchlib/src/vespa/searchlib/attribute/enum_store_dictionary.cpp:114-119 | find: a position it returns is the lower bound and holds a key equal to the probe |
| Dictionaries.FindPosComplete | searchlib/src/vespa/searchlib/attribute/enum_store_dictionary.cpp:109-120 | find fails exactly when no key compares equal to the probe, and otherwise finds the first such key |
| Dictionaries.MatchingOfRun | searchlib/src/vespa/searchlib/attribute/enum_store_dictionary.cpp:135-146 | the matching scan returns exactly the run of keys equal to the probe, in tree order |
| Dictionaries.LookupIndexFinds | searchlib/src/vespa/searchlib/attribute/singlestringpostattribute.hpp:48-49 | the index looked up for a value is the key holding it when there is one and the invalid index otherwise |
| Dictionaries.LowerBoundFolded | searchlib/src/vespa/searchlib/attribute/singlestringpostattribute.hpp:68 | the folded lower bound depends only on the folded form of the probe |
| Dictionaries.RunHeadIsFirstOfClass | searchlib/src/vespa/searchlib/attribute/singlestringpostattribute.hpp:68 | dict.find with the folded comparator returns a key folded-equal to the given one that orders before every other key of its folded class |
| Dictionaries.RunHeadHoldsPosting | searchlib/src/vespa/searchlib/attribute/enum_store_dictionary.cpp:198-234 | in a folded dictionary the only key of a folded class that can hold a posting reference is the first key of its run |
| Dictionaries.RemoveAtIsWithout | searchlib/src/vespa/searchlib/attribute/enum_store_dictionary.cpp:79-81 | removing the position of a key from a duplicate-free tree is filtering out that key |
| Dictionaries.InsertKeepsSorted | searchlib/src/vespa/searchlib/attribute/enum_store_dictionary.cpp:206-207 | inserting at the lower bound keeps the keys strictly sorted |
| Dictionaries.RemoveKeepsSorted | searchlib/src/vespa/searchlib/attribute/enum_store_dictionary.cpp:228 | removing a key keeps the keys strictly sorted |
| Dictionaries.AddHandOffIsFoldedEqual | searchlib/src/vespa/searchlib/attribute/enum_store_dictionary.cpp:209-217 | the posting reference moves on add exactly when the successor holds a valid one and is folded-equal to the new key |
| Dictionaries.AddKeepsPostingsAtRunHeads | searchlib/src/vespa/searchlib/attribute/enum_store_dictionary.cpp:206-217 | after an insertion with its hand-off, posting references are still only on the first key of each folded run |
| Dictionaries.RemoveKeepsPostingsAtRunHeads | searchlib/src/vespa/searchlib/attribute/enum_store_dictionary.cpp:227-233 | after a removal with its hand-off, posting references are still only on the first key of each folded run |
| Dictionaries.PostingHeldOncePerRun | searchlib/src/vespa/searchlib/attribute/enum_store_dictionary.cpp:209-217 | two keys holding posting references are never folded-equal |
| Dictionaries.RemoveKeepsRunPosting | searchlib/src/vespa/searchlib/attribute/enum_store_dictionary.cpp:229-233 | removing a run head whose successor is in its run hands the posting reference to that successor, which becomes the new run head |
| Dictionaries.LowerBoundUnique | searchlib/src/vespa/searchlib/attribute/enum_store_dictionary.cpp:201 | lowerBound is the one position with only smaller keys before it and no smaller key at it |
| Dictionaries.ClassKeptByMember | searchlib/src/vespa/searchlib/attribute/singlestringpostattribute.hpp:68 | when a folded class has a key, the folded find lands on a key of that class, at or before every member |
| Dictionaries.HolderIsFoldedLowerBound | searchlib/src/vespa/searchlib/attribute/enum_store_dictionary.cpp:209-217 | in a folded tree a key holding a posting reference is where the folded lookup of its own value lands |
| Dictionaries.PostingsCarriedStart | searchlib/src/vespa/searchlib/attribute/enum_store_dictionary.cpp:71-82 | a valid tree relates to itself as a removal batch does: in a folded tree every posting reference already sits on its class's first key |
| Dictionaries.RemoveKeepsHead | searchlib/src/vespa/searchlib/attribute/enum_store_dictionary.cpp:221-234 | after one removal a class that still has a key had one before, and its first key holds the posting reference its first key held before |
| Dictionaries.RemoveCarriesPostings | searchlib/src/vespa/searchlib/attribute/enum_store_dictionary.cpp:221-234 | one removal with its hand-off keeps the relation between the tree before a removal batch and now |
| Dictionaries.EnumStoreDictionary.constructor | searchlib/src/vespa/searchlib/attribute/enum_store_dictionary.cpp:25-30 | a new dictionary is empty and valid for any value store |
| Dictionaries.EnumStoreDictionary.GetNumUniques | searchlib/src/vespa/searchlib/attribute/enum_store_dictionary.cpp:35-40 | getNumUniques is the number of keys, truncated to uint32_t |
| Dictionaries.EnumStoreDictionary.GetPostingDictionary | searchlib/src/vespa/searchlib/attribute/enum_store_dictionary.cpp:162-181 | the posting tree is the dictionary itself: sorted keys with one posting reference each, at run heads when folded |
| Dictionaries.EnumStoreDictionary.HasData | searchlib/src/vespa/searchlib/attribute/enum_store_dictionary.cpp:183-188 | whether the tree carries posting data; a folded dictionary always does, and one without data holds only null references |
| Dictionaries.EnumStoreDictionary.WriteAllValues | searchlib/src/vespa/searchlib/attribute/enum_store_dictionary.cpp:42-62 | the batches concatenate to the keys in tree order; every batch is non-empty and holds at most 1000 keys, and all but the last hold exactly 1000 |
| Dictionaries.EnumStoreDictionary.FindIndex | searchlib/src/vespa/searchlib/attribute/enum_store_dictionary.cpp:109-120 | true exactly when some key holds the probe, and then that key; otherwise the index is left as it was |
| Dictionaries.EnumStoreDictionary.FindFrozenIndex | searchlib/src/vespa/searchlib/attribute/enum_store_dictionary.cpp:122-133 | the same lookup on the frozen view |
| Dictionaries.EnumStoreDictionary.FindMatchingEnums | searchlib/src/vespa/searchlib/attribute/enum_store_dictionary.cpp:135-146 | the keys of the frozen view that compare equal to the probe, in tree order |
| Dictionaries.EnumStoreDictionary.Add | searchlib/src/vespa/searchlib/attribute/enum_store_dictionary.cpp:198-219 | an existing equal key is returned with inserted false and nothing changes; otherwise one fresh entry is allocated and inserted at its sorted position with a null reference, plus the folded hand-off |
| Dictionaries.EnumStoreDictionary.Remove | searchlib/src/vespa/searchlib/attribute/enum_store_dictionary.cpp:221-234 | the key, which must be present, is removed from its position; a valid posting reference passes to a folded-equal successor holding none |
| Dictionaries.EnumStoreDictionary.RemoveUnused | searchlib/src/vespa/searchlib/attribute/enum_store_dictionary.cpp:79-81 | one round of the removal loop: the key leaves the tree, and the postings of the tree the batch started from stay carried |
| Dictionaries.EnumStoreDictionary.RemoveUnusedEnums | searchlib/src/vespa/searchlib/attribute/enum_store_dictionary.cpp:71-82 | the tree loses exactly the keys in `unused`, in ascending reference order with each removal's hand-off: no posting reference appears or leaves its folded class; in a folded tree each class that keeps a key keeps its posting list on its first key; in other trees every remaining key keeps its data; an empty set changes nothing |
| Dictionaries.EnumStoreDictionary.FreeUnusedEnums | searchlib/src/vespa/searchlib/attribute/enum_store_dictionary.cpp:84-95 | exactly the keys with count 0 are removed and put on hold, and every key with a count stays; no posting reference appears or leaves its folded class; in a folded tree each class that keeps a key keeps its posting list on its first key; in other trees every remaining key keeps its data |
| Dictionaries.EnumStoreDictionary.FreeUnusedEnumsOf | searchlib/src/vespa/searchlib/attribute/enum_store_dictionary.cpp:97-107 | only candidates with count 0 are removed and put on hold; no posting reference appears or leaves its folded class; in a folded tree each class that keeps a key keeps its posting list on its first key; in other trees every remaining key keeps its data; no candidates changes nothing |
| Dictionaries.EnumStoreDictionary.Build | searchlib/src/vespa/searchlib/attribute/enumstore.hpp:112-114 | the tree becomes the given sorted references, with null posting references |
| Dictionaries.EnumStoreDictionary.BuildWithPayload | searchlib/src/vespa/searchlib/attribute/enumstore.h:191-193 | the tree becomes the given sorted references; when it carries data the payloads are its posting references, and otherwise all posting references are null |
| Dictionaries.EnumStoreDictionary.Freeze | searchlib/src/vespa/searchlib/attribute/enumstore.h:144 | the frozen view becomes the current tree |
| Dictionaries.EnumStoreDictionary.OnReset | searchlib/src/vespa/searchlib/attribute/enum_store_dictionary.cpp:148-153 | the tree is cleared |
| EnumStores.ShouldCompactMonotone | searchlib/src/vespa/searchlib/attribute/enumstore.hpp:231-234 | below the slack there is no compaction; more dead space, less used space or a lower allowed ratio never turns compaction off |
| EnumStores.NoDeadSpaceNoCompaction | searchlib/src/vespa/searchlib/attribute/enumstore.hpp:218-220 | with no dead bytes or dead address space neither compaction is triggered |
| EnumStores.IncreasingIsSorted | searchlib/src/vespa/searchlib/attribute/enumstore.hpp:107-116 | references loaded from strictly increasing values form a sorted tree, as build requires |
| EnumStores.BatchedWriteIsWholeWrite | searchlib/src/vespa/searchlib/attribute/enum_store_dictionary.cpp:42-62 | writing the batches one after another produces the records of all keys in tree order |
| EnumStores.LoadAdvance | searchlib/src/vespa/searchlib/attribute/enumstore.hpp:44-52 | one loaded record keeps the loop state: the loaded values are the decoded prefix, and the new entry is fresh with count 0 |
| EnumStores.LoadOrder | searchlib/src/vespa/searchlib/attribute/enumstore.hpp:67-69 | with strictly increasing records, the previously loaded value orders before the next one |
| EnumStores.LoadEnd | searchlib/src/vespa/searchlib/attribute/enumstore.hpp:44-53 | when the loop stops the indices hold every decoded record; either the input is consumed exactly or a partial record is left |
| EnumStores.FoldedChangeOnNeighbours | searchlib/src/vespa/searchlib/attribute/enumstore.hpp:141-148 | for neighbouring keys the folded comparison is never positive, and it is negative exactly when the later key starts a new folded run |
| EnumStores.MatchingMembers | searchlib/src/vespa/searchlib/attribute/enumstore.hpp:163-169 | every key findFoldedEnums returns is folded-equal to the probe |
| EnumStores.EnumStore.constructor | searchlib/src/vespa/searchlib/attribute/enumstore.hpp:73-80 | an empty store; its dictionary carries postings when asked and is folded when the type has a fold; the address space limit is 2^32 |
| EnumStores.EnumStore.GetRefCount | searchlib/src/vespa/searchlib/attribute/enumstore.h:120 | the entry's count |
| EnumStores.EnumStore.IncRefCount | searchlib/src/vespa/searchlib/attribute/enumstore.h:122 | only that entry's count changes, by a wrapping increment |
| EnumStores.EnumStore.DecRefCount | searchlib/src/vespa/searchlib/attribute/enumstore.h:123 | only that entry's count changes, by a wrapping decrement |
| EnumStores.EnumStore.FixupRefCount | searchlib/src/vespa/searchlib/attribute/enumstore.h:127-129 | only that entry's count changes, to exactly the given value |
| EnumStores.EnumStore.GetNumUniques | searchlib/src/vespa/searchlib/attribute/enumstore.h:131 | the number of keys of the dictionary, truncated to uint32_t as the dictionary's getNumUniques casts it |
| EnumStores.EnumStore.GetValue | searchlib/src/vespa/searchlib/attribute/enumstore.hpp:118-127 | false with the value untouched for the invalid index; otherwise true with the stored value |
| EnumStores.EnumStore.WriteValues | searchlib/src/vespa/searchlib/attribute/enumstore.hpp:132-139 | one fixed-size record per index, in the given order, and the bytes decode back to those values |
| EnumStores.EnumStore.FoldedChange | searchlib/src/vespa/searchlib/attribute/enumstore.hpp:141-148 | given the asserted non-positive folded comparison, true exactly when the two values are not folded-equal |
| EnumStores.EnumStore.FindEnum | searchlib/src/vespa/searchlib/attribute/enumstore.hpp:150-161 | true exactly when the frozen view holds the value, and then its key; otherwise the handle is untouched |
| EnumStores.EnumStore.FindFoldedEnums | searchlib/src/vespa/searchlib/attribute/enumstore.hpp:163-169 | the run of frozen keys folded-equal to the value |
| EnumStores.EnumStore.FindIndex | searchlib/src/vespa/searchlib/attribute/enumstore.hpp:171-177 | true exactly when the tree holds the value, and then its key; otherwise the index is untouched |
| EnumStores.EnumStore.AddEnum | searchlib/src/vespa/searchlib/attribute/enumstore.hpp:195-202 | for a present value, its existing key, with the tree, its data and the entries unchanged; otherwise a fresh entry with count 0, inserted at its sorted position, with the folded posting hand-off; the frozen view and the hold list are unchanged |
| EnumStores.EnumStore.FreeUnusedEnums | searchlib/src/vespa/searchlib/attribute/enumstore.hpp:179-185 | exactly the keys with count 0 leave the tree and go on hold; the posting lists are carried as in the dictionary's removal |
| EnumStores.EnumStore.FreeUnusedEnumsOf | searchlib/src/vespa/searchlib/attribute/enumstore.hpp:187-193 | exactly the candidates with count 0 leave the tree and go on hold; the posting lists are carried as in the dictionary's removal |
| EnumStores.EnumStore.LoadUniqueValue | searchlib/src/vespa/searchlib/attribute/enumstore.hpp:56-71 | -1 with nothing allocated when fewer bytes than a record remain; otherwise one fresh entry holding the decoded record and the record size |
| EnumStores.EnumStore.LoadNext | searchlib/src/vespa/searchlib/attribute/enumstore.hpp:45-51 | one round of the load loop either stops at a partial record or loads one record and keeps the loop state |
| EnumStores.EnumStore.LoadUniqueValuesInternal | searchlib/src/vespa/searchlib/attribute/enumstore.hpp:35-54 | one fresh index per record, in input order; the result is the whole input length or -1 after a truncated last record |
| EnumStores.EnumStore.LoadUniqueValues | searchlib/src/vespa/searchlib/attribute/enumstore.hpp:107-116 | one fresh entry with count 0 per record, in input order; the tree is built from the loaded indices with null posting references exactly when the result is not negative, and is left alone otherwise |
| EnumStores.EnumStore.UpdateStat | searchlib/src/vespa/searchlib/attribute/enumstore.hpp:204-214 | caches the value store's usage and returns it merged field by field with the dictionary's |
| EnumStores.EnumStore.ConsiderCompact | searchlib/src/vespa/searchlib/attribute/enumstore.hpp:223-239 | compacts memory iff dead bytes reach 0x10000 and exceed used bytes times the ratio, and address space by the same rule independently; nothing when neither holds |
| EnumStores.EnumStore.FreezeTree | searchlib/src/vespa/searchlib/attribute/enumstore.h:144 | the frozen view becomes the current tree |
| EnumStores.NonEnumeratedLoader.constructor | searchlib/src/vespa/searchlib/attribute/enumstore.h:173-179 | empty reference and payload vectors |
| EnumStores.NonEnumeratedLoader.Insert | searchlib/src/vespa/searchlib/attribute/enumstore.h:181-186 | one fresh entry with count 0 and no other entry changed; its reference and the payload are appended in lockstep; the hold list is unchanged |
| EnumStores.NonEnumeratedLoader.SetRefCountForLastValue | searchlib/src/vespa/searchlib/attribute/enumstore.h:187-190 | needs a loaded value and sets only the last one's count; the hold list is unchanged |
| EnumStores.NonEnumeratedLoader.BuildDictionary | searchlib/src/vespa/searchlib/attribute/enumstore.h:191-193 | the tree becomes the loaded references with their payloads as data (null data for a tree without data); the frozen view is unchanged |
| EnumStores.BatchUpdater.constructor | searchlib/src/vespa/searchlib/attribute/enumstore.h:206-209 | no possibly-unused entries yet |
| EnumStores.BatchUpdater.Insert | searchlib/src/vespa/searchlib/attribute/enumstore.h:210-214 | the key is always recorded as possibly unused; the tree, its data and the entries change exactly as in addEnum, and the frozen view and hold list do not change |
| EnumStores.BatchUpdater.IncRefCount | searchlib/src/vespa/searchlib/attribute/enumstore.h:215-217 | only that entry's count changes, going up by one with wrap-around; nothing is recorded and nothing is put on hold |
| EnumStores.BatchUpdater.DecRefCount | searchlib/src/vespa/searchlib/attribute/enumstore.h:218-224 | only that entry's count changes, going down by one with wrap-around; the key is recorded exactly when the count becomes 0, and nothing is put on hold |
| EnumStores.BatchUpdater.Commit | searchlib/src/vespa/searchlib/attribute/enumstore.h:225-227 | exactly the recorded keys with count 0 leave the tree and go on hold; the entries and the frozen view are unchanged; the posting lists are carried as in the dictionary's removal |
| StringPostingAttributes.PrevGeneration | searchlib/src/vespa/searchlib/attribute/singlestringpostattribute.hpp:130 | generation - 1 on uint64_t: one less, and 0 wraps to 2^64-1 |
| StringPostingAttributes.LastClearedDoc | searchlib/src/vespa/searchlib/attribute/singlestringpostattribute.hpp:100-101 | the default value's document is the document of the last CLEARDOC, or stays as it was when there is none |
| StringPostingAttributes.CurrIndicesIsLastChange | searchlib/src/vespa/searchlib/attribute/singlestringpostattribute.hpp:91-107 | after the change loop a document has an entry iff some UPDATE or CLEARDOC names it, and the entry is the index found for its last such change's value (the default value for CLEARDOC) |
| StringPostingAttributes.OtherChangesIgnored | searchlib/src/vespa/searchlib/attribute/singlestringpostattribute.hpp:99-106 | changes of any other type leave currEnumIndices as it would be without them |
| StringPostingAttributes.CurrIndicesAreKeys | searchlib/src/vespa/searchlib/attribute/singlestringpostattribute.hpp:42-52 | when the changed values are in the tree, every new index is a key, and every document in the map was named by a change |
| StringPostingAttributes.SameFoldedClassSameList | searchlib/src/vespa/searchlib/attribute/singlestringpostattribute.hpp:68-74 | a document whose value changes only within its folded class is added to and removed from the same posting list |
| StringPostingAttributes.AddPostingStep | searchlib/src/vespa/searchlib/attribute/singlestringpostattribute.hpp:68-69 | appending a document above all added so far keeps every addition list ascending, exact and non-empty |
| StringPostingAttributes.RemovePostingStep | searchlib/src/vespa/searchlib/attribute/singlestringpostattribute.hpp:72-75 | the same for removal lists |
| StringPostingAttributes.SkipRemoveStep | searchlib/src/vespa/searchlib/attribute/singlestringpostattribute.hpp:72 | a document whose committed index is invalid joins no removal list, and every list stays as it was |
| StringPostingAttributes.AddDocument | searchlib/src/vespa/searchlib/attribute/singlestringpostattribute.hpp:63-75 | one round of makePostingChange extends the posting change by exactly that document |
| StringPostingAttributes.SingleStringPostingAttribute.constructor | searchlib/src/vespa/searchlib/attribute/singlestringpostattribute.hpp:12-18 | a string enum store with postings and an empty tree; every one of the documents has the invalid index, and no changes are queued |
| StringPostingAttributes.SingleStringPostingAttribute.ApplyUpdateValueChange | searchlib/src/vespa/searchlib/attribute/singlestringpostattribute.hpp:42-52 | the document maps to the key holding the change's value, or to the invalid index when there is none |
| StringPostingAttributes.SingleStringPostingAttribute.MakePostingChange | searchlib/src/vespa/searchlib/attribute/singlestringpostattribute.hpp:54-77 | every document is added exactly once, under the run head of its new index; it is removed exactly once, under the run head of its committed index, iff that index is valid; lists ascend and none is empty |
| StringPostingAttributes.SingleStringPostingAttribute.ApplyValueChanges | searchlib/src/vespa/searchlib/attribute/singlestringpostattribute.hpp:79-114 | updatePostings receives a posting change that adds every document named by an UPDATE or CLEARDOC under the run head of the index of its last assigned value, and removes it under the run head of its committed index when that is valid; then the base applyValueChanges runs; the default value is left on the last CLEARDOC's document |
| StringPostingAttributes.SingleStringPostingAttribute.RemoveOldGenerations | searchlib/src/vespa/searchlib/attribute/singlestringpostattribute.hpp:116-122 | the base attribute trims first, then the posting lists |
| StringPostingAttributes.SingleStringPostingAttribute.OnGenerationChange | searchlib/src/vespa/searchlib/attribute/singlestringpostattribute.hpp:124-131 | the posting lists freeze, then the base hook runs, then hold lists transfer at generation - 1 |
| StringPostingAttributes.SingleStringPostingAttribute.FreezeEnumDictionary | searchlib/src/vespa/searchlib/attribute/singlestringpostattribute.hpp:28-33 | the enum store's frozen view becomes its current tree |

## Left out

- The B-tree node layout, node allocators and explicit template instantiations: the tree is its in-order key and data sequences.
- Concurrency: frozen views are a snapshot taken by `Freeze`. Hold lists are a set of held references. `transferHoldLists`, `trimHoldLists` and `thaw` have no further effect.
- `compact_worst` and the unique store's compaction are not part of this model. `ConsiderCompact` returns the request it would pass on.
- The value store's and dictionary's own memory accounting are not part of this model. `UpdateStat` takes their figures as parameters.
- `BufferWriter` is not part of this model: written bytes are returned as a sequence.
- The string comparators in `enumcomparator.h` are not part of this model. The exact order is assumed to refine the folded order, as `Value` encodes it.
- Byte order: `writeValues` and `load_unique_value` copy the value's in-memory bytes. The model writes little-endian records, so it assumes a little-endian host.
- IEEE floating point: `FloatCompare` works over an abstract NaN-or-number type. Float entry types have no record layout in the model, so loading and writing are modelled for the integer entry types only.
- The string specialisations of loading and writing values (string allocator, NUL-terminated records) are left out. For strings only the entry size and the comparator's order are modelled.
- `fixupRefCounts(hist)` over a histogram vector is left out; the single-entry `FixupRefCount` is modelled.
- The base unique-store dictionary's own `add`/`remove`/`build` and `make_enum_store_dictionary` are not part of this model. The folded variant's `Add`/`Remove` stand for both, with the hand-off switched off when the dictionary is not folded.
- EnumStores.EnumStore.ConsiderCompact: the double-precision ratio products are exact reals, so rounding of `used * ratio` is not modelled.
- EnumStores.EnumStore.LoadUniqueValue: the assert that the previous value orders strictly before the new one is a precondition (strictly increasing records), not a checked failure.
- Dictionaries.EnumStoreDictionary.Remove: the position of the removed key is a ghost result, and the lower-bound assert is a precondition.
- StringPostingAttributes.SingleStringPostingAttribute.ApplyValueChanges: `updatePostings` and the base attribute's `applyValueChanges` are only recorded as calls in `trace`. The lookup of the old index in the change loop is computed but unused in the source and is not modelled. The queued changes and committed indices are fields that the base attribute would fill.
- StringPostingAttributes.SingleStringPostingAttribute.ApplyValueChanges: requires the changed values to be in the tree, as the updater inserts them before the commit; a value missing from the tree would make the folded find undefined.
- `getSearch`, `mergeMemoryStats` and the destructor of the string posting attribute are outside the commit step and are left out.
