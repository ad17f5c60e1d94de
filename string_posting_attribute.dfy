/** The commit step of a single-value string attribute with posting lists
    (SingleValueStringPostingAttributeT): the batch of document changes is
    reduced to one new enum index per document, and each document is then
    added to the posting list of its new value's folded class and removed
    from that of its previously committed value. The posting lists, the base
    attribute and the hold lists are collaborators outside the model; the
    calls made into them are recorded, in order, in `trace`. */
module StringPostingAttributes {
  import opened EnumTypes
  import opened EntryTypes
  import opened ValueStores
  import opened Dictionaries
  import opened EnumStores

  type DocId = nat

  /** The change types this step distinguishes; every other ChangeBase type
      (append, remove, weight changes, arithmetic) is ignored here. */
  datatype ChangeType = Update | ClearDoc | Other

  /** One queued change of a document, with its value. */
  datatype Change = Change(kind: ChangeType, doc: DocId, data: Value)

  /** The additions (each with weight 1) and removals for one posting list. */
  datatype PostingChange = PostingChange(additions: seq<DocId>, removals: seq<DocId>)

  /** Calls into the collaborators outside the model. */
  datatype Event =
    | UpdatePostings(changePost: map<Index, PostingChange>)
    | BaseApplyValueChanges
    | PostingListFreeze
    | BaseOnGenerationChange(generation: nat)
    | PostingListTransferHoldLists(generation: nat)
    | BaseRemoveOldGenerations(firstUsed: nat)
    | PostingListTrimHoldLists(firstUsed: nat)

  const U64Modulus: int := 0x1_0000_0000_0000_0000

  type u64 = x: int | 0 <= x < U64Modulus

  /** `generation - 1` on a uint64_t generation counter. */
  function PrevGeneration(g: u64): (r: u64)
    ensures g > 0 ==> r == g - 1
    ensures g == 0 ==> r == U64Modulus - 1
  {
    (g - 1) % U64Modulus
  }

  // ---------------------------------------------------------------------------
  // The change loop: currEnumIndices
  // ---------------------------------------------------------------------------

  /** What one change does to currEnumIndices: an UPDATE maps the document
      to the index of its value, a CLEARDOC to the index of the default
      value, and any other change leaves the map alone. */
  function ApplyChange(curr: map<DocId, Index>, c: Change, keys: seq<Index>, entries: map<Index, Entry>,
                       defaultData: Value): map<DocId, Index>
    requires KeysIn(keys, entries)
  {
    match c.kind
    case Update => curr[c.doc := LookupIndex(keys, entries, c.data)]
    case ClearDoc => curr[c.doc := LookupIndex(keys, entries, defaultData)]
    case Other => curr
  }

  /** currEnumIndices after the change loop has seen `changes` in order. */
  function CurrIndices(changes: seq<Change>, keys: seq<Index>, entries: map<Index, Entry>,
                       defaultData: Value): map<DocId, Index>
    requires KeysIn(keys, entries)
  {
    if changes == [] then map[]
    else ApplyChange(CurrIndices(changes[..|changes| - 1], keys, entries, defaultData),
                     changes[|changes| - 1], keys, entries, defaultData)
  }

  /** The value the document's last UPDATE or CLEARDOC gives it, if any. */
  function LastAssigned(changes: seq<Change>, d: DocId, defaultData: Value): Option<Value>
  {
    if changes == [] then None
    else
      var c := changes[|changes| - 1];
      if c.doc == d && c.kind.Update? then Some(c.data)
      else if c.doc == d && c.kind.ClearDoc? then Some(defaultData)
      else LastAssigned(changes[..|changes| - 1], d, defaultData)
  }

  /** The document the default value is left pointing at: the document of
      the last CLEARDOC, or `doc` when there is none. */
  function LastClearedDoc(changes: seq<Change>, doc: DocId): (r: DocId)
    ensures (forall i :: 0 <= i < |changes| ==> !changes[i].kind.ClearDoc?) ==> r == doc
    ensures (exists i :: 0 <= i < |changes| && changes[i].kind.ClearDoc?) ==>
              exists i :: && 0 <= i < |changes| && changes[i].kind.ClearDoc? && changes[i].doc == r
                          && forall j :: i < j < |changes| ==> !changes[j].kind.ClearDoc?
  {
    if changes == [] then doc
    else if changes[|changes| - 1].kind.ClearDoc? then changes[|changes| - 1].doc
    else LastClearedDoc(changes[..|changes| - 1], doc)
  }

  /** After the change loop a document has an entry exactly when some UPDATE
      or CLEARDOC names it, and the entry is the index found for the value of
      its last such change: several changes to one document in one commit
      leave only the last one's effect. */
  lemma {:induction false} CurrIndicesIsLastChange(changes: seq<Change>, keys: seq<Index>,
                                                    entries: map<Index, Entry>, defaultData: Value)
    requires KeysIn(keys, entries)
    ensures forall d :: d in CurrIndices(changes, keys, entries, defaultData) <==>
                          LastAssigned(changes, d, defaultData).Some?
    ensures forall d :: d in CurrIndices(changes, keys, entries, defaultData) ==>
              CurrIndices(changes, keys, entries, defaultData)[d] ==
              LookupIndex(keys, entries, LastAssigned(changes, d, defaultData).value)
  {
    if changes != [] {
      CurrIndicesIsLastChange(changes[..|changes| - 1], keys, entries, defaultData);
    }
  }

  /** The UPDATE and CLEARDOC changes, in their original order. */
  function Assigning(changes: seq<Change>): (r: seq<Change>)
    ensures forall i :: 0 <= i < |r| ==> !r[i].kind.Other?
  {
    if changes == [] then []
    else if changes[|changes| - 1].kind.Other? then Assigning(changes[..|changes| - 1])
    else Assigning(changes[..|changes| - 1]) + [changes[|changes| - 1]]
  }

  /** Changes of any other type have no effect on currEnumIndices. */
  lemma {:induction false} OtherChangesIgnored(changes: seq<Change>, keys: seq<Index>,
                                               entries: map<Index, Entry>, defaultData: Value)
    requires KeysIn(keys, entries)
    ensures CurrIndices(Assigning(changes), keys, entries, defaultData) == CurrIndices(changes, keys, entries, defaultData)
  {
    if changes != [] {
      var init := changes[..|changes| - 1];
      OtherChangesIgnored(init, keys, entries, defaultData);
      if !changes[|changes| - 1].kind.Other? {
        var a := Assigning(init) + [changes[|changes| - 1]];
        assert a[..|a| - 1] == Assigning(init);
      }
    }
  }

  /** Every document of currEnumIndices maps to a key of the tree when the
      values of the changes are all in the tree. */
  lemma {:induction false} CurrIndicesAreKeys(changes: seq<Change>, keys: seq<Index>,
                                              entries: map<Index, Entry>, defaultData: Value)
    requires Sorted(keys, entries)
    requires forall i :: 0 <= i < |changes| && changes[i].kind.Update? ==> HasValue(keys, entries, changes[i].data)
    requires forall i :: 0 <= i < |changes| && changes[i].kind.ClearDoc? ==> HasValue(keys, entries, defaultData)
    ensures forall d :: d in CurrIndices(changes, keys, entries, defaultData) ==>
              CurrIndices(changes, keys, entries, defaultData)[d] in keys
    ensures forall d :: d in CurrIndices(changes, keys, entries, defaultData) ==>
              exists i :: 0 <= i < |changes| && changes[i].doc == d
  {
    if changes != [] {
      var init := changes[..|changes| - 1];
      var c := changes[|changes| - 1];
      CurrIndicesAreKeys(init, keys, entries, defaultData);
      LookupIndexFinds(keys, entries, c.data);
      LookupIndexFinds(keys, entries, defaultData);
      forall d | d in CurrIndices(changes, keys, entries, defaultData)
        ensures exists i :: 0 <= i < |changes| && changes[i].doc == d
      {
        if d != c.doc || c.kind.Other? {
          var i :| 0 <= i < |init| && init[i].doc == d;
          assert changes[i] == init[i];
        } else {
          assert changes[|changes| - 1].doc == d;
        }
      }
    }
  }

  // ---------------------------------------------------------------------------
  // makePostingChange
  // ---------------------------------------------------------------------------

  ghost predicate Increasing(s: seq<DocId>)
  {
    forall i, j :: 0 <= i < j < |s| ==> s[i] < s[j]
  }

  /** `changePost[key].add(docId, 1)`: the posting change is created empty
      when the key has none yet. */
  function AddPosting(cp: map<Index, PostingChange>, k: Index, d: DocId): map<Index, PostingChange>
  {
    var pc := if k in cp then cp[k] else PostingChange([], []);
    cp[k := pc.(additions := pc.additions + [d])]
  }

  /** `changePost[key].remove(docId)`. */
  function RemovePosting(cp: map<Index, PostingChange>, k: Index, d: DocId): map<Index, PostingChange>
  {
    var pc := if k in cp then cp[k] else PostingChange([], []);
    cp[k := pc.(removals := pc.removals + [d])]
  }

  /** The run head (posting key) of each document's new enum index. */
  ghost function AddKeys(curr: map<DocId, Index>, keys: seq<Index>, entries: map<Index, Entry>): map<DocId, Index>
    requires KeysIn(keys, entries)
  {
    map d | d in curr && curr[d] in keys :: RunHead(keys, entries, curr[d])
  }

  /** The run head of each document's committed enum index, for the
      documents whose committed index is valid. */
  ghost function RemoveKeys(curr: map<DocId, Index>, enumIndices: seq<Index>, keys: seq<Index>,
                            entries: map<Index, Entry>): map<DocId, Index>
    requires KeysIn(keys, entries)
  {
    map d | d in curr && d < |enumIndices| && IsValid(enumIndices[d]) && enumIndices[d] in keys ::
      RunHead(keys, entries, enumIndices[d])
  }

  /** The posting keys of one document of currEnumIndices. */
  lemma DocKeys(curr: map<DocId, Index>, enumIndices: seq<Index>, keys: seq<Index>, entries: map<Index, Entry>,
                d: DocId)
    requires KeysIn(keys, entries) && d in curr && curr[d] in keys && d < |enumIndices|
    requires IsValid(enumIndices[d]) ==> enumIndices[d] in keys
    ensures d in AddKeys(curr, keys, entries) && AddKeys(curr, keys, entries)[d] == RunHead(keys, entries, curr[d])
    ensures d in RemoveKeys(curr, enumIndices, keys, entries) <==> IsValid(enumIndices[d])
    ensures IsValid(enumIndices[d]) ==>
              RemoveKeys(curr, enumIndices, keys, entries)[d] == RunHead(keys, entries, enumIndices[d])
  {
  }

  /** A document whose new value differs from its committed one only in
      case (or other folding) is added to and removed from the same posting
      list. */
  lemma SameFoldedClassSameList(curr: map<DocId, Index>, enumIndices: seq<Index>, keys: seq<Index>,
                                entries: map<Index, Entry>, d: DocId)
    requires KeysIn(keys, entries) && d in curr && curr[d] in keys && d < |enumIndices|
    requires IsValid(enumIndices[d]) && enumIndices[d] in keys
    requires FoldedEqual(entries[curr[d]].value, entries[enumIndices[d]].value)
    ensures d in AddKeys(curr, keys, entries) && d in RemoveKeys(curr, enumIndices, keys, entries)
    ensures AddKeys(curr, keys, entries)[d] == RemoveKeys(curr, enumIndices, keys, entries)[d]
  {
    DocKeys(curr, enumIndices, keys, entries, d);
    LowerBoundFolded(keys, entries, entries[curr[d]].value, entries[enumIndices[d]].value);
  }

  /** Every document whose new index is a key gets a posting key. */
  lemma AddKeysCover(curr: map<DocId, Index>, keys: seq<Index>, entries: map<Index, Entry>)
    requires KeysIn(keys, entries) && forall d :: d in curr ==> curr[d] in keys
    ensures AddKeys(curr, keys, entries).Keys == curr.Keys
  {
  }

  /** The documents listed for addition under `k`; none when `k` has no
      posting change. */
  function Adds(cp: map<Index, PostingChange>, k: Index): seq<DocId>
  {
    if k in cp then cp[k].additions else []
  }

  /** The documents listed for removal under `k`. */
  function Rms(cp: map<Index, PostingChange>, k: Index): seq<DocId>
  {
    if k in cp then cp[k].removals else []
  }

  /** The lists of `lists` hold, in ascending order, exactly the documents
      of `done` whose key in `keyOf` is the list's key. */
  ghost predicate ListedUnder(lists: Index -> seq<DocId>, keyOf: map<DocId, Index>, done: set<DocId>)
  {
    && (forall k :: Increasing(lists(k)))
    && (forall k, d :: d in lists(k) <==> d in done && d in keyOf && keyOf[d] == k)
  }

  /** changePost after the documents in `added` were added under their keys
      in `addKey` and those in `removed` removed under their keys in
      `rmKey`, in ascending document order: every posting change lists each
      document once, in ascending order and under no other key, and no key
      has an empty posting change. */
  ghost predicate IsPostingChange(cp: map<Index, PostingChange>, addKey: map<DocId, Index>, rmKey: map<DocId, Index>,
                                  added: set<DocId>, removed: set<DocId>)
  {
    && ListedUnder(k => Adds(cp, k), addKey, added)
    && ListedUnder(k => Rms(cp, k), rmKey, removed)
    && (forall k :: k in cp ==> cp[k].additions != [] || cp[k].removals != [])
  }

  lemma PostingChangeStart(addKey: map<DocId, Index>, rmKey: map<DocId, Index>)
    ensures IsPostingChange(map[], addKey, rmKey, {}, {})
  {
  }

  /** Appending the next document, above all listed so far, to its key's list. */
  lemma ListedUnderStep(lists: Index -> seq<DocId>, lists': Index -> seq<DocId>, keyOf: map<DocId, Index>,
                        done: set<DocId>, d: DocId)
    requires ListedUnder(lists, keyOf, done)
    requires d in keyOf && forall x :: x in done ==> x < d
    requires forall k :: lists'(k) == if k == keyOf[d] then lists(k) + [d] else lists(k)
    ensures ListedUnder(lists', keyOf, done + {d})
  {
    var k := keyOf[d];
    var s, s' := lists(k), lists'(k);
    assert s' == s + [d];
    assert Increasing(s);
    forall i, j | 0 <= i < j < |s'|
      ensures s'[i] < s'[j]
    {
      if j == |s| {
        assert s[i] in lists(k);
        assert s[i] in done;
      } else {
        assert s'[i] == s[i] && s'[j] == s[j];
      }
    }
  }

  /** Lists that agree key by key are listed alike. */
  lemma ListedUnderSame(lists: Index -> seq<DocId>, lists': Index -> seq<DocId>, keyOf: map<DocId, Index>,
                        done: set<DocId>)
    requires ListedUnder(lists, keyOf, done)
    requires forall k :: lists'(k) == lists(k)
    ensures ListedUnder(lists', keyOf, done)
  {
  }

  /** A document without a key is listed nowhere. */
  lemma ListedUnderSkip(lists: Index -> seq<DocId>, keyOf: map<DocId, Index>, done: set<DocId>, d: DocId)
    requires ListedUnder(lists, keyOf, done) && d !in keyOf
    ensures ListedUnder(lists, keyOf, done + {d})
  {
  }

  /** Adding the next document, above all added so far, under its key. */
  lemma AddPostingStep(cp: map<Index, PostingChange>, addKey: map<DocId, Index>, rmKey: map<DocId, Index>,
                       added: set<DocId>, removed: set<DocId>, d: DocId)
    requires IsPostingChange(cp, addKey, rmKey, added, removed)
    requires d in addKey && forall x :: x in added ==> x < d
    ensures IsPostingChange(AddPosting(cp, addKey[d], d), addKey, rmKey, added + {d}, removed)
  {
    var cp' := AddPosting(cp, addKey[d], d);
    ListedUnderStep(k => Adds(cp, k), k => Adds(cp', k), addKey, added, d);
    ListedUnderSame(k => Rms(cp, k), k => Rms(cp', k), rmKey, removed);
  }

  /** Removing the next document, above all removed so far, under its key. */
  lemma RemovePostingStep(cp: map<Index, PostingChange>, addKey: map<DocId, Index>, rmKey: map<DocId, Index>,
                          added: set<DocId>, removed: set<DocId>, d: DocId)
    requires IsPostingChange(cp, addKey, rmKey, added, removed)
    requires d in rmKey && forall x :: x in removed ==> x < d
    ensures IsPostingChange(RemovePosting(cp, rmKey[d], d), addKey, rmKey, added, removed + {d})
  {
    var cp' := RemovePosting(cp, rmKey[d], d);
    ListedUnderStep(k => Rms(cp, k), k => Rms(cp', k), rmKey, removed, d);
    ListedUnderSame(k => Adds(cp, k), k => Adds(cp', k), addKey, added);
  }

  /** A document without a valid committed index is removed from nothing. */
  lemma SkipRemoveStep(cp: map<Index, PostingChange>, addKey: map<DocId, Index>, rmKey: map<DocId, Index>,
                       added: set<DocId>, removed: set<DocId>, d: DocId)
    requires IsPostingChange(cp, addKey, rmKey, added, removed) && d !in rmKey
    ensures IsPostingChange(cp, addKey, rmKey, added, removed + {d})
  {
    ListedUnderSkip(k => Rms(cp, k), rmKey, removed, d);
  }

  /** The documents of `all` split into those visited, none above `last`,
      and those left, all above it. */
  ghost predicate Visited(all: set<DocId>, rest: set<DocId>, done: set<DocId>, last: int)
  {
    && rest + done == all && rest !! done
    && (forall x :: x in done ==> x <= last)
    && (forall y :: y in rest ==> last < y)
  }

  /** Visiting the least document left. */
  lemma VisitLeast(all: set<DocId>, rest: set<DocId>, done: set<DocId>, last: int, m: DocId)
    requires Visited(all, rest, done, last)
    requires m in rest && forall o :: o in rest ==> m <= o
    ensures m in all && forall x :: x in done ==> x < m
    ensures Visited(all, rest - {m}, done + {m}, m)
  {
  }

  /** What makePostingChange relies on: the tree's keys are stored, every
      document of currEnumIndices is a document of the attribute and maps to
      a key, and every valid committed index is a key. */
  ghost predicate PostingInputs(curr: map<DocId, Index>, enumIndices: seq<Index>, keys: seq<Index>,
                                entries: map<Index, Entry>)
  {
    && KeysIn(keys, entries)
    && (forall d :: d in curr ==> curr[d] in keys && d < |enumIndices|)
    && (forall d :: 0 <= d < |enumIndices| && IsValid(enumIndices[d]) ==> enumIndices[d] in keys)
  }

  /** One round of the loop of makePostingChange: the document, above all
      visited so far, is added under the run head of its new index and, when
      its committed index is valid, removed under the run head of that one. */
  method AddDocument(curr: map<DocId, Index>, enumIndices: seq<Index>, keys: seq<Index>, entries: map<Index, Entry>,
                     changePost: map<Index, PostingChange>, docId: DocId, ghost done: set<DocId>)
    returns (changePostOut: map<Index, PostingChange>)
    requires PostingInputs(curr, enumIndices, keys, entries)
    requires IsPostingChange(changePost, AddKeys(curr, keys, entries), RemoveKeys(curr, enumIndices, keys, entries),
                             done, done)
    requires docId in curr && forall x :: x in done ==> x < docId
    ensures IsPostingChange(changePostOut, AddKeys(curr, keys, entries), RemoveKeys(curr, enumIndices, keys, entries),
                            done + {docId}, done + {docId})
  {
    ghost var addKey := AddKeys(curr, keys, entries);
    ghost var rmKey := RemoveKeys(curr, enumIndices, keys, entries);
    DocKeys(curr, enumIndices, keys, entries, docId);
    var oldIdx := enumIndices[docId];
    var newIdx := curr[docId];
    var addItr := RunHead(keys, entries, newIdx);
    AddPostingStep(changePost, addKey, rmKey, done, done, docId);
    changePostOut := AddPosting(changePost, addItr, docId);
    if IsValid(oldIdx) {
      var rmItr := RunHead(keys, entries, oldIdx);
      RemovePostingStep(changePostOut, addKey, rmKey, done + {docId}, done, docId);
      changePostOut := RemovePosting(changePostOut, rmItr, docId);
    } else {
      SkipRemoveStep(changePostOut, addKey, rmKey, done + {docId}, done, docId);
    }
  }

  // ---------------------------------------------------------------------------
  // The attribute
  // ---------------------------------------------------------------------------

  class SingleStringPostingAttribute {
    const enumStore: EnumStore
    /** The committed enum index of every document (_enumIndices). */
    var enumIndices: seq<Index>
    /** The queued changes (_changes). */
    var changes: seq<Change>
    /** The change applied for CLEARDOC; its document is overwritten. */
    var defaultValue: Change
    var trace: seq<Event>

    /** A string attribute with posting lists has a folded posting
        dictionary, and every valid committed index is a key of it. */
    ghost predicate Valid()
      reads this`enumIndices, enumStore, enumStore.store, enumStore.dict
    {
      && enumStore.Valid()
      && enumStore.dict.folded
      && forall d :: 0 <= d < |enumIndices| && IsValid(enumIndices[d]) ==> enumIndices[d] in enumStore.dict.keys
    }

    constructor (docCount: nat, defaultData: Value)
      ensures Valid() && fresh(enumStore) && fresh(enumStore.store) && fresh(enumStore.dict)
      ensures enumStore.entryType == CString && enumStore.dict.keys == []
      ensures |enumIndices| == docCount && forall d :: 0 <= d < docCount ==> !IsValid(enumIndices[d])
      ensures changes == [] && trace == [] && defaultValue == Change(Update, 0, defaultData)
    {
      enumStore := new EnumStore(CString, true);
      enumIndices := seq(docCount, d => InvalidIndex);
      changes := [];
      defaultValue := Change(Update, 0, defaultData);
      trace := [];
    }

    /** applyUpdateValueChange(c, enumStore, currEnumIndices): the document
        gets the index of the change's value, or the invalid index when the
        value is not in the tree. */
    method ApplyUpdateValueChange(c: Change, curr: map<DocId, Index>) returns (currOut: map<DocId, Index>)
      requires Valid()
      ensures currOut == curr[c.doc := LookupIndex(enumStore.dict.keys, enumStore.store.entries, c.data)]
      ensures HasValue(enumStore.dict.keys, enumStore.store.entries, c.data) ==>
                currOut[c.doc] in enumStore.dict.keys && enumStore.store.entries[currOut[c.doc]].value == c.data
      ensures !HasValue(enumStore.dict.keys, enumStore.store.entries, c.data) ==> currOut[c.doc] == InvalidIndex
    {
      var found, newIdx := enumStore.FindIndex(c.data, InvalidIndex);
      LookupIndexFinds(enumStore.dict.keys, enumStore.store.entries, c.data);
      if found {
        SortedDistinct(enumStore.dict.keys, enumStore.store.entries);
        ghost var i :| 0 <= i < |enumStore.dict.keys| && enumStore.dict.keys[i] == newIdx;
      }
      currOut := curr[c.doc := newIdx];
    }

    /** makePostingChange(cmpa, dict, currEnumIndices, changePost): visits
        the documents of currEnumIndices in ascending order; each is added
        under the run head of its new index and, when its committed index is
        valid, removed under the run head of that one. */
    method MakePostingChange(curr: map<DocId, Index>) returns (changePost: map<Index, PostingChange>)
      requires Valid()
      requires forall d :: d in curr ==> curr[d] in enumStore.dict.keys && d < |enumIndices|
      ensures AddKeys(curr, enumStore.dict.keys, enumStore.store.entries).Keys == curr.Keys
      ensures IsPostingChange(changePost,
                              AddKeys(curr, enumStore.dict.keys, enumStore.store.entries),
                              RemoveKeys(curr, enumIndices, enumStore.dict.keys, enumStore.store.entries),
                              curr.Keys, curr.Keys)
    {
      var keys, postings := enumStore.dict.GetPostingDictionary(enumStore.store);
      var entries := enumStore.store.entries;
      var indices := enumIndices;
      ghost var addKey := AddKeys(curr, keys, entries);
      ghost var rmKey := RemoveKeys(curr, indices, keys, entries);
      AddKeysCover(curr, keys, entries);
      assert PostingInputs(curr, indices, keys, entries);
      changePost := map[];
      var rest := curr.Keys;
      ghost var done: set<DocId> := {};
      ghost var last: int := -1;
      PostingChangeStart(addKey, rmKey);
      while rest != {}
        invariant Visited(curr.Keys, rest, done, last)
        invariant IsPostingChange(changePost, addKey, rmKey, done, done)
        decreases rest
      {
        var docId := Least(rest);
        VisitLeast(curr.Keys, rest, done, last, docId);
        changePost := AddDocument(curr, indices, keys, entries, changePost, docId, done);
        done := done + {docId};
        last := docId;
        rest := rest - {docId};
      }
    }

    /** applyValueChanges(updater): the change loop, then makePostingChange,
        then updatePostings, then the base attribute's applyValueChanges. */
    method ApplyValueChanges() returns (ghost changePost: map<Index, PostingChange>)
      requires Valid()
      requires forall i :: 0 <= i < |changes| ==> changes[i].doc < |enumIndices|
      requires forall i :: 0 <= i < |changes| && changes[i].kind.Update? ==>
                 HasValue(enumStore.dict.keys, enumStore.store.entries, changes[i].data)
      requires forall i :: 0 <= i < |changes| && changes[i].kind.ClearDoc? ==>
                 HasValue(enumStore.dict.keys, enumStore.store.entries, defaultValue.data)
      modifies this`defaultValue, this`trace
      ensures Valid() && defaultValue.data == old(defaultValue.data) && defaultValue.kind == old(defaultValue.kind)
      ensures defaultValue.doc == LastClearedDoc(changes, old(defaultValue.doc))
      ensures trace == old(trace) + [UpdatePostings(changePost), BaseApplyValueChanges]
      ensures var curr := CurrIndices(changes, enumStore.dict.keys, enumStore.store.entries, defaultValue.data);
              IsPostingChange(changePost,
                              AddKeys(curr, enumStore.dict.keys, enumStore.store.entries),
                              RemoveKeys(curr, enumIndices, enumStore.dict.keys, enumStore.store.entries),
                              curr.Keys, curr.Keys)
    {
      var keys := enumStore.dict.keys;
      var entries := enumStore.store.entries;
      var curr: map<DocId, Index> := map[];
      var i := 0;
      while i < |changes|
        invariant 0 <= i <= |changes| && Valid() && trace == old(trace)
        invariant defaultValue.data == old(defaultValue.data) && defaultValue.kind == old(defaultValue.kind)
        invariant curr == CurrIndices(changes[..i], keys, entries, defaultValue.data)
        invariant defaultValue.doc == LastClearedDoc(changes[..i], old(defaultValue.doc))
      {
        var change := changes[i];
        assert changes[..i + 1][..i] == changes[..i];
        if change.kind.Update? {
          curr := ApplyUpdateValueChange(change, curr);
        } else if change.kind.ClearDoc? {
          defaultValue := defaultValue.(doc := change.doc);
          curr := ApplyUpdateValueChange(defaultValue, curr);
        }
        i := i + 1;
      }
      assert changes[..i] == changes;
      CurrIndicesAreKeys(changes, keys, entries, defaultValue.data);
      forall d | d in curr
        ensures d < |enumIndices|
      {
        var j :| 0 <= j < |changes| && changes[j].doc == d;
      }
      var cp := MakePostingChange(curr);
      trace := trace + [UpdatePostings(cp), BaseApplyValueChanges];
      changePost := cp;
    }

    /** removeOldGenerations(firstUsed): the base attribute first, then the
        posting lists' hold lists. */
    method RemoveOldGenerations(firstUsed: u64)
      modifies this`trace
      ensures trace == old(trace) + [BaseRemoveOldGenerations(firstUsed), PostingListTrimHoldLists(firstUsed)]
    {
      trace := trace + [BaseRemoveOldGenerations(firstUsed)];
      trace := trace + [PostingListTrimHoldLists(firstUsed)];
    }

    /** onGenerationChange(generation): the posting lists are frozen first,
        then the base attribute's hook runs, then the posting lists' hold
        lists are tagged with the previous generation. */
    method OnGenerationChange(generation: u64)
      modifies this`trace
      ensures trace == old(trace) + [PostingListFreeze, BaseOnGenerationChange(generation),
                                     PostingListTransferHoldLists(PrevGeneration(generation))]
      ensures generation > 0 ==> trace[|trace| - 1] == PostingListTransferHoldLists(generation - 1)
    {
      trace := trace + [PostingListFreeze];
      trace := trace + [BaseOnGenerationChange(generation)];
      trace := trace + [PostingListTransferHoldLists(PrevGeneration(generation))];
    }

    /** freezeEnumDictionary(): readers of the dictionary now see it as it is. */
    method FreezeEnumDictionary()
      modifies enumStore.dict`frozenKeys
      ensures enumStore.dict.frozenKeys == enumStore.dict.keys
    {
      enumStore.FreezeTree();
    }
  }
}
