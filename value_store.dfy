/** The value store behind the enum store: entries addressed by entry
    references, each holding a value and a 32-bit reference count, plus the
    hold list of entries waiting for deferred reuse. The allocator itself is
    an outside collaborator; only what the enum store relies on is modelled:
    `allocate` hands out a reference never used before, an entry's value never
    changes, and `hold` only records the reference. */
module ValueStores {
  import opened EnumTypes

  /** Every entry of `before` is still present in `after` with the same value. */
  ghost predicate Extends(before: map<Index, Entry>, after: map<Index, Entry>)
  {
    forall k :: k in before ==> k in after && after[k].value == before[k].value
  }

  class ValueStore {
    var entries: map<Index, Entry>
    var nextRef: Index
    var held: set<Index>

    ghost predicate Valid()
      reads this
    {
      && IsValid(nextRef)
      && InvalidIndex !in entries
      && (forall k :: k in entries ==> k < nextRef)
      && held <= entries.Keys
    }

    constructor ()
      ensures Valid() && entries == map[] && held == {}
    {
      entries := map[];
      nextRef := 1;
      held := {};
    }

    /** allocate(value): a fresh entry with reference count 0. */
    method Allocate(v: Value) returns (idx: Index)
      requires Valid()
      modifies this
      ensures Valid()
      ensures IsValid(idx) && idx !in old(entries)
      ensures entries == old(entries)[idx := Entry(v, 0)] && held == old(held)
      ensures Extends(old(entries), entries)
    {
      idx := nextRef;
      entries := entries[idx := Entry(v, 0)];
      nextRef := nextRef + 1;
    }

    /** get_ref_count() of the entry. */
    function RefCount(idx: Index): u32
      reads this
      requires idx in entries
    {
      entries[idx].refCount
    }

    /** set_ref_count(refCount) of the entry; its value is untouched. */
    method SetRefCount(idx: Index, refCount: u32)
      requires Valid() && idx in entries
      modifies this
      ensures Valid() && held == old(held)
      ensures entries == old(entries)[idx := Entry(old(entries)[idx].value, refCount)]
      ensures Extends(old(entries), entries)
    {
      entries := entries[idx := Entry(entries[idx].value, refCount)];
    }

    /** The enum store's freeUnusedEnum: an entry whose reference count is 0
        is added to `unused` and put on hold; any other entry is left alone. */
    method FreeUnusedEnum(idx: Index, unused: set<Index>) returns (unusedOut: set<Index>)
      requires Valid() && idx in entries
      modifies this
      ensures Valid() && entries == old(entries)
      ensures entries[idx].refCount == 0 ==> unusedOut == unused + {idx} && held == old(held) + {idx}
      ensures entries[idx].refCount != 0 ==> unusedOut == unused && held == old(held)
    {
      unusedOut := unused;
      if entries[idx].refCount == 0 {
        unusedOut := unusedOut + {idx};
        held := held + {idx};
      }
    }
  }
}
