/** Vocabulary shared by the enum store: entry references, the 32-bit
    reference count of an entry, and the two orders the dictionary uses
    (the exact order and its case-folded coarsening). */
module EnumTypes {

  datatype Option<+T> = None | Some(value: T)

  /** An entry reference (EntryRef, the enum store's Index). Reference 0 is
      the default-constructed, invalid reference. */
  type Index = nat

  const InvalidIndex: Index := 0

  predicate IsValid(idx: Index) { idx != InvalidIndex }

  const U32Modulus: int := 0x1_0000_0000

  type u32 = x: int | 0 <= x < U32Modulus

  /** `++_ref_count` on a uint32_t: wraps to 0 after 2^32 - 1. */
  function IncU32(x: u32): (r: u32)
    ensures x < U32Modulus - 1 ==> r == x + 1
    ensures x == U32Modulus - 1 ==> r == 0
  {
    (x + 1) % U32Modulus
  }

  /** `--_ref_count` on a uint32_t: wraps to 2^32 - 1 below 0. */
  function DecU32(x: u32): (r: u32)
    ensures x > 0 ==> r == x - 1
    ensures x == 0 ==> r == U32Modulus - 1
  {
    (x - 1) % U32Modulus
  }

  lemma IncDecInverse(x: u32)
    ensures DecU32(IncU32(x)) == x && IncU32(DecU32(x)) == x
  {
  }

  /** A stored value, abstracted to its place in the comparator's order.
      The string comparator first compares the case-folded forms and breaks
      ties by the exact bytes; `folded` ranks the folded form and `tieBreak`
      the exact form among values with the same folded form. An integer value
      has tieBreak 0 and its number as `folded`, and its folded comparison is
      its plain comparison. */
  datatype Value = Value(folded: int, tieBreak: int)

  /** The exact order of the dictionary (EnumStoreComparatorT). */
  predicate Less(a: Value, b: Value)
  {
    a.folded < b.folded || (a.folded == b.folded && a.tieBreak < b.tieBreak)
  }

  /** The coarser folded order (EnumStoreFoldedComparatorT). */
  predicate FoldedLess(a: Value, b: Value)
  {
    a.folded < b.folded
  }

  predicate FoldedEqual(a: Value, b: Value)
  {
    a.folded == b.folded
  }

  /** Three-way exact comparison. */
  function Compare(a: Value, b: Value): (r: int)
    ensures -1 <= r <= 1
    ensures r < 0 <==> Less(a, b)
    ensures r == 0 <==> a == b
    ensures r > 0 <==> Less(b, a)
  {
    if Less(a, b) then -1 else if a == b then 0 else 1
  }

  /** Three-way folded comparison (compareFolded). */
  function CompareFolded(a: Value, b: Value): (r: int)
    ensures -1 <= r <= 1
    ensures r < 0 <==> FoldedLess(a, b)
    ensures r == 0 <==> FoldedEqual(a, b)
    ensures r > 0 <==> FoldedLess(b, a)
  {
    if a.folded < b.folded then -1 else if a.folded == b.folded then 0 else 1
  }

  /** Which comparator a dictionary lookup is given. */
  datatype Cmp = Exact | Folded

  predicate CmpLess(c: Cmp, a: Value, b: Value)
  {
    match c
    case Exact => Less(a, b)
    case Folded => FoldedLess(a, b)
  }

  /** Neither compares less than the other. */
  predicate CmpEqual(c: Cmp, a: Value, b: Value)
  {
    !CmpLess(c, a, b) && !CmpLess(c, b, a)
  }

  /** The exact order is a strict total order, and the folded order is a
      coarsening of it: exact order never reverses folded order, and values
      that are equal under the exact comparator are identical. */
  lemma OrdersAgree(a: Value, b: Value, c: Value)
    ensures !Less(a, a)
    ensures Less(a, b) && Less(b, c) ==> Less(a, c)
    ensures a == b || Less(a, b) || Less(b, a)
    ensures Less(a, b) ==> !FoldedLess(b, a)
    ensures FoldedLess(a, b) ==> Less(a, b)
    ensures CmpEqual(Exact, a, b) <==> a == b
    ensures CmpEqual(Folded, a, b) <==> FoldedEqual(a, b)
  {
  }

  /** An entry of the value store: the value and its reference count. */
  datatype Entry = Entry(value: Value, refCount: u32)
}
