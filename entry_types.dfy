/** The entry types an enum store is instantiated with (NumericEntryType<T>
    and StringEntryType), the fixed-size binary record of an integer value,
    and the NaN-aware comparison used for floating-point values. */
module EntryTypes {
  import opened EnumTypes

  datatype EntryType = Int8 | Int16 | Int32 | Int64 | Float32 | Float64 | CString

  predicate IsInteger(t: EntryType)
  {
    t.Int8? || t.Int16? || t.Int32? || t.Int64?
  }

  /** fixedSize(): sizeof(T) for the numeric types, 1 (the terminator) for strings. */
  function FixedSize(t: EntryType): (r: nat)
    ensures 1 <= r <= 8
  {
    match t
    case Int8 => 1
    case Int16 => 2
    case Int32 => 4
    case Int64 => 8
    case Float32 => 4
    case Float64 => 8
    case CString => 1
  }

  /** hasFold(): only strings have a folded comparator of their own. */
  predicate HasFold(t: EntryType)
  {
    t.CString?
  }

  /** A NUL-terminated string, given by the characters before the terminator. */
  type CStr = s: seq<char> | '\0' !in s

  /** size(value) of a numeric entry type: always sizeof(T). */
  function NumericSize(t: EntryType): (r: nat)
    requires !t.CString?
    ensures r == FixedSize(t) && !HasFold(t)
  {
    FixedSize(t)
  }

  /** size(value) of StringEntryType: strlen(value) + fixedSize(). */
  function StringSize(s: CStr): (r: nat)
    ensures r == |s| + FixedSize(CString) && HasFold(CString)
    ensures r >= 1
  {
    |s| + FixedSize(CString)
  }

  // ---------------------------------------------------------------------------
  // Fixed-size records. The bulk value format is the in-memory layout of the
  // value: for an integer type, sizeof(T) bytes of little-endian two's
  // complement.
  // ---------------------------------------------------------------------------

  type byte = x: int | 0 <= x < 256

  function Pow256(w: nat): (r: nat)
    ensures r >= 1
  {
    if w == 0 then 1 else 256 * Pow256(w - 1)
  }

  /** Half the range of an integer type: its values lie in [-Half, Half). */
  function Half(t: EntryType): nat
  {
    match t
    case Int8 => 0x80
    case Int16 => 0x8000
    case Int32 => 0x8000_0000
    case Int64 => 0x8000_0000_0000_0000
    case _ => 0
  }

  lemma HalfIsHalfRange(t: EntryType)
    requires IsInteger(t)
    ensures 2 * Half(t) == Pow256(FixedSize(t))
  {
    assert Pow256(1) == 0x100;
    assert Pow256(2) == 0x1_0000;
    assert Pow256(4) == 0x1_0000_0000 by {
      assert Pow256(3) == 0x100_0000;
    }
    if t.Int64? {
      assert Pow256(8) == 0x1_0000_0000_0000_0000 by {
        assert Pow256(5) == 0x100_0000_0000;
        assert Pow256(6) == 0x1_0000_0000_0000;
        assert Pow256(7) == 0x100_0000_0000_0000;
      }
    }
  }

  /** The value can be held by the entry type (an integer of its width). */
  predicate Fits(t: EntryType, v: Value)
  {
    IsInteger(t) ==>
      v.tieBreak == 0 && -(Half(t) as int) <= v.folded < Half(t)
  }

  function EncodeUnsigned(n: nat, w: nat): (b: seq<byte>)
    requires n < Pow256(w)
    ensures |b| == w
  {
    if w == 0 then [] else [n % 256] + EncodeUnsigned(n / 256, w - 1)
  }

  function DecodeUnsigned(b: seq<byte>): (n: nat)
    ensures n < Pow256(|b|)
  {
    if b == [] then 0 else b[0] + 256 * DecodeUnsigned(b[1..])
  }

  lemma {:induction false} DecodeEncodeUnsigned(n: nat, w: nat)
    requires n < Pow256(w)
    ensures DecodeUnsigned(EncodeUnsigned(n, w)) == n
  {
    if w > 0 {
      var b := EncodeUnsigned(n, w);
      assert b[1..] == EncodeUnsigned(n / 256, w - 1);
      DecodeEncodeUnsigned(n / 256, w - 1);
    }
  }

  lemma {:induction false} EncodeDecodeUnsigned(b: seq<byte>)
    ensures EncodeUnsigned(DecodeUnsigned(b), |b|) == b
  {
    if b != [] {
      var n := DecodeUnsigned(b);
      var m := DecodeUnsigned(b[1..]);
      assert n == b[0] + 256 * m;
      assert n % 256 == b[0] && n / 256 == m;
      EncodeDecodeUnsigned(b[1..]);
      assert EncodeUnsigned(n, |b|) == [b[0]] + EncodeUnsigned(m, |b| - 1);
    }
  }

  /** The record of one integer value: exactly fixedSize() bytes. */
  function EncodeRecord(t: EntryType, v: Value): (b: seq<byte>)
    requires IsInteger(t) && Fits(t, v)
    ensures |b| == FixedSize(t)
  {
    var w := FixedSize(t);
    HalfIsHalfRange(t);
    var n := if v.folded < 0 then v.folded + Pow256(w) else v.folded;
    EncodeUnsigned(n, w)
  }

  /** Reading a value back from its record (`*static_cast<const T*>(src)`). */
  function DecodeRecord(t: EntryType, b: seq<byte>): (v: Value)
    requires IsInteger(t) && |b| == FixedSize(t)
    ensures Fits(t, v)
  {
    var w := FixedSize(t);
    var n := DecodeUnsigned(b);
    HalfIsHalfRange(t);
    Value(if n >= Half(t) then n - Pow256(w) else n, 0)
  }

  /** Records and values of an integer type are in one-to-one correspondence. */
  lemma RecordRoundTrip(t: EntryType, v: Value, b: seq<byte>)
    requires IsInteger(t) && Fits(t, v) && |b| == FixedSize(t)
    ensures DecodeRecord(t, EncodeRecord(t, v)) == v
    ensures EncodeRecord(t, DecodeRecord(t, b)) == b
  {
    var w := FixedSize(t);
    HalfIsHalfRange(t);
    var n := if v.folded < 0 then v.folded + Pow256(w) else v.folded;
    DecodeEncodeUnsigned(n, w);
    EncodeDecodeUnsigned(b);
  }

  /** All values of a sequence fit the entry type. */
  ghost predicate AllFit(t: EntryType, vs: seq<Value>)
  {
    forall i :: 0 <= i < |vs| ==> Fits(t, vs[i])
  }

  /** The bytes written for a sequence of values, one record each, in order. */
  function EncodeRecords(t: EntryType, vs: seq<Value>): (b: seq<byte>)
    requires IsInteger(t) && AllFit(t, vs)
    ensures |b| == FixedSize(t) * |vs|
  {
    if vs == [] then [] else EncodeRecord(t, vs[0]) + EncodeRecords(t, vs[1..])
  }

  /** The values of the complete records at the front of a buffer. */
  function DecodeRecords(t: EntryType, b: seq<byte>): (vs: seq<Value>)
    requires IsInteger(t)
    ensures AllFit(t, vs)
    decreases |b|
  {
    var w := FixedSize(t);
    if |b| < w then [] else [DecodeRecord(t, b[..w])] + DecodeRecords(t, b[w..])
  }

  /** Writing one more value appends exactly its record. */
  lemma {:induction false} EncodeRecordsAppend(t: EntryType, vs: seq<Value>, v: Value)
    requires IsInteger(t) && AllFit(t, vs) && Fits(t, v)
    ensures AllFit(t, vs + [v])
    ensures EncodeRecords(t, vs + [v]) == EncodeRecords(t, vs) + EncodeRecord(t, v)
  {
    if vs != [] {
      assert (vs + [v])[1..] == vs[1..] + [v];
      EncodeRecordsAppend(t, vs[1..], v);
    } else {
      assert (vs + [v])[1..] == [];
    }
  }

  /** Writing values and reading them back yields the same values in the
      same order, with no bytes left over. */
  lemma {:induction false} RecordsRoundTrip(t: EntryType, vs: seq<Value>)
    requires IsInteger(t) && AllFit(t, vs)
    ensures DecodeRecords(t, EncodeRecords(t, vs)) == vs
  {
    if vs != [] {
      var w := FixedSize(t);
      var r := EncodeRecord(t, vs[0]);
      var b := EncodeRecords(t, vs);
      assert b == r + EncodeRecords(t, vs[1..]);
      assert b[..w] == r;
      assert b[w..] == EncodeRecords(t, vs[1..]);
      RecordRoundTrip(t, vs[0], r);
      RecordsRoundTrip(t, vs[1..]);
    }
  }

  // ---------------------------------------------------------------------------
  // FloatingPointCompareHelper
  // ---------------------------------------------------------------------------

  /** A floating-point value: NaN, or an ordered number. */
  datatype Float = NaN | Num(x: real)

  /** Three-way comparison in which all NaNs are equal and below every number. */
  function FloatCompare(a: Float, b: Float): (r: int)
    ensures -1 <= r <= 1
  {
    if a.NaN? && b.NaN? then 0
    else if a.NaN? then -1
    else if b.NaN? then 1
    else if a.x < b.x then -1
    else if a.x == b.x then 0
    else 1
  }

  /** The comparison is a total order in which NaN is the least element and
      forms a single equivalence class; numbers keep their usual order. */
  lemma FloatCompareIsTotalOrder(a: Float, b: Float, c: Float)
    ensures FloatCompare(a, b) == -FloatCompare(b, a)
    ensures FloatCompare(a, b) == 0 <==> a == b
    ensures a.NaN? && !b.NaN? ==> FloatCompare(a, b) == -1
    ensures a.Num? && b.Num? ==> (FloatCompare(a, b) < 0 <==> a.x < b.x)
    ensures FloatCompare(a, b) <= 0 && FloatCompare(b, c) <= 0 ==> FloatCompare(a, c) <= 0
  {
  }
}
