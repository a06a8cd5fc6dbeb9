/**
 * Column value types (type.h / type.cpp): the `TypeInfo` table indexed by
 * the numeric value of `Type`, and `Variant`, a tagged union holding one
 * value of a type (strings as an owned copy of their bytes).
 */
module Types {
  import opened Common

  /** `enum Type`, in the order of its numeric values 0..8. */
  datatype Type = Nothing | Int8 | Int16 | Int32 | Int64 | Int128 | Float32 | Float64 | String

  /** The numeric value of a type. */
  function TypeCode(t: Type): (n: nat)
    ensures n <= 8
  {
    match t
    case Nothing => 0
    case Int8 => 1
    case Int16 => 2
    case Int32 => 3
    case Int64 => 4
    case Int128 => 5
    case Float32 => 6
    case Float64 => 7
    case String => 8
  }

  /** The type with numeric value `n` (a `Type` cast from an integer in range). */
  function TypeOfCode(n: nat): (t: Type)
    requires n <= 8
    ensures TypeCode(t) == n
  {
    [Nothing, Int8, Int16, Int32, Int64, Int128, Float32, Float64, String][n]
  }

  /** One row of the table: the type, its name and the bytes one value takes. */
  datatype TypeInfo = TypeInfo(ty: Type, name: string, size: nat)

  /** `sizeof(Slice)` on a 64-bit target: a data pointer and a `size_t`. */
  const SLICE_SIZE: nat := 16

  /** `gInfos`, the table `TypeInfo::get` indexes with a type's numeric value. */
  const INFOS: seq<TypeInfo> := [
    TypeInfo(Nothing, "Nothing", 0),
    TypeInfo(Int8, "Int8", 1),
    TypeInfo(Int16, "Int16", 2),
    TypeInfo(Int32, "Int32", 4),
    TypeInfo(Int64, "Int64", 8),
    TypeInfo(Int128, "Int128", 16),
    TypeInfo(Float32, "Float32", 4),
    TypeInfo(Float64, "Float64", 8),
    TypeInfo(String, "String", SLICE_SIZE)
  ]

  /** The width in bits of the C++ type that holds a value of `t` (`Slice` for strings). */
  function ValueBits(t: Type): nat
  {
    match t
    case Nothing => 0
    case Int8 => 8
    case Int16 => 16
    case Int32 => 32
    case Int64 => 64
    case Int128 => 128
    case Float32 => 32
    case Float64 => 64
    case String => 128
  }

  /**
   * `TypeInfo::get(type)`: the table entry at the type's numeric value. A
   * value outside `Nothing..String` is fatal, so the code must be in range.
   * The table is laid out in enum order, so the entry found describes the
   * type asked for, and its size is the width of that type's C++ storage.
   */
  function Get(code: nat): (info: TypeInfo)
    requires code <= 8
    ensures info.ty == TypeOfCode(code)
    ensures info.size * 8 == ValueBits(info.ty)
  {
    INFOS[code]
  }

  /**
   * The contents of the `Value` union, as far as the model needs it: all
   * zero bytes (after `clear`), an integer or float member, a string slice,
   * or storage nothing has written yet.
   */
  datatype Value = Zero | Int(i: int) | Float(bits: nat) | Str(s: Bytes) | Indeterminate

  /** The range of a `t`-typed argument to `reset` (floats as their IEEE-754 bit patterns). */
  predicate Fits(t: Type, v: Value)
  {
    match t
    case Nothing => false
    case Int8 => v.Int? && -0x80 <= v.i < 0x80
    case Int16 => v.Int? && -0x8000 <= v.i < 0x8000
    case Int32 => v.Int? && -0x8000_0000 <= v.i < 0x8000_0000
    case Int64 => v.Int? && -0x8000_0000_0000_0000 <= v.i < 0x8000_0000_0000_0000
    case Int128 => v.Int? && -0x8000_0000_0000_0000_0000_0000_0000_0000 <= v.i < 0x8000_0000_0000_0000_0000_0000_0000_0000
    case Float32 => v.Float? && v.bits < 0x1_0000_0000
    case Float64 => v.Float? && v.bits < 0x1_0000_0000_0000_0000
    case String => v.Str?
  }

  /** The union can be read as member `t`: nothing reads indeterminate storage. */
  predicate Readable(t: Type, val: Value)
  {
    match t
    case Nothing => true
    case Float32 => val.Zero? || val.Float?
    case Float64 => val.Zero? || val.Float?
    case String => val.Zero? || val.Str?
    case _ => val.Zero? || val.Int?
  }

  /** The value member `t` of the union reads as, in the form `reset` takes it. */
  function Read(t: Type, val: Value): (v: Value)
    requires Readable(t, val)
  {
    match t
    case Nothing => Zero
    case Float32 => if val.Zero? then Float(0) else val
    case Float64 => if val.Zero? then Float(0) else val
    case String => if val.Zero? then Str([]) else val
    case _ => if val.Zero? then Int(0) else val
  }

  /**
   * `clear()`: a string member that owns bytes is freed and becomes the empty
   * slice; an empty string is left as it is; any other member zeroes the union.
   */
  function Cleared(t: Type, val: Value): (r: Value)
    requires Readable(t, val)
    ensures Readable(t, r)
    ensures t == String ==> Read(t, r) == Str([])
    ensures t != String ==> r == Zero
  {
    if t == String then
      if val.Str? && |val.s| > 0 then Str([]) else val
    else Zero
  }

  /**
   * The union after `reset(t, v)` on a variant of type `oldTy` holding
   * `oldVal`: cleared unless the old type is `Nothing`, then overwritten by
   * `v`, except that an empty string writes nothing.
   */
  function Stored(oldTy: Type, oldVal: Value, t: Type, v: Value): Value
    requires Fits(t, v)
    requires oldTy != Nothing ==> Readable(oldTy, oldVal)
  {
    var cleared := if oldTy != Nothing then Cleared(oldTy, oldVal) else oldVal;
    if t == String && |v.s| == 0 then cleared else v
  }

  /**
   * After `reset(t, v)`, member `t` reads back exactly `v`, provided the
   * storage was readable beforehand.
   */
  lemma {:induction false} StoredReadsBack(oldTy: Type, oldVal: Value, t: Type, v: Value)
    requires Fits(t, v)
    requires Readable(oldTy, oldVal)
    requires oldTy == Nothing ==> oldVal.Zero?
    ensures Readable(t, Stored(oldTy, oldVal, t, v))
    ensures Read(t, Stored(oldTy, oldVal, t, v)) == v
  {
    if t == String && |v.s| == 0 {
      var cleared := if oldTy != Nothing then Cleared(oldTy, oldVal) else oldVal;
      assert Stored(oldTy, oldVal, t, v) == cleared;
      if oldTy == String {
        assert Read(String, cleared) == Str([]);
      } else {
        assert cleared == Zero;
      }
    }
  }

  // IEEE-754 comparison of the stored floats, on their bit patterns.

  /** A NaN: all exponent bits set and a non-zero fraction. */
  predicate IsNaN(bits: nat, fracBits: nat, expBits: nat)
  {
    (bits / Pow2(fracBits)) % Pow2(expBits) == Pow2(expBits) - 1 && bits % Pow2(fracBits) != 0
  }

  /** +0.0 or -0.0: every bit below the sign bit clear. */
  predicate IsZero(bits: nat, fracBits: nat, expBits: nat)
  {
    bits % Pow2(fracBits + expBits) == 0
  }

  function Pow2(n: nat): (r: nat)
    ensures r > 0
  {
    if n == 0 then 1 else 2 * Pow2(n - 1)
  }

  /** `==` on floats: NaN equals nothing, the two zeros are equal, otherwise the bit patterns decide. */
  predicate FloatEquals(a: nat, b: nat, fracBits: nat, expBits: nat)
  {
    !IsNaN(a, fracBits, expBits) && !IsNaN(b, fracBits, expBits)
    && (a == b || (IsZero(a, fracBits, expBits) && IsZero(b, fracBits, expBits)))
  }

  /** Float equality is not reflexive: a quiet NaN differs from itself, and -0.0 equals +0.0. */
  lemma FloatEqualsQuirks()
    ensures !FloatEquals(0x7FC0_0000, 0x7FC0_0000, 23, 8)
    ensures FloatEquals(0x8000_0000, 0, 23, 8)
  {
    assert Pow2(8) == 0x100;
    assert Pow2(23) == 0x80_0000;
    assert Pow2(31) == 0x8000_0000;
  }

  /**
   * `Variant::operator==` on two types and unions: different types are never
   * equal, `Nothing` equals `Nothing`, and otherwise the members of that type
   * are compared (floats by IEEE equality, strings by their bytes).
   */
  predicate ValueEquals(t1: Type, v1: Value, t2: Type, v2: Value)
    requires Readable(t1, v1) && Readable(t2, v2)
  {
    if t1 != t2 then false
    else match t1
      case Float32 => FloatEquals(Read(t1, v1).bits, Read(t2, v2).bits, 23, 8)
      case Float64 => FloatEquals(Read(t1, v1).bits, Read(t2, v2).bits, 52, 11)
      case _ => Read(t1, v1) == Read(t2, v2)
  }

  /** Outside the float types, two variants are equal exactly when type and value read back agree. */
  lemma ValueEqualsIsReadEquality(t1: Type, v1: Value, t2: Type, v2: Value)
    requires Readable(t1, v1) && Readable(t2, v2)
    requires t1 != Float32 && t1 != Float64
    ensures ValueEquals(t1, v1, t2, v2) <==> t1 == t2 && Read(t1, v1) == Read(t2, v2)
  {
  }

  /** `Variant`: a type tag and the union it describes. */
  class Variant {
    var ty: Type
    var val: Value

    /** The union can be read as the tagged type (no indeterminate string). */
    ghost predicate Valid()
      reads this
    {
      Readable(ty, val)
    }

    /**
     * `Variant(type, value)` as written: `_type` starts at `Nothing`, but the
     * union is left uninitialised before `reset`, so an empty string leaves
     * the union indeterminate.
     */
    constructor AsWritten(t: Type, v: Value)
      requires Fits(t, v)
      ensures ty == t && val == Stored(Nothing, Indeterminate, t, v)
      ensures t == String && v == Str([]) ==> !Valid()
    {
      ty := t;
      val := Stored(Nothing, Indeterminate, t, v);
    }

    /** `Variant(type, value)` with the union zero-initialised before `reset`. */
    constructor (t: Type, v: Value)
      requires Fits(t, v)
      ensures ty == t && val == Stored(Nothing, Zero, t, v)
      ensures Valid() && Read(ty, val) == v
    {
      StoredReadsBack(Nothing, Zero, t, v);
      ty := Nothing;
      val := Zero;
      new;
      Reset(t, v);
    }

    /** `clear()`: free an owned string, or zero the union. */
    method Clear()
      requires Valid()
      modifies this
      ensures ty == old(ty) && val == Cleared(old(ty), old(val))
      ensures Valid()
    {
      if ty == String {
        if val.Str? && |val.s| > 0 {
          val := Str([]);
        }
      } else {
        val := Zero;
      }
    }

    /**
     * `reset(type, value)`: clear the old contents unless the type is
     * `Nothing`, then store `value` under `type`. Resetting to `Nothing` is
     * fatal; a `Nothing` variant here holds zeroed storage.
     */
    method Reset(t: Type, v: Value)
      requires Valid() && Fits(t, v)
      requires ty == Nothing ==> val.Zero?
      modifies this
      ensures ty == t && val == Stored(old(ty), old(val), t, v)
      ensures Valid() && Read(ty, val) == v
    {
      StoredReadsBack(ty, val, t, v);
      if ty != Nothing {
        Clear();
      }
      ty := t;
      if t == String {
        if |v.s| > 0 {
          val := v;
        }
      } else {
        val := v;
      }
    }

    /** `operator==`. */
    predicate Equals(rhs: Variant)
      reads this, rhs
      requires Valid() && rhs.Valid()
    {
      ValueEquals(ty, val, rhs.ty, rhs.val)
    }
  }

  /**
   * Two variants built from the same non-float type and value are equal,
   * and variants of different types never are.
   */
  lemma BuiltAlikeAreEqual(t: Type, v: Value, u: Type, w: Value)
    requires Fits(t, v) && Fits(u, w) && t != Float32 && t != Float64
    ensures ValueEquals(t, Stored(Nothing, Zero, t, v), t, Stored(Nothing, Zero, t, v))
    ensures t != u ==> !ValueEquals(t, Stored(Nothing, Zero, t, v), u, Stored(Nothing, Zero, u, w))
  {
    StoredReadsBack(Nothing, Zero, t, v);
    StoredReadsBack(Nothing, Zero, u, w);
  }
}
