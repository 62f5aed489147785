/**
 * The builtin types every schema starts with: one Type per primitive and
 * the three decimal composites.
 */
module Builtin {
  import opened Wrappers
  import opened Common
  import opened PrimitiveTypes
  import opened Elements
  import opened Seqs

  /** A single required element of the primitive, named and described by it. */
  function PrimitiveTypeToType(p: PrimitiveType): (t: Element)
    ensures t.TypeElem? && t.name == p.name && t.description == p.name && t.primitive == p
    ensures t.presence == Some(Required) && t.length == 1 && t.offset == None
    ensures t.sinceVersion == 0 && t.deprecated == None && t.constVal == None
    ensures TotalLength(t) == Some(p.length)
  {
    TypeElem(p.name, p.name, Some(Required), p, 1, None, 0, None, None, None, None, None)
  }

  const CharType := PrimitiveTypeToType(Char)
  const IntType := PrimitiveTypeToType(Int)
  const Int8Type := PrimitiveTypeToType(Int8)
  const Int16Type := PrimitiveTypeToType(Int16)
  const Int32Type := PrimitiveTypeToType(Int32)
  const Int64Type := PrimitiveTypeToType(Int64)
  const UInt8Type := PrimitiveTypeToType(UInt8)
  const UInt16Type := PrimitiveTypeToType(UInt16)
  const UInt32Type := PrimitiveTypeToType(UInt32)
  const UInt64Type := PrimitiveTypeToType(UInt64)
  const FloatType := PrimitiveTypeToType(Float)
  const DoubleType := PrimitiveTypeToType(Double)

  const Mantissa := TypeElem("mantissa", "", Some(Required), Int64, 1, None, 0, None, None, None, None, None)
  const Exponent := TypeElem("exponent", "", Some(Required), Int8, 1, None, 0, None, None, None, None, None)
  /** The fixed exponent -2 of `decimal32` and `decimal64`. */
  const ConstantExponent :=
    TypeElem("exponent", "", Some(Constant), Int8, 1, None, 0, None, None, None, Some(IntValue(-2)), None)

  const Decimal := CompositeElem("decimal", "", [Mantissa, Exponent], None, 0, None)
  const Decimal32 := CompositeElem("decimal32", "", [Mantissa, ConstantExponent], None, 0, None)
  const Decimal64 := CompositeElem("decimal64", "", [Mantissa, ConstantExponent], None, 0, None)

  /** The builtins in the order a fresh registry adds them. */
  const Builtins: seq<Element> := [
    Decimal, Decimal32, Decimal64,
    Int16Type, Int32Type, Int64Type, Int8Type,
    UInt16Type, UInt32Type, UInt64Type,
    FloatType, DoubleType, CharType, IntType, UInt8Type]

  /** The names of a sequence of elements, in order. */
  function Names(es: seq<Element>): (ns: seq<string>)
    ensures |ns| == |es| && forall i :: 0 <= i < |es| ==> ns[i] == es[i].name
  {
    seq(|es|, i requires 0 <= i < |es| => es[i].name)
  }

  /**
   * Fifteen builtins under fifteen distinct names: every primitive's Type,
   * then `decimal`, `decimal32` and `decimal64`.
   */
  lemma BuiltinsAreDistinct()
    ensures |Builtins| == 15 && Distinct(Names(Builtins))
  {
    BuiltinNamesDistinct();
    assert forall i :: 0 <= i < |Builtins| ==> Builtins[i].name == BuiltinNames[i];
    assert Names(Builtins) == BuiltinNames;
  }

  /** The fifteen builtins are the twelve primitives' Types and the three decimals. */
  lemma BuiltinsContents()
    ensures forall p :: p in StandardPrimitives ==> PrimitiveTypeToType(p) in Builtins
    ensures Decimal in Builtins && Decimal32 in Builtins && Decimal64 in Builtins
  {
  }

  lemma BuiltinNamesDistinct()
    ensures Distinct(BuiltinNames)
  {
  }

  const BuiltinNames: seq<string> := ["decimal", "decimal32", "decimal64", "int16", "int32", "int64",
    "int8", "uint16", "uint32", "uint64", "float", "double", "char", "int", "uint8"]

  /**
   * `decimal` is a required int64 mantissa followed by a required int8
   * exponent (nine bytes); `decimal32` and `decimal64` keep the mantissa and
   * fix the exponent at the constant -2, which occupies no bytes.
   */
  lemma DecimalShapes()
    ensures |Decimal.elements| == 2
    ensures Decimal.elements[0].name == "mantissa" && Decimal.elements[0].primitive == Int64
    ensures Decimal.elements[1].name == "exponent" && Decimal.elements[1].primitive == Int8
    ensures Decimal.elements[0].presence == Some(Required) && Decimal.elements[1].presence == Some(Required)
    ensures TotalLength(Decimal) == Some(9)
    ensures forall d :: d in {Decimal32, Decimal64} ==>
      && |d.elements| == 2 && d.elements[0] == Mantissa
      && d.elements[1].presence == Some(Constant) && d.elements[1].primitive == Int8
      && d.elements[1].constVal == Some(IntValue(-2))
      && TotalLength(d) == Some(8)
  {
    CompositeLengthPair(Decimal, Mantissa, Exponent);
    CompositeLengthPair(Decimal32, Mantissa, ConstantExponent);
    CompositeLengthPair(Decimal64, Mantissa, ConstantExponent);
  }

  lemma CompositeLengthPair(c: Element, a: Element, b: Element)
    requires c.CompositeElem? && c.elements == [a, b]
    ensures TotalLength(c) == AddLengths(TotalLength(a), TotalLength(b))
  {
    SumLengthsAppend([a], [b]);
    CompositeLengthSmall(CompositeElem(c.name, c.description, [a], c.offset, c.sinceVersion, c.deprecated), a);
    CompositeLengthSmall(CompositeElem(c.name, c.description, [b], c.offset, c.sinceVersion, c.deprecated), b);
    assert [a] + [b] == [a, b];
  }

  lemma {:induction false} TypeMembersResolved(es: seq<Element>)
    requires forall e :: e in es ==> e.TypeElem?
    ensures AllResolved(es)
  {
    if es != [] {
      TypeMembersResolved(es[1..]);
    }
  }

  /** Every builtin is fully resolved from the start: it has a length without binding. */
  lemma BuiltinsResolved()
    ensures forall e :: e in Builtins ==> Resolved(e) && TotalLength(e).Some?
  {
    TypeMembersResolved(Decimal.elements);
    TypeMembersResolved(Decimal32.elements);
    forall e | e in Builtins
      ensures Resolved(e) && TotalLength(e).Some?
    {
      ResolvedHasLength(e);
    }
  }
}
