/**
 * The SBE primitive types and the catalog that registers each of them by name
 * when it is constructed.
 */
module PrimitiveTypes {
  import opened Wrappers

  /** A minimum, maximum or null value; floating-point bounds are not modelled. */
  datatype Bound = IntBound(v: int) | FloatBound

  datatype PrimitiveType = PrimitiveType(
    name: string,
    length: nat,         // size in bytes
    maxValue: Bound,
    minValue: Bound,
    nullValue: Bound)

  /** `is_byte` as the tests expect it: a one-byte primitive. */
  predicate IsByte(p: PrimitiveType)
  {
    p.length == 1
  }

  /**
   * `is_byte` as written: it returns `self.length`, and Python's truth test
   * of that integer is "not zero".
   */
  predicate IsByteAsWritten(p: PrimitiveType)
  {
    p.length != 0
  }

  // The standard primitives of the SBE specification (its table of primitive
  // types), plus `int`, a four-byte signed integer of this code base.
  const Char   := PrimitiveType("char", 1, IntBound(0x7e), IntBound(0x20), IntBound(0))
  const Int8   := PrimitiveType("int8", 1, IntBound(127), IntBound(-127), IntBound(-128))
  const Int16  := PrimitiveType("int16", 2, IntBound(32767), IntBound(-32767), IntBound(-32768))
  const Int32  := PrimitiveType("int32", 4, IntBound(0x7fff_ffff), IntBound(-0x7fff_ffff), IntBound(-0x8000_0000))
  const Int    := PrimitiveType("int", 4, IntBound(0x7fff_ffff), IntBound(-0x7fff_ffff), IntBound(-0x8000_0000))
  const Int64  := PrimitiveType("int64", 8, IntBound(0x7fff_ffff_ffff_ffff), IntBound(-0x7fff_ffff_ffff_ffff), IntBound(-0x8000_0000_0000_0000))
  const UInt8  := PrimitiveType("uint8", 1, IntBound(254), IntBound(0), IntBound(255))
  const UInt16 := PrimitiveType("uint16", 2, IntBound(65534), IntBound(0), IntBound(65535))
  const UInt32 := PrimitiveType("uint32", 4, IntBound(0xffff_fffe), IntBound(0), IntBound(0xffff_ffff))
  const UInt64 := PrimitiveType("uint64", 8, IntBound(0xffff_ffff_ffff_fffe), IntBound(0), IntBound(0xffff_ffff_ffff_ffff))
  const Float  := PrimitiveType("float", 4, FloatBound, FloatBound, FloatBound)
  const Double := PrimitiveType("double", 8, FloatBound, FloatBound, FloatBound)

  /** The primitives in the order their module constants are constructed. */
  const StandardPrimitives: seq<PrimitiveType> :=
    [Char, Int8, Int16, Int32, Int, Int64, UInt8, UInt16, UInt32, UInt64, Float, Double]

  /** int8, uint8 and char are bytes; uint16, int64, float and double are not. */
  lemma IsByteOfStandard()
    ensures IsByte(Int8) && IsByte(UInt8) && IsByte(Char)
    ensures !IsByte(UInt16) && !IsByte(Int64) && !IsByte(Float) && !IsByte(Double)
    ensures forall p :: p in StandardPrimitives ==> (IsByte(p) <==> p.name in {"char", "int8", "uint8"})
  {
  }

  /** The as-written `is_byte` calls uint16 a byte, which the tests refute. */
  lemma IsByteAsWrittenDisagrees()
    ensures IsByteAsWritten(UInt16) && !IsByte(UInt16)
    ensures forall p :: p in StandardPrimitives ==> IsByteAsWritten(p)
  {
  }

  predicate DistinctNames(ps: seq<PrimitiveType>)
  {
    forall i, j :: 0 <= i < j < |ps| ==> ps[i].name != ps[j].name
  }

  /** The catalog built by registering `ps` one after the other into an empty one. */
  function CatalogOf(ps: seq<PrimitiveType>): map<string, PrimitiveType>
  {
    if ps == [] then map[] else CatalogOf(ps[..|ps| - 1])[ps[|ps| - 1].name := ps[|ps| - 1]]
  }

  /** Primitives with distinct names all stay retrievable by name after registration. */
  lemma {:induction false} CatalogOfRetrieves(ps: seq<PrimitiveType>)
    requires DistinctNames(ps)
    ensures CatalogOf(ps).Keys == set p | p in ps :: p.name
    ensures forall p :: p in ps ==> CatalogOf(ps)[p.name] == p
  {
    if ps != [] {
      var init := ps[..|ps| - 1];
      CatalogOfRetrieves(init);
      forall p | p in ps ensures CatalogOf(ps)[p.name] == p {
        if p != ps[|ps| - 1] {
          var k :| 0 <= k < |ps| && ps[k] == p;
          assert k < |ps| - 1 && init[k] == p;
        }
      }
      assert forall p :: p in ps <==> p in init || p == ps[|ps| - 1];
    }
  }

  /** With distinct names, the next primitive's name is not yet registered. */
  lemma NextNameFree(ps: seq<PrimitiveType>, i: nat)
    requires DistinctNames(ps) && i < |ps|
    ensures ps[i].name !in CatalogOf(ps[..i])
    ensures CatalogOf(ps[..i + 1]) == CatalogOf(ps[..i])[ps[i].name := ps[i]]
  {
    assert ps[..i + 1][..i] == ps[..i];
    CatalogOfRetrieves(ps[..i]);
    assert forall q :: q in ps[..i] ==> q.name != ps[i].name;
  }

  lemma StandardNamesDistinct()
    ensures DistinctNames(StandardPrimitives)
  {
  }

  /**
   * The class-level `by_name` registry. Python keeps it as ambient global
   * state; here it is an object passed to whoever constructs primitives.
   */
  class PrimitiveCatalog {
    var byName: map<string, PrimitiveType>

    constructor Empty()
      ensures byName == map[]
    {
      byName := map[];
    }

    /** Build the catalog the module constants leave behind: all twelve primitives. */
    constructor Standard()
      ensures byName == CatalogOf(StandardPrimitives)
      ensures forall p :: p in StandardPrimitives ==> p.name in byName && byName[p.name] == p
    {
      byName := map[];
      new;
      var i := 0;
      StandardNamesDistinct();
      while i < |StandardPrimitives|
        invariant 0 <= i <= |StandardPrimitives|
        invariant byName == CatalogOf(StandardPrimitives[..i])
      {
        var p := StandardPrimitives[i];
        NextNameFree(StandardPrimitives, i);
        var r := Register(p);
        assert r == Pass;
        i := i + 1;
      }
      assert StandardPrimitives[..i] == StandardPrimitives;
      CatalogOfRetrieves(StandardPrimitives);
    }

    /**
     * `__post_init__`: refuse a name that is already registered, leaving the
     * catalog as it was, otherwise record the primitive under its name.
     */
    method Register(p: PrimitiveType) returns (r: Outcome)
      modifies this
      ensures old(p.name in byName) ==> r == Fail(ValueError) && byName == old(byName)
      ensures old(p.name !in byName) ==> r == Pass && byName == old(byName)[p.name := p]
    {
      if p.name in byName {
        return Fail(ValueError);
      }
      byName := byName[p.name := p];
      return Pass;
    }
  }
}
