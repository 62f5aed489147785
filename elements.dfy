/**
 * The closed set of schema elements: Type, Enum (with its valid values),
 * Set (with its choices), Composite and Ref, and the byte length each one
 * occupies on the wire.
 *
 * Elements are values. A resolved reference (an enum's or set's encoding type,
 * a ref's target) holds the registry entry it was resolved to.
 */
module Elements {
  import opened Wrappers
  import opened Common
  import opened PrimitiveTypes

  /** A constant or a valid value: an integer, or the ASCII text of a char value. */
  datatype Value = IntValue(i: int) | CharValue(text: string)

  /** A named member of an enum. */
  datatype ValidValue = ValidValue(
    name: string,
    description: string,
    value: Value,
    sinceVersion: int,
    deprecated: Option<int>)

  /** A named bit position of a set. */
  datatype Choice = Choice(
    name: string,
    description: string,
    value: int,
    sinceVersion: int,
    deprecated: Option<int>)

  datatype Element =
    | TypeElem(
        name: string,
        description: string,
        presence: Option<Presence>,     // None when the attribute is absent
        primitive: PrimitiveType,
        length: nat,                    // array arity
        offset: Option<int>,
        sinceVersion: int,
        deprecated: Option<int>,
        valueRef: Option<string>,       // `EnumName.ValueName` for a constant
        text: Option<string>,           // literal text for a constant
        constVal: Option<Value>,        // the constant, once bound
        characterEncoding: Option<string>)
    | EnumElem(
        name: string,
        description: string,
        validValues: seq<ValidValue>,
        encodingTypeName: string,
        encodingType: Option<Element>,  // set by binding
        sinceVersion: int,
        deprecated: Option<int>,
        offset: Option<int>)
    | SetElem(
        name: string,
        description: string,
        encodingTypeName: string,
        choices: seq<Choice>,
        encodingType: Option<Element>,  // set by binding
        offset: Option<int>,
        sinceVersion: int,
        deprecated: Option<int>)
    | CompositeElem(
        name: string,
        description: string,
        elements: seq<Element>,
        offset: Option<int>,
        sinceVersion: int,
        deprecated: Option<int>)
    | RefElem(
        name: string,
        description: string,
        typeName: string,
        offset: Option<int>,
        target: Option<Element>)        // set by binding

  /** `Type(...)` with its defaults: one element, no offset, since version 0, not deprecated. */
  function NewType(name: string, description: string, presence: Option<Presence>, primitive: PrimitiveType): (t: Element)
    ensures t.TypeElem? && t.name == name && t.presence == presence && t.primitive == primitive
    ensures t.length == 1 && t.offset == None && t.sinceVersion == 0 && t.deprecated == None
    ensures TotalLength(t) == Some(if presence == Some(Constant) then 0 else primitive.length)
  {
    TypeElem(name, description, presence, primitive, 1, None, 0, None, None, None, None, None)
  }

  /** `ValidValue(...)` with its defaults. */
  function NewValidValue(name: string, description: string, value: Value): (v: ValidValue)
    ensures v.name == name && v.value == value && v.sinceVersion == 0 && v.deprecated == None
  {
    ValidValue(name, description, value, 0, None)
  }

  /** `Enum(...)` with its defaults: the encoding type stays unset until binding. */
  function NewEnum(name: string, description: string, validValues: seq<ValidValue>, encodingTypeName: string): (e: Element)
    ensures e.EnumElem? && e.name == name && e.validValues == validValues && e.encodingTypeName == encodingTypeName
    ensures e.encodingType == None && e.sinceVersion == 0 && e.deprecated == None && e.offset == None
    ensures TotalLength(e) == None
  {
    EnumElem(name, description, validValues, encodingTypeName, None, 0, None, None)
  }

  /** `Choice(...)` with its defaults. */
  function NewChoice(name: string, description: string, value: int): (c: Choice)
    ensures c.name == name && c.value == value && c.sinceVersion == 0 && c.deprecated == None
  {
    Choice(name, description, value, 0, None)
  }

  /** `Set(...)` with its defaults: the encoding type stays unset until binding. */
  function NewSet(name: string, description: string, encodingTypeName: string, choices: seq<Choice>): (s: Element)
    ensures s.SetElem? && s.name == name && s.choices == choices && s.encodingTypeName == encodingTypeName
    ensures s.encodingType == None && s.offset == None && s.sinceVersion == 0 && s.deprecated == None
    ensures TotalLength(s) == None
  {
    SetElem(name, description, encodingTypeName, choices, None, None, 0, None)
  }

  /** `Composite(...)` with its defaults. */
  function NewComposite(name: string, description: string, elements: seq<Element>): (c: Element)
    ensures c.CompositeElem? && c.name == name && c.elements == elements
    ensures c.offset == None && c.sinceVersion == 0 && c.deprecated == None
  {
    CompositeElem(name, description, elements, None, 0, None)
  }

  /** `Ref(...)`: a target name and an optional offset; the target is absent until binding. */
  function NewRef(name: string, description: string, typeName: string, offset: Option<int>): (r: Element)
    ensures r.RefElem? && r.name == name && r.description == description
    ensures r.typeName == typeName && r.offset == offset
    ensures r.target == None && TotalLength(r) == None
  {
    RefElem(name, description, typeName, offset, None)
  }

  /** A choice with bit index `k` is presented as the flag value 2^k. */
  function FlagValue(c: Choice): (f: nat)
    requires c.value >= 0
    ensures f > 0 && (c.value > 0 ==> f % 2 == 0)
    decreases c.value
  {
    if c.value == 0 then 1 else 2 * FlagValue(c.(value := c.value - 1))
  }

  /**
   * Bit index 0 is flag 1 and each next index doubles the flag, whatever
   * the choice's other fields: indices 0, 1 and 2 are rendered 1, 2 and 4.
   */
  lemma {:induction false} FlagValueDoubles(c: Choice)
    requires c.value >= 0
    ensures FlagValue(c.(value := 0)) == 1
    ensures FlagValue(c.(value := c.value + 1)) == 2 * FlagValue(c)
    ensures FlagValue(c.(value := 1)) == 2 && FlagValue(c.(value := 2)) == 4
  {
    assert c.(value := c.value + 1).(value := c.value) == c;
    assert c.(value := 2).(value := 1) == c.(value := 1);
    assert c.(value := 1).(value := 0) == c.(value := 0);
  }

  /** Distinct bit indices give distinct flags. */
  lemma {:induction false} FlagValueInjective(a: Choice, b: Choice)
    requires a.value >= 0 && b.value >= 0
    ensures FlagValue(a) == FlagValue(b) <==> a.value == b.value
    decreases a.value
  {
    if a.value > 0 && b.value > 0 {
      FlagValueInjective(a.(value := a.value - 1), b.(value := b.value - 1));
    }
  }

  /**
   * `total_length`, or None where the Python property would fail because a
   * reference is still unresolved (its slot holds None). A constant type
   * occupies no bytes; any other type occupies its primitive's length once per
   * array element. Offsets play no part: members are laid out contiguously.
   */
  function TotalLength(e: Element): Option<nat>
    decreases e, 1
  {
    match e
    case TypeElem(_, _, _, _, _, _, _, _, _, _, _, _) =>
      if e.presence == Some(Constant) then Some(0) else Some(e.primitive.length * e.length)
    case EnumElem(_, _, _, _, encodingType, _, _, _) =>
      if encodingType.None? then None else TotalLength(encodingType.value)
    case SetElem(_, _, _, _, encodingType, _, _, _) =>
      if encodingType.None? then None else TotalLength(encodingType.value)
    case RefElem(_, _, _, _, target) =>
      if target.None? then None else TotalLength(target.value)
    case CompositeElem(_, _, elements, _, _, _) =>
      SumLengths(elements)
  }

  /** The summed length of composite members, or None if any member has none. */
  function SumLengths(es: seq<Element>): Option<nat>
    decreases es, 0
  {
    if es == [] then Some(0)
    else
      match (TotalLength(es[0]), SumLengths(es[1..]))
      case (Some(h), Some(t)) => Some(h + t)
      case _ => None
  }

  function AddLengths(a: Option<nat>, b: Option<nat>): Option<nat>
  {
    if a.Some? && b.Some? then Some(a.value + b.value) else None
  }

  /** `Type.total_length` as written: the primitive's length, whatever the presence or arity. */
  function TypeLengthAsWritten(t: Element): nat
    requires t.TypeElem?
  {
    t.primitive.length
  }

  /**
   * The as-written length disagrees with the tests for a constant double
   * (8 instead of 0) and with the arity rule for an 8-character array
   * (1 instead of 8).
   */
  lemma TypeLengthAsWrittenDisagrees()
    ensures var c := NewType("c", "", Some(Constant), Double);
      TypeLengthAsWritten(c) == 8 && TotalLength(c) == Some(0)
    ensures var a := TypeElem("a", "", Some(Required), Char, 8, None, 0, None, None, None, None, None);
      TypeLengthAsWritten(a) == 1 && TotalLength(a) == Some(8)
  {
  }

  /** A composite's members in sequence: lengths of concatenated member lists add up. */
  lemma {:induction false} SumLengthsAppend(a: seq<Element>, b: seq<Element>)
    ensures SumLengths(a + b) == AddLengths(SumLengths(a), SumLengths(b))
  {
    if a != [] {
      assert (a + b)[1..] == a[1..] + b;
      SumLengthsAppend(a[1..], b);
    } else {
      assert a + b == b;
    }
  }

  /** An empty composite has length 0; a one-member composite has its member's length. */
  lemma CompositeLengthSmall(c: Element, m: Element)
    requires c.CompositeElem?
    ensures c.elements == [] ==> TotalLength(c) == Some(0)
    ensures c.elements == [m] ==> TotalLength(c) == TotalLength(m)
  {
    if c.elements == [m] {
      assert c.elements[1..] == [];
      assert SumLengths(c.elements[1..]) == Some(0);
      assert c.elements[0] == m;
    }
  }

  /**
   * Nesting is transparent for length: a nested composite contributes exactly
   * the summed length of its own members.
   */
  lemma NestedCompositeLength(c: Element, i: nat)
    requires c.CompositeElem? && i < |c.elements| && c.elements[i].CompositeElem?
    ensures TotalLength(c) ==
      SumLengths(c.elements[..i] + c.elements[i].elements + c.elements[i + 1..])
  {
    var es := c.elements;
    assert es == es[..i] + [es[i]] + es[i + 1..];
    SumLengthsAppend(es[..i] + [es[i]], es[i + 1..]);
    SumLengthsAppend(es[..i], [es[i]]);
    CompositeLengthSmall(NewComposite("", "", [es[i]]), es[i]);
    SumLengthsAppend(es[..i] + es[i].elements, es[i + 1..]);
    SumLengthsAppend(es[..i], es[i].elements);
  }

  /** An element's offset never changes its length. */
  lemma LengthIgnoresOffset(e: Element, o: Option<int>)
    ensures TotalLength(e.(offset := o)) == TotalLength(e)
  {
  }

  /** Giving any composite member an offset leaves the composite's length unchanged. */
  lemma {:induction false} SumLengthsIgnoreOffsets(es: seq<Element>, i: nat, o: Option<int>)
    requires i < |es|
    ensures SumLengths(es[i := es[i].(offset := o)]) == SumLengths(es)
  {
    var es' := es[i := es[i].(offset := o)];
    if i == 0 {
      assert es'[1..] == es[1..];
    } else {
      assert es'[1..] == es[1..][i - 1 := es[i].(offset := o)];
      SumLengthsIgnoreOffsets(es[1..], i - 1, o);
    }
  }

  /**
   * Every reference is resolved, all the way down: what `total_length` needs
   * to succeed.
   */
  predicate Resolved(e: Element)
    decreases e, 1
  {
    match e
    case TypeElem(_, _, _, _, _, _, _, _, _, _, _, _) => true
    case EnumElem(_, _, _, _, encodingType, _, _, _) =>
      encodingType.Some? && Resolved(encodingType.value)
    case SetElem(_, _, _, _, encodingType, _, _, _) =>
      encodingType.Some? && Resolved(encodingType.value)
    case RefElem(_, _, _, _, target) =>
      target.Some? && Resolved(target.value)
    case CompositeElem(_, _, elements, _, _, _) =>
      AllResolved(elements)
  }

  predicate AllResolved(es: seq<Element>)
    decreases es, 0
  {
    es == [] || (Resolved(es[0]) && AllResolved(es[1..]))
  }

  /** Length is defined exactly for resolved elements. */
  lemma {:induction false} ResolvedHasLength(e: Element)
    ensures TotalLength(e).Some? <==> Resolved(e)
    decreases e, 1
  {
    match e
    case TypeElem(_, _, _, _, _, _, _, _, _, _, _, _) =>
    case EnumElem(_, _, _, _, encodingType, _, _, _) =>
      if encodingType.Some? { ResolvedHasLength(encodingType.value); }
    case SetElem(_, _, _, _, encodingType, _, _, _) =>
      if encodingType.Some? { ResolvedHasLength(encodingType.value); }
    case RefElem(_, _, _, _, target) =>
      if target.Some? { ResolvedHasLength(target.value); }
    case CompositeElem(_, _, elements, _, _, _) =>
      AllResolvedHaveLength(elements);
  }

  lemma {:induction false} AllResolvedHaveLength(es: seq<Element>)
    ensures SumLengths(es).Some? <==> AllResolved(es)
    decreases es, 0
  {
    if es != [] {
      ResolvedHasLength(es[0]);
      AllResolvedHaveLength(es[1..]);
    }
  }
}
