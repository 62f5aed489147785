/**
 * Binding: replacing the names an element holds (an encoding type name, a
 * ref's target name, a constant's `EnumName.ValueName` reference) with the
 * registry entries they designate, and computing constants.
 */
module Binding {
  import opened Wrappers
  import opened Common
  import opened PrimitiveTypes
  import opened Elements
  import Strings

  /** A registry view: name to element. */
  type Registry = map<string, Element>

  /** Index of the first valid value called `name`, or `|vvs|` when there is none. */
  function FindValidValue(vvs: seq<ValidValue>, name: string): (i: nat)
    ensures i <= |vvs| && (i < |vvs| ==> vvs[i].name == name)
    ensures forall k :: 0 <= k < i ==> vvs[k].name != name
  {
    if vvs == [] then 0
    else if vvs[0].name == name then 0
    else 1 + FindValidValue(vvs[1..], name)
  }

  /**
   * Resolve `EnumName.ValueName`: a reference without exactly one dot or
   * naming a value the enum lacks is a ValueError, as is a name that is
   * registered but is not an enum; an unknown enum name is a KeyError.
   */
  function ResolveValueRef(valueRef: string, types: Registry): Result<ValidValue>
  {
    match Strings.SplitDot(valueRef)
    case None => Err(ValueError)
    case Some((enumName, valueName)) =>
      if enumName !in types then Err(KeyError)
      else if !types[enumName].EnumElem? then Err(ValueError)
      else
        var vvs := types[enumName].validValues;
        var i := FindValidValue(vvs, valueName);
        if i == |vvs| then Err(ValueError) else Ok(vvs[i])
  }

  /**
   * A resolved reference names a valid value of a registered enum, and it is
   * the first one of that name; resolution fails exactly when no such value
   * exists.
   */
  lemma ResolveValueRefMeaning(enumName: string, valueName: string, types: Registry)
    requires Strings.Count(enumName, '.') == 0 && Strings.Count(valueName, '.') == 0
    ensures var r := ResolveValueRef(enumName + "." + valueName, types);
      && (r.Ok? <==> enumName in types && types[enumName].EnumElem?
                     && exists v :: v in types[enumName].validValues && v.name == valueName)
      && (r.Ok? ==> r.value in types[enumName].validValues && r.value.name == valueName)
      && (r.Err? && enumName !in types ==> r.error == KeyError)
      && (r.Err? && enumName in types ==> r.error == ValueError)
  {
    Strings.JoinSplitDot(enumName, valueName);
  }

  /** The constant's literal text read according to its primitive: char text is kept as is. */
  function ParseLiteral(p: PrimitiveType, text: string): Result<Value>
  {
    if p.name == "char" then Ok(CharValue(text))
    else
      match Strings.ParseInt(text)
      case Some(i) => Ok(IntValue(i))
      case None => Err(ValueError)
  }

  /**
   * Binding a Type: only a constant that has no value yet is affected. It
   * needs exactly one value source: a value reference, whose valid value's
   * value becomes the constant, or literal text, parsed by the primitive.
   */
  function BindType(t: Element, types: Registry): Result<Element>
    requires t.TypeElem?
  {
    if t.presence != Some(Constant) || t.constVal.Some? then Ok(t)
    else if t.valueRef.Some? && t.text.Some? then Err(ValueError)
    else if t.valueRef.Some? then
      var vv :- ResolveValueRef(t.valueRef.value, types);
      Ok(t.(constVal := Some(vv.value)))
    else if t.text.Some? then
      var v :- ParseLiteral(t.primitive, t.text.value);
      Ok(t.(constVal := Some(v)))
    else Err(ValueError)
  }

  /** `lazy_bind`: `types[name]` for every name the element holds; KeyError for an absent one. */
  function Bind(e: Element, types: Registry): Result<Element>
    decreases e, 1
  {
    match e
    case TypeElem(_, _, _, _, _, _, _, _, _, _, _, _) => BindType(e, types)
    case EnumElem(n, d, vvs, name, _, sv, dep, off) =>
      if name in types then Ok(EnumElem(n, d, vvs, name, Some(types[name]), sv, dep, off))
      else Err(KeyError)
    case SetElem(n, d, name, cs, _, off, sv, dep) =>
      if name in types then Ok(SetElem(n, d, name, cs, Some(types[name]), off, sv, dep))
      else Err(KeyError)
    case RefElem(n, d, name, off, _) =>
      if name in types then Ok(RefElem(n, d, name, off, Some(types[name]))) else Err(KeyError)
    case CompositeElem(n, d, elements, off, sv, dep) =>
      var bound :- BindMembers(elements, types);
      Ok(CompositeElem(n, d, bound, off, sv, dep))
  }

  /** A composite binds its members one by one, in declaration order; the first failure stops it. */
  function BindMembers(es: seq<Element>, types: Registry): Result<seq<Element>>
    decreases es, 0
  {
    if es == [] then Ok([])
    else
      var head :- Bind(es[0], types);
      var tail :- BindMembers(es[1..], types);
      Ok([head] + tail)
  }

  /** The element as declared: what binding leaves alone. */
  function Declared(e: Element): Element
    decreases e, 1
  {
    match e
    case TypeElem(_, _, _, _, _, _, _, _, valueRef, text, _, _) =>
      if valueRef.Some? || text.Some? then e.(constVal := None) else e
    case EnumElem(n, d, vvs, name, _, sv, dep, off) => EnumElem(n, d, vvs, name, None, sv, dep, off)
    case SetElem(n, d, name, cs, _, off, sv, dep) => SetElem(n, d, name, cs, None, off, sv, dep)
    case RefElem(n, d, name, off, _) => RefElem(n, d, name, off, None)
    case CompositeElem(n, d, elements, off, sv, dep) => CompositeElem(n, d, DeclaredAll(elements), off, sv, dep)
  }

  function DeclaredAll(es: seq<Element>): (r: seq<Element>)
    ensures |r| == |es|
    decreases es, 0
  {
    if es == [] then [] else [Declared(es[0])] + DeclaredAll(es[1..])
  }

  /**
   * Bound against `types`: every reference slot holds exactly the registry
   * entry its name designates, and every constant has its value.
   */
  predicate BoundAgainst(e: Element, types: Registry)
    decreases e, 1
  {
    match e
    case TypeElem(_, _, _, _, _, _, _, _, _, _, _, _) => e.presence == Some(Constant) ==> e.constVal.Some?
    case EnumElem(_, _, _, name, encodingType, _, _, _) =>
      name in types && encodingType == Some(types[name])
    case SetElem(_, _, name, _, encodingType, _, _, _) =>
      name in types && encodingType == Some(types[name])
    case RefElem(_, _, name, _, target) =>
      name in types && target == Some(types[name])
    case CompositeElem(_, _, elements, _, _, _) => AllBoundAgainst(elements, types)
  }

  predicate AllBoundAgainst(es: seq<Element>, types: Registry)
    decreases es, 0
  {
    es == [] || (BoundAgainst(es[0], types) && AllBoundAgainst(es[1..], types))
  }

  /**
   * A successful bind changes nothing but the reference slots and the
   * constant, leaves every slot holding its registry entry, and binding
   * again against the same registry changes nothing.
   */
  lemma {:induction false} BindMeaning(e: Element, types: Registry)
    requires Bind(e, types).Ok?
    ensures Declared(Bind(e, types).value) == Declared(e)
    ensures BoundAgainst(Bind(e, types).value, types)
    ensures Bind(Bind(e, types).value, types) == Bind(e, types)
    decreases e, 1
  {
    match e
    case TypeElem(_, _, _, _, _, _, _, _, _, _, _, _) =>
    case EnumElem(_, _, _, _, _, _, _, _) =>
    case SetElem(_, _, _, _, _, _, _, _) =>
    case RefElem(_, _, _, _, _) =>
    case CompositeElem(_, _, elements, _, _, _) =>
      BindMembersMeaning(elements, types);
  }

  lemma {:induction false} BindMembersMeaning(es: seq<Element>, types: Registry)
    requires BindMembers(es, types).Ok?
    ensures |BindMembers(es, types).value| == |es|
    ensures DeclaredAll(BindMembers(es, types).value) == DeclaredAll(es)
    ensures AllBoundAgainst(BindMembers(es, types).value, types)
    ensures BindMembers(BindMembers(es, types).value, types) == BindMembers(es, types)
    decreases es, 0
  {
    if es != [] {
      var bs := BindMembers(es, types).value;
      BindMeaning(es[0], types);
      BindMembersMeaning(es[1..], types);
      assert bs[0] == Bind(es[0], types).value;
      assert bs[1..] == BindMembers(es[1..], types).value;
    }
  }

  /** Two registries that hold the same declarations under the same names. */
  predicate SameDeclarations(t1: Registry, t2: Registry)
  {
    t1.Keys == t2.Keys && forall k :: k in t1 ==> Declared(t1[k]) == Declared(t2[k])
  }

  /**
   * Whether binding succeeds, and with which error it fails, depends only on
   * the names registered and on their declarations, never on whether the
   * registry's entries are bound yet.
   */
  lemma {:induction false} BindDependsOnDeclarations(e: Element, t1: Registry, t2: Registry)
    requires SameDeclarations(t1, t2)
    ensures Bind(e, t1).Ok? <==> Bind(e, t2).Ok?
    ensures Bind(e, t1).Err? ==> Bind(e, t1).error == Bind(e, t2).error
    decreases e, 1
  {
    match e
    case TypeElem(_, _, _, _, _, _, _, _, _, _, _, _) =>
      BindTypeDependsOnDeclarations(e, t1, t2);
    case EnumElem(_, _, _, _, _, _, _, _) =>
    case SetElem(_, _, _, _, _, _, _, _) =>
    case RefElem(_, _, _, _, _) =>
    case CompositeElem(_, _, elements, _, _, _) =>
      BindMembersDependsOnDeclarations(elements, t1, t2);
  }

  /** An encoded type binds alike against two registries that declare the same types. */
  lemma BindTypeDependsOnDeclarations(t: Element, t1: Registry, t2: Registry)
    requires t.TypeElem? && SameDeclarations(t1, t2)
    ensures BindType(t, t1).Ok? <==> BindType(t, t2).Ok?
    ensures BindType(t, t1).Err? ==> BindType(t, t1).error == BindType(t, t2).error
  {
    if t.valueRef.Some? {
      ResolveDependsOnDeclarations(t.valueRef.value, t1, t2);
    }
  }

  /** A value reference resolves alike against two registries that declare the same types. */
  lemma ResolveDependsOnDeclarations(valueRef: string, t1: Registry, t2: Registry)
    requires SameDeclarations(t1, t2)
    ensures ResolveValueRef(valueRef, t1) == ResolveValueRef(valueRef, t2)
  {
    match Strings.SplitDot(valueRef)
    case None =>
    case Some((enumName, _)) =>
      if enumName in t1 {
        DeclaredEnum(t1[enumName], t2[enumName]);
      }
  }

  /** Two elements declared alike are both enums or neither, with the same valid values. */
  lemma DeclaredEnum(e1: Element, e2: Element)
    requires Declared(e1) == Declared(e2)
    ensures e1.EnumElem? <==> e2.EnumElem?
    ensures e1.EnumElem? ==> e1.validValues == e2.validValues
  {
  }

  lemma {:induction false} BindMembersDependsOnDeclarations(es: seq<Element>, t1: Registry, t2: Registry)
    requires SameDeclarations(t1, t2)
    ensures BindMembers(es, t1).Ok? <==> BindMembers(es, t2).Ok?
    ensures BindMembers(es, t1).Err? ==> BindMembers(es, t1).error == BindMembers(es, t2).error
    decreases es, 0
  {
    if es != [] {
      BindDependsOnDeclarations(es[0], t1, t2);
      BindMembersDependsOnDeclarations(es[1..], t1, t2);
    }
  }

  /** The names whose registry entries an element's reference slots receive. */
  function SlotNames(e: Element): set<string>
    decreases e, 1
  {
    match e
    case TypeElem(_, _, _, _, _, _, _, _, _, _, _, _) => {}
    case EnumElem(_, _, _, name, _, _, _, _) => {name}
    case SetElem(_, _, name, _, _, _, _, _) => {name}
    case RefElem(_, _, name, _, _) => {name}
    case CompositeElem(_, _, elements, _, _, _) => AllSlotNames(elements)
  }

  function AllSlotNames(es: seq<Element>): set<string>
    decreases es, 0
  {
    if es == [] then {} else SlotNames(es[0]) + AllSlotNames(es[1..])
  }

  /** Binding against a registry whose entries at the element's slot names are resolved yields a resolved element. */
  lemma {:induction false} BindResolves(e: Element, types: Registry)
    requires forall n :: n in SlotNames(e) ==> n in types && Resolved(types[n])
    requires Bind(e, types).Ok?
    ensures Resolved(Bind(e, types).value)
    ensures TotalLength(Bind(e, types).value).Some?
    decreases e, 1
  {
    if e.CompositeElem? {
      BindMembersResolve(e.elements, types);
    }
    ResolvedHasLength(Bind(e, types).value);
  }

  lemma {:induction false} BindMembersResolve(es: seq<Element>, types: Registry)
    requires forall n :: n in AllSlotNames(es) ==> n in types && Resolved(types[n])
    requires BindMembers(es, types).Ok?
    ensures AllResolved(BindMembers(es, types).value)
    decreases es, 0
  {
    if es != [] {
      var bs := BindMembers(es, types).value;
      BindResolves(es[0], types);
      BindMembersResolve(es[1..], types);
      assert bs[1..] == BindMembers(es[1..], types).value;
    }
  }

  /**
   * Enum, Set and Ref: binding succeeds exactly when the name is registered
   * (KeyError otherwise), and the bound element's length is the length of
   * the registry entry it now holds.
   */
  lemma BindForwardsLength(e: Element, types: Registry)
    requires e.EnumElem? || e.SetElem? || e.RefElem?
    ensures var name := if e.RefElem? then e.typeName else e.encodingTypeName;
      && (Bind(e, types).Ok? <==> name in types)
      && (Bind(e, types).Err? ==> Bind(e, types).error == KeyError)
      && (Bind(e, types).Ok? ==> TotalLength(Bind(e, types).value) == TotalLength(types[name]))
  {
  }

  /** The binding failures of a constant Type that the tests pin. */
  lemma BindConstantFailures(t: Element, types: Registry, enumName: string, valueName: string)
    requires t.TypeElem? && t.presence == Some(Constant) && t.constVal.None?
    requires Strings.Count(enumName, '.') == 0 && Strings.Count(valueName, '.') == 0
    ensures t.valueRef.None? && t.text.None? ==> Bind(t, types) == Err(ValueError)
    ensures t.valueRef == Some(enumName + "." + valueName) && t.text.None? && enumName !in types ==>
      Bind(t, types) == Err(KeyError)
    ensures t.valueRef == Some(enumName + "." + valueName) && t.text.None? && enumName in types
      && types[enumName].EnumElem?
      && (forall v :: v in types[enumName].validValues ==> v.name != valueName)
      ==> Bind(t, types) == Err(ValueError)
  {
    Strings.JoinSplitDot(enumName, valueName);
  }

  /**
   * A constant bound through `E.V` takes the value of valid value V of enum
   * E: the one at index `i`, provided no earlier value of E is also called V
   * (as the parser guarantees, since it refuses duplicate names).
   */
  lemma BindConstantFromValueRef(t: Element, types: Registry, enumName: string, vv: ValidValue, i: nat)
    requires t.TypeElem? && t.presence == Some(Constant) && t.constVal.None? && t.text.None?
    requires Strings.Count(enumName, '.') == 0 && Strings.Count(vv.name, '.') == 0
    requires t.valueRef == Some(enumName + "." + vv.name)
    requires enumName in types && types[enumName].EnumElem?
    requires i < |types[enumName].validValues| && types[enumName].validValues[i] == vv
    requires forall j :: 0 <= j < i ==> types[enumName].validValues[j].name != vv.name
    ensures Bind(t, types) == Ok(t.(constVal := Some(vv.value)))
  {
    Strings.JoinSplitDot(enumName, vv.name);
    var k := FindValidValue(types[enumName].validValues, vv.name);
    assert k == i;
  }

  /**
   * Binding reads the registry only at the element's slot names and, for a
   * constant, through the declarations of the enum its value reference names.
   */
  lemma {:induction false} BindReadsSlots(e: Element, t1: Registry, t2: Registry)
    requires SameDeclarations(t1, t2)
    requires forall n :: n in SlotNames(e) && n in t1 ==> t1[n] == t2[n]
    ensures Bind(e, t1) == Bind(e, t2)
    decreases e, 1
  {
    match e
    case TypeElem(_, _, _, _, _, _, _, _, _, _, _, _) =>
      if e.valueRef.Some? {
        ResolveDependsOnDeclarations(e.valueRef.value, t1, t2);
      }
    case EnumElem(_, _, _, _, _, _, _, _) =>
    case SetElem(_, _, _, _, _, _, _, _) =>
    case RefElem(_, _, _, _, _) =>
    case CompositeElem(_, _, elements, _, _, _) =>
      BindMembersReadsSlots(elements, t1, t2);
  }

  lemma {:induction false} BindMembersReadsSlots(es: seq<Element>, t1: Registry, t2: Registry)
    requires SameDeclarations(t1, t2)
    requires forall n :: n in AllSlotNames(es) && n in t1 ==> t1[n] == t2[n]
    ensures BindMembers(es, t1) == BindMembers(es, t2)
    decreases es, 0
  {
    if es != [] {
      BindReadsSlots(es[0], t1, t2);
      BindMembersReadsSlots(es[1..], t1, t2);
    }
  }

  /**
   * `lazy_bind` as its result reads once the bind loop has bound every
   * registered type in place. A slot holds the shared registry object, and the
   * loop binds that object too, so the slot shows its target bound in turn.
   * `depth` bounds how many names are followed; past it a slot holds its
   * target as declared.
   */
  function Link(e: Element, types: Registry, depth: nat): Result<Element>
    decreases depth, 1
  {
    if depth == 0 then Bind(e, types) else Bind(e, LinkedView(types, depth - 1))
  }

  /** Every registered type linked to `depth`; one that fails to bind stays as declared. */
  function LinkedView(types: Registry, depth: nat): (v: Registry)
    ensures v.Keys == types.Keys
    decreases depth, 2
  {
    map k | k in types :: if Link(types[k], types, depth).Ok? then Link(types[k], types, depth).value else types[k]
  }

  /**
   * Within `depth` steps every name the element's slots follow is registered
   * and binds, and so on down: the references reach no cycle in that many steps.
   */
  predicate Grounded(e: Element, types: Registry, depth: nat)
    decreases depth
  {
    forall n :: n in SlotNames(e) ==>
      && n in types && depth > 0
      && Link(types[n], types, depth - 1).Ok?
      && Grounded(types[n], types, depth - 1)
  }

  /** The linked registry holds the same declarations under the same names. */
  lemma LinkedViewDeclarations(types: Registry, depth: nat)
    ensures SameDeclarations(LinkedView(types, depth), types)
  {
    var v := LinkedView(types, depth);
    forall k | k in types
      ensures Declared(v[k]) == Declared(types[k])
    {
      if Link(types[k], types, depth).Ok? {
        if depth == 0 {
          BindMeaning(types[k], types);
        } else {
          BindMeaning(types[k], LinkedView(types, depth - 1));
        }
      }
    }
  }

  /** The linked registry keeps every entry's name. */
  lemma LinkedViewNames(types: Registry, depth: nat)
    ensures forall k :: k in types ==> LinkedView(types, depth)[k].name == types[k].name
  {
    LinkedViewDeclarations(types, depth);
    forall k | k in types
      ensures LinkedView(types, depth)[k].name == types[k].name
    {
      assert Declared(LinkedView(types, depth)[k]).name == Declared(types[k]).name;
    }
  }

  /**
   * Linking succeeds, or fails with the same error, exactly as `lazy_bind`
   * against the registry does, and it keeps the element's declaration.
   */
  lemma LinkAgreesBind(e: Element, types: Registry, depth: nat)
    ensures Link(e, types, depth).Ok? <==> Bind(e, types).Ok?
    ensures Link(e, types, depth).Err? ==> Link(e, types, depth).error == Bind(e, types).error
    ensures Link(e, types, depth).Ok? ==> Declared(Link(e, types, depth).value) == Declared(e)
  {
    if depth > 0 {
      var v := LinkedView(types, depth - 1);
      LinkedViewDeclarations(types, depth - 1);
      BindDependsOnDeclarations(e, v, types);
      if Bind(e, v).Ok? {
        BindMeaning(e, v);
      }
    } else if Bind(e, types).Ok? {
      BindMeaning(e, types);
    }
  }

  /** A linked element holds, in each slot, the entry of the registry linked one step less. */
  lemma LinkBoundAgainst(e: Element, types: Registry, depth: nat)
    requires depth > 0 && Link(e, types, depth).Ok?
    ensures BoundAgainst(Link(e, types, depth).value, LinkedView(types, depth - 1))
  {
    BindMeaning(e, LinkedView(types, depth - 1));
  }

  /** A linked element binds again against any registry of the same declarations. */
  lemma LinkRebinds(e: Element, types: Registry, depth: nat, other: Registry)
    requires Link(e, types, depth).Ok? && SameDeclarations(other, types)
    ensures Bind(Link(e, types, depth).value, other).Ok?
  {
    var v := if depth == 0 then types else LinkedView(types, depth - 1);
    assert Link(e, types, depth) == Bind(e, v);
    var b := Bind(e, v).value;
    BindMeaning(e, v);
    assert Bind(b, v).Ok?;
    if depth > 0 {
      LinkedViewDeclarations(types, depth - 1);
    }
    BindDependsOnDeclarations(b, v, types);
    BindDependsOnDeclarations(b, other, types);
  }

  /** A grounded element links to a resolved one, so its byte length is known. */
  lemma {:induction false} LinkResolves(e: Element, types: Registry, depth: nat)
    requires Grounded(e, types, depth) && Link(e, types, depth).Ok?
    ensures Resolved(Link(e, types, depth).value)
    ensures TotalLength(Link(e, types, depth).value).Some?
    decreases depth
  {
    if depth == 0 {
      assert forall n :: n !in SlotNames(e);
      BindResolves(e, types);
    } else {
      var v := LinkedView(types, depth - 1);
      forall n | n in SlotNames(e)
        ensures n in v && Resolved(v[n])
      {
        LinkResolves(types[n], types, depth - 1);
      }
      BindResolves(e, v);
    }
  }

  /** Once the references are grounded, following them one step further changes nothing. */
  lemma {:induction false} LinkStable(e: Element, types: Registry, depth: nat)
    requires Grounded(e, types, depth)
    ensures Link(e, types, depth + 1) == Link(e, types, depth)
    decreases depth
  {
    var v1 := LinkedView(types, depth);
    LinkedViewDeclarations(types, depth);
    if depth == 0 {
      assert forall n :: n !in SlotNames(e);
      BindReadsSlots(e, v1, types);
    } else {
      var v0 := LinkedView(types, depth - 1);
      LinkedViewDeclarations(types, depth - 1);
      forall n | n in SlotNames(e) && n in v1
        ensures v1[n] == v0[n]
      {
        LinkStable(types[n], types, depth - 1);
        LinkedViewEntry(types, depth, n);
      }
      forall k | k in v1
        ensures Declared(v1[k]) == Declared(v0[k])
      {
        assert Declared(v1[k]) == Declared(types[k]);
      }
      BindReadsSlots(e, v1, v0);
    }
  }

  /** Two depths that link an entry alike hold the same entry in their views. */
  lemma LinkedViewEntry(types: Registry, depth: nat, k: string)
    requires k in types && depth > 0
    requires Link(types[k], types, depth) == Link(types[k], types, depth - 1)
    ensures LinkedView(types, depth)[k] == LinkedView(types, depth - 1)[k]
  {
  }

  /** Grounded within `depth` steps is grounded within more. */
  lemma {:induction false} GroundedMonotone(e: Element, types: Registry, depth: nat)
    requires Grounded(e, types, depth)
    ensures Grounded(e, types, depth + 1)
    decreases depth
  {
    forall n | n in SlotNames(e)
      ensures Link(types[n], types, depth).Ok? && Grounded(types[n], types, depth)
    {
      LinkAgreesBind(types[n], types, depth);
      LinkAgreesBind(types[n], types, depth - 1);
      GroundedMonotone(types[n], types, depth - 1);
    }
  }

  /** Any depth at least the grounding depth links an element the same way. */
  lemma {:induction false} LinkSettles(e: Element, types: Registry, depth: nat, deeper: nat)
    requires Grounded(e, types, depth) && depth <= deeper
    ensures Grounded(e, types, deeper)
    ensures Link(e, types, deeper) == Link(e, types, depth)
    decreases deeper - depth
  {
    if depth < deeper {
      LinkStable(e, types, depth);
      GroundedMonotone(e, types, depth);
      LinkSettles(e, types, depth + 1, deeper);
    }
  }

  /**
   * The slot of a grounded enum, set or ref holds its target exactly as the
   * linked registry holds it: the one shared object, bound.
   */
  lemma LinkSlot(e: Element, types: Registry, depth: nat)
    requires e.EnumElem? || e.SetElem? || e.RefElem?
    requires Grounded(e, types, depth) && Link(e, types, depth).Ok?
    ensures var name := if e.RefElem? then e.typeName else e.encodingTypeName;
      var b := Link(e, types, depth).value;
      && name in types
      && (if e.RefElem? then b.target else b.encodingType) == Some(LinkedView(types, depth)[name])
  {
    var name := if e.RefElem? then e.typeName else e.encodingTypeName;
    assert name in SlotNames(e);
    var v := LinkedView(types, depth - 1);
    BindMeaning(e, v);
    LinkStable(types[name], types, depth - 1);
  }

  /**
   * In the linked registry, a grounded entry has a byte length and each of
   * its enum, set and ref slots holds the linked entry it names.
   */
  lemma LinkedEntry(types: Registry, depth: nat, k: string)
    requires k in types && Grounded(types[k], types, depth) && Link(types[k], types, depth).Ok?
    ensures var v := LinkedView(types, depth); var b := v[k];
      && Resolved(b) && TotalLength(b).Some?
      && (b.EnumElem? || b.SetElem? ==> b.encodingTypeName in v && b.encodingType == Some(v[b.encodingTypeName]))
      && (b.RefElem? ==> b.typeName in v && b.target == Some(v[b.typeName]))
  {
    var e := types[k];
    LinkResolves(e, types, depth);
    LinkAgreesBind(e, types, depth);
    if e.EnumElem? || e.SetElem? || e.RefElem? {
      LinkSlot(e, types, depth);
    }
  }

  /**
   * A ref to a composite that holds an enum encoded as `char`: once every
   * type is bound, the ref's length goes through the composite and the enum
   * to the char, one byte.
   */
  lemma RefThroughEnumLength(depth: nat)
    requires depth >= 2
    ensures var types := map[
        "char" := NewType("char", "", Some(Required), Char),
        "Booster" := NewComposite("Booster", "", [NewEnum("BoostType", "", [], "char")]),
        "Engine" := NewComposite("Engine", "", [NewRef("booster", "", "Booster", None)])];
      && Link(types["Engine"], types, depth).Ok?
      && TotalLength(Link(types["Engine"], types, depth).value) == Some(1)
  {
    var charType := NewType("char", "", Some(Required), Char);
    var boostType := NewEnum("BoostType", "", [], "char");
    var booster := NewComposite("Booster", "", [boostType]);
    var ref := NewRef("booster", "", "Booster", None);
    var engine := NewComposite("Engine", "", [ref]);
    var types := map["char" := charType, "Booster" := booster, "Engine" := engine];
    var v1 := LinkedView(types, depth - 1);
    var v2 := LinkedView(types, depth - 2);
    assert Link(charType, types, depth - 2) == Ok(charType);
    assert v2["char"] == charType;
    var boundEnum := EnumElem("BoostType", "", [], "char", Some(charType), 0, None, None);
    assert Bind(boostType, v2) == Ok(boundEnum);
    assert [boostType][0] == boostType && [boostType][1..] == [];
    assert BindMembers([], v2) == Ok([]);
    assert [boundEnum] + [] == [boundEnum];
    assert BindMembers([boostType], v2) == Ok([boundEnum]);
    assert Link(booster, types, depth - 1) == Bind(booster, v2);
    assert Link(booster, types, depth - 1) == Ok(NewComposite("Booster", "", [boundEnum]));
    assert v1["Booster"] == NewComposite("Booster", "", [boundEnum]);
    var boundRef := RefElem("booster", "", "Booster", None, Some(v1["Booster"]));
    assert Bind(ref, v1) == Ok(boundRef);
    assert [ref][0] == ref && [ref][1..] == [];
    assert BindMembers([], v1) == Ok([]);
    assert [boundRef] + [] == [boundRef];
    assert BindMembers([ref], v1) == Ok([boundRef]);
    assert Link(engine, types, depth) == Bind(engine, v1);
    assert Link(engine, types, depth) == Ok(NewComposite("Engine", "", [boundRef]));
    assert TotalLength(charType) == Some(1);
    assert TotalLength(boundEnum) == Some(1);
    assert [boundEnum][0] == boundEnum && [boundEnum][1..] == [];
    assert SumLengths([boundEnum]) == Some(1);
    assert TotalLength(v1["Booster"]) == Some(1);
    assert TotalLength(boundRef) == Some(1);
    assert [boundRef][0] == boundRef && [boundRef][1..] == [];
    assert SumLengths([boundRef]) == Some(1);
  }
}
