/**
 * The schema-level steps of the XML reader: resolving a field's constant,
 * the order of a message's members, the package a message inherits, and
 * loading the types (every top-level type is registered before any is bound,
 * then the header composite is looked up).
 */
module XmlSchema {
  import opened Wrappers
  import opened Strings
  import opened Elements
  import opened Binding
  import opened Attributes
  import opened XmlTypes
  import opened TypesRegistry
  import opened MessageCollection
  import opened Schema

  // ---------------------------------------------------------------------------
  // value references

  /**
   * `value_ref_to_valid_value` on the registry's contents: every failure of
   * the resolution (no single dot, an unknown enum, a name that is not an
   * enum, a missing value) is reported as one SchemaParsingError.
   */
  function ValueRefLookup(valueRef: string, types: Registry): (r: Result<ValidValue>)
    ensures r.Ok? <==> ResolveValueRef(valueRef, types).Ok?
    ensures r.Ok? ==> r.value == ResolveValueRef(valueRef, types).value
    ensures r.Err? ==> r.error == SchemaParsingError
  {
    match ResolveValueRef(valueRef, types)
    case Ok(vv) => Ok(vv)
    case Err(_) => Err(SchemaParsingError)
  }

  /**
   * `E.V` resolves exactly when E is a registered enum that has a valid value
   * named V, and then to the first such valid value.
   */
  lemma ValueRefLookupMeaning(enumName: string, valueName: string, types: Registry)
    requires Count(enumName, '.') == 0 && Count(valueName, '.') == 0
    ensures var r := ValueRefLookup(enumName + "." + valueName, types);
      && (r.Ok? <==> enumName in types && types[enumName].EnumElem?
                     && exists v :: v in types[enumName].validValues && v.name == valueName)
      && (r.Ok? ==> r.value == types[enumName].validValues[FindValidValue(types[enumName].validValues, valueName)])
  {
    ResolveValueRefMeaning(enumName, valueName, types);
    JoinSplitDot(enumName, valueName);
  }

  /** A reference with no dot, or with more than one, never resolves. */
  lemma ValueRefNeedsOneDot(valueRef: string, types: Registry)
    requires Count(valueRef, '.') != 1
    ensures ValueRefLookup(valueRef, types) == Err(SchemaParsingError)
  {
    SplitDotJoin(valueRef);
  }

  /**
   * `value_ref_to_valid_value`: split the reference at its dot, look the
   * enum up in the registry, then search its valid values in order.
   */
  method ValueRefToValidValue(valueRef: string, types: Types) returns (r: Result<ValidValue>)
    requires types.Valid()
    ensures r == ValueRefLookup(valueRef, types.entries)
  {
    var parts := SplitDot(valueRef);
    if parts.None? {
      return Err(SchemaParsingError);
    }
    var enumName := parts.value.0;
    var valueName := parts.value.1;
    var found := types.GetItem(enumName);
    if found.Err? {
      return Err(SchemaParsingError);
    }
    var e := found.value;
    if !e.EnumElem? {
      return Err(SchemaParsingError);
    }
    var i := 0;
    while i < |e.validValues|
      invariant i <= |e.validValues|
      invariant forall k :: 0 <= k < i ==> e.validValues[k].name != valueName
    {
      if e.validValues[i].name == valueName {
        assert FindValidValue(e.validValues, valueName) == i;
        return Ok(e.validValues[i]);
      }
      i := i + 1;
    }
    return Err(SchemaParsingError);
  }

  // ---------------------------------------------------------------------------
  // a field's constant

  /** Where a constant comes from: literal text, or the value a type already holds. */
  datatype ConstSource = Text(text: string) | Stored(value: Value)

  /** `Type.parse`, which reads a constant for its type, is not part of this model. */
  type ConstParser = (Element, ConstSource) -> Result<Value>

  /** Python truthiness of optional text: present and non-empty. */
  predicate Given(s: Option<string>)
  {
    s.Some? && s.value != ""
  }

  /** Python truthiness of a value: a non-zero integer or non-empty bytes. */
  predicate Truthy(v: Value)
  {
    match v
    case IntValue(i) => i != 0
    case CharValue(t) => t != ""
  }

  /** Python truthiness of an optional constant source. */
  predicate TruthySource(c: Option<ConstSource>)
  {
    c.Some? && match c.value
               case Text(t) => t != ""
               case Stored(v) => Truthy(v)
  }

  /**
   * `field_constant_value` as written: the field's reference and text, each
   * falling back to the type's own when falsy; an error unless exactly one
   * of the two is truthy, raised while formatting a message that names an
   * undefined variable; then the referenced valid value's value, or the
   * type's reading of the constant.
   */
  function FieldConstantValueAsWritten(valueRef: Option<string>, text: Option<string>, t: Element,
                                       types: Registry, parse: ConstParser): (r: Result<Value>)
    ensures var ref := if Given(valueRef) then valueRef else if t.TypeElem? then t.valueRef else None;
      var src := if Given(text) then Some(Text(text.value))
                 else if t.TypeElem? && t.constVal.Some? then Some(Stored(t.constVal.value)) else None;
      && (Given(ref) == TruthySource(src) ==> r == Err(NameError))
      && (Given(ref) && !TruthySource(src) ==>
            (r.Ok? <==> ResolveValueRef(ref.value, types).Ok?)
            && (r.Ok? ==> r.value == ResolveValueRef(ref.value, types).value.value)
            && (r.Err? ==> r.error == SchemaParsingError))
      && (!Given(ref) && TruthySource(src) ==> r == parse(t, src.value))
  {
    var ref := if Given(valueRef) then valueRef else if t.TypeElem? then t.valueRef else None;
    var src := if Given(text) then Some(Text(text.value))
               else if t.TypeElem? && t.constVal.Some? then Some(Stored(t.constVal.value)) else None;
    if Given(ref) == TruthySource(src) then Err(NameError)
    else if Given(ref) then
      var vv :- ValueRefLookup(ref.value, types);
      Ok(vv.value)
    else parse(t, src.value)
  }

  /**
   * A field's constant, with the evidently intended rule: the field's own
   * reference and text, of which at most one may be given; when it gives
   * neither, the constant its type already holds; a SchemaParsingError when
   * there is no source or two.
   */
  function FieldConstantValue(valueRef: Option<string>, text: Option<string>, t: Element,
                              types: Registry, parse: ConstParser): (r: Result<Value>)
    ensures Given(valueRef) && Given(text) ==> r == Err(SchemaParsingError)
    ensures !Given(valueRef) && !Given(text) && !(t.TypeElem? && t.constVal.Some?) ==> r == Err(SchemaParsingError)
    ensures Given(valueRef) && !Given(text) ==>
      (r.Ok? <==> ResolveValueRef(valueRef.value, types).Ok?)
      && (r.Ok? ==> r.value == ResolveValueRef(valueRef.value, types).value.value)
      && (r.Err? ==> r.error == SchemaParsingError)
    ensures !Given(valueRef) && Given(text) ==> r == parse(t, Text(text.value))
    ensures !Given(valueRef) && !Given(text) && t.TypeElem? && t.constVal.Some? ==>
      r == parse(t, Stored(t.constVal.value))
  {
    if Given(valueRef) && Given(text) then Err(SchemaParsingError)
    else if Given(valueRef) then
      var vv :- ValueRefLookup(valueRef.value, types);
      Ok(vv.value)
    else if Given(text) then parse(t, Text(text.value))
    else if t.TypeElem? && t.constVal.Some? then parse(t, Stored(t.constVal.value))
    else Err(SchemaParsingError)
  }

  /**
   * Where the field's type holds no constant source of its own, the code as
   * written and the intended rule give the same constant and fail in the
   * same cases; they differ only in the error a conflicting or missing
   * source raises.
   */
  lemma FieldConstantAgreesOffConstantTypes(valueRef: Option<string>, text: Option<string>, t: Element,
                                            types: Registry, parse: ConstParser)
    requires !(t.TypeElem? && (t.valueRef.Some? || t.constVal.Some?))
    requires forall t', c :: parse(t', c).Err? ==> parse(t', c).error != NameError
    ensures var written := FieldConstantValueAsWritten(valueRef, text, t, types, parse);
      && (written.Ok? <==> FieldConstantValue(valueRef, text, t, types, parse).Ok?)
      && (written.Ok? ==> written == FieldConstantValue(valueRef, text, t, types, parse))
      && (written.Err? && written.error != NameError ==> written == FieldConstantValue(valueRef, text, t, types, parse))
      && (written.Err? && written.error == NameError ==>
            FieldConstantValue(valueRef, text, t, types, parse) == Err(SchemaParsingError))
  {
  }

  /**
   * As written, a type whose constant is 0 counts as having no constant, so
   * a field of that type that gives no source of its own is rejected; the
   * intended rule reads the type's constant.
   */
  lemma ZeroConstantRejected(t: Element, types: Registry, parse: ConstParser)
    requires t.TypeElem? && t.valueRef.None? && t.constVal == Some(IntValue(0))
    ensures FieldConstantValueAsWritten(None, None, t, types, parse) == Err(NameError)
    ensures FieldConstantValue(None, None, t, types, parse) == parse(t, Stored(IntValue(0)))
  {
  }

  /**
   * As written, a field that gives both a reference and text raises a
   * NameError from the error message itself; the intended error is the
   * SchemaParsingError the message was meant for.
   */
  lemma BothSourcesRaiseNameError(ref: string, text: string, t: Element, types: Registry, parse: ConstParser)
    requires ref != "" && text != "" && !t.TypeElem?
    ensures FieldConstantValueAsWritten(Some(ref), Some(text), t, types, parse) == Err(NameError)
    ensures FieldConstantValue(Some(ref), Some(text), t, types, parse) == Err(SchemaParsingError)
  {
  }

  /**
   * As written, a field of a constant type declared by reference is always
   * rejected once the type is bound: the type then holds both its reference
   * and the referenced value, and the field inherits both. The intended rule
   * reads the value the type holds.
   */
  lemma BoundReferenceTypeRejected(t: Element, types: Registry, parse: ConstParser, vv: ValidValue)
    requires t.TypeElem? && t.presence == Some(Common.Constant) && t.valueRef.Some? && t.text.None? && t.constVal.None?
    requires Bind(t, types) == Ok(t.(constVal := Some(vv.value))) && Truthy(vv.value)
    ensures var bound := Bind(t, types).value;
      && FieldConstantValueAsWritten(None, None, bound, types, parse) == Err(NameError)
      && FieldConstantValue(None, None, bound, types, parse) == parse(bound, Stored(vv.value))
  {
    var bound := Bind(t, types).value;
    assert bound.valueRef == t.valueRef;
  }

  // ---------------------------------------------------------------------------
  // the members of a message or group

  /** The parsers of `field`, `group` and `data` nodes are not part of this model. */
  type FieldParser = Node -> Result<Field>
  type GroupParser = Node -> Result<Group>
  type DataParser = Node -> Result<Data>

  /** What `parse_elements` returns: fields, groups and data, each in document order. */
  datatype Members = Members(fields: seq<Field>, groups: seq<Group>, datas: seq<Data>)

  /** The tags a message's member may carry. */
  predicate IsMemberKind(tag: string)
  {
    tag == "field" || tag == "group" || tag == "data"
  }

  /** The place of a member kind in a message: fields, then groups, then data. */
  function Rank(tag: string): nat
    requires IsMemberKind(tag)
  {
    if tag == "field" then 0 else if tag == "group" then 1 else 2
  }

  /** Every child is a member, and no member comes after one of a later kind. */
  predicate WellOrdered(cs: seq<Node>)
  {
    && (forall i :: 0 <= i < |cs| ==> IsMemberKind(cs[i].tag))
    && (forall i, j :: 0 <= i < j < |cs| ==> Rank(cs[i].tag) <= Rank(cs[j].tag))
  }

  /** Each child reads correctly with the parser for its kind. */
  predicate AllParse(cs: seq<Node>, pf: FieldParser, pg: GroupParser, pd: DataParser)
  {
    forall i :: 0 <= i < |cs| ==>
      && (cs[i].tag == "field" ==> pf(cs[i]).Ok?)
      && (cs[i].tag == "group" ==> pg(cs[i]).Ok?)
      && (cs[i].tag == "data" ==> pd(cs[i]).Ok?)
  }

  /** The children carrying `tag`, in document order. */
  function Tagged(cs: seq<Node>, tag: string): (ts: seq<Node>)
    ensures |ts| <= |cs|
  {
    if cs == [] then []
    else
      var last := cs[|cs| - 1];
      Tagged(cs[..|cs| - 1], tag) + (if last.tag == tag then [last] else [])
  }

  /** One iteration of the loop of `parse_elements`. */
  function ElementsStep(acc: Members, child: Node, pf: FieldParser, pg: GroupParser, pd: DataParser): Result<Members>
  {
    match child.tag
    case "field" =>
      if acc.datas != [] || acc.groups != [] then Err(SchemaParsingError)
      else
        var f :- pf(child);
        Ok(acc.(fields := acc.fields + [f]))
    case "group" =>
      if acc.datas != [] then Err(SchemaParsingError)
      else
        var g :- pg(child);
        Ok(acc.(groups := acc.groups + [g]))
    case "data" =>
      var d :- pd(child);
      Ok(acc.(datas := acc.datas + [d]))
    case _ => Err(SchemaParsingError)
  }

  /** What `parse_elements` returns for the children `cs`: the loop, child by child. */
  function ParsedElements(cs: seq<Node>, pf: FieldParser, pg: GroupParser, pd: DataParser): Result<Members>
  {
    if cs == [] then Ok(Members([], [], []))
    else
      var acc :- ParsedElements(cs[..|cs| - 1], pf, pg, pd);
      ElementsStep(acc, cs[|cs| - 1], pf, pg, pd)
  }

  /** `parse_elements`: sort the children of a message or group into fields, groups and data. */
  method ParseElements(node: Node, pf: FieldParser, pg: GroupParser, pd: DataParser) returns (r: Result<Members>)
    ensures r == ParsedElements(node.children, pf, pg, pd)
  {
    var cs := node.children;
    var fields: seq<Field> := [];
    var groups: seq<Group> := [];
    var datas: seq<Data> := [];
    for i := 0 to |cs|
      invariant ParsedElements(cs[..i], pf, pg, pd) == Ok(Members(fields, groups, datas))
    {
      assert cs[..i + 1][..i] == cs[..i];
      var step := ElementAt(Members(fields, groups, datas), cs[i], pf, pg, pd);
      if step.Err? {
        PrefixFails(cs, i + 1, pf, pg, pd);
        return Err(step.error);
      }
      fields, groups, datas := step.value.fields, step.value.groups, step.value.datas;
    }
    assert cs[..|cs|] == cs;
    return Ok(Members(fields, groups, datas));
  }

  /**
   * One child of `parse_elements`: a field only before any group or data,
   * a group only before any data, data anywhere; any other tag is refused.
   */
  method ElementAt(acc: Members, child: Node, pf: FieldParser, pg: GroupParser, pd: DataParser) returns (r: Result<Members>)
    ensures r == ElementsStep(acc, child, pf, pg, pd)
  {
    match child.tag
    case "field" =>
      if acc.datas != [] || acc.groups != [] {
        return Err(SchemaParsingError);
      }
      var f := pf(child);
      if f.Err? {
        return Err(f.error);
      }
      return Ok(acc.(fields := acc.fields + [f.value]));
    case "group" =>
      if acc.datas != [] {
        return Err(SchemaParsingError);
      }
      var g := pg(child);
      if g.Err? {
        return Err(g.error);
      }
      return Ok(acc.(groups := acc.groups + [g.value]));
    case "data" =>
      var d := pd(child);
      if d.Err? {
        return Err(d.error);
      }
      return Ok(acc.(datas := acc.datas + [d.value]));
    case _ =>
      return Err(SchemaParsingError);
  }

  /** Once a prefix of the children fails, so do all of them, with the same error. */
  lemma {:induction false} PrefixFails(cs: seq<Node>, n: nat, pf: FieldParser, pg: GroupParser, pd: DataParser)
    requires n <= |cs| && ParsedElements(cs[..n], pf, pg, pd).Err?
    ensures ParsedElements(cs, pf, pg, pd) == ParsedElements(cs[..n], pf, pg, pd)
    decreases |cs|
  {
    if n < |cs| {
      var init := cs[..|cs| - 1];
      assert init[..n] == cs[..n];
      PrefixFails(init, n, pf, pg, pd);
    } else {
      assert cs[..n] == cs;
    }
  }

  /** `xs` are the parsed members of the children carrying `tag`, in document order. */
  ghost predicate CollectedAs<T>(xs: seq<T>, cs: seq<Node>, tag: string, parse: Node -> Result<T>)
  {
    |xs| == |Tagged(cs, tag)| && forall i :: 0 <= i < |xs| ==> Ok(xs[i]) == parse(Tagged(cs, tag)[i])
  }

  /** Each list of `m` holds the parsed members of its kind. */
  ghost predicate Collected(m: Members, cs: seq<Node>, pf: FieldParser, pg: GroupParser, pd: DataParser)
  {
    && CollectedAs(m.fields, cs, "field", pf)
    && CollectedAs(m.groups, cs, "group", pg)
    && CollectedAs(m.datas, cs, "data", pd)
  }

  lemma TaggedAppend(init: seq<Node>, c: Node, tag: string)
    ensures Tagged(init + [c], tag) == Tagged(init, tag) + (if c.tag == tag then [c] else [])
  {
    assert (init + [c])[..|init|] == init;
  }

  /** A child of the collected kind adds its parsed member at the end. */
  lemma CollectedAppend<T>(xs: seq<T>, init: seq<Node>, c: Node, x: T, parse: Node -> Result<T>)
    requires CollectedAs(xs, init, c.tag, parse) && parse(c) == Ok(x)
    ensures CollectedAs(xs + [x], init + [c], c.tag, parse)
  {
    TaggedAppend(init, c, c.tag);
  }

  /** A child of another kind leaves the collected list as it is. */
  lemma CollectedKeep<T>(xs: seq<T>, init: seq<Node>, c: Node, tag: string, parse: Node -> Result<T>)
    requires CollectedAs(xs, init, tag, parse) && c.tag != tag
    ensures CollectedAs(xs, init + [c], tag, parse)
  {
    TaggedAppend(init, c, tag);
  }

  /** No child carries `tag` exactly when none is collected under it. */
  lemma {:induction false} TaggedEmpty(cs: seq<Node>, tag: string)
    ensures Tagged(cs, tag) == [] <==> forall i :: 0 <= i < |cs| ==> cs[i].tag != tag
  {
    if cs != [] {
      var init := cs[..|cs| - 1];
      TaggedEmpty(init, tag);
      assert forall i :: 0 <= i < |init| ==> init[i] == cs[i];
    }
  }

  /**
   * `parse_elements` succeeds exactly when the children come fields first,
   * then groups, then data, with no other tag, and each reads correctly;
   * each list then holds its kind's members in document order.
   */
  lemma {:induction false} ParsedElementsMeaning(cs: seq<Node>, pf: FieldParser, pg: GroupParser, pd: DataParser)
    ensures ParsedElements(cs, pf, pg, pd).Ok? <==> WellOrdered(cs) && AllParse(cs, pf, pg, pd)
    ensures ParsedElements(cs, pf, pg, pd).Ok? ==> Collected(ParsedElements(cs, pf, pg, pd).value, cs, pf, pg, pd)
  {
    if cs != [] {
      var n := |cs| - 1;
      var init := cs[..n];
      var c := cs[n];
      ParsedElementsMeaning(init, pf, pg, pd);
      assert init + [c] == cs;
      if ParsedElements(init, pf, pg, pd).Ok? {
        StepMeaning(init, c, ParsedElements(init, pf, pg, pd).value, pf, pg, pd);
      } else {
        WellOrderedAppend(init, c);
        AllParseAppend(init, c, pf, pg, pd);
      }
    }
  }

  /** One more child: the step succeeds exactly when the longer list is still ordered and readable. */
  lemma StepMeaning(init: seq<Node>, c: Node, acc: Members, pf: FieldParser, pg: GroupParser, pd: DataParser)
    requires WellOrdered(init) && AllParse(init, pf, pg, pd) && Collected(acc, init, pf, pg, pd)
    ensures ElementsStep(acc, c, pf, pg, pd).Ok? <==> WellOrdered(init + [c]) && AllParse(init + [c], pf, pg, pd)
    ensures ElementsStep(acc, c, pf, pg, pd).Ok? ==> Collected(ElementsStep(acc, c, pf, pg, pd).value, init + [c], pf, pg, pd)
  {
    WellOrderedAppend(init, c);
    AllParseAppend(init, c, pf, pg, pd);
    TaggedEmpty(init, "group");
    TaggedEmpty(init, "data");
    if c.tag == "field" {
      StepField(init, c, acc, pf, pg, pd);
    } else if c.tag == "group" {
      StepGroup(init, c, acc, pf, pg, pd);
    } else if c.tag == "data" {
      StepData(init, c, acc, pf, pg, pd);
    }
  }

  /** A field is accepted exactly when no group or data precedes it and it reads correctly. */
  lemma StepField(init: seq<Node>, c: Node, acc: Members, pf: FieldParser, pg: GroupParser, pd: DataParser)
    requires c.tag == "field" && WellOrdered(init) && Collected(acc, init, pf, pg, pd)
    requires Tagged(init, "group") == [] <==> forall i :: 0 <= i < |init| ==> init[i].tag != "group"
    requires Tagged(init, "data") == [] <==> forall i :: 0 <= i < |init| ==> init[i].tag != "data"
    ensures ElementsStep(acc, c, pf, pg, pd).Ok? <==>
      pf(c).Ok? && forall i :: 0 <= i < |init| ==> Rank(init[i].tag) <= Rank(c.tag)
    ensures ElementsStep(acc, c, pf, pg, pd).Ok? ==> Collected(ElementsStep(acc, c, pf, pg, pd).value, init + [c], pf, pg, pd)
  {
    if acc.datas != [] || acc.groups != [] {
      StepFieldLate(init, c, acc, pf, pg, pd);
    } else {
      StepFieldEarly(init, c, acc, pf, pg, pd);
    }
  }

  /** A field after a group or data is refused, and the order it breaks is real. */
  lemma StepFieldLate(init: seq<Node>, c: Node, acc: Members, pf: FieldParser, pg: GroupParser, pd: DataParser)
    requires c.tag == "field" && WellOrdered(init) && Collected(acc, init, pf, pg, pd)
    requires Tagged(init, "group") == [] <==> forall i :: 0 <= i < |init| ==> init[i].tag != "group"
    requires Tagged(init, "data") == [] <==> forall i :: 0 <= i < |init| ==> init[i].tag != "data"
    requires acc.datas != [] || acc.groups != []
    ensures !ElementsStep(acc, c, pf, pg, pd).Ok?
    ensures !forall i :: 0 <= i < |init| ==> Rank(init[i].tag) <= Rank(c.tag)
  {
    var i :| 0 <= i < |init| && (init[i].tag == "group" || init[i].tag == "data");
    assert Rank(init[i].tag) > Rank(c.tag);
  }

  /** A field before any group or data is accepted exactly when it reads correctly. */
  lemma StepFieldEarly(init: seq<Node>, c: Node, acc: Members, pf: FieldParser, pg: GroupParser, pd: DataParser)
    requires c.tag == "field" && WellOrdered(init) && Collected(acc, init, pf, pg, pd)
    requires Tagged(init, "group") == [] <==> forall i :: 0 <= i < |init| ==> init[i].tag != "group"
    requires Tagged(init, "data") == [] <==> forall i :: 0 <= i < |init| ==> init[i].tag != "data"
    requires acc.datas == [] && acc.groups == []
    ensures ElementsStep(acc, c, pf, pg, pd).Ok? <==>
      pf(c).Ok? && forall i :: 0 <= i < |init| ==> Rank(init[i].tag) <= Rank(c.tag)
    ensures ElementsStep(acc, c, pf, pg, pd).Ok? ==> Collected(ElementsStep(acc, c, pf, pg, pd).value, init + [c], pf, pg, pd)
  {
    OnlyFieldsBefore(init, c, acc, pf, pg, pd);
    if pf(c).Ok? {
      FieldAppended(init, c, acc, pf, pg, pd);
    }
  }

  /** A field that reads correctly, with no group or data before it, is appended to the fields. */
  lemma FieldAppended(init: seq<Node>, c: Node, acc: Members, pf: FieldParser, pg: GroupParser, pd: DataParser)
    requires c.tag == "field" && Collected(acc, init, pf, pg, pd)
    requires acc.datas == [] && acc.groups == [] && pf(c).Ok?
    ensures ElementsStep(acc, c, pf, pg, pd) == Ok(acc.(fields := acc.fields + [pf(c).value]))
    ensures Collected(acc.(fields := acc.fields + [pf(c).value]), init + [c], pf, pg, pd)
  {
    CollectedAppend(acc.fields, init, c, pf(c).value, pf);
    CollectedKeep(acc.groups, init, c, "group", pg);
    CollectedKeep(acc.datas, init, c, "data", pd);
  }

  /** With no group and no data collected, every earlier child is a field. */
  lemma OnlyFieldsBefore(init: seq<Node>, c: Node, acc: Members, pf: FieldParser, pg: GroupParser, pd: DataParser)
    requires c.tag == "field" && WellOrdered(init) && Collected(acc, init, pf, pg, pd)
    requires Tagged(init, "group") == [] <==> forall i :: 0 <= i < |init| ==> init[i].tag != "group"
    requires Tagged(init, "data") == [] <==> forall i :: 0 <= i < |init| ==> init[i].tag != "data"
    requires acc.datas == [] && acc.groups == []
    ensures forall i :: 0 <= i < |init| ==> Rank(init[i].tag) <= Rank(c.tag)
  {
  }

  /** A group is accepted exactly when no data precedes it and it reads correctly. */
  lemma StepGroup(init: seq<Node>, c: Node, acc: Members, pf: FieldParser, pg: GroupParser, pd: DataParser)
    requires c.tag == "group" && WellOrdered(init) && Collected(acc, init, pf, pg, pd)
    requires Tagged(init, "data") == [] <==> forall i :: 0 <= i < |init| ==> init[i].tag != "data"
    ensures ElementsStep(acc, c, pf, pg, pd).Ok? <==>
      pg(c).Ok? && forall i :: 0 <= i < |init| ==> Rank(init[i].tag) <= Rank(c.tag)
    ensures ElementsStep(acc, c, pf, pg, pd).Ok? ==> Collected(ElementsStep(acc, c, pf, pg, pd).value, init + [c], pf, pg, pd)
  {
    if acc.datas != [] {
      StepGroupLate(init, c, acc, pf, pg, pd);
    } else {
      StepGroupEarly(init, c, acc, pf, pg, pd);
    }
  }

  /** A group after data is refused, and the order it breaks is real. */
  lemma StepGroupLate(init: seq<Node>, c: Node, acc: Members, pf: FieldParser, pg: GroupParser, pd: DataParser)
    requires c.tag == "group" && WellOrdered(init) && Collected(acc, init, pf, pg, pd)
    requires Tagged(init, "data") == [] <==> forall i :: 0 <= i < |init| ==> init[i].tag != "data"
    requires acc.datas != []
    ensures !ElementsStep(acc, c, pf, pg, pd).Ok?
    ensures !forall i :: 0 <= i < |init| ==> Rank(init[i].tag) <= Rank(c.tag)
  {
    var i :| 0 <= i < |init| && init[i].tag == "data";
    assert Rank(init[i].tag) > Rank(c.tag);
  }

  /** A group before any data is accepted exactly when it reads correctly. */
  lemma StepGroupEarly(init: seq<Node>, c: Node, acc: Members, pf: FieldParser, pg: GroupParser, pd: DataParser)
    requires c.tag == "group" && WellOrdered(init) && Collected(acc, init, pf, pg, pd)
    requires Tagged(init, "data") == [] <==> forall i :: 0 <= i < |init| ==> init[i].tag != "data"
    requires acc.datas == []
    ensures ElementsStep(acc, c, pf, pg, pd).Ok? <==>
      pg(c).Ok? && forall i :: 0 <= i < |init| ==> Rank(init[i].tag) <= Rank(c.tag)
    ensures ElementsStep(acc, c, pf, pg, pd).Ok? ==> Collected(ElementsStep(acc, c, pf, pg, pd).value, init + [c], pf, pg, pd)
  {
    assert forall i :: 0 <= i < |init| ==> Rank(init[i].tag) <= Rank(c.tag);
    if pg(c).Ok? {
      GroupAppended(init, c, acc, pf, pg, pd);
    }
  }

  /** A group that reads correctly, with no data before it, is appended to the groups. */
  lemma GroupAppended(init: seq<Node>, c: Node, acc: Members, pf: FieldParser, pg: GroupParser, pd: DataParser)
    requires c.tag == "group" && Collected(acc, init, pf, pg, pd)
    requires acc.datas == [] && pg(c).Ok?
    ensures ElementsStep(acc, c, pf, pg, pd) == Ok(acc.(groups := acc.groups + [pg(c).value]))
    ensures Collected(acc.(groups := acc.groups + [pg(c).value]), init + [c], pf, pg, pd)
  {
    CollectedKeep(acc.fields, init, c, "field", pf);
    CollectedAppend(acc.groups, init, c, pg(c).value, pg);
    CollectedKeep(acc.datas, init, c, "data", pd);
  }

  /** Data is accepted after anything, when it reads correctly. */
  lemma StepData(init: seq<Node>, c: Node, acc: Members, pf: FieldParser, pg: GroupParser, pd: DataParser)
    requires c.tag == "data" && WellOrdered(init) && Collected(acc, init, pf, pg, pd)
    ensures ElementsStep(acc, c, pf, pg, pd).Ok? <==>
      pd(c).Ok? && forall i :: 0 <= i < |init| ==> Rank(init[i].tag) <= Rank(c.tag)
    ensures ElementsStep(acc, c, pf, pg, pd).Ok? ==> Collected(ElementsStep(acc, c, pf, pg, pd).value, init + [c], pf, pg, pd)
  {
    if pd(c).Ok? {
      CollectedKeep(acc.fields, init, c, "field", pf);
      CollectedKeep(acc.groups, init, c, "group", pg);
      CollectedAppend(acc.datas, init, c, pd(c).value, pd);
    }
  }

  /** An ordered list stays ordered with one more child exactly when that child is a member of no earlier kind. */
  lemma WellOrderedAppend(init: seq<Node>, c: Node)
    ensures WellOrdered(init + [c]) <==>
      WellOrdered(init) && IsMemberKind(c.tag) && forall i :: 0 <= i < |init| ==> Rank(init[i].tag) <= Rank(c.tag)
  {
    var cs := init + [c];
    assert forall i :: 0 <= i < |init| ==> cs[i] == init[i];
    assert cs[|init|] == c;
  }

  lemma AllParseAppend(init: seq<Node>, c: Node, pf: FieldParser, pg: GroupParser, pd: DataParser)
    ensures AllParse(init + [c], pf, pg, pd) <==>
      && AllParse(init, pf, pg, pd)
      && (c.tag == "field" ==> pf(c).Ok?) && (c.tag == "group" ==> pg(c).Ok?) && (c.tag == "data" ==> pd(c).Ok?)
  {
    var cs := init + [c];
    assert forall i :: 0 <= i < |init| ==> cs[i] == init[i];
    assert cs[|init|] == c;
  }

  // ---------------------------------------------------------------------------
  // a message's package

  /** The package a `messages` node declares, "" when it declares none. */
  function PackageAttr(n: Node): string
  {
    GetOr(n.attrs, "package", "")
  }

  /** A `messages` node with a non-empty package. */
  predicate ProvidesPackage(n: Node)
  {
    n.tag == "messages" && PackageAttr(n) != ""
  }

  /**
   * `get_package`: walk up from a message through its ancestors (nearest
   * first); the package of the nearest `messages` ancestor that declares a
   * non-empty one, or None when no ancestor does.
   */
  method GetPackage(ancestors: seq<Node>) returns (r: Option<string>)
    ensures r.None? <==> forall i :: 0 <= i < |ancestors| ==> !ProvidesPackage(ancestors[i])
    ensures r.Some? ==>
      exists i :: 0 <= i < |ancestors| && ProvidesPackage(ancestors[i]) && r.value == PackageAttr(ancestors[i])
                  && forall k :: 0 <= k < i ==> !ProvidesPackage(ancestors[k])
  {
    var i := 0;
    while i < |ancestors|
      invariant i <= |ancestors|
      invariant forall k :: 0 <= k < i ==> !ProvidesPackage(ancestors[k])
    {
      var curr := ancestors[i];
      if curr.tag == "messages" {
        var package := PackageAttr(curr);
        if package != "" {
          return Some(package);
        }
      }
      i := i + 1;
    }
    return None;
  }

  // ---------------------------------------------------------------------------
  // loading the types

  /** A parser of top-level type nodes: a type, or nothing for a node that defines none. */
  type NodeParser = Node -> Result<Option<Element>>

  /** `parse_type_node` as a function value. */
  function TypeNodeParser(parseType: Node -> Result<Element>, parseRef: Node -> Result<Element>): (p: NodeParser)
    requires KindPreserving(parseType, parseRef)
    ensures forall n :: p(n) == ParseTypeNode(n, parseType, parseRef)
  {
    n => ParseTypeNode(n, parseType, parseRef)
  }

  /**
   * The add loop of `parse_schema_fd` on the registry's contents: each
   * top-level type node in document order is parsed and added; a node that
   * is no type definition yields nothing, whose name cannot be read (an
   * AttributeError), and a name already registered is a ValueError.
   */
  function RegisterAll(m: Registry, order: seq<string>, nodes: seq<Node>, parse: NodeParser)
    : (r: Result<(Registry, seq<string>)>)
    requires Consistent(m, order)
    ensures r.Ok? ==> Consistent(r.value.0, r.value.1) && m.Keys <= r.value.0.Keys
  {
    if nodes == [] then Ok((m, order))
    else
      var acc :- RegisterAll(m, order, nodes[..|nodes| - 1], parse);
      AddParsed(acc.0, acc.1, parse(nodes[|nodes| - 1]))
  }

  /**
   * One node of the add loop: a parse error propagates, a node that yields
   * no type is an AttributeError, a name already registered a ValueError;
   * otherwise the type is added under its name, after every earlier one.
   */
  function AddParsed(m: Registry, order: seq<string>, parsed: Result<Option<Element>>)
    : (r: Result<(Registry, seq<string>)>)
    requires Consistent(m, order)
    ensures r.Ok? ==> Consistent(r.value.0, r.value.1) && m.Keys <= r.value.0.Keys
  {
    var p :- parsed;
    if p.None? then Err(AttributeError)
    else if p.value.name in m then Err(ValueError)
    else
      ConsistentAdd(m, order, p.value);
      Ok((m[p.value.name := p.value], order + [p.value.name]))
  }

  /** `types.add` on what one node parsed to. */
  method RegisterOne(types: Types, parsed: Result<Option<Element>>) returns (r: Outcome)
    requires types.Valid()
    modifies types
    ensures types.Valid()
    ensures var next := AddParsed(old(types.entries), old(types.order), parsed);
      && (next.Err? ==> r == Fail(next.error))
      && (next.Ok? ==> r == Pass && types.entries == next.value.0 && types.order == next.value.1)
  {
    if parsed.Err? {
      return Fail(parsed.error);
    }
    if parsed.value.None? {
      return Fail(AttributeError);
    }
    r := types.Add(parsed.value.value);
  }

  /** One more node: what registering it does to the registry the earlier nodes left. */
  lemma RegisterStep(m: Registry, order: seq<string>, nodes: seq<Node>, i: nat, parse: NodeParser,
                     entries: Registry, names: seq<string>)
    requires Consistent(m, order) && i < |nodes|
    requires RegisterAll(m, order, nodes[..i], parse) == Ok((entries, names))
    ensures RegisterAll(m, order, nodes[..i + 1], parse) == AddParsed(entries, names, parse(nodes[i]))
  {
    assert nodes[..i + 1][..i] == nodes[..i];
    assert nodes[..i + 1][i] == nodes[i];
  }

  /** A node that fails to register fails the whole add loop with its error. */
  lemma RegisterFails(m: Registry, order: seq<string>, nodes: seq<Node>, i: nat, parse: NodeParser,
                      entries: Registry, names: seq<string>)
    requires Consistent(m, order) && i < |nodes|
    requires RegisterAll(m, order, nodes[..i], parse) == Ok((entries, names))
    requires AddParsed(entries, names, parse(nodes[i])).Err?
    ensures RegisterAll(m, order, nodes, parse) == AddParsed(entries, names, parse(nodes[i]))
  {
    RegisterStep(m, order, nodes, i, parse, entries, names);
    RegisterPrefixFails(m, order, nodes, i + 1, parse);
  }

  /** Once a prefix of the nodes fails to register, so do all of them, with the same error. */
  lemma {:induction false} RegisterPrefixFails(m: Registry, order: seq<string>, nodes: seq<Node>, n: nat, parse: NodeParser)
    requires Consistent(m, order)
    requires n <= |nodes| && RegisterAll(m, order, nodes[..n], parse).Err?
    ensures RegisterAll(m, order, nodes, parse) == RegisterAll(m, order, nodes[..n], parse)
    decreases |nodes|
  {
    if n < |nodes| {
      var init := nodes[..|nodes| - 1];
      assert init[..n] == nodes[..n];
      RegisterPrefixFails(m, order, init, n, parse);
    } else {
      assert nodes[..n] == nodes;
    }
  }

  /** The node defines a type, and `m` holds it under its name. */
  predicate Holds(m: Registry, node: Node, parse: NodeParser)
  {
    var parsed := parse(node);
    parsed.Ok? && parsed.value.Some? && parsed.value.value.name in m && m[parsed.value.value.name] == parsed.value.value
  }

  /** A successful registration of one more node added that node's type under a fresh name. */
  lemma RegisterAllLast(m: Registry, order: seq<string>, nodes: seq<Node>, parse: NodeParser)
    requires Consistent(m, order) && nodes != [] && RegisterAll(m, order, nodes, parse).Ok?
    ensures var init := RegisterAll(m, order, nodes[..|nodes| - 1], parse);
      var parsed := parse(nodes[|nodes| - 1]);
      && init.Ok? && parsed.Ok? && parsed.value.Some?
      && parsed.value.value.name !in init.value.0
      && RegisterAll(m, order, nodes, parse).value.0 == init.value.0[parsed.value.value.name := parsed.value.value]
  {
  }

  /** Adding under a fresh name keeps every type already held. */
  lemma HoldsAfterAdd(mi: Registry, e: Element, node: Node, parse: NodeParser)
    requires Holds(mi, node, parse) && e.name !in mi
    ensures Holds(mi[e.name := e], node, parse)
  {
  }

  /** The type a node defines is held once added under its name. */
  lemma HoldsAdded(mi: Registry, e: Element, node: Node, parse: NodeParser)
    requires parse(node) == Ok(Some(e))
    ensures Holds(mi[e.name := e], node, parse)
  {
  }

  /** After registering, every type the nodes define is held under its own name. */
  lemma {:induction false} RegisterAllHolds(m: Registry, order: seq<string>, nodes: seq<Node>, parse: NodeParser)
    requires Consistent(m, order) && RegisterAll(m, order, nodes, parse).Ok?
    ensures forall i :: 0 <= i < |nodes| ==> Holds(RegisterAll(m, order, nodes, parse).value.0, nodes[i], parse)
  {
    if nodes != [] {
      var n := |nodes| - 1;
      var init := nodes[..n];
      RegisterAllLast(m, order, nodes, parse);
      RegisterAllHolds(m, order, init, parse);
      var mi := RegisterAll(m, order, init, parse).value.0;
      var last := parse(nodes[n]).value.value;
      HoldsStep(mi, last, init, nodes, parse);
    }
  }

  /** Adding the type of the last node under its fresh name keeps the earlier ones held and holds the last. */
  lemma HoldsStep(mi: Registry, last: Element, init: seq<Node>, nodes: seq<Node>, parse: NodeParser)
    requires nodes != [] && init == nodes[..|nodes| - 1]
    requires parse(nodes[|nodes| - 1]) == Ok(Some(last)) && last.name !in mi
    requires forall i :: 0 <= i < |init| ==> Holds(mi, init[i], parse)
    ensures forall i :: 0 <= i < |nodes| ==> Holds(mi[last.name := last], nodes[i], parse)
  {
    var n := |nodes| - 1;
    forall i | 0 <= i < |nodes|
      ensures Holds(mi[last.name := last], nodes[i], parse)
    {
      if i < n {
        assert nodes[i] == init[i];
        HoldsAfterAdd(mi, last, nodes[i], parse);
      } else {
        HoldsAdded(mi, last, nodes[n], parse);
      }
    }
  }

  /**
   * Every type is registered before any is bound, so a reference resolves
   * whether its target is declared before or after it: an enum or set whose
   * encoding type is the name of any type the nodes define binds to it.
   */
  lemma ForwardReferenceResolves(m: Registry, order: seq<string>, nodes: seq<Node>, parse: NodeParser, i: nat, j: nat)
    requires Consistent(m, order) && RegisterAll(m, order, nodes, parse).Ok?
    requires i < |nodes| && j < |nodes|
    requires parse(nodes[i]).Ok? && parse(nodes[i]).value.Some?
    requires parse(nodes[j]).Ok? && parse(nodes[j]).value.Some?
    ensures var e := parse(nodes[i]).value.value;
      var target := parse(nodes[j]).value.value;
      var reg := RegisterAll(m, order, nodes, parse).value.0;
      (e.EnumElem? || e.SetElem?) && e.encodingTypeName == target.name ==>
        Bind(e, reg).Ok? && Bind(e, reg).value.encodingType == Some(target)
  {
    RegisterAllHolds(m, order, nodes, parse);
    var reg := RegisterAll(m, order, nodes, parse).value.0;
    assert Holds(reg, nodes[j], parse);
  }

  /**
   * The add loop of `parse_schema_fd`: parse every top-level type node in
   * document order and add it to the registry; the first failure stops it.
   */
  method RegisterNodes(types: Types, nodes: seq<Node>,
                       parseType: Node -> Result<Element>, parseRef: Node -> Result<Element>)
    returns (r: Outcome)
    requires KindPreserving(parseType, parseRef) && types.Valid()
    modifies types
    ensures types.Valid()
    ensures var reg := RegisterAll(old(types.entries), old(types.order), nodes, TypeNodeParser(parseType, parseRef));
      && (reg.Err? ==> r == Fail(reg.error))
      && (reg.Ok? ==> r == Pass && types.entries == reg.value.0 && types.order == reg.value.1)
  {
    r := RegisterEach(types, nodes, TypeNodeParser(parseType, parseRef));
  }

  /** The add loop over any node parser: parse each node in turn and add what it yields. */
  method RegisterEach(types: Types, nodes: seq<Node>, parse: NodeParser) returns (r: Outcome)
    requires types.Valid()
    modifies types
    ensures types.Valid()
    ensures var reg := RegisterAll(old(types.entries), old(types.order), nodes, parse);
      && (reg.Err? ==> r == Fail(reg.error))
      && (reg.Ok? ==> r == Pass && types.entries == reg.value.0 && types.order == reg.value.1)
  {
    ghost var m0 := types.entries;
    ghost var o0 := types.order;
    var i := 0;
    while i < |nodes|
      invariant i <= |nodes| && types.Valid() && Consistent(m0, o0)
      invariant RegisterAll(m0, o0, nodes[..i], parse).Ok?
      invariant RegisterAll(m0, o0, nodes[..i], parse).value.0 == types.entries
      invariant RegisterAll(m0, o0, nodes[..i], parse).value.1 == types.order
    {
      ghost var (entries, names) := (types.entries, types.order);
      RegisterStep(m0, o0, nodes, i, parse, entries, names);
      r := RegisterOne(types, parse(nodes[i]));
      if r.Fail? {
        RegisterFails(m0, o0, nodes, i, parse, entries, names);
        return;
      }
      i := i + 1;
    }
    assert nodes[..|nodes|] == nodes;
    return Pass;
  }

  /**
   * The type-loading part of `parse_schema_fd`: add every top-level type node
   * of the document to the schema's registry, then bind every registered
   * type, then look the header composite up by name. The first failure
   * stops it; the registry is left as it then stands.
   */
  method LoadTypes(schema: MessageSchema, nodes: seq<Node>,
                   parseType: Node -> Result<Element>, parseRef: Node -> Result<Element>)
    returns (r: Outcome)
    requires KindPreserving(parseType, parseRef) && schema.types.Valid()
    modifies schema`header, schema.types
    ensures schema.types == old(schema.types) && schema.types.Valid()
    ensures var reg := RegisterAll(old(schema.types.entries), old(schema.types.order), nodes,
                                   TypeNodeParser(parseType, parseRef));
      && (reg.Err? ==> r == Fail(reg.error) && schema.header == old(schema.header))
      && (reg.Ok? ==> LoadedFrom(schema.types.entries, schema.types.order, reg.value.0, reg.value.1))
      && (reg.Ok? && BindCount(reg.value.1, reg.value.0) < |reg.value.1| ==>
            r == Fail(FirstBindError(reg.value.0, reg.value.1)) && schema.header == old(schema.header))
      && (reg.Ok? && BindCount(reg.value.1, reg.value.0) == |reg.value.1| ==>
            HeaderOutcome(r, schema.header, schema.types.entries, schema.headerType))
  {
    var added := RegisterNodes(schema.types, nodes, parseType, parseRef);
    if added.Fail? {
      return added;
    }
    r := BindTypes(schema);
  }

  /**
   * The bind loop of `parse_schema_fd`, then the header lookup: bind every
   * registered type against the registry as it stands, then look the
   * header composite up by name.
   */
  method BindTypes(schema: MessageSchema) returns (r: Outcome)
    requires schema.types.Valid()
    modifies schema`header, schema.types
    ensures schema.types == old(schema.types) && schema.types.Valid()
    ensures var (m, order) := (old(schema.types.entries), old(schema.types.order));
      && LoadedFrom(schema.types.entries, schema.types.order, m, order)
      && (BindCount(order, m) < |order| ==> r == Fail(FirstBindError(m, order)) && schema.header == old(schema.header))
      && (BindCount(order, m) == |order| ==> HeaderOutcome(r, schema.header, schema.types.entries, schema.headerType))
  {
    var types := schema.types;
    var bound := types.BindAll();
    if bound.Fail? {
      return bound;
    }
    var header := types.GetComposite(schema.headerType);
    if header.Err? {
      return Fail(header.error);
    }
    schema.header := Some(header.value);
    return Pass;
  }

  /** The registry after the bind loop: the registered types, bound in order up to the first failure. */
  ghost predicate LoadedFrom(entries: Registry, order: seq<string>, m: Registry, registered: seq<string>)
    requires Consistent(m, registered)
  {
    order == registered && entries == BindPrefix(registered, BindCount(registered, m), m)
  }

  /** The error of the first registered type that fails to bind. */
  function FirstBindError(m: Registry, order: seq<string>): Exception
    requires Consistent(m, order) && BindCount(order, m) < |order|
  {
    BindCountMeaning(order, m);
    Bind(m[order[BindCount(order, m)]], m).error
  }

  /**
   * The header lookup: it succeeds exactly when the header name is a
   * registered composite, which the schema then holds; otherwise a KeyError
   * for an unknown name and a ValueError for a name that is not a composite.
   */
  ghost predicate HeaderOutcome(r: Outcome, header: Option<Element>, entries: Registry, headerType: string)
  {
    && (r.Pass? <==> headerType in entries && entries[headerType].CompositeElem?)
    && (r.Pass? ==> header == Some(entries[headerType]))
    && (r.Fail? ==> r.error == (if headerType in entries then ValueError else KeyError))
  }
}
