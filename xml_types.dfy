/**
 * The XML reader's element parsers, over an abstract XML node: a tag, an
 * attribute map, the node's text (None for an element with no text) and its
 * child nodes in document order.
 *
 * The parsers for `type` and `ref` nodes rely on attribute conversions that
 * are not part of this model; they are passed in as functions.
 */
module XmlTypes {
  import opened Wrappers
  import opened Strings
  import opened Seqs
  import opened Elements
  import opened Attributes

  datatype Node = Node(tag: string, attrs: Attrs, text: Option<string>, children: seq<Node>)

  /**
   * A valid value's value from the node's text: the text itself for a char
   * enum, which must encode as ASCII (a character beyond U+007F is a
   * UnicodeEncodeError, a kind of ValueError; reading the text of a node that
   * has none is an AttributeError); otherwise the text as an integer (no text
   * is a TypeError, text that is no integer a ValueError).
   */
  function ValidValueContent(text: Option<string>, encodingType: string): (r: Result<Value>)
    ensures encodingType == "char" && text.Some? ==>
      (r.Ok? <==> IsAscii(text.value))
      && (r.Ok? ==> r.value == CharValue(text.value))
      && (r.Err? ==> r.error == ValueError)
    ensures encodingType == "char" && text.None? ==> r == Err(AttributeError)
    ensures encodingType != "char" && text.None? ==> r == Err(TypeError)
    ensures encodingType != "char" && text.Some? ==>
      (r.Ok? <==> ParseInt(text.value).Some?)
      && (r.Ok? ==> r.value == IntValue(ParseInt(text.value).value))
      && (r.Err? ==> r.error == ValueError)
  {
    match text
    case None => if encodingType == "char" then Err(AttributeError) else Err(TypeError)
    case Some(t) =>
      if encodingType == "char" then
        if IsAscii(t) then Ok(CharValue(t)) else Err(ValueError)
      else
        match ParseInt(t)
        case Some(i) => Ok(IntValue(i))
        case None => Err(ValueError)
  }

  /** Text that `str.encode('ascii')` accepts: every code point below 128. */
  predicate IsAscii(s: string)
  {
    forall k :: 0 <= k < |s| ==> s[k] < 128 as char
  }

  /**
   * `parse_valid_value`: a `validValue` node; its name, description, value,
   * since version and deprecation, read in that order, the first failure
   * being the result.
   */
  function ParseValidValue(node: Node, encodingType: string): (r: Result<ValidValue>)
    ensures node.tag != "validValue" ==> r == Err(SchemaParsingError)
    ensures r.Ok? ==>
      && Ok(r.value.name) == ParseName(node.attrs)
      && r.value.description == ParseDescription(node.attrs)
      && Ok(r.value.value) == ValidValueContent(node.text, encodingType)
      && Ok(r.value.sinceVersion) == ParseSinceVersion(node.attrs)
      && Ok(r.value.deprecated) == ParseDeprecated(node.attrs)
  {
    if node.tag != "validValue" then Err(SchemaParsingError)
    else
      var name :- ParseName(node.attrs);
      var description := ParseDescription(node.attrs);
      var value :- ValidValueContent(node.text, encodingType);
      var sinceVersion :- ParseSinceVersion(node.attrs);
      var deprecated :- ParseDeprecated(node.attrs);
      Ok(ValidValue(name, description, value, sinceVersion, deprecated))
  }

  /** Text that `parse_description` keeps as it is: no whitespace at either end. */
  predicate Trimmed(s: string)
  {
    s == [] || (!IsSpace(s[0]) && !IsSpace(s[|s| - 1]))
  }

  /** The attributes a node carries for a name, a description, a since version and a deprecation. */
  function CommonAttrs(name: string, description: string, sinceVersion: int, deprecated: Option<int>): Attrs
  {
    var attrs := map["name" := name, "description" := description, "sinceVersion" := ShowInt(sinceVersion)];
    if deprecated.Some? then attrs["deprecated" := ShowInt(deprecated.value)] else attrs
  }

  /** Each attribute of `CommonAttrs` reads back as what was written. */
  lemma CommonAttrsRead(name: string, description: string, sinceVersion: int, deprecated: Option<int>)
    requires name != "" && Trimmed(description)
    ensures var attrs := CommonAttrs(name, description, sinceVersion, deprecated);
      && ParseName(attrs) == Ok(name)
      && ParseDescription(attrs) == description
      && ParseSinceVersion(attrs) == Ok(sinceVersion)
      && ParseDeprecated(attrs) == Ok(deprecated)
  {
    CommonNamesRead(name, description, sinceVersion, deprecated);
    CommonVersionsRead(name, description, sinceVersion, deprecated);
  }

  /** The name and description of `CommonAttrs` read back as written. */
  lemma CommonNamesRead(name: string, description: string, sinceVersion: int, deprecated: Option<int>)
    requires name != "" && Trimmed(description)
    ensures var attrs := CommonAttrs(name, description, sinceVersion, deprecated);
      ParseName(attrs) == Ok(name) && ParseDescription(attrs) == description
  {
    var attrs := CommonAttrs(name, description, sinceVersion, deprecated);
    assert attrs["name"] == name && attrs["description"] == description;
    StripUnchanged(description);
  }

  /** The since version and deprecation of `CommonAttrs` read back as written. */
  lemma CommonVersionsRead(name: string, description: string, sinceVersion: int, deprecated: Option<int>)
    ensures var attrs := CommonAttrs(name, description, sinceVersion, deprecated);
      ParseSinceVersion(attrs) == Ok(sinceVersion) && ParseDeprecated(attrs) == Ok(deprecated)
  {
    var attrs := CommonAttrs(name, description, sinceVersion, deprecated);
    assert attrs["sinceVersion"] == ShowInt(sinceVersion);
    ParseShowInt(sinceVersion);
    if deprecated.Some? {
      ParseShowInt(deprecated.value);
    } else {
      assert "deprecated" !in attrs;
    }
  }

  /** A valid value's text in a document. */
  function ValueText(v: Value): string
  {
    match v
    case IntValue(i) => ShowInt(i)
    case CharValue(t) => t
  }

  /** The `validValue` node that declares `vv`. */
  function RenderValidValue(vv: ValidValue): Node
  {
    Node("validValue", CommonAttrs(vv.name, vv.description, vv.sinceVersion, vv.deprecated),
         Some(ValueText(vv.value)), [])
  }

  /**
   * Reading back the node that declares a valid value gives the valid value,
   * when its value kind agrees with the enum's encoding type.
   */
  lemma ValidValueRoundTrip(vv: ValidValue, encodingType: string)
    requires vv.name != "" && Trimmed(vv.description)
    requires vv.value.CharValue? <==> encodingType == "char"
    requires vv.value.CharValue? ==> IsAscii(vv.value.text)
    ensures ParseValidValue(RenderValidValue(vv), encodingType) == Ok(vv)
  {
    CommonAttrsRead(vv.name, vv.description, vv.sinceVersion, vv.deprecated);
    if vv.value.IntValue? {
      ParseShowInt(vv.value.i);
    }
  }

  /** The names of valid values, in order. */
  function ValueNames(vvs: seq<ValidValue>): (ns: seq<string>)
    ensures |ns| == |vvs| && forall i :: 0 <= i < |vvs| ==> ns[i] == vvs[i].name
  {
    seq(|vvs|, i requires 0 <= i < |vvs| => vvs[i].name)
  }

  /** The values of valid values, in order. */
  function ValueValues(vvs: seq<ValidValue>): (vs: seq<Value>)
    ensures |vs| == |vvs| && forall i :: 0 <= i < |vvs| ==> vs[i] == vvs[i].value
  {
    seq(|vvs|, i requires 0 <= i < |vvs| => vvs[i].value)
  }

  /**
   * `parse_enum`: an `enum` node's attributes, then one valid value per child
   * node; the enum is rejected when two valid values share a name or a value,
   * the names being checked first. The encoding type is left unbound.
   */
  function ParseEnum(node: Node): (r: Result<Element>)
    ensures node.tag != "enum" ==> r == Err(SchemaParsingError)
    ensures r.Ok? ==>
      && r.value.EnumElem? && r.value.encodingType.None?
      && Ok(r.value.name) == ParseName(node.attrs)
      && r.value.description == ParseDescription(node.attrs)
      && Ok(r.value.sinceVersion) == ParseSinceVersion(node.attrs)
      && Ok(r.value.deprecated) == ParseDeprecated(node.attrs)
      && Ok(r.value.encodingTypeName) == ParseEncodingType(node.attrs)
      && Ok(r.value.offset) == ParseOffset(node.attrs)
      && |r.value.validValues| == |node.children|
      && (forall i :: 0 <= i < |node.children| ==>
            Ok(r.value.validValues[i]) == ParseValidValue(node.children[i], r.value.encodingTypeName))
      && Distinct(ValueNames(r.value.validValues))
      && Distinct(ValueValues(r.value.validValues))
  {
    if node.tag != "enum" then Err(SchemaParsingError)
    else
      var name :- ParseName(node.attrs);
      var description := ParseDescription(node.attrs);
      var sinceVersion :- ParseSinceVersion(node.attrs);
      var deprecated :- ParseDeprecated(node.attrs);
      var encodingType :- ParseEncodingType(node.attrs);
      var offset :- ParseOffset(node.attrs);
      var vvs :- Collect(c => ParseValidValue(c, encodingType), node.children);
      DistinctIffCardinality(ValueNames(vvs));
      DistinctIffCardinality(ValueValues(vvs));
      if |ToSet(ValueNames(vvs))| != |vvs| then Err(SchemaParsingError)
      else if |ToSet(ValueValues(vvs))| != |vvs| then Err(SchemaParsingError)
      else Ok(EnumElem(name, description, vvs, encodingType, None, sinceVersion, deprecated, offset))
  }

  /**
   * An enum node whose attributes and children all read correctly is
   * accepted exactly when no two valid values share a name or a value.
   */
  lemma ParseEnumUniqueness(node: Node, vvs: seq<ValidValue>)
    requires node.tag == "enum"
    requires ParseName(node.attrs).Ok? && ParseSinceVersion(node.attrs).Ok? && ParseDeprecated(node.attrs).Ok?
    requires ParseEncodingType(node.attrs).Ok? && ParseOffset(node.attrs).Ok?
    requires |vvs| == |node.children|
    requires forall i :: 0 <= i < |vvs| ==>
      ParseValidValue(node.children[i], node.attrs["encodingType"]) == Ok(vvs[i])
    ensures ParseEnum(node).Ok? <==> Distinct(ValueNames(vvs)) && Distinct(ValueValues(vvs))
    ensures ParseEnum(node).Err? ==> ParseEnum(node).error == SchemaParsingError
  {
    var f := c => ParseValidValue(c, node.attrs["encodingType"]);
    var r := Collect(f, node.children);
    assert r.Ok?;
    assert r.value == vvs;
    DistinctIffCardinality(ValueNames(vvs));
    DistinctIffCardinality(ValueValues(vvs));
  }

  /**
   * `parse_choice`: a `choice` node's attributes, then its text as the bit
   * position; missing text or text that is no integer is a
   * SchemaParsingError.
   */
  function ParseChoice(node: Node): (r: Result<Choice>)
    ensures node.tag != "choice" ==> r == Err(SchemaParsingError)
    ensures r.Ok? ==>
      && Ok(r.value.name) == ParseName(node.attrs)
      && r.value.description == ParseDescription(node.attrs)
      && node.text.Some? && ParseInt(node.text.value) == Some(r.value.value)
      && Ok(r.value.sinceVersion) == ParseSinceVersion(node.attrs)
      && Ok(r.value.deprecated) == ParseDeprecated(node.attrs)
    ensures ParseName(node.attrs).Ok? && ParseSinceVersion(node.attrs).Ok? && ParseDeprecated(node.attrs).Ok?
            && node.tag == "choice" ==>
      (r.Ok? <==> node.text.Some? && ParseInt(node.text.value).Some?)
      && (r.Err? ==> r.error == SchemaParsingError)
  {
    if node.tag != "choice" then Err(SchemaParsingError)
    else
      var name :- ParseName(node.attrs);
      var description := ParseDescription(node.attrs);
      var sinceVersion :- ParseSinceVersion(node.attrs);
      var deprecated :- ParseDeprecated(node.attrs);
      if node.text.None? then Err(SchemaParsingError)
      else
        match ParseInt(node.text.value)
        case None => Err(SchemaParsingError)
        case Some(value) => Ok(Choice(name, description, value, sinceVersion, deprecated))
  }

  /** The `choice` node that declares `c`. */
  function RenderChoice(c: Choice): Node
  {
    Node("choice", CommonAttrs(c.name, c.description, c.sinceVersion, c.deprecated), Some(ShowInt(c.value)), [])
  }

  /** Reading back the node that declares a choice gives the choice. */
  lemma ChoiceRoundTrip(c: Choice)
    requires c.name != "" && Trimmed(c.description)
    ensures ParseChoice(RenderChoice(c)) == Ok(c)
  {
    CommonAttrsRead(c.name, c.description, c.sinceVersion, c.deprecated);
    ParseShowInt(c.value);
  }

  /** The names of choices, in order. */
  function ChoiceNames(cs: seq<Choice>): (ns: seq<string>)
    ensures |ns| == |cs| && forall i :: 0 <= i < |cs| ==> ns[i] == cs[i].name
  {
    seq(|cs|, i requires 0 <= i < |cs| => cs[i].name)
  }

  /** The bit positions of choices, in order. */
  function ChoiceValues(cs: seq<Choice>): (vs: seq<int>)
    ensures |vs| == |cs| && forall i :: 0 <= i < |cs| ==> vs[i] == cs[i].value
  {
    seq(|cs|, i requires 0 <= i < |cs| => cs[i].value)
  }

  /**
   * `parse_set`: a `set` node's attributes, then one choice per child node;
   * the set is rejected when two choices share a name or a bit position, the
   * names being checked first. The encoding type is left unbound.
   */
  function ParseSet(node: Node): (r: Result<Element>)
    ensures node.tag != "set" ==> r == Err(SchemaParsingError)
    ensures r.Ok? ==>
      && r.value.SetElem? && r.value.encodingType.None?
      && Ok(r.value.name) == ParseName(node.attrs)
      && r.value.description == ParseDescription(node.attrs)
      && Ok(r.value.sinceVersion) == ParseSinceVersion(node.attrs)
      && Ok(r.value.deprecated) == ParseDeprecated(node.attrs)
      && Ok(r.value.encodingTypeName) == ParseEncodingType(node.attrs)
      && Ok(r.value.offset) == ParseOffset(node.attrs)
      && |r.value.choices| == |node.children|
      && (forall i :: 0 <= i < |node.children| ==> Ok(r.value.choices[i]) == ParseChoice(node.children[i]))
      && Distinct(ChoiceNames(r.value.choices))
      && Distinct(ChoiceValues(r.value.choices))
  {
    if node.tag != "set" then Err(SchemaParsingError)
    else
      var name :- ParseName(node.attrs);
      var description := ParseDescription(node.attrs);
      var sinceVersion :- ParseSinceVersion(node.attrs);
      var deprecated :- ParseDeprecated(node.attrs);
      var encodingType :- ParseEncodingType(node.attrs);
      var offset :- ParseOffset(node.attrs);
      var choices :- Collect(ParseChoice, node.children);
      DistinctIffCardinality(ChoiceNames(choices));
      DistinctIffCardinality(ChoiceValues(choices));
      if |ToSet(ChoiceNames(choices))| != |choices| then Err(SchemaParsingError)
      else if |ToSet(ChoiceValues(choices))| != |choices| then Err(SchemaParsingError)
      else Ok(SetElem(name, description, encodingType, choices, None, offset, sinceVersion, deprecated))
  }

  /**
   * A set node whose attributes and children all read correctly is accepted
   * exactly when no two choices share a name or a bit position.
   */
  lemma ParseSetUniqueness(node: Node, choices: seq<Choice>)
    requires node.tag == "set"
    requires ParseName(node.attrs).Ok? && ParseSinceVersion(node.attrs).Ok? && ParseDeprecated(node.attrs).Ok?
    requires ParseEncodingType(node.attrs).Ok? && ParseOffset(node.attrs).Ok?
    requires |choices| == |node.children|
    requires forall i :: 0 <= i < |choices| ==> ParseChoice(node.children[i]) == Ok(choices[i])
    ensures ParseSet(node).Ok? <==> Distinct(ChoiceNames(choices)) && Distinct(ChoiceValues(choices))
    ensures ParseSet(node).Err? ==> ParseSet(node).error == SchemaParsingError
  {
    var r := Collect(ParseChoice, node.children);
    assert r.Ok?;
    assert r.value == choices;
    DistinctIffCardinality(ChoiceNames(choices));
    DistinctIffCardinality(ChoiceValues(choices));
  }

  /** The tags a composite's member may carry. */
  predicate IsMemberTag(tag: string)
  {
    tag == "enum" || tag == "type" || tag == "set" || tag == "ref" || tag == "composite"
  }

  /** The element kind each member tag yields. */
  predicate KindMatches(tag: string, e: Element)
  {
    && (tag == "enum" ==> e.EnumElem?)
    && (tag == "type" ==> e.TypeElem?)
    && (tag == "set" ==> e.SetElem?)
    && (tag == "ref" ==> e.RefElem?)
    && (tag == "composite" ==> e.CompositeElem?)
  }

  /** The parsers of `type` and `ref` nodes yield elements of their own kind. */
  ghost predicate KindPreserving(parseType: Node -> Result<Element>, parseRef: Node -> Result<Element>)
  {
    && (forall n :: parseType(n).Ok? ==> parseType(n).value.TypeElem?)
    && (forall n :: parseRef(n).Ok? ==> parseRef(n).value.RefElem?)
  }

  /**
   * `parse_composite_element`: dispatch on the member's tag; any tag other
   * than enum, type, set, ref and composite is a SchemaParsingError.
   */
  function ParseCompositeElement(node: Node, parseType: Node -> Result<Element>, parseRef: Node -> Result<Element>)
    : (r: Result<Element>)
    requires KindPreserving(parseType, parseRef)
    ensures !IsMemberTag(node.tag) ==> r == Err(SchemaParsingError)
    ensures r.Ok? ==> IsMemberTag(node.tag) && KindMatches(node.tag, r.value)
    decreases node, 1
  {
    match node.tag
    case "enum" => ParseEnum(node)
    case "type" => parseType(node)
    case "set" => ParseSet(node)
    case "ref" => parseRef(node)
    case "composite" => ParseComposite(node, parseType, parseRef)
    case _ => Err(SchemaParsingError)
  }

  /**
   * `parse_composite`: a `composite` node's attributes, then one member per
   * child node, each of one of the five member kinds.
   */
  function ParseComposite(node: Node, parseType: Node -> Result<Element>, parseRef: Node -> Result<Element>)
    : (r: Result<Element>)
    requires KindPreserving(parseType, parseRef)
    ensures node.tag != "composite" ==> r == Err(SchemaParsingError)
    ensures r.Ok? <==>
      && node.tag == "composite"
      && ParseName(node.attrs).Ok? && ParseSinceVersion(node.attrs).Ok?
      && ParseDeprecated(node.attrs).Ok? && ParseOffset(node.attrs).Ok?
      && ParseCompositeElements(node.children, parseType, parseRef).Ok?
    ensures r.Ok? ==>
      && r.value.CompositeElem?
      && Ok(r.value.name) == ParseName(node.attrs)
      && r.value.description == ParseDescription(node.attrs)
      && Ok(r.value.sinceVersion) == ParseSinceVersion(node.attrs)
      && Ok(r.value.deprecated) == ParseDeprecated(node.attrs)
      && Ok(r.value.offset) == ParseOffset(node.attrs)
      && Ok(r.value.elements) == ParseCompositeElements(node.children, parseType, parseRef)
      && |r.value.elements| == |node.children|
      && forall i :: 0 <= i < |node.children| ==>
           IsMemberTag(node.children[i].tag) && KindMatches(node.children[i].tag, r.value.elements[i])
    decreases node, 0
  {
    if node.tag != "composite" then Err(SchemaParsingError)
    else
      var name :- ParseName(node.attrs);
      var description := ParseDescription(node.attrs);
      var sinceVersion :- ParseSinceVersion(node.attrs);
      var deprecated :- ParseDeprecated(node.attrs);
      var offset :- ParseOffset(node.attrs);
      var elements :- ParseCompositeElements(node.children, parseType, parseRef);
      Ok(CompositeElem(name, description, elements, offset, sinceVersion, deprecated))
  }

  /** The members of a composite, in document order; the first failure stops it. */
  function ParseCompositeElements(nodes: seq<Node>, parseType: Node -> Result<Element>, parseRef: Node -> Result<Element>)
    : (r: Result<seq<Element>>)
    requires KindPreserving(parseType, parseRef)
    ensures r.Ok? <==> forall i :: 0 <= i < |nodes| ==> ParseCompositeElement(nodes[i], parseType, parseRef).Ok?
    ensures r.Ok? ==>
      |r.value| == |nodes|
      && forall i :: 0 <= i < |nodes| ==> ParseCompositeElement(nodes[i], parseType, parseRef) == Ok(r.value[i])
    ensures r.Ok? ==>
      forall i :: 0 <= i < |nodes| ==> IsMemberTag(nodes[i].tag) && KindMatches(nodes[i].tag, r.value[i])
    ensures (exists i :: 0 <= i < |nodes| && !IsMemberTag(nodes[i].tag)) ==> r.Err?
    decreases nodes
  {
    if nodes == [] then Ok([])
    else
      var head := ParseCompositeElement(nodes[0], parseType, parseRef);
      if head.Err? then Err(head.error)
      else
        var tail := ParseCompositeElements(nodes[1..], parseType, parseRef);
        assert forall i :: 1 <= i < |nodes| ==> nodes[i] == nodes[1..][i - 1];
        if tail.Err? then Err(tail.error)
        else Ok([head.value] + tail.value)
  }

  /** The tags a top-level type definition may carry. */
  predicate IsTypeTag(tag: string)
  {
    tag == "type" || tag == "enum" || tag == "set" || tag == "composite"
  }

  /**
   * `parse_type_node`: a `type`, `enum`, `set` or `composite` node is parsed
   * by its own parser; any other node yields nothing.
   */
  function ParseTypeNode(node: Node, parseType: Node -> Result<Element>, parseRef: Node -> Result<Element>)
    : (r: Result<Option<Element>>)
    requires KindPreserving(parseType, parseRef)
    ensures !IsTypeTag(node.tag) ==> r == Ok(None)
    ensures IsTypeTag(node.tag) && r.Ok? ==> r.value.Some? && KindMatches(node.tag, r.value.value)
  {
    if !IsTypeTag(node.tag) then Ok(None)
    else
      var e :- ParseCompositeElement(node, parseType, parseRef);
      Ok(Some(e))
  }
}
