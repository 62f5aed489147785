/**
 * The attribute conversions of the XML reader, over an element's attribute
 * map: required names, optional integers, enumerated values and defaults.
 */
module Attributes {
  import opened Wrappers
  import opened Common
  import opened Strings

  /** An element's attributes: name to text. */
  type Attrs = map<string, string>

  /** `element.get(key, default)`. */
  function GetOr(attrs: Attrs, key: string, default: string): string
  {
    if key in attrs then attrs[key] else default
  }

  /** `parse_name`: the `name` attribute, which must be present and non-empty. */
  function ParseName(attrs: Attrs): (r: Result<string>)
    ensures r.Ok? <==> "name" in attrs && attrs["name"] != ""
    ensures r.Ok? ==> r.value == attrs["name"]
    ensures r.Err? ==> r.error == SchemaParsingError
  {
    var name := GetOr(attrs, "name", "");
    if name == "" then Err(SchemaParsingError) else Ok(name)
  }

  /** `parse_description`: the `description` attribute with surrounding whitespace removed, "" when absent. */
  function ParseDescription(attrs: Attrs): (r: string)
    ensures "description" !in attrs ==> r == ""
    ensures "description" in attrs ==> r == Strip(attrs["description"])
    ensures r == [] || (!IsSpace(r[0]) && !IsSpace(r[|r| - 1]))
    ensures "description" in attrs ==> |r| <= |attrs["description"]|
  {
    StripEnds(GetOr(attrs, "description", ""));
    StripIsTrimmedInfix(GetOr(attrs, "description", ""));
    Strip(GetOr(attrs, "description", ""))
  }

  /**
   * `parse_since_version`: 0 when absent; otherwise the attribute read as an
   * integer. The conversion's ValueError is not caught.
   */
  function ParseSinceVersion(attrs: Attrs): (r: Result<int>)
    ensures "sinceVersion" !in attrs ==> r == Ok(0)
    ensures "sinceVersion" in attrs ==>
      (r.Ok? <==> ParseInt(attrs["sinceVersion"]).Some?)
      && (r.Ok? ==> Some(r.value) == ParseInt(attrs["sinceVersion"]))
    ensures r.Err? ==> r.error == ValueError
  {
    match ParseInt(GetOr(attrs, "sinceVersion", "0"))
    case Some(n) => Ok(n)
    case None => Err(ValueError)
  }

  /**
   * The shared rule of `parse_deprecated`, `parse_offset`, `parse_alignment`
   * and `parse_block_length`: an absent or empty attribute is None, text that
   * is not an integer is a SchemaParsingError.
   */
  function ParseOptionalInt(attrs: Attrs, key: string): (r: Result<Option<int>>)
    ensures (key !in attrs || attrs[key] == "") ==> r == Ok(None)
    ensures key in attrs && attrs[key] != "" ==>
      (r.Ok? <==> ParseInt(attrs[key]).Some?) && (r.Ok? ==> r.value == ParseInt(attrs[key]))
    ensures r.Err? ==> r.error == SchemaParsingError
  {
    var text := GetOr(attrs, key, "");
    if text == "" then Ok(None)
    else
      match ParseInt(text)
      case Some(n) => Ok(Some(n))
      case None => Err(SchemaParsingError)
  }

  function ParseDeprecated(attrs: Attrs): Result<Option<int>> { ParseOptionalInt(attrs, "deprecated") }
  function ParseOffset(attrs: Attrs): Result<Option<int>> { ParseOptionalInt(attrs, "offset") }
  function ParseAlignment(attrs: Attrs): Result<Option<int>> { ParseOptionalInt(attrs, "alignment") }
  function ParseBlockLength(attrs: Attrs): Result<Option<int>> { ParseOptionalInt(attrs, "blockLength") }

  /** Writing an integer into an optional attribute and reading it back gives the integer. */
  lemma OptionalIntRoundTrip(attrs: Attrs, key: string, n: int)
    ensures ParseOptionalInt(attrs[key := ShowInt(n)], key) == Ok(Some(n))
    ensures ParseSinceVersion(attrs["sinceVersion" := ShowInt(n)]) == Ok(n)
  {
    ParseShowInt(n);
  }

  /** A `deprecated` of "0" is the version 0, not an absent attribute. */
  lemma DeprecatedZeroIsPresent(attrs: Attrs)
    ensures ParseDeprecated(attrs["deprecated" := "0"]) == Ok(Some(0))
  {
    assert ParseInt("0") == Some(0);
  }

  /**
   * `parse_presence`: None when absent or empty; one of the three presence
   * names otherwise; any other text is a SchemaParsingError.
   */
  function ParsePresence(attrs: Attrs): (r: Result<Option<Presence>>)
    ensures ("presence" !in attrs || attrs["presence"] == "") ==> r == Ok(None)
    ensures r.Ok? && r.value.Some? ==> PresenceText(r.value.value) == attrs["presence"]
    ensures r.Err? <==> "presence" in attrs && attrs["presence"] != "" && PresenceFromText(attrs["presence"]).Err?
    ensures r.Err? ==> r.error == SchemaParsingError
  {
    var text := GetOr(attrs, "presence", "");
    if text == "" then Ok(None)
    else
      PresenceFromTextExact(text);
      match PresenceFromText(text)
      case Ok(p) => Ok(Some(p))
      case Err(_) => Err(SchemaParsingError)
  }

  /** Every presence reads back from its own name. */
  lemma PresenceAttributeRoundTrip(attrs: Attrs, p: Presence)
    ensures ParsePresence(attrs["presence" := PresenceText(p)]) == Ok(Some(p))
  {
    PresenceRoundTrip(p);
  }

  /** `parse_id`: the `id` attribute as an integer; absent or not an integer is a SchemaParsingError. */
  function ParseId(attrs: Attrs): (r: Result<int>)
    ensures r.Ok? <==> "id" in attrs && ParseInt(attrs["id"]).Some?
    ensures r.Ok? ==> Some(r.value) == ParseInt(attrs["id"])
    ensures r.Err? ==> r.error == SchemaParsingError
  {
    if "id" !in attrs then Err(SchemaParsingError)
    else
      match ParseInt(attrs["id"])
      case Some(n) => Ok(n)
      case None => Err(SchemaParsingError)
  }

  /** Every integer id reads back from its decimal text. */
  lemma IdRoundTrip(attrs: Attrs, n: int)
    ensures ParseId(attrs["id" := ShowInt(n)]) == Ok(n)
  {
    ParseShowInt(n);
  }

  /** `parse_semantic_type`: the attribute, "" when absent. */
  function ParseSemanticType(attrs: Attrs): (r: string)
    ensures "semanticType" in attrs ==> r == attrs["semanticType"]
    ensures "semanticType" !in attrs ==> r == ""
  {
    GetOr(attrs, "semanticType", "")
  }

  /** `parse_encoding_type`: the `encodingType` attribute, which must be present and non-empty. */
  function ParseEncodingType(attrs: Attrs): (r: Result<string>)
    ensures r.Ok? <==> "encodingType" in attrs && attrs["encodingType"] != ""
    ensures r.Ok? ==> r.value == attrs["encodingType"]
    ensures r.Err? ==> r.error == SchemaParsingError
  {
    var encodingType := GetOr(attrs, "encodingType", "");
    if encodingType == "" then Err(SchemaParsingError) else Ok(encodingType)
  }
}
