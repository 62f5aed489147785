# SBE schema compiler: schema model, registries, parser rules and back-compatibility checker

This project models the core of a compiler for FIX Simple Binary Encoding
(SBE) message schemas, and proves properties of that model in Dafny.

- **Schema elements** (`elements.dfy`, `binding.dfy`, `builtin.dfy`,
  `primitive_type.dfy`, `common.dfy`). Type, Enum with its valid values, Set
  with its choices, Composite and Ref form one value datatype `Element`.
  - `TotalLength` gives an element's byte length. It is `None` while a
    reference is unresolved.
  - `Bind` is `lazy_bind`. It replaces an encoding-type name, a ref's target
    name or a constant's `EnumName.ValueName` reference with what the
    registry holds.
  - The global primitive table is the class `PrimitiveCatalog`.
  - There are fifteen builtin types.
- **Registries** (`types.dfy`, `messages.dfy`, `message_schema.dfy`). These are
  classes whose map fields the methods update:
  - `Types`: name to element, in insertion order, seeded with the builtins;
  - `Messages`: two indexes, by id and by name;
  - `MessageSchema`: the root record.
- **Parser rules** (`attributes.dfy`, `xml_types.dfy`, `xml_schema.dfy`). An XML
  element is abstracted as a tag, an attribute map, optional text and a list
  of children. The modelled rules are:
  - the attribute conversions with their defaults;
  - duplicate checks in enums and sets;
  - dispatch over the tags a composite may hold;
  - resolution of `valueRef`;
  - the rule that a constant needs exactly one value source;
  - the field/group/data ordering of message members;
  - the walk up to a `<messages>` package;
  - the loop that registers every type and then binds them all.
- **Back-compatibility checker** (`errors.dfy`, `compare.dfy`,
  `compare_props.dfy`, `compare_choice.dfy`). `Compare` and the checkers it
  calls append `Diff`s to a result sequence. Each checker is proved against a
  specification function (`Report`, `SchemaDiffs`, `TypesDiffs`, ...). Lemmas
  then say which diagnostic each situation produces. The main ones are:
  - comparing a schema with itself gives nothing;
  - each removed type is reported exactly once;
  - an addition without a version change is always reported;
  - with a version change, an addition is accepted exactly when it is stamped
    with the new version.

Where the code and its tests disagree, the model follows the tests and
records the code as written in "## Findings".

The source disagrees with itself in these places; the model resolves them as follows:

- `sbe2/backcheck/compare.py:1` does not parse, because a comma is missing
  after `Type`. It is read as the intended import list.
- `sbe2/backcheck/compare.py:57` reports `TYPE_NOT_FOUND` and line 131
  reports `TYPE_MISMATCH`. Neither exists in the error catalogue, so they are
  modelled as `TypeRemoved` and `TypeConverted`. The corrupted name at
  `compare.py:117` is modelled as `TypeWrongSinceVersion`.
- `compare.py:53` builds `set(new)` over unhashable dataclass instances, and
  a set has no fixed iteration order. `remaining` is modelled as the new
  types that no old type names, visited in the new registry's insertion order.
- `sbe2/schema/message_schema.py:18` types `messages` as a list, but the
  parser calls `.add` on it. It is modelled as a `Messages` collection.
- `sbe2/schema/type.py` has no `value_ref`, `value`, `character_encoding` or
  `const_val` field. Yet `sbe2/xmlparser/types.py:223-238` passes the first
  three, `compare.py:137` reads `character_encoding`, and
  `sbe2/schema/builtin.py:91,111` and `sbe2/xmlparser/types.py:424` use
  `const_val`. The model's Type carries all four (`valueRef`, `text`,
  `characterEncoding`, `constVal`). The null, minimum and maximum values are
  not modelled.
- The header type is used with two meanings, and the dataclass does not
  match its caller.
  - `sbe2/schema/message_schema.py:15` has one field, `header_type`, a name
    defaulting to "messageHeader".
  - `parse_message_schema` (`sbe2/xmlparser/types.py:340-348`) passes
    `header_type_name=` and `description=`. The dataclass has neither field,
    so that call raises TypeError as written.
  - `sbe2/xmlparser/types.py:616` looks the composite up by
    `schema.header_type_name` and stores it in `schema.header_type`, turning
    the name into the element.
  - The model keeps the two apart: `headerType` is the name and stays fixed;
    `header` is the composite found under that name, None until the lookup
    succeeds. The schema's description is dropped.
- `sbe2/schema/type.py:13` declares `presence: Presence`. Yet `parse_type`
  stores the result of `parse_presence` there (`sbe2/xmlparser/types.py:221,230`),
  which is None when the attribute is absent or empty
  (`sbe2/xmlparser/attributes.py:96-98`), although its doc comment promises a
  default of `required` (line 94). The model follows the code. Its Type holds an optional
  presence. A missing presence is not constant, and `compare_type_type`
  prints it as None (`sbe2/backcheck/compare.py:146-147`).
- `Set`, `Ref` and the constant binding of `Type` have no `lazy_bind` or
  `total_length` in the code. Their behaviour follows their tests.
- A Ref's field is `type` in `sbe2/schema/ref.py:11`. The tests call it
  `type_name`, with the resolved target in `type_`. The model has `typeName`
  and `target`.
- The primitive constants (`char`, `int8`, ...) are imported but not defined
  in the shown `primitive_type.py`. Their sizes and bounds follow the SBE
  standard's table of primitive types. `int` is taken as a 4-byte signed integer.

## Model

| member | source | states |
|---|---|---|
| Common.PresenceFromTextExact | sbe2/schema/common.py:4-8 | A presence is built from exactly "required", "optional" or "constant" and renders back to that text; any other string fails with ValueError |
| Common.PresenceRoundTrip | sbe2/schema/common.py:4-8 | Rendering a presence and building it back from the text gives the same presence |
| Common.ByteOrderFromTextExact | sbe2/schema/common.py:10-13 | A byte order is built from exactly "bigEndian" or "littleEndian" and renders back to that text; any other string fails with ValueError |
| Common.ByteOrderRoundTrip | sbe2/schema/common.py:10-13 | Rendering a byte order and building it back gives the same byte order |
| PrimitiveTypes.PrimitiveCatalog.Empty | sbe2/schema/primitive_type.py:16 | The class-level name table starts empty |
| PrimitiveTypes.PrimitiveCatalog.Register | sbe2/schema/primitive_type.py:27-33 | Registering a name already present fails with ValueError and leaves the table unchanged; otherwise the table gains exactly that name mapped to the primitive |
| PrimitiveTypes.PrimitiveCatalog.Standard | sbe2/schema/primitive_type.py:27-33 | Constructing the twelve standard primitives in turn succeeds and leaves each retrievable under its name |
| PrimitiveTypes.CatalogOfRetrieves | sbe2/schema/primitive_type.py:31-33 | Registering distinct-named primitives in turn gives a table whose keys are exactly their names, each mapped to its primitive |
| PrimitiveTypes.NextNameFree | sbe2/schema/primitive_type.py:31-33 | With distinct names, the next registration finds its name free and adds exactly that entry |
| PrimitiveTypes.StandardNamesDistinct | sbe2/schema/primitive_type.py:31-32 | The standard primitives have pairwise distinct names, so none of their constructions raises |
| PrimitiveTypes.IsByteOfStandard | sbe2/schema/primitive_type.py:18-23 | `is_byte` as the tests pin it: true for int8, uint8 and char, false for uint16, int64, float and double; among the standard primitives it is true exactly for the three one-byte ones |
| PrimitiveTypes.IsByteAsWrittenDisagrees | sbe2/schema/primitive_type.py:18-23 | As written, the truth value of `self.length` holds for uint16 and for every standard primitive |
| Elements.NewType | sbe2/schema/type.py:6-18 | A new Type has the given presence (None when the attribute was absent), length 1, no offset, since version 0 and is not deprecated; its byte length is 0 when constant and its primitive's length otherwise, a missing presence counting as not constant |
| Elements.NewValidValue | sbe2/schema/enum.py:7-17 | A new valid value has since version 0 and is not deprecated |
| Elements.NewEnum | sbe2/schema/enum.py:19-32 | A new Enum has no encoding type yet, since version 0, no deprecation and no offset, and has no byte length until bound |
| Elements.NewChoice | sbe2/schema/set.py:6-15 | A new choice has since version 0 and is not deprecated |
| Elements.NewSet | sbe2/schema/set.py:18-28 | A new Set has no encoding type yet, no offset, since version 0 and no deprecation, and has no byte length until bound |
| Elements.NewComposite | sbe2/schema/composite.py:6-15 | A new Composite keeps its members and has no offset, since version 0 and no deprecation |
| Elements.NewRef | sbe2/schema/ref.py:4-12 | A new Ref holds its target name and optional offset; its target is unresolved and it has no byte length |
| Elements.FlagValue | tests/test_pygen/test_render.py:28-46 | The flag value of a choice is positive and even for every bit position above 0 |
| Elements.FlagValueDoubles | tests/test_pygen/test_render.py:28-46 | Bit positions 0, 1 and 2 give the flags 1, 2 and 4, and each next bit position doubles the flag |
| Elements.FlagValueInjective | tests/test_pygen/test_render.py:28-46 | Two choices have the same flag value exactly when they have the same bit position |
| Elements.TypeLengthAsWrittenDisagrees | sbe2/schema/type.py:20-21 | The as-written length gives 8 for a constant double, which should be 0, and 1 for an 8-character array, which should be 8 |
| Elements.SumLengthsAppend | sbe2/schema/composite.py:17-25 | The members of two concatenated lists occupy the sum of the two lists' lengths |
| Elements.CompositeLengthSmall | sbe2/schema/composite.py:25 | An empty composite has length 0, and a one-member composite has its member's length |
| Elements.NestedCompositeLength | sbe2/schema/composite.py:25 | A nested composite contributes exactly its own members' lengths, as if they were inlined |
| Elements.LengthIgnoresOffset | sbe2/schema/composite.py:24 | Changing an element's offset does not change its length |
| Elements.SumLengthsIgnoreOffsets | sbe2/schema/composite.py:24 | Changing any member's offset does not change a composite's summed length |
| Elements.ResolvedHasLength | sbe2/schema/enum.py:34-37 | An element has a byte length exactly when every reference inside it is resolved |
| Elements.AllResolvedHaveLength | sbe2/schema/composite.py:17-25 | A member list has a summed length exactly when every member is resolved |
| Binding.FindValidValue | sbe2/xmlparser/types.py:415-417 | The search returns the position of the first valid value with the name, or the list's length when none has it |
| Binding.ResolveValueRefMeaning | tests/test_schema/test_type.py:21-39 | `E.V` resolves exactly when E is a registered enum holding a value named V, and then to such a value; an unknown E is a KeyError, any other failure a ValueError |
| Binding.BindConstantFromValueRef | tests/test_schema/test_type.py:21-31 | Binding a constant whose valueRef names an enum's value sets the constant to the value of the first valid value with that name |
| Binding.BindConstantFailures | tests/test_schema/test_type.py:33-46 | A constant with neither text nor valueRef fails with ValueError; a valueRef to an unknown enum fails with KeyError; a valueRef to a missing value fails with ValueError |
| Binding.BindForwardsLength | sbe2/schema/enum.py:34-40 | Binding an enum, set or ref succeeds exactly when its target name is registered (KeyError otherwise), and its length is then the target's length |
| Binding.BindMeaning | sbe2/schema/composite.py:27-29 | Binding leaves every declared field unchanged, resolves every reference against the registry, and binding again changes nothing |
| Binding.BindMembersMeaning | sbe2/schema/composite.py:27-29 | A composite binds each member in order: the count and declarations are kept, each member is bound, and binding again changes nothing |
| Binding.BindDependsOnDeclarations | sbe2/xmlparser/types.py:613-614 | Whether binding succeeds, and with which error, depends only on the declarations in the registry, not on which entries are already bound |
| Binding.BindTypeDependsOnDeclarations | sbe2/xmlparser/types.py:613-614 | Binding a Type succeeds, or fails with which error, the same way against two registries with the same declarations |
| Binding.ResolveDependsOnDeclarations | sbe2/xmlparser/types.py:409-417 | Resolving a valueRef gives the same result against two registries with the same declarations |
| Binding.BindMembersDependsOnDeclarations | sbe2/schema/composite.py:27-29 | Binding a member list succeeds, or fails with which error, the same way against two registries with the same declarations |
| Binding.BindResolves | sbe2/schema/enum.py:34-41 | Binding against a registry whose entries at the element's slot names are resolved gives a resolved element with a byte length |
| Binding.BindMembersResolve | sbe2/schema/composite.py:17-29 | Binding a composite's members against a registry resolved at their slot names leaves every member resolved |
| Binding.BindReadsSlots | sbe2/schema/enum.py:39-41 | Binding gives the same result against two registries with the same declarations that agree at the element's slot names |
| Binding.BindMembersReadsSlots | sbe2/schema/composite.py:27-29 | A member list binds the same way against two registries with the same declarations that agree at the members' slot names |
| Binding.LinkedView | sbe2/xmlparser/types.py:613-614 | The registry with every entry bound in place keeps exactly the registered names |
| Binding.LinkedViewDeclarations | sbe2/xmlparser/types.py:613-614 | Binding every entry in place keeps each entry's declaration |
| Binding.LinkedViewNames | sbe2/xmlparser/types.py:613-614 | Binding every entry in place keeps each entry's name |
| Binding.LinkAgreesBind | sbe2/xmlparser/types.py:613-614 | Binding an element while its targets are bound in place succeeds, or fails with the same error, exactly as `lazy_bind` against the declared registry, and keeps the element's declaration |
| Binding.LinkBoundAgainst | sbe2/schema/ref.py:11 | Each slot of an element bound in place holds the shared registry entry it names, itself bound in place |
| Binding.LinkRebinds | sbe2/xmlparser/types.py:613-614 | An element bound in place binds again against any registry with the same declarations |
| Binding.LinkResolves | sbe2/schema/enum.py:34-41 | An element whose references reach only registered types and no cycle is resolved once bound in place, so its byte length is known |
| Binding.LinkStable | sbe2/xmlparser/types.py:613-614 | Once the references are grounded, following them one step further changes nothing |
| Binding.GroundedMonotone | sbe2/xmlparser/types.py:613-614 | References grounded within some number of steps are grounded within any larger number |
| Binding.LinkSettles | sbe2/xmlparser/types.py:613-614 | Any bound on the steps at least the grounding depth binds an element the same way |
| Binding.LinkSlot | sbe2/schema/enum.py:39-41 | The slot of a grounded enum, set or ref holds exactly the registry's entry for the name, bound in place |
| Binding.LinkedEntry | sbe2/xmlparser/types.py:613-614 | In the registry bound in place, a grounded entry has a byte length and its enum, set and ref slots hold the bound entries they name |
| Binding.RefThroughEnumLength | sbe2/schema/composite.py:17-25 | A ref to a composite holding an enum encoded as `char` has length 1 once every type is bound in place |
| Builtin.PrimitiveTypeToType | sbe2/schema/builtin.py:21-40 | The Type made from a primitive has its name and description, is required, has length 1, no offset, since version 0, no deprecation and no constant, and occupies the primitive's length |
| Builtin.BuiltinsAreDistinct | sbe2/schema/builtin.py:116-132 | There are exactly fifteen builtins, with pairwise distinct names |
| Builtin.BuiltinNamesDistinct | sbe2/schema/builtin.py:116-132 | The fifteen builtin names are pairwise distinct |
| Builtin.BuiltinsContents | sbe2/schema/builtin.py:43-114 | Every standard primitive's Type is a builtin, and so are decimal, decimal32 and decimal64 |
| Builtin.DecimalShapes | sbe2/schema/builtin.py:57-114 | decimal is a required int64 mantissa then a required int8 exponent (9 bytes); decimal32 and decimal64 have that mantissa then a constant int8 exponent of -2 (8 bytes) |
| Builtin.CompositeLengthPair | tests/test_schema/test_composite.py:21-33 | A two-member composite occupies the sum of its members' lengths |
| Builtin.TypeMembersResolved | sbe2/schema/type.py:20-21 | A list made only of Types is resolved without any binding |
| Builtin.BuiltinsResolved | sbe2/schema/builtin.py:43-114 | Every builtin has a byte length without being bound |
| TypesRegistry.Types.constructor | sbe2/schema/types.py:13-29 | A fresh registry holds exactly the fifteen builtins, in the order they are added |
| TypesRegistry.Types.AddDistinct | sbe2/schema/types.py:13-29 | Adding distinct-named elements one by one to an empty registry gives their names in order and each name mapped to its element |
| TypesRegistry.FreshRegistryHoldsBuiltins | sbe2/schema/types.py:13-29 | The fresh registry has fifteen entries, each builtin retrievable under its name, and its order and map agree |
| TypesRegistry.Types.Len | sbe2/schema/types.py:31-38 | The length is the number of registered names |
| TypesRegistry.Types.Add | sbe2/schema/types.py:41-50 | Adding a present name fails with ValueError and changes nothing; otherwise the name is appended to the order, mapped to the element, and the size grows by one |
| TypesRegistry.ConsistentAdd | sbe2/schema/types.py:48-50 | Adding a fresh name keeps the order and the map in agreement and grows the map by one |
| TypesRegistry.Types.GetItem | sbe2/schema/types.py:52-64 | Lookup succeeds exactly for a registered name, giving the element of that name; otherwise KeyError |
| TypesRegistry.Types.Get | sbe2/schema/types.py:66-76 | `get` gives the element exactly when indexing would, and None otherwise |
| TypesRegistry.Types.Values | sbe2/schema/types.py:78-79 | Iteration yields every element once, in insertion order |
| TypesRegistry.Types.GetComposite | sbe2/schema/types.py:82-86 | Succeeds exactly for a registered Composite; an absent name is a KeyError and another kind a ValueError |
| TypesRegistry.Types.GetType | sbe2/schema/types.py:88-91 | Succeeds exactly for a registered Type; an absent name is a KeyError and another kind a ValueError |
| TypesRegistry.Types.BindAll | sbe2/xmlparser/types.py:613-614 | Binds the entries in insertion order, stopping at the first failure and reporting its error; the entries before it are bound in place and the rest are untouched |
| TypesRegistry.BindEach | sbe2/xmlparser/types.py:613-614 | The bind loop over names: it passes exactly when every entry binds, fails with the first failing entry's error, and returns the prefix bound in place up to there |
| TypesRegistry.BindCountMeaning | sbe2/xmlparser/types.py:613-614 | Every entry before the stopping point binds, and the entry at the stopping point fails |
| TypesRegistry.BindPrefixStep | sbe2/xmlparser/types.py:613-614 | One loop step: the next entry binds exactly when it is before the stopping point, fails with `lazy_bind`'s error, and otherwise replaces its entry with its bound form |
| TypesRegistry.BindPrefixAt | sbe2/xmlparser/types.py:613-614 | After the loop has passed an entry, the registry holds that entry bound in place |
| TypesRegistry.BindAllLinked | sbe2/xmlparser/types.py:613-614 | After a complete bind loop every entry is its form bound in place: the registry is its bound-in-place view |
| TypesRegistry.BindAllMeaning | sbe2/xmlparser/types.py:613-614 | After a complete bind loop the registry has the same names and declarations, every slot holds the registry's entry bound in place, and binding any entry again succeeds |
| TypesRegistry.BindAllLengths | sbe2/xmlparser/types.py:613-614 | After a complete bind loop an entry whose references reach only registered types and no cycle has a byte length, and its enum, set and ref slots hold the registry's own bound entries |
| MessageCollection.Messages.constructor | sbe2/schema/messages.py:8-10 | A new collection has both indexes empty |
| MessageCollection.Messages.Add | sbe2/schema/messages.py:12-21 | A duplicate id or name fails with ValueError and changes neither index; otherwise both indexes gain the message and the size grows by one |
| MessageCollection.IndexesAgreeAdd | sbe2/schema/messages.py:16-21 | Adding a message with a fresh id and name keeps the two indexes in agreement |
| MessageCollection.Messages.GetItem | sbe2/schema/messages.py:24-34 | Lookup by id or by name succeeds exactly when the key is present, giving the message stored under that id or name; otherwise KeyError |
| MessageCollection.Messages.Get | sbe2/schema/messages.py:44-50 | `get` gives the message exactly when indexing would, and None otherwise |
| MessageCollection.Messages.Len | sbe2/schema/messages.py:36-40 | The length is the size of both indexes, which are always equal |
| MessageCollection.LookupsAgree | sbe2/schema/messages.py:20-21 | A message is found under its id exactly when it is found under its name |
| Schema.MessageSchema.constructor | sbe2/schema/message_schema.py:6-17 | A new schema has semantic version "", header type "messageHeader", little-endian byte order, its own fresh registry holding the builtins and an empty message collection |
| Attributes.ParseName | sbe2/xmlparser/attributes.py:6-19 | The name is read exactly when present and non-empty; otherwise parsing fails |
| Attributes.ParseDescription | sbe2/xmlparser/attributes.py:22-32 | The description is "" when absent, and otherwise the attribute with surrounding whitespace stripped (`Strings.StripIsTrimmedInfix` says what that is): it never starts or ends with whitespace (the Unicode set `str.isspace` accepts) and is no longer than the attribute |
| Attributes.ParseSinceVersion | sbe2/xmlparser/attributes.py:35-45 | The since version is 0 when absent and the attribute's integer when present; non-integer text is a ValueError |
| Attributes.ParseOptionalInt | sbe2/xmlparser/attributes.py:48-64 | The rule shared by deprecated, offset, alignment and blockLength: absent or empty gives None, an integer gives that integer, anything else fails |
| Attributes.OptionalIntRoundTrip | sbe2/xmlparser/attributes.py:48-83 | Writing an integer into an optional attribute, or into sinceVersion, and reading it back gives that integer |
| Attributes.DeprecatedZeroIsPresent | sbe2/xmlparser/attributes.py:58-60 | A deprecated attribute of "0" reads as 0, not as absent |
| Attributes.ParsePresence | sbe2/xmlparser/attributes.py:86-104 | Absent or empty gives None; a presence name gives the presence that renders as it; anything else fails |
| Attributes.PresenceAttributeRoundTrip | sbe2/xmlparser/attributes.py:86-104 | Writing a presence into the attribute and reading it back gives that presence |
| Attributes.ParseId | sbe2/xmlparser/attributes.py:107-123 | The id is read exactly when present and an integer; otherwise parsing fails |
| Attributes.IdRoundTrip | sbe2/xmlparser/attributes.py:107-123 | Writing an integer id and reading it back gives that integer |
| Attributes.ParseSemanticType | sbe2/xmlparser/attributes.py:126-136 | The semantic type is the attribute when present, and "" otherwise |
| Attributes.ParseEncodingType | sbe2/xmlparser/attributes.py:176-190 | The encoding type is read exactly when present and non-empty; otherwise parsing fails |
| Strings.ParseInt | sbe2/xmlparser/attributes.py:45 | Integer text is accepted exactly when it is digits, optionally after one sign |
| Strings.ParseShowInt | sbe2/xmlparser/attributes.py:45 | Reading the decimal text of any integer gives that integer |
| Strings.StripIsTrimmedInfix | sbe2/xmlparser/attributes.py:32 | Stripping keeps a contiguous slice and drops only whitespace before and after it |
| Strings.StripIdempotent | sbe2/xmlparser/attributes.py:32 | Stripping twice is stripping once |
| Strings.SplitDotJoin | sbe2/xmlparser/types.py:411 | Unpacking a split on '.' into two parts succeeds exactly when there is one dot, and the parts joined by a dot give back the text |
| Strings.JoinSplitDot | sbe2/xmlparser/types.py:411 | Two dot-free names joined by a dot split back into the same two names |
| Wrappers.Collect | sbe2/xmlparser/types.py:102 | Parsing a child list succeeds exactly when every child parses, giving their results in order; otherwise it fails with the first failing child's error |
| XmlTypes.ValidValueContent | sbe2/xmlparser/types.py:70 | For a char encoding the text is kept when it is ASCII and fails with ValueError otherwise (the UnicodeEncodeError of `encode('ascii')`); for any other encoding it must be an integer; missing text is an AttributeError for char (no `encode` on None) and a TypeError otherwise (`int(None)`) |
| XmlTypes.ParseValidValue | sbe2/xmlparser/types.py:54-80 | A wrong tag fails; a parsed valid value carries the name, description, value, since version and deprecation read from the node |
| XmlTypes.CommonAttrsRead | sbe2/xmlparser/attributes.py:6-64 | Attributes written from a name, description, since version and deprecation read back as those values |
| XmlTypes.ValidValueRoundTrip | sbe2/xmlparser/types.py:54-80 | Rendering a valid value as a node and parsing it back gives the same valid value |
| XmlTypes.ParseEnum | sbe2/xmlparser/types.py:83-122 | A wrong tag fails; a parsed enum is unbound, carries the name, description, since version, deprecation, encoding type name and offset read from the node, and has one valid value per child, each parsed with the enum's encoding type, with distinct names and distinct values |
| XmlTypes.ParseEnumUniqueness | sbe2/xmlparser/types.py:105-109 | When the attributes and children parse, the enum is accepted exactly when its valid-value names and values are all distinct |
| XmlTypes.ParseChoice | sbe2/xmlparser/types.py:125-155 | A wrong tag fails; a parsed choice carries the name, description, since version and deprecation read from the node; with readable attributes a choice parses exactly when its text is an integer, which becomes its value |
| XmlTypes.ChoiceRoundTrip | sbe2/xmlparser/types.py:125-155 | Rendering a choice as a node and parsing it back gives the same choice |
| XmlTypes.ParseSet | sbe2/xmlparser/types.py:158-191 | A wrong tag fails; a parsed set is unbound, carries the name, description, since version, deprecation, encoding type name and offset read from the node, and has one choice per child, with distinct names and distinct values |
| XmlTypes.ParseSetUniqueness | sbe2/xmlparser/types.py:177-181 | When the attributes and children parse, the set is accepted exactly when its choice names and values are all distinct |
| XmlTypes.ParseCompositeElement | sbe2/xmlparser/types.py:264-286 | Only the tags enum, type, set, ref and composite are accepted, each giving an element of that kind |
| XmlTypes.ParseComposite | sbe2/xmlparser/types.py:289-317 | Parsing succeeds exactly when the tag is `composite` and the name, since version, deprecation, offset and every child parse; the result carries the parsed name, description, since version and deprecation, and its members are exactly the children parsed in order |
| XmlTypes.ParseCompositeElements | sbe2/xmlparser/types.py:308 | The member list parses exactly when every child parses; it then has one member per child, each the result of parsing that child |
| XmlTypes.ParseTypeNode | sbe2/xmlparser/types.py:580-589 | Type, enum, set and composite tags give an element of that kind; any other tag gives nothing |
| XmlSchema.ValueRefLookup | sbe2/xmlparser/types.py:409-420 | Succeeds exactly when the reference resolves, giving that valid value; every failure is the one parsing error |
| XmlSchema.ValueRefLookupMeaning | sbe2/xmlparser/types.py:411-418 | `E.V` succeeds exactly when E is a registered enum holding a value named V, and gives the first such value |
| XmlSchema.ValueRefNeedsOneDot | sbe2/xmlparser/types.py:411 | A reference without exactly one dot always fails |
| XmlSchema.ValueRefToValidValue | sbe2/xmlparser/types.py:409-420 | The search loop gives exactly the lookup's result against the registry's entries |
| XmlSchema.FieldConstantValueAsWritten | sbe2/xmlparser/types.py:422-430 | As written: a field's or type's valueRef and text are checked for truth; both or neither truthy raise a NameError, because the message names an undefined `node` |
| XmlSchema.FieldConstantValue | sbe2/xmlparser/types.py:422-430 | Both sources given, or neither given with no stored constant, fail; a valueRef gives the referenced value; text or a stored constant is parsed by the type |
| XmlSchema.FieldConstantAgreesOffConstantTypes | sbe2/xmlparser/types.py:422-430 | When the type has no valueRef or stored constant, the as-written and corrected versions agree, except that the NameError becomes a parsing error |
| XmlSchema.ZeroConstantRejected | sbe2/xmlparser/types.py:424-425 | A stored constant 0 is taken as missing as written; the corrected version parses it |
| XmlSchema.BothSourcesRaiseNameError | sbe2/xmlparser/types.py:425-426 | Giving both a valueRef and text raises a NameError as written and a parsing error when corrected |
| XmlSchema.BoundReferenceTypeRejected | sbe2/xmlparser/types.py:423-426 | A constant type bound from its valueRef has both a valueRef and a truthy stored constant, so a field over it is rejected as written but accepted when corrected |
| XmlSchema.ParseElements | sbe2/xmlparser/types.py:543-577 | The loop over a node's children gives exactly the specification's result |
| XmlSchema.ElementAt | sbe2/xmlparser/types.py:559-575 | One loop step: a field, group or data child is appended to its list, or the step fails |
| XmlSchema.ParsedElementsMeaning | sbe2/xmlparser/types.py:554-577 | The children parse exactly when they come fields first, then groups, then data, with no other tag, and each parses; each list then holds its kind's children in document order |
| XmlSchema.PrefixFails | sbe2/xmlparser/types.py:558-575 | Once a prefix of the children fails, the whole list fails with the same error |
| XmlSchema.StepMeaning | sbe2/xmlparser/types.py:559-575 | Extending a well-ordered, parsed prefix by one child succeeds exactly when the longer prefix is well ordered and parses, and the lists grow accordingly |
| XmlSchema.StepField | sbe2/xmlparser/types.py:560-565 | A field is accepted exactly when it parses and no group or data came before it |
| XmlSchema.StepFieldLate | sbe2/xmlparser/types.py:561-564 | A field after a group or data is rejected |
| XmlSchema.StepFieldEarly | sbe2/xmlparser/types.py:560-565 | A field before any group or data is accepted exactly when it parses |
| XmlSchema.FieldAppended | sbe2/xmlparser/types.py:565 | An accepted field is appended to the fields and the lists still match the children |
| XmlSchema.StepGroup | sbe2/xmlparser/types.py:566-571 | A group is accepted exactly when it parses and no data came before it |
| XmlSchema.StepGroupLate | sbe2/xmlparser/types.py:567-570 | A group after data is rejected |
| XmlSchema.StepGroupEarly | sbe2/xmlparser/types.py:566-571 | A group before any data is accepted exactly when it parses |
| XmlSchema.GroupAppended | sbe2/xmlparser/types.py:571 | An accepted group is appended to the groups and the lists still match the children |
| XmlSchema.StepData | sbe2/xmlparser/types.py:572-573 | A data child is accepted exactly when it parses |
| XmlSchema.GetPackage | sbe2/xmlparser/types.py:351-363 | The walk up the ancestors gives nothing exactly when none is a `<messages>` with a non-empty package; otherwise it gives the nearest such package |
| XmlSchema.TypeNodeParser | sbe2/xmlparser/types.py:580-589 | The parser applied to each top-level type node is the tag dispatch |
| XmlSchema.RegisterAll | sbe2/xmlparser/types.py:608-611 | Registering parsed type nodes keeps the registry's order and map in agreement and never drops an entry |
| XmlSchema.RegisterPrefixFails | sbe2/xmlparser/types.py:608-611 | Once registering a prefix of the nodes fails, the whole loop fails with the same error |
| XmlSchema.RegisterAllLast | sbe2/xmlparser/types.py:608-611 | When the loop succeeds, the last node parsed to an element whose name was free, and the registry gained exactly that entry |
| XmlSchema.RegisterAllHolds | sbe2/xmlparser/types.py:608-611 | After a successful loop every parsed node's element is in the registry under its name |
| XmlSchema.ForwardReferenceResolves | sbe2/xmlparser/types.py:608-614 | An enum or set whose encoding type is declared anywhere among the nodes, even later, binds to that element once all are registered |
| XmlSchema.RegisterNodes | sbe2/xmlparser/types.py:608-611 | The registration loop fails with the first failure, and otherwise leaves the registry equal to the specification's result |
| XmlSchema.RegisterEach | sbe2/xmlparser/types.py:608-611 | The add loop over any node parser fails with the first node's failure, and otherwise leaves the registry holding every parsed type in document order |
| XmlSchema.AddParsed | sbe2/xmlparser/types.py:610-611 | Adding one parse result, when it succeeds, keeps the registry and its insertion order consistent and keeps every earlier name |
| XmlSchema.RegisterOne | sbe2/xmlparser/types.py:610-611 | One node: a parse failure or a node defining no type fails, a taken name fails with ValueError, otherwise the type is added last |
| XmlSchema.RegisterStep | sbe2/xmlparser/types.py:608-611 | Registering one more node adds what it parses to the registry the earlier nodes left |
| XmlSchema.RegisterFails | sbe2/xmlparser/types.py:608-611 | A node that fails to register fails the whole loop with its error |
| XmlSchema.LoadTypes | sbe2/xmlparser/types.py:606-616 | Registers every node, then binds every entry in place (so lengths through references are known), then looks up the header composite, stopping at the first failure; only the registry and the header slot change |
| XmlSchema.BindTypes | sbe2/xmlparser/types.py:613-616 | Binds every registered entry in place, in insertion order, then looks up the header composite; the first bind failure is reported and leaves the header unset; only the registry and the header slot change |
| BackcheckErrors.ErrorsOf | sbe2/backcheck/errors.py:122-129 | The kinds of a list of diffs, position by position |
| BackcheckErrors.SchemaIds | sbe2/backcheck/errors.py:14-35 | Each schema-level kind is recovered from its id |
| BackcheckErrors.TypeChangeIds | sbe2/backcheck/errors.py:36-49 | Each type-change kind is recovered from its id |
| BackcheckErrors.TypeFieldIds | sbe2/backcheck/errors.py:50-73 | Each type-field kind is recovered from its id |
| BackcheckErrors.ChoiceIds | sbe2/backcheck/errors.py:74-96 | Each choice kind is recovered from its id |
| BackcheckErrors.ValidValueIds | sbe2/backcheck/errors.py:97-114 | Each valid-value kind is recovered from its id |
| BackcheckErrors.CompositeIds | sbe2/backcheck/errors.py:116-119 | Each composite kind is recovered from its id |
| BackcheckErrors.FromIdRoundTrip | sbe2/backcheck/errors.py:10-119 | Every kind is recovered from its id |
| BackcheckErrors.FromIdSound | sbe2/backcheck/errors.py:10-12 | A string that names a kind is that kind's id |
| BackcheckErrors.IdsDistinct | sbe2/backcheck/errors.py:14-119 | Two kinds with the same id are the same kind |
| BackcheckCompare.CheckSchemaHeader | sbe2/backcheck/compare.py:19-26 | Appends the id, version, package and byte-order diffs, in that order, each check independent of the others |
| BackcheckCompare.CheckSemanticVersion | sbe2/backcheck/compare.py:28-33 | Appends the semantic-version diff |
| BackcheckCompare.SchemaCheckErrors | sbe2/backcheck/compare.py:19-33 | Each schema-level check reports its kind exactly when its condition holds |
| BackcheckCompare.SchemaErrorsOf | sbe2/backcheck/compare.py:18-33 | The kinds of the schema-level diffs are the checks' flags in order |
| BackcheckCompare.SchemaDiffsMeaning | sbe2/backcheck/compare.py:19-33 | Each schema kind is reported exactly when its rule fails; the version is accepted exactly when it is unchanged or one higher |
| BackcheckCompare.SchemaErrorsMeaning | sbe2/backcheck/compare.py:19-33 | The same rule-by-rule characterisation, stated for the flag list |
| BackcheckCompare.SchemaDiffsShape | sbe2/backcheck/compare.py:28-33 | No schema kind is reported twice, all are schema-level, and the two semantic-version kinds never both fire |
| BackcheckCompare.NewVersion | sbe2/backcheck/compare.py:35 | The new version is absent exactly when the versions are equal, and is the new schema's version otherwise |
| BackcheckCompare.DeprecationRule | sbe2/backcheck/compare.py:143-145 | A changed deprecation goes unreported exactly when it is a fresh deprecation stamped with the new version |
| BackcheckCompare.CheckAttribute | sbe2/backcheck/compare.py:133-147 | Appends at most one diff, for one compared attribute of two Types |
| BackcheckCompare.CompareTypeType | sbe2/backcheck/compare.py:120-147 | Appends exactly the specification's Type-against-element diffs |
| BackcheckCompare.PresenceAbsentReported | sbe2/backcheck/compare.py:146-147 | A Type without a presence attribute against one that has it ends in the presence diff printing None (for example "Presence does not match: None != optional"), in either direction; two Types both without it give no presence diff |
| BackcheckCompare.TypeConversionReported | sbe2/backcheck/compare.py:130-132 | A Type whose counterpart is not a Type gives exactly one conversion diff and nothing else |
| BackcheckCompare.TypeTypeMeaning | sbe2/backcheck/compare.py:133-147 | Between two Types, each attribute's kind is reported exactly when it differs (deprecation under its rule), at most once, and never a conversion, removal or constant kind |
| BackcheckCompare.AttributesErrorsOf | sbe2/backcheck/compare.py:133-147 | The kinds of the attribute diffs are the attribute flags in comparison order |
| BackcheckCompare.AttributesErrorsMeaning | sbe2/backcheck/compare.py:133-147 | Among the first k attributes, a kind is reported exactly when its attribute differs; no kind repeats |
| BackcheckCompare.AttributesQuiet | sbe2/backcheck/compare.py:133-147 | When no attribute differs, no diff is appended |
| BackcheckCompare.CompareType | sbe2/backcheck/compare.py:81-98 | Appends exactly the specification's diffs for a matched pair, dispatched on the old element's kind |
| BackcheckCompare.TypeDiffsSelf | sbe2/backcheck/compare.py:81-98 | An element compared with itself gives nothing, for the other kinds provided their comparators are quiet on identical input |
| BackcheckCompare.CheckNewType | sbe2/backcheck/compare.py:101-117 | Appends exactly the specification's diffs for an added type |
| BackcheckCompare.NewTypeRule | sbe2/backcheck/compare.py:110-117 | An addition gives at most one diff: type-added when the version did not change, no-since-version when it is absent, wrong-since-version when it differs, and nothing exactly when it equals the new version |
| BackcheckCompare.AddedElementSinceVersion | sbe2/backcheck/compare.py:113-117 | For a non-Ref element the since version is always present, so a versioned addition is accepted exactly when it equals the new version |
| BackcheckCompare.CompareTypes | sbe2/backcheck/compare.py:42-62 | Appends the diffs of every old type in iteration order, then those of every unmatched new type in insertion order |
| BackcheckCompare.MatchTypes | sbe2/backcheck/compare.py:53-60 | The loop over old types appends each one's diffs and leaves in `remaining` exactly the new names no old type has |
| BackcheckCompare.MatchAt | sbe2/backcheck/compare.py:54-60 | One iteration keeps both loop invariants for one more old type |
| BackcheckCompare.MatchStep | sbe2/backcheck/compare.py:55-59 | An old type with no same-named new type gives one removal diff; otherwise the pair is compared |
| BackcheckCompare.DiscardMatched | sbe2/backcheck/compare.py:60 | Discarding a matched name keeps `remaining` equal to the new names minus the old names seen so far |
| BackcheckCompare.CheckRemaining | sbe2/backcheck/compare.py:61-62 | Appends the addition diffs of every new type no old type names |
| BackcheckCompare.CheckLeftOver | sbe2/backcheck/compare.py:61-62 | One new type: checked as an addition exactly when no old type has its name |
| BackcheckCompare.CompareMessages | sbe2/backcheck/compare.py:66-77 | Message comparison appends nothing |
| BackcheckCompare.Compare | sbe2/backcheck/compare.py:7-39 | The result is the schema-level diffs followed by the type diffs under the new version |
| BackcheckProperties.SelfCompare | sbe2/backcheck/compare.py:18-39 | Comparing a schema with itself gives no diff, provided the unshown comparators are quiet on identical input |
| BackcheckProperties.MatchOneSelf | sbe2/backcheck/compare.py:55-59 | An old type that is its own new counterpart gives no diff |
| BackcheckProperties.MatchDiffsQuiet | sbe2/backcheck/compare.py:54-60 | When every old type is quiet on its own, the old-type loop appends nothing |
| BackcheckProperties.AddedDiffsNone | sbe2/backcheck/compare.py:61-62 | When every new name is an old name, the leftover loop appends nothing |
| BackcheckProperties.TypeDiffsKeep | sbe2/backcheck/compare.py:81-98 | Comparing a matched pair never reports a removal, provided the unshown comparators do not |
| BackcheckProperties.MatchOneRemovals | sbe2/backcheck/compare.py:55-59 | An old type yields one removal exactly when the new registry lacks its name |
| BackcheckProperties.MatchRemovedCount | sbe2/backcheck/compare.py:54-58 | Over distinct-named old types, the removals counted so far are the old names seen that the new registry lacks |
| BackcheckProperties.OldTypesRemovedCount | sbe2/backcheck/compare.py:54-58 | The old-type loop reports exactly as many removals as there are old names missing from the new registry |
| BackcheckProperties.SchemaDiffsKeep | sbe2/backcheck/compare.py:19-33 | The schema-level checks never report a removal |
| BackcheckProperties.AddedDiffsKeep | sbe2/backcheck/compare.py:61-62 | The leftover loop never reports a removal |
| BackcheckProperties.RemovedTypesReported | sbe2/backcheck/compare.py:53-58 | The whole comparison reports exactly one removal per old type whose name the new schema lacks |
| BackcheckProperties.AddedDiffsKinds | sbe2/backcheck/compare.py:101-117 | The leftover loop reports only addition kinds |
| BackcheckProperties.UnversionedAdditions | sbe2/backcheck/compare.py:110-111 | Without a version change the leftover loop appends one diff per new name not among the old names |
| BackcheckProperties.UnversionedAdditionKinds | sbe2/backcheck/compare.py:110-111 | Without a version change every leftover diff is type-added |
| BackcheckProperties.UnversionedAddedOne | sbe2/backcheck/compare.py:110-111 | Without a version change a new type gives one type-added diff exactly when its name is not old |
| BackcheckProperties.AdditionsNeedVersionChange | sbe2/backcheck/compare.py:110-111 | Without a version change every added type is reported once, as type-added |
| BackcheckProperties.VersionedAdditions | sbe2/backcheck/compare.py:112-117 | With a new version v, the leftover loop so far is silent exactly when every added type seen has since version v, and reports only wrong-since-version |
| BackcheckProperties.VersionedAddedOne | sbe2/backcheck/compare.py:112-117 | With a new version v, an added type is silent exactly when its since version is v |
| BackcheckProperties.AdditionsStampedWithNewVersion | sbe2/backcheck/compare.py:112-117 | With a new version v, additions are accepted exactly when every added type has since version v; otherwise only wrong-since-version is reported |
| BackcheckChoice.ChoiceErrorsOf | tests/test_backcheck/test_compare.py:8-34 | The kinds of a choice comparison are the name, since-version and deprecation flags, in that order |
| BackcheckChoice.ChoiceErrorsMeaning | tests/test_backcheck/test_compare.py:8-34 | Each choice kind is flagged exactly when its field differs (deprecation under its rule), at most once, and all are choice kinds |
| BackcheckChoice.ChoiceDiffsMeaning | tests/test_backcheck/test_compare.py:8-34 | A choice comparison reports each field's kind exactly when the field differs, never twice, and only choice kinds |
| BackcheckChoice.ChoiceDiffsSelf | tests/test_backcheck/test_compare.py:8-13 | A choice compared with itself gives nothing, whatever the new version |
| BackcheckChoice.ChoiceCopyPinned | tests/test_backcheck/test_compare.py:9-13 | The tests' choice against its copy gives no diff |
| BackcheckChoice.ChoiceRenamePinned | tests/test_backcheck/test_compare.py:15-19 | A renamed choice gives exactly the name diff with the tests' message |
| BackcheckChoice.ChoiceSincePinned | tests/test_backcheck/test_compare.py:21-25 | A since version moved to 5 gives exactly the since-version diff with the tests' message |
| BackcheckChoice.ChoiceDeprecationPinned | tests/test_backcheck/test_compare.py:27-34 | Deprecating as of 5 is reported when the version is unchanged and gives nothing when the new version is 5 |

## Left out

- XML and I/O. lxml parsing, `ElementInclude`, `QName` namespaces, and the
  file, text and descriptor handling of `parse_schema`/`parse_schema_fd` are
  not modelled. Nodes are a tag, an attribute map, optional text and
  children. `get_package` is given the node's ancestors, nearest first.
- `parse_type`, `parse_ref`, `parse_field`, `parse_group`, `parse_data`,
  `parse_message` and `parse_message_schema` read attributes that the shown
  `attributes.py` does not define. They are parameters of the parsers that
  dispatch to them, so messages are never parsed into the schema.
- Code generation (`sbe2/pygen`) is not part of this model.
- Floating point: float constants and float bounds of primitives are not
  modelled. A constant's text is parsed as an integer, or kept as text for `char`.
- `int()` accepts surrounding whitespace and underscores. The model accepts
  only an optional sign followed by decimal digits.
- `cached_property` memoisation: lengths are recomputed from the bound state.
- Update in place and aliasing: `lazy_bind` mutates shared objects, so an
  element bound later is seen as bound through every reference to it.
  - `Bind` is one `lazy_bind` call as a function that returns the bound copy.
  - The bind loop's effect on shared objects is modelled by `Link`: a slot
    holds its target as the loop leaves it, bound in place in turn.
  - Binding.Link follows names through at most as many steps as the registry
    has entries. A chain that long only arises through a reference cycle,
    where Python builds a cyclic object graph. Past that bound, a slot holds
    its target as declared. The length results (`LinkResolves`,
    `TypesRegistry.BindAllLengths`) assume the entry is `Grounded` within that
    bound. That a registry with no reference cycle meets this is not proved.
  - TypesRegistry.Types.BindAll: after a failed loop, the model's slots show
    their targets bound in place even when the loop had not reached them. In
    Python such a target is still unbound. Only the outcome and which
    entries were replaced are exact then.
  - `BindDependsOnDeclarations` shows that the outcome of binding does not
    depend on what is already bound.
  - A valid value's back-pointer to its enum (`sbe2/xmlparser/types.py:120-121`)
    is not modelled.
- The comparators `compare_type_set`, `compare_type_enum` and
  `compare_type_composite` are not shown. They are a `Comparators` parameter
  and their rules are not invented. `SelfCompare` assumes they are quiet on
  identical input, and `RemovedTypesReported` assumes they never report a removal.
- BackcheckChoice.ChoiceDiffs: `compare_choice` is not shown. It is modelled
  from its tests:
  - it checks name, since version and deprecation, in that order;
  - it does not compare the choice's value;
  - it is not called from `Compare`.
- The primitive-type diff message shows the primitive's name rather than the
  dataclass's full printed form. Messages of the type and choice checks are
  otherwise as written.
- A Ref has no `since_version`, so the Python check of an added Ref raises
  AttributeError after a version change. `Compare` and `CompareTypes` require
  that no added type is then a Ref (`AddedReadable`). Without a version change
  the attribute is never read, and that case is modelled.
- `TYPE_NO_SINCE_VERSION` is unreachable from a parsed schema, because every
  other element defaults its since version to 0. The model keeps the branch
  and proves it unreachable for non-Ref elements (`AddedElementSinceVersion`).
- A failing parse, add or bind leaves partial state behind in Python: earlier
  additions stay registered and earlier bindings stay applied. The registries
  model this exactly. The schema-level parse does not, because it stops at
  the first failure and builds no schema.
- The error ids are written out literally. The rule "the member name
  lower-cased with hyphens" is not stated as a function of names, because
  Dafny constructor names are not strings. Distinctness and recovery of every
  id are proved instead.
- Message, Field, Group and Data records carry no behaviour. They are opaque
  type parameters of `ParseElements`.
- `compare_messages` is a stub and is modelled as appending nothing.

## Findings

| source | as written | input that shows it | evidently intended | confidence | as-written member | corrected member |
|---|---|---|---|---|---|---|
| sbe2/schema/primitive_type.py:18-23 | `is_byte` returns `self.length`, which is truthy for every non-empty primitive | `uint16` (length 2) is a byte as written | true exactly for one-byte primitives, as the tests assert | not executed | PrimitiveTypes.IsByteAsWrittenDisagrees | PrimitiveTypes.IsByteOfStandard |
| sbe2/schema/type.py:20-21 | `total_length` is the primitive's length, whatever the presence and array length | a constant double gives 8; an 8-element char array gives 1 | 0 for a constant, otherwise primitive length times array length | not executed | Elements.TypeLengthAsWrittenDisagrees | Elements.NewType |
| sbe2/xmlparser/types.py:422-430 | The sources are tested with `bool()`, so a stored constant 0 counts as missing. A type bound from its valueRef has both sources set. The error message names an undefined `node`, which raises NameError. | a type with stored constant 0 and no valueRef; a constant type bound from `E.V` | exactly one source given, tested by presence, with a parsing error otherwise | not executed | XmlSchema.ZeroConstantRejected | XmlSchema.FieldConstantValue |
