/**
 * The closed catalogue of compatibility errors a schema comparison can
 * report, each with its machine-readable id and its description, and the
 * `Diff` record that pairs a message with one of them.
 */
module BackcheckErrors {
  import opened Wrappers

  /** One member per kind of incompatibility, in the order the catalogue declares them. */
  datatype Error =
    | SchemaIdMismatch
    | SchemaVersionMismatch
    | SchemaPackageMismatch
    | SchemaByteOrderMismatch
    | SchemaSemanticVersionMismatch
    | SchemaSemanticVersionNotUpdated
    | TypeRemoved
    | TypeAdded
    | TypeNoSinceVersion
    | TypeWrongSinceVersion
    | TypeConverted
    | TypeNameMismatch
    | TypeLengthMismatch
    | TypeCharacterEncodingMismatch
    | TypePrimitiveTypeMismatch
    | TypeSinceVersionMismatch
    | TypeDeprecatedMismatch
    | TypeConstValueMismatch
    | TypePresenceMismatch
    | ChoiceAdded
    | ChoiceRemoved
    | ChoiceNoSinceVersion
    | ChoiceSinceVersionMismatch
    | ChoiceDeprecatedMismatch
    | ChoiceNameMismatch
    | ValidValueAdded
    | ValidValueRemoved
    | ValidValueNoSinceVersion
    | ValidValueSinceVersionMismatch
    | ValidValueDeprecatedMismatch
    | ValidValueNameMismatch
    | CompositeAddedElement
    | CompositeMissingElement
    | CompositeSinceVersionMismatch
    | CompositeDeprecatedMismatch

  /** The id string each member carries. */
  function Id(e: Error): string
  {
    match e
    case SchemaIdMismatch => "schema-id-mismatch"
    case SchemaVersionMismatch => "schema-version-mismatch"
    case SchemaPackageMismatch => "schema-package-mismatch"
    case SchemaByteOrderMismatch => "schema-byte-order-mismatch"
    case SchemaSemanticVersionMismatch => "schema-semantic-version-mismatch"
    case SchemaSemanticVersionNotUpdated => "schema-semantic-version-not-updated"
    case TypeRemoved => "type-removed"
    case TypeAdded => "type-added"
    case TypeNoSinceVersion => "type-no-since-version"
    case TypeWrongSinceVersion => "type-wrong-since-version"
    case TypeConverted => "type-converted"
    case TypeNameMismatch => "type-name-mismatch"
    case TypeLengthMismatch => "type-length-mismatch"
    case TypeCharacterEncodingMismatch => "type-character-encoding-mismatch"
    case TypePrimitiveTypeMismatch => "type-primitive-type-mismatch"
    case TypeSinceVersionMismatch => "type-since-version-mismatch"
    case TypeDeprecatedMismatch => "type-deprecated-mismatch"
    case TypeConstValueMismatch => "type-const-value-mismatch"
    case TypePresenceMismatch => "type-presence-mismatch"
    case ChoiceAdded => "choice-added"
    case ChoiceRemoved => "choice-removed"
    case ChoiceNoSinceVersion => "choice-no-since-version"
    case ChoiceSinceVersionMismatch => "choice-since-version-mismatch"
    case ChoiceDeprecatedMismatch => "choice-deprecated-mismatch"
    case ChoiceNameMismatch => "choice-name-mismatch"
    case ValidValueAdded => "valid-value-added"
    case ValidValueRemoved => "valid-value-removed"
    case ValidValueNoSinceVersion => "valid-value-no-since-version"
    case ValidValueSinceVersionMismatch => "valid-value-since-version-mismatch"
    case ValidValueDeprecatedMismatch => "valid-value-deprecated-mismatch"
    case ValidValueNameMismatch => "valid-value-name-mismatch"
    case CompositeAddedElement => "composite-added-element"
    case CompositeMissingElement => "composite-missing-element"
    case CompositeSinceVersionMismatch => "composite-since-version-mismatch"
    case CompositeDeprecatedMismatch => "composite-deprecated-mismatch"
  }

  /** The description each member carries. */
  function Description(e: Error): string
  {
    match e
    case SchemaIdMismatch => "Schema IDs do not match."
    case SchemaVersionMismatch => "Schema versions do not match. Backward compatibility check is only possible if the newer schema either has the same version or a version higher by 1."
    case SchemaPackageMismatch => "Schema packages do not match."
    case SchemaByteOrderMismatch => "Byte orders do not match."
    case SchemaSemanticVersionMismatch => "Semantic versions do not match."
    case SchemaSemanticVersionNotUpdated => "Semantic version has not been updated, but the schema version has been updated."
    case TypeRemoved => "Type was removed."
    case TypeAdded => "Type was added to the schema even though the version has not changed."
    case TypeNoSinceVersion => "Type has no since version attribute, but it was added to the new schema."
    case TypeWrongSinceVersion => "Type has since version attribute, but it is wrong."
    case TypeConverted => "Type was converted to a different type."
    case TypeNameMismatch => "Type names do not match."
    case TypeLengthMismatch => "Type lengths do not match."
    case TypeCharacterEncodingMismatch => "Type character encodings do not match."
    case TypePrimitiveTypeMismatch => "Type primitive types do not match."
    case TypeSinceVersionMismatch => "Type since versions do not match."
    case TypeDeprecatedMismatch => "Type deprecation versions do not match."
    case TypeConstValueMismatch => "Type constant values do not match."
    case TypePresenceMismatch => "Type presence does not match."
    case ChoiceAdded => "Set choice was added to the schema even though the version has not changed."
    case ChoiceRemoved => "Set choice was removed."
    case ChoiceNoSinceVersion => "Set choice has no since version attribute, but it was added to the new schema."
    case ChoiceSinceVersionMismatch => "Set choice since versions do not match."
    case ChoiceDeprecatedMismatch => "Set choice deprecation versions do not match."
    case ChoiceNameMismatch => "Set choice names do not match."
    case ValidValueAdded => "Enum valid value was added to the schema even though the version has not changed."
    case ValidValueRemoved => "Enum valid value was removed."
    case ValidValueNoSinceVersion => "Enum valid value has no since version attribute, but it was added to the new schema."
    case ValidValueSinceVersionMismatch => "Enum valid value since versions do not match."
    case ValidValueDeprecatedMismatch => "Enum valid value deprecation versions do not match."
    case ValidValueNameMismatch => "Enum valid value names do not match."
    case CompositeAddedElement => "An element was added to a composite."
    case CompositeMissingElement => "An element was removed from a composite"
    case CompositeSinceVersionMismatch => "Composite since versions do not match."
    case CompositeDeprecatedMismatch => "Composite deprecation versions do not match."
  }

  /**
   * The only member whose id could be `s`, told apart by the id's length and
   * a character or two near its end.
   */
  function Candidate(s: string): Option<Error>
  {
    match |s|
    case 10 => Some(TypeAdded)
    case 12 =>
      if s[9] == 'v' then Some(TypeRemoved)
      else Some(ChoiceAdded)
    case 14 =>
      if s[11] == 't' then Some(TypeConverted)
      else Some(ChoiceRemoved)
    case 17 => Some(ValidValueAdded)
    case 18 =>
      if s[8] == 'd' then Some(SchemaIdMismatch)
      else Some(TypeNameMismatch)
    case 19 => Some(ValidValueRemoved)
    case 20 =>
      if s[10] == 'h' then Some(TypeLengthMismatch)
      else Some(ChoiceNameMismatch)
    case 21 => Some(TypeNoSinceVersion)
    case 22 => Some(TypePresenceMismatch)
    case 23 =>
      if s[22] == 'h' then
        if s[13] == 'n' then Some(SchemaVersionMismatch)
        else Some(SchemaPackageMismatch)
      else if s[22] == 'n' then Some(ChoiceNoSinceVersion)
      else Some(CompositeAddedElement)
    case 24 =>
      if s[23] == 'n' then Some(TypeWrongSinceVersion)
      else Some(TypeDeprecatedMismatch)
    case 25 =>
      if s[24] == 'h' then
        if s[14] == 'u' then Some(TypeConstValueMismatch)
        else Some(ValidValueNameMismatch)
      else Some(CompositeMissingElement)
    case 26 =>
      if s[16] == 'r' then Some(SchemaByteOrderMismatch)
      else Some(ChoiceDeprecatedMismatch)
    case 27 => Some(TypeSinceVersionMismatch)
    case 28 =>
      if s[27] == 'h' then Some(TypePrimitiveTypeMismatch)
      else Some(ValidValueNoSinceVersion)
    case 29 =>
      if s[19] == 'n' then Some(ChoiceSinceVersionMismatch)
      else Some(CompositeDeprecatedMismatch)
    case 31 => Some(ValidValueDeprecatedMismatch)
    case 32 =>
      if s[22] == 'n' then
        if s[14] == 'c' then Some(SchemaSemanticVersionMismatch)
        else Some(CompositeSinceVersionMismatch)
      else Some(TypeCharacterEncodingMismatch)
    case 34 => Some(ValidValueSinceVersionMismatch)
    case 35 => Some(SchemaSemanticVersionNotUpdated)
    case _ => None
  }

  /** Look a member up by its id; an unknown id names no member. */
  function FromId(s: string): Option<Error>
  {
    match Candidate(s)
    case Some(e) => if Id(e) == s then Some(e) else None
    case None => None
  }

  /** The five families of the catalogue. */
  datatype Family = SchemaLevel | TypeLevel | ChoiceLevel | ValidValueLevel | CompositeLevel

  function FamilyOf(e: Error): Family
  {
    match e
    case SchemaIdMismatch | SchemaVersionMismatch | SchemaPackageMismatch | SchemaByteOrderMismatch
      | SchemaSemanticVersionMismatch | SchemaSemanticVersionNotUpdated => SchemaLevel
    case TypeRemoved | TypeAdded | TypeNoSinceVersion | TypeWrongSinceVersion | TypeConverted
      | TypeNameMismatch | TypeLengthMismatch | TypeCharacterEncodingMismatch | TypePrimitiveTypeMismatch
      | TypeSinceVersionMismatch | TypeDeprecatedMismatch | TypeConstValueMismatch | TypePresenceMismatch => TypeLevel
    case ChoiceAdded | ChoiceRemoved | ChoiceNoSinceVersion | ChoiceSinceVersionMismatch
      | ChoiceDeprecatedMismatch | ChoiceNameMismatch => ChoiceLevel
    case ValidValueAdded | ValidValueRemoved | ValidValueNoSinceVersion | ValidValueSinceVersionMismatch
      | ValidValueDeprecatedMismatch | ValidValueNameMismatch => ValidValueLevel
    case CompositeAddedElement | CompositeMissingElement | CompositeSinceVersionMismatch
      | CompositeDeprecatedMismatch => CompositeLevel
  }

  // The decision tree is checked against the catalogue one family at a time.

  lemma SchemaIds(e: Error)
    requires FamilyOf(e) == SchemaLevel
    ensures Candidate(Id(e)) == Some(e)
  {
    match e
    case SchemaIdMismatch =>
    case SchemaVersionMismatch =>
    case SchemaPackageMismatch =>
    case SchemaByteOrderMismatch =>
    case SchemaSemanticVersionMismatch =>
    case SchemaSemanticVersionNotUpdated =>
  }

  lemma TypeChangeIds(e: Error)
    requires e.TypeRemoved? || e.TypeAdded? || e.TypeNoSinceVersion? || e.TypeWrongSinceVersion? || e.TypeConverted?
    ensures Candidate(Id(e)) == Some(e)
  {
    match e
    case TypeRemoved =>
    case TypeAdded =>
    case TypeNoSinceVersion =>
    case TypeWrongSinceVersion =>
    case TypeConverted =>
  }

  lemma TypeFieldIds(e: Error)
    requires FamilyOf(e) == TypeLevel
    requires !(e.TypeRemoved? || e.TypeAdded? || e.TypeNoSinceVersion? || e.TypeWrongSinceVersion? || e.TypeConverted?)
    ensures Candidate(Id(e)) == Some(e)
  {
    match e
    case TypeNameMismatch =>
    case TypeLengthMismatch =>
    case TypeCharacterEncodingMismatch =>
    case TypePrimitiveTypeMismatch =>
    case TypeSinceVersionMismatch =>
    case TypeDeprecatedMismatch =>
    case TypeConstValueMismatch =>
    case TypePresenceMismatch =>
  }

  lemma ChoiceIds(e: Error)
    requires FamilyOf(e) == ChoiceLevel
    ensures Candidate(Id(e)) == Some(e)
  {
    match e
    case ChoiceAdded =>
    case ChoiceRemoved =>
    case ChoiceNoSinceVersion =>
    case ChoiceSinceVersionMismatch =>
    case ChoiceDeprecatedMismatch =>
    case ChoiceNameMismatch =>
  }

  lemma ValidValueIds(e: Error)
    requires FamilyOf(e) == ValidValueLevel
    ensures Candidate(Id(e)) == Some(e)
  {
    match e
    case ValidValueAdded =>
    case ValidValueRemoved =>
    case ValidValueNoSinceVersion =>
    case ValidValueSinceVersionMismatch =>
    case ValidValueDeprecatedMismatch =>
    case ValidValueNameMismatch =>
  }

  lemma CompositeIds(e: Error)
    requires FamilyOf(e) == CompositeLevel
    ensures Candidate(Id(e)) == Some(e)
  {
    match e
    case CompositeAddedElement =>
    case CompositeMissingElement =>
    case CompositeSinceVersionMismatch =>
    case CompositeDeprecatedMismatch =>
  }

  /** Looking a member up by its own id finds that member. */
  lemma FromIdRoundTrip(e: Error)
    ensures FromId(Id(e)) == Some(e)
  {
    match FamilyOf(e)
    case SchemaLevel => SchemaIds(e);
    case TypeLevel =>
      if e.TypeRemoved? || e.TypeAdded? || e.TypeNoSinceVersion? || e.TypeWrongSinceVersion? || e.TypeConverted? {
        TypeChangeIds(e);
      } else {
        TypeFieldIds(e);
      }
    case ChoiceLevel => ChoiceIds(e);
    case ValidValueLevel => ValidValueIds(e);
    case CompositeLevel => CompositeIds(e);
  }

  /** A lookup that succeeds finds the member carrying exactly that id. */
  lemma FromIdSound(s: string)
    ensures FromId(s).Some? ==> Id(FromId(s).value) == s
  {
  }

  /** Ids are pairwise distinct, so an id identifies its member. */
  lemma IdsDistinct(a: Error, b: Error)
    ensures Id(a) == Id(b) ==> a == b
  {
    FromIdRoundTrip(a);
    FromIdRoundTrip(b);
  }

  /** `Diff`: a human-readable message paired with exactly one error kind. */
  datatype Diff = Diff(message: string, error: Error)

  /** The kinds a list of diffs reports, in order. */
  function ErrorsOf(ds: seq<Diff>): (es: seq<Error>)
    ensures |es| == |ds|
    ensures forall i :: 0 <= i < |ds| ==> es[i] == ds[i].error
  {
    seq(|ds|, i requires 0 <= i < |ds| => ds[i].error)
  }
}
