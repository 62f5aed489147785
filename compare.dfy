/**
 * The backward-compatibility checker: compare an old and a new version of a
 * schema and report every incompatibility as an ordered list of diffs —
 * schema-level checks first, then the types matched by name, then the types
 * the new version adds. Neither schema is changed.
 */
module BackcheckCompare {
  import opened Wrappers
  import opened Strings
  import opened Common
  import opened Elements
  import opened BackcheckErrors
  import opened TypesRegistry
  import opened MessageCollection
  import opened Schema
  import opened Builtin

  // ---------------------------------------------------------------------
  // Message fragments, spelled as the checker spells them
  // ---------------------------------------------------------------------

  const SchemaIdsDiffer := "Schema IDs do not match: "
  const SchemaVersionsDiffer := "Schema versions do not match, old: "
  const NewPart := ", new: "
  const SchemaPackagesDiffer := "Schema packages do not match: "
  const ByteOrdersDiffer := "Byte orders do not match: "
  const SemanticVersionsDiffer := "Semantic versions do not match: "
  const SemanticVersionKept := "Version has changed, but semantic version is the same: "
  const TypeNamesDiffer := "Type names do not match: "
  const TypeLengthsDiffer := "Type lengths do not match: "
  const EncodingsDiffer := "Character encodings do not match: "
  const PrimitiveTypesDiffer := "Primitive types do not match: "
  const SinceVersionsDiffer := "Since versions do not match: "
  const DeprecatedVersionsDiffer := "Deprecated versions do not match: "
  const PresenceDiffers := "Presence does not match: "
  const ExpectedType := "Expected Type, got "
  const AddedWithoutVersionChange := " added without a version change"
  const NoSinceVersionButAdded := " has no since version, but was added in version "
  const HasSinceVersion := " has a since version "
  const NotTheNewVersion := ", which does not match the new schema version "
  const NotFoundInNew := " not found in the new schema"
  const TypeWord := "Type "
  const NotEqual := " != "
  const TypeClass := "Type"
  const EnumClass := "Enum"
  const SetClass := "Set"
  const CompositeClass := "Composite"
  const RefClass := "Ref"
  const NoneText := "None"

  // ---------------------------------------------------------------------
  // Schema-level checks
  // ---------------------------------------------------------------------

  /** The attributes of a schema that the schema-level checks read. */
  datatype Stamp = Stamp(id: int, version: int, package: string, byteOrder: ByteOrder, semanticVersion: string)

  function StampOf(s: MessageSchema): Stamp
    reads s
  {
    Stamp(s.id, s.version, s.package, s.byteOrder, s.semanticVersion)
  }

  /** A one-element list when the condition holds, the empty list otherwise. */
  function When(c: bool, d: Diff): seq<Diff>
  {
    if c then [d] else []
  }

  /** The kind of a `When` list. */
  function Flag(c: bool, e: Error): seq<Error>
  {
    if c then [e] else []
  }

  lemma ErrorsOfWhen(c: bool, d: Diff)
    ensures ErrorsOf(When(c, d)) == Flag(c, d.error)
  {
  }

  lemma ErrorsOfConcat(a: seq<Diff>, b: seq<Diff>)
    ensures ErrorsOf(a + b) == ErrorsOf(a) + ErrorsOf(b)
  {
  }

  /** Two lists without repeats and without a common kind join into a list without repeats. */
  lemma DistinctConcat(a: seq<Error>, b: seq<Error>)
    requires Seqs.Distinct(a) && Seqs.Distinct(b)
    requires forall e :: e in a ==> e !in b
    ensures Seqs.Distinct(a + b)
  {
    forall i, j | 0 <= i < j < |a + b|
      ensures (a + b)[i] != (a + b)[j]
    {
      if i < |a| && j >= |a| {
        assert a[i] in a && b[j - |a|] in b;
      }
    }
  }

  /** The version rule: the new version is the old one or the one after it. */
  predicate VersionAccepted(o: Stamp, n: Stamp)
  {
    n.version == o.version || n.version == o.version + 1
  }

  // One function per schema-level check; each gives at most one diff.

  function IdDiffs(o: Stamp, n: Stamp): seq<Diff>
  {
    When(o.id != n.id,
      Diff(SchemaIdsDiffer + ShowInt(o.id) + NotEqual + ShowInt(n.id), SchemaIdMismatch))
  }

  function VersionDiffs(o: Stamp, n: Stamp): seq<Diff>
  {
    When(o.version != n.version && o.version + 1 != n.version,
      Diff(SchemaVersionsDiffer + ShowInt(o.version) + NewPart + ShowInt(n.version), SchemaVersionMismatch))
  }

  function PackageDiffs(o: Stamp, n: Stamp): seq<Diff>
  {
    When(o.package != n.package,
      Diff(SchemaPackagesDiffer + o.package + NotEqual + n.package, SchemaPackageMismatch))
  }

  function ByteOrderDiffs(o: Stamp, n: Stamp): seq<Diff>
  {
    When(o.byteOrder != n.byteOrder,
      Diff(ByteOrdersDiffer + ByteOrderName(o.byteOrder) + NotEqual + ByteOrderName(n.byteOrder), SchemaByteOrderMismatch))
  }

  function SemanticVersionDiffs(o: Stamp, n: Stamp): seq<Diff>
  {
    if o.version == n.version then
      When(o.semanticVersion != n.semanticVersion,
        Diff(SemanticVersionsDiffer + o.semanticVersion + NotEqual + n.semanticVersion, SchemaSemanticVersionMismatch))
    else
      When(o.semanticVersion == n.semanticVersion,
        Diff(SemanticVersionKept + o.semanticVersion, SchemaSemanticVersionNotUpdated))
  }

  /** The schema-level diffs, in the order the checks run; every failing check contributes one. */
  function SchemaDiffs(o: Stamp, n: Stamp): seq<Diff>
  {
    IdDiffs(o, n) + VersionDiffs(o, n) + PackageDiffs(o, n) + ByteOrderDiffs(o, n) + SemanticVersionDiffs(o, n)
  }

  /** The kinds the schema-level checks report, check by check. */
  function SchemaErrors(o: Stamp, n: Stamp): seq<Error>
  {
    Flag(o.id != n.id, SchemaIdMismatch)
    + Flag(o.version != n.version && o.version + 1 != n.version, SchemaVersionMismatch)
    + Flag(o.package != n.package, SchemaPackageMismatch)
    + Flag(o.byteOrder != n.byteOrder, SchemaByteOrderMismatch)
    + SemanticVersionErrors(o, n)
  }

  function SemanticVersionErrors(o: Stamp, n: Stamp): seq<Error>
  {
    if o.version == n.version then Flag(o.semanticVersion != n.semanticVersion, SchemaSemanticVersionMismatch)
    else Flag(o.semanticVersion == n.semanticVersion, SchemaSemanticVersionNotUpdated)
  }

  lemma SchemaCheckErrors(o: Stamp, n: Stamp)
    ensures ErrorsOf(IdDiffs(o, n)) == Flag(o.id != n.id, SchemaIdMismatch)
    ensures ErrorsOf(VersionDiffs(o, n)) == Flag(o.version != n.version && o.version + 1 != n.version, SchemaVersionMismatch)
    ensures ErrorsOf(PackageDiffs(o, n)) == Flag(o.package != n.package, SchemaPackageMismatch)
    ensures ErrorsOf(ByteOrderDiffs(o, n)) == Flag(o.byteOrder != n.byteOrder, SchemaByteOrderMismatch)
    ensures ErrorsOf(SemanticVersionDiffs(o, n)) == SemanticVersionErrors(o, n)
  {
  }

  lemma SchemaErrorsOf(o: Stamp, n: Stamp)
    ensures ErrorsOf(SchemaDiffs(o, n)) == SchemaErrors(o, n)
  {
    var d1, d2, d3, d4, d5 := IdDiffs(o, n), VersionDiffs(o, n), PackageDiffs(o, n), ByteOrderDiffs(o, n), SemanticVersionDiffs(o, n);
    SchemaCheckErrors(o, n);
    ErrorsOfConcat(d1 + d2 + d3 + d4, d5);
    ErrorsOfConcat(d1 + d2 + d3, d4);
    ErrorsOfConcat(d1 + d2, d3);
    ErrorsOfConcat(d1, d2);
  }

  /**
   * Each schema-level check fails independently of the others and reports
   * exactly when its rule is broken: the ids differ, the version rule is
   * broken, the packages or byte orders differ, the semantic version changed
   * under an unchanged version, or stayed the same under a changed one.
   */
  lemma SchemaDiffsMeaning(o: Stamp, n: Stamp)
    ensures var es := ErrorsOf(SchemaDiffs(o, n));
      && (SchemaIdMismatch in es <==> o.id != n.id)
      && (SchemaVersionMismatch in es <==> !VersionAccepted(o, n))
      && (SchemaPackageMismatch in es <==> o.package != n.package)
      && (SchemaByteOrderMismatch in es <==> o.byteOrder != n.byteOrder)
      && (SchemaSemanticVersionMismatch in es <==> o.version == n.version && o.semanticVersion != n.semanticVersion)
      && (SchemaSemanticVersionNotUpdated in es <==> o.version != n.version && o.semanticVersion == n.semanticVersion)
  {
    SchemaErrorsOf(o, n);
    SchemaErrorsMeaning(o, n);
  }

  /** Membership in a concatenation of the five checks' kinds, check by check. */
  lemma SchemaErrorsMeaning(o: Stamp, n: Stamp)
    ensures var es := SchemaErrors(o, n);
      && (SchemaIdMismatch in es <==> o.id != n.id)
      && (SchemaVersionMismatch in es <==> !VersionAccepted(o, n))
      && (SchemaPackageMismatch in es <==> o.package != n.package)
      && (SchemaByteOrderMismatch in es <==> o.byteOrder != n.byteOrder)
      && (SchemaSemanticVersionMismatch in es <==> o.version == n.version && o.semanticVersion != n.semanticVersion)
      && (SchemaSemanticVersionNotUpdated in es <==> o.version != n.version && o.semanticVersion == n.semanticVersion)
  {
    var f1 := Flag(o.id != n.id, SchemaIdMismatch);
    var f2 := Flag(o.version != n.version && o.version + 1 != n.version, SchemaVersionMismatch);
    var f3 := Flag(o.package != n.package, SchemaPackageMismatch);
    var f4 := Flag(o.byteOrder != n.byteOrder, SchemaByteOrderMismatch);
    var f5 := SemanticVersionErrors(o, n);
    forall e
      ensures e in SchemaErrors(o, n) <==> e in f1 || e in f2 || e in f3 || e in f4 || e in f5
    {
    }
  }

  /** No schema-level kind is reported twice, every kind is schema-level, and the two semantic-version kinds exclude each other. */
  lemma SchemaDiffsShape(o: Stamp, n: Stamp)
    ensures var es := ErrorsOf(SchemaDiffs(o, n));
      && Seqs.Distinct(es)
      && (forall e :: e in es ==> FamilyOf(e) == SchemaLevel)
      && !(SchemaSemanticVersionMismatch in es && SchemaSemanticVersionNotUpdated in es)
  {
    SchemaErrorsOf(o, n);
    var f1 := Flag(o.id != n.id, SchemaIdMismatch);
    var f2 := Flag(o.version != n.version && o.version + 1 != n.version, SchemaVersionMismatch);
    var f3 := Flag(o.package != n.package, SchemaPackageMismatch);
    var f4 := Flag(o.byteOrder != n.byteOrder, SchemaByteOrderMismatch);
    var f5 := SemanticVersionErrors(o, n);
    DistinctConcat(f1, f2);
    DistinctConcat(f1 + f2, f3);
    DistinctConcat(f1 + f2 + f3, f4);
    DistinctConcat(f1 + f2 + f3 + f4, f5);
  }

  /** `new_version`: the new schema's version when it changed, None when it did not. */
  function NewVersion(o: Stamp, n: Stamp): (nv: Option<int>)
    ensures nv.None? <==> o.version == n.version
    ensures nv.Some? ==> nv.value == n.version
  {
    if n.version != o.version then Some(n.version) else None
  }

  // ---------------------------------------------------------------------
  // Deprecation
  // ---------------------------------------------------------------------

  /**
   * A change of the deprecated version is reported unless the element was
   * not deprecated before and is deprecated as of the new schema version.
   */
  predicate DeprecationReported(before: Option<int>, after: Option<int>, nv: Option<int>)
  {
    before != after && (before.Some? || after != nv)
  }

  /**
   * The only change of deprecation that goes unreported is a fresh
   * deprecation stamped with the version the new schema introduces; undoing
   * or moving a deprecation is always reported.
   */
  lemma DeprecationRule(before: Option<int>, after: Option<int>, nv: Option<int>)
    ensures before != after && !DeprecationReported(before, after, nv) <==> before.None? && nv.Some? && after == nv
    ensures before.Some? && before != after ==> DeprecationReported(before, after, nv)
    ensures nv.None? && before != after ==> DeprecationReported(before, after, nv)
  {
  }

  // ---------------------------------------------------------------------
  // Type against type
  // ---------------------------------------------------------------------

  /** `type(x).__name__` for an element. */
  function ClassName(e: Element): string
  {
    match e
    case TypeElem(_, _, _, _, _, _, _, _, _, _, _, _) => TypeClass
    case EnumElem(_, _, _, _, _, _, _, _) => EnumClass
    case SetElem(_, _, _, _, _, _, _, _) => SetClass
    case CompositeElem(_, _, _, _, _, _) => CompositeClass
    case RefElem(_, _, _, _, _) => RefClass
  }

  /** `str()` of an optional string: Python prints `None` for the absent value. */
  function ShowOptText(o: Option<string>): string
  {
    match o
    case None => NoneText
    case Some(s) => s
  }

  /**
   * `str()` of a type's presence: a presence prints as its value, and a type
   * read without a presence attribute holds None.
   */
  function ShowPresence(o: Option<Presence>): string
  {
    match o
    case None => NoneText
    case Some(p) => PresenceText(p)
  }

  /** The attributes `compare_type_type` compares, in the order it compares them. */
  datatype TypeAttribute = NameAttr | LengthAttr | EncodingAttr | PrimitiveAttr | SinceAttr | DeprecatedAttr | PresenceAttr

  /** Whether the attribute differs between the two Types (the deprecated version under the deprecation rule). */
  predicate Differs(o: Element, n: Element, nv: Option<int>, a: TypeAttribute)
    requires o.TypeElem? && n.TypeElem?
  {
    match a
    case NameAttr => o.name != n.name
    case LengthAttr => o.length != n.length
    case EncodingAttr => o.characterEncoding != n.characterEncoding
    case PrimitiveAttr => o.primitive != n.primitive
    case SinceAttr => o.sinceVersion != n.sinceVersion
    case DeprecatedAttr => DeprecationReported(o.deprecated, n.deprecated, nv)
    case PresenceAttr => o.presence != n.presence
  }

  /** The kind reported for a differing attribute. */
  function AttributeKind(a: TypeAttribute): Error
  {
    match a
    case NameAttr => TypeNameMismatch
    case LengthAttr => TypeLengthMismatch
    case EncodingAttr => TypeCharacterEncodingMismatch
    case PrimitiveAttr => TypePrimitiveTypeMismatch
    case SinceAttr => TypeSinceVersionMismatch
    case DeprecatedAttr => TypeDeprecatedMismatch
    case PresenceAttr => TypePresenceMismatch
  }

  /** The message for a differing attribute: both values, old first. */
  function AttributeMessage(o: Element, n: Element, a: TypeAttribute): string
    requires o.TypeElem? && n.TypeElem?
  {
    match a
    case NameAttr => TypeNamesDiffer + o.name + NotEqual + n.name
    case LengthAttr => TypeLengthsDiffer + ShowInt(o.length) + NotEqual + ShowInt(n.length)
    case EncodingAttr =>
      EncodingsDiffer + ShowOptText(o.characterEncoding) + NotEqual + ShowOptText(n.characterEncoding)
    case PrimitiveAttr => PrimitiveTypesDiffer + o.primitive.name + NotEqual + n.primitive.name
    case SinceAttr => SinceVersionsDiffer + ShowInt(o.sinceVersion) + NotEqual + ShowInt(n.sinceVersion)
    case DeprecatedAttr => DeprecatedVersionsDiffer + ShowOptInt(o.deprecated) + NotEqual + ShowOptInt(n.deprecated)
    case PresenceAttr => PresenceDiffers + ShowPresence(o.presence) + NotEqual + ShowPresence(n.presence)
  }

  /** The diff for one attribute, when it differs. */
  function AttributeDiffs(o: Element, n: Element, nv: Option<int>, a: TypeAttribute): seq<Diff>
    requires o.TypeElem? && n.TypeElem?
  {
    When(Differs(o, n, nv, a), Diff(AttributeMessage(o, n, a), AttributeKind(a)))
  }

  /** Every attribute, in the order `compare_type_type` compares them. */
  const TypeAttributes: seq<TypeAttribute> :=
    [NameAttr, LengthAttr, EncodingAttr, PrimitiveAttr, SinceAttr, DeprecatedAttr, PresenceAttr]

  /** The attribute's position in the comparison order. */
  function AttributeIndex(a: TypeAttribute): (i: nat)
    ensures i < |TypeAttributes| && TypeAttributes[i] == a
  {
    match a
    case NameAttr => 0
    case LengthAttr => 1
    case EncodingAttr => 2
    case PrimitiveAttr => 3
    case SinceAttr => 4
    case DeprecatedAttr => 5
    case PresenceAttr => 6
  }

  /** The list names each attribute once: a position holds the attribute indexed there. */
  lemma AttributeIndexOfPosition(j: nat)
    requires j < |TypeAttributes|
    ensures AttributeIndex(TypeAttributes[j]) == j
  {
  }

  /** The diffs for the first `k` attributes of the comparison order. */
  function AttributesDiffs(o: Element, n: Element, nv: Option<int>, k: nat): seq<Diff>
    requires o.TypeElem? && n.TypeElem? && k <= |TypeAttributes|
  {
    if k == 0 then []
    else AttributesDiffs(o, n, nv, k - 1) + AttributeDiffs(o, n, nv, TypeAttributes[k - 1])
  }

  /**
   * `compare_type_type`: a counterpart of another kind is one conversion
   * diff and nothing more; otherwise each differing attribute gives one diff,
   * in a fixed order.
   */
  function TypeTypeDiffs(o: Element, n: Element, nv: Option<int>): seq<Diff>
    requires o.TypeElem?
  {
    if !n.TypeElem? then [Diff(ExpectedType + ClassName(n), TypeConverted)]
    else AttributesDiffs(o, n, nv, |TypeAttributes|)
  }

  /** The kinds reported for the first `k` attributes, in order. */
  function AttributesErrors(o: Element, n: Element, nv: Option<int>, k: nat): seq<Error>
    requires o.TypeElem? && n.TypeElem? && k <= |TypeAttributes|
  {
    if k == 0 then []
    else
      var a := TypeAttributes[k - 1];
      AttributesErrors(o, n, nv, k - 1) + Flag(Differs(o, n, nv, a), AttributeKind(a))
  }

  lemma {:induction false} AttributesErrorsOf(o: Element, n: Element, nv: Option<int>, k: nat)
    requires o.TypeElem? && n.TypeElem? && k <= |TypeAttributes|
    ensures ErrorsOf(AttributesDiffs(o, n, nv, k)) == AttributesErrors(o, n, nv, k)
  {
    if k > 0 {
      var a := TypeAttributes[k - 1];
      AttributesErrorsOf(o, n, nv, k - 1);
      ErrorsOfConcat(AttributesDiffs(o, n, nv, k - 1), AttributeDiffs(o, n, nv, a));
      ErrorsOfWhen(Differs(o, n, nv, a), Diff(AttributeMessage(o, n, a), AttributeKind(a)));
    }
  }

  /**
   * Among the first `k` attributes, an attribute's kind is reported exactly
   * when the attribute differs; every reported kind is a type-level
   * attribute kind, and none is reported twice.
   */
  lemma {:induction false} AttributesErrorsMeaning(o: Element, n: Element, nv: Option<int>, k: nat)
    requires o.TypeElem? && n.TypeElem? && k <= |TypeAttributes|
    ensures forall a :: AttributeKind(a) in AttributesErrors(o, n, nv, k) <==> AttributeIndex(a) < k && Differs(o, n, nv, a)
    ensures forall e :: e in AttributesErrors(o, n, nv, k) ==>
      FamilyOf(e) == TypeLevel && e != TypeConverted && e != TypeConstValueMismatch && e != TypeRemoved
    ensures Seqs.Distinct(AttributesErrors(o, n, nv, k))
  {
    if k > 0 {
      var a := TypeAttributes[k - 1];
      AttributesErrorsMeaning(o, n, nv, k - 1);
      AttributeIndexOfPosition(k - 1);
      var es, f := AttributesErrors(o, n, nv, k - 1), Flag(Differs(o, n, nv, a), AttributeKind(a));
      forall b
        ensures AttributeKind(b) in es + f <==> AttributeIndex(b) < k && Differs(o, n, nv, b)
      {
        assert AttributeKind(b) == AttributeKind(a) ==> b == a;
      }
      DistinctConcat(es, f);
    }
  }

  /** A Type compared with an element of another kind gives exactly one conversion diff. */
  lemma TypeConversionReported(o: Element, n: Element, nv: Option<int>)
    requires o.TypeElem? && !n.TypeElem?
    ensures ErrorsOf(TypeTypeDiffs(o, n, nv)) == [TypeConverted]
  {
  }

  /**
   * A type read without a presence attribute holds None. Against a type that
   * states one, the last diff is the presence mismatch, printing None; when
   * both omit it, no presence diff is reported.
   */
  lemma PresenceAbsentReported(o: Element, n: Element, nv: Option<int>)
    requires o.TypeElem? && n.TypeElem?
    ensures var d := TypeTypeDiffs(o, n, nv);
      o.presence.None? && n.presence.Some? ==>
        |d| > 0 && d[|d| - 1] == Diff(PresenceDiffers + NoneText + NotEqual + PresenceText(n.presence.value), TypePresenceMismatch)
    ensures var d := TypeTypeDiffs(o, n, nv);
      o.presence.Some? && n.presence.None? ==>
        |d| > 0 && d[|d| - 1] == Diff(PresenceDiffers + PresenceText(o.presence.value) + NotEqual + NoneText, TypePresenceMismatch)
    ensures o.presence.None? && n.presence == Some(Optional) ==>
      Diff("Presence does not match: None != optional", TypePresenceMismatch) in TypeTypeDiffs(o, n, nv)
    ensures o.presence.None? && n.presence.None? ==> AttributeDiffs(o, n, nv, PresenceAttr) == []
  {
    assert TypeAttributes[6] == PresenceAttr;
    var d := TypeTypeDiffs(o, n, nv);
    assert d == AttributesDiffs(o, n, nv, 6) + AttributeDiffs(o, n, nv, PresenceAttr);
    if o.presence.None? && n.presence == Some(Optional) {
      assert PresenceDiffers + NoneText + NotEqual + PresenceText(Optional) == "Presence does not match: None != optional";
      assert d[|d| - 1] in d;
    }
  }

  /**
   * Between two Types, each attribute's kind is reported exactly when that
   * attribute differs (the deprecated version under the deprecation rule);
   * no kind is reported twice, every kind is type-level, and neither a
   * conversion, a constant value nor a removal is ever reported.
   */
  lemma TypeTypeMeaning(o: Element, n: Element, nv: Option<int>)
    requires o.TypeElem? && n.TypeElem?
    ensures var es := ErrorsOf(TypeTypeDiffs(o, n, nv));
      && (forall a :: AttributeKind(a) in es <==> Differs(o, n, nv, a))
      && (forall e :: e in es ==> FamilyOf(e) == TypeLevel && e != TypeConverted && e != TypeConstValueMismatch && e != TypeRemoved)
      && Seqs.Distinct(es)
  {
    AttributesErrorsOf(o, n, nv, |TypeAttributes|);
    AttributesErrorsMeaning(o, n, nv, |TypeAttributes|);
  }

  /** When no attribute differs, the first `k` attributes give no diff. */
  lemma {:induction false} AttributesQuiet(o: Element, n: Element, nv: Option<int>, k: nat)
    requires o.TypeElem? && n.TypeElem? && k <= |TypeAttributes|
    requires forall a :: !Differs(o, n, nv, a)
    ensures AttributesDiffs(o, n, nv, k) == []
  {
    if k > 0 {
      AttributesQuiet(o, n, nv, k - 1);
    }
  }

  // ---------------------------------------------------------------------
  // Dispatch on the old type's kind
  // ---------------------------------------------------------------------

  /** A comparison of two elements of one kind, given the new version. */
  type KindComparator = (Element, Element, Option<int>) -> seq<Diff>

  /** The Set, Enum and Composite comparisons, which this model takes as given. */
  datatype Comparators = Comparators(setCmp: KindComparator, enumCmp: KindComparator, compositeCmp: KindComparator)

  /** `compare_type`: dispatch on the old type's kind; a Ref is not compared. */
  function TypeDiffs(o: Element, n: Element, nv: Option<int>, cmps: Comparators): seq<Diff>
  {
    match o
    case TypeElem(_, _, _, _, _, _, _, _, _, _, _, _) => TypeTypeDiffs(o, n, nv)
    case SetElem(_, _, _, _, _, _, _, _) => cmps.setCmp(o, n, nv)
    case EnumElem(_, _, _, _, _, _, _, _) => cmps.enumCmp(o, n, nv)
    case CompositeElem(_, _, _, _, _, _) => cmps.compositeCmp(o, n, nv)
    case RefElem(_, _, _, _, _) => []
  }

  /** The given comparisons report nothing for an element compared with itself. */
  ghost predicate QuietOnIdentical(cmps: Comparators)
  {
    forall e: Element, nv: Option<int> ::
      cmps.setCmp(e, e, nv) == [] && cmps.enumCmp(e, e, nv) == [] && cmps.compositeCmp(e, e, nv) == []
  }

  /** A type compared with itself gives no diff. */
  lemma TypeDiffsSelf(e: Element, nv: Option<int>, cmps: Comparators)
    requires e.TypeElem? || e.RefElem? || QuietOnIdentical(cmps)
    ensures TypeDiffs(e, e, nv, cmps) == []
  {
    if e.TypeElem? {
      AttributesQuiet(e, e, nv, |TypeAttributes|);
    }
  }

  // ---------------------------------------------------------------------
  // Types the new schema adds
  // ---------------------------------------------------------------------

  /**
   * `check_new_type` on a type's name and since version: an addition needs a
   * version change, a since version, and that since version must be the new
   * schema version.
   */
  function NewTypeDiffs(name: string, since: Option<int>, nv: Option<int>): seq<Diff>
  {
    if nv.None? then
      [Diff(TypeWord + name + AddedWithoutVersionChange, TypeAdded)]
    else if since.None? then
      [Diff(TypeWord + name + NoSinceVersionButAdded + ShowInt(nv.value), TypeNoSinceVersion)]
    else if since.value != nv.value then
      [Diff(TypeWord + name + HasSinceVersion + ShowInt(since.value)
        + NotTheNewVersion + ShowInt(nv.value), TypeWrongSinceVersion)]
    else []
  }

  /**
   * An added type passes exactly when the version changed and the type is
   * stamped with the new version; otherwise exactly one diff names what is
   * wrong.
   */
  lemma NewTypeRule(name: string, since: Option<int>, nv: Option<int>)
    ensures var ds := NewTypeDiffs(name, since, nv);
      && (ds == [] <==> nv.Some? && since == nv)
      && |ds| <= 1
      && (ErrorsOf(ds) == [TypeAdded] <==> nv.None?)
      && (ErrorsOf(ds) == [TypeNoSinceVersion] <==> nv.Some? && since.None?)
      && (ErrorsOf(ds) == [TypeWrongSinceVersion] <==> nv.Some? && since.Some? && since != nv)
  {
    var ds := NewTypeDiffs(name, since, nv);
    if ds != [] {
      assert ErrorsOf(ds) == [ds[0].error];
    }
  }

  /**
   * The since version Python reads off a registered element. Every element
   * kind but Ref carries one (0 when the document gives none); reading it
   * off a Ref raises AttributeError, which callers rule out.
   */
  function SinceVersionAttr(e: Element): Option<int>
    requires !e.RefElem?
  {
    Some(e.sinceVersion)
  }

  /** What `check_new_type` reads as the since version: nothing until the version changed. */
  function SinceAsRead(e: Element, nv: Option<int>): Option<int>
    requires nv.Some? ==> !e.RefElem?
  {
    if nv.None? then None else SinceVersionAttr(e)
  }

  /**
   * Because every element carries a since version, an added element is
   * never reported for lacking one: with a version change it either passes
   * or gets a wrong-since-version diff.
   */
  lemma AddedElementSinceVersion(e: Element, nv: Option<int>)
    requires !e.RefElem? && nv.Some?
    ensures var es := ErrorsOf(NewTypeDiffs(e.name, SinceVersionAttr(e), nv));
      && TypeNoSinceVersion !in es
      && (es == [] <==> e.sinceVersion == nv.value)
  {
    NewTypeRule(e.name, SinceVersionAttr(e), nv);
  }

  // ---------------------------------------------------------------------
  // All types
  // ---------------------------------------------------------------------

  function RemovedDiff(name: string): Diff
  {
    Diff(TypeWord + name + NotFoundInNew, TypeRemoved)
  }

  /** The diffs for one old type: removed when the new registry lacks its name, compared otherwise. */
  function MatchOne(o: Element, news: map<string, Element>, nv: Option<int>, cmps: Comparators): seq<Diff>
  {
    if o.name in news then TypeDiffs(o, news[o.name], nv, cmps) else [RemovedDiff(o.name)]
  }

  /** The diffs for the first `i` old types, in their iteration order. */
  function MatchDiffs(olds: seq<Element>, news: map<string, Element>, nv: Option<int>, cmps: Comparators, i: nat): seq<Diff>
    requires i <= |olds|
  {
    if i == 0 then []
    else MatchDiffs(olds, news, nv, cmps, i - 1) + MatchOne(olds[i - 1], news, nv, cmps)
  }

  /**
   * Every name of the new order is registered, and reading the since
   * version of every added type is possible: none is a Ref once the version
   * changed.
   */
  predicate AddedReadable(newOrder: seq<string>, news: map<string, Element>, oldNames: set<string>, nv: Option<int>)
  {
    forall j :: 0 <= j < |newOrder| ==>
      newOrder[j] in news && (nv.Some? && newOrder[j] !in oldNames ==> !news[newOrder[j]].RefElem?)
  }

  /** The diffs for one new type: checked as an addition when no old type has its name. */
  function AddedOne(k: string, news: map<string, Element>, oldNames: set<string>, nv: Option<int>): seq<Diff>
    requires k in news && (nv.Some? && k !in oldNames ==> !news[k].RefElem?)
  {
    if k in oldNames then [] else NewTypeDiffs(news[k].name, SinceAsRead(news[k], nv), nv)
  }

  /** The diffs for the first `j` new types that no old type names, in insertion order. */
  function AddedDiffs(newOrder: seq<string>, news: map<string, Element>, oldNames: set<string>, nv: Option<int>, j: nat): seq<Diff>
    requires AddedReadable(newOrder, news, oldNames, nv) && j <= |newOrder|
  {
    if j == 0 then []
    else AddedDiffs(newOrder, news, oldNames, nv, j - 1) + AddedOne(newOrder[j - 1], news, oldNames, nv)
  }

  /** `compare_types`: the old types matched by name, then the types only the new schema has. */
  function TypesDiffs(oldOrder: seq<string>, olds: map<string, Element>, newOrder: seq<string>, news: map<string, Element>,
                      nv: Option<int>, cmps: Comparators): seq<Diff>
    requires forall k :: k in oldOrder ==> k in olds
    requires AddedReadable(newOrder, news, olds.Keys, nv)
  {
    MatchDiffs(Lookup(oldOrder, olds), news, nv, cmps, |oldOrder|) + AddedDiffs(newOrder, news, olds.Keys, nv, |newOrder|)
  }

  /** `compare`: the schema-level diffs, then the type diffs; messages add none. */
  function Report(o: Stamp, oldOrder: seq<string>, olds: map<string, Element>,
                  n: Stamp, newOrder: seq<string>, news: map<string, Element>, cmps: Comparators): seq<Diff>
    requires forall k :: k in oldOrder ==> k in olds
    requires AddedReadable(newOrder, news, olds.Keys, NewVersion(o, n))
  {
    SchemaDiffs(o, n) + TypesDiffs(oldOrder, olds, newOrder, news, NewVersion(o, n), cmps)
  }

  // ---------------------------------------------------------------------
  // The checkers, appending to the shared result list
  // ---------------------------------------------------------------------

  /** One check of `compare_type_type`: appends the attribute's diff when it differs. */
  method CheckAttribute(o: Element, n: Element, nv: Option<int>, a: TypeAttribute, result: seq<Diff>) returns (out: seq<Diff>)
    requires o.TypeElem? && n.TypeElem?
    ensures out == result + AttributeDiffs(o, n, nv, a)
    ensures |out| <= |result| + 1
  {
    if Differs(o, n, nv, a) {
      out := result + [Diff(AttributeMessage(o, n, a), AttributeKind(a))];
    } else {
      out := result;
    }
  }

  /**
   * `compare_type_type`: appends one conversion diff for a counterpart of
   * another kind, otherwise checks the attributes one after the other.
   */
  method CompareTypeType(o: Element, n: Element, result: seq<Diff>, nv: Option<int>) returns (out: seq<Diff>)
    requires o.TypeElem?
    ensures out == result + TypeTypeDiffs(o, n, nv)
  {
    if !n.TypeElem? {
      return result + [Diff(ExpectedType + ClassName(n), TypeConverted)];
    }
    out := result;
    AttributesStep(o, n, nv, 0, result, out);
    out := CheckAttribute(o, n, nv, NameAttr, out);
    AttributesStep(o, n, nv, 1, result, out);
    out := CheckAttribute(o, n, nv, LengthAttr, out);
    AttributesStep(o, n, nv, 2, result, out);
    out := CheckAttribute(o, n, nv, EncodingAttr, out);
    AttributesStep(o, n, nv, 3, result, out);
    out := CheckAttribute(o, n, nv, PrimitiveAttr, out);
    AttributesStep(o, n, nv, 4, result, out);
    out := CheckAttribute(o, n, nv, SinceAttr, out);
    AttributesStep(o, n, nv, 5, result, out);
    out := CheckAttribute(o, n, nv, DeprecatedAttr, out);
    AttributesStep(o, n, nv, 6, result, out);
    out := CheckAttribute(o, n, nv, PresenceAttr, out);
  }

  /** Checking the next attribute extends the diffs of the attributes before it. */
  lemma AttributesStep(o: Element, n: Element, nv: Option<int>, k: nat, result: seq<Diff>, out: seq<Diff>)
    requires o.TypeElem? && n.TypeElem? && k < |TypeAttributes|
    requires out == result + AttributesDiffs(o, n, nv, k)
    ensures out + AttributeDiffs(o, n, nv, TypeAttributes[k]) == result + AttributesDiffs(o, n, nv, k + 1)
  {
    Seqs.AppendAssoc(result, AttributesDiffs(o, n, nv, k), AttributeDiffs(o, n, nv, TypeAttributes[k]));
  }

  /** `compare_type`: appends the diffs of the comparison the old type's kind selects. */
  method CompareType(o: Element, n: Element, result: seq<Diff>, nv: Option<int>, cmps: Comparators) returns (out: seq<Diff>)
    ensures out == result + TypeDiffs(o, n, nv, cmps)
  {
    if o.TypeElem? {
      out := CompareTypeType(o, n, result, nv);
    } else if o.SetElem? {
      out := result + cmps.setCmp(o, n, nv);
    } else if o.EnumElem? {
      out := result + cmps.enumCmp(o, n, nv);
    } else if o.CompositeElem? {
      out := result + cmps.compositeCmp(o, n, nv);
    } else {
      out := result;
    }
  }

  /**
   * `check_new_type` on the name and the since version it reads off the
   * type: appends the diff, if any, for a type only the new schema has.
   */
  method CheckNewType(name: string, since: Option<int>, result: seq<Diff>, nv: Option<int>) returns (out: seq<Diff>)
    ensures out == result + NewTypeDiffs(name, since, nv)
  {
    if nv.None? {
      out := result + [Diff(TypeWord + name + AddedWithoutVersionChange, TypeAdded)];
    } else if since.None? {
      out := result + [Diff(TypeWord + name + NoSinceVersionButAdded + ShowInt(nv.value),
        TypeNoSinceVersion)];
    } else if since.value != nv.value {
      out := result + [Diff(TypeWord + name + HasSinceVersion + ShowInt(since.value)
        + NotTheNewVersion + ShowInt(nv.value), TypeWrongSinceVersion)];
    } else {
      out := result;
    }
  }

  /** The names of the first `i` elements, as a set. */
  function NameSet(es: seq<Element>, i: nat): set<string>
    requires i <= |es|
  {
    if i == 0 then {} else NameSet(es, i - 1) + {es[i - 1].name}
  }

  lemma {:induction false} NameSetMembers(es: seq<Element>, i: nat)
    requires i <= |es|
    ensures forall k :: k in NameSet(es, i) <==> exists j :: 0 <= j < i && es[j].name == k
  {
    if i > 0 {
      NameSetMembers(es, i - 1);
    }
  }

  /** The registered elements, in insertion order, carry exactly the registered names. */
  lemma ValuesNameSet(order: seq<string>, m: map<string, Element>)
    requires Consistent(m, order)
    ensures NameSet(Lookup(order, m), |order|) == m.Keys
  {
    var vs := Lookup(order, m);
    NameSetMembers(vs, |order|);
    forall k
      ensures k in NameSet(vs, |order|) <==> k in m
    {
      if k in m {
        var j :| 0 <= j < |order| && order[j] == k;
        assert vs[j].name == k;
      }
      if k in NameSet(vs, |order|) {
        var j :| 0 <= j < |order| && vs[j].name == k;
        assert order[j] in m;
      }
    }
  }

  /** Discarding one more name: a name the keys lack changes nothing. */
  lemma DiscardStep(keys: set<string>, gone: set<string>, x: string)
    ensures keys - (gone + {x}) == (keys - gone) - {x}
    ensures x !in keys ==> keys - (gone + {x}) == keys - gone
  {
  }

  /**
   * `compare_types`: every old type, in iteration order, is looked up by
   * name in the new registry and reported removed or compared; the new
   * types left over are then checked as additions, in insertion order.
   */
  method CompareTypes(before: Types, after: Types, result: seq<Diff>, nv: Option<int>, cmps: Comparators)
    returns (out: seq<Diff>)
    requires before.Valid() && after.Valid()
    requires AddedReadable(after.order, after.entries, before.entries.Keys, nv)
    ensures out == result + TypesDiffs(before.order, before.entries, after.order, after.entries, nv, cmps)
  {
    var olds := before.Values();
    var matched, remaining := MatchTypes(olds, after, result, nv, cmps);
    ValuesNameSet(before.order, before.entries);
    out := CheckRemaining(after, remaining, before.entries.Keys, matched, nv);
    Seqs.AppendAssoc(result, MatchDiffs(olds, after.entries, nv, cmps, |olds|),
                     AddedDiffs(after.order, after.entries, before.entries.Keys, nv, |after.order|));
  }

  /**
   * The first loop of `compare_types`: each old type is reported removed
   * or compared with its namesake; the new names not yet matched remain.
   */
  method MatchTypes(olds: seq<Element>, after: Types, result: seq<Diff>, nv: Option<int>, cmps: Comparators)
    returns (out: seq<Diff>, remaining: set<string>)
    requires after.Valid()
    ensures out == result + MatchDiffs(olds, after.entries, nv, cmps, |olds|)
    ensures remaining == after.entries.Keys - NameSet(olds, |olds|)
  {
    var entries := after.entries;
    remaining := entries.Keys;
    out := result;
    var i := 0;
    while i < |olds|
      invariant 0 <= i <= |olds|
      invariant out == result + MatchDiffs(olds, entries, nv, cmps, i)
      invariant remaining == entries.Keys - NameSet(olds, i)
    {
      out, remaining := MatchAt(olds, i, after, result, out, remaining, nv, cmps);
      i := i + 1;
    }
  }

  /** The `i`-th old type matched: the diffs and the names left over grow from the first `i` to the first `i + 1`. */
  method MatchAt(olds: seq<Element>, i: nat, after: Types, result: seq<Diff>, acc: seq<Diff>, remaining: set<string>,
                 nv: Option<int>, cmps: Comparators)
    returns (out: seq<Diff>, left: set<string>)
    requires after.Valid() && i < |olds|
    requires acc == result + MatchDiffs(olds, after.entries, nv, cmps, i)
    requires remaining == after.entries.Keys - NameSet(olds, i)
    ensures out == result + MatchDiffs(olds, after.entries, nv, cmps, i + 1)
    ensures left == after.entries.Keys - NameSet(olds, i + 1)
  {
    var found;
    Seqs.AppendAssoc(result, MatchDiffs(olds, after.entries, nv, cmps, i), MatchOne(olds[i], after.entries, nv, cmps));
    out, found := MatchStep(olds[i], after, acc, nv, cmps);
    left := DiscardMatched(after.entries.Keys, olds, i, remaining, found);
  }

  /** The new names left over once the `i`-th old type is matched: its name goes when it was found. */
  method DiscardMatched(keys: set<string>, olds: seq<Element>, i: nat, remaining: set<string>, found: bool)
    returns (left: set<string>)
    requires i < |olds| && remaining == keys - NameSet(olds, i)
    requires found <==> olds[i].name in keys
    ensures left == keys - NameSet(olds, i + 1)
  {
    DiscardStep(keys, NameSet(olds, i), olds[i].name);
    left := remaining;
    if found {
      left := left - {olds[i].name};
    }
  }

  /** One old type: reported removed when the new registry lacks its name, compared otherwise. */
  method MatchStep(o: Element, after: Types, result: seq<Diff>, nv: Option<int>, cmps: Comparators)
    returns (out: seq<Diff>, found: bool)
    requires after.Valid()
    ensures found <==> o.name in after.entries
    ensures out == result + MatchOne(o, after.entries, nv, cmps)
  {
    var entry := after.Get(o.name);
    if entry.None? {
      out := result + [Diff(TypeWord + o.name + NotFoundInNew, TypeRemoved)];
      found := false;
    } else {
      assert entry.value == after.entries[o.name];
      out := CompareType(o, entry.value, result, nv, cmps);
      found := true;
    }
  }

  /**
   * The second loop of `compare_types`: each new type left over is checked
   * as an addition, in the new registry's insertion order.
   */
  method CheckRemaining(after: Types, remaining: set<string>, oldNames: set<string>, result: seq<Diff>, nv: Option<int>)
    returns (out: seq<Diff>)
    requires after.Valid() && remaining == after.entries.Keys - oldNames
    requires AddedReadable(after.order, after.entries, oldNames, nv)
    ensures out == result + AddedDiffs(after.order, after.entries, oldNames, nv, |after.order|)
  {
    var order, entries := after.order, after.entries;
    out := result;
    var j := 0;
    while j < |order|
      invariant 0 <= j <= |order|
      invariant out == result + AddedDiffs(order, entries, oldNames, nv, j)
    {
      var k := order[j];
      Seqs.AppendAssoc(result, AddedDiffs(order, entries, oldNames, nv, j), AddedOne(k, entries, oldNames, nv));
      out := CheckLeftOver(k, after, remaining, oldNames, out, nv);
      j := j + 1;
    }
  }

  /** One new type: checked as an addition when it is among those left over. */
  method CheckLeftOver(k: string, after: Types, remaining: set<string>, oldNames: set<string>, result: seq<Diff>, nv: Option<int>)
    returns (out: seq<Diff>)
    requires after.Valid() && remaining == after.entries.Keys - oldNames
    requires k in after.entries && (nv.Some? && k !in oldNames ==> !after.entries[k].RefElem?)
    ensures out == result + AddedOne(k, after.entries, oldNames, nv)
  {
    var t := after.entries[k];
    if k in remaining {
      out := CheckNewType(t.name, if nv.None? then None else SinceVersionAttr(t), result, nv);
    } else {
      out := result;
    }
  }

  /** `compare_messages`: a placeholder that reports nothing. */
  method CompareMessages(before: Messages, after: Messages, result: seq<Diff>, nv: Option<int>) returns (out: seq<Diff>)
    ensures out == result
  {
    out := result;
  }

  /** The id, version, package and byte-order checks of `compare`, each appending its diff when it fails. */
  method CheckSchemaHeader(before: MessageSchema, after: MessageSchema, result: seq<Diff>) returns (out: seq<Diff>)
    ensures out == result + IdDiffs(StampOf(before), StampOf(after)) + VersionDiffs(StampOf(before), StampOf(after))
                   + PackageDiffs(StampOf(before), StampOf(after)) + ByteOrderDiffs(StampOf(before), StampOf(after))
  {
    ghost var o, n := StampOf(before), StampOf(after);
    out := result;
    if before.id != after.id {
      out := out + [Diff(SchemaIdsDiffer + ShowInt(before.id) + NotEqual + ShowInt(after.id), SchemaIdMismatch)];
    }
    assert out == result + IdDiffs(o, n);
    if before.version != after.version && before.version + 1 != after.version {
      out := out + [Diff(SchemaVersionsDiffer + ShowInt(before.version)
        + NewPart + ShowInt(after.version), SchemaVersionMismatch)];
    }
    assert out == result + IdDiffs(o, n) + VersionDiffs(o, n);
    if before.package != after.package {
      out := out + [Diff(SchemaPackagesDiffer + before.package + NotEqual + after.package, SchemaPackageMismatch)];
    }
    assert out == result + IdDiffs(o, n) + VersionDiffs(o, n) + PackageDiffs(o, n);
    if before.byteOrder != after.byteOrder {
      out := out + [Diff(ByteOrdersDiffer + ByteOrderName(before.byteOrder)
        + NotEqual + ByteOrderName(after.byteOrder), SchemaByteOrderMismatch)];
    }
  }

  /** The semantic-version check of `compare`: it must change exactly when the version does. */
  method CheckSemanticVersion(before: MessageSchema, after: MessageSchema, result: seq<Diff>) returns (out: seq<Diff>)
    ensures out == result + SemanticVersionDiffs(StampOf(before), StampOf(after))
  {
    out := result;
    if before.version == after.version {
      if before.semanticVersion != after.semanticVersion {
        out := out + [Diff(SemanticVersionsDiffer + before.semanticVersion
          + NotEqual + after.semanticVersion, SchemaSemanticVersionMismatch)];
      }
    } else {
      if before.semanticVersion == after.semanticVersion {
        out := out + [Diff(SemanticVersionKept + before.semanticVersion,
          SchemaSemanticVersionNotUpdated)];
      }
    }
  }

  /**
   * `compare`: the schema-level checks, each independent of the others and
   * none stopping the rest, then the type comparison under the new version.
   */
  method Compare(before: MessageSchema, after: MessageSchema, cmps: Comparators) returns (result: seq<Diff>)
    requires before.types.Valid() && after.types.Valid()
    requires AddedReadable(after.types.order, after.types.entries, before.types.entries.Keys,
                           NewVersion(StampOf(before), StampOf(after)))
    ensures result == Report(StampOf(before), before.types.order, before.types.entries,
                             StampOf(after), after.types.order, after.types.entries, cmps)
  {
    ghost var o, n := StampOf(before), StampOf(after);
    result := CheckSchemaHeader(before, after, []);
    result := CheckSemanticVersion(before, after, result);
    assert result == SchemaDiffs(o, n);
    var newVersion := if after.version != before.version then Some(after.version) else None;
    assert newVersion == NewVersion(o, n);
    result := CompareTypes(before.types, after.types, result, newVersion, cmps);
    result := CompareMessages(before.messages, after.messages, result, newVersion);
  }
}
