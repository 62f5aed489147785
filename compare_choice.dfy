/**
 * `compare_choice`: an old and a new choice of a set, compared field by
 * field — name, since version, then deprecated version under the same
 * deprecation rule as types — each difference giving one diff.
 */
module BackcheckChoice {
  import opened Wrappers
  import opened Strings
  import opened Elements
  import opened BackcheckErrors
  import opened BackcheckCompare
  import Seqs

  const ChoiceNamesDiffer := "Choice names do not match: "
  const ChoiceSinceVersionsDiffer := "Choice since versions do not match: "
  const ChoiceDeprecatedVersionsDiffer := "Choice deprecated versions do not match: "

  function NameDiffs(o: Choice, n: Choice): seq<Diff>
  {
    When(o.name != n.name, Diff(ChoiceNamesDiffer + o.name + NotEqual + n.name, ChoiceNameMismatch))
  }

  function SinceDiffs(o: Choice, n: Choice): seq<Diff>
  {
    When(o.sinceVersion != n.sinceVersion,
         Diff(ChoiceSinceVersionsDiffer + ShowInt(o.sinceVersion) + NotEqual + ShowInt(n.sinceVersion),
              ChoiceSinceVersionMismatch))
  }

  function DeprecatedDiffs(o: Choice, n: Choice, nv: Option<int>): seq<Diff>
  {
    When(DeprecationReported(o.deprecated, n.deprecated, nv),
         Diff(ChoiceDeprecatedVersionsDiffer + ShowOptInt(o.deprecated) + NotEqual + ShowOptInt(n.deprecated),
              ChoiceDeprecatedMismatch))
  }

  /** `compare_choice(old, new, new_version)`: the diffs, in the order the fields are compared. */
  function ChoiceDiffs(o: Choice, n: Choice, nv: Option<int>): seq<Diff>
  {
    NameDiffs(o, n) + SinceDiffs(o, n) + DeprecatedDiffs(o, n, nv)
  }

  /** The kinds reported: one flag per field, in the order the fields are compared. */
  function ChoiceErrors(o: Choice, n: Choice, nv: Option<int>): seq<Error>
  {
    Flag(o.name != n.name, ChoiceNameMismatch)
    + Flag(o.sinceVersion != n.sinceVersion, ChoiceSinceVersionMismatch)
    + Flag(DeprecationReported(o.deprecated, n.deprecated, nv), ChoiceDeprecatedMismatch)
  }

  lemma ChoiceErrorsOf(o: Choice, n: Choice, nv: Option<int>)
    ensures ErrorsOf(ChoiceDiffs(o, n, nv)) == ChoiceErrors(o, n, nv)
  {
    ErrorsOfConcat(NameDiffs(o, n), SinceDiffs(o, n));
    ErrorsOfConcat(NameDiffs(o, n) + SinceDiffs(o, n), DeprecatedDiffs(o, n, nv));
    ErrorsOfWhen(o.name != n.name, Diff(ChoiceNamesDiffer + o.name + NotEqual + n.name, ChoiceNameMismatch));
    ErrorsOfWhen(o.sinceVersion != n.sinceVersion,
                 Diff(ChoiceSinceVersionsDiffer + ShowInt(o.sinceVersion) + NotEqual + ShowInt(n.sinceVersion),
                      ChoiceSinceVersionMismatch));
    ErrorsOfWhen(DeprecationReported(o.deprecated, n.deprecated, nv),
                 Diff(ChoiceDeprecatedVersionsDiffer + ShowOptInt(o.deprecated) + NotEqual + ShowOptInt(n.deprecated),
                      ChoiceDeprecatedMismatch));
  }

  /** Membership and repeats in the three flags. */
  lemma ChoiceErrorsMeaning(o: Choice, n: Choice, nv: Option<int>)
    ensures var es := ChoiceErrors(o, n, nv);
      && (ChoiceNameMismatch in es <==> o.name != n.name)
      && (ChoiceSinceVersionMismatch in es <==> o.sinceVersion != n.sinceVersion)
      && (ChoiceDeprecatedMismatch in es <==> DeprecationReported(o.deprecated, n.deprecated, nv))
      && (forall e :: e in es ==> FamilyOf(e) == ChoiceLevel)
      && Seqs.Distinct(es)
  {
    var f1 := Flag(o.name != n.name, ChoiceNameMismatch);
    var f2 := Flag(o.sinceVersion != n.sinceVersion, ChoiceSinceVersionMismatch);
    var f3 := Flag(DeprecationReported(o.deprecated, n.deprecated, nv), ChoiceDeprecatedMismatch);
    DistinctConcat(f1, f2);
    DistinctConcat(f1 + f2, f3);
  }

  /**
   * Each field's kind is reported exactly when that field differs (the
   * deprecated version under the deprecation rule); no kind is reported
   * twice and every kind is a choice kind.
   */
  lemma ChoiceDiffsMeaning(o: Choice, n: Choice, nv: Option<int>)
    ensures var es := ErrorsOf(ChoiceDiffs(o, n, nv));
      && (ChoiceNameMismatch in es <==> o.name != n.name)
      && (ChoiceSinceVersionMismatch in es <==> o.sinceVersion != n.sinceVersion)
      && (ChoiceDeprecatedMismatch in es <==> DeprecationReported(o.deprecated, n.deprecated, nv))
      && (forall e :: e in es ==> FamilyOf(e) == ChoiceLevel)
      && Seqs.Distinct(es)
  {
    ChoiceErrorsOf(o, n, nv);
    ChoiceErrorsMeaning(o, n, nv);
  }

  /** A choice compared with itself gives no diff, whatever the new version. */
  lemma ChoiceDiffsSelf(c: Choice, nv: Option<int>)
    ensures ChoiceDiffs(c, c, nv) == []
  {
  }

  /** The test suite's base choice. */
  function PinnedChoice(): Choice
  {
    NewChoice("TestChoice", "description", 6)
  }

  /** Pinned by the tests: a choice against its copy gives nothing, with or without a version change. */
  lemma ChoiceCopyPinned(nv: Option<int>)
    ensures ChoiceDiffs(PinnedChoice(), PinnedChoice(), nv) == []
  {
  }

  /** Pinned by the tests: a renamed choice gives one name diff. */
  lemma ChoiceRenamePinned()
    ensures ChoiceDiffs(PinnedChoice(), PinnedChoice().(name := "NewName"), None)
         == [Diff("Choice names do not match: TestChoice != NewName", ChoiceNameMismatch)]
  {
    assert ChoiceNamesDiffer + "TestChoice" + NotEqual + "NewName" == "Choice names do not match: TestChoice != NewName";
  }

  /** Pinned by the tests: a since version moved from 0 to 5 gives one since-version diff. */
  lemma ChoiceSincePinned()
    ensures ChoiceDiffs(PinnedChoice(), PinnedChoice().(sinceVersion := 5), None)
         == [Diff("Choice since versions do not match: 0 != 5", ChoiceSinceVersionMismatch)]
  {
    assert ShowInt(0) == "0" && ShowInt(5) == "5";
    assert ChoiceSinceVersionsDiffer + "0" + NotEqual + "5" == "Choice since versions do not match: 0 != 5";
  }

  /**
   * Pinned by the tests: deprecating as of version 5 is reported when the
   * version did not change and excused when the new version is 5.
   */
  lemma ChoiceDeprecationPinned()
    ensures ChoiceDiffs(PinnedChoice(), PinnedChoice().(deprecated := Some(5)), None)
         == [Diff("Choice deprecated versions do not match: None != 5", ChoiceDeprecatedMismatch)]
    ensures ChoiceDiffs(PinnedChoice(), PinnedChoice().(deprecated := Some(5)), Some(5)) == []
  {
    assert ShowOptInt(None) == "None" && ShowOptInt(Some(5)) == "5";
    assert ChoiceDeprecatedVersionsDiffer + "None" + NotEqual + "5" == "Choice deprecated versions do not match: None != 5";
  }
}
