/**
 * Whole-schema properties of the backward-compatibility checker: a schema
 * compared with itself is clean, every removed type is reported exactly
 * once, and every added type is checked exactly once.
 */
module BackcheckProperties {
  import opened Wrappers
  import opened Elements
  import opened BackcheckErrors
  import opened TypesRegistry
  import opened BackcheckCompare
  import Seqs

  /** How many diffs of the list carry the given kind. */
  function CountOf(ds: seq<Diff>, e: Error): nat
  {
    multiset(ErrorsOf(ds))[e]
  }

  lemma CountOfConcat(a: seq<Diff>, b: seq<Diff>, e: Error)
    ensures CountOf(a + b, e) == CountOf(a, e) + CountOf(b, e)
  {
    ErrorsOfConcat(a, b);
  }

  /** The names among the first `j` entries of an insertion order. */
  function OrderSet(order: seq<string>, j: nat): set<string>
    requires j <= |order|
  {
    if j == 0 then {} else OrderSet(order, j - 1) + {order[j - 1]}
  }

  lemma {:induction false} OrderSetMembers(order: seq<string>, j: nat)
    requires j <= |order|
    ensures forall k :: k in OrderSet(order, j) <==> exists i :: 0 <= i < j && order[i] == k
  {
    if j > 0 {
      OrderSetMembers(order, j - 1);
    }
  }

  lemma OrderSetKeys(order: seq<string>, m: map<string, Element>)
    requires Consistent(m, order)
    ensures OrderSet(order, |order|) == m.Keys
  {
    OrderSetMembers(order, |order|);
    forall k
      ensures k in OrderSet(order, |order|) <==> k in m
    {
      if k in m {
        var i :| 0 <= i < |order| && order[i] == k;
      }
    }
  }

  /** A name not yet among the first `j` of a repeat-free order. */
  lemma OrderSetFresh(order: seq<string>, j: nat)
    requires j < |order| && Seqs.Distinct(order)
    ensures order[j] !in OrderSet(order, j)
  {
    OrderSetMembers(order, j);
  }

  // ---------------------------------------------------------------------
  // A schema compared with itself
  // ---------------------------------------------------------------------

  /** Every registered element compares quietly with itself under the given comparisons. */
  ghost predicate SelfComparable(m: map<string, Element>, cmps: Comparators)
  {
    QuietOnIdentical(cmps) || forall k :: k in m ==> m[k].TypeElem? || m[k].RefElem?
  }

  /** An old type that is its own namesake in the new registry gives no diff. */
  lemma MatchOneSelf(o: Element, m: map<string, Element>, nv: Option<int>, cmps: Comparators)
    requires o.name in m && m[o.name] == o
    requires SelfComparable(m, cmps)
    ensures MatchOne(o, m, nv, cmps) == []
  {
    TypeDiffsSelf(o, nv, cmps);
  }

  /** Old types that each give no diff give no diff together. */
  lemma {:induction false} MatchDiffsQuiet(olds: seq<Element>, m: map<string, Element>, nv: Option<int>,
                                           cmps: Comparators, i: nat)
    requires i <= |olds|
    requires forall j {:trigger MatchOne(olds[j], m, nv, cmps)} :: 0 <= j < |olds| ==> |MatchOne(olds[j], m, nv, cmps)| == 0
    ensures |MatchDiffs(olds, m, nv, cmps, i)| == 0
  {
    if i > 0 {
      MatchDiffsQuiet(olds, m, nv, cmps, i - 1);
      MatchDiffsLength(olds, m, nv, cmps, i);
    }
  }

  lemma MatchDiffsLength(olds: seq<Element>, m: map<string, Element>, nv: Option<int>, cmps: Comparators, i: nat)
    requires 0 < i <= |olds|
    ensures |MatchDiffs(olds, m, nv, cmps, i)| == |MatchDiffs(olds, m, nv, cmps, i - 1)| + |MatchOne(olds[i - 1], m, nv, cmps)|
  {
  }

  /** When every new name is an old name, nothing is checked as an addition. */
  lemma {:induction false} AddedDiffsNone(newOrder: seq<string>, news: map<string, Element>, oldNames: set<string>,
                                          nv: Option<int>, j: nat)
    requires AddedReadable(newOrder, news, oldNames, nv) && j <= |newOrder|
    requires forall i :: 0 <= i < |newOrder| ==> newOrder[i] in oldNames
    ensures AddedDiffs(newOrder, news, oldNames, nv, j) == []
  {
    if j > 0 {
      AddedDiffsNone(newOrder, news, oldNames, nv, j - 1);
    }
  }

  /**
   * A schema compared with itself gives no diff at all, provided the kinds
   * the model takes as given also stay quiet on identical elements; messages
   * never add any.
   */
  lemma SelfCompare(st: Stamp, order: seq<string>, m: map<string, Element>, cmps: Comparators)
    requires Consistent(m, order)
    requires SelfComparable(m, cmps)
    ensures AddedReadable(order, m, m.Keys, NewVersion(st, st))
    ensures Report(st, order, m, st, order, m, cmps) == []
  {
    var nv := NewVersion(st, st);
    var vs := Lookup(order, m);
    forall j | 0 <= j < |vs|
      ensures |MatchOne(vs[j], m, nv, cmps)| == 0
    {
      assert order[j] in m;
      MatchOneSelf(vs[j], m, nv, cmps);
    }
    MatchDiffsQuiet(vs, m, nv, cmps, |vs|);
    AddedDiffsNone(order, m, m.Keys, nv, |order|);
  }

  // ---------------------------------------------------------------------
  // Removed types
  // ---------------------------------------------------------------------

  /** The given comparisons never report a removed type. */
  ghost predicate NeverRemoves(cmps: Comparators)
  {
    forall o: Element, n: Element, nv: Option<int> ::
      && TypeRemoved !in ErrorsOf(cmps.setCmp(o, n, nv))
      && TypeRemoved !in ErrorsOf(cmps.enumCmp(o, n, nv))
      && TypeRemoved !in ErrorsOf(cmps.compositeCmp(o, n, nv))
  }

  /** Comparing two namesakes never reports a removal. */
  lemma TypeDiffsKeep(o: Element, n: Element, nv: Option<int>, cmps: Comparators)
    requires NeverRemoves(cmps)
    ensures TypeRemoved !in ErrorsOf(TypeDiffs(o, n, nv, cmps))
  {
    if o.TypeElem? {
      if n.TypeElem? {
        TypeTypeMeaning(o, n, nv);
      } else {
        TypeConversionReported(o, n, nv);
      }
    }
  }

  /** One old type gives one removal when the new registry lacks its name, none otherwise. */
  lemma MatchOneRemovals(o: Element, news: map<string, Element>, nv: Option<int>, cmps: Comparators)
    requires NeverRemoves(cmps)
    ensures CountOf(MatchOne(o, news, nv, cmps), TypeRemoved) == if o.name in news then 0 else 1
  {
    if o.name in news {
      TypeDiffsKeep(o, news[o.name], nv, cmps);
    } else {
      assert ErrorsOf([RemovedDiff(o.name)]) == [TypeRemoved];
    }
  }

  /** Adding a fresh name adds one to the names missing from `keys` exactly when `keys` lacks it. */
  lemma MissingStep(names: set<string>, keys: set<string>, x: string)
    requires x !in names
    ensures |(names + {x}) - keys| == |names - keys| + if x in keys then 0 else 1
  {
    if x in keys {
      assert (names + {x}) - keys == names - keys;
    } else {
      assert (names + {x}) - keys == (names - keys) + {x};
    }
  }

  /** With repeat-free names, a later element's name is not among the first `j` names. */
  lemma {:induction false} NameSetExcludes(es: seq<Element>, i: nat, j: nat)
    requires j <= i < |es|
    requires forall a, b :: 0 <= a < b < |es| ==> es[a].name != es[b].name
    ensures es[i].name !in NameSet(es, j)
  {
    if j > 0 {
      NameSetExcludes(es, i, j - 1);
    }
  }

  /** One more old type, with a fresh name, adds its own removals to the count. */
  lemma MatchCountStep(olds: seq<Element>, news: map<string, Element>, nv: Option<int>, cmps: Comparators, i: nat)
    requires 0 < i <= |olds|
    requires CountOf(MatchDiffs(olds, news, nv, cmps, i - 1), TypeRemoved) == |NameSet(olds, i - 1) - news.Keys|
    requires CountOf(MatchOne(olds[i - 1], news, nv, cmps), TypeRemoved) == if olds[i - 1].name in news then 0 else 1
    requires olds[i - 1].name !in NameSet(olds, i - 1)
    ensures CountOf(MatchDiffs(olds, news, nv, cmps, i), TypeRemoved) == |NameSet(olds, i) - news.Keys|
  {
    CountOfConcat(MatchDiffs(olds, news, nv, cmps, i - 1), MatchOne(olds[i - 1], news, nv, cmps), TypeRemoved);
    MissingStep(NameSet(olds, i - 1), news.Keys, olds[i - 1].name);
  }

  /** Among the first `i` old types, one removal is reported per name the new registry lacks. */
  lemma {:induction false} MatchRemovedCount(olds: seq<Element>, news: map<string, Element>, nv: Option<int>,
                                             cmps: Comparators, i: nat)
    requires i <= |olds|
    requires forall a, b :: 0 <= a < b < |olds| ==> olds[a].name != olds[b].name
    requires forall j {:trigger MatchOne(olds[j], news, nv, cmps)} :: 0 <= j < |olds| ==>
      CountOf(MatchOne(olds[j], news, nv, cmps), TypeRemoved) == if olds[j].name in news then 0 else 1
    ensures CountOf(MatchDiffs(olds, news, nv, cmps, i), TypeRemoved) == |NameSet(olds, i) - news.Keys|
  {
    if i > 0 {
      var o := olds[i - 1];
      MatchRemovedCount(olds, news, nv, cmps, i - 1);
      NameSetExcludes(olds, i - 1, i - 1);
      MatchCountStep(olds, news, nv, cmps, i);
    }
  }

  /** The checks of added types only ever report the three addition kinds. */
  lemma {:induction false} AddedDiffsKinds(newOrder: seq<string>, news: map<string, Element>, oldNames: set<string>,
                                           nv: Option<int>, j: nat)
    requires AddedReadable(newOrder, news, oldNames, nv) && j <= |newOrder|
    ensures forall e :: e in ErrorsOf(AddedDiffs(newOrder, news, oldNames, nv, j)) ==>
      e == TypeAdded || e == TypeNoSinceVersion || e == TypeWrongSinceVersion
  {
    if j > 0 {
      var k := newOrder[j - 1];
      AddedDiffsKinds(newOrder, news, oldNames, nv, j - 1);
      ErrorsOfConcat(AddedDiffs(newOrder, news, oldNames, nv, j - 1), AddedOne(k, news, oldNames, nv));
      if k !in oldNames {
        NewTypeRule(news[k].name, SinceAsRead(news[k], nv), nv);
      }
    }
  }

  /** The schema-level checks never report a removed type. */
  lemma SchemaDiffsKeep(o: Stamp, n: Stamp)
    ensures CountOf(SchemaDiffs(o, n), TypeRemoved) == 0
  {
    SchemaDiffsShape(o, n);
    assert TypeRemoved !in ErrorsOf(SchemaDiffs(o, n));
  }

  /** The checks of added types never report a removed type. */
  lemma AddedDiffsKeep(newOrder: seq<string>, news: map<string, Element>, oldNames: set<string>, nv: Option<int>)
    requires AddedReadable(newOrder, news, oldNames, nv)
    ensures CountOf(AddedDiffs(newOrder, news, oldNames, nv, |newOrder|), TypeRemoved) == 0
  {
    AddedDiffsKinds(newOrder, news, oldNames, nv, |newOrder|);
    assert TypeRemoved !in ErrorsOf(AddedDiffs(newOrder, news, oldNames, nv, |newOrder|));
  }

  /** The registered old types, in order: one removal per old name the new registry lacks. */
  lemma OldTypesRemovedCount(oldOrder: seq<string>, olds: map<string, Element>, news: map<string, Element>,
                             nv: Option<int>, cmps: Comparators)
    requires Consistent(olds, oldOrder)
    requires NeverRemoves(cmps)
    ensures CountOf(MatchDiffs(Lookup(oldOrder, olds), news, nv, cmps, |oldOrder|), TypeRemoved) == |olds.Keys - news.Keys|
  {
    var vs := Lookup(oldOrder, olds);
    forall a, b | 0 <= a < b < |vs|
      ensures vs[a].name != vs[b].name
    {
      assert oldOrder[a] in olds && oldOrder[b] in olds;
    }
    forall j | 0 <= j < |vs|
      ensures CountOf(MatchOne(vs[j], news, nv, cmps), TypeRemoved) == if vs[j].name in news then 0 else 1
    {
      MatchOneRemovals(vs[j], news, nv, cmps);
    }
    MatchRemovedCount(vs, news, nv, cmps, |vs|);
    ValuesNameSet(oldOrder, olds);
  }

  /**
   * Every old type whose name the new schema lacks is reported removed
   * exactly once, and nothing else is reported as a removal, provided the
   * kinds the model takes as given never report one.
   */
  lemma RemovedTypesReported(o: Stamp, oldOrder: seq<string>, olds: map<string, Element>,
                             n: Stamp, newOrder: seq<string>, news: map<string, Element>, cmps: Comparators)
    requires Consistent(olds, oldOrder)
    requires AddedReadable(newOrder, news, olds.Keys, NewVersion(o, n))
    requires NeverRemoves(cmps)
    ensures CountOf(Report(o, oldOrder, olds, n, newOrder, news, cmps), TypeRemoved) == |olds.Keys - news.Keys|
  {
    var nv := NewVersion(o, n);
    var matched := MatchDiffs(Lookup(oldOrder, olds), news, nv, cmps, |oldOrder|);
    var added := AddedDiffs(newOrder, news, olds.Keys, nv, |newOrder|);
    OldTypesRemovedCount(oldOrder, olds, news, nv, cmps);
    AddedDiffsKeep(newOrder, news, olds.Keys, nv);
    SchemaDiffsKeep(o, n);
    CountOfConcat(matched, added, TypeRemoved);
    CountOfConcat(SchemaDiffs(o, n), matched + added, TypeRemoved);
  }

  // ---------------------------------------------------------------------
  // Added types
  // ---------------------------------------------------------------------

  /** Without a version change, the first `j` new names give one added diff per name the old schema lacks. */
  lemma {:induction false} UnversionedAdditions(newOrder: seq<string>, news: map<string, Element>,
                                                oldNames: set<string>, j: nat)
    requires AddedReadable(newOrder, news, oldNames, None) && j <= |newOrder|
    requires Seqs.Distinct(newOrder)
    ensures |AddedDiffs(newOrder, news, oldNames, None, j)| == |OrderSet(newOrder, j) - oldNames|
  {
    if j > 0 {
      var k := newOrder[j - 1];
      var prev, one := AddedDiffs(newOrder, news, oldNames, None, j - 1), AddedOne(k, news, oldNames, None);
      assert AddedDiffs(newOrder, news, oldNames, None, j) == prev + one;
      UnversionedAdditions(newOrder, news, oldNames, j - 1);
      UnversionedAddedOne(k, news, oldNames);
      OrderSetStep(newOrder, j - 1, oldNames);
    }
  }

  /** Without a version change, the additions of the first `j` new names report nothing but added types. */
  lemma {:induction false} UnversionedAdditionKinds(newOrder: seq<string>, news: map<string, Element>,
                                                    oldNames: set<string>, j: nat)
    requires AddedReadable(newOrder, news, oldNames, None) && j <= |newOrder|
    ensures forall e :: e in ErrorsOf(AddedDiffs(newOrder, news, oldNames, None, j)) ==> e == TypeAdded
  {
    if j > 0 {
      var k := newOrder[j - 1];
      var prev, one := AddedDiffs(newOrder, news, oldNames, None, j - 1), AddedOne(k, news, oldNames, None);
      assert AddedDiffs(newOrder, news, oldNames, None, j) == prev + one;
      UnversionedAdditionKinds(newOrder, news, oldNames, j - 1);
      ErrorsOfConcat(prev, one);
      UnversionedAddedOne(k, news, oldNames);
    }
  }

  /** Without a version change, one new name gives one added diff exactly when the old schema lacks it. */
  lemma UnversionedAddedOne(k: string, news: map<string, Element>, oldNames: set<string>)
    requires k in news
    ensures |AddedOne(k, news, oldNames, None)| == if k in oldNames then 0 else 1
    ensures forall e :: e in ErrorsOf(AddedOne(k, news, oldNames, None)) ==> e == TypeAdded
  {
    if k !in oldNames {
      NewTypeRule(news[k].name, None, None);
    }
  }

  /** One more distinct name adds one to the names outside `oldNames` exactly when it is outside them. */
  lemma OrderSetStep(order: seq<string>, j: nat, oldNames: set<string>)
    requires j < |order| && Seqs.Distinct(order)
    ensures |OrderSet(order, j + 1) - oldNames| == |OrderSet(order, j) - oldNames| + if order[j] in oldNames then 0 else 1
  {
    OrderSetFresh(order, j);
    if order[j] in oldNames {
      assert OrderSet(order, j + 1) - oldNames == OrderSet(order, j) - oldNames;
    } else {
      assert OrderSet(order, j + 1) - oldNames == (OrderSet(order, j) - oldNames) + {order[j]};
    }
  }

  /**
   * Without a version change, every type only the new schema has is
   * reported as added exactly once, and the additions report nothing else.
   */
  lemma AdditionsNeedVersionChange(newOrder: seq<string>, news: map<string, Element>, oldNames: set<string>)
    requires Consistent(news, newOrder)
    ensures AddedReadable(newOrder, news, oldNames, None)
    ensures var ds := AddedDiffs(newOrder, news, oldNames, None, |newOrder|);
      && |ds| == |news.Keys - oldNames|
      && forall e :: e in ErrorsOf(ds) ==> e == TypeAdded
  {
    assert AddedReadable(newOrder, news, oldNames, None);
    UnversionedAdditions(newOrder, news, oldNames, |newOrder|);
    UnversionedAdditionKinds(newOrder, news, oldNames, |newOrder|);
    OrderSetKeys(newOrder, news);
  }

  /**
   * With a version change, the first `j` new names pass exactly when each
   * one the old schema lacks is stamped with the new version; a failure is
   * always a wrong since version, never a missing one.
   */
  lemma {:induction false} VersionedAdditions(newOrder: seq<string>, news: map<string, Element>,
                                              oldNames: set<string>, v: int, j: nat)
    requires AddedReadable(newOrder, news, oldNames, Some(v)) && j <= |newOrder|
    ensures var ds := AddedDiffs(newOrder, news, oldNames, Some(v), j);
      && (ds == [] <==> forall i :: 0 <= i < j && newOrder[i] !in oldNames ==> news[newOrder[i]].sinceVersion == v)
      && forall e :: e in ErrorsOf(ds) ==> e == TypeWrongSinceVersion
  {
    if j > 0 {
      var k := newOrder[j - 1];
      VersionedAdditions(newOrder, news, oldNames, v, j - 1);
      ErrorsOfConcat(AddedDiffs(newOrder, news, oldNames, Some(v), j - 1), AddedOne(k, news, oldNames, Some(v)));
      VersionedAddedOne(k, news, oldNames, v);
    }
  }

  /** With a version change, one new name passes exactly when it is old or stamped with the new version. */
  lemma VersionedAddedOne(k: string, news: map<string, Element>, oldNames: set<string>, v: int)
    requires k in news && (k !in oldNames ==> !news[k].RefElem?)
    ensures var d := AddedOne(k, news, oldNames, Some(v));
      && (d == [] <==> (k !in oldNames ==> news[k].sinceVersion == v))
      && forall e :: e in ErrorsOf(d) ==> e == TypeWrongSinceVersion
  {
    if k !in oldNames {
      AddedElementSinceVersion(news[k], Some(v));
      NewTypeRule(news[k].name, SinceAsRead(news[k], Some(v)), Some(v));
    }
  }

  /**
   * With a version change, the additions pass exactly when every type only
   * the new schema has is stamped with the new version.
   */
  lemma AdditionsStampedWithNewVersion(newOrder: seq<string>, news: map<string, Element>, oldNames: set<string>, v: int)
    requires Consistent(news, newOrder)
    requires AddedReadable(newOrder, news, oldNames, Some(v))
    ensures var ds := AddedDiffs(newOrder, news, oldNames, Some(v), |newOrder|);
      && (ds == [] <==> forall k :: k in news && k !in oldNames ==> news[k].sinceVersion == v)
      && forall e :: e in ErrorsOf(ds) ==> e == TypeWrongSinceVersion
  {
    VersionedAdditions(newOrder, news, oldNames, v, |newOrder|);
    forall k | k in news
      ensures exists i :: 0 <= i < |newOrder| && newOrder[i] == k
    {
      assert k in newOrder;
    }
  }
}
