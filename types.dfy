/**
 * The registry of the types a schema knows: every builtin, then every type
 * the schema declares, each under its own unique name.
 */
module TypesRegistry {
  import opened Wrappers
  import opened Elements
  import opened Builtin
  import opened Binding
  import opened Seqs

  /**
   * The registry with the first `n` names bound, each seeing the registry's
   * other entries bound in turn; the rest as they were.
   */
  function BindPrefix(names: seq<string>, n: nat, reg: Registry): (m: map<string, Element>)
    requires n <= |names| && forall k :: k in names ==> k in reg
    ensures m.Keys == reg.Keys
    ensures forall k :: k in m ==> m[k].name == reg[k].name
  {
    LinkedViewNames(reg, |reg|);
    Overlay(names, n, reg, LinkedView(reg, |reg|))
  }

  /** `base` with the entries of the first `n` names replaced by those of `top`. */
  function Overlay(names: seq<string>, n: nat, base: Registry, top: Registry): (m: map<string, Element>)
    requires n <= |names| && forall k :: k in names ==> k in base && k in top
    ensures m.Keys == base.Keys
    ensures forall k :: k in m ==> m[k] == base[k] || (k in top && m[k] == top[k])
  {
    if n == 0 then base
    else Overlay(names, n - 1, base, top)[names[n - 1] := top[names[n - 1]]]
  }

  /** The elements registered under `names`, in that order. */
  function Lookup(names: seq<string>, m: map<string, Element>): (vs: seq<Element>)
    requires forall k :: k in names ==> k in m
    ensures |vs| == |names| && forall i :: 0 <= i < |vs| ==> vs[i] == m[names[i]]
  {
    if names == [] then [] else [m[names[0]]] + Lookup(names[1..], m)
  }

  /** How many leading names bind successfully against `reg`. */
  function BindCount(names: seq<string>, reg: Registry): (c: nat)
    requires forall k :: k in names ==> k in reg
    ensures c <= |names|
  {
    if names == [] || Bind(reg[names[0]], reg).Err? then 0
    else 1 + BindCount(names[1..], reg)
  }

  /** The names before the count all bind; the name at the count, if any, is the first failure. */
  lemma {:induction false} BindCountMeaning(names: seq<string>, reg: Registry)
    requires forall k :: k in names ==> k in reg
    ensures BindCount(names, reg) <= |names|
    ensures forall j :: 0 <= j < BindCount(names, reg) ==> Bind(reg[names[j]], reg).Ok?
    ensures BindCount(names, reg) < |names| ==> Bind(reg[names[BindCount(names, reg)]], reg).Err?
  {
    if names != [] && Bind(reg[names[0]], reg).Ok? {
      BindCountMeaning(names[1..], reg);
      forall j | 0 <= j < BindCount(names, reg)
        ensures Bind(reg[names[j]], reg).Ok?
      {
        if j > 0 { assert names[j] == names[1..][j - 1]; }
      }
    }
  }

  /** Below the count, binding succeeds; at the count, it fails. */
  lemma BindCountStep(names: seq<string>, reg: Registry, i: nat)
    requires forall k :: k in names ==> k in reg
    requires i <= BindCount(names, reg) && i < |names|
    ensures Bind(reg[names[i]], reg).Ok? <==> i < BindCount(names, reg)
  {
    BindCountMeaning(names, reg);
  }

  /**
   * One step of the bind loop: the next name links exactly when it is below
   * the count, failing with the error `lazy_bind` raises, and a linked name
   * grows the prefix by its linked element.
   */
  lemma BindPrefixStep(names: seq<string>, i: nat, reg: Registry)
    requires forall k :: k in names ==> k in reg
    requires i < |names| && i <= BindCount(names, reg)
    ensures var b := Link(reg[names[i]], reg, |reg|);
      && (b.Ok? <==> i < BindCount(names, reg))
      && (b.Err? ==> Bind(reg[names[i]], reg).Err? && b.error == Bind(reg[names[i]], reg).error)
      && (b.Ok? ==> BindPrefix(names, i + 1, reg) == BindPrefix(names, i, reg)[names[i] := b.value])
  {
    LinkAgreesBind(reg[names[i]], reg, |reg|);
    BindCountStep(names, reg, i);
    var b := Link(reg[names[i]], reg, |reg|);
    if b.Ok? {
      assert LinkedView(reg, |reg|)[names[i]] == b.value;
      assert BindPrefix(names, i + 1, reg) == Overlay(names, i, reg, LinkedView(reg, |reg|))[names[i] := b.value];
    }
  }

  /**
   * The registry's invariant: the insertion order lists every key once and
   * nothing else, and every element is registered under its own name.
   */
  ghost predicate Consistent(m: map<string, Element>, order: seq<string>)
  {
    && |order| == |m|
    && Distinct(order)
    && (forall k :: k in m <==> k in order)
    && (forall k :: k in m ==> m[k].name == k)
  }

  /** Adding under a fresh name keeps the registry consistent and grows it by one. */
  lemma ConsistentAdd(m: map<string, Element>, order: seq<string>, t: Element)
    requires Consistent(m, order) && t.name !in m
    ensures Consistent(m[t.name := t], order + [t.name])
    ensures |m[t.name := t]| == |m| + 1
  {
    var order' := order + [t.name];
    forall i, j | 0 <= i < j < |order'|
      ensures order'[i] != order'[j]
    {
      if j == |order| { assert order[i] in m; }
    }
  }

  /** Replacing an entry by one of the same name keeps the registry consistent. */
  lemma ConsistentReplace(m: map<string, Element>, order: seq<string>, b: Element)
    requires Consistent(m, order) && b.name in m
    ensures Consistent(m[b.name := b], order)
  {
    assert m[b.name := b].Keys == m.Keys;
  }

  class Types {
    /** `_types`: name to element. */
    var entries: map<string, Element>
    /** The names in insertion order, which is the order a Python dict iterates in. */
    var order: seq<string>

    ghost predicate Valid()
      reads this
    {
      Consistent(entries, order)
    }

    /** A fresh registry holds exactly the fifteen builtins, added in their fixed order. */
    constructor()
      ensures Valid()
      ensures order == Names(Builtins) && entries == MapOf(Builtins)
    {
      entries := map[];
      order := [];
      new;
      BuiltinsAreDistinct();
      AddDistinct(Builtins);
    }

    /** Add elements whose names are distinct and new, one after the other; none is refused. */
    method AddDistinct(es: seq<Element>)
      requires entries == map[] && order == [] && Distinct(Names(es))
      modifies this
      ensures Valid()
      ensures order == Names(es) && entries == MapOf(es)
    {
      assert Consistent(entries, order);
      var i := 0;
      while i < |es|
        invariant 0 <= i <= |es|
        invariant Valid()
        invariant order == Names(es[..i]) && entries == MapOf(es[..i])
      {
        NextNameFresh(es, i);
        var r := Add(es[i]);
        i := i + 1;
      }
      assert es[..i] == es;
    }

    /** `len(types)`. */
    function Len(): (n: nat)
      reads this
      requires Valid()
      ensures n == |order|
    {
      |entries|
    }

    /**
     * `add`: a name already present raises ValueError and leaves the
     * registry as it was; otherwise the element is recorded under its name
     * and iterates after every earlier one.
     */
    method Add(t: Element) returns (r: Outcome)
      requires Valid()
      modifies this
      ensures Valid()
      ensures old(t.name in entries) ==> r == Fail(ValueError) && entries == old(entries) && order == old(order)
      ensures old(t.name !in entries) ==>
        && r == Pass
        && entries == old(entries)[t.name := t]
        && order == old(order) + [t.name]
        && |entries| == old(|entries|) + 1
    {
      if t.name in entries {
        return Fail(ValueError);
      }
      ConsistentAdd(entries, order, t);
      entries := entries[t.name := t];
      order := order + [t.name];
      return Pass;
    }

    /** `types[name]`: the element registered under the name, KeyError when there is none. */
    function GetItem(name: string): (r: Result<Element>)
      reads this
      requires Valid()
      ensures r.Ok? <==> name in order
      ensures r.Ok? ==> r.value.name == name && r.value == entries[name]
      ensures r.Err? ==> r.error == KeyError
    {
      if name !in entries then Err(KeyError) else Ok(entries[name])
    }

    /** `types.get(name)`: the same lookup, with None in place of the KeyError. */
    function Get(name: string): (r: Option<Element>)
      reads this
      requires Valid()
      ensures r.Some? <==> GetItem(name).Ok?
      ensures r.Some? ==> r.value == GetItem(name).value
    {
      if name in entries then Some(entries[name]) else None
    }

    /** Iteration: every registered element once, in insertion order. */
    function Values(): (vs: seq<Element>)
      reads this
      requires Valid()
      ensures |vs| == Len()
      ensures forall i :: 0 <= i < |vs| ==> vs[i] == entries[order[i]] && vs[i].name == order[i]
    {
      Lookup(order, entries)
    }

    /** `get_composite`: the named element when it is a Composite; ValueError for another kind. */
    function GetComposite(name: string): (r: Result<Element>)
      reads this
      requires Valid()
      ensures r.Ok? <==> name in entries && entries[name].CompositeElem?
      ensures r.Ok? ==> r.value == entries[name] && r.value.name == name
      ensures r.Err? && name !in entries ==> r.error == KeyError
      ensures r.Err? && name in entries ==> r.error == ValueError
    {
      var com :- GetItem(name);
      if !com.CompositeElem? then Err(ValueError) else Ok(com)
    }

    /** `get_type`: the named element when it is a Type; ValueError for another kind. */
    function GetType(name: string): (r: Result<Element>)
      reads this
      requires Valid()
      ensures r.Ok? <==> name in entries && entries[name].TypeElem?
      ensures r.Ok? ==> r.value == entries[name] && r.value.name == name
      ensures r.Err? && name !in entries ==> r.error == KeyError
      ensures r.Err? && name in entries ==> r.error == ValueError
    {
      var t :- GetItem(name);
      if !t.TypeElem? then Err(ValueError) else Ok(t)
    }

    /**
     * The bind loop over every registered type, in iteration order: the
     * first failure propagates and leaves the earlier types bound and the
     * later ones untouched. Whether a type binds is decided by the
     * registry's declarations; the object its slot holds is the registry's
     * own entry, which the loop binds too, so a bound type reaches its
     * targets bound (see `BindAllLengths`).
     */
    method BindAll() returns (r: Outcome)
      requires Valid()
      modifies this
      ensures Valid() && order == old(order)
      ensures r == Pass <==> BindCount(old(order), old(entries)) == |order|
      ensures r.Fail? ==>
        var first := old(order)[BindCount(old(order), old(entries))];
        Bind(old(entries)[first], old(entries)).Err? && r.error == Bind(old(entries)[first], old(entries)).error
      ensures entries == BindPrefix(old(order), BindCount(old(order), old(entries)), old(entries))
    {
      BindCountMeaning(order, entries);
      var bound;
      bound, r := BindEach(order, entries);
      BindPrefixConsistent(order, BindCount(order, entries), entries);
      entries := bound;
    }
  }

  /**
   * The bind loop on values: bind each named entry in turn, stopping at the
   * first failure; an entry's slots show their targets as the loop leaves them.
   */
  method BindEach(names: seq<string>, reg: Registry) returns (bound: map<string, Element>, r: Outcome)
    requires forall k :: k in names ==> k in reg
    requires forall k :: k in reg ==> reg[k].name == k
    ensures r == Pass <==> BindCount(names, reg) == |names|
    ensures r.Fail? ==>
      var first := names[BindCount(names, reg)];
      Bind(reg[first], reg).Err? && r.error == Bind(reg[first], reg).error
    ensures bound == BindPrefix(names, BindCount(names, reg), reg)
  {
    BindCountMeaning(names, reg);
    bound := reg;
    var i := 0;
    while i < |names|
      invariant 0 <= i <= BindCount(names, reg)
      invariant bound == BindPrefix(names, i, reg)
    {
      var name := names[i];
      var b := Link(reg[name], reg, |reg|);
      BindPrefixStep(names, i, reg);
      if b.Err? {
        return bound, Fail(b.error);
      }
      bound := bound[name := b.value];
      i := i + 1;
    }
    return bound, Pass;
  }

  /** Binding a prefix keeps the registry consistent. */
  lemma BindPrefixConsistent(names: seq<string>, n: nat, reg: Registry)
    requires n <= |names| && Consistent(reg, names)
    ensures Consistent(BindPrefix(names, n, reg), names)
  {
  }

  /** Within the bound prefix, an entry is its linked form, or as declared when it does not bind. */
  lemma BindPrefixAt(names: seq<string>, n: nat, reg: Registry, j: nat)
    requires n <= |names| && forall k :: k in names ==> k in reg
    requires j < n
    ensures BindPrefix(names, n, reg)[names[j]] == LinkedView(reg, |reg|)[names[j]]
    ensures Link(reg[names[j]], reg, |reg|).Ok? ==> BindPrefix(names, n, reg)[names[j]] == Link(reg[names[j]], reg, |reg|).value
    ensures Link(reg[names[j]], reg, |reg|).Err? ==> BindPrefix(names, n, reg)[names[j]] == reg[names[j]]
  {
    OverlayAt(names, n, reg, LinkedView(reg, |reg|), j);
  }

  lemma {:induction false} OverlayAt(names: seq<string>, n: nat, base: Registry, top: Registry, j: nat)
    requires n <= |names| && forall k :: k in names ==> k in base && k in top
    requires j < n
    ensures Overlay(names, n, base, top)[names[j]] == top[names[j]]
  {
    if j < n - 1 && names[n - 1] != names[j] {
      OverlayAt(names, n - 1, base, top, j);
    }
  }

  /** A fresh registry holds exactly the fifteen builtins, each under its own name. */
  lemma FreshRegistryHoldsBuiltins()
    ensures |MapOf(Builtins)| == 15 && |Names(Builtins)| == 15
    ensures forall e :: e in Builtins ==> e.name in MapOf(Builtins) && MapOf(Builtins)[e.name] == e
    ensures Consistent(MapOf(Builtins), Names(Builtins))
  {
    BuiltinsAreDistinct();
    MapOfRetrieves(Builtins);
    MapOfConsistent(Builtins);
  }

  /** Adding distinct names one after the other yields a consistent registry. */
  lemma {:induction false} MapOfConsistent(es: seq<Element>)
    requires Distinct(Names(es))
    ensures Consistent(MapOf(es), Names(es))
  {
    if es != [] {
      var n := |es| - 1;
      var init := es[..n];
      NamesPrefixDistinct(es, n);
      MapOfConsistent(init);
      NextNameFresh(es, n);
      assert es[..n + 1] == es;
      ConsistentAdd(MapOf(init), Names(init), es[n]);
    }
  }

  /** The registry that adding `es` one after the other into an empty one leaves behind. */
  function MapOf(es: seq<Element>): map<string, Element>
  {
    if es == [] then map[] else MapOf(es[..|es| - 1])[es[|es| - 1].name := es[|es| - 1]]
  }

  /** With distinct names, each element stays retrievable under its name, and there are as many entries as elements. */
  lemma {:induction false} MapOfRetrieves(es: seq<Element>)
    requires Distinct(Names(es))
    ensures |MapOf(es)| == |es|
    ensures forall e :: e in es ==> e.name in MapOf(es) && MapOf(es)[e.name] == e
  {
    if es != [] {
      var n := |es| - 1;
      var init := es[..n];
      NamesPrefixDistinct(es, n);
      MapOfRetrieves(init);
      NextNameFresh(es, n);
      MapOfKeys(init);
      var last := es[n];
      forall j | 0 <= j < n ensures es[j].name != last.name {
        assert Names(es)[j] != Names(es)[n];
      }
      assert last.name !in MapOf(init);
      forall e | e in es ensures e.name in MapOf(es) && MapOf(es)[e.name] == e {
        if e != last {
          var j :| 0 <= j < |es| && es[j] == e;
          assert j < n && init[j] == e;
        }
      }
    }
  }

  lemma {:induction false} MapOfKeys(es: seq<Element>)
    ensures forall k :: k in MapOf(es) ==> exists j :: 0 <= j < |es| && es[j].name == k
  {
    if es != [] {
      var n := |es| - 1;
      var init := es[..n];
      MapOfKeys(init);
      forall k | k in MapOf(es) ensures exists j :: 0 <= j < |es| && es[j].name == k {
        if k != es[n].name {
          assert k in MapOf(init);
          var j :| 0 <= j < |init| && init[j].name == k;
          assert es[j].name == k;
        } else {
          assert es[n].name == k;
        }
      }
    }
  }

  lemma NamesPrefixDistinct(es: seq<Element>, n: nat)
    requires Distinct(Names(es)) && n <= |es|
    ensures Distinct(Names(es[..n]))
  {
    var ns := Names(es[..n]);
    forall i, j | 0 <= i < j < n ensures ns[i] != ns[j] {
      assert ns[i] == Names(es)[i] && ns[j] == Names(es)[j];
    }
  }

  /** With distinct names, the next element's name is not among the earlier ones. */
  lemma NextNameFresh(es: seq<Element>, i: nat)
    requires Distinct(Names(es)) && i < |es|
    ensures es[i].name !in Names(es[..i])
    ensures Names(es[..i + 1]) == Names(es[..i]) + [es[i].name]
    ensures MapOf(es[..i + 1]) == MapOf(es[..i])[es[i].name := es[i]]
  {
    var all := Names(es);
    var ns := Names(es[..i]);
    assert all[i] == es[i].name;
    forall j | 0 <= j < i ensures ns[j] != es[i].name {
      assert ns[j] == es[..i][j].name == es[j].name == all[j];
      assert all[j] != all[i];
    }
    var pre := es[..i];
    assert es[..i + 1] == pre + [es[i]];
    assert es[..i + 1][..i] == pre;
    NamesAppend(pre, es[i]);
  }

  lemma NamesAppend(es: seq<Element>, e: Element)
    ensures Names(es + [e]) == Names(es) + [e.name]
  {
  }

  /** After a successful bind loop every entry is its linked form: the registry is its linked view. */
  lemma BindAllLinked(order: seq<string>, reg: Registry)
    requires forall k :: k in reg <==> k in order
    requires BindCount(order, reg) == |order|
    ensures var bound := BindPrefix(order, |order|, reg);
      && bound.Keys == reg.Keys
      && (forall k :: k in reg ==> Link(reg[k], reg, |reg|).Ok? && bound[k] == Link(reg[k], reg, |reg|).value)
      && bound == LinkedView(reg, |reg|)
  {
    BindCountMeaning(order, reg);
    assert order[..|order|] == order;
    forall k | k in reg
      ensures Link(reg[k], reg, |reg|).Ok? && BindPrefix(order, |order|, reg)[k] == Link(reg[k], reg, |reg|).value
    {
      var j :| 0 <= j < |order| && order[j] == k;
      LinkAgreesBind(reg[k], reg, |reg|);
      BindPrefixAt(order, |order|, reg, j);
    }
  }

  /**
   * After a successful bind of the whole registry, each entry keeps its
   * declaration, its slots hold the registry's other entries as linked one
   * step less, and binding it again against the bound registry succeeds.
   */
  lemma BindAllMeaning(order: seq<string>, reg: Registry)
    requires forall k :: k in reg <==> k in order
    requires BindCount(order, reg) == |order|
    ensures var bound := BindPrefix(order, |order|, reg);
      && bound.Keys == reg.Keys
      && SameDeclarations(bound, reg)
      && (forall k :: k in bound ==> BoundAgainst(bound[k], LinkedView(reg, |reg| - 1)))
      && (forall k :: k in bound ==> Bind(bound[k], bound).Ok?)
  {
    BindAllLinked(order, reg);
    if order != [] {
      assert order[0] in reg;
      var bound := BindPrefix(order, |order|, reg);
      LinkedViewDeclarations(reg, |reg|);
      forall k | k in bound
        ensures BoundAgainst(bound[k], LinkedView(reg, |reg| - 1)) && Bind(bound[k], bound).Ok?
      {
        LinkBoundAgainst(reg[k], reg, |reg|);
        LinkRebinds(reg[k], reg, |reg|, bound);
      }
    }
  }

  /**
   * After a successful bind of the whole registry, an entry whose references
   * reach only registered types and no cycle has a byte length, and each of
   * its enum, set and ref slots holds the bound registry entry it names.
   */
  lemma BindAllLengths(order: seq<string>, reg: Registry, k: string)
    requires forall k :: k in reg <==> k in order
    requires BindCount(order, reg) == |order|
    requires k in reg && Grounded(reg[k], reg, |reg|)
    ensures var bound := BindPrefix(order, |order|, reg);
      && Resolved(bound[k]) && TotalLength(bound[k]).Some?
      && (bound[k].EnumElem? || bound[k].SetElem? ==>
            bound[k].encodingTypeName in bound && bound[k].encodingType == Some(bound[bound[k].encodingTypeName]))
      && (bound[k].RefElem? ==> bound[k].typeName in bound && bound[k].target == Some(bound[bound[k].typeName]))
  {
    BindAllLinked(order, reg);
    LinkedEntry(reg, |reg|, k);
  }
}
