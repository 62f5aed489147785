/** Distinctness of a sequence's items, stated pairwise and by counting. */
module Seqs {

  /** No item occurs twice. */
  predicate Distinct<T(==)>(s: seq<T>)
  {
    forall i, j :: 0 <= i < j < |s| ==> s[i] != s[j]
  }

  /** Concatenation is associative. */
  lemma AppendAssoc<T>(a: seq<T>, b: seq<T>, c: seq<T>)
    ensures a + b + c == a + (b + c)
  {
  }

  /** `set(s)`. */
  function ToSet<T>(s: seq<T>): set<T>
  {
    set x | x in s
  }

  lemma {:induction false} ToSetBound<T>(s: seq<T>)
    ensures |ToSet(s)| <= |s|
  {
    if s != [] {
      ToSetBound(s[1..]);
      assert ToSet(s) == {s[0]} + ToSet(s[1..]);
    }
  }

  /**
   * The uniqueness test `len(s) == len(set(s))` holds exactly when no item
   * occurs twice.
   */
  lemma {:induction false} DistinctIffCardinality<T>(s: seq<T>)
    ensures |ToSet(s)| == |s| <==> Distinct(s)
  {
    if s != [] {
      var t := s[1..];
      DistinctIffCardinality(t);
      ToSetBound(t);
      assert ToSet(s) == {s[0]} + ToSet(t);
      if s[0] in t {
        assert ToSet(s) == ToSet(t);
        var k :| 0 <= k < |t| && t[k] == s[0];
        assert s[0] == s[k + 1];
      } else {
        assert s[0] !in ToSet(t);
        assert Distinct(s) <==> Distinct(t) by {
          if Distinct(t) {
            forall i, j | 0 <= i < j < |s| ensures s[i] != s[j] {
              if i > 0 { assert s[i] == t[i - 1] && s[j] == t[j - 1]; }
              else { assert s[j] == t[j - 1]; }
            }
          }
          if Distinct(s) {
            forall i, j | 0 <= i < j < |t| ensures t[i] != t[j] {
              assert t[i] == s[i + 1] && t[j] == s[j + 1];
            }
          }
        }
      }
    }
  }
}
