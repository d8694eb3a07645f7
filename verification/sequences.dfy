/** Facts about sequences of names shared by the checks and the walk. */
module Sequences {

  predicate NoDuplicates<T(==)>(s: seq<T>)
  {
    forall i, j :: 0 <= i < j < |s| ==> s[i] != s[j]
  }

  function Elems<T>(s: seq<T>): set<T>
  {
    set x | x in s
  }

  /** What is not in `s + [x]` is neither in `s` nor `x`. */
  lemma NotInAppend<T>(s: seq<T>, x: T, y: T)
    requires y !in s + [x]
    ensures y !in s && y != x
  {
    assert (s + [x])[|s|] == x;
    assert forall i :: 0 <= i < |s| ==> (s + [x])[i] == s[i];
  }

  /**
   * A list has as many distinct elements as entries exactly when no entry
   * repeats; this is the `len(set(names)) != len(tasks)` test.
   */
  lemma {:induction false} DistinctCount<T>(s: seq<T>)
    ensures |Elems(s)| <= |s|
    ensures |Elems(s)| == |s| <==> NoDuplicates(s)
    decreases |s|
  {
    if |s| == 0 {
      assert Elems(s) == {};
    } else {
      var p := s[..|s| - 1];
      var x := s[|s| - 1];
      DistinctCount(p);
      assert Elems(s) == Elems(p) + {x};
      if x in Elems(p) {
        assert Elems(s) == Elems(p);
        var k :| 0 <= k < |p| && p[k] == x;
        assert s[k] == s[|s| - 1];
      } else {
        assert |Elems(s)| == |Elems(p)| + 1;
        if NoDuplicates(p) {
          forall i, j | 0 <= i < j < |s|
            ensures s[i] != s[j]
          {
            if j == |s| - 1 {
              assert s[i] == p[i];
            } else {
              assert s[i] == p[i] && s[j] == p[j];
            }
          }
        }
        if NoDuplicates(s) {
          forall i, j | 0 <= i < j < |p|
            ensures p[i] != p[j]
          {
            assert p[i] == s[i] && p[j] == s[j];
          }
        }
      }
    }
  }
}
