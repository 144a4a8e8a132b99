/** Optional values. In the cache layer `None` stands for Java's `null`,
    which is a legitimate value to cache, so an absent map key and a key
    mapped to `None` are two different situations. */
module Wrappers {

  datatype Option<+T> = None | Some(value: T)

  /** True iff no element of `s` occurs twice. */
  predicate Distinct<T(==)>(s: seq<T>) {
    forall i, j :: 0 <= i < j < |s| ==> s[i] != s[j]
  }

  /** True iff `s` lists every element of `xs` exactly once and nothing else. */
  predicate Enumerates<T(==)>(s: seq<T>, xs: set<T>) {
    && Distinct(s)
    && (forall i :: 0 <= i < |s| ==> s[i] in xs)
    && (forall x :: x in xs ==> x in s)
  }

  /** An enumeration is as long as the set it enumerates. */
  lemma {:induction false} EnumerationLength<T>(s: seq<T>, xs: set<T>)
    requires Enumerates(s, xs)
    ensures |s| == |xs|
    decreases |s|
  {
    if s != [] {
      var x, rest := s[0], s[1..];
      assert Enumerates(rest, xs - {x}) by {
        forall i, j | 0 <= i < j < |rest|
          ensures rest[i] != rest[j]
        {
          assert rest[i] == s[i + 1] && rest[j] == s[j + 1];
        }
        forall i | 0 <= i < |rest|
          ensures rest[i] in xs - {x}
        {
          assert rest[i] == s[i + 1] && s[0] != s[i + 1];
        }
        forall y | y in xs - {x}
          ensures y in rest
        {
          var j :| 0 <= j < |s| && s[j] == y;
          assert rest[j - 1] == y;
        }
      }
      EnumerationLength(rest, xs - {x});
    }
  }
}
