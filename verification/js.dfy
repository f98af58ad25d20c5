/**
 The small part of JavaScript's semantics that the bookstore handlers rely on:
 optional request fields and their truthiness, and `Array.prototype.filter`.
 */
module Js {

  /** A request field: `undefined` when the client did not send it. */
  datatype Option<+T> = None | Some(value: T)

  /** `!!x` for a field that is either absent or a string: false exactly when
      the field is missing or is the empty string. */
  predicate Truthy(x: Option<string>)
  {
    x.Some? && |x.value| > 0
  }

  /** `a` can be obtained from `b` by deleting elements (order is kept). */
  ghost predicate Subsequence<T>(a: seq<T>, b: seq<T>)
    decreases |b|
  {
    || a == []
    || (&& b != []
        && ((a[0] == b[0] && Subsequence(a[1..], b[1..])) || Subsequence(a, b[1..])))
  }

  /** No element occurs twice. */
  ghost predicate Distinct<T>(s: seq<T>)
  {
    forall i, j :: 0 <= i < j < |s| ==> s[i] != s[j]
  }

  /** `s.filter(keep)`: the elements of `s` that satisfy `keep`, each as often
      as it occurs in `s`, in their order in `s`. */
  function Filter<T(==,!new)>(s: seq<T>, keep: T -> bool): (r: seq<T>)
    ensures forall i :: 0 <= i < |r| ==> keep(r[i])
    ensures forall x :: multiset(r)[x] == if keep(x) then multiset(s)[x] else 0
    ensures Subsequence(r, s)
  {
    if s == [] then []
    else
      var rest := Filter(s[1..], keep);
      assert s == [s[0]] + s[1..];
      if keep(s[0]) then [s[0]] + rest else rest
  }

  /** The filtered array is non-empty exactly when some element is kept. */
  lemma FilterNonEmpty<T(!new)>(s: seq<T>, keep: T -> bool)
    ensures |Filter(s, keep)| > 0 <==> exists i :: 0 <= i < |s| && keep(s[i])
  {
    var r := Filter(s, keep);
    if i :| 0 <= i < |s| && keep(s[i]) {
      assert s[i] in multiset(s);
      assert s[i] in multiset(r);
    }
    if |r| > 0 {
      assert r[0] in multiset(r);
      assert r[0] in multiset(s);
      var i :| 0 <= i < |s| && s[i] == r[0];
    }
  }

  /** Filtering a sequence without repetitions keeps each kept element exactly once. */
  lemma FilterOfDistinct<T(!new)>(s: seq<T>, keep: T -> bool)
    requires Distinct(s)
    ensures forall x :: multiset(Filter(s, keep))[x] == if x in s && keep(x) then 1 else 0
  {
    DistinctOccursOnce(s);
  }

  /** In a sequence without repetitions every element occurs exactly once. */
  lemma {:induction false} DistinctOccursOnce<T>(s: seq<T>)
    requires Distinct(s)
    ensures forall x :: multiset(s)[x] == if x in s then 1 else 0
  {
    if s != [] {
      assert Distinct(s[1..]) by {
        forall i, j | 0 <= i < j < |s[1..]|
          ensures s[1..][i] != s[1..][j]
        {
          assert s[1..][i] == s[i + 1] && s[1..][j] == s[j + 1];
        }
      }
      DistinctOccursOnce(s[1..]);
      assert s == [s[0]] + s[1..];
      assert s[0] !in s[1..];
    }
  }
}
