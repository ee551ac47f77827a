/**
 * Python's `sorted` and `list.sort`, which the modelled code calls, stand
 * here as an insertion sort over a caller-supplied order `le`.  Insertion
 * at the first element that `x` is `le` to keeps equal elements in input
 * order, like Python's stable sort.
 */
module Sorting {

  /** `le` relates every pair one way or the other. */
  ghost predicate Total<T(!new)>(le: (T, T) -> bool) {
    forall a, b :: le(a, b) || le(b, a)
  }

  ghost predicate Transitive<T(!new)>(le: (T, T) -> bool) {
    forall a, b, c :: le(a, b) && le(b, c) ==> le(a, c)
  }

  /** Every element is `le` its successor. */
  predicate Sorted<T>(s: seq<T>, le: (T, T) -> bool) {
    forall k :: 0 <= k < |s| - 1 ==> le(s[k], s[k + 1])
  }

  /** Every element is `le` every later element. */
  predicate PairwiseSorted<T>(s: seq<T>, le: (T, T) -> bool) {
    forall a, b :: 0 <= a < b < |s| ==> le(s[a], s[b])
  }

  function Insert<T(!new)>(x: T, s: seq<T>, le: (T, T) -> bool): (r: seq<T>)
    requires Total(le)
    requires Sorted(s, le)
    ensures multiset(r) == multiset(s) + multiset{x}
    ensures Sorted(r, le)
    ensures |r| == |s| + 1
    ensures r[0] == x || (s != [] && r[0] == s[0])
  {
    if s == [] then [x]
    else if le(x, s[0]) then [x] + s
    else
      var t := Insert(x, s[1..], le);
      assert s == [s[0]] + s[1..];
      [s[0]] + t
  }

  /** The stable sort of `s` under `le`. */
  function SortBy<T(!new)>(s: seq<T>, le: (T, T) -> bool): (r: seq<T>)
    requires Total(le)
    ensures multiset(r) == multiset(s)
    ensures Sorted(r, le)
    ensures |r| == |s|
  {
    if s == [] then []
    else
      assert s == [s[0]] + s[1..];
      Insert(s[0], SortBy(s[1..], le), le)
  }

  /** For a transitive order, sorted neighbours make the whole sequence sorted. */
  lemma {:induction false} SortedIsPairwise<T(!new)>(s: seq<T>, le: (T, T) -> bool)
    requires Transitive(le)
    requires Sorted(s, le)
    ensures PairwiseSorted(s, le)
  {
    if |s| > 1 {
      SortedIsPairwise(s[1..], le);
      forall b | 1 <= b < |s| ensures le(s[0], s[b]) {
        if b > 1 {
          assert le(s[1], s[b]) by { assert s[1..][0] == s[1] && s[1..][b - 1] == s[b]; }
        }
      }
      forall a, b | 0 <= a < b < |s| ensures le(s[a], s[b]) {
        if a > 0 { assert s[1..][a - 1] == s[a] && s[1..][b - 1] == s[b]; }
      }
    }
  }
}
