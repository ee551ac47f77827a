/**
 * Closed genomic intervals `(start, end)` as Python tuples, their tuple
 * ordering, the distance from a position to an interval, and the model
 * of `bisect.bisect` with the two tuple keys the engine searches for.
 */
module Intervals {
  import Sorting

  /** A Python `(start, end)` tuple of genomic coordinates, both ends included. */
  datatype Interval = Interval(start: int, end: int)

  /** A well-formed interval covers at least one position. */
  predicate WellFormed(x: Interval) {
    x.start <= x.end
  }

  predicate AllWellFormed(s: seq<Interval>) {
    forall k :: 0 <= k < |s| ==> WellFormed(s[k])
  }

  /** Python's tuple comparison `a <= b`: by start, then by end. */
  predicate LexLe(a: Interval, b: Interval) {
    a.start < b.start || (a.start == b.start && a.end <= b.end)
  }

  lemma LexLeTotalOrder()
    ensures Sorting.Total(LexLe)
    ensures Sorting.Transitive(LexLe)
  {
  }

  /** `sorted(intervals)`. */
  function SortIntervals(s: seq<Interval>): (r: seq<Interval>)
    ensures multiset(r) == multiset(s)
    ensures Sorting.PairwiseSorted(r, LexLe)
  {
    LexLeTotalOrder();
    var r := Sorting.SortBy(s, LexLe);
    Sorting.SortedIsPairwise(r, LexLe);
    r
  }

  /** Starts never decrease along `s`. */
  predicate StartSorted(s: seq<Interval>) {
    forall a, b :: 0 <= a < b < |s| ==> s[a].start <= s[b].start
  }

  /** Distance from `pos` to the interval: 0 inside it, else to the nearer endpoint. */
  function Dist(x: Interval, pos: int): (d: nat)
    ensures d == 0 <==> x.start <= pos <= x.end
  {
    if pos < x.start then x.start - pos
    else if pos > x.end then pos - x.end
    else 0
  }

  /** Python's `sum(subseqs, [])`: the layers laid end to end. */
  function Concat<T>(ls: seq<seq<T>>): (r: seq<T>)
    ensures |ls| == 0 ==> r == []
  {
    if ls == [] then [] else Concat(ls[..|ls| - 1]) + ls[|ls| - 1]
  }

  /** An element of the concatenation comes from one of the parts, and back. */
  lemma {:induction false} ConcatMembers<T>(ls: seq<seq<T>>, x: T)
    ensures x in Concat(ls) <==> exists j :: 0 <= j < |ls| && x in ls[j]
  {
    if ls != [] {
      var init := ls[..|ls| - 1];
      ConcatMembers(init, x);
      if x in Concat(init) {
        var j :| 0 <= j < |init| && x in init[j];
        assert ls[j] == init[j];
      }
      if exists j :: 0 <= j < |ls| && x in ls[j] {
        var j :| 0 <= j < |ls| && x in ls[j];
        if j < |init| { assert init[j] == ls[j]; }
      }
    }
  }

  /**
   * The tuple searched for by `bisect`: `(e,)` when a layer is being
   * extended after an interval ending at `e`, and `(pos, float("inf"))`
   * when looking up a query position.
   */
  datatype Key = EndKey(e: int) | PosKey(pos: int)

  /** Python's tuple comparison `key < x`. */
  predicate KeyLess(k: Key, x: Interval) {
    match k
    // (e,) < (s, t): e < s, or e == s and the shorter tuple is smaller
    case EndKey(e) => e <= x.start
    // (p, inf) < (s, t): p < s, since no integer end exceeds inf
    case PosKey(p) => p < x.start
  }

  /** The loop of `bisect.bisect_right` over `s[lo..hi]`. */
  function BisectFrom(s: seq<Interval>, k: Key, lo: nat, hi: nat): (r: nat)
    requires lo <= hi <= |s|
    requires lo == 0 || !KeyLess(k, s[lo - 1])
    requires hi == |s| || KeyLess(k, s[hi])
    ensures lo <= r <= hi
    ensures r == 0 || !KeyLess(k, s[r - 1])
    ensures r == |s| || KeyLess(k, s[r])
    decreases hi - lo
  {
    if lo == hi then lo
    else
      var mid := (lo + hi) / 2;
      if KeyLess(k, s[mid]) then BisectFrom(s, k, lo, mid)
      else BisectFrom(s, k, mid + 1, hi)
  }

  /**
   * `bisect.bisect(s, k)`: a binary search whose last probes show that
   * `k` is not below `s[r - 1]` and is below `s[r]`, whether or not `s`
   * is sorted; on a list sorted by start this places `r` exactly at the
   * partition between the elements `k` is not below and those it is.
   */
  function Bisect(s: seq<Interval>, k: Key): (r: nat)
    ensures r <= |s|
    ensures r == 0 || !KeyLess(k, s[r - 1])
    ensures r == |s| || KeyLess(k, s[r])
    ensures StartSorted(s) ==>
      (forall j :: 0 <= j < r ==> !KeyLess(k, s[j])) &&
      (forall j :: r <= j < |s| ==> KeyLess(k, s[j]))
  {
    BisectFrom(s, k, 0, |s|)
  }

  /** Number of intervals of `s` that start at or before `pos`. */
  function CountStartAtMost(s: seq<Interval>, pos: int): (n: nat)
    ensures n <= |s|
  {
    if s == [] then 0
    else CountStartAtMost(s[..|s| - 1], pos) + (if s[|s| - 1].start <= pos then 1 else 0)
  }

  /**
   * On a layer sorted by start, the index `bisect(layer, (pos, inf))` is
   * the number of intervals starting at or before `pos`.
   */
  lemma {:induction false} BisectPosCounts(s: seq<Interval>, pos: int)
    requires StartSorted(s)
    ensures Bisect(s, PosKey(pos)) == CountStartAtMost(s, pos)
  {
    if s != [] {
      var init := s[..|s| - 1];
      assert StartSorted(init);
      BisectPosCounts(init, pos);
      var r := Bisect(s, PosKey(pos));
      if s[|s| - 1].start <= pos {
        assert r == |s|;
        assert Bisect(init, PosKey(pos)) == |init|;
      } else {
        assert r == Bisect(init, PosKey(pos)) by {
          var q := Bisect(init, PosKey(pos));
          assert q == |init| || KeyLess(PosKey(pos), s[q]);
          assert forall j :: 0 <= j < q ==> !KeyLess(PosKey(pos), s[j]);
        }
      }
    }
  }
}
