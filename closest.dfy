/**
 * Nearest-interval queries: `find_closest_on_disjoint` on one layer, and the
 * aggregation over all layers of a chromosome that `AnnotationInfo.find_closest`
 * performs (minimum distance, candidates of every layer attaining it).
 */
module Closest {
  import opened Wrappers
  import opened Intervals
  import opened Layering

  /** A `(d, list_of_closest_intervals)` answer. */
  datatype Closest = Closest(d: int, candidates: seq<Interval>)

  function Max(a: int, b: int): int {
    if a < b then b else a
  }

  /**
   * `find_closest_on_disjoint(layer, pos)`.  The index of
   * `bisect(layer, (pos, inf))` splits the layer into the intervals that
   * start at or before `pos` and the rest.  Every answer holds one or two
   * intervals of the layer, all at the returned distance from `pos`; two
   * only when `pos` lies strictly between neighbours and equally far from both.
   */
  function FindClosestOnDisjoint(layer: seq<Interval>, pos: int): (r: Closest)
    requires layer != []
    ensures r.d >= 0
    ensures 1 <= |r.candidates| <= 2
    ensures forall c :: c in r.candidates ==> c in layer && Dist(c, pos) == r.d
    ensures |r.candidates| == 2 ==>
      exists k :: 0 < k < |layer| && r.candidates == [layer[k - 1], layer[k]] &&
        layer[k - 1].end < pos < layer[k].start && pos - layer[k - 1].end == layer[k].start - pos
  {
    var i := Bisect(layer, PosKey(pos));
    if i == 0 then
      Closest(layer[0].start - pos, [layer[0]])
    else if i == |layer| then
      Closest(Max(0, pos - layer[|layer| - 1].end), [layer[|layer| - 1]])
    else
      var left, right := layer[i - 1], layer[i];
      var dl, dr := pos - left.end, right.start - pos;
      if dr < dl then Closest(dr, [right])
      else if dr > dl then Closest(Max(0, dl), [left])
      else Closest(dl, [left, right])
  }

  /**
   * The branches of `find_closest_on_disjoint` in terms of `i`, the number
   * of intervals starting at or before `pos`, on a layer sorted by start.
   */
  lemma ClosestCases(layer: seq<Interval>, pos: int)
    requires layer != [] && StartSorted(layer)
    ensures var i := CountStartAtMost(layer, pos);
            var r := FindClosestOnDisjoint(layer, pos);
            var n := |layer|;
            (i == 0 ==> r == Closest(layer[0].start - pos, [layer[0]])) &&
            (i == n ==> r == Closest(Max(0, pos - layer[n - 1].end), [layer[n - 1]])) &&
            (0 < i < n ==>
               var dl, dr := pos - layer[i - 1].end, layer[i].start - pos;
               (dr < dl ==> r == Closest(dr, [layer[i]])) &&
               (dr > dl ==> r == Closest(Max(0, dl), [layer[i - 1]])) &&
               (dr == dl ==> r == Closest(dl, [layer[i - 1], layer[i]])))
  {
    BisectPosCounts(layer, pos);
  }

  /** Well-formed disjoint layers are sorted by start. */
  lemma DisjointIsStartSorted(layer: seq<Interval>)
    requires AllWellFormed(layer) && Disjoint(layer)
    ensures StartSorted(layer)
  {
    forall a, b | 0 <= a < b < |layer| ensures layer[a].start <= layer[b].start {
      assert WellFormed(layer[a]);
    }
  }

  /**
   * On a disjoint layer of well-formed intervals the returned distance is
   * the least distance from `pos` to any interval of the layer.
   */
  lemma NearestInLayer(layer: seq<Interval>, pos: int)
    requires layer != [] && AllWellFormed(layer) && Disjoint(layer)
    ensures forall x :: x in layer ==> FindClosestOnDisjoint(layer, pos).d <= Dist(x, pos)
  {
    DisjointIsStartSorted(layer);
    forall x | x in layer ensures FindClosestOnDisjoint(layer, pos).d <= Dist(x, pos) {
      var a :| 0 <= a < |layer| && layer[a] == x;
      NearestInLayerAt(layer, pos, a);
    }
  }

  lemma NearestInLayerAt(layer: seq<Interval>, pos: int, a: nat)
    requires a < |layer| && AllWellFormed(layer) && Disjoint(layer) && StartSorted(layer)
    ensures FindClosestOnDisjoint(layer, pos).d <= Dist(layer[a], pos)
  {
    var i := Bisect(layer, PosKey(pos));
    var n := |layer|;
    var x := layer[a];
    assert WellFormed(x);
    if i == 0 {
      assert layer[0].start <= x.start;
    } else if i == n {
      assert layer[n - 1].start <= pos;
      if a < n - 1 {
        assert x.end <= layer[n - 1].start;
        assert WellFormed(layer[n - 1]);
      }
    } else {
      assert layer[i - 1].start <= pos < layer[i].start;
      assert WellFormed(layer[i - 1]) && WellFormed(layer[i]);
      if a < i - 1 {
        assert x.end <= layer[i - 1].start;
      } else if a > i {
        assert layer[i].end <= x.start;
      }
    }
  }

  /** The answer of every layer, in layer order. */
  function LayerResults(ls: seq<seq<Interval>>, pos: int): (rs: seq<Closest>)
    requires forall j :: 0 <= j < |ls| ==> ls[j] != []
    ensures |rs| == |ls|
    ensures forall j :: 0 <= j < |ls| ==> rs[j] == FindClosestOnDisjoint(ls[j], pos)
  {
    seq(|ls|, j requires 0 <= j < |ls| => FindClosestOnDisjoint(ls[j], pos))
  }

  /** `min(ranking)`: the least distance reported by any layer. */
  function MinDistance(rs: seq<Closest>): (m: int)
    requires rs != []
    ensures exists j :: 0 <= j < |rs| && rs[j].d == m
    ensures forall j :: 0 <= j < |rs| ==> m <= rs[j].d
  {
    if |rs| == 1 then rs[0].d
    else
      var m := MinDistance(rs[..|rs| - 1]);
      assert forall j :: 0 <= j < |rs| - 1 ==> rs[..|rs| - 1][j] == rs[j];
      if rs[|rs| - 1].d < m then rs[|rs| - 1].d else m
  }

  /** `ranking[d]`: the candidate lists of the layers at distance `d`, in layer order. */
  function Gather(rs: seq<Closest>, d: int): seq<Interval> {
    if rs == [] then []
    else Gather(rs[..|rs| - 1], d) + (if rs[|rs| - 1].d == d then rs[|rs| - 1].candidates else [])
  }

  lemma {:induction false} GatherMembers(rs: seq<Closest>, d: int, c: Interval)
    ensures c in Gather(rs, d) <==> exists j :: 0 <= j < |rs| && rs[j].d == d && c in rs[j].candidates
  {
    if rs != [] {
      var init := rs[..|rs| - 1];
      GatherMembers(init, d, c);
      assert forall j :: 0 <= j < |init| ==> init[j] == rs[j];
    }
  }

  /**
   * `AnnotationInfo.find_closest` on the layers `ls` of one chromosome:
   * IndexError on an empty layer (`seq[0]` of an empty list), ValueError
   * when there are no layers (`min` of an empty dict).
   */
  function ClosestAcross(ls: seq<seq<Interval>>, pos: int): Result<Closest, PyError> {
    if exists j :: 0 <= j < |ls| && ls[j] == [] then Failure(IndexError)
    else if ls == [] then Failure(ValueError)
    else
      var rs := LayerResults(ls, pos);
      var m := MinDistance(rs);
      Success(Closest(m, Gather(rs, m)))
  }

  /**
   * Over the layers that `split_disjoint` makes of a chromosome's
   * well-formed intervals, the query succeeds; its distance is the least
   * distance from `pos` to any interval of the chromosome, and every
   * candidate, from whichever layer, is an interval of the chromosome at
   * exactly that distance.
   */
  lemma NearestAcrossLayers(input: seq<Interval>, ls: seq<seq<Interval>>, pos: int)
    requires IsLayering(input, ls) && AllWellFormed(input) && input != []
    ensures ClosestAcross(ls, pos).Success?
    ensures var r := ClosestAcross(ls, pos).value;
            r.d >= 0 && r.candidates != [] &&
            (forall c :: c in r.candidates ==> c in input && Dist(c, pos) == r.d) &&
            (forall x :: x in input ==> r.d <= Dist(x, pos))
  {
    LayeringMembers(input, ls);
    assert forall j :: 0 <= j < |ls| ==> ls[j] != [] && Disjoint(ls[j]);
    NearestAcross(input, ls, pos);
  }

  /** `NearestAcrossLayers` for any non-empty list of non-empty disjoint layers holding exactly the input. */
  lemma NearestAcross(input: seq<Interval>, ls: seq<seq<Interval>>, pos: int)
    requires |ls| >= 1
    requires forall x :: x in input <==> exists j :: 0 <= j < |ls| && x in ls[j]
    requires forall j :: 0 <= j < |ls| ==> ls[j] != [] && AllWellFormed(ls[j]) && Disjoint(ls[j])
    ensures ClosestAcross(ls, pos).Success?
    ensures var r := ClosestAcross(ls, pos).value;
            r.d >= 0 && r.candidates != [] &&
            (forall c :: c in r.candidates ==> c in input && Dist(c, pos) == r.d) &&
            (forall x :: x in input ==> r.d <= Dist(x, pos))
  {
    var rs := LayerResults(ls, pos);
    var m := MinDistance(rs);
    assert ClosestAcross(ls, pos) == Success(Closest(m, Gather(rs, m)));
    GatheredCandidates(input, ls, rs, m, pos);
    forall x | x in input ensures m <= Dist(x, pos) {
      var j :| 0 <= j < |ls| && x in ls[j];
      NearestInLayer(ls[j], pos);
    }
  }

  /** The candidates gathered at a distance some layer attains are intervals of the input at that distance. */
  lemma GatheredCandidates(input: seq<Interval>, ls: seq<seq<Interval>>, rs: seq<Closest>, m: int, pos: int)
    requires forall x :: x in input <==> exists j :: 0 <= j < |ls| && x in ls[j]
    requires |rs| == |ls| && forall j :: 0 <= j < |rs| ==> forall c :: c in rs[j].candidates ==> c in ls[j]
    requires forall j :: 0 <= j < |rs| ==> rs[j].d >= 0 && rs[j].candidates != []
    requires exists j :: 0 <= j < |rs| && rs[j].d == m
    requires forall j, c :: 0 <= j < |rs| && c in rs[j].candidates ==> Dist(c, pos) == rs[j].d
    ensures m >= 0 && Gather(rs, m) != []
    ensures forall c :: c in Gather(rs, m) ==> c in input && Dist(c, pos) == m
  {
    var j0 :| 0 <= j0 < |rs| && rs[j0].d == m;
    GatherMembers(rs, m, rs[j0].candidates[0]);
    forall c | c in Gather(rs, m) ensures c in input && Dist(c, pos) == m {
      GatherMembers(rs, m, c);
      var j :| 0 <= j < |rs| && rs[j].d == m && c in rs[j].candidates;
      assert c in ls[j];
    }
  }

  /** The intervals of the layers are those of the input, every one well-formed if the input's are. */
  lemma LayeringMembers(input: seq<Interval>, ls: seq<seq<Interval>>)
    requires IsLayering(input, ls)
    ensures forall x :: x in input <==> exists j :: 0 <= j < |ls| && x in ls[j]
    ensures AllWellFormed(input) ==> forall j :: 0 <= j < |ls| ==> AllWellFormed(ls[j])
  {
    forall x ensures x in input <==> exists j :: 0 <= j < |ls| && x in ls[j] {
      ConcatMembers(ls, x);
      assert x in input <==> x in multiset(input);
      assert x in Concat(ls) <==> x in multiset(Concat(ls));
    }
    if AllWellFormed(input) {
      forall j, k | 0 <= j < |ls| && 0 <= k < |ls[j]| ensures WellFormed(ls[j][k]) {
        assert ls[j][k] in ls[j];
        assert ls[j][k] in input;
        var m :| 0 <= m < |input| && input[m] == ls[j][k];
      }
    }
  }

  /**
   * The layer `[(5, 7), (15, 25)]`: a midpoint query gets both neighbours,
   * a query inside an interval gets it at distance 0, and one beyond
   * either end gets the interval at that end.
   */
  lemma MidpointTie()
    ensures FindClosestOnDisjoint([Interval(5, 7), Interval(15, 25)], 11) ==
            Closest(4, [Interval(5, 7), Interval(15, 25)])
    ensures FindClosestOnDisjoint([Interval(5, 7), Interval(15, 25)], 0) == Closest(5, [Interval(5, 7)])
    ensures FindClosestOnDisjoint([Interval(5, 7), Interval(15, 25)], 30) == Closest(5, [Interval(15, 25)])
    ensures FindClosestOnDisjoint([Interval(5, 7), Interval(15, 25)], 6) == Closest(0, [Interval(5, 7)])
    ensures FindClosestOnDisjoint([Interval(5, 7), Interval(15, 25)], 20) == Closest(0, [Interval(15, 25)])
  {
    var layer := [Interval(5, 7), Interval(15, 25)];
    assert StartSorted(layer);
    BisectPosCounts(layer, 11);
    BisectPosCounts(layer, 0);
    BisectPosCounts(layer, 30);
    BisectPosCounts(layer, 6);
    BisectPosCounts(layer, 20);
  }

  /**
   * Equidistant candidates from different layers: with layers
   * `[(1, 2), (4, 6), (8, 10)]` and `[(1, 5)]`, position 4 lies in `(4, 6)`
   * and in `(1, 5)`, and both are returned.
   */
  lemma CandidatesFromTwoLayers()
    ensures ClosestAcross([[Interval(1, 2), Interval(4, 6), Interval(8, 10)], [Interval(1, 5)]], 4) ==
            Success(Closest(0, [Interval(4, 6), Interval(1, 5)]))
  {
    var l0 := [Interval(1, 2), Interval(4, 6), Interval(8, 10)];
    var l1 := [Interval(1, 5)];
    assert StartSorted(l0) && StartSorted(l1);
    BisectPosCounts(l0, 4);
    BisectPosCounts(l1, 4);
    var ls := [l0, l1];
    var rs := LayerResults(ls, 4);
    assert rs[0] == Closest(0, [Interval(4, 6)]);
    assert rs[1] == Closest(0, [Interval(1, 5)]);
    assert rs[..1] == [rs[0]];
    assert MinDistance(rs) == 0 by {
      assert MinDistance(rs[..1]) == 0;
    }
    assert Gather([rs[0]], 0) == [Interval(4, 6)] by {
      assert [rs[0]][..0] == [];
    }
    assert Gather(rs, 0) == [Interval(4, 6), Interval(1, 5)];
    assert !exists j :: 0 <= j < |ls| && ls[j] == [];
  }
}
