/**
 * `split_disjoint`: sort a chromosome's intervals and deal them greedily
 * into layers, each layer taking the first remaining interval that starts
 * at or after the end of the interval it placed last.
 */
module Layering {
  import opened Intervals
  import Sorting

  /** Each interval ends at or before the start of the next one (touching allowed). */
  predicate Chained(l: seq<Interval>) {
    forall k :: 0 <= k < |l| - 1 ==> l[k].end <= l[k + 1].start
  }

  /** Any two intervals of the layer, in layer order, satisfy `first.end <= second.start`. */
  predicate Disjoint(l: seq<Interval>) {
    forall a, b :: 0 <= a < b < |l| ==> l[a].end <= l[b].start
  }

  function LastEnd(l: seq<Interval>): int
    requires l != []
  {
    l[|l| - 1].end
  }

  /** What `split_disjoint(input)` promises of its result `ls`. */
  ghost predicate IsLayering(input: seq<Interval>, ls: seq<seq<Interval>>) {
    // there is always at least one layer; no interval is lost or duplicated
    |ls| >= 1 && multiset(Concat(ls)) == multiset(input)
    // an empty input gives one empty layer, any other input only non-empty layers
    && (input == [] ==> ls == [[]])
    && (input != [] ==> forall j :: 0 <= j < |ls| ==> ls[j] != [])
    // each next interval of a layer starts at or after the previous one's end
    && (forall j :: 0 <= j < |ls| ==> Chained(ls[j]))
    // for well-formed intervals, each layer is disjoint and in ascending (start, end) order
    && (AllWellFormed(input) ==>
          forall j :: 0 <= j < |ls| ==> Disjoint(ls[j]) && Sorting.PairwiseSorted(ls[j], LexLe))
    // a layer is closed only when no interval left for later layers could follow it
    && (forall j, k, m :: 0 <= j < k < |ls| && 0 <= m < |ls[k]| && ls[j] != [] ==>
          ls[k][m].start < LastEnd(ls[j]))
    // the input is sorted first: the first layer opens with the least interval
    && (input != [] ==> forall x :: x in input ==> LexLe(ls[0][0], x))
  }

  /** The state of the loop of `split_disjoint`: what is left, the layers so far, the next index. */
  datatype Dealing = Dealing(rest: seq<Interval>, layers: seq<seq<Interval>>, i: nat)

  /**
   * One turn of the loop: take `rest[i]` into the last layer, then
   * `bisect` for the first remaining interval starting at or after its
   * end; open a new layer when there is none.
   */
  function Step(rest: seq<Interval>, layers: seq<seq<Interval>>, i: nat): (d: Dealing)
    requires |layers| >= 1 && i < |rest|
    ensures |d.rest| == |rest| - 1 && multiset(d.rest) + multiset{rest[i]} == multiset(rest)
    ensures |d.layers| >= 1 && (d.rest == [] || d.i < |d.rest|)
  {
    var x := rest[i];
    var rest' := rest[..i] + rest[i + 1..];
    assert rest == rest[..i] + [x] + rest[i + 1..];
    var layers' := layers[|layers| - 1 := layers[|layers| - 1] + [x]];
    var j := Bisect(rest', EndKey(x.end));
    if j >= |rest'| && rest' != [] then Dealing(rest', layers' + [[]], 0)
    else Dealing(rest', layers', j)
  }

  /** The loop of `split_disjoint` run to the end from the state `(rest, layers, i)`. */
  function Deal(rest: seq<Interval>, layers: seq<seq<Interval>>, i: nat): seq<seq<Interval>>
    requires |layers| >= 1 && (rest == [] || i < |rest|)
    decreases |rest|
  {
    if rest == [] then layers
    else
      var d := Step(rest, layers, i);
      Deal(d.rest, d.layers, d.i)
  }

  /** The layers `split_disjoint` deals from `intervals`, once sorted. */
  function Dealt(intervals: seq<Interval>): seq<seq<Interval>> {
    Deal(SortIntervals(intervals), [[]], 0)
  }

  /** `split_disjoint`: the loop itself, which computes `Dealt`. */
  method SplitDisjoint(intervals: seq<Interval>) returns (layers: seq<seq<Interval>>)
    ensures layers == Dealt(intervals)
  {
    var rest := SortIntervals(intervals);
    layers := [[]];
    var i: nat := 0;
    while rest != []
      invariant |layers| >= 1 && (rest == [] || i < |rest|)
      invariant Deal(rest, layers, i) == Dealt(intervals)
      decreases |rest|
    {
      var x := rest[i];
      ghost var next := Step(rest, layers, i);
      rest := rest[..i] + rest[i + 1..];
      layers := layers[|layers| - 1 := layers[|layers| - 1] + [x]];
      i := Bisect(rest, EndKey(x.end));
      if i >= |rest| && rest != [] {
        layers := layers + [[]];
        i := 0;
      }
      assert Dealing(rest, layers, i) == next;
    }
  }

  // The proof that Dealt is a layering: an invariant of the dealing state and one lemma per step.

  /** Facts about the layers built so far that hold whatever remains. */
  ghost predicate LayersOk(layers: seq<seq<Interval>>, wf: bool) {
    (forall j :: 0 <= j < |layers| - 1 ==> layers[j] != [])
    && (forall j :: 0 <= j < |layers| ==> Chained(layers[j]))
    && (wf ==> forall j :: 0 <= j < |layers| ==> AllWellFormed(layers[j]))
    && (wf ==> forall j :: 0 <= j < |layers| ==>
          Disjoint(layers[j]) && Sorting.PairwiseSorted(layers[j], LexLe))
    && (forall j, k, m :: 0 <= j < k < |layers| && 0 <= m < |layers[k]| && layers[j] != [] ==>
          layers[k][m].start < LastEnd(layers[j]))
  }

  /** Facts about the intervals still to be placed. */
  ghost predicate RestOk(layers: seq<seq<Interval>>, rest: seq<Interval>, wf: bool) {
    StartSorted(rest)
    && (wf ==> AllWellFormed(rest))
    && (forall j, y :: 0 <= j < |layers| - 1 && layers[j] != [] && y in rest ==> y.start < LastEnd(layers[j]))
  }

  ghost predicate State(intervals: seq<Interval>, wf: bool, sorted0: seq<Interval>,
                        layers: seq<seq<Interval>>, rest: seq<Interval>, i: nat) {
    |layers| >= 1
    && wf == AllWellFormed(intervals)
    && multiset(sorted0) == multiset(intervals)
    && Sorting.PairwiseSorted(sorted0, LexLe)
    && multiset(Concat(layers)) + multiset(rest) == multiset(intervals)
    && LayersOk(layers, wf)
    && RestOk(layers, rest, wf)
    && (layers[0] == [] ==> |layers| == 1 && rest == sorted0 && i == 0)
    && (layers[0] != [] ==> sorted0 != [] && layers[0][0] == sorted0[0])
    && (layers[|layers| - 1] == [] ==> i == 0 && (rest != [] || intervals == []))
    && (rest != [] ==>
          i < |rest| && (layers[|layers| - 1] != [] ==> LastEnd(layers[|layers| - 1]) <= rest[i].start))
  }

  lemma InitialState(intervals: seq<Interval>, wf: bool, sorted0: seq<Interval>)
    requires wf == AllWellFormed(intervals)
    requires sorted0 == SortIntervals(intervals)
    ensures State(intervals, wf, sorted0, [[]], sorted0, 0)
  {
    var empty: seq<seq<Interval>> := [[]];
    assert Concat(empty) == [];
    if wf {
      forall k | 0 <= k < |sorted0| ensures WellFormed(sorted0[k]) {
        assert sorted0[k] in multiset(intervals);
      }
    }
    if sorted0 == [] {
      assert multiset(intervals) == multiset{};
    }
  }

  /** Laying `x` after the last interval of the last layer. */
  lemma Place(intervals: seq<Interval>, wf: bool, sorted0: seq<Interval>,
              layers: seq<seq<Interval>>, rest: seq<Interval>, i: nat)
    requires State(intervals, wf, sorted0, layers, rest, i)
    requires rest != []
    ensures var x := rest[i];
            var layers' := layers[|layers| - 1 := layers[|layers| - 1] + [x]];
            var rest' := rest[..i] + rest[i + 1..];
            Placed(intervals, wf, sorted0, layers', rest', x)
  {
    var x := rest[i];
    var n := |layers|;
    var layers' := layers[n - 1 := layers[n - 1] + [x]];
    var rest' := rest[..i] + rest[i + 1..];
    PlaceCovers(layers, rest, i);
    PlaceLayers(layers, rest, i, wf);
    if layers[0] != [] {
      assert layers'[0][0] == layers[0][0];
    }
  }

  lemma PlaceCovers(layers: seq<seq<Interval>>, rest: seq<Interval>, i: nat)
    requires |layers| >= 1 && i < |rest|
    ensures var layers' := layers[|layers| - 1 := layers[|layers| - 1] + [rest[i]]];
            multiset(Concat(layers')) + multiset(rest[..i] + rest[i + 1..]) ==
            multiset(Concat(layers)) + multiset(rest)
  {
    var n := |layers|;
    var layers' := layers[n - 1 := layers[n - 1] + [rest[i]]];
    assert rest == rest[..i] + [rest[i]] + rest[i + 1..];
    assert layers'[..n - 1] == layers[..n - 1];
  }

  lemma PlaceLayers(layers: seq<seq<Interval>>, rest: seq<Interval>, i: nat, wf: bool)
    requires |layers| >= 1 && i < |rest|
    requires LayersOk(layers, wf) && RestOk(layers, rest, wf)
    requires layers[|layers| - 1] != [] ==> LastEnd(layers[|layers| - 1]) <= rest[i].start
    ensures var layers' := layers[|layers| - 1 := layers[|layers| - 1] + [rest[i]]];
            LayersOk(layers', wf) && RestOk(layers', rest[..i] + rest[i + 1..], wf)
  {
    var x := rest[i];
    var n := |layers|;
    var last := layers[n - 1];
    var l': seq<Interval> := last + [x];
    var layers': seq<seq<Interval>> := layers[n - 1 := l'];
    assert x in rest;
    assert wf ==> WellFormed(x);
    ExtendLayer(last, x, wf);
    assert forall j :: 0 <= j < n - 1 ==> layers'[j] == layers[j];
    assert forall j :: 0 <= j < n - 1 && layers[j] != [] ==> x.start < LastEnd(layers[j]);
    PlaceKeepsClosed(layers, x);
    assert forall j :: 0 <= j < n - 1 ==> layers'[j] != [];
    assert forall j :: 0 <= j < n ==> Chained(layers'[j]);
    assert wf ==> forall j :: 0 <= j < n ==> AllWellFormed(layers'[j]);
    assert wf ==> forall j :: 0 <= j < n ==> Disjoint(layers'[j]) && Sorting.PairwiseSorted(layers'[j], LexLe);
    RemovePreservesRest(layers', rest, i, wf);
  }

  /** Appending `x` to a layer whose last interval ends at or before `x` starts. */
  lemma ExtendLayer(last: seq<Interval>, x: Interval, wf: bool)
    requires Chained(last) && (last != [] ==> LastEnd(last) <= x.start)
    requires wf ==> WellFormed(x) && AllWellFormed(last) && Disjoint(last) && Sorting.PairwiseSorted(last, LexLe)
    ensures Chained(last + [x])
    ensures wf ==> AllWellFormed(last + [x]) && Disjoint(last + [x]) && Sorting.PairwiseSorted(last + [x], LexLe)
  {
    var l' := last + [x];
    assert forall k :: 0 <= k < |last| ==> l'[k] == last[k];
    if wf {
      assert Disjoint(l') by {
        forall a, b | 0 <= a < b < |l'| ensures l'[a].end <= l'[b].start {
          if b == |l'| - 1 && a < |last| - 1 {
            assert last[a].end <= last[|last| - 1].start;
            assert WellFormed(last[|last| - 1]);
          }
        }
      }
      assert Sorting.PairwiseSorted(l', LexLe) by {
        forall a, b | 0 <= a < b < |l'| ensures LexLe(l'[a], l'[b]) {
          if b == |l'| - 1 {
            assert WellFormed(l'[a]);
          }
        }
      }
    }
  }

  /** Placing `x` in the last layer keeps every closed layer closed to the later ones. */
  lemma PlaceKeepsClosed(layers: seq<seq<Interval>>, x: Interval)
    requires |layers| >= 1
    requires forall j, k, m :: 0 <= j < k < |layers| && 0 <= m < |layers[k]| && layers[j] != [] ==>
               layers[k][m].start < LastEnd(layers[j])
    requires forall j :: 0 <= j < |layers| - 1 && layers[j] != [] ==> x.start < LastEnd(layers[j])
    ensures var layers' := layers[|layers| - 1 := layers[|layers| - 1] + [x]];
            forall j, k, m :: 0 <= j < k < |layers'| && 0 <= m < |layers'[k]| && layers'[j] != [] ==>
              layers'[k][m].start < LastEnd(layers'[j])
  {
    var n := |layers|;
    var last := layers[n - 1];
    var layers': seq<seq<Interval>> := layers[n - 1 := last + [x]];
    forall j, k, m | 0 <= j < k < n && 0 <= m < |layers'[k]| && layers'[j] != []
      ensures layers'[k][m].start < LastEnd(layers'[j])
    {
      assert layers'[j] == layers[j];
      if k == n - 1 && m == |last| {
        assert layers'[k][m] == x;
      } else if k == n - 1 {
        assert layers'[k][m] == layers[k][m];
      }
    }
  }

  lemma RemovePreservesRest(layers: seq<seq<Interval>>, rest: seq<Interval>, i: nat, wf: bool)
    requires i < |rest|
    requires StartSorted(rest) && (wf ==> AllWellFormed(rest))
    requires forall j, y :: 0 <= j < |layers| - 1 && layers[j] != [] && y in rest ==> y.start < LastEnd(layers[j])
    ensures RestOk(layers, rest[..i] + rest[i + 1..], wf)
  {
    var rest' := rest[..i] + rest[i + 1..];
    assert forall a :: 0 <= a < |rest'| ==> rest'[a] == rest[if a < i then a else a + 1];
    assert forall y :: y in rest' ==> y in rest;
  }

  /** State right after `x` has been placed, before the next `bisect`. */
  ghost predicate Placed(intervals: seq<Interval>, wf: bool, sorted0: seq<Interval>,
                         layers: seq<seq<Interval>>, rest: seq<Interval>, x: Interval) {
    |layers| >= 1
    && wf == AllWellFormed(intervals)
    && multiset(sorted0) == multiset(intervals)
    && Sorting.PairwiseSorted(sorted0, LexLe)
    && multiset(Concat(layers)) + multiset(rest) == multiset(intervals)
    && LayersOk(layers, wf)
    && RestOk(layers, rest, wf)
    && layers[0] != [] && sorted0 != [] && layers[0][0] == sorted0[0]
    && layers[|layers| - 1] != [] && LastEnd(layers[|layers| - 1]) == x.end
  }

  /** `bisect` found room in the last layer (or nothing is left). */
  lemma Continue(intervals: seq<Interval>, wf: bool, sorted0: seq<Interval>,
                 layers: seq<seq<Interval>>, rest: seq<Interval>, i: nat)
    requires exists x :: Placed(intervals, wf, sorted0, layers, rest, x) && i == Bisect(rest, EndKey(x.end))
    requires !(i >= |rest| && rest != [])
    ensures State(intervals, wf, sorted0, layers, rest, i)
  {
  }

  /** `bisect` found no room: the last layer is closed and an empty one opened. */
  lemma Close(intervals: seq<Interval>, wf: bool, sorted0: seq<Interval>,
              layers: seq<seq<Interval>>, rest: seq<Interval>, i: nat)
    requires exists x :: Placed(intervals, wf, sorted0, layers, rest, x) && i == Bisect(rest, EndKey(x.end))
    requires i >= |rest| && rest != []
    ensures State(intervals, wf, sorted0, layers + [[]], rest, 0)
  {
    var x :| Placed(intervals, wf, sorted0, layers, rest, x) && i == Bisect(rest, EndKey(x.end));
    var layers' := layers + [[]];
    assert Concat(layers') == Concat(layers) by {
      assert layers'[..|layers|] == layers;
    }
    CloseLayers(layers, rest, wf);
  }

  lemma CloseLayers(layers: seq<seq<Interval>>, rest: seq<Interval>, wf: bool)
    requires |layers| >= 1 && layers[|layers| - 1] != [] && rest != []
    requires LayersOk(layers, wf) && RestOk(layers, rest, wf)
    requires rest[|rest| - 1].start < LastEnd(layers[|layers| - 1])
    ensures LayersOk(layers + [[]], wf) && RestOk(layers + [[]], rest, wf)
  {
    var layers' := layers + [[]];
    var e := LastEnd(layers[|layers| - 1]);
    assert forall y :: y in rest ==> y.start < e by {
      forall y | y in rest ensures y.start < e {
        var m :| 0 <= m < |rest| && rest[m] == y;
        assert rest[m].start <= rest[|rest| - 1].start;
      }
    }
    var n := |layers|;
    assert forall j :: 0 <= j < n ==> layers'[j] == layers[j];
    assert layers'[n] == [];
    assert forall j :: 0 <= j < n ==> layers'[j] != [];
    assert forall j :: 0 <= j < n + 1 ==> Chained(layers'[j]);
    assert wf ==> forall j :: 0 <= j < n + 1 ==> AllWellFormed(layers'[j]);
    assert wf ==> forall j :: 0 <= j < n + 1 ==> Disjoint(layers'[j]) && Sorting.PairwiseSorted(layers'[j], LexLe);
    assert LayersOk(layers', wf);
    assert forall j, y :: 0 <= j < n && layers'[j] != [] && y in rest ==> y.start < LastEnd(layers'[j]);
  }

  lemma Final(intervals: seq<Interval>, wf: bool, sorted0: seq<Interval>,
              layers: seq<seq<Interval>>, i: nat)
    requires State(intervals, wf, sorted0, layers, [], i)
    ensures IsLayering(intervals, layers)
  {
    assert multiset(Concat(layers)) == multiset(intervals);
    assert LayersOk(layers, wf);
    assert forall j :: 0 <= j < |layers| ==> Chained(layers[j]);
    assert wf ==> forall j :: 0 <= j < |layers| ==> Disjoint(layers[j]) && Sorting.PairwiseSorted(layers[j], LexLe);
    if intervals == [] {
      FinalEmpty(intervals, wf, sorted0, layers, i);
    } else {
      FinalFirst(intervals, wf, sorted0, layers, i);
    }
  }

  /** Whatever the loop deals from a state satisfying the invariant is a layering. */
  lemma {:induction false} DealState(intervals: seq<Interval>, wf: bool, sorted0: seq<Interval>,
                                     layers: seq<seq<Interval>>, rest: seq<Interval>, i: nat)
    requires State(intervals, wf, sorted0, layers, rest, i)
    ensures IsLayering(intervals, Deal(rest, layers, i))
    decreases |rest|
  {
    if rest == [] {
      Final(intervals, wf, sorted0, layers, i);
    } else {
      StepState(intervals, wf, sorted0, layers, rest, i);
      var d := Step(rest, layers, i);
      DealState(intervals, wf, sorted0, d.layers, d.rest, d.i);
    }
  }

  /** One turn of the loop keeps the invariant. */
  lemma StepState(intervals: seq<Interval>, wf: bool, sorted0: seq<Interval>,
                  layers: seq<seq<Interval>>, rest: seq<Interval>, i: nat)
    requires State(intervals, wf, sorted0, layers, rest, i) && rest != []
    ensures var d := Step(rest, layers, i); State(intervals, wf, sorted0, d.layers, d.rest, d.i)
  {
    var x := rest[i];
    Place(intervals, wf, sorted0, layers, rest, i);
    var rest' := rest[..i] + rest[i + 1..];
    var layers' := layers[|layers| - 1 := layers[|layers| - 1] + [x]];
    var j := Bisect(rest', EndKey(x.end));
    if j >= |rest'| && rest' != [] {
      Close(intervals, wf, sorted0, layers', rest', j);
    } else {
      Continue(intervals, wf, sorted0, layers', rest', j);
    }
  }

  /** The greedy layers of any intervals satisfy every promise of `IsLayering`. */
  lemma DealtIsLayering(intervals: seq<Interval>)
    ensures IsLayering(intervals, Dealt(intervals))
  {
    InitialState(intervals, AllWellFormed(intervals), SortIntervals(intervals));
    DealState(intervals, AllWellFormed(intervals), SortIntervals(intervals), [[]], SortIntervals(intervals), 0);
  }

  lemma FinalEmpty(intervals: seq<Interval>, wf: bool, sorted0: seq<Interval>,
                   layers: seq<seq<Interval>>, i: nat)
    requires State(intervals, wf, sorted0, layers, [], i) && intervals == []
    ensures layers == [[]]
  {
    assert multiset(Concat(layers)) == multiset{};
    assert |multiset(sorted0)| == 0;
    assert sorted0 == [];
  }

  lemma FinalFirst(intervals: seq<Interval>, wf: bool, sorted0: seq<Interval>,
                   layers: seq<seq<Interval>>, i: nat)
    requires State(intervals, wf, sorted0, layers, [], i) && intervals != []
    ensures forall j :: 0 <= j < |layers| ==> layers[j] != []
    ensures forall x :: x in intervals ==> LexLe(layers[0][0], x)
  {
    assert layers[|layers| - 1] != [];
    assert layers[0][0] == sorted0[0];
    forall x | x in intervals ensures LexLe(sorted0[0], x) {
      assert x in multiset(sorted0);
      var m :| 0 <= m < |sorted0| && sorted0[m] == x;
      if m > 0 { assert LexLe(sorted0[0], sorted0[m]); }
    }
  }
}
