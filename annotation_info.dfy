/**
 * `AnnotationInfo`: the feature index of `annotate.py`.  It maps each
 * chromosome to its unique intervals (split lazily into disjoint layers)
 * and each interval to the set of (name, strand) features sharing it, and
 * turns nearest-interval answers into annotation records.
 */
module Annotate {
  import opened Wrappers
  import opened Intervals
  import opened Layering
  import opened Closest
  import opened Sets

  /** A `(name, strand)` pair attached to an interval. */
  datatype Feature = Feature(name: string, strand: string)

  /** One row of the BED catalog, as the BED reader yields it (`chromEnd` exclusive). */
  datatype BedRecord = BedRecord(chrom: string, chromStart: int, chromEnd: int, name: string, strand: string)

  /** One output row: the fields of `OUTPUT_FIELDS`. */
  datatype Record = Record(
    chrom: string, pos: int, name: string, start: int, end: int, strand: string,
    tssD: int,          // distance from the transcription start site
    relPos: int,        // -1 upstream, 0 in gene, 1 downstream
    integration: real)  // position inside the feature, percent of its length from the TSS

  /** The two dicts `interval_info` (before splitting) and `add_info`. */
  datatype Index = Index(intervals: map<string, seq<Interval>>, features: map<string, map<Interval, set<Feature>>>)

  /** The inclusive interval of a BED row. */
  function ToInterval(r: BedRecord): Interval {
    Interval(r.chromStart, r.chromEnd - 1)
  }

  /** The features registered under `iv` on `chrom`, none when either key is missing. */
  function FeaturesOf(ix: Index, chrom: string, iv: Interval): set<Feature> {
    if chrom in ix.features && iv in ix.features[chrom] then ix.features[chrom][iv] else {}
  }

  /** One iteration of the loop of `load_from_bed`. */
  function LoadRecord(ix: Index, r: BedRecord): Index {
    var iv := ToInterval(r);
    var subd := if r.chrom in ix.features then ix.features[r.chrom] else map[];
    var intervals :=
      if iv in subd then ix.intervals
      else ix.intervals[r.chrom := (if r.chrom in ix.intervals then ix.intervals[r.chrom] else []) + [iv]];
    var feats := (if iv in subd then subd[iv] else {}) + {Feature(r.name, r.strand)};
    Index(intervals, ix.features[r.chrom := subd[iv := feats]])
  }

  /** The whole loop of `load_from_bed` over the rows `rs`. */
  function LoadRecords(ix: Index, rs: seq<BedRecord>): Index {
    if rs == [] then ix else LoadRecord(LoadRecords(ix, rs[..|rs| - 1]), rs[|rs| - 1])
  }

  predicate NoDuplicates<T(==)>(s: seq<T>) {
    forall a, b :: 0 <= a < b < |s| ==> s[a] != s[b]
  }

  /**
   * The two dicts agree: the same chromosomes, and each chromosome's list
   * holds every interval that has features registered, exactly once.
   */
  ghost predicate Coherent(ix: Index) {
    ix.intervals.Keys == ix.features.Keys &&
    forall c :: c in ix.intervals ==>
      NoDuplicates(ix.intervals[c]) &&
      forall iv :: iv in ix.intervals[c] <==> iv in ix.features[c]
  }

  lemma LoadRecordCoherent(ix: Index, r: BedRecord)
    requires Coherent(ix)
    ensures Coherent(LoadRecord(ix, r))
  {
    var iv := ToInterval(r);
    var ix' := LoadRecord(ix, r);
    if r.chrom in ix.features && iv !in ix.features[r.chrom] {
      var l := ix.intervals[r.chrom];
      assert iv !in l;
      assert NoDuplicates(l + [iv]);
    }
  }

  /** Loading keeps the dicts coherent; in particular loading into empty dicts makes them so. */
  lemma {:induction false} LoadCoherent(ix: Index, rs: seq<BedRecord>)
    requires Coherent(ix)
    ensures Coherent(LoadRecords(ix, rs))
  {
    if rs != [] {
      LoadCoherent(ix, rs[..|rs| - 1]);
      LoadRecordCoherent(LoadRecords(ix, rs[..|rs| - 1]), rs[|rs| - 1]);
    }
  }

  /** One more row loaded into `before`, the index after the rows before it. */
  lemma LoadStep(ix: Index, rs: seq<BedRecord>, k: nat, before: Index, after: Index)
    requires k < |rs| && before == LoadRecords(ix, rs[..k]) && after == LoadRecord(before, rs[k])
    ensures after == LoadRecords(ix, rs[..k + 1])
  {
    assert rs[..k + 1][..k] == rs[..k];
  }

  /** The features of the rows of `rs` that lie on `chrom` at `iv`. */
  function RowFeatures(rs: seq<BedRecord>, chrom: string, iv: Interval): set<Feature> {
    set r | r in rs && r.chrom == chrom && ToInterval(r) == iv :: Feature(r.name, r.strand)
  }

  /** The (name, strand) that row `r` adds to `iv` on `chrom`. */
  function RowFeature(r: BedRecord, chrom: string, iv: Interval): set<Feature> {
    if r.chrom == chrom && ToInterval(r) == iv then {Feature(r.name, r.strand)} else {}
  }

  lemma LoadRecordFeatures(ix: Index, r: BedRecord, chrom: string, iv: Interval)
    ensures FeaturesOf(LoadRecord(ix, r), chrom, iv) == FeaturesOf(ix, chrom, iv) + RowFeature(r, chrom, iv)
    ensures var ix' := LoadRecord(ix, r);
            (chrom in ix'.features && iv in ix'.features[chrom]) <==>
            (chrom in ix.features && iv in ix.features[chrom]) || (r.chrom == chrom && ToInterval(r) == iv)
  {
  }

  lemma RowFeaturesSnoc(init: seq<BedRecord>, last: BedRecord, chrom: string, iv: Interval)
    ensures RowFeatures(init + [last], chrom, iv) == RowFeatures(init, chrom, iv) + RowFeature(last, chrom, iv)
  {
    var rs := init + [last];
    forall f | f in RowFeatures(rs, chrom, iv)
      ensures f in RowFeatures(init, chrom, iv) + RowFeature(last, chrom, iv)
    {
      var r :| r in rs && r.chrom == chrom && ToInterval(r) == iv && f == Feature(r.name, r.strand);
      if r != last { assert r in init; }
    }
  }

  /**
   * After loading, the features of an interval are those it had plus the
   * (name, strand) of every row mapped to it; an interval is a key of its
   * chromosome's dict iff it was one before or some row maps to it.
   */
  lemma {:induction false} LoadedFeatures(ix: Index, rs: seq<BedRecord>, chrom: string, iv: Interval)
    ensures FeaturesOf(LoadRecords(ix, rs), chrom, iv) == FeaturesOf(ix, chrom, iv) + RowFeatures(rs, chrom, iv)
    ensures var ix' := LoadRecords(ix, rs);
            (chrom in ix'.features && iv in ix'.features[chrom]) <==>
            (chrom in ix.features && iv in ix.features[chrom]) || exists r :: r in rs && r.chrom == chrom && ToInterval(r) == iv
  {
    if rs != [] {
      var init := rs[..|rs| - 1];
      var last := rs[|rs| - 1];
      assert rs == init + [last];
      LoadedFeatures(ix, init, chrom, iv);
      LoadRecordFeatures(LoadRecords(ix, init), last, chrom, iv);
      RowFeaturesSnoc(init, last, chrom, iv);
      if exists r :: r in rs && r.chrom == chrom && ToInterval(r) == iv {
        var r :| r in rs && r.chrom == chrom && ToInterval(r) == iv;
        if r != last { assert r in init; }
      }
    }
  }

  function Abs(x: int): nat {
    if x < 0 then -x else x
  }

  /** The transcription start site: `start` on the `+` strand, `end` otherwise. */
  function Tss(iv: Interval, strand: string): int {
    if strand == "+" then iv.start else iv.end
  }

  /** Whether the division by the feature length in the in-gene branch is defined. */
  predicate Divisible(d: int, iv: Interval) {
    d != 0 || iv.end - iv.start != 0
  }

  /** The record for feature `f` on candidate `iv` at distance `d`, when no division by zero occurs. */
  function BuildRecord(chrom: string, pos: int, d: int, iv: Interval, f: Feature): Record
    requires Divisible(d, iv)
  {
    var length := iv.end - iv.start;
    var tssD := Abs(pos - Tss(iv, f.strand));
    if d == 0 then
      Record(chrom, pos, f.name, iv.start, iv.end, f.strand, tssD, 0, 100.0 * (tssD as real) / (length as real))
    else
      var rel := if (f.strand == "+" && pos < iv.start) || (f.strand == "-" && pos > iv.end) then -1 else 1;
      Record(chrom, pos, f.name, iv.start, iv.end, f.strand, tssD, rel, 0.0)
  }

  /**
   * In-gene: the relative position is 0 and the integration percentage,
   * measured from the TSS, lies between 0 and 100.
   */
  lemma InGeneRecord(chrom: string, pos: int, iv: Interval, f: Feature)
    requires iv.start <= pos <= iv.end && iv.start < iv.end
    ensures Divisible(0, iv)
    ensures var r := BuildRecord(chrom, pos, 0, iv, f);
            r.relPos == 0 && 0 <= r.tssD <= iv.end - iv.start &&
            0.0 <= r.integration <= 100.0 &&
            r.integration * ((iv.end - iv.start) as real) == 100.0 * (r.tssD as real)
  {
    var r := BuildRecord(chrom, pos, 0, iv, f);
    var len := (iv.end - iv.start) as real;
    var t := r.tssD as real;
    assert r.integration == 100.0 * t / len;
    PercentBounds(t, len);
  }

  /** `100 * t / len` lies between 0 and 100 for `0 <= t <= len`, and times `len` gives back `100 * t`. */
  lemma PercentBounds(t: real, len: real)
    requires 0.0 <= t <= len && len > 0.0
    ensures 0.0 <= 100.0 * t / len <= 100.0
    ensures (100.0 * t / len) * len == 100.0 * t
  {
    var q := 100.0 * t / len;
    assert q * len == 100.0 * t;
  }

  /**
   * Outside the feature, at its distance `d > 0`: nothing is integrated,
   * and the TSS distance is `d` upstream (the site lies before the TSS
   * in the direction of the strand) and `d` plus the length downstream.
   */
  lemma OutsideRecord(chrom: string, pos: int, d: int, iv: Interval, f: Feature)
    requires WellFormed(iv) && d > 0 && d == Dist(iv, pos)
    ensures Divisible(d, iv)
    ensures var r := BuildRecord(chrom, pos, d, iv, f);
            r.integration == 0.0 &&
            (r.relPos == -1 || r.relPos == 1) &&
            (r.relPos == -1 <==>
               (f.strand == "+" && pos < iv.start) || (f.strand == "-" && pos > iv.end)) &&
            (f.strand != "+" && f.strand != "-" ==> r.relPos == 1) &&
            (r.relPos == -1 ==> r.tssD == d) &&
            (r.relPos == 1 && (f.strand == "+" || f.strand == "-") ==> r.tssD == d + (iv.end - iv.start))
  {
  }

  /** The records of one candidate interval, or the error its lookup or division raises. */
  function CandidateRecords(chrom: string, pos: int, d: int, iv: Interval,
                            features: map<string, map<Interval, set<Feature>>>): Result<multiset<Record>, PyError>
  {
    if chrom !in features || iv !in features[chrom] then Failure(KeyError)
    else FeatureRecords(chrom, pos, d, iv, features[chrom][iv])
  }

  /** The records of the features `fs` of candidate `iv`, or the division error. */
  function FeatureRecords(chrom: string, pos: int, d: int, iv: Interval, fs: set<Feature>): Result<multiset<Record>, PyError> {
    if fs == {} then Success(multiset{})
    else if !Divisible(d, iv) then Failure(ZeroDivisionError)
    else Success(multiset(Image(chrom, pos, d, iv, fs)))
  }

  /** The records of all candidates, in order; the first failing candidate decides the error. */
  function AllRecords(chrom: string, pos: int, d: int, cands: seq<Interval>,
                      features: map<string, map<Interval, set<Feature>>>): Result<multiset<Record>, PyError>
  {
    if cands == [] then Success(multiset{})
    else
      var init := AllRecords(chrom, pos, d, cands[..|cands| - 1], features);
      if init.Failure? then init
      else
        var last := CandidateRecords(chrom, pos, d, cands[|cands| - 1], features);
        if last.Failure? then last else Success(init.value + last.value)
  }

  /** Each feature yields its own record: the record carries the feature's name and strand. */
  lemma ImageAdd(chrom: string, pos: int, d: int, iv: Interval, done: set<Feature>, f: Feature)
    requires Divisible(d, iv) && f !in done
    ensures multiset(Image(chrom, pos, d, iv, done + {f})) ==
            multiset(Image(chrom, pos, d, iv, done)) + multiset{BuildRecord(chrom, pos, d, iv, f)}
  {
    var img := Image(chrom, pos, d, iv, done);
    var y := BuildRecord(chrom, pos, d, iv, f);
    assert Image(chrom, pos, d, iv, done + {f}) == img + {y};
    assert y !in img;
  }

  /** The annotation record of a concrete in-gene site and of an upstream one. */
  lemma RecordExamples()
    ensures BuildRecord("chr1", 3, 0, Interval(1, 5), Feature("F1", "+")) ==
            Record("chr1", 3, "F1", 1, 5, "+", 2, 0, 50.0)
    ensures BuildRecord("chr1", 0, 1, Interval(1, 5), Feature("F1", "+")) ==
            Record("chr1", 0, "F1", 1, 5, "+", 1, -1, 0.0)
    ensures BuildRecord("chr1", 7, 1, Interval(8, 10), Feature("F13", "-")) ==
            Record("chr1", 7, "F13", 8, 10, "-", 3, 1, 0.0)
  {
  }

  /** The least element of a non-empty set of distances (`min(ranking)`). */
  method MinKey(keys: set<int>) returns (m: int)
    requires keys != {}
    ensures m in keys && forall k :: k in keys ==> m <= k
  {
    m := Pick(keys);
    var todo := keys - {m};
    while todo != {}
      invariant todo <= keys && m in keys
      invariant forall k :: k in keys && k !in todo ==> m <= k
      decreases todo
    {
      var k := Pick(todo);
      if k < m {
        m := k;
      }
      todo := todo - {k};
    }
  }

  /**
   * One iteration of the loop of `load_from_bed` on the two dicts: the
   * interval is appended to its chromosome's list when the chromosome has
   * no features on it yet, and the row's (name, strand) joins its set.
   */
  method LoadRow(intervals: map<string, seq<Interval>>, features: map<string, map<Interval, set<Feature>>>, r: BedRecord)
    returns (intervals': map<string, seq<Interval>>, features': map<string, map<Interval, set<Feature>>>)
    ensures Index(intervals', features') == LoadRecord(Index(intervals, features), r)
  {
    var iv := Interval(r.chromStart, r.chromEnd - 1);
    var subd := if r.chrom in features then features[r.chrom] else map[];
    intervals' := intervals;
    if iv !in subd {
      var l := if r.chrom in intervals then intervals[r.chrom] else [];
      intervals' := intervals[r.chrom := l + [iv]];
    }
    var feats := if iv in subd then subd[iv] else {};
    features' := features[r.chrom := subd[iv := feats + {Feature(r.name, r.strand)}]];
  }

  /**
   * The annotation index.  `intervalInfo` and `addInfo` are the two dicts
   * filled by loading; `layers` holds what splitting puts in place of each
   * chromosome's interval list.
   */
  class AnnotationInfo {
    var intervalInfo: map<string, seq<Interval>>
    var layers: map<string, seq<seq<Interval>>>
    var addInfo: map<string, map<Interval, set<Feature>>>
    var loaded: bool
    var split: bool

    /** Once split, every chromosome's layers are those `split_disjoint` deals from its intervals. */
    ghost predicate Valid()
      reads this
    {
      split ==>
        layers.Keys == intervalInfo.Keys &&
        forall c :: c in layers ==> layers[c] == Dealt(intervalInfo[c])
    }

    function Contents(): Index
      reads this
    {
      Index(intervalInfo, addInfo)
    }

    /** The index counts as loaded when both dicts are given non-empty. */
    constructor (intervalInfo: map<string, seq<Interval>>, addInfo: map<string, map<Interval, set<Feature>>>)
      ensures Valid()
      ensures this.intervalInfo == intervalInfo && this.addInfo == addInfo && layers == map[]
      ensures loaded == (|intervalInfo| > 0 && |addInfo| > 0) && !split
    {
      this.intervalInfo := intervalInfo;
      this.addInfo := addInfo;
      layers := map[];
      loaded := |intervalInfo| > 0 && |addInfo| > 0;
      split := false;
    }

    /**
     * Load the BED rows `records`, once: an interval is appended to its
     * chromosome's list the first time it is seen, and every row adds its
     * (name, strand) to the interval's feature set.
     */
    method LoadFromBed(records: seq<BedRecord>)
      requires Valid() && (loaded || !split)
      modifies this
      ensures Valid() && loaded
      ensures old(loaded) ==> Contents() == old(Contents())
      ensures !old(loaded) ==> Contents() == LoadRecords(old(Contents()), records)
      ensures split == old(split) && layers == old(layers)
    {
      if loaded {
        return;
      }
      ghost var ix0 := Contents();
      var k: nat := 0;
      while k < |records|
        invariant k <= |records|
        invariant Contents() == LoadRecords(ix0, records[..k])
        invariant split == old(split) && layers == old(layers) && !loaded
      {
        var newIntervals, newFeatures := LoadRow(intervalInfo, addInfo, records[k]);
        LoadStep(ix0, records, k, Contents(), Index(newIntervals, newFeatures));
        intervalInfo, addInfo := newIntervals, newFeatures;
        assert Contents() == LoadRecords(ix0, records[..k + 1]);
        k := k + 1;
        assert Contents() == LoadRecords(ix0, records[..k]);
      }
      assert records[..k] == records;
      loaded := true;
    }

    /** Replace each chromosome's intervals by their disjoint layers, once. */
    method SplitAll()
      requires Valid()
      modifies this
      ensures Valid() && split
      ensures old(split) ==> layers == old(layers)
      ensures intervalInfo == old(intervalInfo) && addInfo == old(addInfo) && loaded == old(loaded)
    {
      if split {
        return;
      }
      var todo := intervalInfo.Keys;
      layers := map[];
      while todo != {}
        invariant todo <= intervalInfo.Keys
        invariant layers.Keys == intervalInfo.Keys - todo
        invariant forall c :: c in layers ==> layers[c] == Dealt(intervalInfo[c])
        invariant intervalInfo == old(intervalInfo) && addInfo == old(addInfo) && loaded == old(loaded)
        decreases todo
      {
        var c := Pick(todo);
        var ls := SplitDisjoint(intervalInfo[c]);
        layers := layers[c := ls];
        todo := todo - {c};
      }
      split := true;
    }

    /**
     * Split if needed, then gather the closest intervals of `chrom` across
     * its layers.  Over well-formed intervals the answer is the distance to
     * the nearest interval of the chromosome, with candidates at exactly
     * that distance.
     */
    method FindClosest(chrom: string, pos: int) returns (r: Result<Closest, PyError>)
      requires Valid()
      modifies this
      ensures Valid() && split
      ensures old(split) ==> layers == old(layers)
      ensures intervalInfo == old(intervalInfo) && addInfo == old(addInfo) && loaded == old(loaded)
      ensures chrom !in intervalInfo ==> r == Failure(KeyError)
      ensures chrom in intervalInfo ==> r == ClosestAcross(layers[chrom], pos)
      ensures chrom in intervalInfo && intervalInfo[chrom] != [] && AllWellFormed(intervalInfo[chrom]) ==>
                r.Success? && r.value.d >= 0 && r.value.candidates != [] &&
                (forall x :: x in r.value.candidates ==> x in intervalInfo[chrom] && Dist(x, pos) == r.value.d) &&
                (forall x :: x in intervalInfo[chrom] ==> r.value.d <= Dist(x, pos))
    {
      SplitAll();
      if chrom !in layers {
        return Failure(KeyError);
      }
      r := Rank(layers[chrom], pos);
      if intervalInfo[chrom] != [] && AllWellFormed(intervalInfo[chrom]) {
        DealtIsLayering(intervalInfo[chrom]);
        NearestAcrossLayers(intervalInfo[chrom], layers[chrom], pos);
      }
    }

    /**
     * The records of the features on the closest intervals of `chrom`.
     * With `multi` all of them, in some order; otherwise one of them,
     * the one at index `choice` modulo their number, standing in for the
     * random sample (which fails on an empty list).
     */
    method Annotate(chrom: string, pos: int, multi: bool, choice: nat) returns (r: Result<seq<Record>, PyError>)
      requires Valid()
      modifies this
      ensures Valid() && split
      ensures old(split) ==> layers == old(layers)
      ensures intervalInfo == old(intervalInfo) && addInfo == old(addInfo) && loaded == old(loaded)
      ensures AnnotateOutcome(if chrom in intervalInfo then ClosestAcross(layers[chrom], pos) else Failure(KeyError),
                              chrom, pos, addInfo, multi, r)
    {
      var c := FindClosest(chrom, pos);
      if c.Failure? {
        return Failure(c.error);
      }
      r := CollectRecords(chrom, pos, c.value.d, c.value.candidates, addInfo);
      if r.Success? && !multi {
        if r.value == [] {
          return Failure(ValueError);
        }
        r := Success([r.value[choice % |r.value|]]);
      }
    }
  }

  /**
   * What `annotate` yields from the closest-interval answer `c`: its
   * error, the first lookup or division error among the candidates, or
   * the records (all of them, or exactly one of them).
   */
  ghost predicate AnnotateOutcome(c: Result<Closest, PyError>, chrom: string, pos: int,
                                  features: map<string, map<Interval, set<Feature>>>, multi: bool,
                                  r: Result<seq<Record>, PyError>)
  {
    match c
    case Failure(e) => r == Failure(e)
    case Success(cl) =>
      var all := AllRecords(chrom, pos, cl.d, cl.candidates, features);
      if all.Failure? then r == Failure(all.error)
      else if multi then r.Success? && multiset(r.value) == all.value
      else if all.value == multiset{} then r == Failure(ValueError)
      else r.Success? && |r.value| == 1 && r.value[0] in all.value
  }

  /** The records of the features registered on `iv`. */
  function Image(chrom: string, pos: int, d: int, iv: Interval, fs: set<Feature>): set<Record>
    requires Divisible(d, iv)
  {
    set f | f in fs :: BuildRecord(chrom, pos, d, iv, f)
  }

  /**
   * The nested loops of `annotate`: every candidate, every feature of it,
   * in order of candidates; the first failing lookup or division ends them.
   */
  method CollectRecords(chrom: string, pos: int, d: int, cands: seq<Interval>,
                        features: map<string, map<Interval, set<Feature>>>) returns (r: Result<seq<Record>, PyError>)
    ensures var all := AllRecords(chrom, pos, d, cands, features);
            (all.Failure? ==> r == Failure(all.error)) &&
            (all.Success? ==> r.Success? && multiset(r.value) == all.value)
  {
    var results: seq<Record> := [];
    var k: nat := 0;
    while k < |cands|
      invariant k <= |cands|
      invariant AllRecords(chrom, pos, d, cands[..k], features) == Success(multiset(results))
    {
      var iv := cands[k];
      if chrom !in features || iv !in features[chrom] {
        FirstFailure(chrom, pos, d, cands, features, k);
        return Failure(KeyError);
      }
      var more := CollectFeatures(chrom, pos, d, iv, features[chrom][iv]);
      if more.Failure? {
        FirstFailure(chrom, pos, d, cands, features, k);
        return more;
      }
      AllRecordsSnoc(chrom, pos, d, cands, features, k);
      results := results + more.value;
      k := k + 1;
    }
    assert cands[..k] == cands;
    r := Success(results);
  }

  /** The inner loop of `annotate`: one record per feature of candidate `iv`. */
  method CollectFeatures(chrom: string, pos: int, d: int, iv: Interval, fs: set<Feature>)
    returns (r: Result<seq<Record>, PyError>)
    ensures var e := FeatureRecords(chrom, pos, d, iv, fs);
            (e.Failure? ==> r == Failure(e.error)) &&
            (e.Success? ==> r.Success? && multiset(r.value) == e.value)
  {
    var results: seq<Record> := [];
    var todo := fs;
    while todo != {}
      invariant todo <= fs
      invariant todo == fs ==> results == []
      invariant todo != fs ==> Divisible(d, iv) && multiset(results) == multiset(Image(chrom, pos, d, iv, fs - todo))
      decreases todo
    {
      var f := Pick(todo);
      if d == 0 && iv.end - iv.start == 0 {
        return Failure(ZeroDivisionError);
      }
      var rec := BuildRecord(chrom, pos, d, iv, f);
      ImageAdd(chrom, pos, d, iv, fs - todo, f);
      assert fs - todo + {f} == fs - (todo - {f});
      results := results + [rec];
      todo := todo - {f};
    }
    if fs != {} {
      assert fs - todo == fs;
    }
    r := Success(results);
  }

  lemma AllRecordsSnoc(chrom: string, pos: int, d: int, cands: seq<Interval>,
                       features: map<string, map<Interval, set<Feature>>>, k: nat)
    requires k < |cands| && AllRecords(chrom, pos, d, cands[..k], features).Success?
    requires CandidateRecords(chrom, pos, d, cands[k], features).Success?
    ensures AllRecords(chrom, pos, d, cands[..k + 1], features) ==
            Success(AllRecords(chrom, pos, d, cands[..k], features).value + CandidateRecords(chrom, pos, d, cands[k], features).value)
  {
    assert cands[..k + 1][..k] == cands[..k];
  }

  /** The first failing candidate decides the failure of all of them. */
  lemma {:induction false} FirstFailure(chrom: string, pos: int, d: int, cands: seq<Interval>,
                                        features: map<string, map<Interval, set<Feature>>>, k: nat)
    requires k < |cands|
    requires AllRecords(chrom, pos, d, cands[..k], features).Success?
    requires CandidateRecords(chrom, pos, d, cands[k], features).Failure?
    ensures AllRecords(chrom, pos, d, cands, features) == CandidateRecords(chrom, pos, d, cands[k], features)
  {
    assert cands[..k + 1][..k] == cands[..k];
    PrefixFailure(chrom, pos, d, cands, features, k + 1);
  }

  lemma {:induction false} PrefixFailure(chrom: string, pos: int, d: int, cands: seq<Interval>,
                                         features: map<string, map<Interval, set<Feature>>>, k: nat)
    requires k <= |cands|
    requires AllRecords(chrom, pos, d, cands[..k], features).Failure?
    ensures AllRecords(chrom, pos, d, cands, features) == AllRecords(chrom, pos, d, cands[..k], features)
    decreases |cands| - k
  {
    if k < |cands| {
      assert cands[..k + 1][..k] == cands[..k];
      PrefixFailure(chrom, pos, d, cands, features, k + 1);
    } else {
      assert cands[..k] == cands;
    }
  }

  /** `get_annotation_info`: load the rows into an empty index and split it. */
  method GetAnnotationInfo(records: seq<BedRecord>) returns (ai: AnnotationInfo)
    ensures fresh(ai) && ai.Valid() && ai.loaded && ai.split
    ensures ai.Contents() == LoadRecords(Index(map[], map[]), records)
    ensures Coherent(ai.Contents())
  {
    ai := new AnnotationInfo(map[], map[]);
    ai.LoadFromBed(records);
    ai.SplitAll();
    LoadCoherent(Index(map[], map[]), records);
  }

  /**
   * The `ranking` loop of `find_closest`: each layer's distance collects
   * that layer's candidates, and the least distance wins.
   */
  method Rank(ls: seq<seq<Interval>>, pos: int) returns (r: Result<Closest, PyError>)
    ensures r == ClosestAcross(ls, pos)
  {
    var ranking: map<int, seq<Interval>> := map[];
    ghost var rs: seq<Closest> := [];
    var j: nat := 0;
    while j < |ls|
      invariant j <= |ls| && RankState(ls, pos, rs, ranking, j)
    {
      if ls[j] == [] {
        return Failure(IndexError);
      }
      var c := FindClosestOnDisjoint(ls[j], pos);
      RankStep(ls, pos, rs, ranking, j, c);
      ranking := ranking[c.d := (if c.d in ranking then ranking[c.d] else []) + c.candidates];
      rs := rs + [c];
      j := j + 1;
    }
    RankDone(ls, pos, rs, ranking);
    if ranking == map[] {
      return Failure(ValueError);
    }
    var m := MinKey(ranking.Keys);
    RankMin(ls, pos, rs, ranking, m);
    r := Success(Closest(m, ranking[m]));
  }

  /** After `j` layers: `rs` holds their answers and `ranking` groups their candidates by distance. */
  ghost predicate RankState(ls: seq<seq<Interval>>, pos: int, rs: seq<Closest>, ranking: map<int, seq<Interval>>, j: nat) {
    j <= |ls| && |rs| == j &&
    (forall k :: 0 <= k < j ==> ls[k] != [] && rs[k] == FindClosestOnDisjoint(ls[k], pos)) &&
    (forall d :: d in ranking <==> exists k :: 0 <= k < j && rs[k].d == d) &&
    (forall d :: d in ranking ==> ranking[d] == Gather(rs, d))
  }

  lemma RankStep(ls: seq<seq<Interval>>, pos: int, rs: seq<Closest>, ranking: map<int, seq<Interval>>, j: nat, c: Closest)
    requires RankState(ls, pos, rs, ranking, j) && j < |ls| && ls[j] != [] && c == FindClosestOnDisjoint(ls[j], pos)
    ensures RankState(ls, pos, rs + [c], ranking[c.d := (if c.d in ranking then ranking[c.d] else []) + c.candidates], j + 1)
  {
    GatherSnoc(rs, c);
    var rs' := rs + [c];
    var ranking' := ranking[c.d := (if c.d in ranking then ranking[c.d] else []) + c.candidates];
    forall d ensures d in ranking' <==> exists k :: 0 <= k < j + 1 && rs'[k].d == d {
      if d in ranking && d != c.d {
        var k :| 0 <= k < j && rs[k].d == d;
        assert rs'[k].d == d;
      }
      if exists k :: 0 <= k < j + 1 && rs'[k].d == d {
        var k :| 0 <= k < j + 1 && rs'[k].d == d;
        if k < j { assert rs[k].d == d; }
      }
    }
    if c.d !in ranking {
      assert Gather(rs, c.d) == [] by {
        GatheredEmpty(rs, c.d);
      }
    }
  }

  lemma {:induction false} GatheredEmpty(rs: seq<Closest>, d: int)
    requires forall k :: 0 <= k < |rs| ==> rs[k].d != d
    ensures Gather(rs, d) == []
  {
    if rs != [] {
      GatheredEmpty(rs[..|rs| - 1], d);
    }
  }

  lemma RankDone(ls: seq<seq<Interval>>, pos: int, rs: seq<Closest>, ranking: map<int, seq<Interval>>)
    requires RankState(ls, pos, rs, ranking, |ls|)
    ensures ls != [] ==> rs == LayerResults(ls, pos)
    ensures ranking == map[] <==> ls == []
    ensures ls == [] ==> ClosestAcross(ls, pos) == Failure(ValueError)
  {
    if ls != [] {
      assert rs[0].d in ranking;
    } else {
      forall d ensures d !in ranking {
      }
    }
  }

  lemma RankMin(ls: seq<seq<Interval>>, pos: int, rs: seq<Closest>, ranking: map<int, seq<Interval>>, m: int)
    requires RankState(ls, pos, rs, ranking, |ls|) && ls != []
    requires m in ranking && forall k :: k in ranking ==> m <= k
    ensures ClosestAcross(ls, pos) == Success(Closest(m, ranking[m]))
  {
    RankDone(ls, pos, rs, ranking);
    forall k | 0 <= k < |rs| ensures m <= rs[k].d {
      assert rs[k].d in ranking;
    }
    MinIsMinDistance(rs, m);
  }

  lemma GatherSnoc(rs: seq<Closest>, c: Closest)
    ensures forall d :: Gather(rs + [c], d) == Gather(rs, d) + (if c.d == d then c.candidates else [])
  {
    assert (rs + [c])[..|rs|] == rs;
  }

  lemma MinIsMinDistance(rs: seq<Closest>, m: int)
    requires rs != []
    requires (exists k :: 0 <= k < |rs| && rs[k].d == m) && forall k :: 0 <= k < |rs| ==> m <= rs[k].d
    ensures MinDistance(rs) == m
  {
  }
}
