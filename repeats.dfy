/**
 * `repeats.py`: decide from a query's BLAST hits whether it maps to a
 * repeated region.  Hits arrive already parsed: the query start and end
 * columns as integers and the score column as a real.
 */
module Repeats {
  import opened Wrappers
  import opened Sorting

  /** The fields of a tabular BLAST hit that the rules read. */
  datatype Hit = Hit(qStart: int, qEnd: int, score: real)

  /** `is_repeat`'s three answers: `None`, `False` and `True`. */
  datatype Verdict = NoMatch | NotRepeat | Repeat

  function RealAbs(x: real): real {
    if x < 0.0 then -x else x
  }

  /** `al2seq`: the aligned fraction of the query, `|q_start - q_end| / seq_len`. */
  function Al2Seq(h: Hit, seqLen: int): real
    requires seqLen != 0
  {
    RealAbs((h.qStart - h.qEnd) as real) / (seqLen as real)
  }

  /** The aligned fraction does not depend on the direction of the alignment, and is never negative. */
  lemma Al2SeqSymmetric(qStart: int, qEnd: int, score: real, seqLen: int)
    requires seqLen > 0
    ensures Al2Seq(Hit(qStart, qEnd, score), seqLen) == Al2Seq(Hit(qEnd, qStart, score), seqLen)
    ensures Al2Seq(Hit(qStart, qEnd, score), seqLen) >= 0.0
    ensures Al2Seq(Hit(qStart, qEnd, score), seqLen) == 0.0 <==> qStart == qEnd
  {
  }

  /** The order of `sort(key=score, reverse=True)`. */
  function ScoreGe(a: Hit, b: Hit): bool {
    a.score >= b.score
  }

  /** The rules applied to hits sorted by decreasing score; ZeroDivisionError for an empty query. */
  function Classify(seqLen: int, hits: seq<Hit>, minAl2Seq: real, minScoreDiff: real): Result<Verdict, PyError> {
    if |hits| == 0 then Success(NoMatch)
    else if |hits| == 1 then Success(NotRepeat)
    else if seqLen == 0 then Failure(ZeroDivisionError)
    else if RealAbs(Al2Seq(hits[0], seqLen) - Al2Seq(hits[1], seqLen)) <= minAl2Seq then Success(Repeat)
    else if hits[0].score - hits[1].score <= minScoreDiff then Success(Repeat)
    else Success(NotRepeat)
  }

  /**
   * `is_repeat`: sort the caller's hits in place by decreasing score,
   * then classify by the two best.
   */
  method IsRepeat(seqLen: int, hits: array<Hit>, minAl2Seq: real, minScoreDiff: real) returns (r: Result<Verdict, PyError>)
    modifies hits
    ensures hits[..] == SortBy(old(hits[..]), ScoreGe)
    ensures multiset(hits[..]) == multiset(old(hits[..]))
    ensures forall i, j :: 0 <= i < j < hits.Length ==> hits[i].score >= hits[j].score
    ensures r == Classify(seqLen, hits[..], minAl2Seq, minScoreDiff)
  {
    var sorted := SortBy(hits[..], ScoreGe);
    SortedIsPairwise(sorted, ScoreGe);
    forall i | 0 <= i < hits.Length {
      hits[i] := sorted[i];
    }
    assert hits[..] == sorted;
    if hits.Length == 0 {
      return Success(NoMatch);
    }
    var r1 := hits[0];
    if hits.Length == 1 {
      return Success(NotRepeat);
    }
    var r2 := hits[1];
    if seqLen == 0 {
      return Failure(ZeroDivisionError);
    }
    if RealAbs(Al2Seq(r1, seqLen) - Al2Seq(r2, seqLen)) <= minAl2Seq {
      return Success(Repeat);
    }
    if r1.score - r2.score <= minScoreDiff {
      return Success(Repeat);
    }
    return Success(NotRepeat);
  }

  /**
   * On hits sorted by decreasing score, the first is a best hit, and the
   * score gap to the runner-up is never negative; so a query whose two
   * best hits score alike is always a repeat when the gap allowed is not negative.
   */
  lemma SortedTopHits(hits: seq<Hit>, seqLen: int, minAl2Seq: real, minScoreDiff: real)
    requires |hits| >= 2 && seqLen != 0
    ensures var s := SortBy(hits, ScoreGe);
            (forall h :: h in hits ==> s[0].score >= h.score) &&
            s[0].score - s[1].score >= 0.0 &&
            (s[0].score == s[1].score && minScoreDiff >= 0.0 ==> Classify(seqLen, s, minAl2Seq, minScoreDiff) == Success(Repeat))
  {
    var s := SortBy(hits, ScoreGe);
    SortedIsPairwise(s, ScoreGe);
    forall h | h in hits ensures s[0].score >= h.score {
      assert h in multiset(s);
      var j :| 0 <= j < |s| && s[j] == h;
      if j > 0 {
        assert ScoreGe(s[0], s[j]);
      }
    }
  }

  /** With no hits there is no match; with a single hit it is not a repeat. */
  lemma FewHits(seqLen: int, h: Hit, minAl2Seq: real, minScoreDiff: real)
    ensures Classify(seqLen, SortBy([], ScoreGe), minAl2Seq, minScoreDiff) == Success(NoMatch)
    ensures Classify(seqLen, SortBy([h], ScoreGe), minAl2Seq, minScoreDiff) == Success(NotRepeat)
  {
  }

  /**
   * Two hits of one query, of 100 bases: aligned fractions 0.5 and 0.4
   * are within the default 0.15, so a repeat whatever the scores; with
   * fractions 0.9 and 0.2 the verdict depends on the score gap.
   */
  lemma RepeatExamples()
    ensures Classify(100, [Hit(1, 51, 80.0), Hit(60, 20, 30.0)], 0.15, 20.0) == Success(Repeat)
    ensures Classify(100, [Hit(1, 91, 80.0), Hit(40, 20, 30.0)], 0.15, 20.0) == Success(NotRepeat)
    ensures Classify(100, [Hit(1, 91, 80.0), Hit(40, 20, 70.0)], 0.15, 20.0) == Success(Repeat)
  {
  }
}
