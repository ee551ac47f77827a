/**
 * `demux.py`: split FASTA records by barcode prefix.  Records arrive as
 * already-read (header, sequence) pairs, and each barcode's output file
 * is the sequence of records written to it.
 */
module Demux {
  import opened PyStr
  import opened Sets

  datatype FastaRecord = FastaRecord(header: string, sequence: string)

  /** `get_barcodes`: the set of stripped lines of the barcode file. */
  function GetBarcodes(lines: seq<string>): (bcs: set<string>)
    ensures forall b :: b in bcs <==> exists k :: 0 <= k < |lines| && Strip(lines[k]) == b
  {
    set k | 0 <= k < |lines| :: Strip(lines[k])
  }

  /** Duplicate lines collapse: there are never more barcodes than lines. */
  lemma {:induction false} BarcodesAtMostLines(lines: seq<string>)
    ensures |GetBarcodes(lines)| <= |lines|
  {
    if lines != [] {
      var init := lines[..|lines| - 1];
      BarcodesAtMostLines(init);
      assert GetBarcodes(lines) == GetBarcodes(init) + {Strip(lines[|lines| - 1])} by {
        forall b | b in GetBarcodes(lines) ensures b in GetBarcodes(init) + {Strip(lines[|lines| - 1])} {
          var k :| 0 <= k < |lines| && Strip(lines[k]) == b;
          if k < |lines| - 1 {
            assert init[k] == lines[k];
          }
        }
        forall b | b in GetBarcodes(init) ensures b in GetBarcodes(lines) {
          var k :| 0 <= k < |init| && Strip(init[k]) == b;
          assert lines[k] == init[k];
        }
      }
    }
  }

  /** The records whose sequence starts with `bc`, in input order. */
  function Matching(records: seq<FastaRecord>, bc: string): seq<FastaRecord> {
    if records == [] then []
    else
      Matching(records[..|records| - 1], bc) +
      (if StartsWith(records[|records| - 1].sequence, bc) then [records[|records| - 1]] else [])
  }

  /** A record is written to `bc`'s output exactly when its sequence starts with `bc`. */
  lemma {:induction false} MatchingMembers(records: seq<FastaRecord>, bc: string, r: FastaRecord)
    ensures r in Matching(records, bc) <==> r in records && StartsWith(r.sequence, bc)
  {
    if records != [] {
      var init := records[..|records| - 1];
      MatchingMembers(init, bc, r);
      assert records == init + [records[|records| - 1]];
    }
  }

  /** Filtering keeps input order: the output of a concatenation is the concatenation of the outputs. */
  lemma {:induction false} MatchingAppend(a: seq<FastaRecord>, b: seq<FastaRecord>, bc: string)
    ensures Matching(a + b, bc) == Matching(a, bc) + Matching(b, bc)
  {
    if b != [] {
      var b' := b[..|b| - 1];
      MatchingAppend(a, b', bc);
      assert (a + b)[..|a + b| - 1] == a + b';
    } else {
      assert a + b == a;
    }
  }

  /** Barcodes are not exclusive: a record matching a longer barcode also matches every barcode that is a prefix of it. */
  lemma PrefixBarcodes(records: seq<FastaRecord>, short: string, long: string, r: FastaRecord)
    requires StartsWith(long, short)
    requires r in Matching(records, long)
    ensures r in Matching(records, short)
  {
    MatchingMembers(records, long, r);
    MatchingMembers(records, short, r);
    assert r.sequence[..|short|] == long[..|short|];
  }

  /** A blank line in the barcode file yields the empty barcode, whose output receives every record. */
  lemma BlankLineTakesAll(lines: seq<string>, records: seq<FastaRecord>, k: nat)
    requires k < |lines| && AllSpace(lines[k])
    ensures "" in GetBarcodes(lines)
    ensures Matching(records, "") == records
  {
    StripEmptyIffBlank(lines[k]);
    MatchAll(records);
  }

  lemma {:induction false} MatchAll(records: seq<FastaRecord>)
    ensures Matching(records, "") == records
  {
    if records != [] {
      MatchAll(records[..|records| - 1]);
    }
  }

  /**
   * `demux_fasta`: every record goes to the output of each barcode its
   * sequence starts with.  Every barcode has an output, in input order;
   * only barcodes that matched have a counter entry, holding their number
   * of records.
   */
  method DemuxFasta(records: seq<FastaRecord>, barcodes: set<string>)
    returns (seqCount: map<string, nat>, outMap: map<string, seq<FastaRecord>>)
    ensures outMap.Keys == barcodes
    ensures forall bc :: bc in barcodes ==> outMap[bc] == Matching(records, bc)
    ensures forall bc :: bc in seqCount <==> bc in barcodes && Matching(records, bc) != []
    ensures forall bc :: bc in seqCount ==> seqCount[bc] == |Matching(records, bc)|
  {
    outMap := map bc | bc in barcodes :: [];
    seqCount := map[];
    var k: nat := 0;
    while k < |records|
      invariant k <= |records|
      invariant DemuxState(records[..k], barcodes, {}, seqCount, outMap)
    {
      var rec := records[k];
      assert records[..k + 1] == records[..k] + [rec];
      var todo := barcodes;
      while todo != {}
        invariant todo <= barcodes
        invariant DemuxState(records[..k + 1], barcodes, todo, seqCount, outMap)
        invariant DemuxState(records[..k], barcodes, barcodes - todo, seqCount, outMap)
        decreases todo
      {
        var bc := Pick(todo);
        DemuxStep(records[..k], rec, barcodes, todo, seqCount, outMap, bc);
        if StartsWith(rec.sequence, bc) {
          outMap := outMap[bc := outMap[bc] + [rec]];
          seqCount := seqCount[bc := (if bc in seqCount then seqCount[bc] else 0) + 1];
        }
        todo := todo - {bc};
      }
      k := k + 1;
    }
    assert records[..k] == records;
  }

  /**
   * The outputs and counters agree with `Matching(done, bc)` for every
   * barcode outside `pending`; the barcodes in `pending` are not looked at.
   */
  ghost predicate DemuxState(done: seq<FastaRecord>, barcodes: set<string>, pending: set<string>,
                             seqCount: map<string, nat>, outMap: map<string, seq<FastaRecord>>) {
    outMap.Keys == barcodes && seqCount.Keys <= barcodes &&
    forall bc :: bc in barcodes && bc !in pending ==>
      outMap[bc] == Matching(done, bc) &&
      (bc in seqCount <==> Matching(done, bc) != []) &&
      (bc in seqCount ==> seqCount[bc] == |Matching(done, bc)|)
  }

  lemma MatchingSnoc(done: seq<FastaRecord>, rec: FastaRecord, bc: string)
    ensures Matching(done + [rec], bc) == Matching(done, bc) + (if StartsWith(rec.sequence, bc) then [rec] else [])
  {
    assert (done + [rec])[..|done|] == done;
  }

  /** Routing record `rec` to barcode `bc` moves `bc` from pending to done. */
  lemma DemuxStep(done: seq<FastaRecord>, rec: FastaRecord, barcodes: set<string>, todo: set<string>,
                  seqCount: map<string, nat>, outMap: map<string, seq<FastaRecord>>, bc: string)
    requires bc in todo && todo <= barcodes
    requires DemuxState(done + [rec], barcodes, todo, seqCount, outMap)
    requires DemuxState(done, barcodes, barcodes - todo, seqCount, outMap)
    ensures var hit := StartsWith(rec.sequence, bc);
            var outMap' := if hit then outMap[bc := outMap[bc] + [rec]] else outMap;
            var seqCount' := if hit then seqCount[bc := (if bc in seqCount then seqCount[bc] else 0) + 1] else seqCount;
            DemuxState(done + [rec], barcodes, todo - {bc}, seqCount', outMap') &&
            DemuxState(done, barcodes, barcodes - (todo - {bc}), seqCount', outMap')
  {
    MatchingSnoc(done, rec, bc);
  }
}
