/**
 * `select_hits.py`: collate the tagged lines of the BLAST filter into the
 * unambiguous, repeat and no-hit categories plus the list of all hits.
 * Each output file is the sequence of lines written to it, without the
 * line terminators.
 */
module SelectHits {
  import opened Wrappers
  import opened PyStr

  /** The alignment-type codes of `al_type`, whose values are not part of this model. */
  datatype Codes = Codes(unambiguous: int, repeat: int, noHit: int)

  predicate DistinctCodes(codes: Codes) {
    codes.unambiguous != codes.repeat && codes.unambiguous != codes.noHit && codes.repeat != codes.noHit
  }

  datatype Kind = Unambiguous | Repeated

  /** A non-blank input line: `code \t payload`, and for a hit, `payload == tag \t more`. */
  datatype Entry =
    | NoHit(payload: string)
    | Hit(kind: Kind, payload: string, tag: string, more: string)

  /** The four outputs: the three category files and `all_hits.tsv`. */
  datatype Collated = Collated(unambiguous: seq<string>, repeat: seq<string>, noHit: seq<string>, allHits: seq<string>)

  /** A hit's payload is its tag, a tab, and the other fields; the tag holds no tab. */
  predicate WellSplit(e: Entry) {
    e.Hit? ==> e.payload == e.tag + "\t" + e.more && '\t' !in e.tag
  }

  /** One line of input: `None` for a blank line, or the error its `split`, `int` or lookup raises. */
  function ParseLine(codes: Codes, line: string): Result<Option<Entry>, PyError> {
    var t := Strip(line);
    if t == [] then Success(None)
    else
      match SplitOnce(t, '\t')
      case None => Failure(ValueError)
      case Some((c, payload)) => ParseCoded(codes, ParseInt(c), payload)
  }

  /** The rest of a line whose code field read as `code`. */
  function ParseCoded(codes: Codes, code: Option<int>, payload: string): (r: Result<Option<Entry>, PyError>)
    ensures r.Success? && r.value.Some? ==> WellSplit(r.value.value)
  {
    match code
    case None => Failure(ValueError)
    case Some(code) =>
      if code != codes.unambiguous && code != codes.repeat && code != codes.noHit then Failure(KeyError)
      else if code == codes.noHit then Success(Some(NoHit(payload)))
      else ParseHit(if code == codes.unambiguous then Unambiguous else Repeated, payload)
  }

  /** A hit's payload split into its tag and the other fields. */
  function ParseHit(kind: Kind, payload: string): (r: Result<Option<Entry>, PyError>)
    ensures r.Success? ==> r.value.Some? && r.value.value.Hit? && r.value.value.kind == kind && WellSplit(r.value.value)
    ensures r.Failure? <==> '\t' !in payload
  {
    match SplitOnce(payload, '\t')
    case None => Failure(ValueError)
    case Some((tag, more)) => Success(Some(Hit(kind, payload, tag, more)))
  }

  /** Every hit read from a line is split at its first tab. */
  lemma ParsedWellSplit(codes: Codes, line: string)
    requires ParseLine(codes, line).Success? && ParseLine(codes, line).value.Some?
    ensures WellSplit(ParseLine(codes, line).value.value)
  {
  }

  /** Blank lines, and only they, are skipped. */
  lemma BlankIffSkipped(codes: Codes, line: string)
    ensures ParseLine(codes, line) == Success(None) <==> AllSpace(line)
  {
    StripEmptyIffBlank(line);
  }

  /** The entries of all non-blank lines, or the error of the first line that fails. */
  function Entries(codes: Codes, lines: seq<string>): Result<seq<Entry>, PyError> {
    if lines == [] then Success([])
    else
      var init := Entries(codes, lines[..|lines| - 1]);
      if init.Failure? then init
      else
        match ParseLine(codes, lines[|lines| - 1])
        case Failure(e) => Failure(e)
        case Success(None) => init
        case Success(Some(e)) => Success(init.value + [e])
  }

  /** The entries so far, extended by the outcome of reading one more line. */
  function Extend(init: Result<seq<Entry>, PyError>, p: Result<Option<Entry>, PyError>): Result<seq<Entry>, PyError> {
    if init.Failure? then init
    else
      match p
      case Failure(e) => Failure(e)
      case Success(None) => init
      case Success(Some(e)) => Success(init.value + [e])
  }

  /** The hit entries, in order. */
  function Hits(es: seq<Entry>): (hs: seq<Entry>)
    ensures forall k :: 0 <= k < |hs| ==> hs[k].Hit?
  {
    if es == [] then []
    else Hits(es[..|es| - 1]) + (if es[|es| - 1].Hit? then [es[|es| - 1]] else [])
  }

  /** The payloads of the no-hit entries, in order. */
  function NoHitPayloads(es: seq<Entry>): seq<string> {
    if es == [] then []
    else NoHitPayloads(es[..|es| - 1]) + (if es[|es| - 1].NoHit? then [es[|es| - 1].payload] else [])
  }

  function Payloads(es: seq<Entry>): seq<string> {
    seq(|es|, k requires 0 <= k < |es| => es[k].payload)
  }

  /** The category line of a hit: the tag, followed by the other fields for an unambiguous one. */
  function CategoryLine(h: Entry): string
    requires h.Hit?
  {
    if h.kind == Unambiguous then h.tag + "\t" + h.more else h.tag
  }

  /**
   * The category lines of kind `kind`: one for each hit whose tag differs
   * from that of the hit before it, whatever that hit's kind.
   */
  function CategoryLines(hs: seq<Entry>, kind: Kind): seq<string>
    requires forall k :: 0 <= k < |hs| ==> hs[k].Hit?
  {
    if hs == [] then []
    else
      var h := hs[|hs| - 1];
      CategoryLines(hs[..|hs| - 1], kind) +
      (if h.kind == kind && (|hs| == 1 || h.tag != hs[|hs| - 2].tag) then [CategoryLine(h)] else [])
  }

  function Outputs(es: seq<Entry>): Collated {
    var hs := Hits(es);
    Collated(CategoryLines(hs, Unambiguous), CategoryLines(hs, Repeated), NoHitPayloads(es), Payloads(hs))
  }

  /** What `collate_output` writes for `lines`, or the error it stops with. */
  function Collate(codes: Codes, lines: seq<string>): Result<Collated, PyError> {
    var es := Entries(codes, lines);
    if es.Failure? then Failure(es.error) else Success(Outputs(es.value))
  }

  /** The tag of the last hit, `None` before the first: what `old_seq_tag` tracks. */
  function LastTag(hs: seq<Entry>): Option<string>
    requires forall k :: 0 <= k < |hs| ==> hs[k].Hit?
  {
    if hs == [] then None else Some(hs[|hs| - 1].tag)
  }

  lemma HitsSnoc(es: seq<Entry>, e: Entry)
    ensures Hits(es + [e]) == Hits(es) + (if e.Hit? then [e] else [])
    ensures NoHitPayloads(es + [e]) == NoHitPayloads(es) + (if e.NoHit? then [e.payload] else [])
  {
    assert (es + [e])[..|es|] == es;
  }

  /** A no-hit line only adds its payload to the no-hit output. */
  lemma NoHitStep(es: seq<Entry>, payload: string)
    ensures var o := Outputs(es);
            Outputs(es + [NoHit(payload)]) == o.(noHit := o.noHit + [payload])
    ensures Hits(es + [NoHit(payload)]) == Hits(es)
  {
    HitsSnoc(es, NoHit(payload));
  }

  /**
   * A hit line adds its payload to all hits, and its category line when its
   * tag differs from the last hit's.
   */
  lemma HitStep(es: seq<Entry>, h: Entry)
    requires h.Hit?
    ensures var o := Outputs(es);
            var changed := LastTag(Hits(es)) != Some(h.tag);
            Outputs(es + [h]) ==
              Collated(o.unambiguous + (if changed && h.kind == Unambiguous then [CategoryLine(h)] else []),
                       o.repeat + (if changed && h.kind == Repeated then [CategoryLine(h)] else []),
                       o.noHit,
                       o.allHits + [h.payload])
    ensures LastTag(Hits(es + [h])) == Some(h.tag)
  {
    HitsSnoc(es, h);
    var hs := Hits(es);
    var hs' := hs + [h];
    assert hs'[..|hs'| - 1] == hs;
    assert Payloads(hs') == Payloads(hs) + [h.payload];
  }

  lemma EntriesSnoc(codes: Codes, lines: seq<string>, k: nat)
    requires k < |lines| && Entries(codes, lines[..k]).Success?
    ensures Entries(codes, lines[..k + 1]) ==
            match ParseLine(codes, lines[k])
            case Failure(e) => Failure(e)
            case Success(None) => Entries(codes, lines[..k])
            case Success(Some(e)) => Success(Entries(codes, lines[..k]).value + [e])
  {
    assert lines[..k + 1][..k] == lines[..k];
  }

  lemma {:induction false} EntriesFailure(codes: Codes, lines: seq<string>, k: nat)
    requires k <= |lines| && Entries(codes, lines[..k]).Failure?
    ensures Entries(codes, lines) == Entries(codes, lines[..k])
    decreases |lines| - k
  {
    if k < |lines| {
      assert lines[..k + 1][..k] == lines[..k];
      EntriesFailure(codes, lines, k + 1);
    } else {
      assert lines[..k] == lines;
    }
  }

  /** The loop state of `collate_output` after the lines `done`. */
  ghost predicate CollateState(codes: Codes, done: seq<string>, out: Collated, oldSeqTag: Option<string>) {
    var es := Entries(codes, done);
    es.Success? && out == Outputs(es.value) && oldSeqTag == LastTag(Hits(es.value))
  }

  lemma CollateStart(codes: Codes, lines: seq<string>)
    ensures CollateState(codes, lines[..0], Collated([], [], [], []), None)
  {
    assert lines[..0] == [];
  }

  lemma CollateFail(codes: Codes, lines: seq<string>, k: nat, out: Collated, oldSeqTag: Option<string>)
    requires k < |lines| && CollateState(codes, lines[..k], out, oldSeqTag)
    requires ParseLine(codes, lines[k]).Failure?
    ensures Collate(codes, lines) == Failure(ParseLine(codes, lines[k]).error)
  {
    EntriesSnoc(codes, lines, k);
    EntriesFailure(codes, lines, k + 1);
  }

  /** A blank line read: nothing changes. */
  lemma CollateSkip(codes: Codes, lines: seq<string>, k: nat, out: Collated, oldSeqTag: Option<string>)
    requires k < |lines| && CollateState(codes, lines[..k], out, oldSeqTag)
    requires ParseLine(codes, lines[k]) == Success(None)
    ensures CollateState(codes, lines[..k + 1], out, oldSeqTag)
  {
    EntriesSnoc(codes, lines, k);
  }

  /** A no-hit line read: its payload joins the no-hit output. */
  lemma CollateNoHit(codes: Codes, lines: seq<string>, k: nat, out0: Collated, oldSeqTag: Option<string>,
                     payload: string, out: Collated)
    requires k < |lines| && CollateState(codes, lines[..k], out0, oldSeqTag)
    requires ParseLine(codes, lines[k]) == Success(Some(NoHit(payload)))
    requires out == out0.(noHit := out0.noHit + [payload])
    ensures CollateState(codes, lines[..k + 1], out, oldSeqTag)
  {
    EntriesSnoc(codes, lines, k);
    NoHitStep(Entries(codes, lines[..k]).value, payload);
  }

  /**
   * A hit line read: its payload joins all hits, and its category line
   * joins its category when its tag differs from the one before.
   */
  lemma CollateHit(codes: Codes, lines: seq<string>, k: nat, out0: Collated, tag0: Option<string>,
                   h: Entry, out: Collated, tag: Option<string>)
    requires k < |lines| && CollateState(codes, lines[..k], out0, tag0)
    requires h.Hit? && ParseLine(codes, lines[k]) == Success(Some(h))
    requires out.allHits == out0.allHits + [h.payload] && out.noHit == out0.noHit && tag == Some(h.tag)
    requires if tag0 == Some(h.tag) then out.unambiguous == out0.unambiguous && out.repeat == out0.repeat
             else if h.kind == Unambiguous then
               out.unambiguous == out0.unambiguous + [h.tag + "\t" + h.more] && out.repeat == out0.repeat
             else out.unambiguous == out0.unambiguous && out.repeat == out0.repeat + [h.tag]
    ensures CollateState(codes, lines[..k + 1], out, tag)
  {
    var es := Entries(codes, lines[..k]).value;
    EntriesSnoc(codes, lines, k);
    HitOutputs(es, out0, tag0, h, out, tag);
  }

  /** `HitStep` in the form the loop of `collate_output` updates its outputs. */
  lemma HitOutputs(es: seq<Entry>, out0: Collated, tag0: Option<string>, h: Entry, out: Collated, tag: Option<string>)
    requires out0 == Outputs(es) && tag0 == LastTag(Hits(es)) && h.Hit?
    requires out.allHits == out0.allHits + [h.payload] && out.noHit == out0.noHit && tag == Some(h.tag)
    requires if tag0 == Some(h.tag) then out.unambiguous == out0.unambiguous && out.repeat == out0.repeat
             else if h.kind == Unambiguous then
               out.unambiguous == out0.unambiguous + [h.tag + "\t" + h.more] && out.repeat == out0.repeat
             else out.unambiguous == out0.unambiguous && out.repeat == out0.repeat + [h.tag]
    ensures out == Outputs(es + [h]) && tag == LastTag(Hits(es + [h]))
  {
    HitStep(es, h);
    if tag0 == Some(h.tag) {
      assert out0.unambiguous + [] == out0.unambiguous;
      assert out0.repeat + [] == out0.repeat;
    } else if h.kind == Unambiguous {
      assert out0.repeat + [] == out0.repeat;
    } else {
      assert out0.unambiguous + [] == out0.unambiguous;
    }
  }

  /**
   * The reading half of one iteration of `collate_output`: strip the line,
   * split off and convert the code, look it up, and split a hit's payload
   * into its tag and the other fields.
   */
  method ReadLine(codes: Codes, raw: string) returns (r: Result<Option<Entry>, PyError>)
    ensures r == ParseLine(codes, raw)
  {
    var line := Strip(raw);
    if line == [] {
      return Success(None);
    }
    var split := SplitOnce(line, '\t');
    if split.None? {
      return Failure(ValueError);
    }
    var (c, payload) := split.value;
    var parsed := ParseInt(c);
    if parsed.None? {
      return Failure(ValueError);
    }
    var code := parsed.value;
    if code != codes.unambiguous && code != codes.repeat && code != codes.noHit {
      return Failure(KeyError);
    }
    if code == codes.noHit {
      return Success(Some(NoHit(payload)));
    }
    var split2 := SplitOnce(payload, '\t');
    if split2.None? {
      return Failure(ValueError);
    }
    var (seqTag, moreFields) := split2.value;
    var kind := if code == codes.unambiguous then Unambiguous else Repeated;
    return Success(Some(Hit(kind, payload, seqTag, moreFields)));
  }

  /**
   * `collate_output` over a sequence of lines: skip blank lines, route
   * no-hit payloads to their file, every other payload to all hits and,
   * at each change of tag, a line to its category.
   */
  method CollateOutput(codes: Codes, lines: seq<string>) returns (r: Result<Collated, PyError>)
    requires DistinctCodes(codes)
    ensures r == Collate(codes, lines)
  {
    var out := Collated([], [], [], []);
    var oldSeqTag: Option<string> := None;
    var k: nat := 0;
    CollateStart(codes, lines);
    while k < |lines|
      invariant k <= |lines| && CollateState(codes, lines[..k], out, oldSeqTag)
    {
      var read := ReadLine(codes, lines[k]);
      if read.Failure? {
        CollateFail(codes, lines, k, out, oldSeqTag);
        return Failure(read.error);
      }
      match read.value {
        case None =>
          CollateSkip(codes, lines, k, out, oldSeqTag);
        case Some(NoHit(payload)) =>
          ghost var out0 := out;
          out := out.(noHit := out.noHit + [payload]);
          CollateNoHit(codes, lines, k, out0, oldSeqTag, payload, out);
        case Some(Hit(kind, payload, seqTag, moreFields)) =>
          ghost var out0, tag0 := out, oldSeqTag;
          out := out.(allHits := out.allHits + [payload]);
          if oldSeqTag != Some(seqTag) {
            if kind == Unambiguous {
              out := out.(unambiguous := out.unambiguous + [seqTag + "\t" + moreFields]);
            } else {
              out := out.(repeat := out.repeat + [seqTag]);
            }
            oldSeqTag := Some(seqTag);
          }
          CollateHit(codes, lines, k, out0, tag0, read.value.value, out, oldSeqTag);
      }
      assert CollateState(codes, lines[..k + 1], out, oldSeqTag);
      k := k + 1;
      assert CollateState(codes, lines[..k], out, oldSeqTag);
      assert k <= |lines|;
    }
    assert lines[..k] == lines;
    r := Success(out);
  }

  // ---------------------------------------------------------------------
  // Properties of the collation
  // ---------------------------------------------------------------------

  /** The outcome of reading each line. */
  function Parsed(codes: Codes, lines: seq<string>): (ps: seq<Result<Option<Entry>, PyError>>)
    ensures |ps| == |lines| && forall k :: 0 <= k < |lines| ==> ps[k] == ParseLine(codes, lines[k])
  {
    seq(|lines|, k requires 0 <= k < |lines| => ParseLine(codes, lines[k]))
  }

  /** The fold of `Entries`, over outcomes already read. */
  function Fold(ps: seq<Result<Option<Entry>, PyError>>): Result<seq<Entry>, PyError> {
    if ps == [] then Success([]) else Extend(Fold(ps[..|ps| - 1]), ps[|ps| - 1])
  }

  lemma {:induction false} EntriesIsFold(codes: Codes, lines: seq<string>)
    ensures Entries(codes, lines) == Fold(Parsed(codes, lines))
  {
    if lines != [] {
      var init := lines[..|lines| - 1];
      EntriesIsFold(codes, init);
      var ps := Parsed(codes, lines);
      assert ps[..|ps| - 1] == Parsed(codes, init);
      EntriesUnfold(codes, lines);
    }
  }

  /** Two runs of entries one after the other; the first failure wins. */
  function Join(ea: Result<seq<Entry>, PyError>, eb: Result<seq<Entry>, PyError>): Result<seq<Entry>, PyError> {
    if ea.Failure? then ea else if eb.Failure? then eb else Success(ea.value + eb.value)
  }

  lemma {:induction false} FoldAppend(pa: seq<Result<Option<Entry>, PyError>>, pb: seq<Result<Option<Entry>, PyError>>)
    ensures Fold(pa + pb) == Join(Fold(pa), Fold(pb))
  {
    if pb == [] {
      assert pa + pb == pa;
      if Fold(pa).Success? {
        assert Fold(pa).value + [] == Fold(pa).value;
      }
    } else {
      var pb' := pb[..|pb| - 1];
      FoldAppend(pa, pb');
      SnocSplit(pa, pb);
      ExtendAppend(Fold(pa), Fold(pb'), pb[|pb| - 1]);
    }
  }

  /** The entries of two runs of lines are those of each run, the first failure winning. */
  lemma EntriesAppend(codes: Codes, a: seq<string>, b: seq<string>)
    ensures Entries(codes, a + b) == Join(Entries(codes, a), Entries(codes, b))
  {
    EntriesIsFold(codes, a);
    EntriesIsFold(codes, b);
    EntriesIsFold(codes, a + b);
    ParsedAppend(codes, a, b);
    FoldAppend(Parsed(codes, a), Parsed(codes, b));

  }

  lemma ParsedAppend(codes: Codes, a: seq<string>, b: seq<string>)
    ensures Parsed(codes, a + b) == Parsed(codes, a) + Parsed(codes, b)
  {
  }

  lemma SnocSplit<T>(a: seq<T>, b: seq<T>)
    requires b != []
    ensures (a + b)[..|a + b| - 1] == a + b[..|b| - 1] && (a + b)[|a + b| - 1] == b[|b| - 1]
  {
    assert (a + b)[..|a + b| - 1] == a + b[..|b| - 1];
  }

  lemma EntriesUnfold(codes: Codes, lines: seq<string>)
    requires lines != []
    ensures Entries(codes, lines) == Extend(Entries(codes, lines[..|lines| - 1]), ParseLine(codes, lines[|lines| - 1]))
  {
  }

  lemma ExtendAppend(ea: Result<seq<Entry>, PyError>, eb: Result<seq<Entry>, PyError>, p: Result<Option<Entry>, PyError>)
    ensures Extend(Join(ea, eb), p) == Join(ea, Extend(eb, p))
  {
    if ea.Success? && eb.Success? && p.Success? && p.value.Some? {
      assert ea.value + (eb.value + [p.value.value]) == (ea.value + eb.value) + [p.value.value];
    }
  }

  lemma {:induction false} HitsAppend(e1: seq<Entry>, e2: seq<Entry>)
    ensures Hits(e1 + e2) == Hits(e1) + Hits(e2)
  {
    if e2 == [] {
      assert e1 + e2 == e1;
    } else {
      var e2', l := e2[..|e2| - 1], e2[|e2| - 1];
      HitsAppend(e1, e2');
      assert (e1 + e2)[..|e1 + e2| - 1] == e1 + e2';
      var t := if l.Hit? then [l] else [];
      assert Hits(e1 + e2) == Hits(e1 + e2') + t;
      assert Hits(e2) == Hits(e2') + t;
    }
  }

  lemma {:induction false} NoHitPayloadsAppend(e1: seq<Entry>, e2: seq<Entry>)
    ensures NoHitPayloads(e1 + e2) == NoHitPayloads(e1) + NoHitPayloads(e2)
  {
    if e2 == [] {
      assert e1 + e2 == e1;
    } else {
      var e2', l := e2[..|e2| - 1], e2[|e2| - 1];
      NoHitPayloadsAppend(e1, e2');
      assert (e1 + e2)[..|e1 + e2| - 1] == e1 + e2';
      var t := if l.NoHit? then [l.payload] else [];
      assert NoHitPayloads(e1 + e2) == NoHitPayloads(e1 + e2') + t;
      assert NoHitPayloads(e2) == NoHitPayloads(e2') + t;
    }
  }

  /** Blank and whitespace-only lines are skipped: removing one changes nothing. */
  lemma BlankLineSkipped(codes: Codes, a: seq<string>, blank: string, b: seq<string>)
    requires AllSpace(blank)
    ensures Collate(codes, a + [blank] + b) == Collate(codes, a + b)
  {
    BlankIffSkipped(codes, blank);
    EntriesSingle(codes, blank);
    EntriesAppend(codes, a, [blank]);
    EntriesAppend(codes, a + [blank], b);
    EntriesAppend(codes, a, b);
    var ea := Entries(codes, a);
    if ea.Success? {
      assert ea.value + [] == ea.value;
    }
  }

  /**
   * A no-hit line adds its payload to the no-hit output only: all hits,
   * the category outputs, and with them the tag tracker, are as without it.
   */
  lemma NoHitLeavesHits(codes: Codes, a: seq<string>, line: string, payload: string, b: seq<string>)
    requires ParseLine(codes, line) == Success(Some(NoHit(payload)))
    ensures Collate(codes, a + [line] + b).Success? == Collate(codes, a + b).Success?
    ensures Collate(codes, a + b).Success? ==>
              var with := Collate(codes, a + [line] + b).value;
              var without := Collate(codes, a + b).value;
              with.unambiguous == without.unambiguous && with.repeat == without.repeat &&
              with.allHits == without.allHits &&
              multiset(with.noHit) == multiset(without.noHit) + multiset{payload}
  {
    EntriesSingle(codes, line);
    EntriesAppend(codes, a, [line]);
    EntriesAppend(codes, a + [line], b);
    EntriesAppend(codes, a, b);
    var ea, eb := Entries(codes, a), Entries(codes, b);
    if ea.Success? && eb.Success? {
      assert Entries(codes, a + [line] + b).value == ea.value + [NoHit(payload)] + eb.value;
      OutputsNoHitInsert(ea.value, payload, eb.value);
    }
  }

  lemma EntriesSingle(codes: Codes, line: string)
    ensures Entries(codes, [line]) == Extend(Success([]), ParseLine(codes, line))
  {
    assert [line][..0] == [];
  }

  lemma OutputsNoHitInsert(e1: seq<Entry>, payload: string, e2: seq<Entry>)
    ensures var with := Outputs(e1 + [NoHit(payload)] + e2);
            var without := Outputs(e1 + e2);
            with.unambiguous == without.unambiguous && with.repeat == without.repeat &&
            with.allHits == without.allHits &&
            multiset(with.noHit) == multiset(without.noHit) + multiset{payload}
  {
    HitsAppend(e1 + [NoHit(payload)], e2);
    HitsAppend(e1, [NoHit(payload)]);
    HitsAppend(e1, e2);
    NoHitPayloadsAppend(e1 + [NoHit(payload)], e2);
    NoHitPayloadsAppend(e1, [NoHit(payload)]);
    NoHitPayloadsAppend(e1, e2);
    assert Hits([NoHit(payload)]) == [] && NoHitPayloads([NoHit(payload)]) == [payload];
    assert Hits(e1 + [NoHit(payload)] + e2) == Hits(e1 + e2) by {
      assert Hits(e1) + [] == Hits(e1);
    }
    assert NoHitPayloads(e1 + [NoHit(payload)] + e2) == NoHitPayloads(e1) + [payload] + NoHitPayloads(e2);
  }

  lemma {:induction false} EntriesWellSplit(codes: Codes, lines: seq<string>)
    requires Entries(codes, lines).Success?
    ensures forall k :: 0 <= k < |Entries(codes, lines).value| ==> WellSplit(Entries(codes, lines).value[k])
  {
    if lines != [] {
      var init := lines[..|lines| - 1];
      EntriesWellSplit(codes, init);
      var p := ParseLine(codes, lines[|lines| - 1]);
      if p.Success? && p.value.Some? {
        ParsedWellSplit(codes, lines[|lines| - 1]);
      }
    }
  }

  /** An unambiguous category line is the hit's whole payload, a repeat line its tag. */
  lemma {:induction false} CategoryLinesFromHits(hs: seq<Entry>)
    requires forall k :: 0 <= k < |hs| ==> hs[k].Hit? && WellSplit(hs[k])
    ensures forall x :: x in CategoryLines(hs, Unambiguous) ==> x in Payloads(hs)
    ensures forall x :: x in CategoryLines(hs, Repeated) ==> exists k :: 0 <= k < |hs| && x == hs[k].tag
  {
    if hs != [] {
      var init := hs[..|hs| - 1];
      CategoryLinesFromHits(init);
      assert forall k :: 0 <= k < |init| ==> Payloads(init)[k] == Payloads(hs)[k];
      assert Payloads(hs)[|hs| - 1] == hs[|hs| - 1].payload;
      forall x | x in CategoryLines(hs, Repeated) ensures exists k :: 0 <= k < |hs| && x == hs[k].tag {
        if x in CategoryLines(init, Repeated) {
          var k :| 0 <= k < |init| && x == init[k].tag;
          assert x == hs[k].tag;
        } else {
          assert x == hs[|hs| - 1].tag;
        }
      }
    }
  }

  /** Every unambiguous output line is also an all-hits line. */
  lemma UnambiguousAmongAllHits(codes: Codes, lines: seq<string>)
    requires Collate(codes, lines).Success?
    ensures forall x :: x in Collate(codes, lines).value.unambiguous ==> x in Collate(codes, lines).value.allHits
  {
    var es := Entries(codes, lines).value;
    EntriesWellSplit(codes, lines);
    var hs := Hits(es);
    HitsWellSplit(es);
    CategoryLinesFromHits(hs);
  }

  lemma {:induction false} HitsWellSplit(es: seq<Entry>)
    requires forall k :: 0 <= k < |es| ==> WellSplit(es[k])
    ensures forall k :: 0 <= k < |Hits(es)| ==> WellSplit(Hits(es)[k])
  {
    if es != [] {
      HitsWellSplit(es[..|es| - 1]);
    }
  }

  /**
   * The tracker is shared by both categories: a run of hits with one tag
   * yields a single category line, that of the run's first hit, whatever
   * the kinds of the others.
   */
  lemma {:induction false} OneLinePerRun(hs: seq<Entry>, tag: string)
    requires hs != [] && forall k :: 0 <= k < |hs| ==> hs[k].Hit? && hs[k].tag == tag
    ensures CategoryLines(hs, hs[0].kind) == [CategoryLine(hs[0])]
    ensures CategoryLines(hs, if hs[0].kind == Unambiguous then Repeated else Unambiguous) == []
  {
    if |hs| > 1 {
      OneLinePerRun(hs[..|hs| - 1], tag);
    }
  }

  /**
   * Reading back a line as the filter writes it, `str(code) \t payload`,
   * gives the code and the payload; a payload must not end in whitespace,
   * which `strip()` would remove.
   */
  lemma ParseWrittenLine(codes: Codes, code: int, payload: string)
    requires payload != [] && !IsSpace(payload[|payload| - 1])
    ensures ParseLine(codes, IntToString(code) + "\t" + payload) == ParseCoded(codes, Some(code), payload)
  {
    var c := IntToString(code);
    var line := c + "\t" + payload;
    assert line[0] == c[0];
    assert line[|line| - 1] == payload[|payload| - 1];
    StripPlain(line);
    assert forall k :: 0 <= k < |c| ==> c[k] != '\t';
    assert '\t' !in c;
    SplitOnceJoin(c, '\t', payload);
    ParseIntToString(code);
  }

  /** A written hit line reads back as a hit with its tag split off. */
  lemma ParseWrittenHit(codes: Codes, code: int, tag: string, more: string)
    requires (code == codes.unambiguous || code == codes.repeat) && code != codes.noHit
    requires '\t' !in tag && more != [] && !IsSpace(more[|more| - 1])
    ensures ParseLine(codes, IntToString(code) + "\t" + (tag + "\t" + more)) ==
            Success(Some(Hit(if code == codes.unambiguous then Unambiguous else Repeated, tag + "\t" + more, tag, more)))
  {
    var payload := tag + "\t" + more;
    assert payload[|payload| - 1] == more[|more| - 1];
    ParseWrittenLine(codes, code, payload);
    SplitOnceJoin(tag, '\t', more);
  }

  /**
   * A repeat hit with the tag of the unambiguous hit before it, and a
   * no-hit line, add no category line; a hit with a new tag does.
   */
  lemma OutputsExample(t1: string, t3: string, m1: string, m2: string, m3: string, p: string)
    requires t1 != t3
    ensures var h0, h1, h3 := Hit(Unambiguous, t1 + "\t" + m1, t1, m1), Hit(Repeated, t1 + "\t" + m2, t1, m2),
                              Hit(Repeated, t3 + "\t" + m3, t3, m3);
            Outputs([h0, h1, NoHit(p), h3]) ==
            Collated([t1 + "\t" + m1], [t3], [p], [h0.payload, h1.payload, h3.payload])
  {
    var e0, e1, e2, e3 := Hit(Unambiguous, t1 + "\t" + m1, t1, m1), Hit(Repeated, t1 + "\t" + m2, t1, m2),
                          NoHit(p), Hit(Repeated, t3 + "\t" + m3, t3, m3);
    ExamplePrefix(t1, m1, m2, p);
    HitStep([e0, e1, e2], e3);
    assert [e0, e1, e2] + [e3] == [e0, e1, e2, e3];
  }

  /** The first three lines of `OutputsExample`. */
  lemma ExamplePrefix(t1: string, m1: string, m2: string, p: string)
    ensures var e0, e1 := Hit(Unambiguous, t1 + "\t" + m1, t1, m1), Hit(Repeated, t1 + "\t" + m2, t1, m2);
            Outputs([e0, e1, NoHit(p)]) == Collated([t1 + "\t" + m1], [], [p], [e0.payload, e1.payload]) &&
            LastTag(Hits([e0, e1, NoHit(p)])) == Some(t1)
  {
    var e0, e1, e2 := Hit(Unambiguous, t1 + "\t" + m1, t1, m1), Hit(Repeated, t1 + "\t" + m2, t1, m2), NoHit(p);
    assert Outputs([]) == Collated([], [], [], []);
    assert Hits([]) == [];
    HitStep([], e0);
    assert [] + [e0] == [e0];
    assert Outputs([e0]) == Collated([CategoryLine(e0)], [], [], [e0.payload]);
    HitStep([e0], e1);
    assert [e0] + [e1] == [e0, e1];
    assert Outputs([e0, e1]) == Collated([CategoryLine(e0)], [], [], [e0.payload, e1.payload]);
    NoHitStep([e0, e1], p);
    assert [e0, e1] + [e2] == [e0, e1, e2];
  }
}
