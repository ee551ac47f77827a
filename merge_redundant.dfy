/**
 * `merge_redundant.py`: count identical (chromosome, locus) rows, order the
 * chromosome tags, and fold loci that lie within a window of each other.
 */
module MergeRedundant {
  import opened Wrappers
  import opened Sorting
  import opened PyStr

  // ---------------------------------------------------------------------
  // merge_single_chrom
  // ---------------------------------------------------------------------

  /** The sum of the counts of (locus, count) pairs. */
  function Counts(s: seq<(int, int)>): int {
    if s == [] then 0 else Counts(s[..|s| - 1]) + s[|s| - 1].1
  }

  /**
   * The index of the first entry of the group that entry `i` joins: it
   * continues its predecessor's group when it is within `w` of both the
   * predecessor and that group's first locus, and opens a group otherwise.
   */
  function GroupStart(data: seq<(int, int)>, w: int, i: nat): (s: nat)
    requires i < |data|
    ensures s <= i
  {
    if i == 0 then 0
    else
      var g := GroupStart(data, w, i - 1);
      if data[i].0 - data[i - 1].0 <= w && data[i].0 - data[g].0 <= w then g else i
  }

  /** Whether entry `i` opens a group. */
  predicate OpensGroup(data: seq<(int, int)>, w: int, i: nat)
    requires i < |data|
  {
    GroupStart(data, w, i) == i
  }

  /** The indices below `n` that open a group, ascending. */
  function Starts(data: seq<(int, int)>, w: int, n: nat): (ss: seq<nat>)
    requires n <= |data|
    ensures forall g :: 0 <= g < |ss| ==> ss[g] < n && OpensGroup(data, w, ss[g])
  {
    if n == 0 then []
    else Starts(data, w, n - 1) + (if OpensGroup(data, w, n - 1) then [n - 1] else [])
  }

  /** The total count of the entries below `n` whose group opens at `s`. */
  function GroupCount(data: seq<(int, int)>, w: int, s: nat, n: nat): int
    requires n <= |data|
  {
    if n == 0 then 0
    else GroupCount(data, w, s, n - 1) + (if GroupStart(data, w, n - 1) == s then data[n - 1].1 else 0)
  }

  /** The merged list over the first `n` entries: one (first locus, total count) pair per group. */
  function Merged(data: seq<(int, int)>, w: int, n: nat): seq<(int, int)>
    requires n <= |data|
  {
    var ss := Starts(data, w, n);
    seq(|ss|, g requires 0 <= g < |ss| => (data[ss[g]].0, GroupCount(data, w, ss[g], n)))
  }

  predicate StrictlyIncreasing(ss: seq<nat>) {
    forall a, b :: 0 <= a < b < |ss| ==> ss[a] < ss[b]
  }

  /** The group openers below `n` ascend, start at 0, and end at the group of entry `n - 1`. */
  lemma {:induction false} StartsShape(data: seq<(int, int)>, w: int, n: nat)
    requires 0 < n <= |data|
    ensures var ss := Starts(data, w, n);
            ss != [] && ss[0] == 0 && StrictlyIncreasing(ss) && ss[|ss| - 1] == GroupStart(data, w, n - 1)
  {
    if n > 1 {
      StartsShape(data, w, n - 1);
    }
  }

  lemma {:induction false} GroupCountAbove(data: seq<(int, int)>, w: int, s: nat, n: nat)
    requires n <= |data| && n <= s
    ensures GroupCount(data, w, s, n) == 0
  {
    if n > 0 {
      GroupCountAbove(data, w, s, n - 1);
    }
  }

  /** Entry `i` joins the current group: the last merged pair absorbs its count. */
  lemma MergedFold(data: seq<(int, int)>, w: int, i: nat)
    requires 0 < i < |data|
    requires data[i].0 - data[i - 1].0 <= w && data[i].0 - data[GroupStart(data, w, i - 1)].0 <= w
    ensures var m := Merged(data, w, i);
            m != [] &&
            Merged(data, w, i + 1) == m[..|m| - 1] + [(m[|m| - 1].0, m[|m| - 1].1 + data[i].1)]
  {
    StartsShape(data, w, i);
    var ss := Starts(data, w, i);
    assert Starts(data, w, i + 1) == ss;
    var m := Merged(data, w, i);
    var m' := Merged(data, w, i + 1);
    forall g | 0 <= g < |ss| - 1 ensures m'[g] == m[g] {
      assert ss[g] < ss[|ss| - 1];
    }
  }

  /** Entry `i` opens a group: it is appended as a pair of its own. */
  lemma MergedOpen(data: seq<(int, int)>, w: int, i: nat)
    requires 0 < i < |data|
    requires !(data[i].0 - data[i - 1].0 <= w && data[i].0 - data[GroupStart(data, w, i - 1)].0 <= w)
    ensures Merged(data, w, i + 1) == Merged(data, w, i) + [data[i]]
  {
    var ss := Starts(data, w, i);
    assert Starts(data, w, i + 1) == ss + [i];
    GroupCountAbove(data, w, i, i);
  }

  lemma CountsSnoc(s: seq<(int, int)>, x: (int, int))
    ensures Counts(s + [x]) == Counts(s) + x.1
  {
    assert (s + [x])[..|s|] == s;
  }

  /** The loop state of `merge_single_chrom` after the first `i` entries. */
  ghost predicate MergeState(data: seq<(int, int)>, w: int, i: nat, merged: seq<(int, int)>, current: (int, int)) {
    1 <= i <= |data| &&
    merged + [current] == Merged(data, w, i) &&
    current.0 == data[GroupStart(data, w, i - 1)].0 &&
    Counts(merged) + current.1 == Counts(data[..i])
  }

  lemma MergeStart(data: seq<(int, int)>, w: int)
    requires data != []
    ensures MergeState(data, w, 1, [], data[0])
  {
    assert Starts(data, w, 1) == [0];
    assert GroupCount(data, w, 0, 1) == data[0].1;
    assert Merged(data, w, 1) == [(data[0].0, data[0].1)];
    assert data[..1] == [data[0]];
  }

  lemma FoldStep(data: seq<(int, int)>, w: int, i: nat, merged: seq<(int, int)>, current: (int, int))
    requires MergeState(data, w, i, merged, current) && i < |data|
    requires data[i].0 - data[i - 1].0 <= w && data[i].0 - current.0 <= w
    ensures MergeState(data, w, i + 1, merged, (current.0, current.1 + data[i].1))
  {
    MergedFold(data, w, i);
    var m := Merged(data, w, i);
    assert m[..|m| - 1] == merged && m[|m| - 1] == current;
    assert data[..i + 1] == data[..i] + [data[i]];
    CountsSnoc(data[..i], data[i]);
  }

  lemma OpenStep(data: seq<(int, int)>, w: int, i: nat, merged: seq<(int, int)>, current: (int, int))
    requires MergeState(data, w, i, merged, current) && i < |data|
    requires !(data[i].0 - data[i - 1].0 <= w && data[i].0 - current.0 <= w)
    ensures MergeState(data, w, i + 1, merged + [current], data[i])
  {
    MergedOpen(data, w, i);
    assert data[..i + 1] == data[..i] + [data[i]];
    CountsSnoc(data[..i], data[i]);
    CountsSnoc(merged, current);
  }

  lemma MergeEnd(data: seq<(int, int)>, w: int, merged: seq<(int, int)>, current: (int, int))
    requires MergeState(data, w, |data|, merged, current)
    ensures Counts(merged + [current]) == Counts(data)
  {
    assert data[..|data|] == data;
    CountsSnoc(merged, current);
  }

  /**
   * `merge_single_chrom`: fold the (locus, count) pairs into one pair per
   * group, in input order; no count is lost or duplicated.
   */
  method MergeSingleChrom(data: seq<(int, int)>, w: int) returns (merged: seq<(int, int)>)
    requires data != []
    ensures merged == Merged(data, w, |data|)
    ensures Counts(merged) == Counts(data)
  {
    var current := data[0];
    merged := [];
    var i: nat := 1;
    MergeStart(data, w);
    while i < |data|
      invariant MergeState(data, w, i, merged, current)
    {
      var (locus, count) := data[i];
      if locus - data[i - 1].0 <= w && locus - current.0 <= w {
        FoldStep(data, w, i, merged, current);
        current := (current.0, current.1 + count);
      } else {
        OpenStep(data, w, i, merged, current);
        merged := merged + [current];
        current := (locus, count);
      }
      i := i + 1;
    }
    MergeEnd(data, w, merged, current);
    merged := merged + [current];
  }

  /**
   * The merged loci are an in-order subsequence of the input loci,
   * beginning with the first one; each pair's count is the total of its group.
   */
  lemma MergedLoci(data: seq<(int, int)>, w: int)
    requires data != []
    ensures var ss := Starts(data, w, |data|);
            var m := Merged(data, w, |data|);
            |ss| == |m| && m != [] && ss[0] == 0 && StrictlyIncreasing(ss) &&
            forall g :: 0 <= g < |m| ==> ss[g] < |data| && m[g] == (data[ss[g]].0, GroupCount(data, w, ss[g], |data|))
  {
    StartsShape(data, w, |data|);
  }

  /** The group openers below `n` are those below `m` that lie below `n`. */
  lemma {:induction false} StartsPrefix(data: seq<(int, int)>, w: int, n: nat, m: nat)
    requires n <= m <= |data|
    ensures var sn := Starts(data, w, n);
            var sm := Starts(data, w, m);
            |sn| <= |sm| && sm[..|sn|] == sn && forall g :: |sn| <= g < |sm| ==> sm[g] >= n
    decreases m - n
  {
    if n < m {
      StartsPrefix(data, w, n, m - 1);
      var sm1 := Starts(data, w, m - 1);
      var sm := Starts(data, w, m);
      assert sm[..|sm1|] == sm1;
    }
  }

  /** The loci ascend. */
  predicate LociSorted(data: seq<(int, int)>) {
    forall a, b :: 0 <= a <= b < |data| ==> data[a].0 <= data[b].0
  }

  /** A group opener lies more than `w` beyond its predecessor or beyond the first locus of the group before. */
  lemma OpenerFarFromGroup(data: seq<(int, int)>, w: int, i: nat)
    requires 0 < i < |data| && OpensGroup(data, w, i)
    ensures data[i].0 - data[i - 1].0 > w || data[i].0 - data[GroupStart(data, w, i - 1)].0 > w
  {
  }

  /** On sorted input, consecutive merged loci are more than `w` apart. */
  lemma MergedSeparated(data: seq<(int, int)>, w: int)
    requires data != [] && LociSorted(data)
    ensures var m := Merged(data, w, |data|);
            forall g :: 0 <= g < |m| - 1 ==> m[g + 1].0 - m[g].0 > w
  {
    var ss := Starts(data, w, |data|);
    forall g | 0 <= g < |ss| - 1 ensures data[ss[g + 1]].0 - data[ss[g]].0 > w {
      OpenersSeparated(data, w, g);
    }
  }

  /** Two consecutive group openers are more than `w` apart. */
  lemma OpenersSeparated(data: seq<(int, int)>, w: int, g: nat)
    requires LociSorted(data) && g + 1 < |Starts(data, w, |data|)|
    ensures var ss := Starts(data, w, |data|);
            data[ss[g + 1]].0 - data[ss[g]].0 > w
  {
    var n := |data|;
    var ss := Starts(data, w, n);
    var s' := ss[g + 1];
    StartsShape(data, w, n);
    assert ss[0] < s';
    StartsPrefix(data, w, s', n);
    StartsShape(data, w, s');
    var p := Starts(data, w, s');
    assert ss[..|p|] == p;
    assert |p| == g + 1;
    assert p[|p| - 1] == ss[g];
    OpenerFarFromGroup(data, w, s');
    assert data[s' - 1].0 >= data[ss[g]].0;
  }

  /**
   * An entry folded into a group lies within `w` of its predecessor and of
   * the group's first locus.
   */
  lemma FoldedWithinWindow(data: seq<(int, int)>, w: int, i: nat)
    requires 0 < i < |data| && !OpensGroup(data, w, i)
    ensures data[i].0 - data[i - 1].0 <= w && data[i].0 - data[GroupStart(data, w, i)].0 <= w
    ensures GroupStart(data, w, i) == GroupStart(data, w, i - 1)
  {
  }

  /** `[(1, 1), (2, 1), (3, 2), (10, 4)]` with window 3 merges to `[(1, 4), (10, 4)]`. */
  lemma MergeExample()
    ensures Merged([(1, 1), (2, 1), (3, 2), (10, 4)], 3, 4) == [(1, 4), (10, 4)]
  {
    var data := [(1, 1), (2, 1), (3, 2), (10, 4)];
    assert GroupStart(data, 3, 1) == 0 && GroupStart(data, 3, 2) == 0 && GroupStart(data, 3, 3) == 3;
    assert Starts(data, 3, 4) == [0, 3];
    assert GroupCount(data, 3, 0, 4) == 4 && GroupCount(data, 3, 3, 4) == 4;
  }

  // ---------------------------------------------------------------------
  // chrom_sorted
  // ---------------------------------------------------------------------

  /** The values of the tags that `int()` accepts, in input order. */
  function Numbers(tags: seq<string>): seq<int> {
    if tags == [] then []
    else
      Numbers(tags[..|tags| - 1]) +
      match ParseInt(tags[|tags| - 1]) case Some(v) => [v] case None => []
  }

  /** The tags that `int()` rejects, in input order. */
  function Letters(tags: seq<string>): seq<string> {
    if tags == [] then []
    else Letters(tags[..|tags| - 1]) + (if ParseInt(tags[|tags| - 1]).None? then [tags[|tags| - 1]] else [])
  }

  lemma {:induction false} LettersRejected(tags: seq<string>, x: string)
    requires x in Letters(tags)
    ensures ParseInt(x).None?
  {
    assert tags != [];
    var init := tags[..|tags| - 1];
    if x !in Letters(init) {
      assert x == tags[|tags| - 1];
    } else {
      LettersRejected(init, x);
    }
  }

  /** Every tag is either a number or a letter tag. */
  lemma {:induction false} NumbersAndLetters(tags: seq<string>)
    ensures |Numbers(tags)| + |Letters(tags)| == |tags|
  {
    if tags != [] {
      NumbersAndLetters(tags[..|tags| - 1]);
    }
  }

  function IntLe(a: int, b: int): bool {
    a <= b
  }

  /**
   * The order `chrom_sorted` produces: first the tags that parse as
   * integers, re-rendered by `str(int(c))` in ascending numeric order,
   * then the other tags in lexicographic order.
   */
  ghost predicate ChromOrdered(tags: seq<string>, out: seq<string>) {
    var n := |Numbers(tags)|;
    |out| == |tags| && n <= |out| &&
    (forall i :: 0 <= i < n ==> ParseInt(out[i]).Some? && out[i] == IntToString(ParseInt(out[i]).value)) &&
    (forall i, j :: 0 <= i < j < n ==> ParseInt(out[i]).value <= ParseInt(out[j]).value) &&
    multiset(seq(n, i requires 0 <= i < n => ParseInt(out[i]).value)) == multiset(Numbers(tags)) &&
    (forall i :: n <= i < |out| ==> ParseInt(out[i]).None?) &&
    (forall i, j :: n <= i < j < |out| ==> StrLe(out[i], out[j])) &&
    multiset(out[n..]) == multiset(Letters(tags))
  }

  /** `map(str, numbers)`. */
  function Render(numbers: seq<int>): seq<string> {
    seq(|numbers|, i requires 0 <= i < |numbers| => IntToString(numbers[i]))
  }

  /** Every rendered number parses back to itself. */
  lemma RenderParses(numbers: seq<int>)
    ensures forall i :: 0 <= i < |numbers| ==> ParseInt(Render(numbers)[i]) == Some(numbers[i])
  {
    forall i | 0 <= i < |numbers| ensures ParseInt(Render(numbers)[i]) == Some(numbers[i]) {
      ParseIntToString(numbers[i]);
    }
  }

  lemma NumbersSnoc(tags: seq<string>, k: nat)
    requires k < |tags|
    ensures Numbers(tags[..k + 1]) ==
            Numbers(tags[..k]) + match ParseInt(tags[k]) case Some(v) => [v] case None => []
    ensures Letters(tags[..k + 1]) ==
            Letters(tags[..k]) + (if ParseInt(tags[k]).None? then [tags[k]] else [])
  {
    assert tags[..k + 1][..k] == tags[..k];
  }

  /** The numeric part: rendered numbers parse back, ascending, with the parsed values of the tags, each in its `str` form. */
  lemma RenderedNumbers(tags: seq<string>, numbers: seq<int>, out: seq<string>)
    requires multiset(numbers) == multiset(Numbers(tags)) && PairwiseSorted(numbers, IntLe)
    requires |numbers| <= |out| && out[..|numbers|] == Render(numbers)
    ensures var n := |numbers|;
            (forall i :: 0 <= i < n ==> ParseInt(out[i]).Some? && out[i] == IntToString(ParseInt(out[i]).value)) &&
            (forall i, j :: 0 <= i < j < n ==> ParseInt(out[i]).value <= ParseInt(out[j]).value) &&
            multiset(seq(n, i requires 0 <= i < n => ParseInt(out[i]).value)) == multiset(Numbers(tags))
  {
    var n := |numbers|;
    RenderParses(numbers);
    forall i | 0 <= i < n ensures ParseInt(out[i]) == Some(numbers[i]) && out[i] == IntToString(numbers[i]) {
      assert out[i] == out[..n][i];
    }
    assert seq(n, i requires 0 <= i < n => ParseInt(out[i]).value) == numbers;
  }

  /** The other part: letter tags, sorted, none of them parsing. */
  lemma SortedLetters(tags: seq<string>, letters: seq<string>)
    requires multiset(letters) == multiset(Letters(tags)) && PairwiseSorted(letters, StrLe)
    ensures forall i :: 0 <= i < |letters| ==> ParseInt(letters[i]).None?
  {
    forall i | 0 <= i < |letters| ensures ParseInt(letters[i]).None? {
      assert letters[i] in multiset(Letters(tags));
      LettersRejected(tags, letters[i]);
    }
  }

  lemma ChromSortedResult(tags: seq<string>, numbers: seq<int>, letters: seq<string>)
    requires multiset(numbers) == multiset(Numbers(tags)) && Sorted(numbers, IntLe)
    requires multiset(letters) == multiset(Letters(tags)) && Sorted(letters, StrLe)
    ensures ChromOrdered(tags, Render(numbers) + letters)
  {
    NumbersAndLetters(tags);
    StrLeTransitive();
    SortedIsPairwise(numbers, IntLe);
    SortedIsPairwise(letters, StrLe);
    var out := Render(numbers) + letters;
    var n := |numbers|;
    assert |numbers| == |Numbers(tags)| && |letters| == |Letters(tags)| by {
      assert |multiset(numbers)| == |multiset(Numbers(tags))|;
      assert |multiset(letters)| == |multiset(Letters(tags))|;
    }
    assert out[..n] == Render(numbers);
    assert out[n..] == letters;
    RenderedNumbers(tags, numbers, out);
    SortedLetters(tags, letters);
    forall i | n <= i < |out| ensures ParseInt(out[i]).None? && out[i] == letters[i - n] {
      assert out[i] == out[n..][i - n];
    }
    forall i, j | n <= i < j < |out| ensures StrLe(out[i], out[j]) {
      assert out[i] == letters[i - n] && out[j] == letters[j - n];
    }
  }

  /**
   * The order pins the spelling of numeric tags: the tag `"01"` comes out
   * as `"1"`, so it is no longer the key it was read under.
   */
  lemma RenderedTagExample(out: seq<string>)
    requires ChromOrdered(["01"], out)
    ensures out == ["1"]
  {
    var t := ["01"];
    assert t[..0] == [];
    assert ParseInt("01") == Some(1) by {
      ParseDigits("01");
    }
    assert Numbers(t) == [1];
    var v := ParseInt(out[0]).value;
    assert multiset(seq(1, i requires 0 <= i < 1 => ParseInt(out[i]).value)) == multiset{v};
    assert v == 1 by {
      assert v in multiset{1};
    }
    assert out[0] == IntToString(1);
  }

  /** `chrom_sorted`: split the tags into numbers and letters, sort each, numbers first. */
  method ChromSorted(tags: seq<string>) returns (out: seq<string>)
    ensures ChromOrdered(tags, out)
  {
    var numbers: seq<int> := [];
    var letters: seq<string> := [];
    for k := 0 to |tags|
      invariant numbers == Numbers(tags[..k]) && letters == Letters(tags[..k])
    {
      NumbersSnoc(tags, k);
      match ParseInt(tags[k]) {
        case Some(v) => numbers := numbers + [v];
        case None => letters := letters + [tags[k]];
      }
    }
    assert tags[..|tags|] == tags;
    StrLeTotal();
    numbers := SortBy(numbers, IntLe);
    letters := SortBy(letters, StrLe);
    ChromSortedResult(tags, numbers, letters);
    out := Render(numbers) + letters;
  }

  // ---------------------------------------------------------------------
  // first_pass
  // ---------------------------------------------------------------------

  /** A row of the tabular input, field name to text. */
  type Row = map<string, string>

  /** The (chromosome, locus) of a row, or the error reading it raises. */
  function RowLocus(row: Row, chrTag: string, locusTag: string): Result<(string, int), PyError> {
    if chrTag !in row || locusTag !in row then Failure(RuntimeError)
    else
      match ParseInt(row[locusTag])
      case None => Failure(ValueError)
      case Some(v) => Success((row[chrTag], v))
  }

  /** The pairs of all rows, in order, or the error of the first row that cannot be read. */
  function ReadRows(rows: seq<Row>, chrTag: string, locusTag: string): Result<seq<(string, int)>, PyError> {
    if rows == [] then Success([])
    else
      var init := ReadRows(rows[..|rows| - 1], chrTag, locusTag);
      if init.Failure? then init
      else
        match RowLocus(rows[|rows| - 1], chrTag, locusTag)
        case Failure(e) => Failure(e)
        case Success(p) => Success(init.value + [p])
  }

  /**
   * `tally` counts the pairs: its chromosomes are those of the pairs, and
   * each chromosome's counter holds exactly the loci paired with it, each
   * with the number of times the pair occurs.
   */
  ghost predicate Tallies(pairs: seq<(string, int)>, tally: map<string, map<int, nat>>) {
    (forall c :: c in tally <==> exists l :: (c, l) in pairs) &&
    forall c, l :: c in tally ==>
      (l in tally[c] <==> (c, l) in pairs) &&
      (l in tally[c] ==> tally[c][l] == multiset(pairs)[(c, l)])
  }

  /** `setdefault(chrom, Counter())[locus] += 1`. */
  function Bump(tally: map<string, map<int, nat>>, chrom: string, locus: int): map<string, map<int, nat>> {
    var counter := if chrom in tally then tally[chrom] else map[];
    tally[chrom := counter[locus := (if locus in counter then counter[locus] else 0) + 1]]
  }

  lemma TalliesStep(pairs: seq<(string, int)>, tally: map<string, map<int, nat>>, chrom: string, locus: int)
    requires Tallies(pairs, tally)
    ensures Tallies(pairs + [(chrom, locus)], Bump(tally, chrom, locus))
  {
    var post := pairs + [(chrom, locus)];
    var tally' := Bump(tally, chrom, locus);
    forall c ensures c in tally' <==> exists l :: (c, l) in post {
      if c in tally {
        var l :| (c, l) in pairs;
        assert (c, l) in post;
      }
      assert (chrom, locus) in post;
    }
    forall c, l | c in tally'
      ensures (l in tally'[c] <==> (c, l) in post) && (l in tally'[c] ==> tally'[c][l] == multiset(post)[(c, l)])
    {
      assert multiset(post) == multiset(pairs) + multiset{(chrom, locus)};
      if c == chrom && c !in tally {
        assert (c, l) !in pairs;
      }
    }
  }

  lemma ReadRowsStep(rows: seq<Row>, chrTag: string, locusTag: string, k: nat)
    requires k < |rows| && ReadRows(rows[..k], chrTag, locusTag).Success?
    ensures ReadRows(rows[..k + 1], chrTag, locusTag) ==
            match RowLocus(rows[k], chrTag, locusTag)
            case Failure(e) => Failure(e)
            case Success(p) => Success(ReadRows(rows[..k], chrTag, locusTag).value + [p])
  {
    assert rows[..k + 1][..k] == rows[..k];
  }

  lemma {:induction false} ReadRowsFailure(rows: seq<Row>, chrTag: string, locusTag: string, k: nat)
    requires k <= |rows| && ReadRows(rows[..k], chrTag, locusTag).Failure?
    ensures ReadRows(rows, chrTag, locusTag) == ReadRows(rows[..k], chrTag, locusTag)
    decreases |rows| - k
  {
    if k < |rows| {
      assert rows[..k + 1][..k] == rows[..k];
      ReadRowsFailure(rows, chrTag, locusTag, k + 1);
    } else {
      assert rows[..k] == rows;
    }
  }

  /** The loop state of `first_pass` after the rows `done`. */
  ghost predicate FirstPassState(done: seq<Row>, chrTag: string, locusTag: string, tally: map<string, map<int, nat>>) {
    var read := ReadRows(done, chrTag, locusTag);
    read.Success? && Tallies(read.value, tally)
  }

  lemma FirstPassStart(rows: seq<Row>, chrTag: string, locusTag: string)
    ensures FirstPassState(rows[..0], chrTag, locusTag, map[])
  {
    assert rows[..0] == [];
    var none: map<string, map<int, nat>> := map[];
    var nothing: seq<(string, int)> := [];
    forall c ensures c in none <==> exists l :: (c, l) in nothing {
    }
    assert Tallies(nothing, none);
  }

  lemma FirstPassStep(rows: seq<Row>, chrTag: string, locusTag: string, k: nat, tally: map<string, map<int, nat>>)
    requires k < |rows| && FirstPassState(rows[..k], chrTag, locusTag, tally)
    requires RowLocus(rows[k], chrTag, locusTag).Success?
    ensures var (chrom, locus) := RowLocus(rows[k], chrTag, locusTag).value;
            FirstPassState(rows[..k + 1], chrTag, locusTag, Bump(tally, chrom, locus))
  {
    ReadRowsStep(rows, chrTag, locusTag, k);
    var (chrom, locus) := RowLocus(rows[k], chrTag, locusTag).value;
    TalliesStep(ReadRows(rows[..k], chrTag, locusTag).value, tally, chrom, locus);
  }

  lemma FirstPassFail(rows: seq<Row>, chrTag: string, locusTag: string, k: nat, tally: map<string, map<int, nat>>)
    requires k < |rows| && FirstPassState(rows[..k], chrTag, locusTag, tally)
    requires RowLocus(rows[k], chrTag, locusTag).Failure?
    ensures ReadRows(rows, chrTag, locusTag) == Failure(RowLocus(rows[k], chrTag, locusTag).error)
  {
    ReadRowsStep(rows, chrTag, locusTag, k);
    ReadRowsFailure(rows, chrTag, locusTag, k + 1);
  }

  /** `unique_locs.setdefault(chrom, Counter())[locus] += 1`. */
  method CountLocus(tally: map<string, map<int, nat>>, chrom: string, locus: int) returns (tally': map<string, map<int, nat>>)
    ensures tally' == Bump(tally, chrom, locus)
  {
    var counter := if chrom in tally then tally[chrom] else map[];
    var n := if locus in counter then counter[locus] else 0;
    tally' := tally[chrom := counter[locus := n + 1]];
  }

  /** Reading one row: both fields must be present and the locus an integer. */
  method ReadRow(row: Row, chrTag: string, locusTag: string) returns (r: Result<(string, int), PyError>)
    ensures r == RowLocus(row, chrTag, locusTag)
  {
    if chrTag !in row || locusTag !in row {
      return Failure(RuntimeError);
    }
    var chrom := row[chrTag];
    var parsed := ParseInt(row[locusTag]);
    if parsed.None? {
      return Failure(ValueError);
    }
    return Success((chrom, parsed.value));
  }

  /**
   * `first_pass` over already-read rows: count each (chromosome, locus)
   * pair per chromosome; the first row missing a field raises
   * RuntimeError, the first with a malformed locus ValueError.
   */
  method FirstPass(rows: seq<Row>, chrTag: string, locusTag: string) returns (r: Result<map<string, map<int, nat>>, PyError>)
    ensures var read := ReadRows(rows, chrTag, locusTag);
            (read.Failure? ==> r == Failure(read.error)) &&
            (read.Success? ==> r.Success? && Tallies(read.value, r.value))
  {
    var uniqueLocs: map<string, map<int, nat>> := map[];
    var k: nat := 0;
    FirstPassStart(rows, chrTag, locusTag);
    while k < |rows|
      invariant k <= |rows| && FirstPassState(rows[..k], chrTag, locusTag, uniqueLocs)
    {
      var read := ReadRow(rows[k], chrTag, locusTag);
      if read.Failure? {
        FirstPassFail(rows, chrTag, locusTag, k, uniqueLocs);
        return Failure(read.error);
      }
      var (chrom, locus) := read.value;
      FirstPassStep(rows, chrTag, locusTag, k, uniqueLocs);
      uniqueLocs := CountLocus(uniqueLocs, chrom, locus);
      k := k + 1;
    }
    assert rows[..k] == rows;
    r := Success(uniqueLocs);
  }
}
