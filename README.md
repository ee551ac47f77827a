# Integration-site annotation and BLAST post-processing, modelled in Dafny

This project models the core of the TIGET integration-site pipeline. The main part is the nearest-feature engine of `annotate.py`:

- `split_disjoint` sorts one chromosome's feature intervals and deals them greedily into layers. Within a layer, each interval starts at or after the end of the one before it.
- `find_closest_on_disjoint` answers a nearest-interval query on one layer with a single binary search.
- `AnnotationInfo` is the feature index. It loads BED rows, deduplicating intervals and collecting `(name, strand)` features per interval. It splits every chromosome into layers once. It takes the minimum distance over all layers and builds one annotation record per feature of every closest interval. A record holds the TSS distance, the relative position (-1, 0 or 1) and the integration percentage.
- `get_annotation_info` loads a BED catalog into a fresh index and splits it.

Four smaller stages are also modelled:

- `merge_redundant.py`: window-based merging of sorted `(locus, count)` pairs, the numeric-then-lexicographic chromosome order, and the per-chromosome locus counting of the first pass.
- `repeats.py`: the aligned fraction of a BLAST hit, and the repeat rule applied to the two best-scoring hits after the in-place sort.
- `demux.py`: reading a barcode list, and routing FASTA records to every barcode their sequence starts with, with per-barcode counts.
- `select_hits.py`: the one-pass router that sorts tagged filter output into the unambiguous, repeat, no-hit and all-hits outputs. A "last seen tag" tracker suppresses repeated category lines.

The project has these modules:

- `Wrappers`: `Option`, `Result` and the Python exceptions the code raises.
- `Sets`: picking the next element of a set, for loops over Python sets and dicts in an order left open.
- `Sorting`: Python's stable sort, as an insertion sort over a given order.
- `PyStr`: `strip`, `startswith`, `split(sep, 1)`, `int()`, `str()` and string `<=`.
- `Intervals`: interval tuples, tuple order, distance, and `bisect` with the two tuple keys the engine searches for.
- `Layering`: `split_disjoint`.
- `Closest`: `find_closest_on_disjoint` and the aggregation over layers.
- `Annotate`: `AnnotationInfo` and `get_annotation_info`.
- `MergeRedundant`, `Repeats`, `Demux`, `SelectHits`: one module per stage.

Loops in the source are `method`s with loop invariants. Each method is proved against a specification function, and the promised properties are lemmas about that function. `AnnotationInfo` is a class whose methods update its fields, and `is_repeat` sorts a caller's `array` in place.

The code and its design description disagree in a few places. The model follows the code:

- Input order: `split_disjoint` sorts its input, although its docstring says the input is assumed sorted.
- Empty input: `split_disjoint([])` is `[[]]`, one empty layer, not an empty list of layers.
- Touching intervals: the layer test is `bisect(rest, (end,))`, so an interval may start exactly where the previous one in its layer ends. Layers are disjoint only in the sense `first.end <= second.start`.
- Zero-length features: a feature with `start == end` queried at distance 0 raises ZeroDivisionError. It is not mapped to 0.
- Unknown chromosomes: querying one raises KeyError.
- Empty layers: a chromosome whose interval list is empty yields the single layer `[]`. A query on it raises IndexError.
- Layer count: the model does not claim the number of layers is minimal.
- Zero-length BED features: a row with `chromStart == chromEnd` becomes the interval `(s, s - 1)`, whose end is below its start. With such intervals a layer can be neither sorted nor disjoint (`split_disjoint([(0,2), (1,3), (2,1)])` gives the one layer `[(0,2), (2,1), (1,3)]`), and the later binary search then runs on an unsorted layer. Disjointness, order and the nearest-distance guarantee are proved only for well-formed intervals (`start <= end`).

## Model

| member | source | states |
|---|---|---|
| Sorting.SortBy | bl/tiget/pipeline/annotate.py:63 | the sorted list is a permutation of the input, ordered by the given total order, of the same length |
| Intervals.SortIntervals | bl/tiget/pipeline/annotate.py:63 | `sorted(intervals)` is a permutation of the input in ascending `(start, end)` tuple order |
| Intervals.Dist | bl/tiget/pipeline/annotate.py:80-83 | the distance from `pos` to an interval is 0 exactly when `start <= pos <= end` |
| Intervals.Bisect | bl/tiget/pipeline/annotate.py:69 | `bisect` returns an index whose left neighbour the key is not below and whose element at that index it is below; on a start-sorted list this splits the list exactly into the part the key is not below and the part it is below |
| Intervals.BisectPosCounts | bl/tiget/pipeline/annotate.py:90 | on a layer sorted by start, `bisect(layer, (pos, inf))` is the number of intervals starting at or before `pos` |
| Layering.Step | bl/tiget/pipeline/annotate.py:65-70 | one turn of the loop removes exactly the interval `rest[i]` from the intervals left, keeps at least one layer, and leaves an index inside what is left (or nothing left) |
| Layering.SplitDisjoint | bl/tiget/pipeline/annotate.py:55-71 | the layers returned are exactly `Dealt(intervals)`: the intervals sorted, then dealt greedily by `Step` until none is left, each going to the last layer, the next one chosen by `bisect` on the end of the one placed, a new layer opened when no remaining interval starts at or after that end |
| Layering.DealtIsLayering | bl/tiget/pipeline/annotate.py:55-71 | the greedy layers of any intervals: there is at least one layer; all layers together are a permutation of the input; empty input gives `[[]]` and other input only non-empty layers; each interval in a layer starts at or after the previous one's end; for well-formed input every layer is pairwise disjoint and ascending by `(start, end)`; a later layer holds only intervals starting before the last end of every earlier layer; the first layer opens with the least interval |
| Closest.FindClosestOnDisjoint | bl/tiget/pipeline/annotate.py:76-103 | on any non-empty layer the distance is non-negative; one or two candidates are returned, each an interval of the layer at exactly that distance from `pos` (not every interval at that distance need be returned); two only when `pos` lies strictly between neighbours `layer[k-1]`, `layer[k]` and is equally far from both |
| Closest.ClosestCases | bl/tiget/pipeline/annotate.py:90-103 | with `i` the number of intervals starting at or before `pos`: `i == 0` gives `(first.start - pos, [first])`; `i == len` gives `(max(0, pos - last.end), [last])`; otherwise `dr < dl` gives `right`, `dr > dl` gives `(max(0, dl), [left])`, and a tie gives `(dl, [left, right])` |
| Closest.NearestInLayer | bl/tiget/pipeline/annotate.py:80-88 | on a disjoint layer of well-formed intervals the returned distance is at most the distance to every interval of the layer, so it is the least one |
| Closest.MinDistance | bl/tiget/pipeline/annotate.py:172 | `min(ranking)` is a distance some layer reported and no layer reported a smaller one |
| Closest.GatherMembers | bl/tiget/pipeline/annotate.py:168-171 | an interval is in `ranking[d]` exactly when some layer answered with distance `d` and listed it |
| Closest.NearestAcrossLayers | bl/tiget/pipeline/annotate.py:166-173 | over the layers `split_disjoint` makes of non-empty well-formed intervals, the query succeeds; its distance is the least distance from `pos` to any interval of the chromosome, and every candidate, from any layer, is an interval of the chromosome at exactly that distance |
| Closest.MidpointTie | bl/tiget/pipeline/annotate.py:85-103 | on the layer `[(5, 7), (15, 25)]`, position 11 gets both neighbours at distance 4; positions 0 and 30 get one interval at distance 5; positions 6 and 20, inside an interval, get that interval alone at distance 0 |
| Closest.CandidatesFromTwoLayers | bl/tiget/pipeline/annotate.py:166-173 | with layers `[(1,2), (4,6), (8,10)]` and `[(1,5)]`, position 4 gets distance 0 with candidates `(4,6)` and `(1,5)`, one from each layer |
| Annotate.AnnotationInfo.constructor | bl/tiget/pipeline/annotate.py:140-143 | the index holds the given dicts; it counts as loaded exactly when both dicts are non-empty; it is not split |
| Annotate.LoadRow | bl/tiget/pipeline/annotate.py:150-156 | one BED row: the interval `(chromStart, chromEnd - 1)` is appended to its chromosome's list only if the chromosome has no features on it yet; the row's `(name, strand)` joins that interval's set |
| Annotate.AnnotationInfo.LoadFromBed | bl/tiget/pipeline/annotate.py:145-157 | once loaded, nothing changes; otherwise the dicts become the result of loading every row in order; afterwards the index is loaded; the split flag and the layers are untouched |
| Annotate.LoadCoherent | bl/tiget/pipeline/annotate.py:149-156 | loading keeps the two dicts coherent: they have the same chromosomes, and each chromosome's list holds each interval that has features exactly once |
| Annotate.LoadRecordFeatures | bl/tiget/pipeline/annotate.py:150-156 | one row adds its `(name, strand)` to exactly its own interval's set and registers exactly that interval |
| Annotate.LoadedFeatures | bl/tiget/pipeline/annotate.py:149-156 | after loading, an interval's features are those it had plus the `(name, strand)` of every row mapped to it; an interval is registered exactly when it was before or some row maps to it |
| Annotate.AnnotationInfo.SplitAll | bl/tiget/pipeline/annotate.py:159-164 | afterwards the index is split, and every chromosome's layers (the same chromosomes as its interval lists) are exactly `Dealt` of its intervals, the layers `split_disjoint` returns; a second call changes nothing; the dicts and the loaded flag are untouched |
| Annotate.Rank | bl/tiget/pipeline/annotate.py:168-173 | the ranking loop and `min` compute the reference aggregation over layers: IndexError on an empty layer, ValueError with no layers, otherwise the least layer distance with the candidates of every layer at that distance, in layer order |
| Annotate.MinKey | bl/tiget/pipeline/annotate.py:172 | the result is an element of the set of distances and no element is smaller |
| Annotate.AnnotationInfo.FindClosest | bl/tiget/pipeline/annotate.py:166-173 | splits first; an unknown chromosome raises KeyError; otherwise the result is the aggregation over that chromosome's layers, and for non-empty well-formed intervals it succeeds with the chromosome's least distance and only candidates of the chromosome at that distance |
| Annotate.InGeneRecord | bl/tiget/pipeline/annotate.py:185-189 | inside a feature of positive length: relative position 0, TSS distance at most the length, integration `100 * tss_d / length` between 0 and 100 |
| Annotate.PercentBounds | bl/tiget/pipeline/annotate.py:189 | `100 * t / len` lies between 0 and 100 for `0 <= t <= len`, and times `len` gives back `100 * t` |
| Annotate.OutsideRecord | bl/tiget/pipeline/annotate.py:185-196 | at a positive distance: integration 0; relative position -1 exactly when (`+` and before the start) or (`-` and after the end), else 1 (also for any other strand); the TSS distance is the distance upstream and the distance plus the length downstream |
| Annotate.RecordExamples | bl/tiget/pipeline/annotate.py:182-196 | feature `(1, 5, +)` at position 3 gives TSS distance 2, in gene, integration 50; at position 0 it gives upstream with integration 0; feature `(8, 10, -)` at 7 gives downstream with TSS distance 3 |
| Annotate.ImageAdd | bl/tiget/pipeline/annotate.py:181-197 | each feature of an interval contributes exactly one record of its own |
| Annotate.CollectFeatures | bl/tiget/pipeline/annotate.py:181-197 | the inner loop yields, in some order, exactly one record per feature of the interval, or ZeroDivisionError for an in-gene zero-length interval with features |
| Annotate.CollectRecords | bl/tiget/pipeline/annotate.py:178-197 | the outer loop yields, in some order, the records of every feature of every candidate; a candidate missing from `add_info` raises KeyError; the first failing candidate decides the error |
| Annotate.FirstFailure | bl/tiget/pipeline/annotate.py:178-181 | once a candidate fails, the whole result is that candidate's failure |
| Annotate.AnnotationInfo.Annotate | bl/tiget/pipeline/annotate.py:175-200 | the errors of the closest-interval query and of the record loops propagate; with `multi` the result is all records of all candidates; without it, exactly one of those records, or ValueError when there are none |
| Annotate.GetAnnotationInfo | bl/tiget/pipeline/annotate.py:203-207 | a fresh index, loaded with every row into empty dicts and split; its dicts are coherent |
| MergeRedundant.MergeSingleChrom | bl/tiget/pipeline/merge_redundant.py:86-105 | the loop yields the reference merge of all pairs, and the output counts sum to the input counts |
| MergeRedundant.MergedLoci | bl/tiget/pipeline/merge_redundant.py:92-104 | the output loci are the loci of the group openers, a strictly increasing index sequence starting at the first pair, so they form an in-order subsequence of the input loci; each count is its group's total |
| MergeRedundant.MergedSeparated | bl/tiget/pipeline/merge_redundant.py:98-103 | on input sorted by locus, consecutive output loci differ by more than the window |
| MergeRedundant.OpenerFarFromGroup | bl/tiget/pipeline/merge_redundant.py:98-103 | a pair opens a new group only when it is more than the window away from its predecessor or from the current group's first locus |
| MergeRedundant.FoldedWithinWindow | bl/tiget/pipeline/merge_redundant.py:98-100 | a pair folded into a group is within the window of its predecessor and of the group's first locus, and stays in its predecessor's group |
| MergeRedundant.MergeExample | bl/tiget/pipeline/merge_redundant.py:86-105 | `[(1,1), (2,1), (3,2), (10,4)]` with window 3 merges to `[(1,4), (10,4)]` |
| MergeRedundant.ChromSorted | bl/tiget/pipeline/merge_redundant.py:52-63 | the output has the input's length; first come the tags that parse as integers, each spelled as `str` renders its value, in ascending numeric order (the same numbers as the input's); then the other tags in lexicographic order (a permutation of the input's) |
| MergeRedundant.RenderedTagExample | bl/tiget/pipeline/merge_redundant.py:55-63 | the only output the order allows for the tag `"01"` is `"1"` |
| MergeRedundant.ChromSortedResult | bl/tiget/pipeline/merge_redundant.py:61-63 | the sorted numbers rendered by `str`, followed by the sorted other tags, satisfy that order |
| MergeRedundant.NumbersAndLetters | bl/tiget/pipeline/merge_redundant.py:53-60 | every tag goes to exactly one of the two lists |
| MergeRedundant.LettersRejected | bl/tiget/pipeline/merge_redundant.py:55-58 | every tag in the non-numeric list fails `int()` |
| MergeRedundant.RenderParses | bl/tiget/pipeline/merge_redundant.py:63 | each rendered number parses back to itself |
| MergeRedundant.ReadRow | bl/tiget/pipeline/merge_redundant.py:75-81 | a row yields its chromosome and integer locus; a missing field raises RuntimeError; a locus that is not an integer raises ValueError |
| MergeRedundant.CountLocus | bl/tiget/pipeline/merge_redundant.py:82 | `setdefault(chrom, Counter())[locus] += 1` on the tally |
| MergeRedundant.TalliesStep | bl/tiget/pipeline/merge_redundant.py:82 | that increment turns a correct count of the pairs so far into a correct count of the pairs with one more |
| MergeRedundant.FirstPass | bl/tiget/pipeline/merge_redundant.py:66-83 | the first unreadable row decides the error; otherwise the tally's chromosomes are those of the rows, each counter holds exactly that chromosome's loci, and each count is the number of rows carrying that pair |
| Repeats.Al2SeqSymmetric | bl/tiget/repeats.py:22-25 | the aligned fraction is the same with start and end swapped, is never negative, and is 0 exactly when start equals end |
| Repeats.IsRepeat | bl/tiget/repeats.py:31-56 | the caller's array ends up in the stable descending-score order, a permutation of its old contents; the verdict applies the rules to the sorted hits |
| Repeats.SortedTopHits | bl/tiget/repeats.py:43-55 | after the sort the first hit has the top score and the gap to the second is non-negative; equal top scores are a repeat whenever the score threshold is non-negative |
| Repeats.FewHits | bl/tiget/repeats.py:43-51 | no hits give `None`; a single hit gives `False` |
| Repeats.RepeatExamples | bl/tiget/repeats.py:52-56 | close aligned fractions give a repeat whatever the scores; otherwise the verdict depends on the score gap |
| Demux.GetBarcodes | bl/tiget/pipeline/demux.py:36-38 | a string is a barcode exactly when it is the stripped form of some line |
| Demux.BarcodesAtMostLines | bl/tiget/pipeline/demux.py:36-38 | duplicates collapse: there are at most as many barcodes as lines |
| Demux.BlankLineTakesAll | bl/tiget/pipeline/demux.py:38-50 | a blank line makes the empty barcode, which every record matches |
| Demux.DemuxFasta | bl/tiget/pipeline/demux.py:41-57 | there is an output for every barcode, holding the records whose sequence starts with it, in input order; a barcode has a count exactly when some record matches it, and the count is the number of matching records |
| Demux.MatchingMembers | bl/tiget/pipeline/demux.py:48-51 | a record is in a barcode's output exactly when it is an input record whose sequence starts with the barcode |
| Demux.MatchingAppend | bl/tiget/pipeline/demux.py:48-51 | the output of concatenated inputs is the concatenation of the outputs, so input order is kept |
| Demux.PrefixBarcodes | bl/tiget/pipeline/demux.py:49-52 | a record routed to a barcode is also routed to each prefix of that barcode (no `break`) |
| SelectHits.ReadLine | bl/tiget/pipeline/select_hits.py:44-54 | one line as the loop reads it: blank lines are skipped; a missing tab raises ValueError, as does a code that is not an integer; an unknown code raises KeyError; a hit's payload without a tab raises ValueError |
| SelectHits.ParseHit | bl/tiget/pipeline/select_hits.py:54 | splitting a payload fails exactly when it has no tab; otherwise the tag, a tab and the other fields make up the payload, and the tag holds no tab |
| SelectHits.ParseCoded | bl/tiget/pipeline/select_hits.py:48-54 | every hit read from a line is split at the first tab of its payload |
| SelectHits.BlankIffSkipped | bl/tiget/pipeline/select_hits.py:44-46 | a line is skipped exactly when it is blank or holds only whitespace |
| SelectHits.CollateOutput | bl/tiget/pipeline/select_hits.py:42-60 | the loop yields the reference collation of all lines, or the error of the first line that fails |
| SelectHits.BlankLineSkipped | bl/tiget/pipeline/select_hits.py:44-46 | removing a blank line anywhere changes neither the outputs nor the error |
| SelectHits.NoHitLeavesHits | bl/tiget/pipeline/select_hits.py:50-52 | a no-hit line adds its payload to the no-hit output and changes nothing else: all hits, both category outputs and with them the tag tracker, are as without it |
| SelectHits.UnambiguousAmongAllHits | bl/tiget/pipeline/select_hits.py:53-58 | every unambiguous output line is also an all-hits line |
| SelectHits.CategoryLinesFromHits | bl/tiget/pipeline/select_hits.py:55-59 | an unambiguous category line is the hit's whole payload; a repeat line is a hit's tag |
| SelectHits.OneLinePerRun | bl/tiget/pipeline/select_hits.py:55-60 | the tracker is shared by both categories: a run of hits with one tag writes only the first hit's category line, and nothing to the other category |
| SelectHits.EntriesWellSplit | bl/tiget/pipeline/select_hits.py:54 | every hit among the read entries is split at the first tab of its payload |
| SelectHits.ParseWrittenLine | bl/tiget/pipeline/select_hits.py:47-48 | a line `str(code) + "\t" + payload` reads back as that code and payload, provided the payload does not end in whitespace |
| SelectHits.ParseWrittenHit | bl/tiget/pipeline/select_hits.py:47-54 | a written hit line reads back as a hit of its kind with its tag and other fields |
| SelectHits.OutputsExample | bl/tiget/pipeline/select_hits.py:43-60 | the entries unambiguous `t1`, repeat `t1`, no-hit, repeat `t3` give one unambiguous line, one repeat line (`t3`), the no-hit payload, and three all-hits payloads |
| PyStr.StripEmptyIffBlank | bl/tiget/pipeline/select_hits.py:44-45 | `strip()` gives the empty string exactly for blank lines |
| PyStr.StripIdempotent | bl/tiget/pipeline/demux.py:38 | stripping twice is stripping once |
| PyStr.SplitOnce | bl/tiget/pipeline/select_hits.py:47 | `split(sep, 1)` unpacked into two names fails exactly when `sep` is absent; otherwise the two parts joined by `sep` give the string, and the head holds no `sep` |
| PyStr.SplitOnceJoin | bl/tiget/pipeline/select_hits.py:54 | splitting `x + sep + y`, where `x` holds no `sep`, gives back `x` and `y` |
| PyStr.ParseIntToString | bl/tiget/pipeline/merge_redundant.py:56-63 | `int(str(n)) == n` |
| PyStr.ParseSpacedSign | bl/tiget/pipeline/merge_redundant.py:56 | whitespace between the sign and the digits is skipped, as Python 2's `int()` does: `int("- 5") == int("-5")` and `int("+ 5") == int("+5")`, for any run of whitespace and any digits |
| PyStr.StrLeTotal | bl/tiget/pipeline/merge_redundant.py:62 | string `<=` relates every two strings one way or the other |
| PyStr.StrLeTransitive | bl/tiget/pipeline/merge_redundant.py:62 | string `<=` is transitive |

## Left out

- File and stream I/O is not modelled. This covers opening and closing files, the BED, CSV (`DictReader`) and FASTA readers, writing outputs, `os.makedirs`, and every `main` and option parser. Inputs are sequences of already-read records or lines. Outputs are the sequences of records or lines that would be written, without line terminators.
- `random.sample(results, 1)` in `annotate` is replaced by a `choice` parameter: the record at index `choice` modulo the number of records. The contract promises only one record, an element of the full list.
- Annotate.AnnotationInfo.Annotate: the order of its records within one interval comes from iterating a set. That order is left open: records are stated as a multiset. The multiset also drops the order across candidates, which the source fixes: candidates in the layer order of `ranking[min_d]`, each candidate's records together.
- Floating-point values are exact reals, with no rounding. This covers `integration` and the BLAST scores and aligned fractions. The `%.2f` output formatting is not modelled.
- The `float("inf")` sentinel is modelled by its effect: the bisect key compares below an interval exactly when the position is less than the interval's start.
- Repeats.IsRepeat: hits are already parsed into query start, query end and score. Parsing the text columns (`int()`, `float()`) and its errors are not modelled.
- The `al_type` module is not part of this model. Its three codes are parameters, and SelectHits.CollateOutput requires them to be distinct. The output dict keyed by them would merge equal codes.
- Annotate.AnnotationInfo.LoadFromBed requires that the index is loaded or not yet split. A load after `split_all` would append flat intervals to the lists that already hold layers; the model keeps interval lists and layers in separate fields and does not model that mixing.
- Annotate.AnnotationInfo.constructor: the interval dict passed in is taken as flat interval lists, the form loading builds, not as already-split layers.
- MergeRedundant.MergeSingleChrom requires non-empty input. On empty input the source returns `[None]`, and its only caller passes non-empty groups.
- MergeRedundant.FirstPass: a short CSV row, for which the reader supplies `None` and `int(None)` raises TypeError, is not modelled; a row is a map from field names to text.
- `int()` is modelled as surrounding whitespace, an optional sign, whitespace after the sign, and ASCII decimal digits. The non-ASCII digits Python 2 accepts in `unicode` strings are not modelled.
- The number of layers `split_disjoint` builds is not proved minimal. The layers are proved equal to the greedy deal, and coverage, order, disjointness and closing are proved of it.
- Partial output written before an exception is not modelled. For example, a hit's payload is written to all hits before its missing tab raises. On error the model returns only the error.
- SelectHits.ParseWrittenLine requires a payload that does not end in whitespace, because `strip()` would remove trailing whitespace from the line.
- The `main` of `merge_redundant.py` is not modelled. It looks up `unique_locs` by the tags `chrom_sorted` returns; since a tag such as `"01"` comes back as `"1"` (MergeRedundant.RenderedTagExample), that lookup would miss such a tag.
- `query_iterator` and the other helpers around the core in these files are not modelled. `collect_output` in `mr_blast.py`, which duplicates `collate_output`, is not part of this model.
