# joint-snv-mix: the sequential core, in Dafny

JointSNVMix classifies tumour/normal sequencing sites as reference, germline,
somatic, LOH and so on. Most of the package is statistics (EM training,
likelihoods) and file formats. This project models the three small sequential
algorithms that sit around them:

- **Classification driver** (`model_runners.py`):
  - it visits chromosomes in sorted name order;
  - it cuts each chromosome into windows of at most 100 000 rows and hands each window to an opaque classifier and writer;
  - the proportional training subsampler draws `min(C, ceil(C*S/N))` rows per chromosome, and its per-chromosome variant draws `min(C, S)`;
  - the independent-to-joint combiner builds the n x (a*b) product matrix;
  - the `(model, density)` dispatch table;
  - the Fisher runner's output row layout.
- **Somatic extractor** (`extract_somatics.py`):
  - it scores every row with `p_aa_ab + p_aa_bb`;
  - it keeps a bounded reservoir sorted by score, using bisect-right insertion and evicting at most one minimum per insertion;
  - a "largest gap" cutoff trims the reservoir;
  - the result is written in descending score order, under a 19-column header.
- **VarScan converter** (`varscan_to_jcnt.py`):
  - it turns each VarScan row into an 8-field joint-counts entry, with an empty `var` becoming `N`;
  - it groups entries per chromosome;
  - it flushes the buffer every 10 000 rows, then once more at the end.

Layout, one module per file:

| file | module | contents |
|---|---|---|
| `wrappers.dfy` | `Wrappers` | `Option` |
| `seqs.dfy` | `Seqs` | `Flatten`, `Sum`, `Distinct` and their lemmas |
| `chromosomes.dfy` | `Chromosomes` | Python string order, `sorted()` on names, the abstract reader (chromosome list plus a table per chromosome) |
| `windows.dfy` | `Chunking` | the 100 000-row window loop |
| `driver.dfy` | `Driver` | the per-chromosome driver, dispatch, the Fisher output rows |
| `combiner.dfy` | `Combiner` | `_get_joint_responsibilities` |
| `subsample.dfy` | `Subsample` | `_subsample` and `_chrom_subsample` |
| `somatics.dfy` | `Somatics` | the extractor |
| `varscan.dfy` | `VarScan` | the converter |

Calls into code outside this model become parameters:
- the statistical model's `classify` becomes `process`;
- `random.sample` becomes a `draws` argument, constrained to "distinct, in range, right count";
- the iteration order of a Python dict (`rows.items()`) becomes an `order` argument, constrained to list every key once.

The writer is modelled as the trace of calls it receives.

Two behaviours of the extractor are easy to misread, and the model follows the code in both:
- **Ties with the minimum are accepted.** `bisect.bisect` is bisect-right, so a score equal to the reservoir minimum lands at a position of at least 1 and is kept. `Somatics.Accepts` states this.
- **The cutoff keeps the entry below the gap.** It returns `rows[index:]`, which keeps the entry just below the largest gap rather than dropping it. `Somatics.LoadSomatics` states this.

## Model

| member | source | states |
|---|---|---|
| Chunking.Windows | joint_snv_mix/classification/model_runners.py:144-165 | the windows of a chromosome of `end` rows exactly partition [0, end): contiguous, increasing, non-empty, each at most 100 000 rows and all but the last exactly 100 000; there are ceil(end/100000) of them, none when end = 0 |
| Chunking.WindowLoop | joint_snv_mix/classification/model_runners.py:144-165 | the imperative `while start < end` loop (identical at 232-248, 294-310, 357-373, 445-460) produces exactly those windows |
| Chunking.PartitionUnique | joint_snv_mix/classification/model_runners.py:144-165 | any partition of [0, end) into full 100 000-row windows plus a short tail is the loop's output, so the loop's windows are the only such partition |
| Chunking.PartitionStarts | joint_snv_mix/classification/model_runners.py:144-165 | in such a partition, window k starts at row k*100000 |
| Chunking.WindowOf | joint_snv_mix/classification/model_runners.py:144-165 | every row p < end lies in window p / 100000 and in no other window |
| Chunking.ThreeWindows | joint_snv_mix/classification/model_runners.py:144-165 | a chromosome of 250 000 rows gives windows [0,100000), [100000,200000), [200000,250000) |
| Driver.SlicesCover | joint_snv_mix/classification/model_runners.py:150-151 | slicing the rows by the first m windows and concatenating gives exactly the rows before the m-th window's end |
| Driver.ClassifyChromosome | joint_snv_mix/classification/model_runners.py:138-165 | one chromosome gives ceil(C/100000) writer calls, call k writing exactly the rows of window k (rows [k*100000, min((k+1)*100000, C)) by `Chunking.Windows`) with the classifier's result for them; each call is for that chromosome with a non-empty slice of at most 100 000 rows; concatenated, the slices are the chromosome's rows in order |
| Driver.ClassifyNames | joint_snv_mix/classification/model_runners.py:75-79 | over a list of distinct names, the calls for each listed chromosome are exactly its window slices in window order, so its rows reach the writer once and in order; unlisted chromosomes never reach it; with sorted names the calls arrive in name order |
| Driver.Classify | joint_snv_mix/classification/model_runners.py:75-79 | `_classify` over the reader's chromosome list: for every chromosome the writer receives exactly its window slices, in window order, each with the classifier's result; nothing else is written; calls arrive in ascending chromosome order |
| Driver.FourWindows | joint_snv_mix/classification/model_runners.py:75-79 | chromosomes of 250 000 and 50 000 rows give four writer calls |
| Driver.Dispatch | joint_snv_mix/classification/model_runners.py:24-53 | the chosen runner belongs to the requested model and density; training is on exactly when a priors file is given; unsupported pairs give no runner |
| Driver.DispatchComplete | joint_snv_mix/classification/model_runners.py:24-53 | every runner is reachable by its own (model, density) pair; "fisher" ignores the density; ("independent", "multinomial") has no runner |
| Driver.ClassName | joint_snv_mix/classification/model_runners.py:462-468 | a label indexes the five class names as a Python tuple does: codes 0..4 name `classes[code]`, codes -5..-1 name `classes[code + 5]` (the name is `classes[code mod 5]` in both cases); any other label has no name |
| Driver.FisherLines | joint_snv_mix/classification/model_runners.py:462-473 | one output line per row, each the chromosome name, then the row's own fields, then the class name of its label; the window's lines exist exactly when every label has a class name |
| Driver.UnpackPacked | joint_snv_mix/classification/model_runners.py:464-468 | an output line can be split back into the chromosome, the row and the class name |
| Combiner.Combine | joint_snv_mix/classification/model_runners.py:167-186 | the joint matrix has the same row count and a*b columns, and column i*b+j of row r is normal[r][i] * tumour[r][j], normal being the outer index; no normal classes gives no matrix |
| Combiner.OuterRowIsProduct | joint_snv_mix/classification/model_runners.py:179-182 | a joint row of a normal row of length a and a tumour row of length b has a*b entries, and entry i*b+j is normal[i]*tumour[j] |
| Combiner.OuterRowSum | joint_snv_mix/classification/model_runners.py:179-186 | a joint row sums to the product of the two input row sums |
| Combiner.CombineStochastic | joint_snv_mix/classification/model_runners.py:167-186 | if both inputs are responsibility matrices (non-negative rows summing to 1), so is the joint matrix |
| Combiner.TwoByTwo | joint_snv_mix/classification/model_runners.py:167-186 | [[0.9, 0.1]] with [[0.8, 0.2]] gives [[0.72, 0.18, 0.08, 0.02]] |
| Subsample.CeilDiv | joint_snv_mix/classification/model_runners.py:97 | the ceiling of a/b: the least m with m*b >= a |
| Subsample.Quota | joint_snv_mix/classification/model_runners.py:97-101 | the per-chromosome quota q is at most C; q = C whenever S >= N; q - 1 is always below C*S/N (q*N < C*S + N); and when q is below C it also reaches C*S/N (q*N >= C*S), so q = min(C, ceil(C*S/N)) |
| Subsample.ChromSubsample | joint_snv_mix/classification/model_runners.py:375-386 | `_chrom_subsample` returns min(C, S) rows, a sub-multiset of the chromosome's rows, and all of them when S >= C; sample row k is the chromosome row at drawn index k |
| Subsample.Subsample | joint_snv_mix/classification/model_runners.py:87-113 | the sample is missing exactly when the data set is empty, where the source raises (a division by zero, or `np.vstack` of nothing); otherwise it is one chunk per chromosome stacked in `chr_list` order, chunk i holding that chromosome's quota of rows and its k-th row being the table row at the k-th drawn index; its size lies in [min(S, N), S + k - 1], k being the number of non-empty chromosomes; it is a sub-multiset of all rows, and all of them when S >= N |
| Subsample.QuotaSumBounds | joint_snv_mix/classification/model_runners.py:92-111 | the quotas of chromosomes summing to N total between min(S, N) and S + k - 1 |
| Subsample.QuotaSumLower | joint_snv_mix/classification/model_runners.py:97-101 | with S < N the quotas total at least S (times N: sum*N >= N*S) |
| Subsample.QuotaSumUpper | joint_snv_mix/classification/model_runners.py:97-101 | rounding up adds less than one row per non-empty chromosome |
| Subsample.QuotasFull | joint_snv_mix/classification/model_runners.py:97-101 | with S >= N every chromosome is taken whole |
| Subsample.PickSubMultiset | joint_snv_mix/classification/model_runners.py:103-107 | indexing rows with distinct in-range indices yields a sub-multiset of the rows |
| Subsample.PickAll | joint_snv_mix/classification/model_runners.py:103-107 | drawing all C indices yields the chromosome's rows as a multiset |
| Subsample.FlattenSubMultiset | joint_snv_mix/classification/model_runners.py:109-111 | stacking per-chromosome sub-multisets gives a sub-multiset of all rows |
| Subsample.ProportionalQuotas | joint_snv_mix/classification/model_runners.py:94-101 | chromosomes of 3, 0 and 7 rows with S = 5 get quotas 2, 0 and 4 |
| Chromosomes.SortNames | joint_snv_mix/classification/model_runners.py:78 | `sorted(chr_list)` is ordered by Python string comparison and is a permutation of the list |
| Chromosomes.SortedPermutationUnique | joint_snv_mix/classification/model_runners.py:78 | two sorted permutations of the same names are equal, so the sorted order is unique |
| Chromosomes.SortNamesDistinct | joint_snv_mix/classification/model_runners.py:78 | sorting keeps distinct names distinct |
| Chromosomes.LessTotal | joint_snv_mix/classification/model_runners.py:78 | string order is total: two names are equal or one precedes the other |
| Somatics.FieldsLayout | joint_snv_mix/post_processing/extract_somatics.py:13-31 | the header has 19 distinct columns, the 10 base fields then the nine p_g1_g2 names, with g1 the outer loop over aa, ab, bb; p_aa_ab and p_aa_bb are the 12th and 13th |
| Somatics.Score | joint_snv_mix/post_processing/extract_somatics.py:63 | the score is the posterior mass on a homozygous-reference normal with a variant tumour (`p_aa_ab + p_aa_bb`); with non-negative columns it is at least each of them; its partner is `FormatRow`'s clause `Prob(r) == Score(row)`, which stores it as somatic_prob |
| Somatics.FormatRow | joint_snv_mix/post_processing/extract_somatics.py:94-99 | the formatted row keeps every other field, sets somatic_prob to p_aa_ab + p_aa_bb and chrom to the chromosome name, and scores the same as its input |
| Somatics.FormatRowIdempotent | joint_snv_mix/post_processing/extract_somatics.py:94-99 | formatting a formatted row again changes nothing |
| Somatics.Bisect | joint_snv_mix/post_processing/extract_somatics.py:65 | `bisect.bisect` returns the position after every score <= x and before every score > x (bisect-right) |
| Somatics.Accepts | joint_snv_mix/post_processing/extract_somatics.py:65-67 | a row is accepted exactly when the reservoir is empty or its score is at least the minimum, so ties are accepted |
| Somatics.Insert | joint_snv_mix/post_processing/extract_somatics.py:65-72 | insertion keeps scores ascending and aligned with rows, adds exactly the new score to the score multiset and exactly the new row to the row multiset, and, for an accepted score (the reservoir empty or the score at least its minimum), the new first entry is the old first entry (or the new one in an empty reservoir); the new score and row both sit at index `bisect_right(scores, s)`, with every entry before it unmoved and every entry from it on shifted up by one, so a tie goes after the equal scores |
| Somatics.Offer | joint_snv_mix/post_processing/extract_somatics.py:62-76 | one row: a rejected row changes nothing; an accepted row is kept with no eviction exactly when the new minimum is above the threshold and the size is within capacity, and then the scores and the rows each gain exactly the new entry; otherwise exactly the new minimum score and its row are evicted; the reservoir stays sorted, aligned, within capacity and above the threshold; on the grow path the result is the insertion at index `bisect_right(scores, s)`, and on the evict path it is that insertion with its first entry popped |
| Somatics.PopMin | joint_snv_mix/post_processing/extract_somatics.py:75-76 | `scores.pop(0)` and `rows.pop(0)` drop the first entry of both lists and keep the rest, in order and aligned; the multisets lose exactly that entry |
| Somatics.OfferFull | joint_snv_mix/post_processing/extract_somatics.py:74-76 | offering a row to a full reservoir swaps out the old minimum |
| Somatics.TinyScoreDropped | joint_snv_mix/post_processing/extract_somatics.py:44-76 | a score at or below 1e-6 offered to an empty reservoir is evicted at once |
| Somatics.Run | joint_snv_mix/post_processing/extract_somatics.py:51-76 | after any sequence of rows the reservoir is sorted, aligned, within capacity, above the threshold, and holds only formatted input rows |
| Somatics.RunSnoc | joint_snv_mix/post_processing/extract_somatics.py:62-76 | scanning one more row is one more offer |
| Somatics.SmallScan | joint_snv_mix/post_processing/extract_somatics.py:62-76 | with capacity 2 and threshold 0, scores 5, 1, 9, 2, 7 leave [7, 9] |
| Somatics.TieJoinsLast | joint_snv_mix/post_processing/extract_somatics.py:65-72 | a row scoring the same as the largest held score, offered with room to spare, joins after every held row (bisect_right on a tie) |
| Somatics.RoomyScan | joint_snv_mix/post_processing/extract_somatics.py:62-76 | with capacity 3 and threshold 0, the same scores leave [5, 7, 9]: the last row joins without an eviction |
| Somatics.Stream | joint_snv_mix/post_processing/extract_somatics.py:54-62 | the scanned rows: every chromosome in the list once, in sorted order, except 'Y' and 'MT', which contribute nothing |
| Somatics.GapIndex | joint_snv_mix/post_processing/extract_somatics.py:80-88 | the cutoff index is the first i with the strictly largest positive gap, and 0 with fewer than two scores or no positive gap |
| Somatics.GapStep | joint_snv_mix/post_processing/extract_somatics.py:83-88 | one loop iteration keeps the largest-gap property, replacing the index only on a strictly larger gap |
| Somatics.LargestGapUnique | joint_snv_mix/post_processing/extract_somatics.py:80-88 | the largest-gap index is unique |
| Somatics.CutoffIdempotent | joint_snv_mix/post_processing/extract_somatics.py:80-90 | cutting the cutoff's own output again cuts nothing |
| Somatics.LargestGap | joint_snv_mix/post_processing/extract_somatics.py:80-88 | the imperative gap loop returns that index |
| Somatics.ScanChromosome | joint_snv_mix/post_processing/extract_somatics.py:60-76 | the inner loop over a chromosome's rows equals offering them one by one |
| Somatics.Scan | joint_snv_mix/post_processing/extract_somatics.py:49-76 | the whole scan equals offering the sorted, filtered stream of rows |
| Somatics.LoadSomatics | joint_snv_mix/post_processing/extract_somatics.py:43-92 | `load_somatics` returns the reservoir's rows from the largest-gap index on, so the entry just below the gap is kept |
| Somatics.Reverse | joint_snv_mix/post_processing/extract_somatics.py:35 | reversal puts element k at position len-1-k |
| Somatics.ExtractSomatics | joint_snv_mix/post_processing/extract_somatics.py:33-40 | the output is the cut reservoir reversed: descending by somatic_prob, at most 100 000 rows, every probability above 1e-6, every row a formatted input row |
| Somatics.CutReversed | joint_snv_mix/post_processing/extract_somatics.py:33-92 | any suffix of a valid reservoir, reversed, is descending, within capacity and above the threshold |
| VarScan.NonRefBase | joint_snv_mix/pre_processing/varscan_to_jcnt.py:16-17 | an empty `var` becomes 'N', and any other value is kept unchanged |
| VarScan.NonRefBaseIdempotent | joint_snv_mix/pre_processing/varscan_to_jcnt.py:16-17 | the replacement is idempotent, and leaves `var` unchanged exactly when it is non-empty |
| VarScan.ToEntry | joint_snv_mix/pre_processing/varscan_to_jcnt.py:24-43 | both non-reference bases of the entry are the (completed, non-empty) var base, and reading the entry back under the record's chromosome gives the record with that base; its partner is `EntryRoundTrip` |
| VarScan.EntryRoundTrip | joint_snv_mix/pre_processing/varscan_to_jcnt.py:24-43 | an entry holds position, ref, var, var, normal reads1, normal reads2, tumour reads1, tumour reads2: the row can be rebuilt from it (with `N` for an empty var), and an entry whose two non-ref bases agree is rebuilt exactly |
| VarScan.Entries | joint_snv_mix/pre_processing/varscan_to_jcnt.py:15-45 | the converted entries are the input rows converted one for one |
| VarScan.GroupSelect | joint_snv_mix/pre_processing/varscan_to_jcnt.py:19-45 | the per-chromosome buffer holds exactly that chromosome's entries in input order, and has a key exactly for the chromosomes seen |
| VarScan.ChunksShape | joint_snv_mix/pre_processing/varscan_to_jcnt.py:49-60 | R rows give floor(R/10000) full flushes of exactly 10 000 rows and one final flush of fewer than 10 000, and together they are the input |
| VarScan.Convert | joint_snv_mix/pre_processing/varscan_to_jcnt.py:12-60 | the conversion loop flushes exactly the grouped chunks, floor(R/10000) + 1 flushes in all, the last one unconditional and possibly empty |
| VarScan.WriteRows | joint_snv_mix/pre_processing/varscan_to_jcnt.py:64-66 | `write_rows` makes one `add_rows` call per key, in the iteration order, call k passing key k and its whole buffered list; its partners are `WriteRowsFor` and `WriteRowsExactlyOnce` |
| VarScan.WriteRowsFor | joint_snv_mix/pre_processing/varscan_to_jcnt.py:64-66 | `write_rows` passes each chromosome's buffered entries to `add_rows` once, whatever the dict order |
| VarScan.WriteRowsExactlyOnce | joint_snv_mix/pre_processing/varscan_to_jcnt.py:64-66 | the entries written for one flush are, as a multiset, exactly the flushed rows converted |
| VarScan.ConvertWritesAll | joint_snv_mix/pre_processing/varscan_to_jcnt.py:45-66 | across all flushes each chromosome's `add_rows` batches concatenate to exactly its input rows in order, and every input row is written exactly once |
| VarScan.ThreeFlushes | joint_snv_mix/pre_processing/varscan_to_jcnt.py:49-60 | 25 000 rows give flushes of 10 000, 10 000 and 5 000 |
| VarScan.EmptyFinalFlush | joint_snv_mix/pre_processing/varscan_to_jcnt.py:49-60 | 10 000 rows give one full flush and an empty final flush |

## Left out

- Subsample.Quota: the source computes `ceil(float(C)/N*S)` in floating point; the model uses the exact integer ceiling of C*S/N. They can differ by one when the float quotient rounds across an integer.
- Combiner.Combine: the source computes `exp(log(normal) + log(tumour))` in float64; the model uses the exact real product. Underflow and rounding are not modelled. Neither is the effect of `log` on a zero entry (`-inf`, giving 0 back) or a negative one (NaN).
- Somatics.Score: scores are exact reals, but the source adds two float64 values (`p_aa_ab + p_aa_bb`) and compares them with the float64 `1e-6`. Rounding can make two scores tie or change their order. A NaN score makes every `bisect` comparison false, which the model does not represent.
- Somatics.GapIndex: the gaps `scores[i + 1] - scores[i]` and the `diff > max_diff` test are float64 in the source. Rounding can change which gap is strictly largest; the model uses exact differences.
- Subsample.RowCount: the data set size `get_data_set_size()` is taken to be the sum of the chromosome table sizes. The reader computing it is not part of this model.
- Statistical models (`train`, `classify`, EM, likelihoods, the Fisher test) are opaque: `process` in the driver, and a label sequence for the Fisher runner.
- The training path (`_train`, priors and parameter parsers, `_write_parameters`, `_write_priors`) is left out. So is `ModelRunner.run`'s load path: `_load_parameters` is not defined anywhere in `model_runners.py`, and the independent runner never opens its reader or writer.
- File formats and I/O (`JointCountsReader`, `JointSnvMixReader`, the writers, `JointCountsFile`, `csv`, `open`, `close`) are left out. Readers are an abstract chromosome list plus a table per chromosome; writers are call traces.
- `random.sample` is not modelled as randomness. It is a caller-supplied list of indices, required to be distinct, in range and of the quota's length.
- Python 2 dict iteration order in `write_rows` is not modelled; it is a parameter, required to list each key once.
- `print` output and the matplotlib import are left out: they are side effects with no effect on results.
- `int()` parse errors on VarScan columns are left out: the model takes the parsed integers as given.
- `row.real` in `format_rows` is the identity on the real-valued record modelled here.
- Writer-side rejection by `csv.DictWriter` of keys outside `fields` is not modelled.
- Driver.FisherLines: when a label in a window has no class name, or the window has fewer labels than rows, the source has already written the rows before the failing one (the first `len(labels)` rows in the second case) before raising `IndexError`; the model returns no lines for the whole window in both cases.
- Driver.Dispatch: an unsupported (model, density) pair is `None`; the source raises because `runner` is unbound.
