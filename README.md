# NumaHem in Dafny

NumaHem is a memory-tiering runtime for machines with a fast DRAM node and a
slower remote NUMA node, plus the Python scripts used to evaluate it. The C
runtime intercepts `mmap`/`munmap` and splits each mapping into 2 MB page
descriptors. It samples memory accesses with PEBS through perf ring buffers,
keeps a heat counter per descriptor, and queues descriptors on a hot list
(for promotion to DRAM) or a cold list (for demotion). A history-based
predictor collects each page's nearest neighbours in time. The scripts read
the binary access traces the runtime writes and compute several results:

- how accurately a predicted trace anticipates the observed one, within
  sliding time windows;
- how long migrations take;
- how accesses cluster in the address space;
- a few smaller log extractions.

This project models that core and proves its properties. Each module has one
file:

- `Outcomes` (result.dfy): `Result`/`Option` for error paths
- `Numerics` (numerics.dfy): Python's `int()`, `math.floor`, `math.ceil` on reals
- `Sorting`, `Permutations` (sorting.dfy): `sorted`, `list.sort(key=)`, `np.argsort`, `sorted(set(..))`, fancy indexing
- `TraceRecord` (trace_record.dfy): the 29-byte trace record, record counts and the percent-range readers
- `SlidingWindow` (sliding_window.dfy): `accuracy_sliding_window` and the report of pred_acc.py
- `Normalization` (normalize.dfy): the min/max time normalisation of both accuracy scripts
- `MultiWindow` (multi_window.dfy): `accuracy_multiwindows` and `evaluate_for_windows`
- `MigrationLatency` (mig_latency.dfy): `match_made_to_finished`, `get_final_log_time`, `bin_and_average`
- `Clusters` (clusters.dfy): `infer_clusters`, `cluster_mem`, the cluster filter, `parse_mem`
- `PlotStats` (plot_stats.dfy): `slice_lines_by_percent` and `parse_sparse`
- `DecimalTokens` (decimal_tokens.dfy): `parse_cgups`, `check_args`, `parse_stream`, `extract_numbers_from_file`, `plot_numbers`, `main` of plot_cgups.py
- `Pages` (pages.dfy): `struct tmem_page` as a class
- `PageHistory` (page_history.dfy): `algorithm.c`: the history ring and neighbour slots
- `Tmem` (tmem.dfy): `tmem.c`: descriptor arithmetic, page table, free list, `tmem_mmap`, `tmem_munmap`
- `Pebs` (pebs.dfy): `pebs.c`: ring-buffer reader, heat counter, hot/cold list requests, migration

The code keeps the source's form:

- Loops that update variables are methods with loop invariants. Each is
  proved equal to a specification function, and the properties are proved
  about those functions.
- Runtime state that the C code updates in place is a class whose methods
  carry `modifies` clauses. These classes are the page table and free list
  (`Tmem.Tmem`), the history ring over an array (`PageHistory.History`), the
  lists and clocks of the sampler (`Pebs.Sampler`) and a perf buffer
  (`Pebs.PerfBuffer`).
- 64-bit wrap-around is written out as `% 2^64` where the C code relies on
  it. This covers `head - tail`, `tail + size`, `PAGE_ROUND_UP`, the
  descriptor count and `cur_cyc - last_cyc_cool`.
- Floating-point values are exact reals.

## Model

| member | source | states |
|---|---|---|
| Numerics.Trunc | scripts/plot_scripts/pred_acc.py:74-75 | `int(x)` truncates toward zero: for `x >= 0` the result is the greatest integer not above `x`, for `x < 0` the least not below it |
| Numerics.Floor | scripts/plot_scripts/plot_pebs_mig.py:123 | `math.floor`: the unique integer `n` with `n <= x < n + 1` |
| Numerics.Ceil | scripts/plot_scripts/plot_pebs_mig.py:130 | `math.ceil`: the unique integer `n` with `n - 1 < x <= n` |
| Numerics.TruncMonotone | scripts/plot_scripts/pred_acc.py:74-75 | on non-negative reals truncation never decreases, so a larger end percent never selects an earlier record |
| Numerics.IntegralFixed | scripts/plot_scripts/plot_pebs_mig.py:123 | all three conversions leave an integral value unchanged |
| Sorting.InsertBy | scripts/plot_scripts/plot_pebs_mig.py:96 | inserting into a sorted list keeps it sorted by the key and adds exactly one occurrence of the element |
| Sorting.SortBy | scripts/plot_scripts/plot_pebs_mig.py:96 | `list.sort(key=...)`: the result is a permutation of the input (same multiset) in non-decreasing key order |
| Sorting.SortReals | scripts/plot_scripts/plot_pred_accs.py:159 | `sorted(windows)`: a permutation of the widths in non-decreasing order |
| Sorting.Range | scripts/plot_scripts/parse_apps.py:19 | `range(n)`: the indices `0..n-1` in order |
| Sorting.ArgSort | scripts/plot_scripts/plot_pred_accs.py:168-174 | `np.argsort`: a permutation of the indices of the keys, listing the keys in non-decreasing order |
| Sorting.PermutationInRange | scripts/plot_scripts/plot_pred_accs.py:168-174 | every index of a permutation of `0..n-1` is below `n`, so `cyc[idx]` is defined |
| Sorting.Dedup | scripts/plot_cluster_no_app.py:65 | `set(...)`: the same elements as the input, each once |
| Sorting.SortedSet | scripts/plot_cluster_no_app.py:65 | `sorted(set(addresses))`: exactly the input's elements, strictly increasing |
| Sorting.DistinctAfterPermutation | scripts/plot_cluster_no_app.py:65 | a permutation of a duplicate-free list is duplicate-free |
| Sorting.CountAtMostOne | scripts/plot_cluster_no_app.py:65 | in a duplicate-free list every value occurs at most once |
| Permutations.Permute | scripts/plot_scripts/plot_pred_accs.py:169-174 | `s[idx]`: element `k` of the result is `s[idx[k]]` |
| Permutations.CountWhereAppend | scripts/plot_scripts/plot_pred_accs.py:147-150 | counting the elements that satisfy a predicate is additive over concatenation |
| Permutations.CountWhereMultiset | scripts/plot_scripts/plot_pred_accs.py:167-174 | the count of elements satisfying a predicate depends only on the multiset, not on the order |
| Permutations.PermutePreservesMultiset | scripts/plot_scripts/plot_pred_accs.py:168-174 | reordering by an argsort permutation keeps the multiset of elements |
| Permutations.MapMultiset | scripts/plot_scripts/plot_pred_accs.py:168-174 | applying the same function to two lists with equal multisets gives lists with equal multisets |
| Permutations.PermutationOnto | scripts/plot_scripts/plot_pred_accs.py:168-174 | every index `0..n-1` occurs in a permutation of `0..n-1` |
| TraceRecord.DecodeLE | scripts/plot_scripts/plot_pred_accs.py:73-79 | a little-endian field of `n` bytes holds a value below `256^n` |
| TraceRecord.EncodeLE | src/pebs.c:243-250 | encoding a value that fits in `n` bytes gives `n` bytes that decode back to the value |
| TraceRecord.EncodeDecodeLE | scripts/plot_scripts/plot_pred_accs.py:73-79 | decoding then re-encoding any `n` bytes gives the same bytes (the byte format is a bijection) |
| TraceRecord.DecodeRecord | scripts/plot_scripts/plot_pred_accs.py:73-79 | the `<u8,<u8,<u8,<u4,u1` dtype: 29 bytes decode to a record whose every field fits its width |
| TraceRecord.EncodeRecord | src/pebs.c:243-250 | the packed record the runtime writes is 29 bytes and decodes back to the same record |
| TraceRecord.EncodeDecodeRecord | scripts/plot_scripts/plot_pred_accs.py:73-80 | re-encoding a decoded record gives back its 29 bytes |
| TraceRecord.RecordCount | scripts/plot_scripts/plot_pred_accs.py:80-82 | `total_bytes // 29`: the largest `n` with `29n <= total_bytes` |
| TraceRecord.DecodeAll | scripts/plot_scripts/plot_pred_accs.py:80-94 | the whole records of a file, in order; there really are `floor(size/29)` of them |
| TraceRecord.TrailingBytesIgnored | scripts/plot_scripts/plot_pred_accs.py:82 | fewer than 29 trailing bytes add no record |
| TraceRecord.PercentIndexBounds | scripts/plot_scripts/plot_pred_accs.py:84-85 | percentages in `[0,100]` select record indices in `[0,total]`, monotonically |
| TraceRecord.PercentIndexEnds | scripts/plot_scripts/pred_acc.py:74-75 | 0 percent is the first record and 100 percent is one past the last |
| TraceRecord.ReadRecords | scripts/plot_scripts/plot_pred_accs.py:90-92 | `np.fromfile(count=...)` after a seek: at most `count` consecutive records from `start`, exactly `count` when the file has them, and fewer only when the read reaches the end of the file |
| TraceRecord.ParseTraceMulti | scripts/plot_scripts/plot_pred_accs.py:72-94 | plot_pred_accs.py's `parse_trace` fails exactly when the selected count is not positive (or the seek is negative); otherwise it returns consecutive records from `start`, exactly `end-start` of them unless the file ends first |
| TraceRecord.ParseTraceSingle | scripts/plot_scripts/pred_acc.py:67-93 | pred_acc.py's `parse_trace`: an empty file is an error; a selection of 0 records (`max(0, end-start)`) is an error; a negative seek is an error exactly when the file is non-empty and the selection positive; "no addresses" exactly when the file is non-empty and a positive selection starts at or past its end; otherwise it returns, non-empty, the records from `start`, exactly `end-start` of them unless the file ends first |
| TraceRecord.ParseTraceSingleWholeFile | scripts/plot_scripts/pred_acc.py:155-156 | with the 0..100 percentages a non-empty file is read whole |
| TraceRecord.ParseMem | scripts/plot_cluster_no_app.py:30-61 | `parse_mem` reads records `[int(total*start/100), int(total*end/100))`, stopping early at the end of the file, and reports "no addresses" exactly when nothing is read |
| SlidingWindow.HitsUpTo | scripts/plot_scripts/pred_acc.py:120-143 | the number of hits among the first `k` predictions is at most `k` |
| SlidingWindow.StateAfterIsReady | scripts/plot_scripts/pred_acc.py:124-137 | with time-sorted predictions the window state after prediction `k` is a valid starting state for prediction `k+1` |
| SlidingWindow.Advance | scripts/plot_scripts/pred_acc.py:124-137 | the two `while` loops: `left` and `right` only grow, and afterwards `left <= right <= N`; every index below `right` has `cyc <= ts+window` and the one at `right` is later; every index below `left` has `cyc < ts` and the one at `left` does not; the counter holds exactly the counts of `va[left..right)` with no zero key |
| SlidingWindow.Expand | scripts/plot_scripts/pred_acc.py:125-128 | the expand loop stops at the first event later than `ts+window` (or the end), every event it passed is within the bound, and the counter then counts `va[left..right)` |
| SlidingWindow.Contract | scripts/plot_scripts/pred_acc.py:132-137 | the contract loop stops at the first event at or after `ts`, never passes `right`, and evicts keys whose count reaches zero so the counter counts `va[left..right)` |
| SlidingWindow.MembershipIsHit | scripts/plot_scripts/pred_acc.py:139-143 | on a sorted trace, `paddr in counter` holds exactly when `paddr` was accessed at some time in `[ts, ts+window]` |
| SlidingWindow.AccuracySlidingWindow | scripts/plot_scripts/pred_acc.py:99-146 | `total` is the number of predictions; `hits` is the number of predictions that are hits by the definition above; `hits + misses == total`; accuracy is `hits/total*100`, or 0 when there are none |
| SlidingWindow.AccuracyBounds | scripts/plot_scripts/pred_acc.py:145 | the accuracy lies in `[0,100]` |
| SlidingWindow.SinglePredictionAccuracy | scripts/plot_scripts/pred_acc.py:145 | with one prediction the accuracy is 0 or 100 |
| SlidingWindow.ColdReport | scripts/plot_scripts/pred_acc.py:189-194 | the cold report keeps the total and swaps hits and misses |
| SlidingWindow.ColdReportAccuracy | scripts/plot_scripts/pred_acc.py:189-194 | for a consistent run the printed `100 - accuracy` is the run's miss rate |
| SlidingWindow.MissRate | scripts/plot_scripts/pred_acc.py:194 | `100 - hits/total*100 == misses/total*100` when `hits + misses == total` |
| Normalization.Min | scripts/plot_scripts/pred_acc.py:161 | `np.min`: an element of the trace that no element is below |
| Normalization.Max | scripts/plot_scripts/pred_acc.py:160 | `np.max`: an element of the trace that no element exceeds |
| Normalization.AsReals | scripts/plot_scripts/pred_acc.py:164 | integer cycle counts as exact reals, element by element |
| Normalization.Normalize | scripts/plot_scripts/pred_acc.py:164-165 | element `i` of the result is `(t_i - lo)/span` |
| Normalization.ScaleMonotone | scripts/plot_scripts/pred_acc.py:164-165 | normalising keeps the order of any two timestamps, in both directions |
| Normalization.ScaledWindow | scripts/plot_scripts/plot_pred_accs.py:164-165 | a normalised window of width `w` is a raw window of width `w*(hi-lo)` |
| Normalization.NormalizedHit | scripts/plot_scripts/plot_pred_accs.py:164-165 | a prediction is a hit in normalised time exactly when it is a hit in raw cycles with the width scaled |
| Normalization.NormalizedHitsUpTo | scripts/plot_scripts/plot_pred_accs.py:164-165 | the same for the hit count of every prefix |
| Normalization.NormalizedHitCount | scripts/plot_scripts/pred_acc.py:164-172 | normalising both traces changes no hit count beyond scaling the width |
| Normalization.NormalizeTraces | scripts/plot_scripts/pred_acc.py:160-169 | an error exactly when all timestamps of both traces are equal; otherwise both traces are mapped into `[0,1]`, keeping every cross-trace order |
| Normalization.InUnitInterval | scripts/plot_scripts/pred_acc.py:164-165 | a timestamp within the joint range normalises into `[0,1]` |
| Normalization.ColdRunAsWritten | scripts/plot_scripts/pred_acc.py:157-178 | the code as written: the cold trace keeps raw cycle counts while the observed trace is normalised into `[0,1]`, so a cold trace whose counts exceed 1 scores no hit and its report prints 100% |
| Normalization.NormalizeCold | scripts/plot_scripts/pred_acc.py:160-165 | the cold trace normalised with the joint range of the observed and predicted traces: an error exactly when that range is empty, otherwise one timestamp per cold prediction |
| Normalization.ColdRunIntended | scripts/plot_scripts/pred_acc.py:157-178 | with the cold trace normalised like the others, the cold hit count is the raw-cycle hit count with the window scaled by the joint range |
| MultiWindow.StepLane | scripts/plot_scripts/plot_pred_accs.py:126-150 | one width's share of a prediction takes its lane (pointers, counter, hit and miss counts) from the state after `k` predictions to the state after `k+1` |
| MultiWindow.AccuracyMultiWindows | scripts/plot_scripts/plot_pred_accs.py:96-155 | one accuracy per width, in the given order; entry `k` depends only on width `k` and equals `hits/total*100` for that width's hit count; zero predictions with some width is the division error |
| MultiWindow.EvaluateForWindows | scripts/plot_scripts/plot_pred_accs.py:158-179 | empty traces are an error; otherwise entry `k` is the raw-cycle accuracy of the `k`-th smallest width, so accuracies come in ascending-width order |
| MultiWindow.ScaleTraces | scripts/plot_scripts/plot_pred_accs.py:161-165 | the normalised traces have the hit counts of the raw ones with every width stretched by `hi-lo` |
| MultiWindow.NonNegativeAfterSort | scripts/plot_scripts/plot_pred_accs.py:159 | sorting non-negative widths keeps them non-negative |
| MultiWindow.SortTraces | scripts/plot_scripts/plot_pred_accs.py:167-174 | after argsort both traces are time-sorted and every hit count is unchanged |
| MultiWindow.ReorderedTraceHit | scripts/plot_scripts/plot_pred_accs.py:168-170 | reordering the observed trace by one permutation for both `cyc` and `va` keeps each address with its time, so every prediction keeps its hit status |
| MultiWindow.Zip | scripts/plot_scripts/plot_pred_accs.py:121 | `zip(p_cyc, p_va)`: the `k`-th pair is `(p_cyc[k], p_va[k])` |
| MultiWindow.HitsUpToCount | scripts/plot_scripts/plot_pred_accs.py:121-150 | the hit count is the number of `(ts, paddr)` pairs that are hits |
| MultiWindow.ReorderedHitCount | scripts/plot_scripts/plot_pred_accs.py:167-174 | reordering either trace by a permutation (the same one for both columns) leaves the hit count unchanged |
| MigrationLatency.NextLater | scripts/plot_scripts/plot_pebs_mig.py:85-86 | the inner `while` stops at the first finished time at or after `j` that is strictly later than `t`, or at the end |
| MigrationLatency.Consumed | scripts/plot_scripts/plot_pebs_mig.py:83-94 | the finished indices consumed for one address: at most one per made time, all at or after `j` |
| MigrationLatency.PairUp | scripts/plot_scripts/plot_pebs_mig.py:89-93 | one `(made, fin - made)` match per consumed index |
| MigrationLatency.ConsumedIncreasing | scripts/plot_scripts/plot_pebs_mig.py:81-94 | the cursor strictly increases, so each finished time is used at most once and there are at most `len(finished)` matches |
| MigrationLatency.ConsumedLater | scripts/plot_scripts/plot_pebs_mig.py:85-90 | each matched made time is paired with a strictly later finished time |
| MigrationLatency.ConsumedFirst | scripts/plot_scripts/plot_pebs_mig.py:85-89 | it is the first unconsumed finished time that is strictly later |
| MigrationLatency.ConsumedExhausted | scripts/plot_scripts/plot_pebs_mig.py:87-88 | when the matching stops early, no unconsumed finished time is later than the next made time |
| MigrationLatency.AddressMatchesPositive | scripts/plot_scripts/plot_pebs_mig.py:83-94 | at most `min(len(made), len(finished))` matches per address, each with its own made time, a positive delta and a finished time of that address |
| MigrationLatency.NoMatchesWithoutEntries | scripts/plot_scripts/plot_pebs_mig.py:78-80 | an address without finished times (or without made times) yields no matches |
| MigrationLatency.ConsumedStep | scripts/plot_scripts/plot_pebs_mig.py:83-94 | one turn of the `for` loop either stops matching or consumes exactly the next later finished time |
| MigrationLatency.SkipNotLater | scripts/plot_scripts/plot_pebs_mig.py:85-86 | the `while` loop computes `NextLater` |
| MigrationLatency.MatchAddress | scripts/plot_scripts/plot_pebs_mig.py:78-94 | one address's loop produces exactly the specified matches |
| MigrationLatency.AllMatchesAreLater | scripts/plot_scripts/plot_pebs_mig.py:77-94 | every match pairs a made time of some address with a strictly later finished time of the same address |
| MigrationLatency.MatchMadeToFinished | scripts/plot_scripts/plot_pebs_mig.py:70-97 | the result is a permutation of the per-address matches, sorted by made time |
| MigrationLatency.FinalLogTime | scripts/plot_scripts/plot_pebs_mig.py:99-112 | the running maximum: at least every timestamp, and either 0.0 or one of them |
| MigrationLatency.SecondKeys | scripts/plot_scripts/plot_pebs_mig.py:122-123 | each match's key is `int(floor(made/bin)*bin)` |
| MigrationLatency.Deltas | scripts/plot_scripts/plot_pebs_mig.py:122-124 | the latencies of one bin, in order |
| MigrationLatency.LowestKey | scripts/plot_scripts/plot_pebs_mig.py:129 | `min(bins.keys())`: a key no key is below |
| MigrationLatency.DeltasEmptyIff | scripts/plot_scripts/plot_pebs_mig.py:134-138 | a bin is empty exactly when no match has its key |
| MigrationLatency.DeltaInItsBin | scripts/plot_scripts/plot_pebs_mig.py:124 | every latency lands in the bin of its key |
| MigrationLatency.BinHoldsOnlyItsKey | scripts/plot_scripts/plot_pebs_mig.py:124 | each latency of a bin comes from a match with that key |
| MigrationLatency.TableRow | scripts/plot_scripts/plot_pebs_mig.py:132-138 | row `s - lo` of the table has key `s` and the mean of that bin's latencies, which is 0.0 exactly when the bin is empty |
| MigrationLatency.BinAndAverage | scripts/plot_scripts/plot_pebs_mig.py:114-140 | the two loops compute `BinnedAverages`: empty for no matches, else one row per key `min_sec..max_sec` |
| MigrationLatency.GroupBySecond | scripts/plot_scripts/plot_pebs_mig.py:121-124 | the `defaultdict` holds, for exactly the keys that occur, their latencies in order |
| MigrationLatency.FillRows | scripts/plot_scripts/plot_pebs_mig.py:132-138 | one row per integer key from `lo` to `hi`, the bin's mean or 0.0 |
| MigrationLatency.SecondKeysLoseMatch | scripts/plot_scripts/plot_pebs_mig.py:123-133 | the code as written: with a 2-second bin, a match at 9.0 s and a log end of 10.0 s the result is empty |
| MigrationLatency.BinIndexKeys | scripts/plot_scripts/plot_pebs_mig.py:123 | the corrected key `floor(made/bin)`, measured in bins like `max_sec` |
| MigrationLatency.IndexBinsKeepMatches | scripts/plot_scripts/plot_pebs_mig.py:114-140 | with keys in bins, every match up to the log end is in some row, and its row averages the latencies of its bin and is positive |
| MigrationLatency.DefaultBinAgrees | scripts/plot_scripts/plot_pebs_mig.py:114 | with the default 1-second bin the written and corrected keyings give the same table |
| Clusters.Openings | scripts/plot_cluster_no_app.py:69-74 | the indices that start clusters, increasing from 0 |
| Clusters.OpeningsExact | scripts/plot_cluster_no_app.py:71-72 | an index starts a cluster exactly when it is the first or the gap before it is at least the threshold |
| Clusters.ClustersAt | scripts/plot_cluster_no_app.py:69-75 | one cluster per opening, from its address to the address before the next opening |
| Clusters.InferredClusters | scripts/plot_cluster_no_app.py:64-76 | a non-empty list of clusters for non-empty input |
| Clusters.InferClusters | scripts/plot_cluster_no_app.py:64-76 | the `for` loop with the moving `cluster_start` computes `InferredClusters` with the threshold `gap_gb * 2^30` |
| Clusters.ClustersStep | scripts/plot_cluster_no_app.py:70-74 | one iteration keeps "closed clusters + the open one" equal to the clusters of the prefix |
| Clusters.ClustersAscending | scripts/plot_cluster_no_app.py:69-75 | every cluster has `start <= end` with both ends input addresses, and the clusters are ascending and disjoint |
| Clusters.ClustersSeparated | scripts/plot_cluster_no_app.py:71-72 | neighbouring clusters are at least the gap threshold apart |
| Clusters.ClustersSpan | scripts/plot_cluster_no_app.py:66-75 | the first cluster starts at the lowest address and the last ends at the highest |
| Clusters.EveryAddressInOneCluster | scripts/plot_cluster_no_app.py:64-76 | every input address lies in exactly one cluster |
| Clusters.SplitExactlyAtGaps | scripts/plot_cluster_no_app.py:71-73 | a cluster starts at a sorted address exactly when the gap before it is at least the threshold |
| Clusters.SortedSetIncreasing | scripts/plot_cluster_no_app.py:65 | `sorted(set(...))` is strictly increasing |
| Clusters.FirstCluster | scripts/plot_cluster_no_app.py:86-88 | the first cluster whose range holds the address, with no earlier one holding it |
| Clusters.FindCluster | scripts/plot_cluster_no_app.py:86-88 | the inner `for ... break` loop finds `FirstCluster` |
| Clusters.FirstClusterUnique | scripts/plot_cluster_no_app.py:86-88 | the first holding cluster is unique |
| Clusters.MembersSnoc | scripts/plot_cluster_no_app.py:85-94 | each record joins its first cluster and no other |
| Clusters.ListsAppend | scripts/plot_cluster_no_app.py:89-93 | appending a record's field to its cluster's list keeps each list equal to that field of the cluster's members in trace order |
| Clusters.ClusterMem | scripts/plot_cluster_no_app.py:79-96 | the five lists of cluster `k` hold the fields of the records first assigned to `k`, in trace order, so they have equal lengths |
| Clusters.MembersPartitionAssigned | scripts/plot_cluster_no_app.py:85-94 | together the clusters' lists hold exactly the records some cluster holds, each once |
| Clusters.InferredClustersHoldAll | scripts/plot_cluster_no_app.py:64-94 | with clusters inferred from the records' own addresses every record is assigned |
| Clusters.ClusterSizesSumToTrace | scripts/plot_cluster_no_app.py:157-162 | the cluster sizes sum to the number of records |
| Clusters.ZipGroups | scripts/plot_cluster_no_app.py:174-177 | `zip` yields exactly as many groups as the shortest of its six inputs, and group `k` holds element `k` of every input |
| Clusters.Shortest | scripts/plot_cluster_no_app.py:174-177 | the length at which `zip` stops: one of the input lengths, and no input is shorter |
| Clusters.KeptIndices | scripts/plot_cluster_no_app.py:174-180 | the indices of the clusters with at least the minimum records: increasing, and all of them |
| Clusters.KeepLargeIsSubsequence | scripts/plot_cluster_no_app.py:174-180 | the filter keeps exactly those clusters, in their original order |
| Clusters.FilterClusters | scripts/plot_cluster_no_app.py:173-185 | an error (exit) exactly when no cluster is large enough; otherwise the non-empty kept list |
| PlotStats.ClampPercent | scripts/plot_scripts/plot_stats.py:134-135 | `max(0, min(100, p))`: in `[0,100]`, unchanged inside the range, the nearer end outside it |
| PlotStats.PercentLine | scripts/plot_scripts/plot_stats.py:140-141 | `int(p/100*n)`: the line at `p` percent of `n`, at most `n` |
| PlotStats.StartLine | scripts/plot_scripts/plot_stats.py:140 | a clamped start below 100 percent selects an existing line |
| PlotStats.EndLine | scripts/plot_scripts/plot_stats.py:141-145 | the end index is past the start and within the input; it is pushed to `start+1` exactly when the percentage gave no later line |
| PlotStats.SliceLinesByPercent | scripts/plot_scripts/plot_stats.py:124-147 | empty input gives `[]`; otherwise an error exactly when the clamped end is not after the clamped start; otherwise the contiguous, non-empty slice from `int(sp/100*n)` |
| PlotStats.WholeRangeSelectsAll | scripts/plot_scripts/plot_stats.py:124-147 | 0 to 100 percent selects every line |
| PlotStats.AdjacentRangesConcatenate | scripts/plot_scripts/plot_stats.py:140-147 | the slices of adjacent ranges join into the slice of their union |
| PlotStats.TabRun | scripts/plot_scripts/plot_stats.py:41-44 | the longest run of tab-led lines from an index |
| PlotStats.PeriodOf | scripts/plot_scripts/plot_stats.py:40-44 | `period` is 1 plus the number of consecutive tab-led lines after the first; an empty line in that run is the `IndexError` |
| PlotStats.Period | scripts/plot_scripts/plot_stats.py:40-44 | the `for ... break` loop computes `PeriodOf` |
| PlotStats.XOf | scripts/plot_scripts/plot_stats.py:53 | `idx/period` is non-negative |
| PlotStats.XOfIncreasing | scripts/plot_scripts/plot_stats.py:53 | later lines have larger x values |
| PlotStats.LineSeries | scripts/plot_scripts/plot_stats.py:55-63 | one line's samples of a metric, all at the line's x |
| PlotStats.SeriesUpTo | scripts/plot_scripts/plot_stats.py:52-63 | a metric's x and y lists have equal length, and its x values are non-decreasing and below the next line's |
| PlotStats.LineSeriesNonEmpty | scripts/plot_scripts/plot_stats.py:55-63 | a line contributes to a metric exactly when it has a converted match of that name |
| PlotStats.SeriesNonEmpty | scripts/plot_scripts/plot_stats.py:50-63 | a metric has samples exactly when it occurs |
| PlotStats.LineStarts | scripts/plot_scripts/plot_stats.py:52-55 | the loop invariant holds at the start of each line |
| PlotStats.LineEnds | scripts/plot_scripts/plot_stats.py:52-63 | the invariant at the end of a line is the invariant for one more line |
| PlotStats.SampleStep | scripts/plot_scripts/plot_stats.py:55-63 | one match appends its value at the line's x to its metric, and changes nothing for a failed conversion |
| PlotStats.Accumulate | scripts/plot_scripts/plot_stats.py:50-65 | the `defaultdict` ends with one entry per occurring metric, holding exactly its series |
| PlotStats.ParseSparse | scripts/plot_scripts/plot_stats.py:39-65 | the period error propagates; otherwise the metrics of every line at `idx/period` |
| DecimalTokens.StripRightShape | scripts/plot_scripts/parse_apps.py:9 | `rstrip()` removes only trailing whitespace and leaves no trailing whitespace |
| DecimalTokens.WordLength | scripts/plot_scripts/parse_apps.py:9 | a word runs to the first whitespace character |
| DecimalTokens.Words | scripts/plot_scripts/parse_apps.py:9 | `split()` yields non-empty words without whitespace |
| DecimalTokens.SpacesHaveNoWords | scripts/plot_scripts/parse_apps.py:9 | a whitespace-only line has no tokens |
| DecimalTokens.LeadingSpacesIgnored | scripts/plot_scripts/parse_apps.py:9 | leading whitespace does not change the tokens |
| DecimalTokens.TrailingSpacesIgnored | scripts/plot_scripts/parse_apps.py:9 | trailing whitespace does not change the tokens |
| DecimalTokens.StripKeepsWords | scripts/plot_scripts/parse_apps.py:9 | `line.strip().split()` has the tokens of `line.split()` |
| DecimalTokens.StripCommas | scripts/plot_scripts/parse_apps.py:11 | `rstrip(',')`: a prefix of the token, the rest all commas, and no comma left at its end |
| DecimalTokens.HexTestRedundant | scripts/plot_scripts/parse_apps.py:13-17 | a token is accepted exactly when its cleaned form is all ASCII digits, because the `0x` test only rejects tokens `isdigit` rejects too |
| DecimalTokens.DecimalString | scripts/plot_scripts/parse_apps.py:16-17 | the decimal spelling of a number is all digits, with no leading zero |
| DecimalTokens.DecimalRoundTrip | scripts/plot_scripts/parse_apps.py:17 | `int()` of a number's decimal spelling is the number |
| DecimalTokens.ExtractNumbers | scripts/plot_scripts/plot_cgups.py:23-38 | the nested loops collect exactly the accepted numbers, line by line and token by token |
| DecimalTokens.NumbersAppend | scripts/plot_scripts/plot_cgups.py:25-37 | the numbers of two files read one after the other are the numbers of the first followed by those of the second (file order) |
| DecimalTokens.AcceptedAppend | scripts/plot_scripts/parse_apps.py:10-17 | within a line, accepted numbers come in token order |
| DecimalTokens.RenderWords | scripts/plot_scripts/parse_apps.py:9 | a line written as `n1, n2, ...` splits into one token per number |
| DecimalTokens.AcceptedRendered | scripts/plot_scripts/parse_apps.py:10-17 | every `n,` token is accepted as `n` |
| DecimalTokens.RenderRoundTrip | scripts/plot_scripts/parse_apps.py:4-19 | the numbers of a line written as `n1, n2, ...` are `n1, n2, ...` |
| DecimalTokens.OneLine | scripts/plot_scripts/parse_apps.py:7-18 | the numbers of a one-line file are the accepted tokens of that line |
| DecimalTokens.ParseCgups | scripts/plot_scripts/parse_apps.py:4-19 | the values are the accepted numbers in file order, and the index list is `0..len-1` of the same length |
| DecimalTokens.CheckArgs | scripts/plot_scripts/parse_apps.py:85-97 | `check_args` as intended: a missing input file returns 1; absent labels become one empty string per input; a count mismatch returns 1, and nothing else does |
| DecimalTokens.CheckArgsAsWritten | scripts/plot_scripts/parse_apps.py:1-2 | `check_args` as written: with only `os` and `re` imported, the error message for a missing input raises `NameError` on `sys`, exactly when some input is missing; otherwise it behaves as intended |
| DecimalTokens.TimesUpTo | scripts/plot_scripts/parse_apps.py:76-82 | the times of the matching lines, in order |
| DecimalTokens.ParseStream | scripts/plot_scripts/parse_apps.py:69-83 | a missing file gives a bare empty list; otherwise the indexed times of the matching lines |
| DecimalTokens.PlotNumbers | scripts/plot_scripts/plot_cgups.py:40-64 | 2 exactly on an empty list; otherwise 0 with x values `0..len-1` |
| DecimalTokens.CgupsMain | scripts/plot_scripts/plot_cgups.py:66-79 | 3 exactly when the name lacks `cgups` (case-insensitive), checked before the existence check that gives 4; then 2 for no numbers and 0 otherwise |
| Pages.Page.constructor | src/tmem.c:183-190 | a descriptor in zero-filled memory: every field zero, on no list, with empty neighbour slots |
| PageHistory.WeightedDiff | src/algorithm.c:21-27 | with the weights 0, 1, 0 the weighted difference is the cycle difference |
| PageHistory.Distance | src/algorithm.c:17-37 | the distance is the absolute cycle difference, or `avg_dist` when that is 0, so it is never 0 |
| PageHistory.FirstEmpty | src/algorithm.c:49-56 | the index of the first empty neighbour slot, or the end |
| PageHistory.FirstFurthest | src/algorithm.c:58-60 | the first slot of maximal distance |
| PageHistory.Candidate | src/algorithm.c:47-61 | the candidate slot is the first empty slot if any, otherwise the first slot of maximal distance |
| PageHistory.Offer | src/algorithm.c:63-70 | only the candidate slot changes; it is overwritten exactly when its distance is 0 or the new distance is smaller, with the page, the distance and the cycle difference |
| PageHistory.ZeroDistanceMeansEmpty | src/algorithm.c:50-65 | in clean slots the candidate has distance 0 exactly when it is empty |
| PageHistory.OfferFillsFirstEmpty | src/algorithm.c:50-70 | a page offered to slots with an empty one lands in the first empty slot |
| PageHistory.OfferReplacesFurthest | src/algorithm.c:58-70 | with every slot full, a page replaces the first furthest neighbour exactly when it is strictly closer |
| PageHistory.OfferKeepsClean | src/algorithm.c:50-70 | empty slots keep distance 0 and time difference 0, and filled slots a positive distance |
| PageHistory.OfferAll | src/algorithm.c:39-72 | offering every other history entry in slot order keeps the number of slots |
| PageHistory.OfferAllInvariant | src/algorithm.c:40-45 | the slots stay clean and a page never becomes its own neighbour |
| PageHistory.FindCandidate | src/algorithm.c:47-61 | the slot loop with its `break` finds `Candidate` |
| PageHistory.History.constructor | src/algorithm.c:9-10 | the empty history: all slots NULL and index 0 |
| PageHistory.History.UpdateNeighbors | src/algorithm.c:39-79 | `update_neighbors` leaves the oldest page's slots as `OfferAll` of the other entries |
| PageHistory.History.Oldest | src/algorithm.c:96-101 | an entry whose `cyc_accessed` is minimal |
| PageHistory.OfferEntry | src/algorithm.c:40-71 | one turn of `update_neighbors`: the entry is skipped when it is the page itself and otherwise offered to the slots, extending `OfferAll` by one entry |
| PageHistory.History.ReplaceOldest | src/algorithm.c:96-108 | on a full ring, an entry of minimal access cycle has its slots updated by `OfferAll`, the page takes its place, and no other entry's slots change |
| PageHistory.History.AddPage | src/algorithm.c:81-113 | while not full the page fills slot `page_his_idx`, which advances modulo 16; once full an entry of minimal access cycle updates its neighbours and is replaced, the index is fixed and nothing else changes |
| PageHistory.PredictPage | src/algorithm.c:115-116 | always NULL |
| Tmem.PageRoundUp | src/tmem.c:107 | a multiple of 2 MB below `2^64`, within 2 MB above its argument when there is no wrap-around |
| Tmem.PageRoundUpLeast | src/tmem.c:107 | no multiple of 2 MB at or above `x` lies below `PAGE_ROUND_UP(x)`: it is the least one |
| Tmem.PageRoundUpAligned | src/tmem.c:107 | an aligned address rounds to itself |
| Tmem.DescriptorCountIsCeiling | src/tmem.c:145 | `(length + PAGE_SIZE - 1)/PAGE_SIZE` is `ceil(length/PAGE_SIZE)`, and 0 only for length 0 |
| Tmem.IndexInRange | src/tmem.c:145-153 | every descriptor index starts inside the mapping |
| Tmem.DescriptorShape | src/tmem.c:152-161 | descriptor `i` starts at `p + i*2MB`; a full one has size 2 MB and the rounded-up key; the tail has its own start as key and size `max(remainder, 4 KB)` |
| Tmem.UnmapKeyMatches | src/tmem.c:227-233 | `tmem_munmap` recomputes for index `i` exactly the key `tmem_mmap` assigned |
| Tmem.DescriptorKeysDistinct | src/tmem.c:152-161 | the descriptors of one mapping have distinct keys |
| Tmem.KeysFrom | src/tmem.c:147-216 | the keys of a run of descriptors, one per index |
| Tmem.KeyIsNew | src/tmem.c:152-161 | a descriptor's key is none of the earlier descriptors' keys |
| Tmem.MapFailedNeverReturned | src/tmem.c:109-120 | an aligned (or NULL) result of `numa_mmap_onnode` is never `MAP_FAILED`, so the check at line 135 is dead |
| Tmem.AddAllKeys | src/tmem.c:64-72 | `add_page` only adds keys: afterwards the table has exactly the old and the offered keys |
| Tmem.AddAllFresh | src/tmem.c:64-72 | with new, distinct keys each key holds its own descriptor and old entries are untouched |
| Tmem.FoundAll | src/tmem.c:83-90 | looking up known keys finds their descriptors, in order |
| Tmem.MapThenUnmap | src/tmem.c:123-251 | mapping then unmapping the same keys finds the descriptors just added and restores the table |
| Tmem.AddAllAppend | src/tmem.c:147-216 | the two loops' insertions compose |
| Tmem.IntendedPlanCoversMapping | src/tmem.c:147-216 | with the fresh loop continuing at the recycled count, every index's key is in the table |
| Tmem.AsWrittenMissesLast | src/tmem.c:188-192 | as written (fresh loop restarting at 0, some descriptors recycled) the last index's key never reaches the table |
| Tmem.FreedStep | src/tmem.c:234-247 | one more unmapped key finds what the table held there and removes it |
| Tmem.Tmem.constructor | src/tmem.c:92-105 | `tmem_init`: the table holds one zeroed dummy descriptor and nothing is free or used |
| Tmem.Tmem.PushFreePage | src/tmem.c:15-29 | the descriptor becomes the head of the free list; the count follows |
| Tmem.Tmem.PopFreePage | src/tmem.c:31-49 | NULL on an empty list; otherwise the head is removed and returned (LIFO) |
| Tmem.Tmem.AddPage | src/tmem.c:53-74 | a duplicate key leaves the table unchanged; otherwise the descriptor is inserted |
| Tmem.Tmem.RemovePage | src/tmem.c:76-81 | the descriptor's key leaves the table |
| Tmem.Tmem.FindPage | src/tmem.c:83-90 | the descriptor filed under `va`, or NULL |
| Tmem.Tmem.Install | src/tmem.c:152-174 | one loop iteration: the descriptor's fields are set for its index and it is `add_page`d; `cyc_accessed`, `ip` and `free` keep their values, so a recycled descriptor keeps its stale ones |
| Tmem.Tmem.Describe | src/tmem.c:152-171 | the field assignments of a loop round: address, key, size, tier and list are those of the index, the counters and flags are cleared, and no other field is written |
| Tmem.Tmem.RecycleOne | src/tmem.c:149-175 | one recycling round pops one descriptor and installs index `k`, or stops when the list is empty; descriptors left on the free list are untouched |
| Tmem.Tmem.RecycleDescriptors | src/tmem.c:147-176 | the first `min(free, needed)` descriptors come off the free list in order and describe indices `0..k-1`; those left on the list are untouched |
| Tmem.Tmem.FreshOne | src/tmem.c:190-215 | one fresh round installs a new descriptor for index `i`, whose unset fields `cyc_accessed`, `ip` and `free` are zero as zero-filled memory leaves them |
| Tmem.Tmem.FreshDescriptors | src/tmem.c:183-216 | new descriptors describe a run of indices and are added in order, each with `cyc_accessed`, `ip` and `free` zero |
| Tmem.Tmem.DescribeMapping | src/tmem.c:144-216 | recycled descriptors then fresh ones, the fresh loop starting at the recycled count or at 0; descriptors left on the free list are untouched |
| Tmem.Tmem.Mmap | src/tmem.c:123-219 | placement in DRAM exactly when `length + dram_used + DRAM_BUFFER < dram_free`, and only then does `dram_used` grow by `length`, before the mapping is tested; a failed map changes nothing else; on success every descriptor index is installed exactly once, recycled ones first, and descriptors left on the free list are untouched |
| Tmem.Tmem.MmapAsWritten | src/tmem.c:123-219 | the code as written: a failed map returns NULL having counted the memory, and the fresh loop restarts at index 0 |
| Tmem.Tmem.UnmapOne | src/tmem.c:234-247 | a found descriptor leaves the table, goes on the free list, and its size leaves `mem_allocated`, and leaves `dram_used` iff `in_dram == DRAM_NODE` |
| Tmem.Tmem.UnmapIndex | src/tmem.c:226-248 | index `i` recomputes its key and unmaps what is filed there |
| Tmem.Tmem.Munmap | src/tmem.c:221-251 | every descriptor of the range is looked up by its recomputed key, removed and pushed on the head of the free list, so the last one found comes first; the counters drop by their sizes; the result is 0 |
| Pebs.MaskIsRemainder | src/pebs.c:193-194 | for a power-of-two `data_size`, `tail & (data_size-1)` is `tail mod data_size` |
| Pebs.ReadStepTail | src/pebs.c:188-240 | the tail stays put exactly when the record is not consumed (empty buffer, short header, size 0 or not fully published); otherwise it advances by the record size, mod `2^64` |
| Pebs.AvailAfterConsume | src/pebs.c:190-238 | consuming a record shrinks the published backlog by its size, so the reader never passes the head |
| Pebs.ReadStepSample | src/pebs.c:214-251 | a sample is produced exactly for a consumed, contiguous `PERF_RECORD_SAMPLE` of exactly header plus sample size with a non-zero address, and it is the record's body |
| Pebs.ReadStepDropsWrapped | src/pebs.c:216-237 | a consumed record crossing the buffer end is dropped and counted in `wrapped_records` only |
| Pebs.Pow2 | src/pebs.c:386 | `2^d` is positive |
| Pebs.Cool | src/pebs.c:484-485 | cooling never increases the counter |
| Pebs.LiveHotWhenReferenceHot | src/pebs.c:476-485 | the live order (count, decide, cool) calls hot every page that the reference order of `process_perf_buffer` (pebs.c lines 385-398: cool, count, decide) calls hot |
| Pebs.LiveKeepsNoMoreHeat | src/pebs.c:476-485 | the live order leaves no more heat than the reference order |
| Pebs.HeatOrdersAgreeWhenCurrent | src/pebs.c:476-485 | with no clock tick since the last cooling the orders agree |
| Pebs.LiveOrderPromotesStaleHeat | src/pebs.c:476-485 | counter 1, one tick, threshold 2: the live order calls the page hot and the reference order does not |
| Pebs.ClockStep | src/pebs.c:487-491 | the global clock ticks exactly when `cur_cyc - last_cyc_cool` (mod `2^64`) exceeds the threshold, and only then is `last_cyc_cool` reset |
| Pebs.Without | src/pebs.c:277 | removing a descriptor from a list keeps the others, drops it, and keeps the list duplicate-free |
| Pebs.HotRequestIdempotent | src/pebs.c:256-287 | a second hot request right after the first changes nothing |
| Pebs.ColdRequestIdempotent | src/pebs.c:289-314 | a second cold request right after the first changes nothing |
| Pebs.HotListGrowsByRemotePages | src/pebs.c:262-281 | the lists change only for a live remote descriptor not on the hot list, which is appended to it; a live descriptor is marked hot; a live remote one is then on the hot list and not the cold one |
| Pebs.ColdListGrowsByDramPages | src/pebs.c:295-311 | the mirror image: only a live DRAM descriptor joins the cold list; remote descriptors never change the lists |
| Pebs.StaleColdTagNeverQueued | src/pebs.c:303-310 | a descriptor tagged for the cold list without being on it, as every new descriptor is, is never appended to it |
| Pebs.PromotedPageCanBeDemoted | src/pebs.c:522-526 | after a promotion a hot request leaves the lists alone and a cold request moves the page from the hot list to the tail of the cold list |
| Pebs.DemotedPageStaysOffColdList | src/pebs.c:527-530 | a demoted page is a cold remote page that cold requests do not queue |
| Pebs.Sampler.constructor | src/pebs.c:17-39 | empty lists, zero counters and clock, and `last_cyc_cool` from the clock reading |
| Pebs.Sampler.EnqueueHot | src/pebs.c:280 | append at the tail of the hot list and tag the descriptor; no other descriptor field changes |
| Pebs.Sampler.EnqueueCold | src/pebs.c:310 | append at the tail of the cold list and tag the descriptor; no other descriptor field changes |
| Pebs.Sampler.RemoveHot | src/pebs.c:277 | unlink from the hot list and clear the tag; no other descriptor field changes |
| Pebs.Sampler.RemoveCold | src/pebs.c:307 | unlink from the cold list and clear the tag; no other descriptor field changes |
| Pebs.Sampler.MakeHotRequest | src/pebs.c:256-287 | NULL changes nothing; otherwise lists and descriptor change as `HotRequest` says, keeping each descriptor on at most one list, named by its tag; the address, size, access counters, IP and migration fields are untouched |
| Pebs.Sampler.MakeColdRequest | src/pebs.c:289-314 | the same for `ColdRequest`, with the same fields untouched |
| Pebs.Sampler.RequestHot | src/pebs.c:262-286 | for an existing descriptor, lists and status change as `HotRequest` says; only the hot flag and list tag of the descriptor can change |
| Pebs.Sampler.RequestCold | src/pebs.c:295-313 | for an existing descriptor, lists and status change as `ColdRequest` says; only the hot flag and list tag of the descriptor can change |
| Pebs.Sampler.MigratePage | src/pebs.c:515-532 | a successful move to DRAM gives `IN_DRAM`, hot, and the tail of the hot list; to another node `IN_REM` and not hot; a failed `mbind` nothing; only the placement, hot flag and list tag can change |
| Pebs.Sampler.ReadPerfSample | src/pebs.c:175-253 | an unmapped buffer gives no sample; otherwise the new tail, counters and sample are those of `ReadStep`, the head is untouched, and a trace record is written exactly for a non-zero address |
| Pebs.Sampler.Heat | src/pebs.c:476-485 | the counter is bumped, the page is hot-requested iff it reaches the threshold (else cold-requested), then cooled by the elapsed clock; the address, size, IP and migration fields are untouched |
| Pebs.Sampler.RecordSample | src/pebs.c:466-491 | a missing descriptor or one with `va == 0` changes nothing, the descriptor included; otherwise the address, size, IP and migration fields are untouched, the record is written, the heat updated in the live order and the clock stepped |

## Left out

- Plotting, argument parsing, progress printing and file I/O are not modelled. The scripts' inputs are given as values: file bytes, lines, regex matches, whether a file exists.
- The regex- and `float()`-driven log scrapers are not modelled: `parse_log` in both accuracy scripts, `parse_log_file`, `parse_stats`, scripts/plot_stats.py and the other plot scripts. `parse_sparse` and `parse_stream` receive the matches of their patterns on each line as input, and `get_final_log_time` receives the matched timestamps.
- Floating-point rounding is not modelled: times, percentages, accuracies and means are exact reals. In `evaluate_for_windows`, when every timestamp is equal, NumPy divides by zero and gets NaN times; every NaN comparison is false, so every prediction is a miss and each accuracy is 0.0. `MultiWindow.RawAccuracy` gives that result directly, without NaN.
- Sorting.SortBy: states a sorted permutation but not stability. `list.sort` is stable; nothing in the model depends on the order of equal made times.
- Python's `isdigit` also accepts non-ASCII digits; only ASCII digits are modelled.
- Addresses are unbounded integers; NumPy's `uint64` conversion of `va` is not modelled.
- SlidingWindow.AccuracySlidingWindow: requires both traces to be sorted by time. Its docstring asks for this; `main` passes the traces unsorted; on unsorted traces the two-pointer walk computes something other than the hit predicate, and that case is not characterised.
- SlidingWindow.Advance, MultiWindow.AccuracyMultiWindows: require non-negative window widths. With a negative width the counter can go negative and keep the key, and that behaviour is not modelled.
- `MigrationLatency.MatchMadeToFinished` takes the made times as a list of `(address, times)` pairs in dictionary order. The `delta >= 0.0` test is always true there and is not a separate branch.
- Concurrency is not modelled: the mutexes, the atomics, the CAS loops of the free list (modelled as a sequential LIFO), and the scan, stats and migrate threads with their kill flags. `migrate_thread`'s DRAM accounting is also left out.
- Syscalls and foreign calls are not modelled: `perf_event_open`, `mmap`, `mbind`, `numa_node_size`, `ioctl`, `rdtscp`, logging, the interposition layer and uthash internals. The result of `numa_mmap_onnode` and of `mbind`, and the cycle counter, are parameters.
- `tmem_mmap`'s `libc_mmap` of the descriptor array, `pebs_stats.internal_mem_overhead` and `pthread_mutex_init` are not modelled. Fresh descriptors are newly allocated zeroed objects.
- Tmem.Tmem.Mmap: `DRAM_NODE`, `REM_NODE`, `IN_DRAM`, `IN_REM` and `DRAM_BUFFER` are parameters, because their definitions are not part of this model. `dram_used` and `dram_free` are unbounded signed integers without 64-bit wrap.
- `tmem_munmap` compares `in_dram` with `DRAM_NODE` rather than `IN_DRAM`. It is modelled as written. Whether that is a bug depends on the values of those constants.
- `dram_used` drifts: `tmem_mmap` adds `length`, but `tmem_munmap` subtracts descriptor sizes, whose tail is rounded up to 4 KB. It is modelled as written and not listed as a finding.
- The FIFO list implementation is not part of this model. `hot_list` and `cold_list` are sequences with append at the tail and remove-if-present, together with each descriptor's `list` tag.
- Pebs.ReadStep: the bytes of the perf header and sample are parameters (the header as read at the tail, split or not). The copy of a split header into a pointer-sized variable is not modelled; only its `wrapped_headers` count is.
- Pebs.Cool: the shift `accesses >>= n` is modelled as division by `2^n`. For `n >= 64` the C shift is undefined. The 64-bit overflow of `accesses` is not modelled.
- Pebs.Sampler.Heat, Pebs.Sampler.RecordSample: require `local_clock <= global_clock`. The clock only grows, so this always holds in the source.
- The rest of `pebs_scan_thread` is not modelled: its walk over the ring (record type dispatch and `data_tail += size` without checks), the `find_page(addr & PAGE_MASK)` lookup and the stats thread. `Pebs.Sampler.RecordSample` covers what happens to one sample once its descriptor is found.
- `process_perf_buffer` is never called. It serves only as the reference order of the heat update (`Pebs.ReferenceHeat`).
- PageHistory.Distance: the `avg_dist` moving average is not modelled. It is a floating-point update, and `avg_dist` is a positive parameter.
- The predictor code after `return NULL` in `algo_predict_page` is unreachable and is not modelled.
- `percent_dram`, the stats printing and `tmem_cleanup` are not modelled.

## Findings

| source | as written | input that shows it | evidently intended | confidence | as-written member | corrected member |
|---|---|---|---|---|---|---|
| src/tmem.c:188-192 | the fresh-descriptor loop restarts `i` at 0, so after recycling `k > 0` descriptors it describes indices `0..n-k-1` again | `length = 2 * PAGE_SIZE` with one descriptor on the free list: index 1 never gets a descriptor, and index 0's key is offered twice | continue at index `k`, so every index `0..n-1` is described once | not executed | Tmem.Tmem.MmapAsWritten, Tmem.AsWrittenMissesLast | Tmem.Tmem.Mmap, Tmem.IntendedPlanCoversMapping |
| src/tmem.c:113-138 | `numa_mmap_onnode` turns `MAP_FAILED` into NULL, so the `p == MAP_FAILED` check never fires; a failed map goes on to count `mem_allocated` and install descriptors at address 0 | any `length` when `libc_mmap` fails | treat the NULL result as the failure and return `MAP_FAILED` before counting `mem_allocated` or installing descriptors (`dram_used` is charged earlier, before the mapping call, and stays charged) | not executed | Tmem.Tmem.MmapAsWritten, Tmem.MapFailedNeverReturned | Tmem.Tmem.Mmap |
| scripts/plot_scripts/plot_pebs_mig.py:123-130 | bin keys are measured in seconds (`floor(t/bin)*bin`) but `max_sec` in bins (`ceil(log_end/bin)`), so for `bin > 1` the key range stops early | matches `[(9.0, 1.0)]`, log end 10.0, bin 2.0: the only key is 8 and `max_sec` is 5, so the result is empty | keys and range in the same unit (bin indices), so every match up to the log end is in some row | not executed | MigrationLatency.SecondKeysLoseMatch | MigrationLatency.IndexBinsKeepMatches |
| scripts/plot_scripts/parse_apps.py:89 | `check_args` writes its error to `sys.stderr`, but the module imports only `os` and `re`, so a missing input raises `NameError` instead of returning 1 | `inputs = ["missing"]` with no such file | print the message and return 1 (import `sys`) | not executed | DecimalTokens.CheckArgsAsWritten | DecimalTokens.CheckArgs |
| scripts/plot_scripts/pred_acc.py:157-178 | the cold trace `c_cyc` is read but never normalised, so the cold run compares raw cycle counts with observed times in `[0,1]` | any cold trace whose cycle counts exceed 1 (every real TSC reading): 0 hits, and the cold report prints 100.00% | normalise `c_cyc` with the same `min_cyc` and `max_cyc` | not executed | Normalization.ColdRunAsWritten | Normalization.NormalizeCold, Normalization.ColdRunIntended |
