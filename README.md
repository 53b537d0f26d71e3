# remixt bookkeeping, modelled in Dafny

remixt infers the clone mixture and the allele-specific copy number of a
tumour from sequencing read depth. This project models the deterministic
bookkeeping around its inference engine:

- **Analysis pipeline** (`remixt/analysis/pipeline.py`):
  - `init` generates candidate initialisations. It crosses the read-depth modes with the tumour mix-fraction tuples, drops candidates outside the ploidy window, crosses the survivors with the divergence weights and enumerates them.
  - `fit` adds the likelihood masks, dispatches to one of three fitters and summarises the fit. The summary is the ploidy, the proportion divergent and the breakpoint table with both breakend orderings.
  - `fit_graph` seeds its copy number from a one-clone Viterbi decode.
  - `fit_hmm_graph` switches the prior to allele-independent.
  - `collate` keeps the best fit per `(mode_idx, divergence_weight)`.
- **Simulation pipeline** (`remixt/simulations/pipeline.py`):
  - `read_sim_defs` expands settings: cartesian product, tied keys, defaults and simulation ids.
  - `write_perfect_segments` computes run-length segment ids and merges segments.
  - `write_breakpoints` maps breakends to strands and positions.
  - `compare_cn` computes the length-weighted correctness, allowing clones to swap.
  - `evaluate_results` reorders clones and computes the clonality metrics.
- **Benchmark driver** (`benchmark/run_comparison.py`): `merge_params` and the identity initialisation map of `tool_prepare`.

Modules, one per concern:

| file | module | models |
|---|---|---|
| wrappers.dfy | `Wrappers` | `Option`, `Result` |
| indices.dfy | `Indices` | `range(n)`, shared by the modules that index by position |
| copy_numbers.dfy | `CopyNumbers` | copy-number tensors (segment × clone × allele), sums |
| analysis_init.dfy | `AnalysisInit` | `init` |
| analysis_fit.dfy | `AnalysisFit` | `fit`, the three fitters, summary statistics, breakend column swap |
| analysis_collate.dfy | `AnalysisCollate` | `collate` |
| sim_defs.dfy | `SimulationDefs` | `read_sim_defs` |
| sim_segments.dfy | `SimulationSegments` | `write_perfect_segments`, `write_breakpoints` |
| sim_evaluate.dfy | `SimulationEvaluation` | `compare_cn`, `evaluate_results` |
| run_comparison.dfy | `BenchmarkComparison` | `merge_params`, `tool_prepare`'s return value |

Modelling choices:

- **Numbers.** Depths, ploidies, mix fractions and proportions are exact `real`s. Copy numbers and lengths are `int`/`nat`.
- **Errors.** A `ValueError` or a failed `assert` becomes an `Err` value. So does numpy's error on a reduction over zero tumour clones. A division by a zero total length gives `None` (in `fit`'s statistics) or `Err` (in the evaluation metrics); that is where Python would produce NaN or raise `ZeroDivisionError`.
- **Where state changes.** Code that builds lists in loops becomes methods with loops: `init`, `fit_graph`'s seed, `write_breakpoints`, `merge_params` and the insertion of simulations into `settings_dicts`. Each is proved equal to a specification function, and the properties are proved about that function. `fit` mutates the likelihood model and the prior; these are the classes `Emission` and `Prior`.
- **The engine.** EM, Viterbi and the genome graph form an `Engine` record of functions. `estimate_ploidy` and Python's `hash` are function parameters.

Only `fit_hmm_graph` sets `prior.allele_specific = False` (remixt/analysis/pipeline.py:148). `fit_graph` keeps the prior it is given, and so does `FitGraph`.

## Model

| member | source | states |
|---|---|---|
| AnalysisInit.DepthCandidatesIff | remixt/analysis/pipeline.py:36-51 | A depth candidate is kept iff its mode index is in range, its h is `[h_mono[0]] + h_mono[1] * mix_frac` for some mix-fraction tuple, and its estimated ploidy passes each bound that is not None |
| AnalysisInit.ModeCandidatesIff | remixt/analysis/pipeline.py:38-51 | For one mode: a candidate is kept iff it comes from one of the tuples and passes the ploidy window |
| AnalysisInit.WithDivergenceWeightsLength | remixt/analysis/pipeline.py:54-59 | Crossing with the weights gives \|candidates\| × \|weights\| entries |
| AnalysisInit.WithDivergenceWeightsEntry | remixt/analysis/pipeline.py:54-59 | Entry i·\|weights\| + j carries candidate i's mode index and h, with weight j: candidate-major, weight-minor order |
| AnalysisInit.WithDivergenceWeightsAt | remixt/analysis/pipeline.py:54-59 | Length and entry property for all pairs (i, j) at once |
| AnalysisInit.EnumeratedCandidates | remixt/analysis/pipeline.py:36-65 | Every enumerated initialisation has an admissible ploidy, \|h_init\| = 1 + \|mix_frac\|, h_init[0] = h_mono[0], h_init[i+1] = h_mono[1]·mix_frac[i], and a weight from the configured list |
| AnalysisInit.EnumeratedEntry | remixt/analysis/pipeline.py:39-59 | The same properties for one key k of the result |
| AnalysisInit.CollectModeCandidates | remixt/analysis/pipeline.py:38-51 | The inner loop over mix-fraction tuples appends exactly the admissible candidates of one mode, in order |
| AnalysisInit.CollectDepthCandidates | remixt/analysis/pipeline.py:36-51 | The nested loop builds exactly `init_h_params` |
| AnalysisInit.CrossWithWeights | remixt/analysis/pipeline.py:54-59 | The product loop builds exactly the crossed list |
| AnalysisInit.Init | remixt/analysis/pipeline.py:36-65 | `init` returns keys 0..n-1 with n = \|surviving candidates\| × \|weights\|, each entry satisfying the properties above |
| AnalysisFit.ParseFitMethod | remixt/analysis/pipeline.py:253-260 | The name is accepted iff it is `hmm_viterbi`, `hmm_graph` or `graph`; any other name is the unknown-method error |
| AnalysisFit.Emission.constructor | remixt/analysis/pipeline.py:242-243 | A new likelihood model has no masks |
| AnalysisFit.Emission.AddMask | remixt/analysis/pipeline.py:249-251 | Adding a mask appends it and leaves h unchanged |
| AnalysisFit.Prior.constructor | remixt/analysis/pipeline.py:246 | The prior holds the initialisation's divergence weight |
| AnalysisFit.SingleCloneDepth | remixt/analysis/pipeline.py:179-181 | The one-clone depth has two entries, the first is h[0], and the total depth is preserved |
| AnalysisFit.SeedUnique | remixt/analysis/pipeline.py:185-187 | The seed is determined by the one-clone decode: clone 0 is all ones and every clone m ≥ 1 is the decoded tumour column |
| AnalysisFit.SeedCopyNumber | remixt/analysis/pipeline.py:185-187 | The column loop builds that seed |
| AnalysisFit.FitHmmViterbi | remixt/analysis/pipeline.py:68-112 | The fitted h is stored in the likelihood model; the masks are kept; the result is EM then Viterbi |
| AnalysisFit.FitHmmGraph | remixt/analysis/pipeline.py:115-168 | As above, and the prior becomes allele-independent with the same divergence weight |
| AnalysisFit.FitGraph | remixt/analysis/pipeline.py:171-211 | The one-clone depth is decoded, the seed replicates its tumour column, the likelihood gets h_init back, and hard assignment runs from that seed |
| AnalysisFit.MaxInt | remixt/analysis/pipeline.py:293 | The maximum over tumour clones is attained and bounds every clone |
| AnalysisFit.MinInt | remixt/analysis/pipeline.py:293 | The minimum over tumour clones is attained and bounded by every clone |
| AnalysisFit.DivergentAlleles | remixt/analysis/pipeline.py:293 | A segment has 0 to 2 divergent alleles, and 0 exactly when neither allele diverges |
| AnalysisFit.DivergentIff | remixt/analysis/pipeline.py:293 | An allele is divergent iff two tumour clones carry different copy numbers for it |
| AnalysisFit.PloidyBounds | remixt/analysis/pipeline.py:292 | With a positive total length and copy numbers in [0, c], the ploidy exists and lies in [0, 2c] |
| AnalysisFit.PloidyOfClonalTensor | remixt/analysis/pipeline.py:292 | If every tumour clone of every segment is (c0, c1), the ploidy is c0 + c1: a length-weighted mean |
| AnalysisFit.ProportionDivergentBounds | remixt/analysis/pipeline.py:294 | With a positive total length the proportion divergent exists and lies in [0, 1] |
| AnalysisFit.WeightedSumBounds | remixt/analysis/pipeline.py:292-294 | A length-weighted sum of values in [lo, hi] lies between lo and hi times the total length |
| AnalysisFit.SwapColumnInvolution | remixt/analysis/pipeline.py:280-287 | Renaming a column twice gives the original name |
| AnalysisFit.RenameColumnsMovesValues | remixt/analysis/pipeline.py:280-289 | Renaming moves each breakend column's value to its partner column; renaming twice is the identity on a row |
| AnalysisFit.BreakpointTableSymmetric | remixt/analysis/pipeline.py:288-290 | The table holds both orientations of every breakpoint, twice as many rows, and is closed under the swap |
| AnalysisFit.Fit | remixt/analysis/pipeline.py:238-304 | `fit` fails iff the method name is unknown or there are segments but no tumour clone; otherwise it runs exactly the named fitter with the three masks, and its statistics carry the ploidy, proportion divergent, mode index, weight and log-likelihood |
| AnalysisCollate.KeysAppend | remixt/analysis/pipeline.py:331 | Appending a row adds its (mode_idx, divergence_weight) group |
| AnalysisCollate.FirstPerGroupKeys | remixt/analysis/pipeline.py:331 | Taking the first row per group keeps every group |
| AnalysisCollate.FirstPerGroupDistinct | remixt/analysis/pipeline.py:331 | The selection has one row per group |
| AnalysisCollate.FirstPerGroupEarliest | remixt/analysis/pipeline.py:331 | Each selected row is the earliest row of its group |
| AnalysisCollate.FirstPerGroupSpec | remixt/analysis/pipeline.py:331 | The three properties above together |
| AnalysisCollate.FirstPerGroupIsBest | remixt/analysis/pipeline.py:330-331 | On rows sorted by descending log-likelihood, each selected row's log-likelihood is ≥ that of every row of its group |
| AnalysisCollate.SortByLogLikelihood | remixt/analysis/pipeline.py:330 | The sort gives descending log-likelihood and a permutation of the rows |
| AnalysisCollate.SwapDown | remixt/analysis/pipeline.py:330 | One exchange moves the out-of-place row one step up and keeps the rest in order |
| AnalysisCollate.SwapKeepsRows | remixt/analysis/pipeline.py:330 | An exchange keeps the same rows |
| AnalysisCollate.InsertAt | remixt/analysis/pipeline.py:330 | Inserting row i into the sorted prefix gives a longer sorted prefix with the same rows |
| AnalysisCollate.SelectFirstPerGroup | remixt/analysis/pipeline.py:331 | The scan selects exactly the first row of each group |
| AnalysisCollate.Collate | remixt/analysis/pipeline.py:320-331 | With no fits, the concatenation error; otherwise every selected row is an input fit; there is exactly one per distinct (mode_idx, divergence_weight); its log-likelihood is ≥ every fit of its group |
| AnalysisCollate.SelectionOfSortedRows | remixt/analysis/pipeline.py:330-331 | The group selection over any descending permutation of the fits has those properties |
| SimulationDefs.PrefixedLength | remixt/simulations/pipeline.py:30-31 | Crossing one key's values with the rest gives \|values\| × \|rest\| combinations |
| SimulationDefs.PrefixedAt | remixt/simulations/pipeline.py:30-31 | Combination i·\|rest\| + j is value i followed by rest j |
| SimulationDefs.PrefixedMembers | remixt/simulations/pipeline.py:30-31 | A combination is in the crossing iff it starts with the key and one of its values and continues with a combination of the rest |
| SimulationDefs.ProductCount | remixt/simulations/pipeline.py:30-31 | The product has as many combinations as the product of the value-list lengths |
| SimulationDefs.ProductMembers | remixt/simulations/pipeline.py:30-31 | A combination is in the product iff it takes each key in order with one of that key's values |
| SimulationDefs.ProductOrder | remixt/simulations/pipeline.py:30-31 | The product varies the first key slowest |
| SimulationDefs.UnzipTied | remixt/simulations/pipeline.py:37-44 | A single key yields itself with its value; a tied key whose value has a different length (or none) is an error; a matching tied key yields its names zipped with the items, in order |
| SimulationDefs.UnzipSimSpec | remixt/simulations/pipeline.py:46-47 | A combination unzips iff every key unzips, giving one pair per name |
| SimulationDefs.ToDictNames | remixt/simulations/pipeline.py:49 | `dict` of the pairs has exactly their names as keys |
| SimulationDefs.ToDictLastWins | remixt/simulations/pipeline.py:49 | A name maps to its last value among the pairs |
| SimulationDefs.UnzipAllLength | remixt/simulations/pipeline.py:49 | One row per combination, each the dict of its unzipped pairs |
| SimulationDefs.ExpandSpec | remixt/simulations/pipeline.py:30-53 | The expansion gives one row per combination, all with the same setting names |
| SimulationDefs.WithDefaultsKeys | remixt/simulations/pipeline.py:57-59 | After filling defaults the keys are the settings plus the default names |
| SimulationDefs.WithDefaultsKeeps | remixt/simulations/pipeline.py:57-59 | A setting already present keeps its value |
| SimulationDefs.WithDefaultsFirst | remixt/simulations/pipeline.py:57-59 | A default name the loop adds gives row i its cell of the column assignment: element i of a list-like default of the table's length, the scalar itself otherwise |
| SimulationDefs.DefaultsFitSpec | remixt/simulations/pipeline.py:57-59 | The default loop succeeds iff every default it adds is a scalar or a list as long as the table |
| SimulationDefs.NatToString | remixt/simulations/pipeline.py:62 | The hash column is a string of digits |
| SimulationDefs.SimIdInjective | remixt/simulations/pipeline.py:64 | `name + '_' + hash` with a digit hash determines both the name and the hash |
| SimulationDefs.SimsOfSpec | remixt/simulations/pipeline.py:49-67 | A settings dict yields one simulation per combination under distinct ids `name_<digits>`; each carries its name and every default name |
| SimulationDefs.SimsOfEntry | remixt/simulations/pipeline.py:55-64 | Simulation i has id `name_<digits>`, its name and every default name |
| SimulationDefs.SimsOfDefaultsError | remixt/simulations/pipeline.py:51-59 | Once the settings expand, the defaults raise exactly when a list-like default added as a column has a length other than the number of simulations |
| SimulationDefs.SimsOfDefaultCell | remixt/simulations/pipeline.py:57-67 | Simulation i of n stores, under each added default name, element i of a list-like default or the scalar default |
| SimulationDefs.SimsOfDistinct | remixt/simulations/pipeline.py:62-64 | Distinct simulations of one name have distinct ids, because the hashes are asserted unique |
| SimulationDefs.BaseName | remixt/simulations/pipeline.py:25-28 | The base name plus `_settings` is the definition's name |
| SimulationDefs.InsertKeys | remixt/simulations/pipeline.py:66-67 | Inserting simulations adds exactly their ids |
| SimulationDefs.InsertLast | remixt/simulations/pipeline.py:66-67 | Each id maps to the last simulation stored under it |
| SimulationDefs.InsertKeeps | remixt/simulations/pipeline.py:66-67 | Earlier ids not among the new simulations keep their rows |
| SimulationDefs.SimDefsStopsAtError | remixt/simulations/pipeline.py:23-67 | Once one definition raises, later definitions change nothing |
| SimulationDefs.InsertAll | remixt/simulations/pipeline.py:66-67 | The insertion loop builds exactly that map |
| SimulationDefs.ReadSimDefs | remixt/simulations/pipeline.py:14-69 | The definition loop gives the map of `read_sim_defs` or its first error |
| SimulationSegments.AbsDiffAllelesZero | remixt/simulations/pipeline.py:251 | The absolute allele differences of a clone sum to 0 iff the two clones are equal |
| SimulationSegments.AbsDiffSumZero | remixt/simulations/pipeline.py:251 | The summed absolute difference of two rows is 0 iff the rows are equal |
| SimulationSegments.CumSumAt | remixt/simulations/pipeline.py:253 | The cumulative sum starts with the first entry and adds one entry per step |
| SimulationSegments.SegIdsStep | remixt/simulations/pipeline.py:251-253 | seg_id starts at 0 and goes up by exactly 1 where the copy number differs from the previous row, and stays the same otherwise |
| SimulationSegments.SegIdsSameBlock | remixt/simulations/pipeline.py:251-253 | seg_id never decreases, and rows with the same seg_id have the same copy number |
| SimulationSegments.MergeSpec | remixt/simulations/pipeline.py:262-268 | A (chromosome, seg_id) group is in the result iff some row belongs to it, with the group's min start and max end |
| SimulationSegments.PerfectSegmentsSameCopyNumber | remixt/simulations/pipeline.py:251-268 | Rows merged into one segment have the same copy number, and their group is in the result |
| SimulationSegments.Fields | remixt/simulations/pipeline.py:286-297 | Side 0 gives strand '-' with the segment start; side 1 gives strand '+' with the segment end |
| SimulationSegments.WriteBreakpoints | remixt/simulations/pipeline.py:280-302 | An unknown segment is an error; otherwise there is one row per breakpoint with both breakends' fields and prediction_id k for row k |
| SimulationEvaluation.LengthWhereBounds | remixt/simulations/pipeline.py:325 | The length of the flagged segments is between 0 and the total |
| SimulationEvaluation.LengthWhereAll | remixt/simulations/pipeline.py:325 | With every segment flagged, it is the total |
| SimulationEvaluation.ProportionBounds | remixt/simulations/pipeline.py:325 | With nonnegative lengths and a positive total, the proportion lies in [0, 1] |
| SimulationEvaluation.ProportionAll | remixt/simulations/pipeline.py:325 | With every segment flagged, the proportion is 1 |
| SimulationEvaluation.MaxReal | remixt/simulations/pipeline.py:320 | The maximum mix fraction is attained and bounds all |
| SimulationEvaluation.MinReal | remixt/simulations/pipeline.py:320 | The minimum mix fraction is attained and is bounded by all |
| SimulationEvaluation.ReverseClonesInvolution | remixt/simulations/pipeline.py:321 | Reversing twice gives the original |
| SimulationEvaluation.CompareCnBounds | remixt/simulations/pipeline.py:307-327 | `compare_cn` lies in [0, 1] for nonnegative lengths with a positive sum |
| SimulationEvaluation.CompareCnIdentical | remixt/simulations/pipeline.py:307-327 | `compare_cn` is 1 when the prediction equals the truth |
| SimulationEvaluation.CompareCnReversed | remixt/simulations/pipeline.py:320-325 | With min/max of the true mix above 0.75, a clone-reversed prediction scores 1 |
| SimulationEvaluation.GatherPermutation | remixt/simulations/pipeline.py:373 | Indexing by an index permutation keeps the same values |
| SimulationEvaluation.ArgsortDescending | remixt/simulations/pipeline.py:372 | `argsort(x)[::-1]` is a permutation of the indices that lists x in descending order |
| SimulationEvaluation.SelectStep | remixt/simulations/pipeline.py:372 | Moving the largest remaining index to position i extends the sorted prefix |
| SimulationEvaluation.SwapKeepsIndices | remixt/simulations/pipeline.py:372 | An exchange keeps the same indices |
| SimulationEvaluation.LargestFrom | remixt/simulations/pipeline.py:372 | The scan finds an index of a largest remaining value |
| SimulationEvaluation.ReorderedAsWrittenCounterexample | remixt/simulations/pipeline.py:372-373 | The assignment as written duplicates the normal fraction and loses a tumour fraction (see Findings) |
| SimulationEvaluation.ReorderedAsWrittenScore | remixt/simulations/pipeline.py:372-392 | For true mix [0.5, 0.3, 0.35] and a clone-swapped prediction, `compare_cn` on the as-written fractions is 0 and on the intended fractions is 1 (see Findings) |
| SimulationEvaluation.Reordered | remixt/simulations/pipeline.py:373 | The reordered mix keeps its normal fraction first |
| SimulationEvaluation.ReorderedSpec | remixt/simulations/pipeline.py:372-373 | Reordered as intended, the tumour fractions are descending and the mix is a permutation of the input |
| SimulationEvaluation.ReorderClones | remixt/simulations/pipeline.py:374 | Clone j of every reordered segment is clone order[j] of the input segment, shape kept |
| SimulationEvaluation.ReorderClonesPermutes | remixt/simulations/pipeline.py:374 | Each segment's reordered clones are a permutation of its clones |
| SimulationEvaluation.ClonesFollowFractions | remixt/simulations/pipeline.py:373-374 | Tumour fraction j+1 of the reordered mix and clone j of every reordered segment both come from original clone order[j]: clones move in step with their fractions |
| SimulationEvaluation.SortAllelesSpec | remixt/simulations/pipeline.py:382-383 | Each allele pair is sorted ascending and keeps its values |
| SimulationEvaluation.TumourCn | remixt/simulations/pipeline.py:343-365 | Allele-specific: each segment's true tumour copy number is its clones after the normal one, allele pairs kept. Totals: clone j holds the allele sum of clone j+1 |
| SimulationEvaluation.ScoreBounds | remixt/simulations/pipeline.py:391-404 | With a positive total length, all four proportions exist and lie in [0, 1] |
| SimulationEvaluation.EvaluationClonalEqualsSubclonal | remixt/simulations/pipeline.py:398-404 | The evaluation fails exactly when the total segment length is 0; otherwise `proportion_subclonal_correct` equals `proportion_clonal_correct` |
| SimulationEvaluation.EvaluationMixSorted | remixt/simulations/pipeline.py:371-383 | With descending orders, the reported tumour fractions are descending and the mixes are permutations of the inputs |
| SimulationEvaluation.EvaluateResults | remixt/simulations/pipeline.py:371-404 | The results are the evaluation under descending orders of both tumour mixes, with the mixes reordered as intended (see Findings) |
| BenchmarkComparison.Shortest | benchmark/run_comparison.py:80 | The zip length is at most every list's length and equal to one of them (0 for no params) |
| BenchmarkComparison.MergedKeys | benchmark/run_comparison.py:80 | `merge_params` has entries exactly for indices 0..k-1, k the shortest value list |
| BenchmarkComparison.ZipDictAt | benchmark/run_comparison.py:81 | With distinct keys, `dict(zip(ks, vs))` maps the i-th key to the i-th value |
| BenchmarkComparison.ZipDictKeys | benchmark/run_comparison.py:81 | Its keys come from the zipped prefix |
| BenchmarkComparison.OverriddenDefault | benchmark/run_comparison.py:82-83 | After the default loop each default key holds its default value |
| BenchmarkComparison.OverriddenOther | benchmark/run_comparison.py:82-83 | Keys that are not defaults are untouched |
| BenchmarkComparison.OverriddenDefaultKey | benchmark/run_comparison.py:82-83 | No key other than the entry's and the defaults' appears |
| BenchmarkComparison.MergedParamValue | benchmark/run_comparison.py:80-81 | In entry idx every param key that is not a default maps to its idx-th value |
| BenchmarkComparison.MergedDefaultValue | benchmark/run_comparison.py:82-83 | Every default key is in each entry with its default value, overriding a param of the same name |
| BenchmarkComparison.MergedEntryKeys | benchmark/run_comparison.py:80-83 | Each entry's keys are exactly the param keys and the default keys |
| BenchmarkComparison.OverrideDefaults | benchmark/run_comparison.py:82-83 | The inner loop writes every default over the entry |
| BenchmarkComparison.MergeParams | benchmark/run_comparison.py:78-84 | The loop builds exactly the merged dictionary |
| BenchmarkComparison.IdentityInitMapSpec | benchmark/run_comparison.py:311 | `tool_prepare` returns the identity map on 0..num_inits-1 |

## Left out

- The inference engine (`remixt.likelihood`, `cn_model`, `em`, `genome_graph`, `readdepth`): it is an `Engine` parameter of pure functions, and `estimate_ploidy` is a function parameter. Nothing is claimed about Viterbi optimality or EM convergence.
- Reading and writing pickle, HDF5 and CSV files, and `execfile` of the settings file: the inputs and outputs are values. The `defaults` entry of the settings file is a parameter.
- Python's `hash` of the settings row is the parameter `simHash`. The model does not assume it is injective: it checks the uniqueness assertion and fails when it does not hold.
- The likelihood masks are recorded in order, but what they do to the likelihood is part of the engine.
- `fit`'s copy-number table columns, expected read counts, residuals, `negbin_r` and `betabin_M`, and the fitter statistics other than the log-likelihood: these come from the engine.
- The pandas merge of `brk_cn` with the breakpoint segment data: only the column renaming and the concatenation of both orientations are modelled.
- `collate`'s copying of every fit's tables to the output store (remixt/analysis/pipeline.py:333-343).
- `remixt.segalg.reindex_segments`: the two index arrays and the segment lengths it produces are inputs to `EvaluateResults`.
- Reading the predicted mix from a text file, and the `mix_true_*`/`mix_pred_*` result keys: the mixes are values, and the model returns them whole.
- AnalysisCollate.SortByLogLikelihood: pandas' `sort` in place on a data frame is modelled as an insertion sort on a sequence value. Tie order is not stated, since the source's sort is not declared stable.
- SimulationEvaluation.ArgsortDescending: numpy's `argsort(...)[::-1]` is modelled as a selection sort on a sequence value. The order it picks among equal fractions is not stated.
- SimulationEvaluation.SortAlleles: `np.sort(..., axis=2)` is modelled for allele widths of at most two, which are the only widths `evaluate_results` builds.
- SimulationSegments.WriteBreakpoints: sides other than 0 and 1 are excluded by the breakend type. For such a side the source sets no strand or position of its own.
- AnalysisCollate.Collate: the statistics rows are assumed to have no missing values. pandas' `groupby(...).first()` takes the first non-null value of each column separately, so a NaN log-likelihood (sorted last) or a missing ploidy could mix columns of different fits; the model keeps whole rows.
- SimulationDefs.WithDefaults: a default tuple and a default list are both `Tuple`, and both are assigned element-wise. The `TypeError` that Python's `hash` raises on a row holding a list is not modelled, since the hash is a parameter.
- SimulationEvaluation.EvaluateResults: the source always builds two predicted tumour clones and reads a predicted mix of any length. The model takes m-1 predicted clones and a predicted mix of length m, which matches the source when the true mix has three fractions. Shapes that make numpy broadcast or raise are excluded by `WellShaped`.
- SimulationEvaluation.EvaluateResults: the mixes are reordered as intended (`Reordered`), not as written; the as-written behaviour and its effect on the score are in Findings.
- SimulationSegments.PerfectSegments: the result is a map from (chromosome, seg_id) to the merged extent. The source's table is sorted by (chromosome, seg_id) by `groupby`; that row order is not modelled.
- SimulationSegments.SegIds: with zero segments the source raises, because the difference gives no flags while the concatenation gives one and the frame's columns differ in length. The model returns no segments.
- Random genome sampling, seeding and plotting in the simulation pipeline, the pypeliner workflows and the command-line drivers.
- Floating point rounding: all arithmetic is exact.

## Findings

| source | as written | input that shows it | evidently intended | confidence | as-written member | corrected member |
|---|---|---|---|---|---|---|
| remixt/simulations/pipeline.py:372-373 (also 377-378) | `mix_true[1:] = mix_true[order_true]` indexes the whole mix (normal fraction included) with an order computed over the tumour fractions only | mix `[0.5, 0.1, 0.4]`: the order is `[1, 0]`, and the result is `[0.5, 0.1, 0.5]`. The tumour fractions are not descending, and 0.4 is lost | `mix_true[1:] = mix_true[1:][order_true]`, which gives `[0.5, 0.4, 0.1]` | not executed | SimulationEvaluation.ReorderedAsWrittenCounterexample | SimulationEvaluation.ReorderedSpec |
| remixt/simulations/pipeline.py:373 (passed on at 391-392) | the corrupted mix is then passed to `compare_cn`, whose swap test reads it | true mix `[0.5, 0.3, 0.35]` with the two predicted clones swapped: as written the tumour fractions are `[0.3, 0.5]`, 0.3/0.5 forbids the swap and the score is 0; as intended they are `[0.35, 0.3]`, the swap is allowed and the score is 1 | the swap test reads the sorted tumour fractions | not executed | SimulationEvaluation.ReorderedAsWrittenScore | SimulationEvaluation.EvaluateResults |
