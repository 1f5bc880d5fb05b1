# SENA ablation core, in Dafny

This project models the parts of the SENA ablation code base that decide
*what is computed*, leaving out the tensor numerics. SENA is the
structured-encoder autoencoder whose latent units are gene sets (GO terms).
The model covers three source files:

- **The ablation driver** (`src/sena_ablation_study/regular_ae.py`) covers
  the following (module `Experiment`, helped by `Modes`):
  - the mode text (`regular`, `regular_orig`, `sena_<k>`,
    `sena_delta_<k>`, `l1_<k>`) is parsed into a model variant with its
    relaxation probability or L1 weight. This follows Python's
    `str.split`, `float`, `int` and `eval('1e-<n>')` on ASCII decimal
    text, with the ValueError, IndexError and SyntaxError they raise there;
  - the layer chain of each of the four autoencoder variants;
  - the capacity-matched latent size of the dense baseline;
  - the loss with its optional L1 term;
  - the report schedule: 250 epochs, a report every 2nd or 5th epoch;
  - the seed-tagged results over 3 or 5 seeds: one concatenated table
    for interpretability and efficiency, and for lcorr the list of
    per-seed frames, which the script pickles without concatenating.
- **The data utilities** (`src/uhler/utils.py`) cover:
  - the block-diagonal latent relation (`GeneGo.BuildLatent`);
  - the gene–GO join and the GO–latent delta join;
  - the two train/test splitters (`Splits`);
  - the `chunk` helper over `torch.split`, and the one-label-per-batch
    sampler `SCDATA_sampler` (`Batching`).
- **The differential-activation analysis**
  (`src/uhler/final_analysis/DA_score_analysis.py`) covers:
  - `compute_activation_df`, which scores each knockout against control
    cells per gene set and flags the gene sets the knockout belongs to
    (`DaTable`);
  - the script's filter on the resulting table, which keeps knockouts
    affecting at least 7 gene sets, in name order and in count order,
    with the comparison pairs (`DaFilter`, helped by `StrOrder`).

Python exceptions become `Failure(kind)` values of `Failures.Result`. A
kind is one of ValueError, IndexError, KeyError, NameError,
ZeroDivisionError, SyntaxError, OverflowError or RuntimeError.

Trained values, diagnostics, dataset contents and random draws become
parameters:
- `random.shuffle` and `np.random.choice` are arbitrary permutations or
  choices that satisfy their documented outcome;
- the per-report diagnostics of `run_model` are functions of seed and
  epoch.

Behaviours of the code a reader might not expect:
- A mode such as `sena_0.5` gives relaxation probability 1.0, not a small
  value. `int(0.5)` is 0, so the code evaluates `1e-0`
  (`Modes.SparsityFractionQuirk`).
- `l1_0` gives weight 1.0 (`Modes.L1ZeroExample`).
- A fourth command-line argument is kept as a string. `nlayers == 1` is
  then false even for the text "1", so the two-layer plain model is always
  built (`Experiment.GivenLayerCountIsNeverOne`).
- The seeds run one after another and the first failure ends the script.
  No fault isolation between seeds exists (`Experiment.RunSeeds`).
- `compute_activation_df` is the definition local to the analysis script,
  with seven arguments. Its `regular`/`l1` branch reads
  `belonging_genesets`, which only the sena branch binds, so in those modes
  it always raises NameError once a row would be appended.

## Model

| member | source | states |
|---|---|---|
| Modes.ParseMode | src/sena_ablation_study/regular_ae.py:124-146 | a parsed sena relaxation probability lies in [0, 1] and an L1 weight in (0, 1] |
| Modes.ParseModeText | src/sena_ablation_study/regular_ae.py:124-146 | every well-formed mode text `sena_<k>`, `sena_delta_<k>`, `l1_<k>` parses to its intended variant with sp = 10^-k (0 when k = 0) or lambda = 10^-k |
| Modes.ModeVariantByText | src/sena_ablation_study/regular_ae.py:102-146 | which branch a mode takes: `regular` and `regular_orig` by equality, sena by prefix, split by whether `delta` occurs, l1 by prefix — each an if-and-only-if |
| Modes.SenaSparsityRule | src/sena_ablation_study/regular_ae.py:131-133 | a sena mode whose second field parses to v gets sp = 10^-int(v) when v > 0, else 0 |
| Modes.SenaDeltaSparsityRule | src/sena_ablation_study/regular_ae.py:126-128 | a sena-delta mode whose third field parses to v gets sp = 10^-int(v) when v > 0, else 0 |
| Modes.L1WeightRule | src/sena_ablation_study/regular_ae.py:144-146 | an l1 mode gets lambda = 10^-int(v) with no positivity guard; a negative int(v) makes the evaluated text a SyntaxError |
| Modes.NonNumericSuffixFails | src/sena_ablation_study/regular_ae.py:127-145 | a numeric field that `float` rejects raises ValueError |
| Modes.MissingSuffixFails | src/sena_ablation_study/regular_ae.py:124-145 | a sena or l1 mode with no `_` field raises IndexError |
| Modes.SparsityFractionQuirk | src/sena_ablation_study/regular_ae.py:132-133 | a field strictly between 0 and 1 gives sp = 1.0 |
| Modes.SenaThreeExample | src/sena_ablation_study/regular_ae.py:131-134 | `sena_3` is SENA with sp = 0.001 |
| Modes.SenaDeltaZeroExample | src/sena_ablation_study/regular_ae.py:126-129 | `sena_delta_0` is SENA-Delta with sp = 0 exactly |
| Modes.L1TwoExample | src/sena_ablation_study/regular_ae.py:144-146 | `l1_2` has L1 weight 0.01 |
| Modes.L1ZeroExample | src/sena_ablation_study/regular_ae.py:144-146 | `l1_0` has L1 weight 1.0 |
| Modes.OneEMinus | src/sena_ablation_study/regular_ae.py:128 | the text `1e-<n>` evaluates to a number in (0, 1] exactly when n >= 0, and is a SyntaxError otherwise |
| Modes.OneEMinusInverse | src/sena_ablation_study/regular_ae.py:128 | the value of `1e-<n>` times 10^n is exactly 1 |
| Modes.ContainsOffset | src/sena_ablation_study/regular_ae.py:126 | `'delta' in mode` holds iff the substring occurs at some offset of the mode text |
| Modes.ParseFloatNatToString | src/sena_ablation_study/regular_ae.py:145 | `float` of a decimal digit string is that natural number |
| Experiment.ParseAnalysis | src/sena_ablation_study/regular_ae.py:215 | an analysis name other than interpretability, efficiency or lcorr selects no analysis branch |
| Experiment.LayerWidths | src/sena_ablation_study/regular_ae.py:17-97 | every variant's chain is width-consistent: input -> latent -> input, with an extra latent -> latent layer in the two-layer variants |
| Experiment.LayerShape | src/sena_ablation_study/regular_ae.py:17-97 | one LeakyReLU, right before the decoder; the encoder is masked exactly in SENA and SENA-Delta; the delta layer is latent -> latent |
| Experiment.MatchedLatentSizeIsLeast | src/sena_ablation_study/regular_ae.py:112-113 | the capacity-matched latent size is the least L with L(2I+2) >= mask ones + gene sets x I + I, and at least 1 when there is an input |
| Experiment.MatchedLatentSizeMonotone | src/sena_ablation_study/regular_ae.py:112-113 | more mask ones never give a smaller matched latent size |
| Experiment.SelectedModelByText | src/sena_ablation_study/regular_ae.py:100-146 | the model each mode text builds, with latent size = number of gene sets; the one-layer plain model exactly when `nlayers` is the integer 1; `regular` succeeds only for interpretability or efficiency |
| Experiment.GivenLayerCountIsNeverOne | src/sena_ablation_study/regular_ae.py:217 | with a fourth argument, `regular_orig` and l1 modes always build the two-layer plain model |
| Experiment.L1TermOnlyInL1Modes | src/sena_ablation_study/regular_ae.py:167-171 | for a positive encoder L1 norm the loss differs from the MSE exactly in l1 modes, and never falls below it |
| Experiment.ReportEpochsMembers | src/sena_ablation_study/regular_ae.py:159-178 | an epoch is reported iff it is below the budget and divisible by the interval |
| Experiment.ReportCounts | src/sena_ablation_study/regular_ae.py:155-156 | 125 reports for efficiency and 50 otherwise, the first at epoch 0; a zero budget gives none |
| Experiment.CollectReports | src/sena_ablation_study/regular_ae.py:177-201 | every collected row carries the run's seed and a reported epoch; efficiency gives exactly one row per report, in epoch order |
| Experiment.CollectReportsFrames | src/sena_ablation_study/regular_ae.py:177-205 | the collected rows are exactly the per-report frames concatenated in epoch order, as `pd.concat(results)` builds them |
| Experiment.ReportFramesSnoc | src/sena_ablation_study/regular_ae.py:201 | one more report appends its frame after the frames collected so far |
| Experiment.DiagnosticFrames | src/sena_ablation_study/regular_ae.py:154-205 | for interpretability and lcorr the collected rows are the diagnostics frames of epochs 0, 5, ..., 245, in that order, each row tagged with its epoch and the seed |
| Experiment.RunModel | src/sena_ablation_study/regular_ae.py:100-209 | a run succeeds iff the mode parses, a model is bound and the analysis is handled; rows carry the seed and a reporting epoch; efficiency yields 125 rows, row k at epoch 2k |
| Experiment.DiagnosticReports | src/sena_ablation_study/regular_ae.py:154-209 | a successful interpretability or lcorr run returns, in order, every row of the diagnostics frame of each of its 50 reports at epochs 5i, tagged with epoch 5i and the seed |
| Experiment.EfficiencyRecords | src/sena_ablation_study/regular_ae.py:184-194 | each efficiency report is one row with its epoch, the seed and that epoch's summary |
| Experiment.RunSeeds | src/sena_ablation_study/regular_ae.py:232-250 | every row of the concatenated table carries a seed below the seed count |
| Experiment.SeedFrames | src/sena_ablation_study/regular_ae.py:232-254 | the list of per-seed frames has one frame per seed, and every row of frame i carries seed i |
| Experiment.SeedFramesOutcome | src/sena_ablation_study/regular_ae.py:232-254 | the list of frames is built exactly when the concatenated table is |
| Experiment.SeedFramesFlatten | src/sena_ablation_study/regular_ae.py:247-254 | the concatenated table is the list of per-seed frames flattened, so the two outputs hold the same rows in the same order |
| Experiment.RunSeedsOutcome | src/sena_ablation_study/regular_ae.py:232-245 | all seeds succeed iff seed 0 does: the outcome does not depend on the seed |
| Experiment.RunSeedsStep | src/sena_ablation_study/regular_ae.py:233-245 | the table of n seeds is the table of n-1 seeds followed by seed n-1's rows |
| Experiment.EfficiencyRun | src/sena_ablation_study/regular_ae.py:155-209 | one seed's efficiency run has 125 rows, the k-th at epoch 2k |
| Experiment.EfficiencyTable | src/sena_ablation_study/regular_ae.py:232-249 | the efficiency table holds 125 rows per seed; row 125s + k is seed s's report at epoch 2k |
| Experiment.EfficiencyBlocks | src/sena_ablation_study/regular_ae.py:232-245 | the efficiency table is laid out in seed-major blocks of 125 |
| Experiment.EfficiencyStep | src/sena_ablation_study/regular_ae.py:233-245 | one more seed appends a block of 125 rows, row k of the new block being that seed's report at epoch 2k |
| Experiment.EfficiencyTableSize | src/sena_ablation_study/regular_ae.py:220-249 | the efficiency run over its 3 seeds produces 375 rows |
| GeneGo.BuildLatent | src/uhler/utils.py:49-57 | ZeroDivisionError iff the output width is 0; otherwise the keys are exactly 0 .. mult*out-1 and key k maps to the single latent k div mult |
| GeneGo.FillBlock | src/uhler/utils.py:55-56 | after the inner loop for latent i the keys are exactly 0 .. mult*i+mult-1, and each key k maps to the single latent k div mult |
| GeneGo.LatentFanIn | src/uhler/utils.py:53-56 | latent i receives exactly the mult inputs mult*i .. mult*i+mult-1 |
| GeneGo.LatentEmptyWhenNarrower | src/uhler/utils.py:53-56 | an input narrower than the output gives an empty relation |
| GeneGo.FromEntries | src/uhler/utils.py:84-88 | the defaultdict built by appending holds, for each key, exactly its values in append order, and no empty lists |
| GeneGo.IndexMap | src/uhler/utils.py:83 | the position dict holds exactly the listed names, each mapped to its last position |
| GeneGo.FirstIndex | src/uhler/utils.py:69 | `list.index` gives the first position of the value |
| GeneGo.GeneGoJoin | src/uhler/utils.py:83-88 | gene position k relates to GO position v iff some assignment row names a listed gene and a listed GO term at those positions |
| GeneGo.GeneGoSkipsUnknown | src/uhler/utils.py:87 | a row whose gene or GO term is not listed changes nothing |
| GeneGo.GeneGoAppendsInOrder | src/uhler/utils.py:88 | a known row appends its GO position to its gene's list |
| GeneGo.DeltaEntries | src/uhler/utils.py:68-69 | ValueError iff some GO term of the table is not listed; otherwise row p contributes (first position of its GO term, z - 1) |
| GeneGo.DeltaJoin | src/uhler/utils.py:59-71 | the delta relation fails iff some GO term is unlisted, and otherwise relates k to v iff some row has GO term at first position k and z - 1 = v |
| GeneGo.DeltaKeys | src/uhler/utils.py:69 | every delta key is a GO position |
| Splits.SliceWindow | src/uhler/utils.py:199-201 | a cell lies in a perturbation's slice [a:b] iff it carries that label and its rank among those cells is in [a, b) |
| Splits.SplitSimu | src/uhler/utils.py:192-206 | ValueError iff there are no targets |
| Splits.WindowsMember | src/uhler/utils.py:198-204 | a cell is in the stacked slices iff its label is a target and its rank is in the window |
| Splits.SimuSplitMembers | src/uhler/utils.py:192-206 | test holds each target's first 1024 cells, train the next 1024, and no cell is in both |
| Splits.TestShare | src/uhler/utils.py:221 | the test share k of n cells satisfies 5k <= n < 5k + 5 |
| Splits.FirstCellsArePick | src/uhler/utils.py:221 | a draw of the required size exists for every label |
| Splits.SplitSc | src/uhler/utils.py:211-227 | ValueError iff no perturbations are listed; otherwise test is one valid draw per listed label, train is every other cell in ascending order, and test cells carry listed labels |
| Splits.PicksNoDup | src/uhler/utils.py:218-224 | draws for distinct labels share no cell |
| Splits.PicksLabels | src/uhler/utils.py:218-224 | every drawn cell is a cell of the dataset with one of the listed labels |
| Splits.ScSplitPartition | src/uhler/utils.py:211-227 | with distinct labels, train and test are repeat-free and partition the cell indices |
| Batching.TorchSplit | src/uhler/utils.py:261 | `torch.split` gives at least one piece; the pieces concatenate back to the input, all but the last have the chunk size, and the last is non-empty unless the input is |
| Batching.Chunk | src/uhler/utils.py:260-268 | a zero chunk size fails, with ZeroDivisionError for an empty input and RuntimeError otherwise |
| Batching.TorchSplitFull | src/uhler/utils.py:263-264 | when the size divides the length, `torch.split` gives exactly the full chunks |
| Batching.TorchSplitPartial | src/uhler/utils.py:265-266 | otherwise dropping the last piece leaves exactly the full chunks |
| Batching.ChunkSpec | src/uhler/utils.py:260-268 | `chunk` returns len/size chunks of the given size that concatenate to the input's longest multiple-of-size prefix; an empty input gives one empty chunk |
| Batching.LabelOrdersPermute | src/uhler/utils.py:237 | any two iteration orders of the label set are permutations of each other |
| Batching.LenOfPermutation | src/uhler/utils.py:237-240 | the batch count does not depend on the order the label set is iterated |
| Batching.NewSampler | src/uhler/utils.py:232-241 | ZeroDivisionError iff the batch size is 0 and there are cells; otherwise one index group per label and a length equal to the sum over labels of cells div batch size |
| Batching.GroupLabels | src/uhler/utils.py:237-240 | the groups are the positions of each label in order, and the count sums the full batches per label |
| Batching.Iter | src/uhler/utils.py:243-254 | iteration yields exactly `len` batches, each of the batch size and of a single label, and no cell appears twice |
| Batching.ShuffledBatches | src/uhler/utils.py:252-253 | shuffling the combined batches keeps their number, uniformity and disjointness |
| Batching.GroupBatches | src/uhler/utils.py:245-250 | one label's shuffled group yields cells div batch size full batches of that label, with no repeated cell |
| Batching.ShuffledGroup | src/uhler/utils.py:246 | a shuffled group holds each cell of its label once |
| Batching.ChunksOfOneLabel | src/uhler/utils.py:248 | chunking repeat-free cells of one label gives uniform, disjoint batches of that label |
| Batching.AppendGroup | src/uhler/utils.py:249-250 | appending one more label's batches keeps the count, uniformity and disjointness invariant of the loop |
| DaTable.CellsOf | src/uhler/final_analysis/DA_score_analysis.py:17-28 | as sets, the rows selected for a label are exactly the activity rows of that label's cells, and there are at most as many rows as cells |
| DaTable.CellsOfPositions | src/uhler/final_analysis/DA_score_analysis.py:17-28 | the selection `m[adata.obs['guide_ids'] == l]` holds one row per cell of that label, the i-th being the activity row of the i-th such cell |
| DaTable.ScoreAt | src/uhler/final_analysis/DA_score_analysis.py:37 | the score is NaN iff either group has no cells, and otherwise non-negative |
| DaTable.ScoreSymmetric | src/uhler/final_analysis/DA_score_analysis.py:37 | swapping control and knockout cells leaves the score unchanged |
| DaTable.ScoreSelf | src/uhler/final_analysis/DA_score_analysis.py:37 | a non-empty group scored against itself gives 0 |
| DaTable.Belonging | src/uhler/final_analysis/DA_score_analysis.py:32 | a gene set belongs iff it is listed and annotated for the knockout's gene |
| DaTable.GenesetRows | src/uhler/final_analysis/DA_score_analysis.py:34-43 | every row of the inner loop names the knockout and a gene set from the rest of the list |
| DaTable.KnockoutRows | src/uhler/final_analysis/DA_score_analysis.py:27-43 | every row of one knockout names that knockout and a listed gene set |
| DaTable.Table | src/uhler/final_analysis/DA_score_analysis.py:22-43 | every row's knockout is a target with an Ensembl id |
| DaTable.ComputeActivation | src/uhler/final_analysis/DA_score_analysis.py:14-48 | a successful table has at least one row |
| DaTable.Retained | src/uhler/final_analysis/DA_score_analysis.py:22-25 | the knockouts processed are exactly the targets with an Ensembl id |
| DaTable.GenesetRowsOutcome | src/uhler/final_analysis/DA_score_analysis.py:34-43 | the inner loop succeeds iff it has no step left or every step can run; it yields one row per gene set in sena modes and none otherwise; its error is the one the first step raises |
| DaTable.GenesetRowsBlock | src/uhler/final_analysis/DA_score_analysis.py:31-41 | in sena mode with `mu_diff`, the inner loop yields the reference rows: knockout, gene set, score, membership |
| DaTable.KnockoutOutcome | src/uhler/final_analysis/DA_score_analysis.py:24-43 | one knockout succeeds iff its gene is annotated (sena) and the loop can run; KeyError for an unannotated gene, otherwise the loop's error |
| DaTable.KnockoutBlock | src/uhler/final_analysis/DA_score_analysis.py:31-41 | a clean knockout yields exactly its reference block |
| DaTable.TableOutcome | src/uhler/final_analysis/DA_score_analysis.py:22-43 | the outer loop succeeds iff no target is retained, or the inner loop can run and (sena) every retained gene is annotated; it yields kept x gene sets rows in sena mode and none otherwise |
| DaTable.TableError | src/uhler/final_analysis/DA_score_analysis.py:22-43 | a failing outer loop has a retained target, and its error is the one the first retained knockout raises |
| DaTable.TableBlocks | src/uhler/final_analysis/DA_score_analysis.py:22-41 | on clean input the table is the reference blocks of the retained knockouts, in target order |
| DaTable.ActivationOutcome | src/uhler/final_analysis/DA_score_analysis.py:14-48 | the frame is built iff the input is clean and both gene sets and retained knockouts are non-empty, and then it is the reference table with kept x gene sets rows |
| DaTable.ActivationError | src/uhler/final_analysis/DA_score_analysis.py:45-46 | the error is ValueError exactly when the loop succeeded with no rows, which is always the case when no target is retained |
| StrOrder.Sort | src/uhler/final_analysis/DA_score_analysis.py:78 | `sorted` of distinct strings is strictly ascending and holds the same strings |
| StrOrder.AscendingUnique | src/uhler/final_analysis/DA_score_analysis.py:78 | an ascending list is determined by its members, so the sorted order is unique |
| DaFilter.AtThreshold | src/uhler/final_analysis/DA_score_analysis.py:77-78 | a knockout is kept iff it is listed and affects at least 7 gene sets; keeps distinctness |
| DaFilter.Relevant | src/uhler/final_analysis/DA_score_analysis.py:77-78 | the relevant knockouts are ascending and are exactly those with at least 7 affected gene sets |
| DaFilter.RelevantUnique | src/uhler/final_analysis/DA_score_analysis.py:78 | any ascending list of exactly those knockouts equals the relevant list |
| DaFilter.SortByCount | src/uhler/final_analysis/DA_score_analysis.py:79 | the count order is non-increasing in affected count and a permutation of its input |
| DaFilter.SortedKnockouts | src/uhler/final_analysis/DA_score_analysis.py:79 | a count order exists, and every count order is repeat-free with exactly the relevant knockouts |
| DaFilter.Filtered | src/uhler/final_analysis/DA_score_analysis.py:82 | each row keeps its multiplicity if its knockout is kept and is dropped otherwise |
| DaFilter.FilteredConcat | src/uhler/final_analysis/DA_score_analysis.py:82 | filtering keeps row order |
| DaFilter.FilteredCategories | src/uhler/final_analysis/DA_score_analysis.py:85-89 | every filtered row's knockout is a category of the count order |
| DaFilter.PairsCoverBoxes | src/uhler/final_analysis/DA_score_analysis.py:92 | pairs are distinct, the j-th compares the j-th knockout's unaffected and affected boxes, and every filtered row lies in some compared box |
| DaFilter.PairsDistinct | src/uhler/final_analysis/DA_score_analysis.py:92 | distinct knockouts give distinct pairs |
| DaFilter.Select | src/uhler/final_analysis/DA_score_analysis.py:74-92 | the relevant list, count order, filtered rows and pairs together, with all the properties above |

## Left out

- Training itself is left out: forward and backward passes, AdamW, MSE values, `torch.norm`. The model keeps the layer widths, the loss's shape and the report schedule, and takes trained values and diagnostics as parameters.
- The summaries behind the non-efficiency reports are left out: `compute_outlier_activation_analysis`, `compute_sparsity_contribution` and `compute_latent_correlation_analysis`. They live in a tools module that is not part of this model, so they are parameters.
- `NetActivity_layer` is left out, including the mask it draws with leak probability sp. The mask enters only as its count of ones.
- `load_norman_2019_dataset`, `train_test_split`, `DataLoader`, the CSV/pickle reading and writing, directory creation, `tqdm` and printing are left out. They are I/O or code not part of this model; their results are parameters. The gene–GO dictionary is taken as a plain mapping.
- Floating-point rounding is left out: scores, means and `1e-<n>` are exact reals. `int(n * 0.2)` is modelled as n div 5, which is what the double product gives for any realistic cell count.
- Randomness is left out: `random.shuffle` and `np.random.choice` are arbitrary permutations or choices. `SCDATA_sampler.__iter__` shuffles its stored groups in place, which carries into later iterations; under arbitrary permutations that history is unobservable.
- Unused arguments are left out: the `batch_size` of both splitters, and the `subsample` argument, which only reaches the dataset loader.
- The plotting and statistics after line 92 of the analysis script are left out. The categorical column is modelled only by the category order it imposes.
- DaTable.Row: the `regular`/`l1` rows of `compute_activation_df` are never produced, because that branch always raises NameError. A row's gene set is therefore always a name, never a position.
- DaFilter.SortByCount: `sort_values` is not stable and the order among equal counts is unspecified. The model proves properties of every non-increasing order and gives one witness; it does not fix pandas' tie order.
- DaFilter.Pairs: its own contract states only the length. The content is stated by DaFilter.PairsCoverBoxes.
- Modes.ParseFloat: Python's `float` turns a decimal text beyond the double range into inf, so `sena_1e400` makes `int` raise OverflowError; the model reads it as the exact finite value. Python also accepts non-ASCII whitespace and digits, which the model rejects with ValueError.
- Experiment.RunSeeds: the data loading and split are drawn again for every seed, but a seed's run sees them only through the diagnostic parameters.
- Experiment.ReportInterval: its own contract states only positivity. The schedule is stated by ReportEpochsMembers and ReportCounts.
