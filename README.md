# Doublet bookkeeping of loner.py, in Dafny

loner.py detects doublets (two cells sequenced as one) in single-cell
RNA-seq count data. It simulates synthetic doublets from pairs of real
cells, trains a VAE and a classifier with an external ML stack, and then
thresholds the classifier's scores to call doublets. This project models
the exact, self-contained bookkeeping around that stack:

- the three doublet constructors (`create_average_doublet`,
  `create_summed_doublet`, `create_multinomial_doublet`), over rows of a
  non-negative integer count matrix (`Doublets`);
- the number of doublets to simulate and the loop that fills the
  preallocated `num_doublets x num_genes` doublet matrix row by row, with
  the random cell pairs as an input (`Simulation`);
- the expected-count threshold: partition the real cells' scores at
  `k = n - e` and take the largest of the first `k`, i.e. the k-th
  smallest score, or 0.5 without `e` (`Thresholding`);
- the final calls: the known-doublet array, OR-ed in place with the
  score-based calls (`FinalCalls`).

`Base` holds the error points of the script (`Failure`), Python's `int()`
on floats (truncation toward zero), and sums and counts. Exceptions and
failed assertions of the script are `Err` results; the random draws are
inputs: the index pairs are a sequence, and the multinomial draw is a
supplied sampler, one per doublet row, that must return a non-negative vector totalling the
requested depth, with no counts in a gene of probability zero.

The scores and thresholds are only compared and maxed, so they are
`real`s. Matrices are sequences of rows, except the doublet matrix, which
the script preallocates and fills in place: it is an `array2<real>`. The
merged doublet mask is the known-doublet array itself, because the script
binds `is_doublet` to `known_doublets` (loner.py:379). That array is an
`array<bool>` that the merge method modifies.

`scores_sim.npy` and `preds_sim.npy` (loner.py:346, 388) hold one entry
per simulated cell; `is_doublet_sim.npy`, saved beside them, is always
empty (see Findings).

## Model

| member | source | states |
|---|---|---|
| `Base.Trunc` | loner.py:48 | `int()` of a float truncates toward zero: the result is within one of the argument, at or below it when it is non-negative, at or above it when it is negative |
| `Base.CountFalse` | loner.py:129-138 | the cells `~known_doublets` selects plus the known doublets are all the cells |
| `Base.SumNonNegative` | loner.py:45 | a non-negative count row has a non-negative total, zero exactly when every count is zero |
| `Base.RealSumToReal` | loner.py:32 | converting a count row to floats keeps its total |
| `Doublets.SumAddRows` | loner.py:41-42 | the combined row `X[i, :] + X[j, :]` totals the two cells' depths |
| `Doublets.SummedDoubletSymmetric` | loner.py:31-32 | gene g of the summed doublet is `X[i][g] + X[j][g]`, and swapping the two cells gives the same doublet |
| `Doublets.SummedDoublet` | loner.py:31-32 | one value per gene, and the summed doublet's depth is the sum of its constituents' depths |
| `Doublets.AverageDoublet` | loner.py:27-28 | one value per gene, each lying between the two constituents' counts for that gene, and the average doublet's depth is the mean of its constituents' depths |
| `Doublets.AverageIsHalfSummed` | loner.py:27-28 | the average doublet is the summed doublet halved entrywise |
| `Doublets.Proportions` | loner.py:44-45 | `X[i, :] + X[j, :]` divided by its total: scaling each proportion back by the total gives the combined count |
| `Doublets.TargetDepth` | loner.py:47-48 | `int(doublet_depth * (cell_depths[i] + cell_depths[j]) / 2)` is non-negative, and at most the scaled mean depth, for a non-negative multiplier and depths |
| `Doublets.ProportionsIsDistribution` | loner.py:44-45 | normalising a non-negative row with a non-zero total gives non-negative proportions totalling one, zero exactly where the row is zero |
| `Doublets.TargetDepthUnitMultiplier` | loner.py:47-48 | with the default depth multiplier 1, the target depth is the mean of the two cells' depths rounded down |
| `Doublets.MultinomialDoublet` | loner.py:35-51 | the draw succeeds exactly when the combined row has a non-zero total and the target depth is non-negative; it then has one non-negative count per gene, totals exactly `int(doublet_depth * (cell_depths[i] + cell_depths[j]) / 2)`, and is zero wherever both cells are zero; otherwise the failure names which of the two conditions broke |
| `Doublets.MultinomialZeroTotalIffEmptyCells` | loner.py:40-51 | normalisation fails exactly when both cells have no counts at all |
| `Doublets.DoubletRow` | loner.py:223-241 | the chosen doublet function gives one value per gene, and only the multinomial one can fail |
| `Simulation.CellDepthsOfCountMatrix` | loner.py:214 | in a count matrix every cell depth is non-negative, and zero exactly when the cell has no counts |
| `Simulation.SingletCount` | loner.py:129-138 | all cells without a known mask; otherwise the cells the mask leaves, which with the known doublets make up the mask |
| `Simulation.KnownCount` | loner.py:123-138 | no known doublets without a mask; otherwise at most as many as the mask has cells |
| `Simulation.DoubletCount` | loner.py:125-221 | succeeds exactly when the known mask (if any) covers every cell and the known doublets do not exceed `int(ratio * singlets)`; the count plus the known doublets is then `int(ratio * singlets)`; otherwise it names the length assertion, the `num_doublets >= 0` assertion, or the negative `np.zeros` dimension |
| `Simulation.DoubletCountWithoutKnown` | loner.py:215 | without a known mask and with a non-negative ratio the count never fails and is `floor(ratio * num_cells)` |
| `Simulation.PositiveCountHasSinglets` | loner.py:215-235 | a positive doublet count always leaves at least one singlet for `np.random.choice` to draw from |
| `Simulation.DoubletCountUnitRatio` | loner.py:215-220 | with the default ratio 1 and a known mask, the count is singlets minus known doublets, and the assertion fails when known doublets outnumber singlets |
| `Simulation.SimulatedRow` | loner.py:235-241 | the doublet made from the `di`-th drawn pair, with the `di`-th multinomial draw, has one value per gene |
| `Simulation.WriteRow` | loner.py:238-241 | `X_doublets[di, :] = ...` sets row `di` to the doublet and leaves every other row as it was |
| `Simulation.SimulateDoublets` | loner.py:221-241 | the fresh `num_doublets x num_genes` matrix has row `di` equal to the doublet made from the `di`-th drawn pair and the `di`-th multinomial draw for every row written, zeros in the rest; all rows are written unless a doublet function fails, and then the failure is the first failing row's |
| `Simulation.SimulationFailsOnlyForMultinomial` | loner.py:224-241 | the simulation loop can only stop early for multinomial doublets |
| `Simulation.SimulatedRowFailsOnlyOnEmptyCells` | loner.py:214-241 | with a non-negative depth multiplier a row fails exactly when it is a multinomial doublet of two cells with no counts, and then at the zero-total normalisation |
| `Thresholding.CountPermutation` | loner.py:357 | how many scores meet a condition does not depend on how argpartition arranges them |
| `Thresholding.KthSmallestUnique` | loner.py:357-358 | the k-th smallest score is unique |
| `Thresholding.PartitionedPrefixMax` | loner.py:357-358 | in any arrangement partitioned at k, the maximum of the first k scores is the k-th smallest |
| `Thresholding.ArgpartitionCutIsKthSmallest` | loner.py:357-358 | whichever partitioned arrangement `np.argpartition` returns, the cut is the same value: the k-th smallest score |
| `Thresholding.SortedCut` | loner.py:357-358 | in ascending order the maximum of the first k scores is the k-th one, and it is the k-th smallest score |
| `Thresholding.Max` | loner.py:358 | `np.max` returns one of the scores, at least as large as all of them |
| `Thresholding.Sort` | loner.py:357 | an ascending arrangement of the same scores |
| `Thresholding.ThresholdAsWritten` | loner.py:349-360 | as written: 0.5 without `e`; with `e` it succeeds exactly when there are cells and `0 < e < n` |
| `Thresholding.Threshold` | loner.py:349-360 | corrected: 0.5 without `e`; with `e` it succeeds exactly when there are cells and `0 <= e < n`, and the cut is then the k-th smallest score with at most `e` scores strictly above it; otherwise it names the failure (no cells, the `k > 0` assertion, or argpartition's bound) |
| `Thresholding.ThresholdCut` | loner.py:351-358 | the largest of the k smallest scores is the k-th smallest, and at most `n - k` scores lie above it |
| `Thresholding.AboveCutCount` | loner.py:358-361 | the scores above the cut are all those not at or below it; at most `e` lie above it, fewer than `e` exactly when more than `k` lie at or below it, and only when another score ties with the cut |
| `Thresholding.TieWithFullCount` | loner.py:357-361 | a tie at the cut does not force fewer calls: for `[1, 1, 2]` and `e = 1` the cut is the tied 1 and one score lies above it |
| `Thresholding.ThresholdAsWrittenAgrees` | loner.py:351-358 | whenever the script's threshold exists it equals the corrected one |
| `Thresholding.NoExpectedDoublets` | loner.py:351-357 | with `e = 0` the script fails at argpartition, while the corrected threshold exists and no score lies above it |
| `Thresholding.Calls` | loner.py:361 | `order_score > threshold`: one call per score |
| `Thresholding.CountCalls` | loner.py:361 | `order_score > threshold` calls a cell exactly when its score is above the cut, and calls as many cells as there are scores above it |
| `FinalCalls.Where` | loner.py:380 | `np.where` lists, in ascending order, exactly the positions whose entry is true |
| `FinalCalls.NewDoublets` | loner.py:380 | `~is_doublet & is_loner_doublet[:num_cells]` marks exactly the cells of the merged mask that were not known doublets, so with the known doublets it counts each marked cell exactly once |
| `FinalCalls.UnionCount` | loner.py:379-381 | every known doublet stays marked; an unknown cell becomes marked exactly when it is called; the count of marked cells lies between the known count and the known count plus the called count |
| `FinalCalls.UnionIdempotent` | loner.py:379-381 | merging the same calls again changes nothing |
| `FinalCalls.MergeCalls` | loner.py:379-381 | after the merge the known-doublet array itself holds known OR called for every real cell, and keeps its length |
| `FinalCalls.FinalCalls` | loner.py:349-381 | corrected (Findings row 1): the final mask has one entry per real cell, marks a cell exactly when it is known or scores above the threshold, and with `e` given marks at most `e` cells beyond the known doublets |
| `FinalCalls.FinalCallsAsWritten` | loner.py:349-381 | as written: fails exactly when the script's threshold fails, with its failure, and otherwise gives the corrected calls |
| `FinalCalls.NoExpectedDoubletsFinal` | loner.py:351-381 | with `-e 0` and at least one cell the script fails at argpartition, while the corrected final calls are exactly the known doublets |
| `FinalCalls.NoKnownDoublets` | loner.py:133-136 | without a known-doublet file the final calls are exactly the score-based calls of the real cells |
| `FinalCalls.SavedSimCalls` | loner.py:384 | `is_doublet[num_cells:]` holds the entries past the real cells, one per entry beyond `num_cells` |
| `FinalCalls.SavedSimCallsEmpty` | loner.py:384 | the saved `is_doublet[num_cells:]` slice is always empty |
| `FinalCalls.SimulatedCalls` | loner.py:361 | the calls of the simulated cells: one per simulated cell, true exactly when its score is above the cut |

## Left out

- VAE and classifier construction, training, early stopping, and checkpoint load and save: calls into scvi and torch.
- Option parsing, output-directory creation, loom/h5ad loading, and the unrecognised-extension branch, which leaves the data undefined.
- Reading the known-doublets TSV: the mask is an input. Also left out are all `np.save` outputs and the printed messages, including the warning when more than half the cells are expected to be doublets.
- ROC/AUROC and the per-threshold accuracy loops: sklearn calls and float means.
- All plotting.
- Dataset assembly and label remapping (`make_gene_expression_dataset`, `concat_datasets`, `labels += 1`): their meaning lives in the external library.
- `np.random.choice` and the internals of `multinomial.rvs`. The index pairs are an input. Each row's draw is its own sampler, any one that returns a possible outcome; the probabilities are not modelled.
- `Doublets.MultinomialDoublet`: a zero-total row is modelled as a failure. In the script, normalising it gives NaN proportions, and what the draw then does depends on the numpy/scipy version. The last-proportion adjustment scipy makes is not modelled either.
- `Doublets.MultinomialDoublet` and `Simulation.SimulateDoublets` require non-negative counts, as count data are; the script does not check this.
- Float rounding (float64 sums, float32 storage in the doublet matrix, the float product in `int(doublet_ratio * singlet_num_cells)`) and NaN scores: numbers are exact reals.
- The `raise ValueError` branch for an unknown doublet type is unreachable: the option parser admits only the three choices, which `DoubletType` lists.
- `Simulation.SimulateDoublets` reports the rows written before a failing doublet function. In the script the exception ends the run.
- `testdata/calculate_performance.py`: file I/O, sklearn metrics, statistics tests and plots, with no logic of its own to model.

## Findings

| source | as written | input that shows it | evidently intended | confidence | as-written member | corrected member |
|---|---|---|---|---|---|---|
| loner.py:351-357 | `np.argpartition(loner_scores, k)` with `k = n - e`, after only asserting `k > 0` | `-e 0` with any cells: `k = n`, and argpartition rejects `kth = n` | the maximum of the k smallest scores for every `0 < k <= n` (partition at `k - 1`), so `e = 0` calls no cell by score | medium, not executed | `Thresholding.NoExpectedDoublets`, `FinalCalls.FinalCallsAsWritten` | `Thresholding.Threshold`, `FinalCalls.FinalCalls` |
| loner.py:379-384 | `np.save(..., is_doublet[num_cells:])`, where `is_doublet` is the known-doublet array of length `num_cells` | any run with simulated cells scoring above the threshold: the saved slice is empty | save the calls of the simulated cells, `is_loner_doublet[num_cells:]` | medium, not executed | `FinalCalls.SavedSimCallsEmpty` | `FinalCalls.SimulatedCalls` |
