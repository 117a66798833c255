# Causal graph utilities of causica, modelled in Dafny

This project models the graph-manipulation core of `causica/utils/causality_utils.py`. These functions work on small square 0/1 adjacency matrices, where entry `[i][j]` set means an edge `i -> j`. The model covers:

- **Interventions.** `intervene_graph` cuts every edge into the intervened nodes. It zeroes their columns, either on a copy or in place (`Intervention`).
- **Group masks.** `get_mask_from_idxs` turns selected variable groups into a column mask (`Intervention`).
- **The DAG test.** `dag_pen_np(A) == 0` and the `trace(expm(A)) - n == 0` tests are modelled as the exact predicate "no directed cycle, self-loops included" (`Graphs.Acyclic`). They are decided by repeatedly removing a sink (`Graphs.IsDag`).
- **Bit lists.** `int2binlist` gives the most-significant-bit-first 0/1 list of an integer (`BinaryLists`).
- **Acyclic subgraph repair.** `approximate_maximal_acyclic_subgraph` is the random-order 2-approximation of the maximum acyclic subgraph by Hassin and Rubinstein (`AcyclicSubgraph`).
- **CPDAG enumeration.** `cpdag2dags` enumerates the DAGs of the Markov equivalence class of a CPDAG. The random draws are inputs:
  - the repair orders;
  - the shuffled list of masks, popped from its end (`CpdagEnumeration`).
- **Batch processing.** `process_adjacency_mats` keeps the DAGs of a batch, deduplicates them in `np.unique` order and weights each by its multiplicity (`AdjacencyProcessing`).
- **Effect columns.** `filter_effect_columns` computes the processed column indices of the effect variables and projects the arrays onto them (`EffectColumns`).
- **ATE sample counts.** `get_ate_rms` decides how many graphs and how many samples per graph to draw (`AteSampling`).

Every draw of `np.random.permutation` is an argument of the model, and `CpdagEnumeration.Draws` states what the source draws:
- 10 repair orders for a CPDAG without symmetric entries, which is the default `n_samples` at causica/utils/causality_utils.py:605;
- 1000 repair orders for the determined subgraph (:613);
- a permutation of `0 .. 2^N - 1` for the masks (:631).

Two places where the code as written departs from its evident intent are listed under Findings. The model keeps both the as-written form and the corrected form.
- **`int2binlist` with zero bits.** The corrected form (`BinaryLists.Int2BinList`) is used by the enumeration.
- **The batch guard of `process_adjacency_mats`.** The corrected form is `AdjacencyProcessing.ProcessAdjacencyMats`.

## Model

| member | source | states |
|---|---|---|
| Graphs.IsDag | causica/utils/causality_utils.py:548-551 | the executable DAG test holds exactly when the matrix has no directed cycle (self-loops count as cycles), which is what `dag_pen_np(A) == 0` decides |
| Graphs.SubgraphOfAcyclic | causica/utils/causality_utils.py:548-551 | removing edges from a DAG leaves a DAG |
| Graphs.RankedIsAcyclic | causica/utils/causality_utils.py:578-584 | a graph whose every edge goes strictly down some ranking of the nodes has no cycle (why each half kept by the repair is a DAG) |
| Graphs.Zero | causica/utils/causality_utils.py:576 | `np.zeros_like`: square, same size, no edge |
| Graphs.EdgeCount | causica/utils/causality_utils.py:584-585 | `adj.sum()` on a 0/1 matrix; its meaning (zero exactly when no entry is set) is `Graphs.EdgeCountZero` |
| Graphs.EdgeCountZero | causica/utils/causality_utils.py:584-585 | a matrix sums to zero exactly when none of its entries is set |
| BinaryLists.Int2BinList | causica/utils/causality_utils.py:554-560 | for `i < 2^n` the list has exactly `n` entries, each 0 or 1 |
| BinaryLists.Int2BinListValue | causica/utils/causality_utils.py:554-560 | the most-significant-bit-first value of the list is `i` |
| BinaryLists.BinListRoundTrip | causica/utils/causality_utils.py:554-560 | every 0/1 list of length `n` is the encoding of its own value, which is below `2^n` (decoding then encoding is the identity) |
| BinaryLists.Int2BinListBijective | causica/utils/causality_utils.py:554-560 | two numbers below `2^n` have the same list exactly when they are equal |
| BinaryLists.Int2BinListStep | causica/utils/causality_utils.py:554-560 | the list of `n` bits of `i` is the list of `n-1` bits of `i / 2` followed by the last bit of `i` |
| BinaryLists.MinimalBinary | causica/utils/causality_utils.py:558 | the digits `binary_repr` renders for a positive number start with 1 and their count is the number's bit length |
| BinaryLists.PaddedMinimalBinary | causica/utils/causality_utils.py:558 | left-padding those digits with zeros to `n` gives the intended `n`-bit list |
| BinaryLists.BinaryRepr | causica/utils/causality_utils.py:559 | numpy's `binary_repr(num, width)` has `width` digits, except at width 0 where it has one; its values are stated by `Int2BinListAsWrittenAgrees` and `Int2BinListAsWrittenWidthZero` |
| BinaryLists.Int2BinListAsWritten | causica/utils/causality_utils.py:554-560 | the source's list has `n_bits` entries, except at `n_bits = 0` where it has one; it equals the intended list for every width of at least one bit (`Int2BinListAsWrittenAgrees`) |
| BinaryLists.Int2BinListOfZero | causica/utils/causality_utils.py:554-560 | zero is the all-zero list of the requested width |
| BinaryLists.Int2BinListAsWrittenAgrees | causica/utils/causality_utils.py:554-560 | for every width of at least one bit the source's list (via numpy's `binary_repr`) is the intended list |
| BinaryLists.Int2BinListAsWrittenWidthZero | causica/utils/causality_utils.py:554-560 | at width 0 the source's list is `[0]`, one entry longer than the width |
| AcyclicSubgraph.PermutationCovers | causica/utils/causality_utils.py:631 | a permutation of `0..n-1` lists every one of them |
| AcyclicSubgraph.Forward | causica/utils/causality_utils.py:579-580 | the forward half is a square matrix of the input's size |
| AcyclicSubgraph.Backward | causica/utils/causality_utils.py:581-582 | the backward half is a square matrix of the input's size |
| AcyclicSubgraph.Candidate | causica/utils/causality_utils.py:584 | the half kept for one order is square and of the input's size |
| AcyclicSubgraph.CandidateIsAcyclicSubgraph | causica/utils/causality_utils.py:578-584 | for any order the kept half is a subgraph of the input, has no self-loop and is acyclic |
| AcyclicSubgraph.CandidateKeepsHalf | causica/utils/causality_utils.py:578-584 | under a permutation the kept half holds at least half of the off-diagonal edges |
| AcyclicSubgraph.ArePermutations | causica/utils/causality_utils.py:578 | each drawn order has one entry per node |
| AcyclicSubgraph.BestOf | causica/utils/causality_utils.py:576-587 | the result is square and of the input's size |
| AcyclicSubgraph.BestOfIsAcyclicSubgraph | causica/utils/causality_utils.py:576-587 | the result is a subgraph of the input, without self-loops, and acyclic |
| AcyclicSubgraph.BestOfIsMaximum | causica/utils/causality_utils.py:584-586 | no per-order candidate has more edges than the result |
| AcyclicSubgraph.BestOfIsEarliest | causica/utils/causality_utils.py:576-586 | a result without edges is the zero matrix (so `n_samples = 0` gives zeros); otherwise it is the earliest candidate with its edge count, every earlier candidate having strictly fewer (ties keep the first) |
| AcyclicSubgraph.BestOfKeepsHalf | causica/utils/causality_utils.py:576-587 | with at least one order the result keeps at least half of the off-diagonal edges |
| AcyclicSubgraph.ApproximateMaximalAcyclicSubgraph | causica/utils/causality_utils.py:563-587 | the loop over the orders computes `BestOf` of the orders |
| CpdagEnumeration.Determined | causica/utils/causality_utils.py:601-609 | `cp_mat - cycle_mat` is a subgraph of the CPDAG without self-loops |
| CpdagEnumeration.Symmetric | causica/utils/causality_utils.py:601 | an entry of `cycle_mat`: the edge is stored in both directions; `Determined` and `UndeterminedPairs` state what the split into determined and undetermined edges gives |
| CpdagEnumeration.NoSymmetricEntries | causica/utils/causality_utils.py:603-606 | `cycle_mat.sum() == 0`; under it the batch is the single matrix `EnumerateDagsDirected` states |
| CpdagEnumeration.RepairedDetermined | causica/utils/causality_utils.py:611-613 | the repaired determined subgraph is acyclic and inside the determined subgraph, and equals it when that is already a DAG |
| CpdagEnumeration.RowPairs | causica/utils/causality_utils.py:619-622 | the symmetric entries of one row below a column, exactly, by increasing column |
| CpdagEnumeration.PairsBelow | causica/utils/causality_utils.py:619-622 | the symmetric strictly-lower-triangle entries of the first rows, exactly, in row-major order |
| CpdagEnumeration.UndeterminedPairs | causica/utils/causality_utils.py:619-622 | a pair is listed exactly when it is a symmetric entry with row > column (self-loops never are), in row-major order like `np.nonzero` |
| CpdagEnumeration.UndeterminedPairsFit | causica/utils/causality_utils.py:619-622 | every listed pair has `col < row < n` |
| CpdagEnumeration.ColumnCount | causica/utils/causality_utils.py:616 | the column sum is at most the number of rows and is zero exactly when the column is empty |
| CpdagEnumeration.InDegrees | causica/utils/causality_utils.py:616 | `N_in_nodes[j]` is zero exactly when node j has no determined parent |
| CpdagEnumeration.Target | causica/utils/causality_utils.py:641 | the node an undetermined pair's oriented edge points into (row for bit 0, column for bit 1), as `OrientedEntries` states |
| CpdagEnumeration.NewCollider | causica/utils/causality_utils.py:643-647 | two oriented edges share a target, or one points into a node with a determined parent; `Hit` rejects exactly these masks and `AcceptedParents` states what passing it guarantees |
| CpdagEnumeration.Oriented | causica/utils/causality_utils.py:650-656 | the materialised matrix is square and of the CPDAG's size |
| CpdagEnumeration.Hit | causica/utils/causality_utils.py:641-660 | a mask yields a DAG exactly when it makes no new collider and its orientation is acyclic, and that DAG is its orientation |
| CpdagEnumeration.OrientedEntries | causica/utils/causality_utils.py:650-656 | for each undetermined pair (r, c), r > c, the new DAG has r -> c exactly when the bit is 1 and c -> r exactly when it is 0; every other entry is the determined subgraph's |
| CpdagEnumeration.OrientedEdgeInCpdag | causica/utils/causality_utils.py:650-656 | every edge set from an undetermined pair joins two nodes the CPDAG links both ways, so the CPDAG holds it |
| CpdagEnumeration.OrientedBetween | causica/utils/causality_utils.py:650-656 | every orientation contains the determined subgraph and stays within the CPDAG |
| CpdagEnumeration.AcceptedParents | causica/utils/causality_utils.py:641-647 | when no new collider is made, the target of each oriented edge has exactly one parent, the edge's source (targets are pairwise distinct and had no determined parent) |
| CpdagEnumeration.HitInjective | causica/utils/causality_utils.py:638-656 | two masks with the same orientation are the same mask |
| CpdagEnumeration.MasksOrientInjectively | causica/utils/causality_utils.py:638-656 | different masks orient the undetermined pairs differently |
| CpdagEnumeration.Found | causica/utils/causality_utils.py:649-660 | the DAG one popped mask adds to `dag_list`, if any; `FoundShape` states it is at most one DAG, the mask's orientation |
| CpdagEnumeration.Hits | causica/utils/causality_utils.py:635-660 | the DAGs found popping the masks from the end of the list; `HitsShape`, `PopHit`, `HitsSound`, `HitsComplete` and `HitsDistinct` state what they are |
| CpdagEnumeration.HitsShape | causica/utils/causality_utils.py:635-660 | popping masks yields at most one DAG per mask, each of the CPDAG's size |
| CpdagEnumeration.PopHit | causica/utils/causality_utils.py:637-660 | popping one more mask appends that mask's DAG, if any, to those already found |
| CpdagEnumeration.HitsSound | causica/utils/causality_utils.py:635-660 | every DAG found comes from one of the popped masks |
| CpdagEnumeration.HitsComplete | causica/utils/causality_utils.py:635-660 | every popped mask that yields a DAG contributes it |
| CpdagEnumeration.FoundShape | causica/utils/causality_utils.py:649-660 | one mask contributes at most one DAG, its own orientation |
| CpdagEnumeration.HitsAvoid | causica/utils/causality_utils.py:635-660 | no popped mask yields the orientation of a different mask |
| CpdagEnumeration.FoundIsNew | causica/utils/causality_utils.py:635-660 | the DAG of a mask is not among the DAGs of the masks popped before it |
| CpdagEnumeration.HitsDistinct | causica/utils/causality_utils.py:635-660 | distinct masks give pairwise distinct DAGs |
| CpdagEnumeration.Budget | causica/utils/causality_utils.py:628-630 | `samples`, defaulting to `2^N` when `None`; `EnumerateDagsDistinct` states that at most `max(samples, 1)` DAGs come back |
| CpdagEnumeration.FirstHits | causica/utils/causality_utils.py:635 | `len(dag_list) < samples` keeps the first `min(max(samples, 0), found)` DAGs, a prefix of those found |
| CpdagEnumeration.EnumerateDags | causica/utils/causality_utils.py:590-665 | the batch is never empty and each member is square of the CPDAG's size |
| CpdagEnumeration.EnumerateDagsAreDags | causica/utils/causality_utils.py:590-665 | every member is acyclic and uses only edges of the CPDAG |
| CpdagEnumeration.EnumerateDagsFromMasks | causica/utils/causality_utils.py:609-665 | with undetermined edges every member contains the repaired determined subgraph, and the batch is that subgraph alone or made of DAGs of masks below `2^N` |
| CpdagEnumeration.EnumerateDagsDistinct | causica/utils/causality_utils.py:627-665 | no DAG appears twice, and at most `max(samples, 1)` are returned (`2^N` when `samples` is `None`) |
| CpdagEnumeration.EnumerateDagsComplete | causica/utils/causality_utils.py:627-660 | without `samples`, the DAG of every mask that passes the checks is returned |
| CpdagEnumeration.EnumerateDagsFallback | causica/utils/causality_utils.py:661-663 | when no mask passes, or `samples <= 0`, the batch is exactly the repaired determined subgraph |
| CpdagEnumeration.EnumerateDagsDirected | causica/utils/causality_utils.py:601-606 | without symmetric entries exactly one matrix is returned: the CPDAG when acyclic, else its repair |
| CpdagEnumeration.SelfLoopOnlyCpdag | causica/utils/causality_utils.py:601-652 | a CPDAG whose only symmetric entry is a self-loop has no undetermined pair; the source's mask then has one bit for zero pairs, while the corrected enumeration returns the empty graph |
| CpdagEnumeration.CollectHits | causica/utils/causality_utils.py:634-660 | the `while` loop returns the first `samples` DAGs of the masks popped from the end of the list |
| CpdagEnumeration.CpdagToDags | causica/utils/causality_utils.py:590-665 | the procedure returns the batch `EnumerateDags` describes |
| AdjacencyProcessing.BitsLessIsStrictTotal | causica/utils/causality_utils.py:693 | the row order used by `np.unique` is a strict total order |
| AdjacencyProcessing.MatLessIsStrictTotal | causica/utils/causality_utils.py:693 | the matrix order used by `np.unique` is a strict total order |
| AdjacencyProcessing.Mats | causica/utils/causality_utils.py:693 | one matrix per entry, in entry order |
| AdjacencyProcessing.InsertCount | causica/utils/causality_utils.py:693 | counting one more matrix adds one to its count only, and one to the total |
| AdjacencyProcessing.InsertPositive | causica/utils/causality_utils.py:693 | counts stay positive |
| AdjacencyProcessing.InsertAbove | causica/utils/causality_utils.py:693 | a lower bound of all entries and of the new matrix remains one |
| AdjacencyProcessing.InsertSorted | causica/utils/causality_utils.py:693 | counting one more matrix keeps the entries strictly sorted |
| AdjacencyProcessing.CountMeansPresent | causica/utils/causality_utils.py:693 | a matrix is listed exactly when its recorded count is positive |
| AdjacencyProcessing.Tally | causica/utils/causality_utils.py:693 | the entries of `np.unique(.., return_counts=True)` are strictly sorted with positive counts; `TallyIsUnique` states the counts and members |
| AdjacencyProcessing.TallyIsUnique | causica/utils/causality_utils.py:693 | `np.unique(.., return_counts=True)` lists each matrix of the batch exactly once, strictly sorted, with its multiplicity; the counts add up to the batch size |
| AdjacencyProcessing.CountOfEntry | causica/utils/causality_utils.py:693 | in sorted entries the count recorded for a listed matrix is its own entry's count |
| AdjacencyProcessing.CountAbsent | causica/utils/causality_utils.py:693 | a matrix below all listed ones has count zero |
| AdjacencyProcessing.Weights | causica/utils/causality_utils.py:695 | one weight per distinct matrix |
| AdjacencyProcessing.WeightsSum | causica/utils/causality_utils.py:695 | the weights add up to the total count over the divisor |
| AdjacencyProcessing.WeightsSumToOne | causica/utils/causality_utils.py:695 | `dup_counts / np.sum(dup_counts)` sums to 1 |
| AdjacencyProcessing.WeightsPositive | causica/utils/causality_utils.py:695 | every weight is positive |
| AdjacencyProcessing.WeightsEach | causica/utils/causality_utils.py:695 | each weight is its count over the total |
| AdjacencyProcessing.KeepDags | causica/utils/causality_utils.py:688-690 | the batch keeps each DAG with its multiplicity and drops every non-DAG |
| AdjacencyProcessing.KeepDagsMembers | causica/utils/causality_utils.py:688-690 | the kept matrices are exactly the DAGs of the batch, and none is kept exactly when the batch has no DAG |
| AdjacencyProcessing.AnyEdge | causica/utils/causality_utils.py:691 | `np.any(adj_mats)`; `NoEdgeIffZeroSums`, `AsWrittenAgrees` and `AsWrittenRejectsEmptyGraph` state when it fails |
| AdjacencyProcessing.NoEdgeIffZeroSums | causica/utils/causality_utils.py:691 | `np.any` fails exactly when every matrix of the list sums to zero |
| AdjacencyProcessing.Aggregate | causica/utils/causality_utils.py:693-695 | one weight per distinct matrix, and the listed matrices are exactly those kept; `AggregateIsUnique` states order and weights |
| AdjacencyProcessing.AggregateIsUnique | causica/utils/causality_utils.py:693-696 | the result lists every kept matrix once, strictly sorted, with weight multiplicity / number kept; weights are positive and sum to 1 |
| AdjacencyProcessing.ProcessAdjacencyMats | causica/utils/causality_utils.py:668-696 | a single matrix succeeds exactly when it is a DAG and a batch exactly when it holds one; a result lists at least one matrix with one weight each (the full result is stated by `ProcessSingle` and `ProcessBatch`) |
| AdjacencyProcessing.ProcessSingle | causica/utils/causality_utils.py:681-684 | a single matrix succeeds exactly when it is a DAG, and is then returned unchanged with weights `[1.0]` |
| AdjacencyProcessing.ProcessBatch | causica/utils/causality_utils.py:685-696 | a batch succeeds exactly when it holds a DAG; the result is every DAG of the batch once and nothing else, strictly sorted, with weight multiplicity / number of DAGs, positive and summing to 1 |
| AdjacencyProcessing.ProcessAdjacencyMatsAsWritten | causica/utils/causality_utils.py:668-696 | with the `np.any` guard of :691, every result that succeeds is the intended one, and a single matrix is treated as intended; only a batch can fail where the intended guard succeeds |
| AdjacencyProcessing.AsWrittenAgrees | causica/utils/causality_utils.py:691 | the `np.any` guard agrees with the intended guard whenever some kept DAG has an edge |
| AdjacencyProcessing.AsWrittenRejectsEmptyGraph | causica/utils/causality_utils.py:691 | a batch holding only the empty graph is a DAG batch the intended guard accepts with weight 1, but `np.any` rejects it |
| Intervention.Intervened | causica/utils/causality_utils.py:30 | the intervened graph is square and of the input's size |
| Intervention.InterventionCutsParents | causica/utils/causality_utils.py:30 | an intervened node has no parent, every other column is unchanged, and the result is a subgraph of the input |
| Intervention.InterventionIdempotent | causica/utils/causality_utils.py:30 | intervening twice on the same nodes equals intervening once |
| Intervention.InterventionsCompose | causica/utils/causality_utils.py:30 | two interventions in a row are one on both index lists, in either order |
| Intervention.InterventionKeepsDag | causica/utils/causality_utils.py:30 | an intervention on a DAG leaves a DAG |
| Intervention.InterventionOnNothing | causica/utils/causality_utils.py:24-25 | intervening on no node leaves the graph unchanged |
| Intervention.Clone | causica/utils/causality_utils.py:27-28 | `clone()` is a fresh matrix of the same shape and entries |
| Intervention.ZeroColumns | causica/utils/causality_utils.py:30 | zeroing the columns in place leaves exactly the intervened graph of the old entries |
| Intervention.InterveneGraph | causica/utils/causality_utils.py:15-31 | with `None` or no indices the argument itself is returned unchanged; with `copy_graph` a fresh matrix is returned and the argument is untouched; otherwise the argument is updated in place; the result is always the intervened graph |
| Intervention.GetMaskFromIdxs | causica/utils/causality_utils.py:56-64 | column c of the mask is set exactly when some selected group has c in its `group_mask` row (`None` selects every group) |
| EffectColumns.ConcatGroups | causica/utils/causality_utils.py:431-433 | the processed columns of the effect variables, variable after variable; `ConcatGroupsAppend` and `ConcatGroupsMembers` state what it holds |
| EffectColumns.ConcatGroupsAppend | causica/utils/causality_utils.py:429-433 | the processed columns of a joined list of variables are the joined processed columns |
| EffectColumns.ConcatGroupsMembers | causica/utils/causality_utils.py:429-433 | a column is selected exactly when it belongs to one of the effect variables |
| EffectColumns.ProcessedEffectIdxs | causica/utils/causality_utils.py:431-433 | the `extend` loop yields the processed columns of the effect variables, variable after variable |
| EffectColumns.SelectColumns | causica/utils/causality_utils.py:437 | `a[..., cols]` keeps every row and, in row i, entry k is `a[i][cols[k]]` |
| EffectColumns.SelectColumnsAppend | causica/utils/causality_utils.py:437 | selecting joined column lists is joining the selections, row by row |
| EffectColumns.FilterEffectColumns | causica/utils/causality_utils.py:429-437 | the columns are the processed columns of the effect variables (or the effect indices when not processed), all in range, and every array is cut to exactly those columns in that order |
| AteSampling.AteSampleCounts | causica/utils/causality_utils.py:165-178 | graphs x samples per graph is 50000 with conditioning and 20000 without, and a single graph is used exactly when the most likely graph is asked for |

## Left out

- `AdjacencyProcessing.ProcessAdjacencyMats` returns the single-matrix result as a one-element list `[m]`; the source returns the 2-D array itself, so the two branches differ in shape there.
- The numeric matrix exponential and the float comparison `trace(expm(A)) - n == 0` are left out. They are replaced by the exact acyclicity predicate, so rounding in `expm` is not modelled.
- `np.random.permutation` is replaced by arguments. These are the orders of `approximate_maximal_acyclic_subgraph` and the mask order of `cpdag2dags`, constrained to be permutations.
- Weights in `process_adjacency_mats` are exact reals rather than float64.
- `AdjacencyProcessing.ProcessAdjacencyMats` assumes every matrix is `num_nodes` x `num_nodes`. The source's trace test presumes that too; other shapes are not modelled.
- The torch and numpy plumbing is left out: tensors and devices, `to_tensors`, `np.stack`, and `[None, :, :]`. A batch is a sequence of matrices, and a torch tensor is a Dafny `array2`.
- `Intervention.InterveneGraph` and `Intervention.GetMaskFromIdxs` require the indices to be in range. Torch raises an IndexError for an index out of range, and negative indices, which torch counts from the end, are not modelled.
- `EffectColumns.FilterEffectColumns` models two-dimensional arrays only. The `...` of `a[..., cols]` allows any leading dimensions.
- `variables.subset(effect_idxs)` is not modelled. It builds variable metadata in a class that is not part of this model.
- `AteSampling.AteSampleCounts` models only the count table of `get_ate_rms`. The model calls and the RMSE arithmetic around it are float orchestration over an opaque model.
- `get_ipw_estimated_ate` and `get_real_world_testing_assignment` are not modelled: they only raise `NotImplementedError`.
- The float estimators and metrics are not modelled: `get_ate_from_samples`, `get_cate_from_samples`, `get_ite_from_samples`, `calculate_rmse`, `calculate_per_group_rmse`, `normalise_data` and `calculate_regret`.
- `intervention_to_tensor` is not modelled; it converts data to torch tensors and devices.
- `causica/baselines/end2end_causal/pc_informed_deci.py` is not part of this model. It wires external models together and has no graph logic of its own.
- `CpdagEnumeration.EnumerateDags`: the source first asserts that `cp_mat` is square. The model requires a square matrix instead of modelling that assertion failure.

## Findings

| source | as written | input that shows it | evidently intended | confidence | as-written member | corrected member |
|---|---|---|---|---|---|---|
| causica/utils/causality_utils.py:554-560, :652 | `int2binlist(0, 0)` returns `[0]`, because numpy's `binary_repr(0, 0)` renders zero as `'0' * (width or 1)`. `cpdag2dags` of a CPDAG whose only symmetric entry is a self-loop, e.g. `[[1]]`, has no undetermined pair, yet its mask has one bit, so the boolean index `mask == 0` at :652 does not fit the zero pairs | `cpdag2dags(np.array([[1]]))` | an `n_bits`-long list for every width, `[]` at width 0; the enumeration then returns the determined subgraph `[[0]]` | not executed; follows from numpy's documented `binary_repr` | BinaryLists.Int2BinListAsWrittenWidthZero | CpdagEnumeration.SelfLoopOnlyCpdag |
| causica/utils/causality_utils.py:691 | `assert np.any(adj_mats)` also fails when every DAG kept is the all-zero matrix, not only when no DAG is kept | `process_adjacency_mats(np.zeros((1, 2, 2)), 2)` | fail only when no matrix of the batch is a DAG | not executed | AdjacencyProcessing.AsWrittenRejectsEmptyGraph | AdjacencyProcessing.ProcessBatch |
