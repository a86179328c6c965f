# Counterbalancing video orders: a Dafny model

This project models the combinatorial core of `selectorders.py`, a Monte
Carlo script that evaluates ways of ordering stimulus videos across the
participants of a behavioural and neuroimaging study. The script:

- builds sub-block orders (each a permutation of the `nvid` videos);
- draws, for each simulated subject, `nsubblock` distinct orders from the
  order set;
- scores the result with two adjacency matrices:
  - the within-run matrix counts every "video a is immediately followed by
    video b", across sub-block boundaries too;
  - the across-block matrix counts only the boundary pairs;
- in the `optimised_balance_pairs` strategy, searches many candidate order
  sets for the one whose summed adjacency is most even.

Randomness is an explicit input throughout:

- `np.random.shuffle` becomes a Fisher-Yates pass driven by a sequence of
  draws;
- `np.random.choice` becomes a position in the list of still-available
  indices;
- the Latin-square generator's output becomes a sequence of candidate order
  sets.

Modules:

- `Matrices` (matrices.dfy): `nvid`×`nvid` count matrices as
  `seq<seq<nat>>`, indexed [source][destination]. Holds the zero matrix,
  the single-cell increment, entrywise addition and the total of all entries.
- `Adjacency` (adjacency.dfy): both scorers. Each is written as the fold its
  loop performs and is proved equal, cell by cell, to an independent
  counting definition: `PairCount` for positions of the run, `BoundaryCount`
  for sub-block boundaries.
- `Orders` (orders.dfy): the random order-set generator and the
  subject-order assembler, as methods with loop invariants.
- `BalancePairs` (balance.dfy): the balanced-pairs cost and the keep-best
  search. Every cost is four times the script's:
  4·(x − 2.5)² = (2x − 5)². This keeps all arithmetic in integers and does
  not change which candidate wins.
- `Study` (study.dfy): one simulated study's accumulation of both matrices
  over its subjects.
- `Wrappers` (wrappers.dfy): `Option` and `Result`, used where the script
  raises.

Consequences of the code as written:

- An all-zero column's minimum is the sentinel 999, because zeros are
  replaced by 999 before the minimum is taken (selectorders.py:122-124).
  Such a column therefore adds (999 − 2.5)² to the cost.
- The cost is never 0. The target is 2.5 and the counts are integers, so
  each column costs at least 2 in quadrupled units. The smallest possible
  cost is `2·nvid` (`nvid/2` in the script's units), reached exactly when
  every column maximum and minimum is 2 or 3 (`QuadCostOptimum`).
- The across-block scorer reads the last video of one block and the first
  of the next (selectorders.py:63). For the orders [0 1 2 3 4 5],
  [5 4 3 2 1 0], [2 0 4 1 5 3] the boundary cells are (5, 5) and (0, 2)
  (`AcrossBlockExample`).

## Model

| member | source | states |
|---|---|---|
| `Adjacency.PairCountConcat` | selectorders.py:53-56 | The pairs counted in a concatenation are those of each part plus the single pair that straddles the join. |
| `Adjacency.TransitionMatrix` | selectorders.py:54-56 | The loop's matrix is `nvid`×`nvid`. Cell (a, b) equals the number of positions k with s[k] = a and s[k+1] = b. Its entries sum to len(s) − 1, or to 0 for an empty run. |
| `Adjacency.AssessAdjacency` | selectorders.py:51-57 | For the flattened sub-blocks, cell (a, b) counts the positions where a is immediately followed by b, pairs straddling a sub-block boundary included. The entries sum to L − 1 for a run of L ≥ 1 videos. A run of at most one video gives the all-zero matrix. |
| `Adjacency.AssessAcrossBlockAdjacency` | selectorders.py:59-64 | Cell (a, c) counts the boundaries b with last(order[b]) = a and first(order[b+1]) = c. The entries sum to B − 1 for B ≥ 1 sub-blocks. |
| `Adjacency.BoundaryMatrix` | selectorders.py:61-63 | The loop's matrix is `nvid`×`nvid`. Cell (a, c) equals the number of boundaries b with last(order[b]) = a and first(order[b+1]) = c. Its entries sum to B − 1, or to 0 when there is no sub-block. |
| `Adjacency.AcrossBlockSupport` | selectorders.py:61-63 | A cell of the across-block matrix is nonzero exactly when it is (last of block b, first of block b+1) for some boundary b. |
| `Adjacency.WithinRunDecomposes` | selectorders.py:53-63 | With no empty sub-block, the run's pair count for (a, b) is the sum of the per-block pair counts plus the boundary count. |
| `Adjacency.AcrossBelowWithin` | selectorders.py:51-64 | When every sub-block is nonempty, the across-block matrix is entrywise at most the within-run matrix of the same order. |
| `Adjacency.FlattenLength` | selectorders.py:53 | Flattening `count` sub-blocks of `len` videos yields `count·len` videos. |
| `Adjacency.AcrossBlockExample` | selectorders.py:59-64 | For the orders [0..5], [5..0], [2 0 4 1 5 3], cells (5, 5) and (0, 2) hold 1, cell (5, 2) holds 0, and the total is 2. |
| `Orders.PermutationBounds` | selectorders.py:34-36 | A permutation of 0..n−1 has n entries, each below n. |
| `Orders.Shuffle` | selectorders.py:34-35 | Shuffling keeps the length and the multiset of the values. A shuffled `arange(nvid)` is a permutation of the videos. |
| `Orders.GenerateSubblockOrderSet` | selectorders.py:30-37 | Returns exactly `nsubblock_orders` orders, and each is a permutation of 0..nvid−1. |
| `Orders.GenerateOrder` | selectorders.py:39-49 | Fails exactly when `nsubblock` exceeds the set size, because choosing from the emptied list raises. Otherwise it returns `nsubblock` sub-blocks, the k-th being set[indices[k]], at pairwise-distinct in-range indices. When the two sizes are equal, every index is used. |
| `BalancePairs.SliceTotal` | selectorders.py:117-118 | The slice `set[k:k+1]` of a permutation carries `nvid − 1` transitions. A slice past the end carries none. |
| `BalancePairs.SummedAdjacency` | selectorders.py:116-119 | The summed matrix `order_adjacency_set` of the first `count` orders holds min(count, len(set))·(nvid − 1) transitions. That is `nvid·(nvid − 1)` when the set has `nvid` permutations. |
| `BalancePairs.ColumnMax` | selectorders.py:121 | `np.max(..., axis=0)[c]`: no entry of column c exceeds the result. |
| `BalancePairs.ColumnMaxIsMaximum` | selectorders.py:121 | The column maximum is an entry of that column, and no entry of the column exceeds it. |
| `BalancePairs.ColumnMin` | selectorders.py:122-124 | The minimum of column c after zeros become 999: it is never 0, and no entry, once a zero is read as 999, is below it. |
| `BalancePairs.ColumnMinIsMinimum` | selectorders.py:122-124 | The column minimum, taken after zeros become 999, is a masked entry of the column, and no masked entry is below it. |
| `BalancePairs.ColumnMinCases` | selectorders.py:121-124 | An all-zero column has minimum 999. Otherwise the minimum is a nonzero entry or 999, is at most every nonzero entry, and is at most the column maximum. |
| `BalancePairs.SquareIsProduct` | selectorders.py:127 | The odd-number sum `Square(d)` used for the squares equals d·d. |
| `BalancePairs.QuadDeviationIsProduct` | selectorders.py:127 | The cost term of a count x is (2x − 5)·(2x − 5), which is 4·(x − 2.5)², four times the script's term. |
| `BalancePairs.QuadDeviationFloor` | selectorders.py:126-127 | The term (2x − 5)² is at least 1, and it equals 1 exactly for counts 2 and 3. |
| `BalancePairs.QuadDeviationGrows` | selectorders.py:127 | A count further from 2.5 on the same side never costs less. |
| `BalancePairs.ColumnCostsFloor` | selectorders.py:127 | The first `cols` columns cost at least `2·cols`. They cost exactly that iff each of them has its maximum and minimum in {2, 3}. |
| `BalancePairs.QuadCost` | selectorders.py:127 | The quadrupled cost of a summed matrix is at least `2·nvid`: each column's maximum and minimum terms cost at least 1 each. |
| `BalancePairs.QuadCostOptimum` | selectorders.py:121-127 | The quadrupled cost is ≥ `2·nvid` (so ≥ 0), with equality iff every column maximum and minimum is 2 or 3. |
| `BalancePairs.CandidateCost` | selectorders.py:115-127 | The score of one candidate set, the cost of the summed adjacency of its first `nvid` orders, is at least `2·nvid`. |
| `BalancePairs.CandidateCostOptimum` | selectorders.py:115-127 | A candidate scores exactly `2·nvid` iff every column of that summed adjacency has its maximum and minimum in {2, 3}. |
| `BalancePairs.KeepBest` | selectorders.py:112-132 | Returns no index iff there are no trials. Otherwise it returns the earliest index whose cost is ≤ every cost, strictly below all earlier ones (strict `<` against an initial +∞). |
| `BalancePairs.OptimiseBalancePairs` | selectorders.py:109-136 | Fails iff there are no candidates. Otherwise it returns a candidate with its position and cost. That cost is the minimum over all candidates, and every earlier candidate costs strictly more. |
| `Study.SimulateStudy` | selectorders.py:150-158 | Fails exactly when there is a subject and the set has fewer than three orders. Otherwise it also returns each subject's three sub-blocks and the pairwise-distinct set indices they were drawn from. Within-run cell (a, b) is the sum over subjects of the pairs (a, b) in that subject's run. Across-block cell (a, c) is the sum over subjects of the boundaries (a, c). The within-run total is nsubj·(3·nvid − 1), the across-block total nsubj·2, and across ≤ within entrywise. |

## Left out

- `generate_latin_subblock_order` / `latinsquare.rls` (selectorders.py:26-28): an external library whose source is not part of this model. Its output is the `candidates` input of `OptimiseBalancePairs`, and no Latin-square property is claimed for it.
- The `optimised` correlation strategy (selectorders.py:95-108) and the per-study correlation summary `c_iu1` (selectorders.py:141-148): floating-point Pearson correlation. The keep-best loop they use is the same one `KeepBest` models.
- `aba_std` (selectorders.py:162): a floating-point standard deviation. `aba_range` (selectorders.py:161), the max − min of the across-block matrix, is a reporting statistic and is not modelled.
- The `random` and `latinsquare` branches of the study loop, the sweep over `nsubblock_orders` and the `nperm` repetition (selectorders.py:82-94): only loop plumbing around the modelled operations.
- pandas bookkeeping, `print` calls, plotting and git commit tagging (selectorders.py:76-80, 133-138, 161-188): I/O and visualisation.
- `np.random` itself: shuffles and choices are explicit inputs. `Shuffle` follows numpy's Fisher-Yates pass (for i from n − 1 down to 1, swap with a draw in 0..i). Nothing is claimed about the distribution of the draws.
- `OptimiseBalancePairs` scores all candidates first and then runs `KeepBest`, while the script compares each cost as soon as it is computed. Scoring is pure, so the kept candidate and cost are the same.
- Numpy `IndexError` cases are preconditions rather than error results. These are a video index ≥ `nvid` (`BlocksBelow`, `BoundariesBelow`) and an empty sub-block at a boundary (`Joinable`). The script does not handle either case. Negative indices, which numpy would wrap, are outside the model because videos are `nat`.
- The balanced-pairs cost requires `nvid ≥ 1`, because numpy's column max and min raise on an empty axis. `SimulateStudy` also requires `nvid ≥ 1`, because indexing an empty sub-block raises.
- Matrices hold `nat` counts, not numpy floats. Every count, and every (x − 2.5)² term, is exactly representable, so nothing is lost.
