# LikertMakeR swap optimisers, modelled in Dafny

LikertMakeR's `lcor` rearranges the values inside each column of a data matrix. It does not
change which values a column holds. It tries to move the correlation matrix of the rearranged
data towards a target correlation matrix. Neither routine tests for closeness or stops early.
On n rows and p columns, `lcor_C` makes exactly n(n-1)·p swap attempts. `lcor_C_randomised`
visits passes·p·n positions and tries a swap only where the two drawn indices differ, so it
makes at most that many attempts; how many depends on the shuffles. Two C++ routines do the
work:

- `lcor_C` first checks the target. It then builds every ordered pair (i, j) of distinct rows.
  For each pair, and for each column in turn, it swaps cells (i, col) and (j, col) and
  recomputes the Frobenius distance between `cor(data)` and the target. It keeps the swap only
  when the distance strictly drops; otherwise it writes both cells back.
- `lcor_C_randomised` makes `passes` rounds. In each round, for each column, it draws two
  shuffled copies of 0 .. n-1 and pairs them position by position. It skips a position that
  pairs a row with itself and tries every other pair once, with the same keep-or-revert rule.

The model has six modules:

- `DataMatrix`: the column-major data matrix (`Grid`), the single-cell-pair swap, and the
  column view of the `n x p` array the loops mutate in place.
- `Target`: the target matrix and the properties `checkIntegrity` demands of it.
- `Score`: the correlation matrix and the squared Frobenius distance.
- `SwapSteps`: the keep-or-revert rule as a function `Step` and its left fold `Apply` over a
  sequence of attempts. It works for any scoring function.
- `LcorC` and `LcorCRandomised`: the two routines, as imperative methods with the source's
  loops. The integrity check scans the target, a `NumericMatrix` of rows. The candidate loops
  append to a sequence. The sweep loops update an `array2<real>` in place, and each is proved
  equal to `Apply` over an explicit attempt schedule. The schedule's properties are proved as
  lemmas.

## Model

| member | source | states |
|---|---|---|
| DataMatrix.Swapped | src/lcor_C.cpp:125-127 | exchanging two cells of one column keeps the matrix's shape; its values are stated by `SwappedExchanges` |
| DataMatrix.SwappedExchanges | src/lcor_C.cpp:125-127 | exchanging two cells of one column keeps every column's multiset of values, exchanges exactly those two cells and leaves every other cell alone |
| DataMatrix.SwapTwiceRestores | src/lcor_C_randomised.cpp:94-95 | swapping the same two cells a second time restores the matrix, which is why the second `std::swap` reverts |
| DataMatrix.Columns | src/lcor_C.cpp:94-97 | the column view of an n x p array has p columns of n rows, and cell (i, col) of the array is row i of column col |
| DataMatrix.ColumnsAre | src/lcor_C.cpp:92-97 | the column view of the in-place array is determined by its cells: agreeing cell by cell means equal views |
| Score.Correlation | src/lcor_C.cpp:60-63 | `cor(data)` of a p-column matrix is p x p |
| Score.RowDistance | src/lcor_C.cpp:66-69 | a sum of squared differences is never negative |
| Score.SquaredDistance | src/lcor_C.cpp:66-69 | the squared Frobenius distance is never negative |
| Score.Scorer | src/lcor_C.cpp:106 | the score of any data matrix is never negative, and it is zero for data whose correlation matrix equals the target |
| Score.SquaredDistanceSelf | src/lcor_C.cpp:66-69 | the Frobenius distance of a matrix to itself is zero |
| SwapSteps.Step | src/lcor_C.cpp:124-139 | one attempt keeps the matrix's shape; what it does to the values is stated by `StepKeepsValues` |
| SwapSteps.StepKeepsValues | src/lcor_C.cpp:124-139 | one attempt keeps each column's multiset of values and never raises the score; a swap that strictly lowers the score is kept (the `else` branch), and a swap that does not is reverted to the original matrix; if the attempt changes the matrix, the score strictly dropped and the result is exactly the swapped matrix; every other column, and every other row of the swapped column, is unchanged |
| SwapSteps.Apply | src/lcor_C.cpp:119-141 | a sequence of attempts keeps the matrix's shape; what it does to the values is stated by `ApplyKeepsValues` |
| SwapSteps.ApplyKeepsValues | src/lcor_C.cpp:119-141 | after any sequence of attempts each column holds the same multiset of values and the score is no higher than at the start |
| SwapSteps.ApplySnoc | src/lcor_C.cpp:119-141 | one more attempt continues from the matrix the earlier attempts left |
| SwapSteps.ApplyAppend | src/lcor_C_randomised.cpp:70-101 | running a first batch of attempts and then a second one is the same as running them concatenated, so the nested loops compose |
| SwapSteps.ApplyUntouched | src/lcor_C_randomised.cpp:82-99 | a column that no attempt names is left exactly as it was |
| SwapSteps.ApplyAtMinimum | src/lcor_C.cpp:133-139 | when no matrix scores below the current one, every attempt is reverted and nothing changes |
| LcorC.CheckIntegrity | src/lcor_C.cpp:16-56 | accepts exactly the square targets of the data's column count with unit diagonal, entries in [-1, 1], symmetry and positive-definiteness; on rejection it reports the first failing test in scan order |
| LcorC.AllRowsClean | src/lcor_C.cpp:31-46 | the row-by-row scan passes every row exactly when the target has a unit diagonal, entries in range and is symmetric |
| LcorC.FirstFaultUnique | src/lcor_C.cpp:16-56 | at most one failure is the first in scan order, so the reported error is determined by the target |
| LcorC.FaultPosition | src/lcor_C.cpp:31-46 | a first failure sits at one cell of the scan (or at the final positive-definiteness test), every earlier cell passes, and the failing test at that cell decides the error kind |
| LcorC.RowPairsLength | src/lcor_C.cpp:111-115 | the inner candidate loop for row i, run up to bound j, pushes j - 1 pairs when i is below j and j pairs otherwise |
| LcorC.RowPairsMembers | src/lcor_C.cpp:111-115 | the inner candidate loop for row i pushes exactly the pairs (i, k) with k below the bound and k != i |
| LcorC.RowPairsIncreasing | src/lcor_C.cpp:111-115 | the inner candidate loop pushes its pairs in strictly increasing second row |
| LcorC.CandidatesBeforeLength | src/lcor_C.cpp:110-116 | after i rows of the outer loop there are i * (n - 1) candidates |
| LcorC.CandidatesBeforeMembers | src/lcor_C.cpp:110-116 | after i rows of the outer loop the candidates are exactly the off-diagonal pairs with first row below i |
| LcorC.CandidatesBeforeOrdered | src/lcor_C.cpp:110-116 | the candidates are pushed in strictly increasing row-major order |
| LcorC.SwapCandidatesExact | src/lcor_C.cpp:109-116 | `swapCandidates` holds n(n-1) pairs, a pair is in it exactly when its rows are distinct and below n, and the list is strictly row-major, so each pair appears once |
| LcorC.BuildSwapCandidates | src/lcor_C.cpp:109-116 | the nested `push_back` loops build exactly that candidate list |
| LcorC.PairSteps | src/lcor_C.cpp:120-122 | one candidate pair is tried in every column 0 .. nCols - 1, in order, column 0 included |
| LcorC.ScheduleLength | src/lcor_C.cpp:119-120 | the two sweep loops make (number of candidates) x nCols attempts |
| LcorC.ScheduleAt | src/lcor_C.cpp:119-122 | the sweep makes exactly (number of candidates) x nCols attempts, and attempt r * nCols + col swaps candidate r in column col: pair-major, columns inner |
| LcorC.ScheduleFits | src/lcor_C.cpp:119-122 | every attempt names two rows and a column of the data |
| LcorC.SwapThroughTemp | src/lcor_C.cpp:125-127 | the three assignments through `temp` exchange the two cells, and `temp` keeps the old value of (i, col) |
| LcorC.WriteBack | src/lcor_C.cpp:133-135 | writing `data(i, col)` into (j, col) and `temp` into (i, col) restores the matrix as it was before the swap |
| LcorC.SwapAndTest | src/lcor_C.cpp:124-139 | one attempt in place is the keep-or-revert rule `Step`, and the running score afterwards is the score of the current matrix |
| LcorC.PairStepsNext | src/lcor_C.cpp:120-140 | column `col` of one pair's attempts continues from the matrix the earlier columns left, and fits it |
| LcorC.SweepPairColumn | src/lcor_C.cpp:120-140 | one iteration of the `col` loop performs the attempt of that pair in that column and keeps the running score current |
| LcorC.SweepPair | src/lcor_C.cpp:120-140 | the column loop for one pair performs that pair's attempts in order and keeps the running score equal to the current score |
| LcorC.SweepAll | src/lcor_C.cpp:119-141 | the pair loop performs the whole schedule in order and keeps the running score equal to the current score |
| LcorC.Sweep | src/lcor_C.cpp:119-141 | the swept matrix has the data's shape, the same multiset in every column and a score no higher than the data's |
| LcorC.SweepAtTarget | src/lcor_C.cpp:119-141 | data whose correlation matrix already equals the target comes back unchanged |
| LcorC.SweepCopy | src/lcor_C.cpp:94-141 | copying the data into a matrix, building the candidates and sweeping them in place yields exactly the full sweep `Sweep` of the data |
| LcorC.Lcor | src/lcor_C.cpp:85-145 | `lcor_C` succeeds exactly for a valid target and otherwise reports the first failed check; on success the result is the full sweep of the data, with the same values in every column and a score no higher than the input's |
| LcorCRandomised.CheckIntegrity | src/lcor_C_randomised.cpp:13-26 | returns true exactly for a square target of the data's column count with unit diagonal, entries in [-1, 1], symmetry and positive-definiteness |
| LcorCRandomised.DrawStepsWithin | src/lcor_C_randomised.cpp:82-88 | every attempt of one column's draw swaps two distinct rows of that column: self-pairs are skipped |
| LcorCRandomised.DrawStepsPositions | src/lcor_C_randomised.cpp:82-88 | the attempts of one column are exactly the positions k whose two indices differ: each attempt comes from such a position and each such position yields one |
| LcorCRandomised.DrawStepsDistinctRows | src/lcor_C_randomised.cpp:74-88 | since both index vectors are permutations, within one column of one pass no row is the first index of two attempts, nor the second index of two |
| LcorCRandomised.DrawStepsLength | src/lcor_C_randomised.cpp:82-85 | one column's draw makes at most nRows attempts |
| LcorCRandomised.PassStepsLength | src/lcor_C_randomised.cpp:72-100 | one pass over nCols columns makes at most nCols x nRows attempts |
| LcorCRandomised.RandomScheduleLength | src/lcor_C_randomised.cpp:70-101 | `passes` passes over nCols columns make at most passes x nCols x nRows attempts |
| LcorCRandomised.PassStepsWithin | src/lcor_C_randomised.cpp:72-100 | every attempt of a pass names a column of the data and two distinct rows |
| LcorCRandomised.RandomScheduleWithin | src/lcor_C_randomised.cpp:70-101 | every attempt of every pass names a column of the data and two distinct rows |
| LcorCRandomised.DrawOnlyTouchesItsColumn | src/lcor_C_randomised.cpp:82-99 | the `k` loop for column `col` leaves every other column exactly as it was |
| LcorCRandomised.RandomisedSweep | src/lcor_C_randomised.cpp:70-101 | the result has the data's shape, the same multiset in every column and a score no higher than the data's; with `passes` not positive it is the data itself |
| LcorCRandomised.RandomisedSweepAtTarget | src/lcor_C_randomised.cpp:70-101 | data whose correlation matrix already equals the target comes back unchanged, whatever the shuffles |
| LcorCRandomised.SwapCells | src/lcor_C_randomised.cpp:88 | `std::swap` of two cells of a column is the swap `Swapped` |
| LcorCRandomised.SwapAndTest | src/lcor_C_randomised.cpp:88-98 | one attempt in place is the keep-or-revert rule `Step`: a rejected swap is swapped back, which restores the matrix; the running score afterwards is the score of the current matrix |
| LcorCRandomised.DrawStepsNext | src/lcor_C_randomised.cpp:83-85 | position k adds no attempt when its two indices coincide, and otherwise adds one attempt on the matrix left by the earlier positions |
| LcorCRandomised.SweepPosition | src/lcor_C_randomised.cpp:83-98 | one iteration of the `k` loop performs the attempt of position k, if any, and keeps the running score current |
| LcorCRandomised.SweepColumn | src/lcor_C_randomised.cpp:82-99 | the `k` loop performs the draw's attempts in order and keeps the running score equal to the current score |
| LcorCRandomised.PassStepsNext | src/lcor_C_randomised.cpp:72-100 | column `col` of a pass continues from the matrix the earlier columns left |
| LcorCRandomised.SweepPassColumn | src/lcor_C_randomised.cpp:72-100 | one iteration of the `col` loop performs that column's draw |
| LcorCRandomised.SweepPass | src/lcor_C_randomised.cpp:72-100 | the `col` loop performs one pass's attempts in order and keeps the running score equal to the current score |
| LcorCRandomised.RunPass | src/lcor_C_randomised.cpp:70-101 | one iteration of the `pass` loop extends the attempts made so far by that pass |
| LcorCRandomised.RunPasses | src/lcor_C_randomised.cpp:70-101 | the `pass` loop performs the attempts of `passes` passes, none when `passes` is not positive |
| LcorCRandomised.RandomisedSweepCopy | src/lcor_C_randomised.cpp:52-101 | copying the data into a matrix and running the passes in place yields exactly the randomised sweep `RandomisedSweep` of the data |
| LcorCRandomised.LcorRandomised | src/lcor_C_randomised.cpp:47-104 | `lcor_C_randomised` succeeds exactly for a valid target; on success the result is the randomised sweep of the data, with the same values in every column and a score no higher than the input's, and the data itself when `passes` is not positive |

## Left out

- Converting between R's `DataFrame` and Armadillo's `mat` is modelled only as building the array from the columns. `wrap` is not modelled, and neither is `areAllColumnsNumeric` or its `stop`: the model's data is already numeric.
- `stop(...)` and the `Rcout` messages become the `Err`/`None` results. The `IntegrityError` value names which message `lcor_C` would print.
- Armadillo's `cor` is the parameter `pearson`. It computes the coefficient of two columns and is not modelled further. It returns a real number for every pair of columns, so the model has no NaN.
- NaN scores: on data with at least two rows, a constant input column or a missing value makes `cor` return NaN. The distance is then NaN at every comparison (src/lcor_C.cpp:106, 130; src/lcor_C_randomised.cpp:64, 91), so `newFrobNorm >= initialFrobNorm` is false and the code keeps every attempted swap, with the running score staying NaN. The model keeps only swaps that strictly lower a real-valued score, so `LcorC.Lcor`, `LcorCRandomised.LcorRandomised` and their score bound do not describe such input.
- Armadillo's `is_sympd` is the parameter `isSympd`.
- The score is the squared Frobenius distance. `sqrt` is left out because, on exact reals, it is strictly increasing on non-negative numbers, so it decides every `>=` comparison the same way. A rounded floating-point `sqrt` is monotone but can map two different distances to the same value, and that case is not modelled.
- Arithmetic is on exact reals, with no floating-point rounding and no NaN; what NaN does in the code is stated in the line on NaN scores above.
- `std::random_device`, `std::mt19937` and `std::shuffle` are replaced by the caller-supplied `shuffles`. Entry `shuffles[pass][col]` holds the two index vectors that the generator would draw for that pass and column. The model requires them to be permutations, which is what `iota` followed by `shuffle` produces, and requires at least `passes` rounds of them.
- Score.SquaredDistance: sums over the cells both matrices have. Armadillo rejects `A - B` when the shapes differ. On data with at least two rows, both routines only ever compare two p x p matrices.
- LcorC.Lcor, LcorCRandomised.LcorRandomised: data with fewer than two rows is not modelled faithfully. Armadillo's `cor` returns an empty matrix for no rows and a 1 x 1 matrix for one row. With two or more columns, `A - B` in `frobeniusNorm` (src/lcor_C.cpp:67, reached at 106; src/lcor_C_randomised.cpp:33, reached at 64) then fails Armadillo's size check, and the call ends in an error after the target has passed. Both methods instead return the data unchanged: there are no candidate pairs, and no position has two distinct rows. This rests on Armadillo's behaviour, which is not part of this model.
- Score.SquaredDistanceSelf: only the direction "equal matrices are at distance zero" is proved. The converse, that distance zero forces equality, is not proved.
- The `lcor_C` variant in `lcor_Cpp.cpp` and the drafts under `notes/` are not part of this model.
- Column 0 is swept like every other column, because both routines loop from `col = 0`. The model does not treat the first column as a fixed reference column.
- `lcor_C` tries a pair even when the two cells hold equal values. Such a swap leaves the score unchanged and is reverted. No equal-value skip is modelled, because the code has none.
- Swaps keep each column's multiset of values, so a column is constant after the search exactly when it was constant in the input. The code neither checks for nor rejects constant columns.
- The default `passes = 10` of `lcor_C_randomised` (src/lcor_C_randomised.cpp:47) is a calling convenience of the R interface. `LcorCRandomised.LcorRandomised` always takes `passes` explicitly.
