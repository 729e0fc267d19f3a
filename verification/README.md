# Gauss-Jordan elimination, modelled in Dafny

The repository solves a linear system `A x = b` by Gauss-Jordan elimination. It
works in place on an `n x (n+1)` augmented matrix `[A | b]`, and it does so in
three variants:

- `kod/src_gauss_jordan.cpp` uses a vector of rows with partial pivoting. It has
  two drivers:
  - a sequential driver;
  - a fork-join driver. In every pass it splits the elimination of the non-pivot
    rows into balanced row ranges, one thread per range.

  Both drivers raise an error when the best pivot has magnitude below `1e-15`.
  The file also computes the residual of the answer against the original matrix.
- `VS/GaussJordanASM/GaussJordanASM/Matrix.cpp` and `Matrix.h` keep one flat
  row-major array, accessed through `at(r, c) = data[r * columns + c]`. Their
  `eliminate` uses partial pivoting and quietly skips a pass whose pivot is
  exactly zero. It has three back ends for the elimination phase:
  - a single-threaded one;
  - a multithreaded one, which caps the thread count at `min(num_threads, size, 64)`
    and gives the last thread the leftover rows;
  - an assembler one, whose elimination is not written.
- `src_gauss_jordan.cpp` eliminates without pivoting. It has no test for a zero
  diagonal entry.

Matrix entries are modelled as `real`. The project has six modules:

- `RowOps` (`rowops.dfy`) holds the row operations, the pivot scan and the sweep
  that eliminates a range of rows.
- `LinearSystem` (`linear.dfy`) holds the residuals, what it means to solve the
  system, and the fact that no row operation changes the solutions.
- `Chunks` (`chunks.dfy`) holds the row ranges handed to workers. Running the
  ranges of a tiling one after another, in any order, is the same as one sweep.
- `GaussJordan` (`kod_gauss_jordan.dfy`) holds both `kod` drivers, the partition
  and the residual.
- `FlatMatrix` (`flat_matrix.dfy`) holds the flat-array class.
- `NoPivot` (`no_pivot.dfy`) holds the variant without pivoting.

Every variant is specified by a function on the matrix as a sequence of rows. The
methods are proved to compute that function, and its correctness is proved as
lemmas. When the solve succeeds, the last column is the one and only solution of
the original system. The two `kod` drivers give the same result for every thread
count. The flat variant gives the same result whenever the `kod` variant
succeeds, for the standard back end and for the multithreaded one with a positive
thread count (`EliminateFromIsPasses`). The assembler back end, and the
multithreaded one with a negative count, only pivot and normalise.

## Model

| member | source | states |
|---|---|---|
| RowOps.PivotRow | kod/src_gauss_jordan.cpp:50-58 | the row the scan of column k settles on lies in [k, hi); PivotRowIsFirstMax and PivotRowUnique characterise it as the first row of largest magnitude |
| RowOps.PivotRowIsFirstMax | kod/src_gauss_jordan.cpp:50-58 | the row chosen by the pivot scan has the largest magnitude in column k among rows k..n-1, and every earlier row of that range is strictly smaller (ties keep the first row) |
| RowOps.PivotRowUnique | kod/src_gauss_jordan.cpp:50-58 | a row that is maximal and beats every earlier row is exactly the row the scan picks |
| RowOps.PivotBelowIff | kod/src_gauss_jordan.cpp:59-61 | the scanned maximum is below a threshold if and only if every candidate entry of column k is below it |
| RowOps.Swap | kod/src_gauss_jordan.cpp:39-41 | rows i and j are exchanged and every other row is unchanged |
| RowOps.SwapInvolutive | kod/src_gauss_jordan.cpp:39-41 | swapping the same two rows twice gives back the matrix |
| RowOps.Scale | kod/src_gauss_jordan.cpp:65-66 | each entry of the result times the divisor is the original entry |
| RowOps.SubScaled | kod/src_gauss_jordan.cpp:73-75 | each entry of the result plus factor times the source entry is the original entry |
| RowOps.EliminateRow | kod/src_gauss_jordan.cpp:71-77 | entry k of the result is 0; a row whose factor is zero is left alone; every other entry j becomes row[j] - row[k] * pivot[j] |
| RowOps.ForcedZeroIsExact | kod/src_gauss_jordan.cpp:76-77 | once the pivot entry is 1, forcing entry k to zero changes nothing: the step is exactly row - row[k] * pivot |
| RowOps.EliminatedRows | kod/src_gauss_jordan.cpp:69-78 | the sweep over rows [lo, hi) never writes the pivot row or any row outside the range, and leaves 0 in column k of every row it eliminates |
| RowOps.EliminatedRowsAt | kod/src_gauss_jordan.cpp:127-137 | row i after the sweep depends only on old row i and the pivot row, whatever the order of the rows |
| RowOps.EliminatedRowsSplit | kod/src_gauss_jordan.cpp:144-160 | sweeping [lo, mid) and then [mid, hi) is the same as sweeping [lo, hi) |
| RowOps.EliminatedRowsCommute | kod/src_gauss_jordan.cpp:149-160 | two disjoint ranges give the same matrix in either order (ChunkedAnyOrder extends this to any number of ranges) |
| LinearSystem.SumSqZeroIff | kod/src_gauss_jordan.cpp:171-177 | the sum of squared residuals is zero exactly when x solves every row |
| LinearSystem.Dot | kod/src_gauss_jordan.cpp:173-174 | the inner sum of orig[i][j] * x[j] over the first len columns, added left to right; RowResidual and ResidualSumSquares are built on it |
| LinearSystem.RowResidual | kod/src_gauss_jordan.cpp:173-175 | row i of A times x minus b_i; SolvesAll shows that x solves the system exactly when this is zero in every row |
| LinearSystem.SumSq | kod/src_gauss_jordan.cpp:171-177 | the running sum of squared row residuals over the first m rows, never negative; SumSqZeroIff relates it to solving the system |
| LinearSystem.LastColumn | kod/src_gauss_jordan.cpp:169 | entry i of x is the entry of row i in column n |
| LinearSystem.IdentitySolutionUnique | kod/src_gauss_jordan.cpp:164-169 | when the coefficient block is the identity, x solves the system if and only if x is the last column |
| LinearSystem.SwapSolves | kod/src_gauss_jordan.cpp:62 | exchanging two rows changes none of the solutions |
| LinearSystem.ScaleSolves | kod/src_gauss_jordan.cpp:65-66 | dividing a row by a non-zero number changes none of the solutions |
| LinearSystem.EliminatedSolves | kod/src_gauss_jordan.cpp:69-78 | with a pivot entry of 1, the elimination sweep over any range changes none of the solutions |
| Chunks.TilesDisjoint | kod/src_gauss_jordan.cpp:126 | two different ranges of a tiling share no row, so no two workers write the same row |
| Chunks.TilesCover | kod/src_gauss_jordan.cpp:140 | a row lies in some range of a tiling of [lo, hi) if and only if lo <= row < hi |
| Chunks.ChunkedElimination | kod/src_gauss_jordan.cpp:149-160 | the fork-join phase as a loop over the ranges: each range, in list order, is swept with EliminatedRows, and the pivot row is never written; on a tiling this is the full sweep (ChunkedIsFullSweep), in any order (ReorderedTilingIsFullSweep) |
| Chunks.ChunkedIsFullSweep | kod/src_gauss_jordan.cpp:144-160 | running the ranges of a tiling of [0, n) one after another gives exactly the single sweep over all rows |
| Chunks.TilesApart | kod/src_gauss_jordan.cpp:144-157 | no row lies in two ranges of a tiling |
| Chunks.ChunkedRowAt | kod/src_gauss_jordan.cpp:125-160 | after ranges that share no row have run, in whatever order they are listed, row i is eliminated once when some range holds it and it is not the pivot row, and is untouched otherwise |
| Chunks.ChunkedAnyOrder | kod/src_gauss_jordan.cpp:149-160 | two orderings of the same ranges, each with no row in two ranges, give the same matrix: the workers' order does not matter |
| Chunks.ReorderedTilingIsFullSweep | kod/src_gauss_jordan.cpp:144-160 | the ranges of a tiling of [0, n), run in any order, give exactly the single sweep over all rows |
| GaussJordan.Prepared | kod/src_gauss_jordan.cpp:62-66 | after the swap and the division, the diagonal entry is 1 and every row other than k and the pivot row is unchanged |
| GaussJordan.Pass | kod/src_gauss_jordan.cpp:48-79 | after pass k, column k holds 1 on the diagonal and 0 in every other row |
| GaussJordan.Passes | kod/src_gauss_jordan.cpp:48-61 | a solve that stops does so at a pass between k and n - 1 |
| GaussJordan.PassExtendsUnit | kod/src_gauss_jordan.cpp:48-79 | a pass keeps the identity already built in columns 0..k-1 and adds column k |
| GaussJordan.PreparedSweepExtendsUnit | kod/src_gauss_jordan.cpp:62-78 | for any non-zero pivot entry, however small, swapping, normalising and sweeping keeps columns 0..k-1 of the identity and adds column k |
| GaussJordan.PassSolves | kod/src_gauss_jordan.cpp:62-78 | a pass changes none of the solutions of the system |
| GaussJordan.SolveSingular | kod/src_gauss_jordan.cpp:59-61 | a solve that stops at pass p has built the identity in columns 0..p-1, and column p is below 1e-15 in magnitude from row p down |
| GaussJordan.SolveCorrect | kod/src_gauss_jordan.cpp:44-80 | when the solve succeeds, x solves the original system if and only if x is the last column of the reduced matrix |
| GaussJordan.SolveResidualZero | kod/src_gauss_jordan.cpp:165-178 | when the solve succeeds, the sum of squared residuals of its answer against the original matrix is zero |
| GaussJordan.ZeroColumnSingular | kod/src_gauss_jordan.cpp:59-61 | a matrix with an all-zero coefficient column is reported singular, at the latest at that column's pass |
| GaussJordan.HasPivot | kod/src_gauss_jordan.cpp:59-61 | pass k goes ahead exactly when the scanned maximum reaches 1e-15; by PivotBelowIff, exactly when some entry of column k from row k down does |
| GaussJordan.Solve | kod/src_gauss_jordan.cpp:44-80 | the outcome holds an n x (n + 1) matrix, and a stopped solve names a pass below n; SolveCorrect and SolveSingular give its meaning |
| GaussJordan.Matrix.constructor | kod/src_gauss_jordan.cpp:9-11 | n rows of n + 1 zeros |
| GaussJordan.SelectPivot | kod/src_gauss_jordan.cpp:50-58 | returns the row of the pivot scan and its magnitude |
| GaussJordan.SwapRows | kod/src_gauss_jordan.cpp:39-41 | the matrix becomes the swap of its old rows i and j |
| GaussJordan.NormalizeRow | kod/src_gauss_jordan.cpp:64-66 | row k becomes old row k divided by its old diagonal entry; no other row changes |
| GaussJordan.EliminateRowAt | kod/src_gauss_jordan.cpp:70-77 | row i becomes the eliminated row and no other row changes |
| GaussJordan.EliminateRange | kod/src_gauss_jordan.cpp:125-138 | the matrix becomes the sweep over [lo, hi) of the old matrix |
| GaussJordan.PivotAndNormalize | kod/src_gauss_jordan.cpp:106-122 | succeeds exactly when the pass has a pivot; then the matrix is the prepared one, otherwise it is untouched |
| GaussJordan.SequentialPass | kod/src_gauss_jordan.cpp:48-79 | succeeds exactly when the pass has a pivot; then the matrix is the pass's result, otherwise it is untouched |
| GaussJordan.GaussJordanSequential | kod/src_gauss_jordan.cpp:44-80 | the final matrix and the status (normal return, or the singular error at its pass) are those of the solve |
| GaussJordan.ClampThreads | kod/src_gauss_jordan.cpp:95-102 | the result is min(request, n), where a request of 0 means the hardware concurrency, or 1 when that is unknown: a request of 1..n is kept, a larger one becomes exactly n, and the result is always between 1 and n |
| GaussJordan.BalancedStartClosed | kod/src_gauss_jordan.cpp:146-153 | range t starts at t * (n / T) + min(t, n % T) |
| GaussJordan.BalancedSize | kod/src_gauss_jordan.cpp:150 | worker t gets n / T rows, plus one for the first n % T workers; Partition proves its ranges have these sizes |
| GaussJordan.BalancedStart | kod/src_gauss_jordan.cpp:148-153 | where range t starts, as the running total cur of the earlier ranges; BalancedStartClosed gives it in closed form |
| GaussJordan.BalancedStartEnd | kod/src_gauss_jordan.cpp:145-153 | the T ranges together end at row n |
| GaussJordan.Partition | kod/src_gauss_jordan.cpp:145-157 | T ranges that tile [0, n), where range t holds n / T rows, plus one when t < n % T |
| GaussJordan.RunChunks | kod/src_gauss_jordan.cpp:149-160 | the matrix becomes the ranges' sweeps applied in order; empty ranges are skipped |
| GaussJordan.ParallelPass | kod/src_gauss_jordan.cpp:104-161 | a fork-join pass gives exactly the sequential pass, or leaves the matrix untouched when there is no pivot |
| GaussJordan.GaussJordanParallel | kod/src_gauss_jordan.cpp:91-162 | for every thread count and hardware concurrency, the final matrix and status are those of the sequential solve |
| GaussJordan.ResidualSumSquares | kod/src_gauss_jordan.cpp:165-177 | -1 when the sizes differ; otherwise the sum over rows of (A x - b)^2, with x the last column of the reduced matrix |
| FlatMatrix.RowStart | VS/GaussJordanASM/GaussJordanASM/Matrix.cpp:48-49 | the offset of row r; RowStartIsProduct shows it is r * cols |
| FlatMatrix.Index | VS/GaussJordanASM/GaussJordanASM/Matrix.h:37-38 | the offset of entry (r, c); IndexIsProduct, IndexInRange and IndexInjective state what the accessor needs of it |
| FlatMatrix.IndexIsProduct | VS/GaussJordanASM/GaussJordanASM/Matrix.h:37-38 | the accessor's offset is r * columns + c |
| FlatMatrix.IndexInRange | VS/GaussJordanASM/GaussJordanASM/Matrix.cpp:16 | every entry of an n x cols matrix has an offset inside the n * cols array |
| FlatMatrix.IndexInRowSlice | VS/GaussJordanASM/GaussJordanASM/Matrix.cpp:48-54 | an entry lies in row r's slice [r * cols, r * cols + cols) exactly when it belongs to row r |
| FlatMatrix.IndexInjective | VS/GaussJordanASM/GaussJordanASM/Matrix.h:37-38 | distinct entries have distinct offsets |
| FlatMatrix.ToRowsAt | VS/GaussJordanASM/GaussJordanASM/Matrix.h:37-38 | entry (r, c) of the row view is the array element at offset r * columns + c |
| FlatMatrix.CappedThreads | VS/GaussJordanASM/GaussJordanASM/Matrix.cpp:156 | the cap is at most each of num_threads, size and 64, and equals one of them |
| FlatMatrix.CappedThreadsSign | VS/GaussJordanASM/GaussJordanASM/Matrix.cpp:156 | the cap is positive (or zero) exactly when the request is; capping twice equals capping once |
| FlatMatrix.Clears | VS/GaussJordanASM/GaussJordanASM/Matrix.cpp:134-192 | whether a pass's elimination phase runs: the standard back end always, the multithreaded one for a positive thread count, the SIMD one never |
| FlatMatrix.ZeroPivotStays | VS/GaussJordanASM/GaussJordanASM/Matrix.cpp:96-125 | a zero pivot magnitude means column k is zero from row k down and the scan stays on row k, so a skipped pass swaps nothing |
| FlatMatrix.SubtractAndClear | VS/GaussJordanASM/GaussJordanASM/Matrix.cpp:77-83 | subtracting a[i][k] times the pivot row unconditionally and then storing 0 is the step of the vector-of-rows code, which skips a zero factor |
| FlatMatrix.EliminatePass | VS/GaussJordanASM/GaussJordanASM/Matrix.cpp:93-192 | one pass of eliminate on an n x (n + 1) matrix; EliminatePassColumn, EliminatePassIsPass and EliminatePassSolves state what it does |
| FlatMatrix.EliminateFrom | VS/GaussJordanASM/GaussJordanASM/Matrix.cpp:93-193 | passes k..n-1 with zero-pivot passes skipped, on an n x (n + 1) matrix; EliminateFromSolves, EliminateFromIsPasses and EliminateCorrectNonzero state what it does |
| FlatMatrix.EliminatePassColumn | VS/GaussJordanASM/GaussJordanASM/Matrix.cpp:124-192 | with a non-zero pivot the diagonal becomes 1, and column k is cleared when the back end eliminates; with a zero pivot nothing changes |
| FlatMatrix.EliminatePassIsPass | VS/GaussJordanASM/GaussJordanASM/Matrix.cpp:93-150 | where the vector-of-rows pass has a pivot, the flat pass is that pass |
| FlatMatrix.EliminatePassSolves | VS/GaussJordanASM/GaussJordanASM/Matrix.cpp:93-192 | no pass of any back end changes the solutions of the system |
| FlatMatrix.EliminateFromSolves | VS/GaussJordanASM/GaussJordanASM/Matrix.cpp:93-193 | the whole run, in any back end and with any skipped passes, keeps the solutions of the system |
| FlatMatrix.EliminateFromIsPasses | VS/GaussJordanASM/GaussJordanASM/Matrix.cpp:93-193 | when the vector-of-rows solve succeeds, the eliminating flat run produces the same matrix |
| FlatMatrix.EliminateCorrect | VS/GaussJordanASM/GaussJordanASM/Matrix.cpp:88-198 | when every pass has a pivot of magnitude at least 1e-15, the last column of the flat run is the one and only solution |
| FlatMatrix.NonzeroPivotsFrom | VS/GaussJordanASM/GaussJordanASM/Matrix.cpp:124-125 | every eliminating pass from k on meets a non-zero pivot entry, so none of them is skipped |
| FlatMatrix.EliminateFromUnit | VS/GaussJordanASM/GaussJordanASM/Matrix.cpp:93-193 | while every pivot entry is non-zero, the eliminating passes extend the identity block column by column |
| FlatMatrix.EliminateCorrectNonzero | VS/GaussJordanASM/GaussJordanASM/Matrix.cpp:88-198 | when every pass meets a non-zero pivot entry, however small, the flat run ends with the identity in columns 0..n-1, and its last column is the one and only solution |
| FlatMatrix.SplitChunksTile | VS/GaussJordanASM/GaussJordanASM/Matrix.cpp:161-183 | the T ranges tile [0, size); all but the last hold size / T rows and the last holds size / T + size % T; none is empty when T <= size |
| FlatMatrix.ChunkStart | VS/GaussJordanASM/GaussJordanASM/Matrix.cpp:163-182 | the running start_row of range t when every earlier range holds q rows, which is t * q (RowStartIsProduct) |
| FlatMatrix.SplitChunk | VS/GaussJordanASM/GaussJordanASM/Matrix.cpp:165-183 | range t of the split: from t * (size / T), ending size / T rows later, except that the last range ends at size; SplitChunksTile shows the ranges tile [0, size) |
| FlatMatrix.SplitRowsLast | VS/GaussJordanASM/GaussJordanASM/Matrix.cpp:170-172 | the last range starts at (T - 1) * (size / T), inside the matrix, and holds size / T + size % T rows |
| FlatMatrix.SplitRows | VS/GaussJordanASM/GaussJordanASM/Matrix.cpp:161-183 | a negative count gives no range; a positive one gives the tiling with the sizes above, with no empty range when T <= size |
| FlatMatrix.Matrix.constructor | VS/GaussJordanASM/GaussJordanASM/Matrix.cpp:10-17 | size rows of size + 1 zeros in a fresh array |
| FlatMatrix.Create | VS/GaussJordanASM/GaussJordanASM/Matrix.cpp:10-17 | the invalid-argument error exactly when n <= 0; otherwise a valid n x (n + 1) zero matrix |
| FlatMatrix.Matrix.At | VS/GaussJordanASM/GaussJordanASM/Matrix.h:37-38 | reading the array at r * columns + c gives entry (r, c) of the row view |
| FlatMatrix.Matrix.Set | VS/GaussJordanASM/GaussJordanASM/Matrix.h:37 | writing through the accessor changes entry (r, c) of the matrix and no other entry |
| FlatMatrix.Matrix.SelectPivot | VS/GaussJordanASM/GaussJordanASM/Matrix.cpp:96-104 | returns the row of the pivot scan and its magnitude |
| FlatMatrix.Matrix.SwapRows | VS/GaussJordanASM/GaussJordanASM/Matrix.cpp:115-122 | the element-by-element exchange leaves the swap of the old rows |
| FlatMatrix.Matrix.NormalizeRow | VS/GaussJordanASM/GaussJordanASM/Matrix.cpp:124-131 | row k becomes old row k divided by its old diagonal entry; no other row changes |
| FlatMatrix.Matrix.SubtractRowSingleThread | VS/GaussJordanASM/GaussJordanASM/Matrix.cpp:45-56 | row dest becomes old row dest minus factor times old row src, even when src is dest; no other row changes |
| FlatMatrix.Matrix.EliminationWorker | VS/GaussJordanASM/GaussJordanASM/Matrix.cpp:66-86 | the matrix becomes the sweep over [startRow, endRow) of the old matrix |
| FlatMatrix.Matrix.RunWorkers | VS/GaussJordanASM/GaussJordanASM/Matrix.cpp:165-191 | the matrix becomes the workers' sweeps applied in order |
| FlatMatrix.Matrix.EliminationPass | VS/GaussJordanASM/GaussJordanASM/Matrix.cpp:93-192 | the matrix becomes the pass of the chosen back end; the multithreaded back end keeps its capped count for later passes, which never becomes 0 |
| FlatMatrix.Matrix.Eliminate | VS/GaussJordanASM/GaussJordanASM/Matrix.cpp:88-198 | the matrix becomes the run of all passes for the back end and the thread count |
| NoPivot.PivotScaled | src_gauss_jordan.cpp:29-31 | row i divided by its own diagonal entry: that entry becomes 1 and no other row changes |
| NoPivot.ClearedColumn | src_gauss_jordan.cpp:33-38 | every row other than i loses its own column-i entry times row i, and row i stays; NoPivotPassColumn shows column i is then cleared |
| NoPivot.NoPivotPass | src_gauss_jordan.cpp:28-38 | pass i on an n x (n + 1) matrix; NoPivotPassColumn, NoPivotPassExtendsUnit and NoPivotPassSolves state what it does |
| NoPivot.NonzeroPivots | src_gauss_jordan.cpp:29-31 | every pass from i on divides by a non-zero diagonal entry |
| NoPivot.NoPivotFrom | src_gauss_jordan.cpp:28-39 | passes i..n-1 in turn, on an n x (n + 1) matrix; NoPivotCorrect states what the run computes |
| NoPivot.NoPivotPassIsSweep | src_gauss_jordan.cpp:33-38 | without the forced zero, the pass is still the elimination sweep of the pivoting variants |
| NoPivot.NoPivotPassColumn | src_gauss_jordan.cpp:28-38 | after pass i, row i is old row i divided by its diagonal entry, and column i holds 1 in row i and exactly 0 in every other row |
| NoPivot.NoPivotPassInPlace | src_gauss_jordan.cpp:33-38 | row k after pass i depends only on rows k and i before it |
| NoPivot.NoPivotPassExtendsUnit | src_gauss_jordan.cpp:28-38 | a pass keeps the identity in the columns before i and adds column i |
| NoPivot.NoPivotPassSolves | src_gauss_jordan.cpp:28-38 | a pass changes none of the solutions |
| NoPivot.NoPivotAgreesWithPass | src_gauss_jordan.cpp:28-38 | where the partial-pivot scan would keep row i in place, the pass without pivoting equals the pivoting pass |
| NoPivot.NoPivotCorrect | src_gauss_jordan.cpp:27-40 | when every pass meets a non-zero diagonal entry, the run ends with the identity in columns 0..n-1, and its last column is the one and only solution |
| NoPivot.Matrix.constructor | src_gauss_jordan.cpp:5-7 | n rows of n + 1 zeros |
| NoPivot.Matrix.DivideRow | src_gauss_jordan.cpp:29-31 | row i becomes old row i divided by the pivot read before the loop; no other row changes |
| NoPivot.Matrix.SubtractRow | src_gauss_jordan.cpp:36-37 | row k becomes old row k minus factor times row i; no other row changes |
| NoPivot.Matrix.ClearColumn | src_gauss_jordan.cpp:33-38 | every row other than i loses its own column-i entry times row i; row i stays |
| NoPivot.Matrix.GaussJordanElimination | src_gauss_jordan.cpp:27-40 | the matrix becomes the run of all passes, which NoPivotCorrect shows is the solution |

## Left out

- Floating point is modelled as exact `real` arithmetic, and `1e-15` is taken as a
  real constant. Rounding, and the numerical reason for forcing entries to zero,
  are not modelled.
- GaussJordan.ResidualSumSquares: returns the sum of squares. The final `std::sqrt`
  of `residualNorm` is left out, because `sqrt` is not available over `real`.
  Zero is preserved, since the square root is zero exactly when its argument is.
- Threads and their join are modelled as a sequential loop over the disjoint row
  ranges, in list order. `ChunkedRowAt`, `ChunkedAnyOrder` and
  `ReorderedTilingIsFullSweep` show that running the same ranges in any other
  order gives the same matrix. Interleavings of the threads' single steps are not
  modelled:
  each worker writes only its own rows and reads only those and the pivot row,
  which no worker writes.
- `std::thread::hardware_concurrency()` becomes the parameter `hw` of
  `GaussJordanParallel`.
- The timing with `std::chrono` and the milliseconds returned by `eliminate` are
  left out. `Eliminate` returns nothing.
- `print`, `fillRandom` and `generate_random` are left out: they are console
  output and random input.
- The programs' `main` files are not part of this model.
- `perform_elimination` is left out: it is an empty stub that nothing calls.
- The assembler back end (`ASM_SIMD`) is modelled as normalising without any
  elimination, which is what `eliminate` does for it.
- `elimination_worker`'s `factor_unused` and `impl` parameters are dropped,
  because they are never read. The function is also not declared in `Matrix.h`.
- The empty `max_val == 0.0` branch of `eliminate` is left out, because it has
  no effect.
- FlatMatrix.Matrix.Eliminate: requires a non-zero thread count for the
  multithreaded back end. With 0 the source divides by zero when it computes
  `rows_per_thread`.
- GaussJordan.Matrix.constructor: requires a size of at least 0. A negative
  size makes the source's vector allocation fail.
- NoPivot.Matrix.constructor: requires a size of at least 0, for the same reason.
  The default size 0 of the source's constructor is the call with 0.
- NoPivot.Matrix.GaussJordanElimination: requires that every pass meets a
  non-zero diagonal entry (`NonzeroPivots`). The source divides by that entry
  without checking it, and a zero divisor gives infinities or NaNs, which exact
  reals cannot express.
- FlatMatrix.Matrix.SwapRows: requires `i != j`, because the source calls it only
  when the pivot row differs from k. GaussJordan.SwapRows has no such
  requirement.
- 32-bit integer width is not modelled: sizes are unbounded. The allocation of
  `size * columns` entries is modelled as the exact product, and no overflow can
  occur for the thread counts involved.
- The const and non-const overloads of `at` are modelled by `At` for reading and
  `Set` for writing.
- The singularity error of the `kod` drivers is an exception in the source. Here
  it is the returned `Status`, and the matrix is left as the earlier passes made
  it.
