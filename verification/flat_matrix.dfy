/** Gauss-Jordan elimination on one flat row-major array of size * (size + 1)
    entries: the index map of the accessor, the row view of the array, the pass
    that skips a zero pivot, and its single-threaded, chunked and
    elimination-free implementations. */
module FlatMatrix {
  import opened RowOps
  import opened LinearSystem
  import opened Chunks
  import opened GaussJordan

  /** The number of entries in the r rows before row r. */
  function RowStart(r: nat, cols: int): int
    decreases r
  {
    if r == 0 then 0 else RowStart(r - 1, cols) + cols
  }

  /** Where entry (r, c) lives in the flat array of a matrix with cols columns. */
  function Index(r: nat, c: int, cols: int): int {
    RowStart(r, cols) + c
  }

  /** Rows are laid out one after another: row r starts at r * cols. */
  lemma {:induction false} RowStartIsProduct(r: nat, cols: int)
    ensures RowStart(r, cols) == r * cols
  {
    if r > 0 {
      RowStartIsProduct(r - 1, cols);
      assert (r - 1) * cols + cols == r * cols;
    }
  }

  /** The accessor's index is r * columns + c. */
  lemma IndexIsProduct(r: nat, c: int, cols: int)
    ensures Index(r, c, cols) == r * cols + c
  {
    RowStartIsProduct(r, cols);
  }

  /** a <= b scales to a * m <= b * m for m >= 0. */
  lemma MulLe(a: int, b: int, m: int)
    requires 0 <= a <= b && 0 <= m
    ensures a * m <= b * m
  {
    var d := b - a;
    assert b * m == a * m + d * m;
    assert d * m >= 0;
  }

  /** Every entry of an n x cols matrix has its index inside the array. */
  lemma IndexInRange(r: nat, c: int, n: int, cols: int)
    requires r < n && 0 <= c < cols
    ensures 0 <= Index(r, c, cols) < RowStart(n, cols)
  {
    RowStartIsProduct(n, cols);
    IndexIsProduct(r, c, cols);
    MulLe(r + 1, n, cols);
    MulLe(0, r, cols);
    assert (r + 1) * cols == r * cols + cols;
  }

  /** Row r occupies exactly the slice [RowStart(r), RowStart(r) + cols): an entry
      of row r2 lies in it exactly when r2 is r. */
  lemma IndexInRowSlice(r: nat, r2: nat, c: int, cols: int)
    requires 0 <= c < cols
    ensures RowStart(r, cols) <= Index(r2, c, cols) < RowStart(r, cols) + cols <==> r2 == r
  {
    RowStartIsProduct(r, cols);
    IndexIsProduct(r2, c, cols);
    if r2 < r {
      MulLe(r2 + 1, r, cols);
      assert (r2 + 1) * cols == r2 * cols + cols;
    } else if r2 > r {
      MulLe(r + 1, r2, cols);
      assert (r + 1) * cols == r * cols + cols;
    }
  }

  /** Distinct entries have distinct indices. */
  lemma IndexInjective(r1: nat, c1: int, r2: nat, c2: int, cols: int)
    requires 0 <= c1 < cols && 0 <= c2 < cols
    requires Index(r1, c1, cols) == Index(r2, c2, cols)
    ensures r1 == r2 && c1 == c2
  {
    IndexInRowSlice(r1, r2, c2, cols);
  }

  /** Row r of the flat array s: the cols entries from RowStart(r, cols) on. */
  function RowOf(s: seq<real>, n: nat, cols: nat, r: nat): (row: Row)
    requires |s| == RowStart(n, cols) && r < n
    ensures |row| == cols
  {
    seq(cols, c requires 0 <= c < cols => IndexInRange(r, c, n, cols); s[Index(r, c, cols)])
  }

  /** Rows 0..m-1 of the flat array s. */
  function RowsUpTo(s: seq<real>, n: nat, cols: nat, m: nat): (rows: Mat)
    requires |s| == RowStart(n, cols) && m <= n
    ensures |rows| == m
    ensures forall r {:trigger rows[r]} :: 0 <= r < m ==> |rows[r]| == cols
  {
    if m == 0 then [] else RowsUpTo(s, n, cols, m - 1) + [RowOf(s, n, cols, m - 1)]
  }

  lemma {:induction false} RowsUpToAt(s: seq<real>, n: nat, cols: nat, m: nat, r: nat)
    requires |s| == RowStart(n, cols) && r < m <= n
    ensures RowsUpTo(s, n, cols, m)[r] == RowOf(s, n, cols, r)
  {
    if r < m - 1 {
      RowsUpToAt(s, n, cols, m - 1, r);
    }
  }

  /** The flat array s read as n rows of cols entries. */
  function ToRows(s: seq<real>, n: nat, cols: nat): (m: Mat)
    requires |s| == RowStart(n, cols)
    ensures |m| == n
    ensures forall r {:trigger m[r]} :: 0 <= r < n ==> |m[r]| == cols
  {
    RowsUpTo(s, n, cols, n)
  }

  /** Entry (r, c) of the row view is the array entry at Index(r, c, cols). */
  lemma ToRowsAt(s: seq<real>, n: nat, cols: nat, r: nat, c: nat)
    requires |s| == RowStart(n, cols) && r < n && c < cols
    ensures 0 <= Index(r, c, cols) < |s|
    ensures ToRows(s, n, cols)[r][c] == s[Index(r, c, cols)]
  {
    IndexInRange(r, c, n, cols);
    RowsUpToAt(s, n, cols, n, r);
  }

  /** An array whose entries are those of m, index by index, reads as m. */
  lemma ToRowsPointwise(s: seq<real>, n: nat, cols: nat, m: Mat)
    requires |s| == RowStart(n, cols) && |m| == n
    requires forall r :: 0 <= r < n ==> |m[r]| == cols
    requires forall r, c :: 0 <= r < n && 0 <= c < cols ==> 0 <= Index(r, c, cols) < |s| && s[Index(r, c, cols)] == m[r][c]
    ensures ToRows(s, n, cols) == m
  {
    var v := ToRows(s, n, cols);
    forall r | 0 <= r < n ensures v[r] == m[r] {
      forall c | 0 <= c < cols ensures v[r][c] == m[r][c] {
        ToRowsAt(s, n, cols, r, c);
      }
    }
  }

  /** The three back ends of the elimination phase. */
  datatype Implementation = Standard | MultiThread | AsmSimd

  /** Whether a pass eliminates at all: the standard back end always does, the
      multithreaded one only for a positive worker count (a negative count starts no
      worker), and the SIMD one never (its elimination is not written). */
  predicate Clears(impl: Implementation, numThreads: int) {
    impl == Standard || (impl == MultiThread && numThreads > 0)
  }

  /** The worker count of the multithreaded back end: min(numThreads, size, 64). */
  function CappedThreads(numThreads: int, size: int): (t: int)
    ensures t <= numThreads && t <= size && t <= 64
    ensures t == numThreads || t == size || t == 64
  {
    if numThreads <= size && numThreads <= 64 then numThreads
    else if size <= 64 then size
    else 64
  }

  /** For a matrix of at least one row the cap keeps the sign of the request, so it
      never turns a valid count into the divisor 0, and it is idempotent. */
  lemma CappedThreadsSign(numThreads: int, size: int)
    requires size >= 1
    ensures CappedThreads(numThreads, size) > 0 <==> numThreads > 0
    ensures CappedThreads(numThreads, size) == 0 <==> numThreads == 0
    ensures CappedThreads(CappedThreads(numThreads, size), size) == CappedThreads(numThreads, size)
    ensures numThreads >= 1 ==> 1 <= CappedThreads(numThreads, size) <= size
  {
  }

  /** A zero pivot magnitude means column k is zero from row k down, and then the
      scan stays on row k, so no rows are swapped. */
  lemma ZeroPivotStays(a: Mat, k: nat)
    requires Augmented(a) && k < |a| && a[PivotRow(a, k, |a|)][k] == 0.0
    ensures PivotRow(a, k, |a|) == k
    ensures forall i :: k <= i < |a| ==> a[i][k] == 0.0
  {
    PivotRowIsFirstMax(a, k, |a|);
    var p := PivotRow(a, k, |a|);
    assert Abs(a[p][k]) == 0.0;
    assert Abs(a[k][k]) >= 0.0;
    forall i | k <= i < |a| ensures a[i][k] == 0.0 {
      assert Abs(a[i][k]) <= 0.0;
    }
  }

  /** The step the flat code applies to row i: subtract a[i][k] times the pivot
      row, unconditionally, then store 0 in column k. Over the reals it is the
      step of the vector-of-rows code, which skips a zero factor. */
  function SubtractAndClear(row: Row, pivot: Row, k: nat): (r: Row)
    requires |pivot| == |row| && k < |row|
    ensures r == EliminateRow(row, pivot, k)
  {
    var s := SubScaled(row, pivot, row[k]);
    assert row[k] == 0.0 ==> s[k := 0.0] == row by {
      if row[k] == 0.0 {
        forall j | 0 <= j < |row| ensures s[k := 0.0][j] == row[j] {
          assert s[j] + 0.0 * pivot[j] == row[j];
        }
      }
    }
    s[k := 0.0]
  }

  /** Pass k: pick and swap up the pivot row; when its entry is zero leave the
      matrix alone, otherwise normalise it and, if the back end eliminates, clear
      column k in every other row. */
  function EliminatePass(a: Mat, k: nat, clears: bool): (r: Mat)
    requires Augmented(a) && k < |a|
    ensures |r| == |a| && Augmented(r)
    decreases clears
  {
    if a[PivotRow(a, k, |a|)][k] == 0.0 then a
    else if clears then EliminatedRows(EliminatePass(a, k, false), k, 0, |a|)
    else Prepared(a, k)
  }

  /** Passes k, k+1, ..., n-1; a pass with a zero pivot is skipped and the next one
      runs. */
  function EliminateFrom(a: Mat, k: nat, clears: bool): (r: Mat)
    requires Augmented(a) && k <= |a|
    ensures |r| == |a| && Augmented(r)
    decreases |a| - k, 1
  {
    if k == |a| then a else EliminateNext(a, k, clears)
  }

  /** Pass k runs, and the passes carry on from k + 1. */
  function EliminateNext(a: Mat, k: nat, clears: bool): (r: Mat)
    requires Augmented(a) && k < |a|
    ensures |r| == |a| && Augmented(r)
    decreases |a| - k, 0
  {
    EliminateFrom(EliminatePass(a, k, clears), k + 1, clears)
  }

  lemma EliminateFromStep(a: Mat, k: nat, clears: bool)
    requires Augmented(a) && k < |a|
    ensures EliminateFrom(a, k, clears) == EliminateFrom(EliminatePass(a, k, clears), k + 1, clears)
  {
  }

  /** A pass that eliminates and has a nonzero pivot leaves 1 on the diagonal and 0
      elsewhere in column k; a pass with a zero pivot changes nothing. */
  lemma EliminatePassColumn(a: Mat, k: nat, clears: bool)
    requires Augmented(a) && k < |a|
    ensures var r := EliminatePass(a, k, clears);
      a[PivotRow(a, k, |a|)][k] != 0.0 ==> r[k][k] == 1.0
    ensures var r := EliminatePass(a, k, clears);
      a[PivotRow(a, k, |a|)][k] != 0.0 && clears ==> forall i :: 0 <= i < |a| && i != k ==> r[i][k] == 0.0
    ensures a[PivotRow(a, k, |a|)][k] == 0.0 ==> EliminatePass(a, k, clears) == a
  {
  }

  /** Where the vector-of-rows code finds a pivot, this pass is its pass. */
  lemma EliminatePassIsPass(a: Mat, k: nat)
    requires Augmented(a) && k < |a| && HasPivot(a, k)
    ensures EliminatePass(a, k, true) == Pass(a, k)
  {
  }

  /** No pass, in any back end, changes the solutions of the system. */
  lemma EliminatePassSolves(a: Mat, k: nat, clears: bool, x: seq<real>)
    requires Augmented(a) && k < |a| && |x| == |a|
    ensures Solves(EliminatePass(a, k, clears), x) <==> Solves(a, x)
  {
    if a[PivotRow(a, k, |a|)][k] != 0.0 {
      PreparedSolves(a, k, x);
      if clears {
        EliminatedSolves(Prepared(a, k), k, 0, |a|, x);
      }
    }
  }

  /** The whole run, in any back end, keeps the solutions of the system, whatever
      passes it skips. */
  lemma {:induction false} EliminateFromSolves(a: Mat, k: nat, clears: bool, x: seq<real>)
    requires Augmented(a) && k <= |a| && |x| == |a|
    ensures Solves(EliminateFrom(a, k, clears), x) <==> Solves(a, x)
    decreases |a| - k, 1
  {
    if k < |a| {
      EliminateNextSolves(a, k, clears, x);
    }
  }

  lemma {:induction false} EliminateNextSolves(a: Mat, k: nat, clears: bool, x: seq<real>)
    requires Augmented(a) && k < |a| && |x| == |a|
    ensures Solves(EliminateNext(a, k, clears), x) <==> Solves(a, x)
    decreases |a| - k, 0
  {
    EliminatePassSolves(a, k, clears, x);
    EliminateFromSolves(EliminatePass(a, k, clears), k + 1, clears, x);
  }

  /** When the vector-of-rows solve succeeds from pass k, the eliminating run
      produces the same matrix. */
  lemma {:induction false} EliminateFromIsPasses(a: Mat, k: nat)
    requires Augmented(a) && k <= |a| && Passes(a, k).Solved?
    ensures EliminateFrom(a, k, true) == Passes(a, k).m
    decreases |a| - k, 1
  {
    if k < |a| {
      assert HasPivot(a, k);
      EliminateNextIsAdvance(a, k);
    }
  }

  lemma {:induction false} EliminateNextIsAdvance(a: Mat, k: nat)
    requires Augmented(a) && k < |a| && HasPivot(a, k) && Advance(a, k).Solved?
    ensures EliminateNext(a, k, true) == Advance(a, k).m
    decreases |a| - k, 0
  {
    EliminatePassIsPass(a, k);
    EliminateFromIsPasses(Pass(a, k), k + 1);
  }

  /** Whenever every pass finds a pivot of magnitude at least 1e-15, the last
      column of the eliminating run is the one and only solution of the system. */
  lemma EliminateCorrect(a: Mat, x: seq<real>)
    requires Augmented(a) && Solve(a).Solved? && |x| == |a|
    ensures Solves(a, x) <==> x == LastColumn(EliminateFrom(a, 0, true))
  {
    EliminateFromIsPasses(a, 0);
    SolveCorrect(a, x);
  }

  /** Every eliminating pass from k on meets a non-zero pivot entry, however small. */
  predicate NonzeroPivotsFrom(a: Mat, k: nat)
    requires Augmented(a) && k <= |a|
    decreases |a| - k
  {
    k == |a| || (a[PivotRow(a, k, |a|)][k] != 0.0 && NonzeroPivotsFrom(EliminatePass(a, k, true), k + 1))
  }

  /** The eliminating passes extend the identity block column by column while
      every pivot entry is non-zero. */
  lemma {:induction false} EliminateFromUnit(a: Mat, k: nat)
    requires Augmented(a) && k <= |a| && NonzeroPivotsFrom(a, k) && UnitColumns(a, k)
    ensures UnitColumns(EliminateFrom(a, k, true), |a|)
    decreases |a| - k
  {
    if k < |a| {
      PreparedSweepExtendsUnit(a, k);
      EliminateFromStep(a, k, true);
      EliminateFromUnit(EliminatePass(a, k, true), k + 1);
    }
  }

  /** The flat run needs only non-zero pivots, not the 1e-15 threshold: when every
      pass meets one, the run ends with the identity in columns 0..n-1 and its last
      column is the one and only solution of the system. */
  lemma EliminateCorrectNonzero(a: Mat, x: seq<real>)
    requires Augmented(a) && NonzeroPivotsFrom(a, 0) && |x| == |a|
    ensures UnitColumns(EliminateFrom(a, 0, true), |a|)
    ensures Solves(a, x) <==> x == LastColumn(EliminateFrom(a, 0, true))
  {
    EliminateFromUnit(a, 0);
    EliminateFromSolves(a, 0, true, x);
    IdentitySolutionUnique(EliminateFrom(a, 0, true), x);
  }

  /** Where range t of the worker split starts when every range before it holds q
      rows: the running total start_row, t * q, the same sum as a row offset. */
  function ChunkStart(t: nat, q: int): int {
    RowStart(t, q)
  }

  /** Range t of the worker split: size / T rows from t * (size / T), the last
      range running on to size. */
  function SplitChunk(size: int, T: int, t: nat): Chunk
    requires T > 0
  {
    Chunk(ChunkStart(t, size / T), if t == T - 1 then size else ChunkStart(t + 1, size / T))
  }

  /** The T ranges of the split tile [0, size): all but the last hold size / T
      rows, the last size / T + size % T, and none is empty when T <= size. */
  lemma SplitChunksTile(cs: seq<Chunk>, size: int, T: int)
    requires size >= 0 && T > 0 && |cs| == T
    requires forall t :: 0 <= t < T ==> cs[t] == SplitChunk(size, T, t)
    ensures Tiles(cs, 0, size)
    ensures forall t :: 0 <= t < T - 1 ==> cs[t].hi - cs[t].lo == size / T
    ensures cs[T - 1].hi - cs[T - 1].lo == size / T + size % T
    ensures T <= size ==> forall t :: 0 <= t < T ==> cs[t].lo < cs[t].hi
  {
    SplitRowsLast(size, T);
  }

  /** The last of T ranges of size / T rows starts at (T - 1) * (size / T) and
      holds size / T + size % T rows. */
  lemma SplitRowsLast(size: int, T: int)
    requires size >= 0 && T > 0
    ensures 0 <= size / T
    ensures 0 <= ChunkStart(T - 1, size / T) <= size
    ensures size - ChunkStart(T - 1, size / T) == size / T + size % T
    ensures T <= size ==> 1 <= size / T
  {
    var q := size / T;
    var rem := size % T;
    assert size == T * q + rem && 0 <= rem < T;
    RowStartIsProduct(T - 1, q);
    assert T * q == (T - 1) * q + q;
    MulLe(0, T - 1, q);
  }


  /** The worker split of the multithreaded back end: T ranges of size / T rows
      each, the last one running to size; a negative T gives no range at all. */
  method SplitRows(size: int, T: int) returns (cs: seq<Chunk>)
    requires size >= 0 && T != 0
    ensures T < 0 ==> cs == []
    ensures T > 0 ==> |cs| == T && Tiles(cs, 0, size)
    ensures T > 0 ==> forall t :: 0 <= t < T - 1 ==> cs[t].hi - cs[t].lo == size / T
    ensures T > 0 ==> cs[T - 1].hi - cs[T - 1].lo == size / T + size % T
    ensures 0 < T <= size ==> forall t :: 0 <= t < T ==> cs[t].lo < cs[t].hi
  {
    // size >= 0, so Euclidean and truncating division agree here.
    var rowsPerThread := size / T;
    var startRow := 0;
    cs := [];
    var t := 0;
    while t < T
      invariant 0 <= t && (T > 0 ==> t <= T) && (T < 0 ==> t == 0) && |cs| == t
      invariant t < T ==> startRow == ChunkStart(t, rowsPerThread)
      invariant T > 0 ==> forall s :: 0 <= s < t ==> cs[s] == SplitChunk(size, T, s)
    {
      var endRow := startRow + rowsPerThread;
      if t == T - 1 {
        endRow := size;
      }
      cs := cs + [Chunk(startRow, endRow)];
      startRow := endRow;
      t := t + 1;
    }
    if T > 0 {
      SplitChunksTile(cs, size, T);
    }
  }

  /** The outcome of the constructor: a matrix, or the invalid-argument error. */
  datatype Created = Made(m: Matrix) | InvalidArgument

  /** A size x (size + 1) matrix stored row by row in one flat array. */
  class Matrix {
    const size: int
    const columns: int
    const data: array<real>

    /** At least one row, one column per unknown plus the right-hand side, and
        exactly size rows of columns entries in the array. */
    ghost predicate Valid()
      reads this
    {
      size > 0 && columns == size + 1 && data.Length == RowStart(size, columns)
    }

    /** The array read as rows. */
    ghost function Rows(): (m: Mat)
      reads this, data
      requires Valid()
      ensures |m| == size && Augmented(m)
    {
      ToRows(data[..], size, columns)
    }

    /** size rows of size + 1 zeros. */
    constructor (n: int)
      requires n > 0
      ensures Valid() && size == n && fresh(data)
      ensures forall r, c :: 0 <= r < n && 0 <= c <= n ==> Rows()[r][c] == 0.0
    {
      size := n;
      columns := n + 1;
      data := new real[n * (n + 1)](_ => 0.0);
      RowStartIsProduct(n, n + 1);
      new;
      forall r, c | 0 <= r < n && 0 <= c <= n ensures Rows()[r][c] == 0.0 {
        ToRowsAt(data[..], size, columns, r, c);
      }
    }

    /** Reading entry (r, c) of the array. */
    function At(r: int, c: int): (v: real)
      reads this, data
      requires Valid() && 0 <= r < size && 0 <= c < columns
      ensures v == Rows()[r][c]
    {
      ToRowsAt(data[..], size, columns, r, c);
      data[Index(r, c, columns)]
    }

    /** Writing entry (r, c) of the array changes that entry of the matrix and no
        other. */
    method Set(r: int, c: int, v: real)
      requires Valid() && 0 <= r < size && 0 <= c < columns
      modifies data
      ensures Rows() == old(Rows())[r := old(Rows())[r][c := v]]
    {
      ghost var a := Rows();
      ghost var s := data[..];
      IndexInRange(r, c, size, columns);
      data[Index(r, c, columns)] := v;
      forall r2, c2 | 0 <= r2 < size && 0 <= c2 < columns
        ensures 0 <= Index(r2, c2, columns) < data.Length
        ensures data[..][Index(r2, c2, columns)] == a[r := a[r][c := v]][r2][c2]
      {
        ToRowsAt(s, size, columns, r2, c2);
        if Index(r2, c2, columns) == Index(r, c, columns) {
          IndexInjective(r2, c2, r, c, columns);
        }
      }
      ToRowsPointwise(data[..], size, columns, a[r := a[r][c := v]]);
    }

    /** The pivot scan of column k over rows k..size-1: a later row replaces the
        candidate only when its magnitude is strictly larger. */
    method SelectPivot(k: int) returns (pivotRow: int, maxVal: real)
      requires Valid() && 0 <= k < size
      ensures pivotRow == PivotRow(Rows(), k, size)
      ensures maxVal == Abs(Rows()[pivotRow][k])
    {
      pivotRow := k;
      maxVal := Abs(At(k, k));
      var i := k + 1;
      while i < size
        invariant k + 1 <= i <= size
        invariant pivotRow == PivotRow(Rows(), k, i)
        invariant maxVal == Abs(Rows()[pivotRow][k])
      {
        if Abs(At(i, k)) > maxVal {
          maxVal := Abs(At(i, k));
          pivotRow := i;
        }
        i := i + 1;
      }
    }

    /** The element-by-element exchange of rows i and j. */
    method SwapRows(i: int, j: int)
      requires Valid() && 0 <= i < size && 0 <= j < size && i != j
      modifies data
      ensures Rows() == Swap(old(Rows()), i, j)
    {
      ghost var a := Rows();
      SplicedEnds(a[i], a[j]);
      SplicedEnds(a[j], a[i]);
      assert a[i := a[i]][j := a[j]] == a;
      var c := 0;
      while c < columns
        invariant 0 <= c <= columns
        invariant Rows() == a[i := Spliced(a[i], a[j], c)][j := Spliced(a[j], a[i], c)]
      {
        var t := At(i, c);
        Set(i, c, At(j, c));
        Set(j, c, t);
        SplicedStep(a[i], a[j], c);
        SplicedStep(a[j], a[i], c);
        c := c + 1;
      }
    }

    /** Divide row k, entry by entry, by its diagonal entry as read before the loop. */
    method NormalizeRow(k: int)
      requires Valid() && 0 <= k < size && Rows()[k][k] != 0.0
      modifies data
      ensures Rows() == old(Rows())[k := Scale(old(Rows())[k], old(Rows())[k][k])]
    {
      ghost var a := Rows();
      var pivotVal := At(k, k);
      ghost var scaled := Scale(a[k], pivotVal);
      SplicedEnds(a[k], scaled);
      assert a[k := a[k]] == a;
      var c := 0;
      while c < columns
        invariant 0 <= c <= columns
        invariant Rows() == a[k := Spliced(a[k], scaled, c)]
      {
        Set(k, c, At(k, c) / pivotVal);
        assert scaled[c] == a[k][c] / pivotVal;
        SplicedStep(a[k], scaled, c);
        c := c + 1;
      }
    }

    /** Row dest minus factor times row src over all columns, reading each source
        entry before the destination entry is written; every array entry outside row
        dest's slice is untouched. */
    method SubtractRowSingleThread(dest: int, src: int, factor: real)
      requires Valid() && 0 <= dest < size && 0 <= src < size
      modifies data
      ensures Rows() == old(Rows())[dest := SubScaled(old(Rows())[dest], old(Rows())[src], factor)]
    {
      ghost var a := Rows();
      ghost var target := SubScaled(a[dest], a[src], factor);
      SplicedEnds(a[dest], target);
      assert a[dest := a[dest]] == a;
      var j := 0;
      while j < columns
        invariant 0 <= j <= columns
        invariant Rows() == a[dest := Spliced(a[dest], target, j)]
      {
        // Entry j of the source row is still its old value, even when src == dest.
        var d := At(dest, j);
        var e := At(src, j);
        assert d == a[dest][j] && e == a[src][j];
        assert target[j] == d - factor * e;
        SplicedStep(a[dest], target, j);
        Set(dest, j, d - factor * e);
        j := j + 1;
      }
    }

    /** The worker for rows [startRow, endRow) of pass pivotRow: every row but the
        pivot row loses factor times the pivot row, factor being its own entry in
        the pivot column, and then has that entry set to 0. */
    method EliminationWorker(startRow: int, endRow: int, pivotRow: int)
      requires Valid() && 0 <= pivotRow < size && 0 <= startRow <= endRow <= size
      modifies data
      ensures Rows() == EliminatedRows(old(Rows()), pivotRow, startRow, endRow)
    {
      ghost var a := Rows();
      var i := startRow;
      while i < endRow
        invariant startRow <= i <= endRow
        invariant Rows() == EliminatedRows(a, pivotRow, startRow, i)
      {
        EliminatedRowsStep(a, pivotRow, startRow, i);
        if i != pivotRow {
          EliminatedRowsAt(a, pivotRow, startRow, i, i);
          var currentFactor := At(i, pivotRow);
          ghost var b := Rows();
          SubtractRowSingleThread(i, pivotRow, currentFactor);
          Set(i, pivotRow, 0.0);
          assert Rows()[i] == SubtractAndClear(b[i], b[pivotRow], pivotRow);
        }
        i := i + 1;
      }
    }

    /** One worker per range, run one after another; the ranges are disjoint and
        none writes the pivot row, so this is the joined result. */
    method RunWorkers(k: int, cs: seq<Chunk>)
      requires Valid() && 0 <= k < size && (|cs| == 0 || Tiles(cs, 0, size))
      modifies data
      ensures Rows() == ChunkedElimination(old(Rows()), k, cs)
    {
      ghost var a := Rows();
      var t := 0;
      while t < |cs|
        invariant 0 <= t <= |cs|
        invariant ChunkedElimination(Rows(), k, cs[t..]) == ChunkedElimination(a, k, cs)
      {
        assert cs[t..][0] == cs[t] && cs[t..][1..] == cs[t + 1..];
        TilesWithin(cs, 0, size, t);
        EliminationWorker(cs[t].lo, cs[t].hi, k);
        t := t + 1;
      }
    }

    /** Pass k of eliminate: pivot scan, swap, the zero-pivot skip, normalisation
        and the back end's elimination phase. The multithreaded back end caps its
        worker count, which the caller keeps for the next pass. */
    method EliminationPass(k: int, impl: Implementation, numThreads: int) returns (threadsAfter: int)
      requires Valid() && 0 <= k < size
      requires impl == MultiThread ==> numThreads != 0
      modifies data
      ensures Rows() == EliminatePass(old(Rows()), k, Clears(impl, numThreads))
      ensures threadsAfter == if impl == MultiThread && old(Rows())[PivotRow(old(Rows()), k, size)][k] != 0.0
                              then CappedThreads(numThreads, size) else numThreads
    ensures Clears(impl, threadsAfter) == Clears(impl, numThreads)
    ensures impl == MultiThread ==> threadsAfter != 0
    ensures EliminateFrom(Rows(), k + 1, Clears(impl, numThreads))
         == EliminateFrom(old(Rows()), k, Clears(impl, numThreads))
    {
      ghost var a := Rows();
      EliminateFromStep(a, k, Clears(impl, numThreads));
      threadsAfter := numThreads;
      var pivotRow, maxVal := SelectPivot(k);
      if pivotRow != k {
        SwapRows(k, pivotRow);
      }
      var pivotVal := At(k, k);
      if pivotVal == 0.0 {
        ZeroPivotStays(a, k);
        return;
      }
      ScaleByOwnEntry(Rows()[k], k);
      NormalizeRow(k);
      assert Rows() == Prepared(a, k);
      if impl == Standard {
        EliminationWorker(0, size, k);
      } else if impl == MultiThread {
        threadsAfter := CappedThreads(numThreads, size);
        CappedThreadsSign(numThreads, size);
        ghost var prepared := Rows();
        var cs := SplitRows(size, threadsAfter);
        RunWorkers(k, cs);
        if threadsAfter > 0 {
          ChunkedIsFullSweep(prepared, k, cs);
        }
      }
    }

    /** eliminate: passes 0..size-1 in turn; a pass with a zero pivot is skipped. */
    method Eliminate(impl: Implementation, numThreads: int)
      requires Valid()
      requires impl == MultiThread ==> numThreads != 0
      modifies data
      ensures Rows() == EliminateFrom(old(Rows()), 0, Clears(impl, numThreads))
    {
      ghost var orig := Rows();
      var threads := numThreads;
      var k := 0;
      while k < size
        invariant 0 <= k <= size
        invariant impl == MultiThread ==> threads != 0
        invariant Clears(impl, threads) == Clears(impl, numThreads)
        invariant EliminateFrom(Rows(), k, Clears(impl, numThreads)) == EliminateFrom(orig, 0, Clears(impl, numThreads))
      {
        threads := EliminationPass(k, impl, threads);
        k := k + 1;
      }
    }
  }

  /** The constructor: sizes below 1 are rejected with the invalid-argument error,
      any other size gives size rows of size + 1 zeros. */
  method Create(n: int) returns (r: Created)
    ensures r.InvalidArgument? <==> n <= 0
    ensures r.Made? ==> fresh(r.m) && fresh(r.m.data) && r.m.Valid() && r.m.size == n
    ensures r.Made? ==> forall i, j :: 0 <= i < n && 0 <= j <= n ==> r.m.Rows()[i][j] == 0.0
  {
    if n <= 0 {
      return InvalidArgument;
    }
    var m := new Matrix(n);
    return Made(m);
  }
}
