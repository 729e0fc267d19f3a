/** Gauss-Jordan elimination with partial pivoting on a vector-of-rows augmented
    matrix: a sequential driver, a fork-join driver that splits every pass's
    elimination into balanced row ranges, and the residual of a solution. */
module GaussJordan {
  import opened RowOps
  import opened LinearSystem
  import opened Chunks

  /** The pivot magnitude 1e-15 below which a pass gives up. */
  const Eps: real := 0.000000000000001

  /** How a solve ends: with the reduced matrix, or with the matrix as it stood when
      pass `pass` found no usable pivot. */
  datatype Outcome = Solved(m: Mat) | Singular(m: Mat, pass: nat)

  /** What a driver reports: normal return, or the "singular or nearly singular"
      error raised at the given pass. */
  datatype Status = Ok | SingularMatrix(pass: nat)

  function StatusOf(o: Outcome): Status {
    match o
    case Solved(_) => Ok
    case Singular(_, k) => SingularMatrix(k)
  }

  /** Pass k may go ahead: the largest magnitude in column k from row k down is at
      least Eps. */
  predicate HasPivot(a: Mat, k: nat)
    requires Augmented(a) && k < |a|
  {
    Abs(a[PivotRow(a, k, |a|)][k]) >= Eps
  }

  /** The first half of pass k: bring the pivot row to position k, then divide it
      by its diagonal entry, which must not be zero. */
  function Prepared(a: Mat, k: nat): (r: Mat)
    requires Augmented(a) && k < |a| && a[PivotRow(a, k, |a|)][k] != 0.0
    ensures |r| == |a| && Augmented(r) && r[k][k] == 1.0
    ensures forall i {:trigger r[i]} :: 0 <= i < |a| && i != k && i != PivotRow(a, k, |a|) ==> r[i] == a[i]
  {
    var p := PivotRow(a, k, |a|);
    var b := if p != k then Swap(a, k, p) else a;
    ScaleByOwnEntry(b[k], k);
    b[k := Scale(b[k], b[k][k])]
  }

  /** Pass k: prepare the pivot row, then eliminate column k from every other row. */
  function Pass(a: Mat, k: nat): (r: Mat)
    requires Augmented(a) && k < |a| && HasPivot(a, k)
    ensures |r| == |a| && Augmented(r) && r[k][k] == 1.0
    ensures forall i {:trigger r[i]} :: 0 <= i < |a| && i != k ==> r[i][k] == 0.0
  {
    EliminatedRows(Prepared(a, k), k, 0, |a|)
  }

  /** Passes k, k+1, ..., n-1 in turn, stopping at the first pass without a pivot. */
  function Passes(a: Mat, k: nat): (o: Outcome)
    requires Augmented(a) && k <= |a|
    ensures |o.m| == |a| && Augmented(o.m)
    ensures o.Singular? ==> k <= o.pass < |a|
    decreases |a| - k, 1
  {
    if k == |a| then Solved(a)
    else if !HasPivot(a, k) then Singular(a, k)
    else Advance(a, k)
  }

  /** Pass k goes ahead, and the solve carries on from pass k + 1. */
  function Advance(a: Mat, k: nat): (o: Outcome)
    requires Augmented(a) && k < |a| && HasPivot(a, k)
    ensures |o.m| == |a| && Augmented(o.m)
    ensures o.Singular? ==> k < o.pass < |a|
    decreases |a| - k, 0
  {
    Passes(Pass(a, k), k + 1)
  }

  /** The whole solve, from pass 0. */
  function Solve(a: Mat): (o: Outcome)
    requires Augmented(a)
    ensures |o.m| == |a| && Augmented(o.m)
    ensures o.Singular? ==> o.pass < |a|
  {
    Passes(a, 0)
  }

  /** A pass keeps the identity already built in columns 0..k-1 and adds column k. */
  lemma PassExtendsUnit(a: Mat, k: nat)
    requires Augmented(a) && k < |a| && HasPivot(a, k)
    ensures UnitColumns(a, k) ==> UnitColumns(Pass(a, k), k + 1)
  {
    PreparedSweepExtendsUnit(a, k);
  }

  /** The same for any non-zero pivot entry, however small: swapping, normalising
      and sweeping keeps columns 0..k-1 of the identity and adds column k. */
  lemma PreparedSweepExtendsUnit(a: Mat, k: nat)
    requires Augmented(a) && k < |a| && a[PivotRow(a, k, |a|)][k] != 0.0
    ensures UnitColumns(a, k) ==> UnitColumns(EliminatedRows(Prepared(a, k), k, 0, |a|), k + 1)
  {
    if UnitColumns(a, k) {
      var p := PivotRow(a, k, |a|);
      var b := if p != k then Swap(a, k, p) else a;
      assert UnitColumns(b, k) by {
        forall i, j | 0 <= i < |a| && 0 <= j < k
          ensures b[i][j] == if i == j then 1.0 else 0.0
        {
          if i == k {
            assert b[i] == a[p];
          } else if i == p {
            assert b[i] == a[k];
          } else {
            assert b[i] == a[i];
          }
        }
      }
      var c := Prepared(a, k);
      assert c == b[k := Scale(b[k], b[k][k])];
      forall j | 0 <= j < k ensures c[k][j] == 0.0 {
        ScaleKeepsZero(b[k], b[k][k], j);
      }
      var r := EliminatedRows(c, k, 0, |a|);
      forall i, j | 0 <= i < |a| && 0 <= j <= k
        ensures r[i][j] == if i == j then 1.0 else 0.0
      {
        EliminatedRowsAt(c, k, 0, |a|, i);
      }
    }
  }

  /** Swapping the pivot row up and normalising it changes none of the solutions. */
  lemma PreparedSolves(a: Mat, k: nat, x: seq<real>)
    requires Augmented(a) && k < |a| && a[PivotRow(a, k, |a|)][k] != 0.0 && |x| == |a|
    ensures Solves(Prepared(a, k), x) <==> Solves(a, x)
  {
    var p := PivotRow(a, k, |a|);
    var b := if p != k then Swap(a, k, p) else a;
    if p != k {
      SwapSolves(a, k, p, x);
    }
    ScaleSolves(b, k, b[k][k], x);
  }

  /** A pass changes none of the solutions of the system. */
  lemma PassSolves(a: Mat, k: nat, x: seq<real>)
    requires Augmented(a) && k < |a| && HasPivot(a, k) && |x| == |a|
    ensures Solves(Pass(a, k), x) <==> Solves(a, x)
  {
    PreparedSolves(a, k, x);
    EliminatedSolves(Prepared(a, k), k, 0, |a|, x);
  }

  /** One step of Passes, as an equation. */
  lemma PassesStep(a: Mat, k: nat)
    requires Augmented(a) && k < |a|
    ensures Passes(a, k) == if HasPivot(a, k) then Passes(Pass(a, k), k + 1) else Singular(a, k)
  {
  }

  /** The passes change none of the solutions of the system. */
  lemma {:induction false} PassesSolves(a: Mat, k: nat, x: seq<real>)
    requires Augmented(a) && k <= |a| && |x| == |a|
    ensures Solves(Passes(a, k).m, x) <==> Solves(a, x)
    decreases |a| - k, 1
  {
    if k < |a| && HasPivot(a, k) {
      AdvanceSolves(a, k, x);
    }
  }

  lemma {:induction false} AdvanceSolves(a: Mat, k: nat, x: seq<real>)
    requires Augmented(a) && k < |a| && HasPivot(a, k) && |x| == |a|
    ensures Solves(Advance(a, k).m, x) <==> Solves(a, x)
    decreases |a| - k, 0
  {
    PassSolves(a, k, x);
    PassesSolves(Pass(a, k), k + 1, x);
  }

  /** The passes extend the identity block column by column: a finished solve has the
      identity in columns 0..n-1, a stopped one in the columns before its pass. */
  lemma {:induction false} PassesUnit(a: Mat, k: nat)
    requires Augmented(a) && k <= |a| && UnitColumns(a, k)
    ensures var o := Passes(a, k); UnitColumns(o.m, if o.Solved? then |a| else o.pass)
    decreases |a| - k, 1
  {
    if k < |a| && HasPivot(a, k) {
      AdvanceUnit(a, k);
    }
  }

  lemma {:induction false} AdvanceUnit(a: Mat, k: nat)
    requires Augmented(a) && k < |a| && HasPivot(a, k) && UnitColumns(a, k)
    ensures var o := Advance(a, k); UnitColumns(o.m, if o.Solved? then |a| else o.pass)
    decreases |a| - k, 0
  {
    PassExtendsUnit(a, k);
    PassesUnit(Pass(a, k), k + 1);
  }

  /** A stopped solve stops because every candidate pivot of its pass is below Eps
      in magnitude. */
  lemma {:induction false} PassesSingularPivot(a: Mat, k: nat)
    requires Augmented(a) && k <= |a| && Passes(a, k).Singular?
    ensures var o := Passes(a, k); forall i :: o.pass <= i < |a| ==> Abs(o.m[i][o.pass]) < Eps
    decreases |a| - k, 1
  {
    if HasPivot(a, k) {
      AdvanceSingularPivot(a, k);
    } else {
      PivotBelowIff(a, k, Eps);
    }
  }

  lemma {:induction false} AdvanceSingularPivot(a: Mat, k: nat)
    requires Augmented(a) && k < |a| && HasPivot(a, k) && Advance(a, k).Singular?
    ensures var o := Advance(a, k); forall i :: o.pass <= i < |a| ==> Abs(o.m[i][o.pass]) < Eps
    decreases |a| - k, 0
  {
    PassesSingularPivot(Pass(a, k), k + 1);
  }

  /** A stopped solve: the identity is built in the columns before the failing pass,
      and that pass's column is below Eps from the diagonal down. */
  lemma SolveSingular(a: Mat)
    requires Augmented(a) && Solve(a).Singular?
    ensures var o := Solve(a); UnitColumns(o.m, o.pass)
    ensures var o := Solve(a); forall i :: o.pass <= i < |a| ==> Abs(o.m[i][o.pass]) < Eps
  {
    PassesUnit(a, 0);
    PassesSingularPivot(a, 0);
  }

  /** When the solve succeeds, the last column of the reduced matrix is the one and
      only solution of the original system. */
  lemma SolveCorrect(a: Mat, x: seq<real>)
    requires Augmented(a) && Solve(a).Solved? && |x| == |a|
    ensures Solves(a, x) <==> x == LastColumn(Solve(a).m)
  {
    PassesSolves(a, 0, x);
    PassesUnit(a, 0);
    IdentitySolutionUnique(Solve(a).m, x);
  }

  /** When the solve succeeds, the sum of squared residuals of its answer against the
      original matrix is zero. */
  lemma SolveResidualZero(a: Mat)
    requires Augmented(a) && Solve(a).Solved?
    ensures SumSq(a, LastColumn(Solve(a).m), |a|) == 0.0
  {
    var x := LastColumn(Solve(a).m);
    SolveCorrect(a, x);
    SumSqZeroIff(a, x);
  }

  /** Column c of a is zero in every row. */
  predicate ZeroColumn(a: Mat, c: nat)
    requires Augmented(a) && c < |a|
  {
    forall i :: 0 <= i < |a| ==> a[i][c] == 0.0
  }

  /** A pass before column c keeps a zero column c zero. */
  lemma PassKeepsZeroColumn(a: Mat, k: nat, c: nat)
    requires Augmented(a) && k < c < |a| && HasPivot(a, k) && ZeroColumn(a, c)
    ensures ZeroColumn(Pass(a, k), c)
  {
    var p := PivotRow(a, k, |a|);
    var b := if p != k then Swap(a, k, p) else a;
    assert forall i :: 0 <= i < |a| ==> b[i][c] == 0.0;
    var d := Prepared(a, k);
    assert d == b[k := Scale(b[k], b[k][k])];
    ScaleKeepsZero(b[k], b[k][k], c);
    var r := Pass(a, k);
    forall i | 0 <= i < |a| ensures r[i][c] == 0.0 {
      EliminatedRowsAt(d, k, 0, |a|, i);
    }
  }

  /** A zero column offers no pivot. */
  lemma ZeroColumnNoPivot(a: Mat, c: nat)
    requires Augmented(a) && c < |a| && ZeroColumn(a, c)
    ensures !HasPivot(a, c)
  {
    var p := PivotRow(a, c, |a|);
    assert a[p][c] == 0.0;
    assert Abs(a[p][c]) == 0.0;
  }

  /** A column that is zero when pass k starts makes the solve stop, at the latest at
      that column's own pass. */
  lemma {:induction false} PassesZeroColumn(a: Mat, k: nat, c: nat)
    requires Augmented(a) && k <= c < |a| && ZeroColumn(a, c)
    ensures Passes(a, k).Singular? && Passes(a, k).pass <= c
    decreases |a| - k, 1
  {
    if k == c {
      ZeroColumnNoPivot(a, c);
    } else if HasPivot(a, k) {
      AdvanceZeroColumn(a, k, c);
    }
  }

  lemma {:induction false} AdvanceZeroColumn(a: Mat, k: nat, c: nat)
    requires Augmented(a) && k < c < |a| && HasPivot(a, k) && ZeroColumn(a, c)
    ensures Advance(a, k).Singular? && Advance(a, k).pass <= c
    decreases |a| - k, 0
  {
    PassKeepsZeroColumn(a, k, c);
    PassesZeroColumn(Pass(a, k), k + 1, c);
  }

  /** A matrix with an all-zero coefficient column is reported singular. */
  lemma ZeroColumnSingular(a: Mat, c: nat)
    requires Augmented(a) && c < |a|
    requires forall i :: 0 <= i < |a| ==> a[i][c] == 0.0
    ensures Solve(a).Singular? && Solve(a).pass <= c
  {
    PassesZeroColumn(a, 0, c);
  }

  /** The matrix object: n rows of n + 1 entries, the last column holding b. */
  class Matrix {
    const n: int
    var data: Mat

    ghost predicate Valid()
      reads this
    {
      n >= 0 && |data| == n && Augmented(data)
    }

    /** n rows of n + 1 zeros. */
    constructor (size: int)
      requires size >= 0
      ensures Valid() && n == size
      ensures forall i, j :: 0 <= i < n && 0 <= j <= n ==> data[i][j] == 0.0
    {
      n := size;
      data := seq(size, i => seq(size + 1, j => 0.0));
    }
  }

  /** The partial-pivot scan of column k over rows k..n-1, as an explicit loop. */
  method SelectPivot(m: Matrix, k: int) returns (pivotRow: int, maxval: real)
    requires m.Valid() && 0 <= k < m.n
    ensures pivotRow == PivotRow(m.data, k, m.n)
    ensures maxval == Abs(m.data[pivotRow][k])
  {
    pivotRow := k;
    maxval := Abs(m.data[k][k]);
    var i := k + 1;
    while i < m.n
      invariant k + 1 <= i <= m.n
      invariant pivotRow == PivotRow(m.data, k, i)
      invariant maxval == Abs(m.data[pivotRow][k])
    {
      var v := Abs(m.data[i][k]);
      if v > maxval {
        maxval := v;
        pivotRow := i;
      }
      i := i + 1;
    }
  }

  /** Exchange rows i and j. */
  method SwapRows(m: Matrix, i: int, j: int)
    requires m.Valid() && 0 <= i < m.n && 0 <= j < m.n
    modifies m
    ensures m.Valid() && m.data == Swap(old(m.data), i, j)
  {
    m.data := m.data[i := m.data[j]][j := m.data[i]];
  }

  /** Divide row k, entry by entry, by its diagonal entry as read before the loop. */
  method NormalizeRow(m: Matrix, k: int)
    requires m.Valid() && 0 <= k < m.n && m.data[k][k] != 0.0
    modifies m
    ensures m.Valid() && m.data == old(m.data)[k := Scale(old(m.data)[k], old(m.data)[k][k])]
  {
    var pivot := m.data[k][k];
    var j := 0;
    while j <= m.n
      invariant 0 <= j <= m.n + 1 && m.Valid()
      invariant forall t :: 0 <= t < m.n && t != k ==> m.data[t] == old(m.data)[t]
      invariant forall c :: 0 <= c < j ==> m.data[k][c] == old(m.data)[k][c] / pivot
      invariant forall c :: j <= c <= m.n ==> m.data[k][c] == old(m.data)[k][c]
    {
      m.data := m.data[k := m.data[k][j := m.data[k][j] / pivot]];
      j := j + 1;
    }
    assert m.data[k] == Scale(old(m.data)[k], pivot);
  }

  /** Row i minus factor times the pivot row k, factor = a[i][k], then a[i][k] := 0;
      a zero factor skips the row. */
  method EliminateRowAt(m: Matrix, i: int, k: int)
    requires m.Valid() && 0 <= i < m.n && 0 <= k < m.n && i != k
    modifies m
    ensures m.Valid() && m.data == old(m.data)[i := EliminateRow(old(m.data)[i], old(m.data)[k], k)]
  {
    var factor := m.data[i][k];
    if factor == 0.0 {
      return;
    }
    var j := 0;
    while j <= m.n
      invariant 0 <= j <= m.n + 1 && m.Valid()
      invariant forall t :: 0 <= t < m.n && t != i ==> m.data[t] == old(m.data)[t]
      invariant forall c :: 0 <= c < j ==> m.data[i][c] == old(m.data)[i][c] - factor * old(m.data)[k][c]
      invariant forall c :: j <= c <= m.n ==> m.data[i][c] == old(m.data)[i][c]
    {
      m.data := m.data[i := m.data[i][j := m.data[i][j] - factor * m.data[k][j]]];
      j := j + 1;
    }
    ghost var sub := SubScaled(old(m.data)[i], old(m.data)[k], factor);
    assert m.data[i] == sub by {
      forall c | 0 <= c <= m.n ensures m.data[i][c] == sub[c] {
      }
    }
    m.data := m.data[i := m.data[i][k := 0.0]];
  }

  /** The worker of pass k over rows [lo, hi): every row but the pivot row is
      eliminated against the pivot row. */
  method EliminateRange(m: Matrix, k: int, lo: int, hi: int)
    requires m.Valid() && 0 <= k < m.n && 0 <= lo <= hi <= m.n
    modifies m
    ensures m.Valid() && m.data == EliminatedRows(old(m.data), k, lo, hi)
  {
    var i := lo;
    EliminatedRowsEmpty(m.data, k, lo, lo);
    while i < hi
      invariant lo <= i <= hi && m.Valid()
      invariant m.data == EliminatedRows(old(m.data), k, lo, i)
    {
      EliminatedRowsStep(old(m.data), k, lo, i);
      if i != k {
        EliminateRowAt(m, i, k);
      }
      i := i + 1;
    }
  }

  /** The pivot scan, the singularity test, the swap and the normalisation that open
      pass k in both drivers. On false the matrix is untouched. */
  method PivotAndNormalize(m: Matrix, k: int) returns (ok: bool)
    requires m.Valid() && 0 <= k < m.n
    modifies m
    ensures m.Valid()
    ensures ok == HasPivot(old(m.data), k)
    ensures ok ==> m.data == Prepared(old(m.data), k)
    ensures !ok ==> m.data == old(m.data)
  {
    var p, maxval := SelectPivot(m, k);
    if maxval < Eps {
      return false;
    }
    if p != k {
      SwapRows(m, k, p);
    }
    NormalizeRow(m, k);
    return true;
  }

  /** Pass k of the sequential driver: pivot, normalise, then eliminate every other
      row. On false the matrix is untouched and the driver raises the error. */
  method SequentialPass(m: Matrix, k: int) returns (ok: bool)
    requires m.Valid() && 0 <= k < m.n
    modifies m
    ensures m.Valid()
    ensures ok == HasPivot(old(m.data), k)
    ensures ok ==> m.data == Pass(old(m.data), k)
    ensures !ok ==> m.data == old(m.data)
  {
    ok := PivotAndNormalize(m, k);
    if ok {
      EliminateRange(m, k, 0, m.n);
    }
  }

  /** The sequential driver: on return the matrix and the status are those of Solve;
      a singular pass leaves the matrix as the earlier passes made it. */
  method GaussJordanSequential(m: Matrix) returns (status: Status)
    requires m.Valid()
    modifies m
    ensures m.Valid()
    ensures status == StatusOf(Solve(old(m.data))) && m.data == Solve(old(m.data)).m
  {
    var n := m.n;
    if n == 0 {
      return Ok;
    }
    var k := 0;
    while k < n
      invariant 0 <= k <= n && m.Valid()
      invariant Passes(m.data, k) == Solve(old(m.data))
    {
      PassesStep(m.data, k);
      var ok := SequentialPass(m, k);
      if !ok {
        return SingularMatrix(k);
      }
      k := k + 1;
    }
    return Ok;
  }

  /** The number of workers: 0 asks for the hardware concurrency hw (1 when that is
      unknown), and never more than one worker per row. */
  function ClampThreads(threadCount: nat, hw: nat, n: nat): (t: nat)
    ensures n >= 1 ==> 1 <= t <= n
    ensures 1 <= threadCount <= n ==> t == threadCount
    ensures threadCount == 0 && 1 <= hw <= n ==> t == hw
    ensures threadCount == 0 && hw == 0 && n >= 1 ==> t == 1
    ensures n >= 1 && threadCount > n ==> t == n
    ensures n >= 1 && threadCount == 0 && hw > n ==> t == n
  {
    var t := if threadCount == 0 then (if hw > 0 then hw else 1) else threadCount;
    if t > n then n else t
  }

  /** Rows in worker t's range when n rows go to T workers: the first n % T workers
      take one extra row. */
  function BalancedSize(n: nat, T: nat, t: nat): nat
    requires T >= 1
  {
    n / T + if t < n % T then 1 else 0
  }

  /** Where worker t's range starts: the sizes of ranges 0..t-1 added up, each q
      rows plus one extra row for the first rem of them. */
  function BalancedStart(q: nat, rem: nat, t: nat): nat
    decreases t
  {
    if t == 0 then 0 else BalancedStart(q, rem, t - 1) + q + (if t - 1 < rem then 1 else 0)
  }

  /** In closed form: t * q, plus one for each of the first min(t, rem) ranges. */
  lemma {:induction false} BalancedStartClosed(q: nat, rem: nat, t: nat)
    ensures BalancedStart(q, rem, t) == t * q + (if t < rem then t else rem)
    decreases t
  {
    if t > 0 {
      BalancedStartClosed(q, rem, t - 1);
      assert t * q == (t - 1) * q + q;
    }
  }

  /** The quotient and remainder of a row count by a worker count. */
  lemma DivisionBounds(n: nat, T: nat)
    requires T >= 1
    ensures 0 <= n / T && 0 <= n % T < T && n == T * (n / T) + n % T
  {
  }

  /** All T ranges together hold the n rows. */
  lemma BalancedStartEnd(n: nat, T: nat)
    requires T >= 1
    ensures BalancedStart(n / T, n % T, T) == n
  {
    BalancedStartClosed(n / T, n % T, T);
  }

  /** The balanced split of rows [0, n) into threadCount consecutive ranges. */
  method Partition(n: int, threadCount: int) returns (cs: seq<Chunk>)
    requires n >= 0 && threadCount >= 1
    ensures |cs| == threadCount && Tiles(cs, 0, n)
    ensures forall t :: 0 <= t < |cs| ==> cs[t].hi - cs[t].lo == BalancedSize(n, threadCount, t)
  {
    var baseChunk := n / threadCount;
    var remainder := n % threadCount;
    DivisionBounds(n, threadCount);
    var cur := 0;
    cs := [];
    var t := 0;
    while t < threadCount
      invariant 0 <= t <= threadCount && |cs| == t
      invariant Tiles(cs, 0, cur)
      invariant cur == BalancedStart(baseChunk, remainder, t)
      invariant forall s :: 0 <= s < t ==> cs[s].hi - cs[s].lo == BalancedSize(n, threadCount, s)
    {
      var chunk := baseChunk + (if t < remainder then 1 else 0);
      var start := cur;
      var end := cur + chunk;
      cur := end;
      TilesAppend(cs, 0, start, Chunk(start, end));
      cs := cs + [Chunk(start, end)];
      t := t + 1;
    }
    BalancedStartEnd(n, threadCount);
  }

  /** One worker per non-empty range, run one after another; the ranges are
      disjoint and none writes the pivot row, so this is the joined result. */
  method RunChunks(m: Matrix, k: int, cs: seq<Chunk>)
    requires m.Valid() && 0 <= k < m.n && Tiles(cs, 0, m.n)
    modifies m
    ensures m.Valid() && m.data == ChunkedElimination(old(m.data), k, cs)
  {
    var t := 0;
    while t < |cs|
      invariant 0 <= t <= |cs| && m.Valid()
      invariant ChunkedElimination(m.data, k, cs[t..]) == ChunkedElimination(old(m.data), k, cs)
    {
      assert cs[t..][0] == cs[t] && cs[t..][1..] == cs[t + 1..];
      TilesWithin(cs, 0, m.n, t);
      if cs[t].lo < cs[t].hi {
        EliminateRange(m, k, cs[t].lo, cs[t].hi);
      } else {
        EliminatedRowsEmpty(m.data, k, cs[t].lo, cs[t].hi);
      }
      t := t + 1;
    }
  }

  /** Pass k of the fork-join driver: pivot and normalise on the calling thread,
      then one worker per range of the balanced split. */
  method ParallelPass(m: Matrix, k: int, threads: int) returns (ok: bool)
    requires m.Valid() && 0 <= k < m.n && threads >= 1
    modifies m
    ensures m.Valid()
    ensures ok == HasPivot(old(m.data), k)
    ensures ok ==> m.data == Pass(old(m.data), k)
    ensures !ok ==> m.data == old(m.data)
  {
    ok := PivotAndNormalize(m, k);
    if ok {
      var chunks := Partition(m.n, threads);
      ghost var prepared := m.data;
      RunChunks(m, k, chunks);
      ChunkedIsFullSweep(prepared, k, chunks);
    }
  }

  /** The fork-join driver: the same matrix and status as the sequential one, for
      every requested thread count and hardware concurrency. */
  method GaussJordanParallel(m: Matrix, threadCount: nat, hw: nat) returns (status: Status)
    requires m.Valid()
    modifies m
    ensures m.Valid()
    ensures status == StatusOf(Solve(old(m.data))) && m.data == Solve(old(m.data)).m
  {
    var n := m.n;
    if n == 0 {
      return Ok;
    }
    var threads := ClampThreads(threadCount, hw, n);
    var k := 0;
    while k < n
      invariant 0 <= k <= n && m.Valid()
      invariant Passes(m.data, k) == Solve(old(m.data))
    {
      PassesStep(m.data, k);
      var ok := ParallelPass(m, k, threads);
      if !ok {
        return SingularMatrix(k);
      }
      k := k + 1;
    }
    return Ok;
  }

  /** The squared residual norm sum_i (sum_j orig[i][j] * x[j] - orig[i][n])^2 for
      x the last column of reduced, or -1 when the sizes differ. */
  method ResidualSumSquares(orig: Matrix, reduced: Matrix) returns (r: real)
    requires orig.Valid() && reduced.Valid()
    ensures orig.n != reduced.n ==> r == -1.0
    ensures orig.n == reduced.n ==> r == SumSq(orig.data, LastColumn(reduced.data), orig.n)
  {
    if orig.n != reduced.n {
      return -1.0;
    }
    var n := orig.n;
    var x: seq<real> := [];
    var i := 0;
    while i < n
      invariant 0 <= i <= n && |x| == i
      invariant forall t :: 0 <= t < i ==> x[t] == reduced.data[t][n]
    {
      x := x + [reduced.data[i][n]];
      i := i + 1;
    }
    assert x == LastColumn(reduced.data);
    var sumsq := 0.0;
    i := 0;
    while i < n
      invariant 0 <= i <= n
      invariant sumsq == SumSq(orig.data, x, i)
    {
      var s := 0.0;
      var j := 0;
      while j < n
        invariant 0 <= j <= n
        invariant s == Dot(orig.data[i], x, j)
      {
        s := s + orig.data[i][j] * x[j];
        j := j + 1;
      }
      var res := s - orig.data[i][n];
      sumsq := sumsq + res * res;
      i := i + 1;
    }
    return sumsq;
  }
}
