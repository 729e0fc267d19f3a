/** Dense augmented matrices [A | b] as sequences of rows, the partial-pivot
    scan and the three row operations shared by every elimination driver. */
module RowOps {

  type Row = seq<real>
  type Mat = seq<Row>

  /** An n x (n+1) augmented matrix, n = |a|: column n holds the right-hand side. */
  predicate Augmented(a: Mat) {
    forall i :: 0 <= i < |a| ==> |a[i]| == |a| + 1
  }

  function Abs(x: real): real {
    if x < 0.0 then -x else x
  }

  /** The pivot scan over rows k..hi-1 of column k: start with row k and move to a
      later row only when its magnitude is strictly larger, so ties keep the
      earliest row. */
  function PivotRow(a: Mat, k: nat, hi: nat): (p: nat)
    requires Augmented(a) && k < hi <= |a|
    ensures k <= p < hi
    decreases hi
  {
    if hi == k + 1 then k
    else
      var p := PivotRow(a, k, hi - 1);
      if Abs(a[hi - 1][k]) > Abs(a[p][k]) then hi - 1 else p
  }

  /** The pivot has the largest magnitude in column k over rows k..hi-1, and it is
      the first row that does. */
  lemma {:induction false} PivotRowIsFirstMax(a: Mat, k: nat, hi: nat)
    requires Augmented(a) && k < hi <= |a|
    ensures var p := PivotRow(a, k, hi);
      forall i :: k <= i < hi ==> Abs(a[i][k]) <= Abs(a[p][k])
    ensures var p := PivotRow(a, k, hi);
      forall i :: k <= i < p ==> Abs(a[i][k]) < Abs(a[p][k])
    decreases hi
  {
    if hi > k + 1 {
      PivotRowIsFirstMax(a, k, hi - 1);
    }
  }

  /** The pivot is the only row of [k, hi) that is maximal and beats every earlier row. */
  lemma {:induction false} PivotRowUnique(a: Mat, k: nat, hi: nat, q: nat)
    requires Augmented(a) && k < hi <= |a|
    requires k <= q < hi
    requires forall i :: k <= i < hi ==> Abs(a[i][k]) <= Abs(a[q][k])
    requires forall i :: k <= i < q ==> Abs(a[i][k]) < Abs(a[q][k])
    ensures q == PivotRow(a, k, hi)
    decreases hi
  {
    if hi > k + 1 {
      if q < hi - 1 {
        PivotRowUnique(a, k, hi - 1, q);
      } else {
        PivotRowIsFirstMax(a, k, hi - 1);
      }
    }
  }

  /** The largest magnitude in column k over rows k..|a|-1 is below t exactly when
      every one of those entries is. */
  lemma PivotBelowIff(a: Mat, k: nat, t: real)
    requires Augmented(a) && k < |a|
    ensures Abs(a[PivotRow(a, k, |a|)][k]) < t <==> forall i :: k <= i < |a| ==> Abs(a[i][k]) < t
  {
    PivotRowIsFirstMax(a, k, |a|);
  }

  /** Exchange rows i and j entirely. */
  function Swap(a: Mat, i: nat, j: nat): (r: Mat)
    requires i < |a| && j < |a|
    ensures |r| == |a| && r[i] == a[j] && r[j] == a[i]
    ensures forall t {:trigger r[t]} :: 0 <= t < |a| && t != i && t != j ==> r[t] == a[t]
  {
    a[i := a[j]][j := a[i]]
  }

  lemma {:induction false} SwapInvolutive(a: Mat, i: nat, j: nat)
    requires i < |a| && j < |a|
    ensures Swap(Swap(a, i, j), i, j) == a
  {
    var b := Swap(a, i, j);
    var c := Swap(b, i, j);
    assert |c| == |a|;
    forall t | 0 <= t < |a| ensures c[t] == a[t] {
      if t == i {
        assert c[i] == b[j];
      } else if t == j {
        assert c[j] == b[i];
      }
    }
  }

  /** Divide every entry of a row by d. */
  function Scale(row: Row, d: real): (r: Row)
    requires d != 0.0
    ensures |r| == |row|
    ensures forall j {:trigger r[j]} :: 0 <= j < |row| ==> r[j] * d == row[j]
  {
    seq(|row|, j requires 0 <= j < |row| => row[j] / d)
  }

  /** row - f * src, entry by entry. */
  function SubScaled(row: Row, src: Row, f: real): (r: Row)
    requires |src| == |row|
    ensures |r| == |row|
    ensures forall j {:trigger r[j]} :: 0 <= j < |row| ==> r[j] + f * src[j] == row[j]
  {
    seq(|row|, j requires 0 <= j < |row| => row[j] - f * src[j])
  }

  /** One elimination step of row against the normalised pivot row in column k:
      a zero factor leaves the row alone; otherwise factor * pivot is subtracted and
      entry k is forced to zero. */
  function EliminateRow(row: Row, pivot: Row, k: nat): (r: Row)
    requires |pivot| == |row| && k < |row|
    ensures |r| == |row| && r[k] == 0.0
    ensures row[k] == 0.0 ==> r == row
    ensures forall j {:trigger r[j]} :: 0 <= j < |row| && j != k ==> r[j] == row[j] - row[k] * pivot[j]
  {
    var factor := row[k];
    if factor == 0.0 then row else SubScaled(row, pivot, factor)[k := 0.0]
  }

  /** Over the reals the forced zero changes nothing once the pivot entry is 1:
      the step is exactly row - row[k] * pivot. */
  lemma ForcedZeroIsExact(row: Row, pivot: Row, k: nat)
    requires |pivot| == |row| && k < |row| && pivot[k] == 1.0
    ensures EliminateRow(row, pivot, k) == SubScaled(row, pivot, row[k])
  {
    var s := SubScaled(row, pivot, row[k]);
    assert s[k] + row[k] * pivot[k] == row[k];
    if row[k] == 0.0 {
      forall j | 0 <= j < |row| ensures s[j] == row[j] {
        assert s[j] + 0.0 * pivot[j] == row[j];
      }
    } else {
      assert s[k := 0.0] == s;
    }
  }

  /** Every row i of [lo, hi) other than the pivot row k, eliminated against the
      pivot row as it stands; every other row as it was. Built one row at a time from
      the top of the range down; each new row depends only on its old value and on
      the pivot row, so the order does not matter (EliminatedRowsAt). */
  function EliminatedRows(a: Mat, k: nat, lo: int, hi: int): (r: Mat)
    requires Augmented(a) && k < |a|
    ensures |r| == |a| && Augmented(r)
    ensures r[k] == a[k]
    ensures forall i {:trigger r[i]} :: 0 <= i < |a| && !(lo <= i < hi) ==> r[i] == a[i]
    ensures forall i {:trigger r[i]} :: 0 <= i < |a| && lo <= i < hi && i != k ==> r[i][k] == 0.0
    decreases hi - lo
  {
    if hi <= lo then a
    else
      var b := EliminatedRows(a, k, lo, hi - 1);
      if 0 <= hi - 1 < |a| && hi - 1 != k then b[hi - 1 := EliminateRow(a[hi - 1], a[k], k)] else b
  }

  /** Row i of the sweep over [lo, hi). */
  lemma {:induction false} EliminatedRowsAt(a: Mat, k: nat, lo: int, hi: int, i: int)
    requires Augmented(a) && k < |a| && 0 <= i < |a|
    ensures EliminatedRows(a, k, lo, hi)[i]
         == if lo <= i < hi && i != k then EliminateRow(a[i], a[k], k) else a[i]
    decreases hi - lo
  {
    if lo < hi && i < hi - 1 {
      EliminatedRowsAt(a, k, lo, hi - 1, i);
    }
  }

  /** An empty range changes nothing. */
  lemma EliminatedRowsEmpty(a: Mat, k: nat, lo: int, hi: int)
    requires Augmented(a) && k < |a| && hi <= lo
    ensures EliminatedRows(a, k, lo, hi) == a
  {
  }

  /** Extending the range by one row applies that row's step, or nothing for the
      pivot row. */
  lemma EliminatedRowsStep(a: Mat, k: nat, lo: int, i: int)
    requires Augmented(a) && k < |a| && 0 <= lo <= i < |a|
    ensures EliminatedRows(a, k, lo, i + 1)
         == if i == k then EliminatedRows(a, k, lo, i)
            else EliminatedRows(a, k, lo, i)[i := EliminateRow(a[i], a[k], k)]
  {
  }

  /** Eliminating [lo, mid) and then [mid, hi) is eliminating [lo, hi): the first
      range never writes the pivot row nor any row of the second. */
  lemma EliminatedRowsSplit(a: Mat, k: nat, lo: int, mid: int, hi: int)
    requires Augmented(a) && k < |a| && lo <= mid <= hi
    ensures EliminatedRows(EliminatedRows(a, k, lo, mid), k, mid, hi) == EliminatedRows(a, k, lo, hi)
  {
    var b := EliminatedRows(a, k, lo, mid);
    var c := EliminatedRows(b, k, mid, hi);
    var d := EliminatedRows(a, k, lo, hi);
    forall i | 0 <= i < |a| ensures c[i] == d[i] {
      EliminatedRowsAt(a, k, lo, mid, i);
      EliminatedRowsAt(b, k, mid, hi, i);
      EliminatedRowsAt(a, k, lo, hi, i);
    }
  }

  /** Two disjoint ranges give the same matrix in either order. */
  lemma EliminatedRowsCommute(a: Mat, k: nat, lo1: int, hi1: int, lo2: int, hi2: int)
    requires Augmented(a) && k < |a|
    requires hi1 <= lo2 || hi2 <= lo1
    ensures EliminatedRows(EliminatedRows(a, k, lo1, hi1), k, lo2, hi2)
         == EliminatedRows(EliminatedRows(a, k, lo2, hi2), k, lo1, hi1)
  {
    var b1 := EliminatedRows(a, k, lo1, hi1);
    var b2 := EliminatedRows(a, k, lo2, hi2);
    var c1 := EliminatedRows(b1, k, lo2, hi2);
    var c2 := EliminatedRows(b2, k, lo1, hi1);
    forall i | 0 <= i < |a| ensures c1[i] == c2[i] {
      EliminatedRowsAt(a, k, lo1, hi1, i);
      EliminatedRowsAt(a, k, lo2, hi2, i);
      EliminatedRowsAt(b1, k, lo2, hi2, i);
      EliminatedRowsAt(b2, k, lo1, hi1, i);
    }
  }

  /** u with its first c elements taken from v: a sequence half-way through an
      element-by-element rewrite of u into v. */
  function Spliced<T>(u: seq<T>, v: seq<T>, c: nat): (w: seq<T>)
    requires |u| == |v|
    ensures |w| == |u|
  {
    seq(|u|, j requires 0 <= j < |u| => if j < c then v[j] else u[j])
  }

  lemma SplicedEnds<T>(u: seq<T>, v: seq<T>)
    requires |u| == |v|
    ensures Spliced(u, v, 0) == u && Spliced(u, v, |u|) == v
  {
  }

  /** Rewriting element c moves the splice point one element on. */
  lemma SplicedStep<T>(u: seq<T>, v: seq<T>, c: nat)
    requires |u| == |v| && c < |u|
    ensures Spliced(u, v, c)[c := v[c]] == Spliced(u, v, c + 1)
  {
  }

  /** Columns 0..m-1 of the first |a| rows hold the identity. */
  predicate UnitColumns(a: Mat, m: nat)
    requires Augmented(a) && m <= |a|
  {
    forall i, j :: 0 <= i < |a| && 0 <= j < m ==> a[i][j] == if i == j then 1.0 else 0.0
  }
}
