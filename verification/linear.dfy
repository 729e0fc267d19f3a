/** The linear system an augmented matrix stands for, its residual, and the fact
    that the row operations of elimination keep its solutions. */
module LinearSystem {
  import opened RowOps

  /** row[0] * x[0] + ... + row[len-1] * x[len-1], accumulated left to right. */
  function Dot(row: Row, x: seq<real>, len: nat): real
    requires len <= |row| && len <= |x|
  {
    if len == 0 then 0.0 else Dot(row, x, len - 1) + row[len - 1] * x[len - 1]
  }

  /** (sum_j row[j] * x[j]) - row[n] for a row [a_0 .. a_{n-1} | b] and n = |x|. */
  function RowResidual(row: Row, x: seq<real>): real
    requires |row| == |x| + 1
  {
    Dot(row, x, |x|) - row[|x|]
  }

  /** x solves equations 0..m-1 of a. */
  predicate SolvesRows(a: Mat, x: seq<real>, m: nat)
    requires Augmented(a) && |x| == |a| && m <= |a|
  {
    m == 0 || (SolvesRows(a, x, m - 1) && RowResidual(a[m - 1], x) == 0.0)
  }

  /** x solves every equation of a. */
  predicate Solves(a: Mat, x: seq<real>)
    requires Augmented(a) && |x| == |a|
  {
    SolvesRows(a, x, |a|)
  }

  lemma {:induction false} SolvesRowsAll(a: Mat, x: seq<real>, m: nat)
    requires Augmented(a) && |x| == |a| && m <= |a|
    ensures SolvesRows(a, x, m) <==> forall i :: 0 <= i < m ==> RowResidual(a[i], x) == 0.0
  {
    if m > 0 {
      SolvesRowsAll(a, x, m - 1);
    }
  }

  /** Solves, equation by equation. */
  lemma SolvesAll(a: Mat, x: seq<real>)
    requires Augmented(a) && |x| == |a|
    ensures Solves(a, x) <==> forall i :: 0 <= i < |a| ==> RowResidual(a[i], x) == 0.0
  {
    SolvesRowsAll(a, x, |a|);
  }

  /** The sum over the first m rows of the squared residuals, accumulated row by row. */
  function SumSq(a: Mat, x: seq<real>, m: nat): (s: real)
    requires Augmented(a) && |x| == |a| && m <= |a|
    ensures s >= 0.0
  {
    if m == 0 then 0.0
    else
      var r := RowResidual(a[m - 1], x);
      SumSq(a, x, m - 1) + r * r
  }

  /** Column n of an n x (n+1) matrix: where elimination leaves the solution. */
  function LastColumn(a: Mat): (x: seq<real>)
    requires Augmented(a)
    ensures |x| == |a| && forall i :: 0 <= i < |a| ==> x[i] == a[i][|a|]
  {
    seq(|a|, i requires 0 <= i < |a| => a[i][|a|])
  }

  /** A product of reals is zero only when a factor is. */
  lemma ProductZero(u: real, v: real)
    requires u * v == 0.0
    ensures u == 0.0 || v == 0.0
  {
    if u != 0.0 {
      assert v == (u * v) / u;
    }
  }

  lemma {:induction false} SumSqZeroPrefix(a: Mat, x: seq<real>, m: nat)
    requires Augmented(a) && |x| == |a| && m <= |a|
    ensures SumSq(a, x, m) == 0.0 <==> forall i :: 0 <= i < m ==> RowResidual(a[i], x) == 0.0
  {
    if m > 0 {
      SumSqZeroPrefix(a, x, m - 1);
      var r := RowResidual(a[m - 1], x);
      assert SumSq(a, x, m) == SumSq(a, x, m - 1) + r * r;
      assert r * r >= 0.0;
      if SumSq(a, x, m) == 0.0 {
        ProductZero(r, r);
      }
    }
  }

  /** The sum of squared residuals is zero exactly when x solves the system. */
  lemma SumSqZeroIff(a: Mat, x: seq<real>)
    requires Augmented(a) && |x| == |a|
    ensures SumSq(a, x, |a|) == 0.0 <==> Solves(a, x)
  {
    SumSqZeroPrefix(a, x, |a|);
    SolvesAll(a, x);
  }

  /** The ring identity behind one step of DotSubScaled. */
  lemma SubScaledTerm(dr: real, ds: real, r: real, s: real, f: real, x: real)
    ensures (dr - f * ds) + (r - f * s) * x == (dr + r * x) - f * (ds + s * x)
  {
  }

  lemma {:induction false} DotSubScaled(row: Row, src: Row, f: real, x: seq<real>, len: nat)
    requires |src| == |row| && len <= |row| && len <= |x|
    ensures Dot(SubScaled(row, src, f), x, len) == Dot(row, x, len) - f * Dot(src, x, len)
  {
    if len > 0 {
      DotSubScaled(row, src, f, x, len - 1);
      var s := SubScaled(row, src, f);
      assert s[len - 1] == row[len - 1] - f * src[len - 1];
      SubScaledTerm(Dot(row, x, len - 1), Dot(src, x, len - 1), row[len - 1], src[len - 1], f, x[len - 1]);
    }
  }

  lemma {:induction false} DotScale(row: Row, d: real, x: seq<real>, len: nat)
    requires d != 0.0 && len <= |row| && len <= |x|
    ensures Dot(Scale(row, d), x, len) * d == Dot(row, x, len)
  {
    if len > 0 {
      DotScale(row, d, x, len - 1);
      var s := Scale(row, d);
      assert s[len - 1] * d == row[len - 1];
      calc {
        Dot(s, x, len) * d;
        (Dot(s, x, len - 1) + s[len - 1] * x[len - 1]) * d;
        Dot(s, x, len - 1) * d + (s[len - 1] * d) * x[len - 1];
      }
    }
  }

  /** Subtracting f times a row subtracts f times its residual. */
  lemma ResidualSubScaled(row: Row, src: Row, f: real, x: seq<real>)
    requires |src| == |row| == |x| + 1
    ensures RowResidual(SubScaled(row, src, f), x) == RowResidual(row, x) - f * RowResidual(src, x)
  {
    DotSubScaled(row, src, f, x, |x|);
  }

  /** Dividing a row by d divides its residual by d. */
  lemma ResidualScale(row: Row, d: real, x: seq<real>)
    requires d != 0.0 && |row| == |x| + 1
    ensures RowResidual(Scale(row, d), x) * d == RowResidual(row, x)
  {
    DotScale(row, d, x, |x|);
  }

  /** A row that is the unit vector e_i on its first len entries picks out x[i]. */
  lemma {:induction false} DotUnit(row: Row, i: nat, x: seq<real>, len: nat)
    requires len <= |row| && len <= |x|
    requires forall j :: 0 <= j < len ==> row[j] == if j == i then 1.0 else 0.0
    ensures Dot(row, x, len) == if i < len then x[i] else 0.0
  {
    if len > 0 {
      DotUnit(row, i, x, len - 1);
    }
  }

  /** Once columns 0..n-1 hold the identity, column n is the only solution. */
  lemma IdentitySolutionUnique(a: Mat, x: seq<real>)
    requires Augmented(a) && UnitColumns(a, |a|) && |x| == |a|
    ensures Solves(a, x) <==> x == LastColumn(a)
  {
    forall i | 0 <= i < |a| ensures RowResidual(a[i], x) == x[i] - a[i][|a|] {
      DotUnit(a[i], i, x, |a|);
    }
    SolvesAll(a, x);
    if Solves(a, x) {
      assert forall i :: 0 <= i < |a| ==> x[i] == LastColumn(a)[i];
    }
  }

  /** A row divided by its own entry k has 1 there. */
  lemma ScaleByOwnEntry(row: Row, k: nat)
    requires k < |row| && row[k] != 0.0
    ensures Scale(row, row[k])[k] == 1.0
  {
    var d := row[k];
    var e := Scale(row, d)[k];
    assert e * d == d;
    assert (e - 1.0) * d == 0.0;
    ProductZero(e - 1.0, d);
  }

  /** Dividing a row by d keeps its zero entries zero. */
  lemma ScaleKeepsZero(row: Row, d: real, j: nat)
    requires d != 0.0 && j < |row| && row[j] == 0.0
    ensures Scale(row, d)[j] == 0.0
  {
    ProductZero(Scale(row, d)[j], d);
  }

  /** Reordering two equations does not change the solutions. */
  lemma SwapSolves(a: Mat, i: nat, j: nat, x: seq<real>)
    requires Augmented(a) && i < |a| && j < |a| && |x| == |a|
    ensures Augmented(Swap(a, i, j))
    ensures Solves(Swap(a, i, j), x) <==> Solves(a, x)
  {
    var b := Swap(a, i, j);
    SolvesAll(a, x);
    SolvesAll(b, x);
    if Solves(b, x) {
      forall t | 0 <= t < |a| ensures RowResidual(a[t], x) == 0.0 {
        if t == i {
          assert a[i] == b[j];
        } else if t == j {
          assert a[j] == b[i];
        } else {
          assert a[t] == b[t];
        }
      }
    }
    if Solves(a, x) {
      forall t | 0 <= t < |a| ensures RowResidual(b[t], x) == 0.0 {
        if t == i {
          assert b[i] == a[j];
        } else if t == j {
          assert b[j] == a[i];
        } else {
          assert b[t] == a[t];
        }
      }
    }
  }

  /** Dividing one equation by a non-zero number does not change the solutions. */
  lemma ScaleSolves(a: Mat, k: nat, d: real, x: seq<real>)
    requires Augmented(a) && k < |a| && d != 0.0 && |x| == |a|
    ensures Augmented(a[k := Scale(a[k], d)])
    ensures Solves(a[k := Scale(a[k], d)], x) <==> Solves(a, x)
  {
    var b := a[k := Scale(a[k], d)];
    SolvesAll(a, x);
    SolvesAll(b, x);
    ResidualScale(a[k], d, x);
    assert RowResidual(b[k], x) == 0.0 <==> RowResidual(a[k], x) == 0.0;
    if Solves(b, x) {
      forall t | 0 <= t < |a| ensures RowResidual(a[t], x) == 0.0 {
        if t != k {
          assert a[t] == b[t];
        }
      }
    }
    if Solves(a, x) {
      forall t | 0 <= t < |a| ensures RowResidual(b[t], x) == 0.0 {
        if t != k {
          assert a[t] == b[t];
        }
      }
    }
  }

  /** With the pivot entry equal to 1, eliminating row t against the pivot row
      subtracts a[t][k] times the pivot row's residual from row t's residual. */
  lemma EliminatedResidual(a: Mat, k: nat, lo: int, hi: int, x: seq<real>, t: nat)
    requires Augmented(a) && k < |a| && a[k][k] == 1.0 && |x| == |a| && t < |a|
    ensures RowResidual(EliminatedRows(a, k, lo, hi)[t], x)
         == if lo <= t < hi && t != k then RowResidual(a[t], x) - a[t][k] * RowResidual(a[k], x)
            else RowResidual(a[t], x)
  {
    EliminatedRowsAt(a, k, lo, hi, t);
    if lo <= t < hi && t != k {
      ForcedZeroIsExact(a[t], a[k], k);
      ResidualSubScaled(a[t], a[k], a[t][k], x);
    }
  }

  /** With the pivot entry equal to 1, eliminating any range of rows against the
      pivot row does not change the solutions. */
  lemma EliminatedSolves(a: Mat, k: nat, lo: int, hi: int, x: seq<real>)
    requires Augmented(a) && k < |a| && a[k][k] == 1.0 && |x| == |a|
    ensures Solves(EliminatedRows(a, k, lo, hi), x) <==> Solves(a, x)
  {
    var b := EliminatedRows(a, k, lo, hi);
    SolvesAll(a, x);
    SolvesAll(b, x);
    forall t | 0 <= t < |a|
      ensures RowResidual(b[t], x)
           == if lo <= t < hi && t != k then RowResidual(a[t], x) - a[t][k] * RowResidual(a[k], x)
              else RowResidual(a[t], x)
    {
      EliminatedResidual(a, k, lo, hi, x, t);
    }
  }
}
