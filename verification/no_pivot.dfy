/** Gauss-Jordan elimination without pivoting on a vector-of-rows augmented
    matrix: pass i divides row i by its diagonal entry and subtracts multiples of
    it from every other row. Rows are never exchanged and no entry is forced to
    zero. */
module NoPivot {
  import opened RowOps
  import opened LinearSystem
  import opened GaussJordan

  /** The first half of pass i: row i divided by its own diagonal entry. */
  function PivotScaled(a: Mat, i: nat): (r: Mat)
    requires Augmented(a) && i < |a| && a[i][i] != 0.0
    ensures |r| == |a| && Augmented(r) && r[i][i] == 1.0
    ensures forall k {:trigger r[k]} :: 0 <= k < |a| && k != i ==> r[k] == a[k]
  {
    ScaleByOwnEntry(a[i], i);
    a[i := Scale(a[i], a[i][i])]
  }

  /** The second half of pass i: every row k other than i loses its own entry in
      column i times row i, and row i stays as it is. */
  function ClearedColumn(b: Mat, i: nat): (r: Mat)
    requires Augmented(b) && i < |b|
    ensures |r| == |b| && Augmented(r)
  {
    seq(|b|, k requires 0 <= k < |b| => if k == i then b[i] else SubScaled(b[k], b[i], b[k][i]))
  }

  /** Pass i: scale row i, then clear column i from the other rows. */
  function NoPivotPass(a: Mat, i: nat): (r: Mat)
    requires Augmented(a) && i < |a| && a[i][i] != 0.0
    ensures |r| == |a| && Augmented(r)
  {
    ClearedColumn(PivotScaled(a, i), i)
  }

  /** Every pass from i on meets a non-zero diagonal entry: the division at the
      start of the pass is then defined. */
  predicate NonzeroPivots(a: Mat, i: nat)
    requires Augmented(a) && i <= |a|
    decreases |a| - i
  {
    i == |a| || (a[i][i] != 0.0 && NonzeroPivots(NoPivotPass(a, i), i + 1))
  }

  /** Passes i, i+1, ..., n-1 in turn. */
  function NoPivotFrom(a: Mat, i: nat): (r: Mat)
    requires Augmented(a) && i <= |a| && NonzeroPivots(a, i)
    ensures |r| == |a| && Augmented(r)
    decreases |a| - i
  {
    if i == |a| then a else NoPivotFrom(NoPivotPass(a, i), i + 1)
  }

  /** Without the forced zero the pass is still the elimination sweep of the
      pivoting variants: with a pivot entry of 1, subtracting a[k][i] times the
      pivot row already leaves 0 in column i. */
  lemma NoPivotPassIsSweep(a: Mat, i: nat)
    requires Augmented(a) && i < |a| && a[i][i] != 0.0
    ensures NoPivotPass(a, i) == EliminatedRows(PivotScaled(a, i), i, 0, |a|)
  {
    var b := PivotScaled(a, i);
    var r := NoPivotPass(a, i);
    var e := EliminatedRows(b, i, 0, |a|);
    forall k | 0 <= k < |a| ensures r[k] == e[k] {
      EliminatedRowsAt(b, i, 0, |a|, k);
      if k != i {
        ForcedZeroIsExact(b[k], b[i], i);
      }
    }
  }

  /** After pass i, column i holds 1 in row i and exactly 0 in every other row,
      and row i is row i of the input divided by its diagonal entry. */
  lemma NoPivotPassColumn(a: Mat, i: nat)
    requires Augmented(a) && i < |a| && a[i][i] != 0.0
    ensures var r := NoPivotPass(a, i);
      r[i] == Scale(a[i], a[i][i]) && r[i][i] == 1.0 &&
      forall k :: 0 <= k < |a| && k != i ==> r[k][i] == 0.0
  {
    var b := PivotScaled(a, i);
    var r := NoPivotPass(a, i);
    forall k | 0 <= k < |a| && k != i ensures r[k][i] == 0.0 {
      var f := b[k][i];
      assert r[k] == SubScaled(b[k], b[i], f);
      assert r[k][i] + f * b[i][i] == b[k][i];
    }
  }

  /** Rows stay where they are: row k after pass i depends only on row k and row
      i before it. */
  lemma NoPivotPassInPlace(a: Mat, a2: Mat, i: nat, k: nat)
    requires Augmented(a) && Augmented(a2) && |a| == |a2| && i < |a| && k < |a|
    requires a[i] == a2[i] && a[k] == a2[k] && a[i][i] != 0.0
    ensures NoPivotPass(a, i)[k] == NoPivotPass(a2, i)[k]
  {
    var b := PivotScaled(a, i);
    var b2 := PivotScaled(a2, i);
    assert b[i] == b2[i];
    if k != i {
      assert b[k] == b2[k];
    }
  }

  /** Columns cleared by earlier passes stay cleared: row i is 0 there, so
      subtracting multiples of it changes nothing, and pass i adds column i. */
  lemma NoPivotPassExtendsUnit(a: Mat, i: nat)
    requires Augmented(a) && i < |a| && a[i][i] != 0.0
    ensures UnitColumns(a, i) ==> UnitColumns(NoPivotPass(a, i), i + 1)
  {
    if UnitColumns(a, i) {
      var b := PivotScaled(a, i);
      var r := NoPivotPass(a, i);
      forall j | 0 <= j < i ensures b[i][j] == 0.0 {
        ScaleKeepsZero(a[i], a[i][i], j);
      }
      NoPivotPassColumn(a, i);
      forall k, j | 0 <= k < |a| && 0 <= j <= i
        ensures r[k][j] == if k == j then 1.0 else 0.0
      {
        if k != i && j < i {
          assert r[k] == SubScaled(b[k], b[i], b[k][i]);
          assert r[k][j] + b[k][i] * b[i][j] == b[k][j];
        }
      }
    }
  }

  /** No pass changes the solutions of the system. */
  lemma NoPivotPassSolves(a: Mat, i: nat, x: seq<real>)
    requires Augmented(a) && i < |a| && a[i][i] != 0.0 && |x| == |a|
    ensures Solves(NoPivotPass(a, i), x) <==> Solves(a, x)
  {
    ScaleSolves(a, i, a[i][i], x);
    NoPivotPassIsSweep(a, i);
    EliminatedSolves(PivotScaled(a, i), i, 0, |a|, x);
  }

  /** Where the partial-pivot scan would keep row i in place, the pass without
      pivoting is the pivoting pass. */
  lemma NoPivotAgreesWithPass(a: Mat, i: nat)
    requires Augmented(a) && i < |a| && HasPivot(a, i) && PivotRow(a, i, |a|) == i
    ensures a[i][i] != 0.0 && NoPivotPass(a, i) == Pass(a, i)
  {
    assert Abs(a[i][i]) >= Eps;
    assert Prepared(a, i) == PivotScaled(a, i);
    NoPivotPassIsSweep(a, i);
  }

  lemma {:induction false} NoPivotFromUnit(a: Mat, i: nat)
    requires Augmented(a) && i <= |a| && NonzeroPivots(a, i) && UnitColumns(a, i)
    ensures UnitColumns(NoPivotFrom(a, i), |a|)
    decreases |a| - i
  {
    if i < |a| {
      NoPivotPassExtendsUnit(a, i);
      NoPivotFromUnit(NoPivotPass(a, i), i + 1);
    }
  }

  lemma {:induction false} NoPivotFromSolves(a: Mat, i: nat, x: seq<real>)
    requires Augmented(a) && i <= |a| && NonzeroPivots(a, i) && |x| == |a|
    ensures Solves(NoPivotFrom(a, i), x) <==> Solves(a, x)
    decreases |a| - i
  {
    if i < |a| {
      NoPivotPassSolves(a, i, x);
      NoPivotFromSolves(NoPivotPass(a, i), i + 1, x);
    }
  }

  /** When every pass meets a non-zero diagonal entry, the run ends with the
      identity in columns 0..n-1 and its last column is the one and only solution
      of the system. */
  lemma NoPivotCorrect(a: Mat, x: seq<real>)
    requires Augmented(a) && NonzeroPivots(a, 0) && |x| == |a|
    ensures UnitColumns(NoPivotFrom(a, 0), |a|)
    ensures Solves(a, x) <==> x == LastColumn(NoPivotFrom(a, 0))
  {
    NoPivotFromUnit(a, 0);
    NoPivotFromSolves(a, 0, x);
    IdentitySolutionUnique(NoPivotFrom(a, 0), x);
  }

  /** An n x (n+1) augmented matrix held as a vector of rows. */
  class Matrix {
    const n: int
    var data: Mat

    ghost predicate Valid()
      reads this
    {
      n >= 0 && |data| == n && Augmented(data)
    }

    /** n rows of n + 1 zeros. */
    constructor (size: int)
      requires size >= 0
      ensures Valid() && n == size
      ensures forall i, j :: 0 <= i < n && 0 <= j <= n ==> data[i][j] == 0.0
    {
      n := size;
      data := seq(size, i => seq(size + 1, j => 0.0));
    }

    /** Every entry of row i divided by pivot, read once before the loop. */
    method DivideRow(i: int, pivot: real)
      requires Valid() && 0 <= i < n && pivot != 0.0
      modifies this
      ensures Valid() && data == old(data)[i := Scale(old(data)[i], pivot)]
    {
      ghost var a := data;
      ghost var scaled := Scale(a[i], pivot);
      SplicedEnds(a[i], scaled);
      assert a[i := a[i]] == a;
      var j := 0;
      while j <= n
        invariant 0 <= j <= n + 1
        invariant data == a[i := Spliced(a[i], scaled, j)]
      {
        assert scaled[j] == a[i][j] / pivot;
        SplicedStep(a[i], scaled, j);
        data := data[i := data[i][j := data[i][j] / pivot]];
        j := j + 1;
      }
    }

    /** Row k minus factor times row i over all n + 1 columns. */
    method SubtractRow(k: int, i: int, factor: real)
      requires Valid() && 0 <= k < n && 0 <= i < n && k != i
      modifies this
      ensures Valid() && data == old(data)[k := SubScaled(old(data)[k], old(data)[i], factor)]
    {
      ghost var a := data;
      ghost var target := SubScaled(a[k], a[i], factor);
      SplicedEnds(a[k], target);
      assert a[k := a[k]] == a;
      var j := 0;
      while j <= n
        invariant 0 <= j <= n + 1
        invariant data == a[k := Spliced(a[k], target, j)]
      {
        var v := data[k][j] - factor * data[i][j];
        assert v == target[j] by {
          assert data[i] == a[i] && data[k][j] == a[k][j];
        }
        SplicedStep(a[k], target, j);
        data := data[k := data[k][j := v]];
        j := j + 1;
      }
    }

    /** The second half of pass i: every row k other than i loses its own entry in
        column i times row i. */
    method ClearColumn(i: int)
      requires Valid() && 0 <= i < n
      modifies this
      ensures Valid() && data == ClearedColumn(old(data), i)
    {
      ghost var b := data;
      ghost var r := ClearedColumn(b, i);
      SplicedEnds(b, r);
      var k := 0;
      while k < n
        invariant 0 <= k <= n && Valid()
        invariant data == Spliced(b, r, k)
      {
        if k != i {
          var factor := data[k][i];
          SubtractRow(k, i, factor);
          assert data == Spliced(b, r, k)[k := r[k]];
        } else {
          assert data == Spliced(b, r, k)[k := r[k]];
        }
        SplicedStep(b, r, k);
        k := k + 1;
      }
    }

    /** One pass per row i: divide row i by its diagonal entry, then clear column
        i from every other row. The diagonal entry is never checked, so each pass
        needs it to be non-zero. */
    method GaussJordanElimination()
      requires Valid() && NonzeroPivots(data, 0)
      modifies this
      ensures Valid() && data == NoPivotFrom(old(data), 0)
    {
      var i := 0;
      while i < n
        invariant 0 <= i <= n && Valid()
        invariant NonzeroPivots(data, i)
        invariant NoPivotFrom(data, i) == NoPivotFrom(old(data), 0)
      {
        ghost var a := data;
        var pivot := data[i][i];
        DivideRow(i, pivot);
        assert data == PivotScaled(a, i);
        ClearColumn(i);
        i := i + 1;
      }
    }
  }
}
