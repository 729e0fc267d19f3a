/** Contiguous row ranges handed to the elimination workers of one pass, and the
    facts that make running them one after another the same as one sweep. */
module Chunks {
  import opened RowOps

  /** The half-open row range [lo, hi) of one worker. */
  datatype Chunk = Chunk(lo: int, hi: int)

  predicate Contains(c: Chunk, i: int) {
    c.lo <= i < c.hi
  }

  /** cs lists consecutive ranges that start at lo and end at hi, each possibly empty. */
  ghost predicate Tiles(cs: seq<Chunk>, lo: int, hi: int) {
    (|cs| == 0 ==> lo == hi) &&
    (|cs| > 0 ==> cs[0].lo == lo && cs[|cs| - 1].hi == hi) &&
    (forall t :: 0 <= t < |cs| ==> cs[t].lo <= cs[t].hi) &&
    (forall s :: 0 <= s < |cs| - 1 ==> cs[s].hi == cs[s + 1].lo)
  }

  /** Dropping the first range leaves a tiling of the rest. */
  lemma TilesTail(cs: seq<Chunk>, lo: int, hi: int)
    requires Tiles(cs, lo, hi) && |cs| > 0
    ensures Tiles(cs[1..], cs[0].hi, hi)
  {
    if |cs| > 1 {
      assert cs[1..][0] == cs[1];
    }
  }

  /** Appending a range that starts where the tiling ends extends it. */
  lemma TilesAppend(cs: seq<Chunk>, lo: int, mid: int, c: Chunk)
    requires Tiles(cs, lo, mid) && c.lo == mid <= c.hi
    ensures Tiles(cs + [c], lo, c.hi)
  {
  }

  /** Earlier ranges end no later than later ranges start. */
  lemma {:induction false} TilesOrdered(cs: seq<Chunk>, lo: int, hi: int, s: nat, t: nat)
    requires Tiles(cs, lo, hi) && s < t < |cs|
    ensures cs[s].hi <= cs[t].lo
    decreases t - s
  {
    if s + 1 < t {
      TilesOrdered(cs, lo, hi, s + 1, t);
    }
  }

  /** Every range lies inside [lo, hi). */
  lemma TilesWithin(cs: seq<Chunk>, lo: int, hi: int, t: nat)
    requires Tiles(cs, lo, hi) && t < |cs|
    ensures lo <= cs[t].lo <= cs[t].hi <= hi
  {
    if t > 0 {
      TilesOrdered(cs, lo, hi, 0, t);
    }
    if t < |cs| - 1 {
      TilesOrdered(cs, lo, hi, t, |cs| - 1);
    }
  }

  /** Two different ranges share no row. */
  lemma TilesDisjoint(cs: seq<Chunk>, lo: int, hi: int, s: nat, t: nat, i: int)
    requires Tiles(cs, lo, hi) && s < |cs| && t < |cs| && s != t
    ensures !(Contains(cs[s], i) && Contains(cs[t], i))
  {
    if s < t {
      TilesOrdered(cs, lo, hi, s, t);
    } else {
      TilesOrdered(cs, lo, hi, t, s);
    }
  }

  /** Every row of [lo, hi) lies in some range, and no row outside it does. */
  lemma {:induction false} TilesCover(cs: seq<Chunk>, lo: int, hi: int, i: int)
    requires Tiles(cs, lo, hi)
    ensures (exists t :: 0 <= t < |cs| && Contains(cs[t], i)) <==> lo <= i < hi
  {
    if exists t :: 0 <= t < |cs| && Contains(cs[t], i) {
      var t :| 0 <= t < |cs| && Contains(cs[t], i);
      TilesWithin(cs, lo, hi, t);
    }
    if lo <= i < hi && |cs| > 0 {
      if Contains(cs[0], i) {
      } else {
        TilesTail(cs, lo, hi);
        TilesCover(cs[1..], cs[0].hi, hi, i);
        var t :| 0 <= t < |cs| - 1 && Contains(cs[1..][t], i);
        assert Contains(cs[t + 1], i);
      }
    }
  }

  /** The pass's elimination applied range by range, in list order. */
  function ChunkedElimination(a: Mat, k: nat, cs: seq<Chunk>): (r: Mat)
    requires Augmented(a) && k < |a|
    ensures |r| == |a| && Augmented(r) && r[k] == a[k]
    decreases |cs|
  {
    if |cs| == 0 then a
    else ChunkedElimination(EliminatedRows(a, k, cs[0].lo, cs[0].hi), k, cs[1..])
  }

  /** Running the ranges of a tiling one after another is the single sweep over the
      whole span: the pivot row is never written and no row is visited twice. */
  lemma {:induction false} ChunkedIsSweep(a: Mat, k: nat, cs: seq<Chunk>, lo: int, hi: int)
    requires Augmented(a) && k < |a| && 0 <= lo && Tiles(cs, lo, hi)
    ensures ChunkedElimination(EliminatedRows(a, k, 0, lo), k, cs) == EliminatedRows(a, k, 0, hi)
    decreases |cs|
  {
    if |cs| > 0 {
      TilesWithin(cs, lo, hi, 0);
      EliminatedRowsSplit(a, k, 0, lo, cs[0].hi);
      TilesTail(cs, lo, hi);
      ChunkedIsSweep(a, k, cs[1..], cs[0].hi, hi);
    }
  }

  /** A tiling of [0, n) eliminates exactly the rows of the full sweep. */
  lemma ChunkedIsFullSweep(a: Mat, k: nat, cs: seq<Chunk>)
    requires Augmented(a) && k < |a| && Tiles(cs, 0, |a|)
    ensures ChunkedElimination(a, k, cs) == EliminatedRows(a, k, 0, |a|)
  {
    EliminatedRowsEmpty(a, k, 0, 0);
    ChunkedIsSweep(a, k, cs, 0, |a|);
  }

  /** Ranges c and d share no row; an empty range shares none with any range. */
  predicate Apart(c: Chunk, d: Chunk) {
    c.hi <= d.lo || d.hi <= c.lo || c.hi <= c.lo || d.hi <= d.lo
  }

  /** No row lies in two ranges of cs. */
  predicate PairwiseApart(cs: seq<Chunk>) {
    forall s, t :: 0 <= s < t < |cs| ==> Apart(cs[s], cs[t])
  }

  /** Some range of cs holds row i. */
  predicate Covered(cs: seq<Chunk>, i: int) {
    exists t :: 0 <= t < |cs| && Contains(cs[t], i)
  }

  /** The ranges of a tiling share no row. */
  lemma TilesApart(cs: seq<Chunk>, lo: int, hi: int)
    requires Tiles(cs, lo, hi)
    ensures PairwiseApart(cs)
  {
    forall s, t | 0 <= s < t < |cs| ensures Apart(cs[s], cs[t]) {
      TilesOrdered(cs, lo, hi, s, t);
    }
  }

  /** Row i after ranges that share no row have run, in whatever order they are
      listed: eliminated once when a range holds it and it is not the pivot row,
      untouched otherwise. */
  lemma {:induction false} ChunkedRowAt(a: Mat, k: nat, cs: seq<Chunk>, i: int)
    requires Augmented(a) && k < |a| && PairwiseApart(cs) && 0 <= i < |a|
    ensures ChunkedElimination(a, k, cs)[i]
         == if Covered(cs, i) && i != k then EliminateRow(a[i], a[k], k) else a[i]
    decreases |cs|
  {
    if |cs| > 0 {
      var b := EliminatedRows(a, k, cs[0].lo, cs[0].hi);
      var rest := cs[1..];
      EliminatedRowsAt(a, k, cs[0].lo, cs[0].hi, i);
      assert PairwiseApart(rest) by {
        forall s, t | 0 <= s < t < |rest| ensures Apart(rest[s], rest[t]) {
          assert rest[s] == cs[s + 1] && rest[t] == cs[t + 1];
        }
      }
      ChunkedRowAt(b, k, rest, i);
      if Contains(cs[0], i) {
        forall t | 0 <= t < |rest| ensures !Contains(rest[t], i) {
          assert rest[t] == cs[t + 1];
          assert Apart(cs[0], cs[t + 1]);
        }
      } else {
        assert Covered(rest, i) <==> Covered(cs, i) by {
          if Covered(cs, i) {
            var t :| 0 <= t < |cs| && Contains(cs[t], i);
            assert rest[t - 1] == cs[t];
          }
          if Covered(rest, i) {
            var t :| 0 <= t < |rest| && Contains(rest[t], i);
            assert rest[t] == cs[t + 1];
          }
        }
      }
    }
  }

  /** Two orderings of the same ranges, neither with a row in two ranges, give the
      same matrix: the order in which the workers run does not matter. */
  lemma ChunkedAnyOrder(a: Mat, k: nat, cs: seq<Chunk>, ds: seq<Chunk>)
    requires Augmented(a) && k < |a| && PairwiseApart(cs) && PairwiseApart(ds)
    requires forall c :: c in cs <==> c in ds
    ensures ChunkedElimination(a, k, cs) == ChunkedElimination(a, k, ds)
  {
    var r := ChunkedElimination(a, k, cs);
    var q := ChunkedElimination(a, k, ds);
    forall i | 0 <= i < |a| ensures r[i] == q[i] {
      ChunkedRowAt(a, k, cs, i);
      ChunkedRowAt(a, k, ds, i);
      assert Covered(cs, i) <==> Covered(ds, i) by {
        if Covered(cs, i) {
          var t :| 0 <= t < |cs| && Contains(cs[t], i);
          assert cs[t] in ds;
          var u :| 0 <= u < |ds| && ds[u] == cs[t];
        }
        if Covered(ds, i) {
          var t :| 0 <= t < |ds| && Contains(ds[t], i);
          assert ds[t] in cs;
          var u :| 0 <= u < |cs| && cs[u] == ds[t];
        }
      }
    }
  }

  /** The ranges of a tiling of [0, n), run in any order, eliminate exactly the rows
      of the full sweep. */
  lemma ReorderedTilingIsFullSweep(a: Mat, k: nat, cs: seq<Chunk>, ds: seq<Chunk>)
    requires Augmented(a) && k < |a| && Tiles(cs, 0, |a|) && PairwiseApart(ds)
    requires forall c :: c in cs <==> c in ds
    ensures ChunkedElimination(a, k, ds) == EliminatedRows(a, k, 0, |a|)
  {
    TilesApart(cs, 0, |a|);
    ChunkedAnyOrder(a, k, cs, ds);
    ChunkedIsFullSweep(a, k, cs);
  }
}
