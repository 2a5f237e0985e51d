/**
 * The cell grid underneath a Board: an N-by-N matrix of ints, row by row,
 * with 0 standing for the blank. This module holds what every board
 * operation shares: cell access, the two-cell swap, the well-formedness
 * invariant (a permutation of 0..N*N-1) and sums over all cells.
 */
module Grids {

  /** tiles[i][j] is the block in row i, column j. */
  type Grid = seq<seq<int>>

  predicate HasCell(g: Grid, i: int, j: int)
  {
    0 <= i < |g| && 0 <= j < |g[i]|
  }

  /** N rows of N cells each, N being the number of rows. */
  predicate Square(g: Grid)
  {
    forall i :: 0 <= i < |g| ==> |g[i]| == |g|
  }

  /** The cells in row-major order. */
  function Flat(g: Grid): seq<int>
  {
    if |g| == 0 then [] else Flat(g[..|g| - 1]) + g[|g| - 1]
  }

  /** lo, lo + 1, ..., hi - 1. */
  function Range(lo: int, hi: int): seq<int>
    decreases hi - lo
  {
    if hi <= lo then [] else [lo] + Range(lo + 1, hi)
  }

  /** A puzzle configuration: square, N >= 2, holding each of 0..N*N-1 exactly once. */
  predicate WellFormed(g: Grid)
  {
    Square(g) && |g| >= 2 && multiset(Flat(g)) == multiset(Range(0, |g| * |g|))
  }

  /** Same number of rows and same length of each row. */
  predicate SameShape(g: Grid, r: Grid)
  {
    |r| == |g| && forall a :: 0 <= a < |g| ==> |r[a]| == |g[a]|
  }

  function SetCell(g: Grid, i: int, j: int, v: int): (r: Grid)
    requires HasCell(g, i, j)
    ensures SameShape(g, r)
    ensures r[i][j] == v
    ensures forall a, b {:trigger r[a][b]} :: HasCell(g, a, b) && (a, b) != (i, j) ==> r[a][b] == g[a][b]
  {
    g[i := g[i][j := v]]
  }

  /** Exchanges the contents of two cells (the source's static swap helper). */
  function Swap(g: Grid, i1: int, j1: int, i2: int, j2: int): (r: Grid)
    requires HasCell(g, i1, j1) && HasCell(g, i2, j2)
    ensures SameShape(g, r)
    ensures r[i1][j1] == g[i2][j2] && r[i2][j2] == g[i1][j1]
    ensures forall a, b {:trigger r[a][b]} :: HasCell(g, a, b) && (a, b) != (i1, j1) && (a, b) != (i2, j2) ==> r[a][b] == g[a][b]
  {
    SetCell(SetCell(g, i1, j1, g[i2][j2]), i2, j2, g[i1][j1])
  }

  /** Two grids of the same shape that agree on every cell are equal. */
  lemma GridsEqual(a: Grid, b: Grid)
    requires SameShape(a, b)
    requires forall i, j :: HasCell(a, i, j) ==> a[i][j] == b[i][j]
    ensures a == b
  {
    forall i | 0 <= i < |a|
      ensures a[i] == b[i]
    {
      forall j | 0 <= j < |a[i]|
        ensures a[i][j] == b[i][j]
      {
        assert HasCell(a, i, j);
      }
    }
  }

  /** Swapping the same two cells a second time, in either order, restores the grid. */
  lemma SwapBack(g: Grid, i1: int, j1: int, i2: int, j2: int)
    requires HasCell(g, i1, j1) && HasCell(g, i2, j2)
    ensures Swap(Swap(g, i1, j1, i2, j2), i2, j2, i1, j1) == g
    ensures Swap(Swap(g, i1, j1, i2, j2), i1, j1, i2, j2) == g
  {
    var s := Swap(g, i1, j1, i2, j2);
    GridsEqual(Swap(s, i2, j2, i1, j1), g);
    GridsEqual(Swap(s, i1, j1, i2, j2), g);
  }

  // ---------------------------------------------------------------------------
  // Multiset facts about the cells
  // ---------------------------------------------------------------------------

  lemma {:induction false} RangeCount(lo: int, hi: int, v: int)
    ensures multiset(Range(lo, hi))[v] == if lo <= v < hi then 1 else 0
    decreases hi - lo
  {
    if lo < hi {
      RangeCount(lo + 1, hi, v);
      assert multiset(Range(lo, hi)) == multiset{lo} + multiset(Range(lo + 1, hi));
    }
  }

  lemma {:induction false} FlatCell(g: Grid, i: int, j: int)
    requires HasCell(g, i, j)
    ensures multiset(Flat(g))[g[i][j]] >= 1
    decreases |g|
  {
    var last := |g| - 1;
    assert multiset(Flat(g)) == multiset(Flat(g[..last])) + multiset(g[last]);
    if i == last {
      assert g[last][j] in multiset(g[last]);
    } else {
      assert g[..last][i] == g[i];
      FlatCell(g[..last], i, j);
    }
  }

  lemma SeqTwice(s: seq<int>, a: int, b: int)
    requires 0 <= a < b < |s| && s[a] == s[b]
    ensures multiset(s)[s[a]] >= 2
  {
    assert s == s[..b] + s[b..];
    assert s[..b][a] == s[a];
    assert s[b..][0] == s[a];
    assert multiset(s) == multiset(s[..b]) + multiset(s[b..]);
  }

  lemma {:induction false} FlatTwoCells(g: Grid, i1: int, j1: int, i2: int, j2: int)
    requires HasCell(g, i1, j1) && HasCell(g, i2, j2) && (i1, j1) != (i2, j2)
    requires g[i1][j1] == g[i2][j2]
    ensures multiset(Flat(g))[g[i1][j1]] >= 2
    decreases |g|
  {
    var last := |g| - 1;
    var v := g[i1][j1];
    assert multiset(Flat(g)) == multiset(Flat(g[..last])) + multiset(g[last]);
    if i1 == last && i2 == last {
      if j1 < j2 { SeqTwice(g[last], j1, j2); } else { SeqTwice(g[last], j2, j1); }
    } else if i1 == last {
      assert g[..last][i2] == g[i2];
      FlatCell(g[..last], i2, j2);
      assert g[last][j1] in multiset(g[last]);
    } else if i2 == last {
      assert g[..last][i1] == g[i1];
      FlatCell(g[..last], i1, j1);
      assert g[last][j2] in multiset(g[last]);
    } else {
      assert g[..last][i1] == g[i1] && g[..last][i2] == g[i2];
      FlatTwoCells(g[..last], i1, j1, i2, j2);
    }
  }

  lemma {:induction false} FlatValue(g: Grid, v: int)
    requires v in multiset(Flat(g))
    ensures exists i, j :: HasCell(g, i, j) && g[i][j] == v
    decreases |g|
  {
    var last := |g| - 1;
    assert multiset(Flat(g)) == multiset(Flat(g[..last])) + multiset(g[last]);
    if v in g[last] {
      var j :| 0 <= j < |g[last]| && g[last][j] == v;
      assert HasCell(g, last, j);
    } else {
      FlatValue(g[..last], v);
      var i, j :| HasCell(g[..last], i, j) && g[..last][i][j] == v;
      assert HasCell(g, i, j) && g[i][j] == v;
    }
  }

  lemma UpdateMultiset(s: seq<int>, j: int, v: int)
    requires 0 <= j < |s|
    ensures multiset(s[j := v]) + multiset{s[j]} == multiset(s) + multiset{v}
  {
    assert s == s[..j] + [s[j]] + s[j + 1..];
    assert s[j := v] == s[..j] + [v] + s[j + 1..];
  }

  lemma {:induction false} SetCellFlat(g: Grid, i: int, j: int, v: int)
    requires HasCell(g, i, j)
    ensures multiset(Flat(SetCell(g, i, j, v))) + multiset{g[i][j]} == multiset(Flat(g)) + multiset{v}
    decreases |g|
  {
    var r := SetCell(g, i, j, v);
    var last := |g| - 1;
    var front, rfront := g[..last], r[..last];
    assert Flat(r) == Flat(rfront) + r[last];
    assert Flat(g) == Flat(front) + g[last];
    if i == last {
      assert rfront == front;
      UpdateMultiset(g[last], j, v);
    } else {
      assert rfront == SetCell(front, i, j, v);
      assert r[last] == g[last];
      assert front[i][j] == g[i][j];
      SetCellFlat(front, i, j, v);
      var mr, mf, ml := multiset(Flat(rfront)), multiset(Flat(front)), multiset(g[last]);
      assert mr + multiset{g[i][j]} == mf + multiset{v};
      calc {
        multiset(Flat(r)) + multiset{g[i][j]};
        mr + ml + multiset{g[i][j]};
        (mr + multiset{g[i][j]}) + ml;
        (mf + multiset{v}) + ml;
        multiset(Flat(g)) + multiset{v};
      }
    }
  }

  /** A swap only rearranges the cells. */
  lemma SwapFlat(g: Grid, i1: int, j1: int, i2: int, j2: int)
    requires HasCell(g, i1, j1) && HasCell(g, i2, j2)
    ensures multiset(Flat(Swap(g, i1, j1, i2, j2))) == multiset(Flat(g))
  {
    var a, b := g[i1][j1], g[i2][j2];
    var g1 := SetCell(g, i1, j1, b);
    var g2 := SetCell(g1, i2, j2, a);
    SetCellFlat(g, i1, j1, b);
    assert g1[i2][j2] == b;
    SetCellFlat(g1, i2, j2, a);
    var m, m2 := multiset(Flat(g)), multiset(Flat(g2));
    assert m2 + multiset{b} == m + multiset{b};
    forall x
      ensures m2[x] == m[x]
    {
      assert (m2 + multiset{b})[x] == (m + multiset{b})[x];
    }
  }

  lemma SwapWellFormed(g: Grid, i1: int, j1: int, i2: int, j2: int)
    requires WellFormed(g) && HasCell(g, i1, j1) && HasCell(g, i2, j2)
    ensures WellFormed(Swap(g, i1, j1, i2, j2))
  {
    SwapFlat(g, i1, j1, i2, j2);
  }

  /** Every cell of a well-formed grid holds a value in 0..N*N-1. */
  lemma WellFormedCell(g: Grid, i: int, j: int)
    requires WellFormed(g) && HasCell(g, i, j)
    ensures 0 <= g[i][j] < |g| * |g|
  {
    FlatCell(g, i, j);
    RangeCount(0, |g| * |g|, g[i][j]);
  }

  /** Two different cells of a well-formed grid hold different values. */
  lemma WellFormedDistinct(g: Grid, i1: int, j1: int, i2: int, j2: int)
    requires WellFormed(g) && HasCell(g, i1, j1) && HasCell(g, i2, j2) && (i1, j1) != (i2, j2)
    ensures g[i1][j1] != g[i2][j2]
  {
    if g[i1][j1] == g[i2][j2] {
      FlatTwoCells(g, i1, j1, i2, j2);
      RangeCount(0, |g| * |g|, g[i1][j1]);
    }
  }

  lemma MulPositive(a: int, b: int)
    requires a > 0 && b > 0
    ensures a * b > 0
  {
  }

  /** A well-formed grid has exactly one blank. */
  lemma WellFormedBlankCount(g: Grid)
    requires WellFormed(g)
    ensures multiset(Flat(g))[0] == 1
  {
    MulPositive(|g|, |g|);
    RangeCount(0, |g| * |g|, 0);
  }

  // ---------------------------------------------------------------------------
  // Sums over all cells
  // ---------------------------------------------------------------------------

  /** Sum of f(i, j, row[j]) over the cells of row i. */
  function RowSum(row: seq<int>, i: int, f: (int, int, int) -> nat): nat
  {
    if |row| == 0 then 0 else RowSum(row[..|row| - 1], i, f) + f(i, |row| - 1, row[|row| - 1])
  }

  /** Sum of f(i, j, g[i][j]) over every cell (i, j). */
  function CellSum(g: Grid, f: (int, int, int) -> nat): nat
  {
    if |g| == 0 then 0 else CellSum(g[..|g| - 1], f) + RowSum(g[|g| - 1], |g| - 1, f)
  }

  /** The per-cell indicator of value v. */
  function Occurs(v: int): (int, int, int) -> nat
  {
    (i: int, j: int, x: int) => if x == v then 1 else 0
  }

  lemma {:induction false} RowSumZero(row: seq<int>, i: int, f: (int, int, int) -> nat)
    ensures RowSum(row, i, f) == 0 <==> forall j :: 0 <= j < |row| ==> f(i, j, row[j]) == 0
  {
    if |row| > 0 {
      var last := |row| - 1;
      RowSumZero(row[..last], i, f);
      assert forall j :: 0 <= j < last ==> row[..last][j] == row[j];
    }
  }

  /** A cell sum is zero exactly when every cell contributes zero. */
  lemma {:induction false} CellSumZero(g: Grid, f: (int, int, int) -> nat)
    ensures CellSum(g, f) == 0 <==> forall i, j :: HasCell(g, i, j) ==> f(i, j, g[i][j]) == 0
  {
    if |g| > 0 {
      var last := |g| - 1;
      CellSumZero(g[..last], f);
      RowSumZero(g[last], last, f);
      assert forall i, j :: HasCell(g[..last], i, j) <==> HasCell(g, i, j) && i < last;
      assert forall i :: 0 <= i < last ==> g[..last][i] == g[i];
    }
  }

  lemma {:induction false} RowSumAdd(row: seq<int>, i: int, f: (int, int, int) -> nat, f1: (int, int, int) -> nat, f2: (int, int, int) -> nat)
    requires forall j :: 0 <= j < |row| ==> f(i, j, row[j]) == f1(i, j, row[j]) + f2(i, j, row[j])
    ensures RowSum(row, i, f) == RowSum(row, i, f1) + RowSum(row, i, f2)
  {
    if |row| > 0 {
      var last := |row| - 1;
      assert forall j :: 0 <= j < last ==> row[..last][j] == row[j];
      RowSumAdd(row[..last], i, f, f1, f2);
    }
  }

  /** Cell sums add up when the per-cell terms do. */
  lemma {:induction false} CellSumAdd(g: Grid, f: (int, int, int) -> nat, f1: (int, int, int) -> nat, f2: (int, int, int) -> nat)
    requires forall i, j :: HasCell(g, i, j) ==> f(i, j, g[i][j]) == f1(i, j, g[i][j]) + f2(i, j, g[i][j])
    ensures CellSum(g, f) == CellSum(g, f1) + CellSum(g, f2)
  {
    if |g| > 0 {
      var last := |g| - 1;
      assert forall i, j :: HasCell(g[..last], i, j) ==> HasCell(g, i, j) && g[..last][i][j] == g[i][j];
      CellSumAdd(g[..last], f, f1, f2);
      assert forall j :: 0 <= j < |g[last]| ==> HasCell(g, last, j);
      RowSumAdd(g[last], last, f, f1, f2);
    }
  }

  lemma {:induction false} RowSumCount(row: seq<int>, i: int, v: int)
    ensures RowSum(row, i, Occurs(v)) == multiset(row)[v]
  {
    if |row| > 0 {
      var last := |row| - 1;
      RowSumCount(row[..last], i, v);
      assert row == row[..last] + [row[last]];
    }
  }

  /** Summing the indicator of v counts the cells holding v. */
  lemma {:induction false} CellSumCount(g: Grid, v: int)
    ensures CellSum(g, Occurs(v)) == multiset(Flat(g))[v]
  {
    if |g| > 0 {
      CellSumCount(g[..|g| - 1], v);
      RowSumCount(g[|g| - 1], |g| - 1, v);
    }
  }

  lemma {:induction false} RowSumBound(row: seq<int>, i: int, f: (int, int, int) -> nat)
    requires forall j :: 0 <= j < |row| ==> f(i, j, row[j]) <= 1
    ensures RowSum(row, i, f) <= |row|
  {
    if |row| > 0 {
      var last := |row| - 1;
      assert forall j :: 0 <= j < last ==> row[..last][j] == row[j];
      RowSumBound(row[..last], i, f);
    }
  }

  /** With terms of at most 1, a sum over h rows of width w is at most h * w. */
  lemma {:induction false} CellSumBound(g: Grid, f: (int, int, int) -> nat, w: nat)
    requires forall i :: 0 <= i < |g| ==> |g[i]| == w
    requires forall i, j :: HasCell(g, i, j) ==> f(i, j, g[i][j]) <= 1
    ensures CellSum(g, f) <= |g| * w
  {
    if |g| > 0 {
      var last := |g| - 1;
      var front := g[..last];
      forall i | 0 <= i < |front|
        ensures |front[i]| == w
      {
        assert front[i] == g[i];
      }
      forall i, j | HasCell(front, i, j)
        ensures f(i, j, front[i][j]) <= 1
      {
        assert front[i] == g[i] && HasCell(g, i, j);
      }
      CellSumBound(front, f, w);
      forall j | 0 <= j < |g[last]|
        ensures f(last, j, g[last][j]) <= 1
      {
        assert HasCell(g, last, j);
      }
      RowSumBound(g[last], last, f);
      MulSucc(last, w);
    }
  }

  lemma MulSucc(a: int, w: int)
    ensures (a + 1) * w == a * w + w
  {
  }
}
