/**
 * The Board value of the sliding puzzle (src/Board.java): construction,
 * the Hamming and Manhattan distances, the goal test, the twin board,
 * structural equality and the neighbor boards reached by one slide of the
 * blank. A board is its grid; every operation is a pure function of it.
 */
module Board {
  import opened Wrappers
  import opened Grids

  // ---------------------------------------------------------------------------
  // Construction
  // ---------------------------------------------------------------------------

  /** The one failure of the core: constructing a board from a null array. */
  datatype BoardError = NullBlocks

  /**
   * deepCopyIntMatrix on values: null gives null, otherwise an equal matrix.
   * Grids are values here, so the copy is the input itself; that its rows
   * are fresh arrays is stated on row arrays by DeepCopyRows.
   */
  method DeepCopy(input: Option<Grid>) returns (r: Option<Grid>)
    ensures r == input
  {
    r := input;
  }


  /** new Board(blocks): fails on null, otherwise holds a copy of blocks. */
  method NewBoard(blocks: Option<Grid>) returns (r: Result<Grid, BoardError>)
    ensures r.Failure? <==> blocks.None?
    ensures r.Failure? ==> r.error == NullBlocks
    ensures r.Success? ==> r.value == blocks.value
  {
    if blocks.None? {
      return Failure(NullBlocks);
    }
    var tiles := DeepCopy(blocks);
    return Success(tiles.value);
  }

  // ---------------------------------------------------------------------------
  // Distances and the goal test
  // ---------------------------------------------------------------------------

  /** The value the goal board holds in row i, column j. */
  function GoalValue(n: int, i: int, j: int): int
  {
    i * n + j + 1
  }

  /** The goal test: every non-blank cell holds its goal value; the blank may be anywhere. */
  predicate IsGoal(g: Grid)
    requires Square(g)
  {
    forall i, j :: 0 <= i < |g| && 0 <= j < |g| ==> g[i][j] == 0 || g[i][j] == GoalValue(|g|, i, j)
  }

  /** Per-cell term of hamming: the cell is compared with its goal value, blank included. */
  function HammingCell(n: int): (int, int, int) -> nat
  {
    (i: int, j: int, v: int) => if v != GoalValue(n, i, j) then 1 else 0
  }

  /** Number of cells whose value differs from i*N+j+1 (the blank always does). */
  function Hamming(g: Grid): (h: nat)
    requires Square(g)
    ensures h <= |g| * |g|
  {
    CellSumBound(g, HammingCell(|g|), |g|);
    CellSum(g, HammingCell(|g|))
  }

  /** Per-cell term of the tiles-out-of-place count, which leaves the blank out. */
  function MisplacedCell(n: int): (int, int, int) -> nat
  {
    (i: int, j: int, v: int) => if v != 0 && v != GoalValue(n, i, j) then 1 else 0
  }

  /** Number of non-blank tiles out of place: the Hamming distance with the blank excluded. */
  function TilesOutOfPlace(g: Grid): (h: nat)
    requires Square(g)
  {
    CellSum(g, MisplacedCell(|g|))
  }

  /** Java's int division, which truncates toward zero. */
  function JavaDiv(a: int, b: int): int
    requires b > 0
  {
    if a >= 0 then a / b else -((-a) / b)
  }

  /** Java's %, the remainder matching JavaDiv (negative for negative a). */
  function JavaRem(a: int, b: int): int
    requires b > 0
  {
    a - JavaDiv(a, b) * b
  }

  /**
   * Java's rules for int / and % (section 15.17.3 of the Java Language
   * Specification): quotient times divisor plus remainder gives back the
   * dividend, and the remainder is smaller than the divisor in magnitude
   * and has the sign of the dividend, so the quotient rounds toward zero.
   */
  lemma JavaDivRem(a: int, b: int)
    requires b > 0
    ensures JavaDiv(a, b) * b + JavaRem(a, b) == a
    ensures Abs(JavaRem(a, b)) < b
    ensures a >= 0 ==> 0 <= JavaRem(a, b)
    ensures a < 0 ==> JavaRem(a, b) <= 0
  {
    if a >= 0 {
      assert JavaDiv(a, b) == a / b;
      assert JavaRem(a, b) == a % b;
    } else {
      var m := -a;
      assert JavaDiv(a, b) == -(m / b);
      NegMul(m / b, b);
      assert JavaRem(a, b) == -(m % b);
    }
  }

  lemma NegMul(q: int, b: int)
    ensures (-q) * b == -(q * b)
  {
  }

  function Abs(x: int): nat
  {
    if x < 0 then -x else x
  }

  /**
   * Manhattan contribution of value v in row i, column j of an N-by-N board:
   * nothing for the blank or a tile in place, otherwise the row and column
   * distance to the cell ((v-1)/N, (v-1)%N). It vanishes exactly on the blank
   * and on a tile in its goal cell.
   */
  function ManhattanTerm(n: int, i: int, j: int, v: int): nat
    requires n > 0
  {
    if v == 0 then 0
    else if v == GoalValue(n, i, j) then 0
    else
      var row, col := JavaDiv(v - 1, n), JavaRem(v - 1, n);
      Abs(i - row) + Abs(j - col)
  }

  /** A misplaced tile is at least one row or column away from its goal cell. */
  lemma ManhattanTermZero(n: int, i: int, j: int, v: int)
    requires n > 0
    ensures ManhattanTerm(n, i, j, v) == 0 <==> v == 0 || v == GoalValue(n, i, j)
  {
    if v != 0 && v != GoalValue(n, i, j) {
      var row, col := JavaDiv(v - 1, n), JavaRem(v - 1, n);
      assert row * n + col == v - 1;
      assert i == row && j == col ==> v == GoalValue(n, i, j);
    }
  }

  function ManhattanCell(n: int): (int, int, int) -> nat
    requires n > 0
  {
    (i: int, j: int, v: int) => ManhattanTerm(n, i, j, v)
  }

  /** Sum of the Manhattan distances of the tiles to their goal cells. */
  function Manhattan(g: Grid): nat
    requires Square(g)
  {
    if |g| == 0 then 0 else CellSum(g, ManhattanCell(|g|))
  }

  /** The scan of isGoal: row by row, stopping at the first misplaced tile. */
  method IsGoalScan(g: Grid) returns (goal: bool)
    requires Square(g)
    ensures goal == IsGoal(g)
  {
    var n := |g|;
    var i := 0;
    while i < n
      invariant 0 <= i <= n
      invariant forall a, b :: 0 <= a < i && 0 <= b < n ==> g[a][b] == 0 || g[a][b] == GoalValue(n, a, b)
    {
      var j := 0;
      while j < n
        invariant 0 <= j <= n
        invariant forall b :: 0 <= b < j ==> g[i][b] == 0 || g[i][b] == GoalValue(n, i, b)
      {
        if g[i][j] != 0 && g[i][j] != GoalValue(n, i, j) {
          return false;
        }
        j := j + 1;
      }
      i := i + 1;
    }
    return true;
  }

  /** hamming counts every tile out of place and, in addition, every blank cell. */
  lemma HammingCountsBlank(g: Grid)
    requires Square(g)
    ensures Hamming(g) == TilesOutOfPlace(g) + multiset(Flat(g))[0]
  {
    var n := |g|;
    forall i, j | HasCell(g, i, j)
      ensures HammingCell(n)(i, j, g[i][j]) == MisplacedCell(n)(i, j, g[i][j]) + Occurs(0)(i, j, g[i][j])
    {
      assert i * n >= 0;
      assert GoalValue(n, i, j) >= 1;
    }
    CellSumAdd(g, HammingCell(n), MisplacedCell(n), Occurs(0));
    CellSumCount(g, 0);
  }

  /** The tiles-out-of-place count is zero exactly on goal boards. */
  lemma TilesOutOfPlaceZeroIffGoal(g: Grid)
    requires Square(g)
    ensures TilesOutOfPlace(g) == 0 <==> IsGoal(g)
  {
    var n := |g|;
    CellSumZero(g, MisplacedCell(n));
    assert forall i, j :: HasCell(g, i, j) ==> (MisplacedCell(n)(i, j, g[i][j]) == 0 <==> g[i][j] == 0 || g[i][j] == GoalValue(n, i, j));
  }

  /** Any square board with a blank has hamming at least 1. */
  lemma HammingCountsTheBlank(g: Grid, i: int, j: int)
    requires Square(g) && HasCell(g, i, j) && g[i][j] == 0
    ensures Hamming(g) >= 1
  {
    HammingCountsBlank(g);
    FlatCell(g, i, j);
  }

  /** On a well-formed board hamming is 1 exactly at the goal, never 0. */
  lemma HammingOfGoal(g: Grid)
    requires WellFormed(g)
    ensures Hamming(g) >= 1
    ensures Hamming(g) == 1 <==> IsGoal(g)
    ensures Hamming(g) == TilesOutOfPlace(g) + 1
  {
    HammingCountsBlank(g);
    WellFormedBlankCount(g);
    TilesOutOfPlaceZeroIffGoal(g);
  }

  /** manhattan is zero exactly on goal boards. */
  lemma ManhattanZeroIffGoal(g: Grid)
    requires Square(g)
    ensures Manhattan(g) == 0 <==> IsGoal(g)
  {
    var n := |g|;
    if n > 0 {
      CellSumZero(g, ManhattanCell(n));
      forall i, j | HasCell(g, i, j)
        ensures ManhattanCell(n)(i, j, g[i][j]) == 0 <==> g[i][j] == 0 || g[i][j] == GoalValue(n, i, j)
      {
        ManhattanTermZero(n, i, j, g[i][j]);
      }
    }
  }

  /** A well-formed goal board has its blank in the last cell. */
  lemma GoalBlankInCorner(g: Grid)
    requires WellFormed(g) && IsGoal(g)
    ensures g[|g| - 1][|g| - 1] == 0
  {
    var n := |g|;
    WellFormedCell(g, n - 1, n - 1);
    assert GoalValue(n, n - 1, n - 1) == n * n;
  }

  // ---------------------------------------------------------------------------
  // The twin board
  // ---------------------------------------------------------------------------

  /** Row 0 if both of its first two cells hold tiles, otherwise row 1. */
  function TwinRow(g: Grid): nat
    requires Square(g) && |g| >= 2
  {
    if g[0][0] != 0 && g[0][1] != 0 then 0 else 1
  }

  /** The board with columns 0 and 1 of TwinRow(g) exchanged; the receiver is untouched. */
  function Twin(g: Grid): (t: Grid)
    requires Square(g) && |g| >= 2
    ensures Square(t) && |t| == |g|
    ensures t[TwinRow(g)][0] == g[TwinRow(g)][1] && t[TwinRow(g)][1] == g[TwinRow(g)][0]
    ensures forall i, j :: HasCell(g, i, j) && !(i == TwinRow(g) && j < 2) ==> t[i][j] == g[i][j]
  {
    Swap(g, TwinRow(g), 0, TwinRow(g), 1)
  }

  /** twin is an involution: the swap never changes the row-selection test. */
  lemma {:induction false} TwinTwin(g: Grid)
    requires Square(g) && |g| >= 2
    ensures TwinRow(Twin(g)) == TwinRow(g)
    ensures Twin(Twin(g)) == g
  {
    var row := TwinRow(g);
    var t := Twin(g);
    if row == 1 {
      assert t[0][0] == g[0][0] && t[0][1] == g[0][1];
    }
    SwapBack(g, row, 0, row, 1);
  }

  /**
   * On a well-formed board the twin exchanges two distinct tiles: exactly
   * the two swapped cells change, and the blank stays where it was.
   */
  lemma TwinSwapsTwoTiles(g: Grid)
    requires WellFormed(g)
    ensures g[TwinRow(g)][0] != 0 && g[TwinRow(g)][1] != 0
    ensures forall i, j :: HasCell(g, i, j) ==> (Twin(g)[i][j] != g[i][j] <==> i == TwinRow(g) && j < 2)
    ensures forall i, j :: HasCell(g, i, j) ==> (Twin(g)[i][j] == 0 <==> g[i][j] == 0)
    ensures WellFormed(Twin(g))
  {
    var row := TwinRow(g);
    if row == 1 {
      var z := if g[0][0] == 0 then 0 else 1;
      WellFormedDistinct(g, 0, z, 1, 0);
      WellFormedDistinct(g, 0, z, 1, 1);
    }
    WellFormedDistinct(g, row, 0, row, 1);
    SwapWellFormed(g, row, 0, row, 1);
  }

  // ---------------------------------------------------------------------------
  // Equality
  // ---------------------------------------------------------------------------

  /** The argument of equals(Object): null, a Board, or an object of another class. */
  datatype Object = Null | BoardObject(tiles: Grid) | OtherObject

  /** Arrays.equals on two rows. */
  function RowsEqual(a: seq<int>, b: seq<int>): (r: bool)
    ensures r <==> a == b
  {
    |a| == |b| && forall k :: 0 <= k < |a| ==> a[k] == b[k]
  }

  /** Arrays.deepEquals on two grids: same number of rows, rows pairwise equal. */
  function DeepEquals(a: Grid, b: Grid): (r: bool)
    ensures r <==> a == b
  {
    |a| == |b| && forall i :: 0 <= i < |a| ==> RowsEqual(a[i], b[i])
  }

  /** equals: true exactly for a Board whose grid is identical cell for cell. */
  function Equals(b: Grid, y: Object): (r: bool)
    ensures r <==> y.BoardObject? && y.tiles == b
  {
    match y
    case Null => false
    case OtherObject => false
    case BoardObject(t) => DeepEquals(b, t)
  }

  // ---------------------------------------------------------------------------
  // Locating the blank
  // ---------------------------------------------------------------------------

  ghost predicate HasBlank(g: Grid)
  {
    exists i, j :: HasCell(g, i, j) && g[i][j] == 0
  }

  lemma WellFormedHasBlank(g: Grid)
    requires WellFormed(g)
    ensures HasBlank(g)
  {
    WellFormedBlankCount(g);
    FlatValue(g, 0);
  }

  /** (a, b) comes before (i, j) in row-major order. */
  predicate Before(a: int, b: int, i: int, j: int)
  {
    a < i || (a == i && b < j)
  }

  /** (i, j) is the first blank cell in row-major order. */
  ghost predicate FirstBlankAt(g: Grid, i: int, j: int)
  {
    HasCell(g, i, j) && g[i][j] == 0 &&
    forall a, b :: HasCell(g, a, b) && Before(a, b, i, j) ==> g[a][b] != 0
  }

  /** Index of the first 0 of row at or after column j, |row| if there is none. */
  function ZeroFrom(row: seq<int>, j: nat): (k: nat)
    requires j <= |row|
    ensures j <= k <= |row|
    ensures k < |row| ==> row[k] == 0
    ensures forall m :: j <= m < k ==> row[m] != 0
    decreases |row| - j
  {
    if j == |row| then j else if row[j] == 0 then j else ZeroFrom(row, j + 1)
  }

  /** The first blank cell in rows i onwards. */
  function BlankFrom(g: Grid, i: nat): (p: (nat, nat))
    requires i <= |g|
    requires exists a, b :: i <= a && HasCell(g, a, b) && g[a][b] == 0
    ensures i <= p.0 && HasCell(g, p.0, p.1) && g[p.0][p.1] == 0
    ensures forall a, b :: i <= a && HasCell(g, a, b) && Before(a, b, p.0, p.1) ==> g[a][b] != 0
    decreases |g| - i
  {
    BlankInRows(g, i);
    var k := ZeroFrom(g[i], 0);
    if k < |g[i]| then (i, k)
    else
      BlankInLaterRows(g, i);
      BlankFrom(g, i + 1)
  }

  lemma BlankInRows(g: Grid, i: nat)
    requires exists a, b :: i <= a && HasCell(g, a, b) && g[a][b] == 0
    ensures i < |g|
  {
  }

  lemma BlankInLaterRows(g: Grid, i: nat)
    requires i < |g|
    requires exists a, b :: i <= a && HasCell(g, a, b) && g[a][b] == 0
    requires forall m :: 0 <= m < |g[i]| ==> g[i][m] != 0
    ensures exists a, b :: i + 1 <= a && HasCell(g, a, b) && g[a][b] == 0
  {
    var a, b :| i <= a && HasCell(g, a, b) && g[a][b] == 0;
    assert a != i;
  }

  /** Where the blank is: the first blank cell in row-major order. */
  function Blank(g: Grid): (p: (nat, nat))
    requires HasBlank(g)
    ensures FirstBlankAt(g, p.0, p.1)
  {
    BlankFrom(g, 0)
  }

  /** The first blank is unique, and on a well-formed board it is the only blank. */
  lemma BlankIsUnique(g: Grid, i: int, j: int)
    requires HasBlank(g) && HasCell(g, i, j) && g[i][j] == 0
    requires FirstBlankAt(g, i, j) || WellFormed(g)
    ensures Blank(g) == (i, j)
  {
    var p := Blank(g);
    if p != (i, j) && !FirstBlankAt(g, i, j) {
      WellFormedDistinct(g, i, j, p.0, p.1);
    }
  }

  /** The labelled double loop of neighbors that stops at the first 0. */
  method FindBlank(g: Grid) returns (i: nat, j: nat)
    requires Square(g) && HasBlank(g)
    ensures FirstBlankAt(g, i, j)
  {
    var n := |g|;
    i, j := 0, 0;
    var found := false;
    while i < n && !found
      invariant 0 <= i <= n
      invariant found ==> i < n && j < n && g[i][j] == 0
      invariant forall a, b :: HasCell(g, a, b) && Before(a, b, i, if found then j else 0) ==> g[a][b] != 0
      decreases n - i, if found then 0 else 1
    {
      j := 0;
      while j < n && !found
        invariant 0 <= j <= n
        invariant found ==> j < n && g[i][j] == 0
        invariant forall b :: 0 <= b < j ==> g[i][b] != 0
        decreases n - j, if found then 0 else 1
      {
        if g[i][j] == 0 {
          found := true;
        } else {
          j := j + 1;
        }
      }
      if !found {
        i := i + 1;
      }
    }
  }

  // ---------------------------------------------------------------------------
  // Neighbors
  // ---------------------------------------------------------------------------

  /** The four slides of the blank, in the order neighbors tries them. */
  datatype Direction = Up | Down | Left | Right

  function Rank(d: Direction): nat
  {
    match d
    case Up => 0
    case Down => 1
    case Left => 2
    case Right => 3
  }

  function Opposite(d: Direction): Direction
  {
    match d
    case Up => Down
    case Down => Up
    case Left => Right
    case Right => Left
  }

  /** The cell the blank at (i, j) moves to. */
  function Target(i: int, j: int, d: Direction): (int, int)
  {
    match d
    case Up => (i - 1, j)
    case Down => (i + 1, j)
    case Left => (i, j - 1)
    case Right => (i, j + 1)
  }

  predicate OnBoard(n: int, p: (int, int))
  {
    0 <= p.0 < n && 0 <= p.1 < n
  }

  /**
   * The moves neighbors makes from a blank at (i, j): the tests i != 0,
   * i != N-1, j != 0, j != N-1 admit exactly the directions whose target
   * is on the board, and they are tried up, down, left, right.
   */
  function LegalDirections(n: int, i: int, j: int): (ds: seq<Direction>)
    requires OnBoard(n, (i, j))
    ensures forall d :: d in ds <==> OnBoard(n, Target(i, j, d))
    ensures forall a, b :: 0 <= a < b < |ds| ==> Rank(ds[a]) < Rank(ds[b])
  {
    (if i != 0 then [Up] else [])
    + (if i != n - 1 then [Down] else [])
    + (if j != 0 then [Left] else [])
    + (if j != n - 1 then [Right] else [])
  }

  /** The board with the blank at p slid in direction d. */
  function Slide(g: Grid, p: (int, int), d: Direction): (h: Grid)
    requires Square(g) && OnBoard(|g|, p) && OnBoard(|g|, Target(p.0, p.1, d))
    ensures Square(h) && |h| == |g|
  {
    Swap(g, p.0, p.1, Target(p.0, p.1, d).0, Target(p.0, p.1, d).1)
  }

  /** The boards obtained by sliding the blank at p along each of ds in turn. */
  function Slides(g: Grid, p: (int, int), ds: seq<Direction>): (r: seq<Grid>)
    requires Square(g) && OnBoard(|g|, p)
    requires forall d :: d in ds ==> OnBoard(|g|, Target(p.0, p.1, d))
    ensures |r| == |ds| && forall k :: 0 <= k < |r| ==> r[k] == Slide(g, p, ds[k])
  {
    seq(|ds|, k requires 0 <= k < |ds| => Slide(g, p, ds[k]))
  }

  lemma SlidesAppend(g: Grid, p: (int, int), a: seq<Direction>, b: seq<Direction>)
    requires Square(g) && OnBoard(|g|, p)
    requires forall d :: d in a + b ==> OnBoard(|g|, Target(p.0, p.1, d))
    ensures Slides(g, p, a + b) == Slides(g, p, a) + Slides(g, p, b)
  {
  }

  /**
   * All boards one slide of the blank away, in the order up, down, left,
   * right, skipping slides off the board.
   */
  function Neighbors(g: Grid): (nb: seq<Grid>)
    requires Square(g) && HasBlank(g)
    ensures var ds := LegalDirections(|g|, Blank(g).0, Blank(g).1);
      |nb| == |ds| && forall k :: 0 <= k < |nb| ==> nb[k] == Slide(g, Blank(g), ds[k])
    ensures |nb| <= 4
    ensures |g| >= 2 ==> |nb| >= 2
    ensures forall h :: h in nb ==> Square(h) && |h| == |g|
  {
    var p := Blank(g);
    Slides(g, p, LegalDirections(|g|, p.0, p.1))
  }

  /** h is reachable from g by one slide of the blank in a legal direction. */
  ghost predicate IsNeighbor(g: Grid, h: Grid)
  {
    Square(g) && HasBlank(g) &&
    exists d :: d in LegalDirections(|g|, Blank(g).0, Blank(g).1) && h == Slide(g, Blank(g), d)
  }

  /** Every board neighbors() returns is one slide away. */
  lemma NeighborsSound(g: Grid, h: Grid)
    requires Square(g) && HasBlank(g) && h in Neighbors(g)
    ensures IsNeighbor(g, h)
  {
    var p := Blank(g);
    var ds := LegalDirections(|g|, p.0, p.1);
    var k :| 0 <= k < |ds| && Neighbors(g)[k] == h;
    assert ds[k] in ds && h == Slide(g, p, ds[k]);
  }

  /** Every board one slide away is among the boards neighbors() returns. */
  lemma NeighborsCover(g: Grid, h: Grid)
    requires IsNeighbor(g, h)
    ensures h in Neighbors(g)
  {
    var p := Blank(g);
    var ds := LegalDirections(|g|, p.0, p.1);
    var d :| d in ds && h == Slide(g, p, d);
    var k :| 0 <= k < |ds| && ds[k] == d;
    assert Neighbors(g)[k] == h;
  }

  /** neighbors() returns exactly the boards one slide away. */
  lemma NeighborsComplete(g: Grid, h: Grid)
    requires Square(g) && HasBlank(g)
    ensures h in Neighbors(g) <==> IsNeighbor(g, h)
  {
    if h in Neighbors(g) {
      NeighborsSound(g, h);
    }
    if IsNeighbor(g, h) {
      NeighborsCover(g, h);
    }
  }

  /** Every neighbor of a well-formed board is a well-formed board. */
  lemma NeighborWellFormed(g: Grid, h: Grid)
    requires WellFormed(g) && IsNeighbor(g, h)
    ensures WellFormed(h) && HasBlank(h)
  {
    var p := Blank(g);
    var d :| d in LegalDirections(|g|, p.0, p.1) && h == Slide(g, p, d);
    var t := Target(p.0, p.1, d);
    SwapWellFormed(g, p.0, p.1, t.0, t.1);
    assert HasCell(h, t.0, t.1) && h[t.0][t.1] == 0;
  }

  /** Sliding the blank back the opposite way restores the board. */
  lemma SlideBack(g: Grid, p: (int, int), d: Direction)
    requires Square(g) && OnBoard(|g|, p) && OnBoard(|g|, Target(p.0, p.1, d))
    ensures Target(Target(p.0, p.1, d).0, Target(p.0, p.1, d).1, Opposite(d)) == p
    ensures Slide(Slide(g, p, d), Target(p.0, p.1, d), Opposite(d)) == g
  {
    var t := Target(p.0, p.1, d);
    SwapBack(g, p.0, p.1, t.0, t.1);
  }

  /** A slide can be undone: g is among the neighbors of each of its neighbors. */
  lemma NeighborsReversible(g: Grid, h: Grid)
    requires WellFormed(g) && IsNeighbor(g, h)
    ensures IsNeighbor(h, g)
  {
    NeighborWellFormed(g, h);
    var p := Blank(g);
    var d :| d in LegalDirections(|g|, p.0, p.1) && h == Slide(g, p, d);
    var t := Target(p.0, p.1, d);
    assert h[t.0][t.1] == 0;
    BlankIsUnique(h, t.0, t.1);
    SlideBack(g, p, d);
    assert Opposite(d) in LegalDirections(|h|, t.0, t.1);
  }

  /** Slides in two different directions, or none at all, give different boards. */
  lemma SlidesDiffer(g: Grid, d1: Direction, d2: Direction)
    requires WellFormed(g) && HasBlank(g)
    requires OnBoard(|g|, Target(Blank(g).0, Blank(g).1, d1))
    requires OnBoard(|g|, Target(Blank(g).0, Blank(g).1, d2))
    ensures d1 != d2 ==> Slide(g, Blank(g), d1) != Slide(g, Blank(g), d2)
    ensures Slide(g, Blank(g), d1) != g
  {
    var p := Blank(g);
    var t1 := Target(p.0, p.1, d1);
    var t2 := Target(p.0, p.1, d2);
    WellFormedDistinct(g, p.0, p.1, t1.0, t1.1);
    var s1 := Slide(g, p, d1);
    assert s1[t1.0][t1.1] == 0;
    if d1 != d2 {
      assert t1 != t2;
      assert Slide(g, p, d2)[t1.0][t1.1] == g[t1.0][t1.1];
    }
  }

  /** The neighbors of a well-formed board are pairwise different and differ from it. */
  lemma NeighborsDistinct(g: Grid)
    requires WellFormed(g)
    ensures HasBlank(g)
    ensures forall a, b :: 0 <= a < b < |Neighbors(g)| ==> Neighbors(g)[a] != Neighbors(g)[b]
    ensures g !in Neighbors(g)
  {
    WellFormedHasBlank(g);
    var nb := Neighbors(g);
    var p := Blank(g);
    var ds := LegalDirections(|g|, p.0, p.1);
    forall a, b | 0 <= a < b < |nb|
      ensures nb[a] != nb[b]
    {
      assert ds[a] in ds && ds[b] in ds;
      SlidesDiffer(g, ds[a], ds[b]);
    }
    if g in nb {
      var k :| 0 <= k < |nb| && nb[k] == g;
      assert ds[k] in ds;
      SlidesDiffer(g, ds[k], ds[k]);
    }
  }

  // ---------------------------------------------------------------------------
  // neighbors on the receiver's own rows
  // ---------------------------------------------------------------------------

  /** The cells currently held by a sequence of row arrays. */
  function Contents(rows: seq<array<int>>): (g: Grid)
    reads set r | r in rows
    ensures |g| == |rows| && forall i :: 0 <= i < |rows| ==> g[i] == rows[i][..]
  {
    seq(|rows|, i requires 0 <= i < |rows| reads set r | r in rows => rows[i][..])
  }

  /** No two rows are the same array. */
  predicate DistinctRows(rows: seq<array<int>>)
  {
    forall a, b :: 0 <= a < b < |rows| ==> rows[a] != rows[b]
  }

  /**
   * deepCopyIntMatrix on the row arrays themselves: each row is cloned into a
   * new array, so the copy holds the input's cells, its rows are pairwise
   * distinct even when the input repeats a row, and no row is shared with
   * the input. This is what the receiver's DistinctRows rests on.
   */
  method DeepCopyRows(input: seq<array<int>>) returns (rows: seq<array<int>>)
    ensures Contents(rows) == Contents(input)
    ensures DistinctRows(rows)
    ensures forall a, b :: 0 <= a < |rows| && 0 <= b < |input| ==> rows[a] != input[b]
  {
    rows := [];
    var k := 0;
    while k < |input|
      invariant 0 <= k <= |input| && |rows| == k
      invariant forall a :: 0 <= a < k ==> fresh(rows[a]) && rows[a][..] == input[a][..]
      invariant DistinctRows(rows)
    {
      var row := input[k];
      var copy := new int[row.Length](c requires 0 <= c < row.Length reads row => row[c]);
      rows := rows + [copy];
      k := k + 1;
    }
  }

  /** The swap helper applied in place to row arrays. */
  method SwapCells(rows: seq<array<int>>, i1: int, j1: int, i2: int, j2: int)
    requires DistinctRows(rows)
    requires HasCell(Contents(rows), i1, j1) && HasCell(Contents(rows), i2, j2)
    modifies rows[i1], rows[i2]
    ensures Contents(rows) == Swap(old(Contents(rows)), i1, j1, i2, j2)
  {
    ghost var g := Contents(rows);
    var tmp := rows[i1][j1];
    rows[i1][j1] := rows[i2][j2];
    rows[i2][j2] := tmp;
    GridsEqual(Contents(rows), Swap(g, i1, j1, i2, j2));
  }

  /** A slide in direction d if the test admits it, otherwise nothing. */
  function SlideIf(g: Grid, p: (int, int), test: bool, d: Direction): seq<Grid>
    requires Square(g) && OnBoard(|g|, p)
    requires test ==> OnBoard(|g|, Target(p.0, p.1, d))
  {
    if test then [Slide(g, p, d)] else []
  }

  /** The neighbors listed one optional slide per direction, in the source's order. */
  lemma NeighborsBySide(g: Grid, i: int, j: int)
    requires Square(g) && HasBlank(g) && Blank(g) == (i, j)
    ensures Neighbors(g) ==
        SlideIf(g, (i, j), i != 0, Up) + SlideIf(g, (i, j), i != |g| - 1, Down)
        + SlideIf(g, (i, j), j != 0, Left) + SlideIf(g, (i, j), j != |g| - 1, Right)
  {
    var p, n := (i, j), |g|;
    var a := if i != 0 then [Up] else [];
    var b := if i != n - 1 then [Down] else [];
    var c := if j != 0 then [Left] else [];
    var d := if j != n - 1 then [Right] else [];
    assert LegalDirections(n, i, j) == a + b + c + d;
    SlidesAppend(g, p, a + b + c, d);
    SlidesAppend(g, p, a + b, c);
    SlidesAppend(g, p, a, b);
    SlidesSingle(g, p, i != 0, Up);
    SlidesSingle(g, p, i != n - 1, Down);
    SlidesSingle(g, p, j != 0, Left);
    SlidesSingle(g, p, j != n - 1, Right);
  }

  lemma SlidesSingle(g: Grid, p: (int, int), test: bool, d: Direction)
    requires Square(g) && OnBoard(|g|, p)
    requires test ==> OnBoard(|g|, Target(p.0, p.1, d))
    ensures Slides(g, p, if test then [d] else []) == SlideIf(g, p, test, d)
  {
  }

  /** One slide made in the shared rows, copied out, then swapped back. */
  method SlideAndRestore(rows: seq<array<int>>, ghost g: Grid, i: int, j: int, d: Direction) returns (h: Grid)
    requires DistinctRows(rows) && Contents(rows) == g
    requires Square(g) && OnBoard(|g|, (i, j)) && OnBoard(|g|, Target(i, j, d))
    modifies set r | r in rows
    ensures Contents(rows) == g
    ensures h == Slide(g, (i, j), d)
  {
    var t := Target(i, j, d);
    SwapCells(rows, i, j, t.0, t.1);
    h := Contents(rows);
    SwapCells(rows, i, j, t.0, t.1);
    SwapBack(g, i, j, t.0, t.1);
  }

  /**
   * neighbors as the source runs it: the clone of the receiver's outer array
   * still holds the receiver's row arrays, so every slide is made in the
   * receiver's own rows, copied into a new board, and swapped back. The rows
   * end as they began and the boards produced are the neighbors.
   */
  method NeighborsShared(tiles: seq<array<int>>) returns (nbrs: seq<Grid>)
    requires DistinctRows(tiles)
    requires Square(Contents(tiles)) && HasBlank(Contents(tiles))
    modifies set r | r in tiles
    ensures Contents(tiles) == old(Contents(tiles))
    ensures nbrs == Neighbors(old(Contents(tiles)))
  {
    ghost var g := Contents(tiles);
    var tmp := tiles;
    var n := |tmp|;
    var i, j := FindBlank(Contents(tmp));
    BlankIsUnique(g, i, j);
    ghost var p := (i, j);
    var up, down, left, right: seq<Grid> := [], [], [], [];
    if i != 0 {
      var h := SlideAndRestore(tmp, g, i, j, Up);
      up := [h];
    }
    if i != n - 1 {
      var h := SlideAndRestore(tmp, g, i, j, Down);
      down := [h];
    }
    if j != 0 {
      var h := SlideAndRestore(tmp, g, i, j, Left);
      left := [h];
    }
    if j != n - 1 {
      var h := SlideAndRestore(tmp, g, i, j, Right);
      right := [h];
    }
    nbrs := up + down + left + right;
    assert up == SlideIf(g, p, i != 0, Up);
    assert down == SlideIf(g, p, i != n - 1, Down);
    assert left == SlideIf(g, p, j != 0, Left);
    assert right == SlideIf(g, p, j != n - 1, Right);
    NeighborsBySide(g, i, j);
  }
}
