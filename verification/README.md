# 8-puzzle board and dual A* solver, modelled in Dafny

This project models the core of a Java solver for the N-by-N sliding puzzle.

**Board value** (`src/Board.java`). A board is an N-by-N grid holding 0 (the blank) and the tiles 1..N²−1. The model covers:
- construction, with the null check and the deep copy;
- the Hamming and Manhattan distances and the goal test;
- the twin board;
- structural equality;
- the neighbors reached by sliding the blank up, down, left or right.

**Dual A\* search** (`src/Solver.java`, `src/SolverM.java`). Each solver runs two searches in lockstep: one from the initial board, one from its twin. Each round:
1. pops a minimum-priority node from each frontier;
2. tests the primary node for the goal, then the twin node;
3. otherwise expands both popped nodes, skipping the neighbor equal to the predecessor's board.

After the loop, `isSolvable`, `moves` and `solution` read the goal node.

## Layout

- `wrappers.dfy` (module `Wrappers`): `Option` stands for a nullable reference and `Result` for a call that may throw.
- `grids.dfy` (module `Grids`): the grid type and well-formedness. A well-formed grid is square, has N ≥ 2, and holds a permutation of 0..N²−1. The module also has:
  - the `swap` helper and its multiset facts;
  - a generic per-cell sum, `CellSum`, of which both distances are instances.
- `board.dfy` (module `Board`): every `Board` operation as a pure function of the grid, with its contract and partner lemmas. `neighbors` also gets an imperative version, `NeighborsShared`, that works on the receiver's row arrays the way the source's shallow clone does.
- `solver.dfy` (module `Solver`): the search as a state machine.
  - `State` holds two frontier multisets, a round counter and a status.
  - `Round` is one loop iteration. Its `Variant` argument picks the moves bookkeeping:
    - `RoundCounter` is `Solver.java`: every child in either frontier gets the round number.
    - `ParentDepth` is `SolverM.java`: children get the primary popped node's moves + 1, in both frontiers.
  - `Inv` is the search invariant. Every round keeps it.
  - `Solve` is the constructor's loop with a round bound.
  - `SolutionNode`, `IsSolvable`, `Moves` and `SolutionBoards` are the accessors.

`delMin` is nondeterministic. A round takes the two popped nodes as arguments, with the precondition that each has minimal priority in its frontier. `Solve` picks such nodes with `:|`.

## Where the model follows the code rather than its comments

- `hamming` is documented as the number of blocks out of place. It compares every cell with `i*N+j+1`, so the blank always counts and the goal board scores 1. The model reproduces this; see Findings.
- `isGoal` only checks the non-blank cells. On a well-formed board this still forces the blank into the last cell (`Board.GoalBlankInCorner`).
- `Solver.java`'s `moves()` is documented as the minimum number of moves. It returns the number of the round that inserted the goal node, which is at least the path length (`Solver.SolutionPath`).
- In `SolverM.java`, twin children take the *primary* popped node's moves + 1 (`Solver.SolverMNumbersByDepth`).
- `SolverM.java` is described as multi-threaded but is sequential; it is modelled as such. It has no round counter, so the model's `round` field is bookkeeping only for that variant.

## Model

| member | source | states |
|---|---|---|
| Grids.Swap | src/Board.java:235-240 | the two cells are exchanged; the shape and every other cell are unchanged |
| Grids.SwapBack | src/Board.java:155-158 | repeating the same swap, in either argument order, restores the grid; this is how neighbors puts the receiver's rows back |
| Grids.SwapWellFormed | src/Board.java:235-240 | a swap keeps a grid a permutation of 0..N²−1 |
| Board.DeepCopy | src/Board.java:225-233 | null is copied to null; otherwise the copy holds the same rows as the input |
| Board.DeepCopyRows | src/Board.java:225-233 | on row arrays, the copy holds the input's cells, its rows are pairwise distinct even when the input repeats a row, and none of them is a row of the input; this is the DistinctRows that Board.NeighborsShared requires |
| Board.NewBoard | src/Board.java:13-21 | the constructor fails with NullBlocks exactly when the blocks are null; otherwise the board holds the blocks' contents |
| Board.Hamming | src/Board.java:35-46 | hamming is at most N² |
| Board.HammingCountsBlank | src/Board.java:41 | hamming is the number of misplaced tiles plus the number of blank cells |
| Board.HammingCountsTheBlank | src/Board.java:41 | any board with a blank has hamming at least 1 |
| Board.HammingOfGoal | src/Board.java:35-46 | on a well-formed board hamming is at least 1, is 1 exactly on goal boards, and is one more than the count of misplaced tiles |
| Board.TilesOutOfPlaceZeroIffGoal | src/Board.java:80-91 | the count of misplaced non-blank tiles is 0 exactly on goal boards |
| Board.ManhattanTerm | src/Board.java:62-70 | one cell's term of manhattan: nothing for the blank or a tile in its goal cell, otherwise the row plus column distance to cell ((v−1)/N, (v−1)%N); its partner Board.ManhattanTermZero states when it vanishes |
| Board.JavaDiv | src/Board.java:67 | Java's int `/`, rounding toward zero; its partner Board.JavaDivRem states the Java rules |
| Board.JavaRem | src/Board.java:68 | Java's int `%`, the remainder matching JavaDiv; its partner Board.JavaDivRem states the Java rules |
| Board.JavaDivRem | src/Board.java:67-68 | quotient times N plus remainder gives back the dividend; the remainder is smaller than N in magnitude and has the dividend's sign, which is Java's truncating division |
| Board.ManhattanTermZero | src/Board.java:62-70 | a cell's Manhattan term is zero exactly when it holds the blank or the tile i*N+j+1 of its goal cell; every other tile is at least one row or column away from its goal cell |
| Board.Manhattan | src/Board.java:56-72 | manhattan() as the sum of the per-cell terms over all cells; its partner Board.ManhattanZeroIffGoal states that it is 0 exactly on goal boards |
| Board.ManhattanZeroIffGoal | src/Board.java:56-72 | manhattan is 0 exactly on goal boards |
| Board.IsGoal | src/Board.java:80-91 | isGoal(): every non-blank cell (i, j) holds i*N+j+1; its partners Board.IsGoalScan (the source's loop computes it), Board.ManhattanZeroIffGoal and Board.TilesOutOfPlaceZeroIffGoal characterise it |
| Board.IsGoalScan | src/Board.java:80-91 | the early-exit scan answers exactly isGoal() |
| Board.GoalBlankInCorner | src/Board.java:80-91 | a well-formed goal board has its blank in the last cell |
| Board.Twin | src/Board.java:101-117 | columns 0 and 1 of the selected row are exchanged, and every other cell is unchanged |
| Board.TwinTwin | src/Board.java:101-115 | the twin selects the same row as the board, so twin(twin(b)) is b |
| Board.TwinRow | src/Board.java:102-106 | the row twin() swaps in: row 0 when its first two cells are tiles, otherwise row 1; its partner Board.TwinSwapsTwoTiles states that on a well-formed board both chosen cells hold tiles |
| Board.TwinSwapsTwoTiles | src/Board.java:102-112 | on a well-formed board both swapped cells hold tiles, a cell changes exactly when it is one of them, the blank does not move, and the twin is well formed |
| Board.RowsEqual | src/Board.java:127 | element-wise row comparison is true exactly for equal rows |
| Board.DeepEquals | src/Board.java:127 | deepEquals is true exactly for identical grids |
| Board.Equals | src/Board.java:120-130 | equals is true exactly for a Board argument whose grid is identical; null and other classes give false |
| Board.Blank | src/Board.java:139-150 | the blank position is the first 0 in row-major order |
| Board.BlankIsUnique | src/Board.java:139-150 | the first-blank position is unique, and on a well-formed board it is the only blank |
| Board.FindBlank | src/Board.java:139-150 | the labelled double loop stops at the first 0 in row-major order |
| Board.LegalDirections | src/Board.java:152-186 | the tests i != 0, i != N-1, j != 0, j != N-1 admit exactly the slides whose target is on the board, tried up, down, left, right |
| Board.Neighbors | src/Board.java:132-188 | the k-th neighbor is the blank slid in the k-th legal direction; there are at most 4, at least 2 when N ≥ 2, and all are N-by-N |
| Board.NeighborsComplete | src/Board.java:152-186 | a board is returned by neighbors exactly when it is one legal slide away |
| Board.NeighborWellFormed | src/Board.java:152-186 | every neighbor of a well-formed board is well formed |
| Board.NeighborsReversible | src/Board.java:152-186 | the board is among the neighbors of each of its neighbors |
| Board.NeighborsDistinct | src/Board.java:152-186 | the neighbors of a well-formed board are pairwise different and differ from the board |
| Board.NeighborsBySide | src/Board.java:152-186 | neighbors is the concatenation of the four guarded slides in source order |
| Board.SwapCells | src/Board.java:235-240 | the in-place swap turns the row arrays' contents into the swapped grid |
| Board.SlideAndRestore | src/Board.java:155-158 | sliding in the shared rows, copying out and swapping back yields the slid board and leaves the rows as they were |
| Board.NeighborsShared | src/Board.java:136-187 | working on the receiver's own rows through the shallow clone, neighbors leaves the receiver unchanged and returns the neighbors |
| Solver.NewNode | src/Solver.java:99-105 | the SNode constructor: priority is the board's manhattan plus moves; Solver.QueuedStep keeps this relation for every queued node |
| Solver.CompareTo | src/Solver.java:107-110 | nodes are ordered by priority alone |
| Solver.IsMin | src/Solver.java:24-25 | the nodes delMin may return: members of the frontier that compare at most equal to every member; its partner Solver.MinExists states that a non-empty frontier has one |
| Solver.MinExists | src/Solver.java:24-25 | a non-empty frontier always has a node delMin may return |
| Solver.Start | src/Solver.java:11-15 | each frontier starts with one root of moves 0 and priority equal to its board's manhattan; the twin frontier's root holds initial.twin() |
| Solver.StartInv | src/SolverM.java:10-15 | the seeded state satisfies the search invariant |
| Solver.Expand | src/Solver.java:40-56 | every inserted node is a neighbor other than the predecessor's board, hangs below the popped node, and has the given moves and priority manhattan + moves; every neighbor that is not pruned gets a node; a root keeps all its neighbors |
| Solver.ChildrenNonEmpty | src/Solver.java:40-47 | a well-formed board always has at least one child after pruning |
| Solver.Round | src/Solver.java:24-38 | a primary goal solves the search even when the twin node is also a goal; only otherwise does a twin goal end it unsolvable, recording the twin's goal node; the counter advances only in rounds that go on |
| Solver.ExpandCounts | src/Solver.java:40-56 | expansion inserts each neighbor that is not pruned exactly as many times as neighbors() returns it, and the pruned board not at all |
| Solver.RoundInsertsChildren | src/SolverM.java:39-55 | a round that goes on adds to each frontier exactly the children of its popped node, one node per unpruned neighbor occurrence and nothing else |
| Solver.RoundPops | src/Solver.java:24-25 | a round removes exactly the popped node from each frontier and adds nothing when it stops |
| Solver.RoundInsertsOffspring | src/Solver.java:40-56 | every node a round adds is an unpruned neighbor of its own frontier's popped node, with the round's child moves count and priority manhattan + moves |
| Solver.RoundCoversNeighbors | src/SolverM.java:39-55 | each unpruned neighbor of each popped board gets a node in its frontier, in both frontiers |
| Solver.SolverNumbersByRound | src/Solver.java:38-55 | in Solver.java every node inserted in a round, in either frontier, carries the new round counter |
| Solver.SolverMNumbersByDepth | src/SolverM.java:45-54 | in SolverM.java primary children get their parent's moves + 1, and twin children get the primary popped node's moves + 1 |
| Solver.RootedWellFormed | src/Solver.java:40-46 | every board reached from a well-formed root is well formed |
| Solver.QueuedStep | src/Solver.java:99-105 | popping a node and inserting its children keeps every queued node rooted and at priority manhattan + moves |
| Solver.NumberedStep | src/SolverM.java:45 | popping a node and inserting its children keeps the variant's moves meaning: in SolverM.java moves is 0 at the root and one more at each step down the whole chain; in Solver.java it lies between the depth and the round counter |
| Solver.PoppedReady | src/Solver.java:24-25 | nodes popped from a running search hold well-formed boards with a blank |
| Solver.RoundInv | src/Solver.java:22-57 | every round keeps the invariant: frontiers rooted and prioritised, moves meaningful, frontiers non-empty while searching, a solution is a goal reached from the initial board, and an unsolvable verdict records a goal reached from the twin board |
| Solver.Solve | src/Solver.java:5-59 | after the loop the invariant holds; a found solution is a goal whose chain starts at the initial board, and an unsolvable verdict carries the twin search's goal node, whose chain starts at initial.twin(); with any rounds at all, a goal initial board is solved by its root node (0 moves), and otherwise a goal twin makes it unsolvable with the twin's root |
| Solver.FirstRound | src/Solver.java:24-36 | the first round pops the two roots, so a goal initial board comes out solved by its root and, failing that, a goal twin comes out unsolvable by the twin's root |
| Solver.VerdictChains | src/Solver.java:27-36 | a solution is a goal whose chain starts at the initial board, and an unsolvable verdict's node is a goal whose chain starts at initial.twin() |
| Solver.RunRounds | src/Solver.java:22-57 | the remaining rounds keep the invariant; a search that has stopped is left as it is, and one still running has counted every round |
| Solver.SolutionNode | src/Solver.java:27-36 | the solution is set exactly when the primary search reached a goal |
| Solver.IsSolvable | src/Solver.java:61-67 | isSolvable(): true exactly when there is a solution node; its partner Solver.AccessorsAgree ties it to moves() |
| Solver.Moves | src/Solver.java:69-75 | moves(): −1 without a solution node, otherwise the goal node's moves; its partners Solver.AccessorsAgree and Solver.SolutionPath state what the count means |
| Solver.AccessorsAgree | src/Solver.java:61-75 | isSolvable() is false exactly when moves() is −1, exactly when there is no solution node |
| Solver.SolutionBoards | src/Solver.java:77-91 | solution() is null exactly without a solution node; otherwise it lists the predecessor chain from the root to the goal |
| Solver.ChainEnds | src/Solver.java:84-90 | the chain of a rooted node starts at the root board, ends at the node's board and has depth + 1 boards |
| Solver.ChainStep | src/Solver.java:40-46 | consecutive boards of the chain are one slide apart |
| Solver.SolutionPath | src/SolverM.java:78-92 | a solved search yields initial, ..., goal by single slides; in SolverM.java it has moves() + 1 boards and the k-th node from the root has moves k, and in Solver.java it has at most moves() + 1 boards |
| Solver.TwinGoalPath | src/Solver.java:32-35 | a search stopped by the twin has no solution node and yields initial.twin(), ..., goal by single slides |
| Solver.DepthNumberedChain | src/SolverM.java:45 | when every child gets its parent's moves + 1 from a root at 0, the k-th node of a chain has moves k, so each node's moves is its depth |

## Left out

- The `main` methods: reading puzzles with `In`, printing, and `SolverM.java`'s driver. This is I/O.
- `toString` and the commented-out variant. They are formatting only.
- `dimension()`. It returns the row count, which is `|g|` on a grid.
- The internals of `MinPQ`, `Stack` and `In`, which are library code. The frontier is a multiset and `delMin` returns any node of minimal priority, because the tie-breaking is unknown. The `Stack` is read top first, so the path comes out root first.
- The memoisation flags of `hamming` and `manhattan`. Caching does not change the values, so both are pure functions.
- Solver.Solve: runs at most `fuel` rounds. The source loop has no bound, and termination needs the parity argument that exactly one of a board and its twin is solvable. That argument is out of scope.
- Solver.Solve: requires a well-formed initial board. On malformed input the source throws from array indexing or searches on meaningless boards.
- Solver.SolutionPath: for Solver.java only the bound `|path| <= moves() + 1` is proved. A* optimality (`moves()` is the minimum) is left out, as is any claim that the bound is strict on some input.
- Solver.CompareTo: integers are unbounded, so no 32-bit overflow is modelled. Two limits are left out:
  - Search length: `Solver.java`'s round counter, and with it every moves count and priority, wraps after about 2^31 rounds, on a board of any size.
  - Board size: `manhattan()` grows like N³ at worst, so it can pass 2^31 − 1 once N is above roughly 1300. Such a board can be built and handed to the solver. `manhattan + moves` and `priority - o.priority` then wrap as well.
- Board.Manhattan: requires a square grid. On a ragged array the source throws or skips cells; the same holds for Hamming and IsGoal.
- Board.Twin: requires a square grid, so the model's domain is square grids. The source's twin() reads only cells 0 and 1 of rows 0 and 1 and copies the rest, so on a ragged array whose first two rows have two cells it returns a board without throwing; such arrays are not modelled.
- Board.Neighbors: requires a board with a blank. On a board without a 0 the source's search ends with i = N and the first swap throws an index exception.
- Board.Twin: requires N ≥ 2, because the source indexes row 1 and column 1 and throws for smaller boards.
- Board.Equals: the `y == this` shortcut is not modelled separately. Boards are values, so an identical reference always has an identical grid and the answer is the same.
- Board.DeepCopy: null rows inside a non-null array are not modelled. The source would throw on cloning such a row.
- Board.DeepCopy: grids are values, so this version cannot say that the rows are fresh arrays. That aliasing fact is stated by Board.DeepCopyRows on row arrays (rows pairwise distinct, none shared with the input), and it is the DistinctRows that Board.NeighborsShared requires of the receiver.
- Threading: the source has none.

## Findings

| source | as written | input that shows it | evidently intended | confidence | as-written member | corrected member |
|---|---|---|---|---|---|---|
| src/Board.java:41 | `hamming` compares every cell with `i*N+j+1`, the blank included, so the blank always counts as out of place | the solved 3-by-3 board {{1,2,3},{4,5,6},{7,8,0}}: hamming() is 1 | the number of blocks (tiles) out of place, as the method's comment says, which is 0 on the goal board | not executed | Board.HammingOfGoal | Board.TilesOutOfPlaceZeroIffGoal |
