/**
 * The dual A* search of src/Solver.java and src/SolverM.java. Two frontiers
 * advance in lockstep: one seeded with the initial board, one with its twin.
 * Each round pops a minimum-priority node from each, tests the primary node
 * for the goal and then the twin node, and otherwise expands both popped
 * nodes, skipping the neighbor that would undo the last slide.
 *
 * The priority queue is a multiset of nodes; which minimal node delMin
 * returns is left open, so a round takes the two popped nodes as arguments
 * together with the requirement that each is minimal in its frontier.
 * The two solvers differ only in the moves count given to a child.
 */
module Solver {
  import opened Wrappers
  import opened Grids
  import opened Board

  /**
   * RoundCounter: Solver.java, where every child gets the number of the
   * round that inserts it. ParentDepth: SolverM.java, where children get
   * the primary popped node's moves + 1, in both frontiers.
   */
  datatype Variant = RoundCounter | ParentDepth

  /** SNode: a board, its predecessor (None for a root), its moves count and priority. */
  datatype Node = Node(board: Grid, prev: Option<Node>, moves: int, priority: int)

  /** new SNode(board, prev, moves): the priority is manhattan + moves. */
  function NewNode(b: Grid, prev: Option<Node>, moves: int): Node
    requires Square(b)
  {
    Node(b, prev, moves, Manhattan(b) + moves)
  }

  /** compareTo: negative, zero or positive as a's priority is below, equal to or above o's. */
  function CompareTo(a: Node, o: Node): (c: int)
    ensures c < 0 <==> a.priority < o.priority
    ensures c == 0 <==> a.priority == o.priority
    ensures c > 0 <==> a.priority > o.priority
  {
    a.priority - o.priority
  }

  /** n is a node delMin may return: it is in pq and no node of pq has a lower priority. */
  predicate IsMin(pq: multiset<Node>, n: Node)
  {
    n in pq && forall m :: m in pq ==> CompareTo(n, m) <= 0
  }

  /** delMin can always answer on a non-empty queue. */
  lemma {:induction false} MinExists(pq: multiset<Node>) returns (n: Node)
    requires |pq| > 0
    ensures IsMin(pq, n)
    decreases |pq|
  {
    var x :| x in pq;
    var rest := pq - multiset{x};
    if |rest| == 0 {
      n := x;
      assert pq == rest + multiset{x};
    } else {
      var m := MinExists(rest);
      n := if x.priority <= m.priority then x else m;
      forall y | y in pq
        ensures CompareTo(n, y) <= 0
      {
        if y != x {
          assert y in rest;
        }
      }
    }
  }

  /** The fate of a search: still running, solved with a goal node, or stopped by the twin's goal node. */
  datatype Status = Searching | Solved(goal: Node) | Unsolvable(twinGoal: Node)

  /** The two frontiers, the round counter of Solver.java and the status. */
  datatype State = State(pq: multiset<Node>, twinPq: multiset<Node>, round: int, status: Status)

  /** The constructor's seeding: one root per frontier, for initial and for initial.twin(). */
  function Start(initial: Grid): (s: State)
    requires Square(initial) && |initial| >= 2
    ensures |s.pq| == 1 && |s.twinPq| == 1 && s.round == 0 && s.status == Searching
    ensures forall n :: n in s.pq ==>
      n.board == initial && n.prev.None? && n.moves == 0 && n.priority == Manhattan(initial)
    ensures forall n :: n in s.twinPq ==>
      n.board == Twin(initial) && n.prev.None? && n.moves == 0 && n.priority == Manhattan(Twin(initial))
  {
    State(multiset{NewNode(initial, None, 0)}, multiset{NewNode(Twin(initial), None, 0)}, 0, Searching)
  }

  // ---------------------------------------------------------------------------
  // Expansion
  // ---------------------------------------------------------------------------

  /** The neighbor b of parent is skipped: it is the board of parent's predecessor. */
  predicate Pruned(parent: Node, b: Grid)
  {
    parent.prev.Some? && b == parent.prev.value.board
  }

  /** The boards of a sequence of nodes, in order. */
  function BoardsOf(c: seq<Node>): (bs: seq<Grid>)
    ensures |bs| == |c|
  {
    if |c| == 0 then [] else [c[0].board] + BoardsOf(c[1..])
  }

  /**
   * The nodes one expansion loop inserts: one per board, in order, except
   * a board equal to the predecessor's; a root keeps every board.
   */
  function Expand(parent: Node, boards: seq<Grid>, moves: int): (c: seq<Node>)
    requires forall b :: b in boards ==> Square(b)
    ensures |c| <= |boards|
    ensures parent.prev.None? ==> |c| == |boards|
    ensures forall n :: n in c ==>
      n.board in boards && !Pruned(parent, n.board) && n.prev == Some(parent) &&
      n.moves == moves && n.priority == Manhattan(n.board) + moves
    ensures forall b :: b in boards && !Pruned(parent, b) ==> exists n :: n in c && n.board == b
    decreases |boards|
  {
    if |boards| == 0 then []
    else
      var rest := Expand(parent, boards[1..], moves);
      assert forall b :: b in boards[1..] ==> b in boards;
      if Pruned(parent, boards[0]) then rest
      else [NewNode(boards[0], Some(parent), moves)] + rest
  }

  /**
   * Expansion inserts each board that is not pruned exactly as many times
   * as it occurs in boards, and a pruned board not at all.
   */
  lemma {:induction false} ExpandCounts(parent: Node, boards: seq<Grid>, moves: int, b: Grid)
    requires forall g :: g in boards ==> Square(g)
    ensures multiset(BoardsOf(Expand(parent, boards, moves)))[b] ==
      if Pruned(parent, b) then 0 else multiset(boards)[b]
    decreases |boards|
  {
    if |boards| > 0 {
      var rest := Expand(parent, boards[1..], moves);
      ExpandCounts(parent, boards[1..], moves, b);
      MultisetCons(boards);
      if !Pruned(parent, boards[0]) {
        BoardsOfCons(NewNode(boards[0], Some(parent), moves), rest);
      }
    }
  }

  /** The children of a popped node. */
  function Children(parent: Node, moves: int): seq<Node>
    requires Square(parent.board) && HasBlank(parent.board)
  {
    Expand(parent, Neighbors(parent.board), moves)
  }

  /** n was inserted while expanding parent with the given moves count. */
  ghost predicate Offspring(n: Node, parent: Node, moves: int)
  {
    Square(parent.board) && HasBlank(parent.board) && n.board in Neighbors(parent.board) &&
    n.prev == Some(parent) && n.moves == moves && n.priority == Manhattan(n.board) + moves &&
    !Pruned(parent, n.board)
  }

  /** A well-formed board always has a child: of two distinct neighbors at most one is pruned. */
  lemma ChildrenNonEmpty(parent: Node, moves: int)
    requires WellFormed(parent.board)
    ensures HasBlank(parent.board)
    ensures |Children(parent, moves)| >= 1
  {
    NeighborsDistinct(parent.board);
    var nb := Neighbors(parent.board);
    var c := Children(parent, moves);
    if Pruned(parent, nb[0]) {
      assert nb[1] in nb && !Pruned(parent, nb[1]);
    } else {
      assert nb[0] in nb;
    }
  }

  // ---------------------------------------------------------------------------
  // One round
  // ---------------------------------------------------------------------------

  /** The moves count every child of the round after s receives, in either frontier. */
  function ChildMoves(v: Variant, s: State, cur: Node): int
  {
    match v
    case RoundCounter => s.round + 1
    case ParentDepth => cur.moves + 1
  }

  /** The round may run: both popped nodes are minimal and their boards can be expanded. */
  ghost predicate CanRound(s: State, cur: Node, curTwin: Node)
  {
    s.status == Searching && IsMin(s.pq, cur) && IsMin(s.twinPq, curTwin) &&
    Square(cur.board) && HasBlank(cur.board) && Square(curTwin.board) && HasBlank(curTwin.board)
  }

  /**
   * One iteration of the search loop, with cur and curTwin the nodes the two
   * delMin calls return. The primary goal test comes first; a twin goal only
   * counts when the primary node is not a goal. Otherwise the counter goes
   * up and both nodes are expanded, both with the same child moves count.
   */
  function Round(s: State, v: Variant, cur: Node, curTwin: Node): (r: State)
    requires CanRound(s, cur, curTwin)
    ensures IsGoal(cur.board) ==> r.status == Solved(cur)
    ensures !IsGoal(cur.board) && IsGoal(curTwin.board) ==> r.status == Unsolvable(curTwin)
    ensures r.status == Searching <==> !IsGoal(cur.board) && !IsGoal(curTwin.board)
    ensures r.round == if r.status == Searching then s.round + 1 else s.round
  {
    var pq, twinPq := s.pq - multiset{cur}, s.twinPq - multiset{curTwin};
    if IsGoal(cur.board) then State(pq, twinPq, s.round, Solved(cur))
    else if IsGoal(curTwin.board) then State(pq, twinPq, s.round, Unsolvable(curTwin))
    else
      var moves := ChildMoves(v, s, cur);
      State(pq + multiset(Children(cur, moves)), twinPq + multiset(Children(curTwin, moves)), s.round + 1, Searching)
  }

  /** The nodes a round added to a frontier: what it holds beyond what the pop left. */
  function Inserted(before: multiset<Node>, popped: Node, after: multiset<Node>): multiset<Node>
  {
    after - (before - multiset{popped})
  }

  /** Every child of parent is a non-pruned neighbor hung below parent with the given moves. */
  lemma ChildrenAreOffspring(parent: Node, moves: int)
    requires Square(parent.board) && HasBlank(parent.board)
    ensures forall n :: n in multiset(Children(parent, moves)) ==> Offspring(n, parent, moves)
  {
  }

  /** Adding a batch to what is left after a pop: the batch is exactly what was inserted. */
  lemma AddBatch(left: multiset<Node>, batch: seq<Node>)
    ensures left <= left + multiset(batch)
    ensures (left + multiset(batch)) - left == multiset(batch)
  {
  }

  /**
   * A round removes exactly the popped node from each frontier, and adds
   * nothing when it stops the search.
   */
  lemma RoundPops(s: State, v: Variant, cur: Node, curTwin: Node)
    requires CanRound(s, cur, curTwin)
    ensures s.pq - multiset{cur} <= Round(s, v, cur, curTwin).pq
    ensures s.twinPq - multiset{curTwin} <= Round(s, v, cur, curTwin).twinPq
    ensures Round(s, v, cur, curTwin).status != Searching ==>
      Round(s, v, cur, curTwin).pq == s.pq - multiset{cur} &&
      Round(s, v, cur, curTwin).twinPq == s.twinPq - multiset{curTwin}
  {
    if !IsGoal(cur.board) && !IsGoal(curTwin.board) {
      var moves := ChildMoves(v, s, cur);
      AddBatch(s.pq - multiset{cur}, Children(cur, moves));
      AddBatch(s.twinPq - multiset{curTwin}, Children(curTwin, moves));
    }
  }

  /** A sequence's multiset splits off its first element. */
  lemma MultisetCons(s: seq<Grid>)
    requires |s| > 0
    ensures multiset(s) == multiset{s[0]} + multiset(s[1..])
  {
    assert s == [s[0]] + s[1..];
  }

  /** The boards of a node prepended to a sequence. */
  lemma BoardsOfCons(x: Node, rest: seq<Node>)
    ensures multiset(BoardsOf([x] + rest)) == multiset{x.board} + multiset(BoardsOf(rest))
  {
    assert ([x] + rest)[1..] == rest;
  }

  /**
   * A round that goes on inserts into each frontier exactly the children of
   * its popped node: every neighbor board except the pruned one, each as
   * often as neighbors() returns it, and nothing else.
   */
  lemma RoundInsertsChildren(s: State, v: Variant, cur: Node, curTwin: Node, b: Grid)
    requires CanRound(s, cur, curTwin)
    ensures var r, m := Round(s, v, cur, curTwin), ChildMoves(v, s, cur);
      r.status == Searching ==>
        && Inserted(s.pq, cur, r.pq) == multiset(Children(cur, m))
        && Inserted(s.twinPq, curTwin, r.twinPq) == multiset(Children(curTwin, m))
        && multiset(BoardsOf(Children(cur, m)))[b] ==
             (if Pruned(cur, b) then 0 else multiset(Neighbors(cur.board))[b])
        && multiset(BoardsOf(Children(curTwin, m)))[b] ==
             (if Pruned(curTwin, b) then 0 else multiset(Neighbors(curTwin.board))[b])
  {
    if !IsGoal(cur.board) && !IsGoal(curTwin.board) {
      var m := ChildMoves(v, s, cur);
      AddBatch(s.pq - multiset{cur}, Children(cur, m));
      AddBatch(s.twinPq - multiset{curTwin}, Children(curTwin, m));
      ExpandCounts(cur, Neighbors(cur.board), m, b);
      ExpandCounts(curTwin, Neighbors(curTwin.board), m, b);
    }
  }

  /** Expanding parent into a frontier inserts exactly its children, each one a slide away. */
  lemma ExpandInserts(left: multiset<Node>, parent: Node, moves: int)
    requires Square(parent.board) && HasBlank(parent.board)
    ensures left <= left + multiset(Children(parent, moves))
    ensures forall n :: n in (left + multiset(Children(parent, moves))) - left ==> Offspring(n, parent, moves)
  {
    AddBatch(left, Children(parent, moves));
    ChildrenAreOffspring(parent, moves);
  }

  /**
   * Every node a round inserts is a child of the popped node of its own
   * frontier and carries the round's child moves count, which for the twin
   * frontier too is computed from the primary popped node.
   */
  lemma RoundInsertsOffspring(s: State, v: Variant, cur: Node, curTwin: Node)
    requires CanRound(s, cur, curTwin)
    ensures var r := Round(s, v, cur, curTwin);
      r.status == Searching ==>
        (forall n :: n in Inserted(s.pq, cur, r.pq) ==> Offspring(n, cur, ChildMoves(v, s, cur))) &&
        (forall n :: n in Inserted(s.twinPq, curTwin, r.twinPq) ==> Offspring(n, curTwin, ChildMoves(v, s, cur)))
  {
    if !IsGoal(cur.board) && !IsGoal(curTwin.board) {
      var moves := ChildMoves(v, s, cur);
      ExpandInserts(s.pq - multiset{cur}, cur, moves);
      ExpandInserts(s.twinPq - multiset{curTwin}, curTwin, moves);
    }
  }

  /** Expanding parent into a frontier adds a child for every neighbor except the pruned one. */
  lemma ExpandCovers(left: multiset<Node>, parent: Node, moves: int)
    requires Square(parent.board) && HasBlank(parent.board)
    ensures forall b :: b in Neighbors(parent.board) && !Pruned(parent, b) ==>
      exists n :: n in left + multiset(Children(parent, moves)) && n.prev == Some(parent) && n.board == b
  {
    var kids := Children(parent, moves);
    forall b | b in Neighbors(parent.board) && !Pruned(parent, b)
      ensures exists n :: n in left + multiset(kids) && n.prev == Some(parent) && n.board == b
    {
      var n :| n in kids && n.board == b;
      assert n in left + multiset(kids);
    }
  }

  /** A round that goes on inserts a child for every neighbor of a popped board except the pruned one. */
  lemma RoundCoversNeighbors(s: State, v: Variant, cur: Node, curTwin: Node)
    requires CanRound(s, cur, curTwin)
    ensures var r := Round(s, v, cur, curTwin);
      r.status == Searching ==>
        (forall b :: b in Neighbors(cur.board) && !Pruned(cur, b) ==>
           exists n :: n in r.pq && n.prev == Some(cur) && n.board == b) &&
        (forall b :: b in Neighbors(curTwin.board) && !Pruned(curTwin, b) ==>
           exists n :: n in r.twinPq && n.prev == Some(curTwin) && n.board == b)
  {
    if !IsGoal(cur.board) && !IsGoal(curTwin.board) {
      var moves := ChildMoves(v, s, cur);
      ExpandCovers(s.pq - multiset{cur}, cur, moves);
      ExpandCovers(s.twinPq - multiset{curTwin}, curTwin, moves);
    }
  }

  /** Solver.java: every node a round inserts, primary or twin, is numbered with the new round counter. */
  lemma SolverNumbersByRound(s: State, cur: Node, curTwin: Node)
    requires CanRound(s, cur, curTwin)
    ensures var r := Round(s, RoundCounter, cur, curTwin);
      r.status == Searching ==>
        (forall n :: n in Inserted(s.pq, cur, r.pq) ==> n.moves == r.round) &&
        (forall n :: n in Inserted(s.twinPq, curTwin, r.twinPq) ==> n.moves == r.round)
  {
    RoundInsertsOffspring(s, RoundCounter, cur, curTwin);
    assert ChildMoves(RoundCounter, s, cur) == s.round + 1;
  }

  /** SolverM.java: inserted nodes get cur.moves + 1, the twin frontier's too. */
  lemma SolverMNumbersByDepth(s: State, cur: Node, curTwin: Node)
    requires CanRound(s, cur, curTwin)
    ensures var r := Round(s, ParentDepth, cur, curTwin);
      r.status == Searching ==>
        (forall n :: n in Inserted(s.pq, cur, r.pq) ==> n.prev == Some(cur) && n.moves == cur.moves + 1) &&
        (forall n :: n in Inserted(s.twinPq, curTwin, r.twinPq) ==> n.prev == Some(curTwin) && n.moves == cur.moves + 1)
  {
    RoundInsertsOffspring(s, ParentDepth, cur, curTwin);
    assert ChildMoves(ParentDepth, s, cur) == cur.moves + 1;
  }

  // ---------------------------------------------------------------------------
  // Invariants
  // ---------------------------------------------------------------------------

  /** Number of predecessors of n. */
  function Depth(n: Node): nat
    decreases n
  {
    match n.prev
    case None => 0
    case Some(p) => Depth(p) + 1
  }

  /** The boards from the root of n's chain down to n. */
  function Chain(n: Node): (c: seq<Grid>)
    decreases n
  {
    match n.prev
    case None => [n.board]
    case Some(p) => Chain(p) + [n.board]
  }

  /** n descends through legal slides from a root node with 0 moves holding `root`. */
  ghost predicate Rooted(n: Node, root: Grid)
    decreases n
  {
    match n.prev
    case None => n.board == root && n.moves == 0
    case Some(p) => Rooted(p, root) && IsNeighbor(p.board, n.board)
  }

  /** Slides keep boards well formed, so every board below a well-formed root is well formed. */
  lemma {:induction false} RootedWellFormed(n: Node, root: Grid)
    requires WellFormed(root) && Rooted(n, root)
    ensures WellFormed(n.board)
    decreases n
  {
    match n.prev
    case None =>
    case Some(p) =>
      RootedWellFormed(p, root);
      NeighborWellFormed(p.board, n.board);
  }

  /** SolverM.java's numbering of a chain: 0 at the root, one more at each step down. */
  predicate DepthNumbered(n: Node)
    decreases n
  {
    match n.prev
    case None => n.moves == 0
    case Some(p) => n.moves == p.moves + 1 && DepthNumbered(p)
  }

  /** The moves counts of the chain of n, root first. */
  function ChainMoves(n: Node): (ms: seq<int>)
    decreases n
  {
    match n.prev
    case None => [n.moves]
    case Some(p) => ChainMoves(p) + [n.moves]
  }

  /**
   * On a chain numbered as in SolverM.java the k-th node from the root has
   * moves k, so every node's moves count is its depth.
   */
  lemma {:induction false} DepthNumberedChain(n: Node)
    requires DepthNumbered(n)
    ensures n.moves == Depth(n)
    ensures |ChainMoves(n)| == Depth(n) + 1
    ensures forall k :: 0 <= k < |ChainMoves(n)| ==> ChainMoves(n)[k] == k
    decreases n
  {
    match n.prev
    case None =>
    case Some(p) =>
      DepthNumberedChain(p);
  }

  /**
   * What the moves count means in each variant: in SolverM.java the depth,
   * along the whole chain; in Solver.java a round number, at least the depth.
   */
  ghost predicate MovesMeaning(n: Node, v: Variant, round: int)
  {
    match v
    case ParentDepth => DepthNumbered(n)
    case RoundCounter => Depth(n) <= n.moves <= round
  }

  /**
   * Every node of a frontier descends from root and is queued at priority
   * manhattan + moves. The priority half is keyed on Manhattan(n.board), so
   * the distance of a queued board is only unfolded where a proof asks for it.
   */
  ghost predicate Queued(pq: multiset<Node>, root: Grid)
  {
    && (forall n :: n in pq ==> Rooted(n, root) && Square(n.board))
    && (forall n {:trigger Manhattan(n.board)} :: n in pq && Square(n.board) ==> n.priority == Manhattan(n.board) + n.moves)
  }

  /** Every node of a frontier has a moves count with the variant's meaning. */
  ghost predicate Numbered(pq: multiset<Node>, v: Variant, round: int)
  {
    forall n :: n in pq ==> MovesMeaning(n, v, round)
  }

  /**
   * The search invariant, kept by every round. In SolverM.java the twin
   * frontier's moves counts follow the primary frontier's and mean nothing
   * about the twin's own chains, so only Solver.java numbers them.
   */
  ghost predicate Inv(s: State, initial: Grid, v: Variant)
  {
    && WellFormed(initial)
    && s.round >= 0
    && Queued(s.pq, initial)
    && Queued(s.twinPq, Twin(initial))
    && Numbered(s.pq, v, s.round)
    && (v == RoundCounter ==> Numbered(s.twinPq, v, s.round))
    && (s.status == Searching ==> |s.pq| > 0 && |s.twinPq| > 0)
    && (s.status.Solved? ==>
          Rooted(s.status.goal, initial) && MovesMeaning(s.status.goal, v, s.round) &&
          WellFormed(s.status.goal.board) && IsGoal(s.status.goal.board))
    && (s.status.Unsolvable? ==>
          Rooted(s.status.twinGoal, Twin(initial)) && IsGoal(s.status.twinGoal.board))
  }

  /** In the first round delMin can only return the two roots. */
  lemma StartPops(initial: Grid, cur: Node, curTwin: Node)
    requires Square(initial) && |initial| >= 2
    requires IsMin(Start(initial).pq, cur) && IsMin(Start(initial).twinPq, curTwin)
    ensures cur == NewNode(initial, None, 0) && curTwin == NewNode(Twin(initial), None, 0)
  {
    assert cur in Start(initial).pq && curTwin in Start(initial).twinPq;
  }

  /**
   * The first round decides a goal board or a goal twin at once: the
   * popped roots are tested before anything is expanded.
   */
  lemma FirstRound(initial: Grid, v: Variant, cur: Node, curTwin: Node)
    requires WellFormed(initial)
    requires IsMin(Start(initial).pq, cur) && IsMin(Start(initial).twinPq, curTwin)
    ensures CanRound(Start(initial), cur, curTwin)
    ensures IsGoal(initial) ==> Round(Start(initial), v, cur, curTwin).status == Solved(NewNode(initial, None, 0))
    ensures !IsGoal(initial) && IsGoal(Twin(initial)) ==>
      Round(Start(initial), v, cur, curTwin).status == Unsolvable(NewNode(Twin(initial), None, 0))
  {
    StartInv(initial, v);
    PoppedReady(Start(initial), initial, v, cur, curTwin);
    StartPops(initial, cur, curTwin);
  }

  /** The seeded state satisfies the invariant. */
  lemma StartInv(initial: Grid, v: Variant)
    requires WellFormed(initial)
    ensures Inv(Start(initial), initial, v)
  {
  }

  /** Nodes popped from a running search hold well-formed boards, so the round can run. */
  lemma PoppedReady(s: State, initial: Grid, v: Variant, cur: Node, curTwin: Node)
    requires Inv(s, initial, v) && s.status == Searching
    requires IsMin(s.pq, cur) && IsMin(s.twinPq, curTwin)
    ensures WellFormed(cur.board) && WellFormed(curTwin.board)
    ensures CanRound(s, cur, curTwin)
  {
    RootedWellFormed(cur, initial);
    TwinSwapsTwoTiles(initial);
    RootedWellFormed(curTwin, Twin(initial));
    WellFormedHasBlank(cur.board);
    WellFormedHasBlank(curTwin.board);
  }

  /** An inserted child hangs one slide below its parent. */
  lemma ChildRooted(parent: Node, n: Node, root: Grid, moves: int)
    requires Rooted(parent, root) && Offspring(n, parent, moves)
    ensures Rooted(n, root) && Depth(n) == Depth(parent) + 1
  {
    NeighborsSound(parent.board, n.board);
  }

  /** Popping a node and inserting offspring of it keeps a frontier rooted and correctly prioritised. */
  lemma QueuedStep(before: multiset<Node>, popped: Node, after: multiset<Node>, root: Grid, moves: int)
    requires Queued(before, root) && popped in before
    requires before - multiset{popped} <= after
    requires forall n :: n in Inserted(before, popped, after) ==> Offspring(n, popped, moves)
    ensures Queued(after, root)
  {
    forall n | n in after
      ensures Rooted(n, root) && Square(n.board) && n.priority == Manhattan(n.board) + n.moves
    {
      if n in before - multiset{popped} {
        assert n in before;
      } else {
        assert n in Inserted(before, popped, after);
        ChildRooted(popped, n, root, moves);
      }
    }
  }

  /** Popping a node and inserting children with the variant's moves count keeps a frontier numbered. */
  lemma NumberedStep(before: multiset<Node>, popped: Node, after: multiset<Node>, v: Variant,
                     round: int, newRound: int, moves: int)
    requires Numbered(before, v, round) && popped in before && round <= newRound
    requires before - multiset{popped} <= after
    requires forall n :: n in Inserted(before, popped, after) ==> n.prev == Some(popped) && n.moves == moves
    requires v == ParentDepth ==> moves == popped.moves + 1
    requires v == RoundCounter ==> moves == newRound == round + 1
    ensures Numbered(after, v, newRound)
  {
    forall n | n in after
      ensures MovesMeaning(n, v, newRound)
    {
      if n in before - multiset{popped} {
        assert n in before;
      } else {
        assert n in Inserted(before, popped, after);
        assert MovesMeaning(popped, v, round);
      }
    }
  }

  /** Expanding a well-formed board never leaves its frontier empty. */
  lemma ExpandNonEmpty(left: multiset<Node>, parent: Node, moves: int)
    requires WellFormed(parent.board)
    ensures HasBlank(parent.board)
    ensures |left + multiset(Children(parent, moves))| > 0
  {
    ChildrenNonEmpty(parent, moves);
    assert Children(parent, moves)[0] in left + multiset(Children(parent, moves));
  }

  /** A round that goes on leaves both frontiers non-empty: each popped board has a child. */
  lemma RoundKeepsFrontiers(s: State, v: Variant, cur: Node, curTwin: Node)
    requires CanRound(s, cur, curTwin) && WellFormed(cur.board) && WellFormed(curTwin.board)
    ensures Round(s, v, cur, curTwin).status == Searching ==>
      |Round(s, v, cur, curTwin).pq| > 0 && |Round(s, v, cur, curTwin).twinPq| > 0
  {
    if !IsGoal(cur.board) && !IsGoal(curTwin.board) {
      var moves := ChildMoves(v, s, cur);
      ExpandNonEmpty(s.pq - multiset{cur}, cur, moves);
      ExpandNonEmpty(s.twinPq - multiset{curTwin}, curTwin, moves);
    }
  }

  /** A round that goes on keeps the invariant. */
  lemma ContinuingRoundInv(s: State, initial: Grid, v: Variant, cur: Node, curTwin: Node)
    requires Inv(s, initial, v) && CanRound(s, cur, curTwin)
    requires !IsGoal(cur.board) && !IsGoal(curTwin.board)
    ensures Inv(Round(s, v, cur, curTwin), initial, v)
  {
    var r := Round(s, v, cur, curTwin);
    var moves := ChildMoves(v, s, cur);
    PoppedReady(s, initial, v, cur, curTwin);
    RoundPops(s, v, cur, curTwin);
    RoundInsertsOffspring(s, v, cur, curTwin);
    QueuedStep(s.pq, cur, r.pq, initial, moves);
    QueuedStep(s.twinPq, curTwin, r.twinPq, Twin(initial), moves);
    NumberedStep(s.pq, cur, r.pq, v, s.round, r.round, moves);
    if v == RoundCounter {
      NumberedStep(s.twinPq, curTwin, r.twinPq, v, s.round, r.round, moves);
    }
    RoundKeepsFrontiers(s, v, cur, curTwin);
  }

  /** What is left of a frontier after a pop keeps its nodes' properties. */
  lemma FrontierShrinks(before: multiset<Node>, popped: Node, root: Grid, v: Variant, round: int)
    ensures Queued(before, root) ==> Queued(before - multiset{popped}, root)
    ensures Numbered(before, v, round) ==> Numbered(before - multiset{popped}, v, round)
  {
    forall n | n in before - multiset{popped}
      ensures n in before
    {
    }
  }

  /** A round that stops the search keeps the invariant; a solution is a rooted goal. */
  lemma StoppingRoundInv(s: State, initial: Grid, v: Variant, cur: Node, curTwin: Node)
    requires Inv(s, initial, v) && CanRound(s, cur, curTwin)
    requires IsGoal(cur.board) || IsGoal(curTwin.board)
    ensures Inv(Round(s, v, cur, curTwin), initial, v)
  {
    PoppedReady(s, initial, v, cur, curTwin);
    FrontierShrinks(s.pq, cur, initial, v, s.round);
    FrontierShrinks(s.twinPq, curTwin, Twin(initial), v, s.round);
  }

  /** Every round keeps the invariant, in both variants. */
  lemma RoundInv(s: State, initial: Grid, v: Variant, cur: Node, curTwin: Node)
    requires Inv(s, initial, v) && CanRound(s, cur, curTwin)
    ensures Inv(Round(s, v, cur, curTwin), initial, v)
  {
    if IsGoal(cur.board) || IsGoal(curTwin.board) {
      StoppingRoundInv(s, initial, v, cur, curTwin);
    } else {
      ContinuingRoundInv(s, initial, v, cur, curTwin);
    }
  }

  // ---------------------------------------------------------------------------
  // The search loop and the result accessors
  // ---------------------------------------------------------------------------

  /**
   * The constructor's loop, run for at most `fuel` rounds (the source loops
   * until a goal is popped); delMin's choice among minimal nodes is arbitrary.
   */
  method Solve(initial: Grid, v: Variant, fuel: nat) returns (s: State)
    requires WellFormed(initial)
    ensures Inv(s, initial, v)
    ensures s.status.Solved? ==> IsGoal(s.status.goal.board) && Chain(s.status.goal)[0] == initial
    ensures s.status.Unsolvable? ==> IsGoal(s.status.twinGoal.board) && Chain(s.status.twinGoal)[0] == Twin(initial)
    ensures s.status == Searching ==> s.round == fuel
    ensures fuel > 0 && IsGoal(initial) ==> s.status == Solved(NewNode(initial, None, 0))
    ensures fuel > 0 && !IsGoal(initial) && IsGoal(Twin(initial)) ==>
      s.status == Unsolvable(NewNode(Twin(initial), None, 0))
  {
    s := Start(initial);
    StartInv(initial, v);
    if fuel > 0 {
      ghost var c0 := MinExists(s.pq);
      ghost var t0 := MinExists(s.twinPq);
      var cur :| IsMin(s.pq, cur);
      var curTwin :| IsMin(s.twinPq, curTwin);
      FirstRound(initial, v, cur, curTwin);
      RoundInv(s, initial, v, cur, curTwin);
      s := Round(s, v, cur, curTwin);
      s := RunRounds(s, initial, v, fuel - 1);
    }
    VerdictChains(s, initial, v);
  }

  /** A verdict's goal node descends from the root of its own search: initial, or initial.twin(). */
  lemma VerdictChains(s: State, initial: Grid, v: Variant)
    requires Inv(s, initial, v)
    ensures s.status.Solved? ==> IsGoal(s.status.goal.board) && Chain(s.status.goal)[0] == initial
    ensures s.status.Unsolvable? ==> IsGoal(s.status.twinGoal.board) && Chain(s.status.twinGoal)[0] == Twin(initial)
  {
    if s.status.Solved? {
      ChainEnds(s.status.goal, initial);
    } else if s.status.Unsolvable? {
      ChainEnds(s.status.twinGoal, Twin(initial));
    }
  }

  /**
   * The loop after its first round: at most n more rounds, each keeping the
   * invariant. A search that has already stopped is returned as it is, and
   * one still running after the n rounds has counted all of them.
   */
  method RunRounds(s0: State, initial: Grid, v: Variant, n: nat) returns (s: State)
    requires Inv(s0, initial, v)
    ensures Inv(s, initial, v)
    ensures s0.status != Searching ==> s == s0
    ensures s.status == Searching ==> s.round == s0.round + n
  {
    s := s0;
    var k := 0;
    while k < n && s.status == Searching
      invariant 0 <= k <= n
      invariant Inv(s, initial, v)
      invariant s0.status != Searching ==> s == s0
      invariant s.status == Searching ==> s.round == s0.round + k
    {
      ghost var c0 := MinExists(s.pq);
      ghost var t0 := MinExists(s.twinPq);
      var cur :| IsMin(s.pq, cur);
      var curTwin :| IsMin(s.twinPq, curTwin);
      PoppedReady(s, initial, v, cur, curTwin);
      RoundInv(s, initial, v, cur, curTwin);
      s := Round(s, v, cur, curTwin);
      k := k + 1;
    }
  }


  /** The solution field once the loop has stopped: the goal node, or null if the twin won. */
  function SolutionNode(s: State): (sol: Option<Node>)
    requires s.status != Searching
    ensures sol.Some? <==> s.status.Solved?
  {
    if s.status.Solved? then Some(s.status.goal) else None
  }

  /** isSolvable(). */
  function IsSolvable(solution: Option<Node>): bool
  {
    solution.Some?
  }

  /** moves(): -1 when there is no solution node. */
  function Moves(solution: Option<Node>): int
  {
    if solution.None? then -1 else solution.value.moves
  }

  /** After a search that stopped, the three views of the result agree. */
  lemma AccessorsAgree(s: State, initial: Grid, v: Variant)
    requires Inv(s, initial, v) && s.status != Searching
    ensures !IsSolvable(SolutionNode(s)) <==> Moves(SolutionNode(s)) == -1
    ensures Moves(SolutionNode(s)) == -1 <==> SolutionNode(s).None?
    ensures IsSolvable(SolutionNode(s)) ==> Moves(SolutionNode(s)) >= 0
  {
    if s.status.Solved? && v == ParentDepth {
      DepthNumberedChain(s.status.goal);
    }
  }

  /**
   * solution(): null without a solution node; otherwise the boards of the
   * predecessor chain, pushed goal first onto a stack and so read root first.
   */
  method SolutionBoards(solution: Option<Node>) returns (boards: Option<seq<Grid>>)
    ensures boards.None? <==> solution.None?
    ensures solution.Some? ==> boards == Some(Chain(solution.value))
  {
    if solution.None? {
      return None;
    }
    var stack: seq<Grid> := [];
    var ptr := solution;
    while ptr.Some?
      invariant ptr.Some? ==> Chain(ptr.value) + stack == Chain(solution.value)
      invariant ptr.None? ==> stack == Chain(solution.value)
      decreases ptr
    {
      stack := [ptr.value.board] + stack;
      ptr := ptr.value.prev;
    }
    return Some(stack);
  }

  /** The chain of a rooted node starts at the root board, ends at the node's board and has one board more than the depth. */
  lemma {:induction false} ChainEnds(n: Node, root: Grid)
    requires Rooted(n, root)
    ensures |Chain(n)| == Depth(n) + 1
    ensures Chain(n)[0] == root && Chain(n)[|Chain(n)| - 1] == n.board
    decreases n
  {
    match n.prev
    case None =>
    case Some(p) =>
      ChainEnds(p, root);
  }

  /** Boards k and k + 1 of the chain of a rooted node are one slide apart. */
  lemma {:induction false} ChainStep(n: Node, root: Grid, k: int)
    requires Rooted(n, root) && 0 <= k < |Chain(n)| - 1
    ensures IsNeighbor(Chain(n)[k], Chain(n)[k + 1])
    decreases n
  {
    match n.prev
    case None =>
    case Some(p) =>
      ChainEnds(p, root);
      var c := Chain(p);
      assert Chain(n) == c + [n.board];
      if k < |c| - 1 {
        ChainStep(p, root, k);
      }
  }

  /**
   * A solved search yields the path initial, ..., goal by single slides.
   * In SolverM.java it has moves() + 1 boards and the k-th node from the
   * root has moves k; in Solver.java moves() is
   * the number of the round that inserted the goal, which is at least the
   * number of slides on the path.
   */
  lemma SolutionPath(s: State, initial: Grid, v: Variant)
    requires Inv(s, initial, v) && s.status.Solved?
    ensures var path := Chain(s.status.goal);
      && path[0] == initial
      && IsGoal(path[|path| - 1])
      && (forall k :: 0 <= k < |path| - 1 ==> IsNeighbor(path[k], path[k + 1]))
      && (v == ParentDepth ==> |path| == Moves(SolutionNode(s)) + 1)
      && (v == ParentDepth ==>
            var ms := ChainMoves(s.status.goal);
            |ms| == |path| && forall k :: 0 <= k < |ms| ==> ms[k] == k)
      && (v == RoundCounter ==> |path| <= Moves(SolutionNode(s)) + 1)
  {
    var goal := s.status.goal;
    ChainEnds(goal, initial);
    ChainSteps(goal, initial);
    if v == ParentDepth {
      DepthNumberedChain(goal);
    }
  }

  /**
   * A search stopped by the twin yields the path initial.twin(), ..., goal
   * by single slides: the twin board, not the initial one, reaches the goal.
   */
  lemma TwinGoalPath(s: State, initial: Grid, v: Variant)
    requires Inv(s, initial, v) && s.status.Unsolvable?
    ensures SolutionNode(s).None?
    ensures var path := Chain(s.status.twinGoal);
      && path[0] == Twin(initial)
      && IsGoal(path[|path| - 1])
      && (forall k :: 0 <= k < |path| - 1 ==> IsNeighbor(path[k], path[k + 1]))
  {
    var goal := s.status.twinGoal;
    ChainEnds(goal, Twin(initial));
    ChainSteps(goal, Twin(initial));
  }

  /** Every two consecutive boards of the chain of a rooted node are one slide apart. */
  lemma ChainSteps(n: Node, root: Grid)
    requires Rooted(n, root)
    ensures forall k :: 0 <= k < |Chain(n)| - 1 ==> IsNeighbor(Chain(n)[k], Chain(n)[k + 1])
  {
    forall k | 0 <= k < |Chain(n)| - 1
      ensures IsNeighbor(Chain(n)[k], Chain(n)[k + 1])
    {
      ChainStep(n, root, k);
    }
  }
}
