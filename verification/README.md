# Maze and river-crossing search, modelled in Dafny

The repository solves two puzzles with a family of uninformed and informed
search algorithms, and generates random mazes.

* **The maze.** A rectangular grid of cells, where 1 is a wall. A robot
  has a position and a goal, and moves with four actions, written as (row, column) steps:
  - 0 moves one column right and 3 one column left;
  - 1 moves one row down and 2 one row up.
  
  Action `3 - a` undoes action `a`. A situation is valid when it is inside
  the grid and not on a wall. It is finished when the position equals the
  goal.
* **The wolf, the goat and the cabbage.** A state lists who is on the left
  bank, on the right bank and in the boat, and where the boat is moored.
  There are seven actions:
  - 0-2 load a passenger from the left bank;
  - 3-5 load a passenger from the right bank;
  - 6 crosses the river and unloads.
  
  A state is invalid when the goat is left with the wolf or the cabbage on
  a bank the farmer is not at.
* **The solvers.** Each returns an action list or None:
  - `dfs`: recursive depth-first search that avoids the current path;
  - `bfs`: breadth-first search with a visited set;
  - `ucs`: uniform-cost search with a heap of `(cost, situation, actions)`;
  - `bnb`: best-first search keyed by a heuristic, which also reports a
    statistic (solution length, largest depth, expansions);
  - `bidirectional_search`: two alternating breadth-first fronts that join
    their paths when they meet;
  - `dfs_with_cmp`: iterative depth-first search over river states, whose
    successors are ordered by a comparator.
* **The generator.** It carves a maze by randomised depth-first carving
  from given start cells, then opens two corners. A cell is carved only
  while it is a wall with exactly one open neighbour inside the grid.

The Dafny modules follow the source files:

| module | models |
|---|---|
| `MazeEnv` (maze_environment.dfy) | maze/environment.py |
| `RiverCrossing` (river_crossing.dfy) | wolf_goat_cabbage/environment.py |
| `Dfs`, `Bfs`, `Ucs`, `Bnb`, `Bidirectional`, `DfsWithCmp` | the solvers of the same names |
| `MazeGenerator` (maze_generator.dfy) | maze/generator.py |
| `Frontier`, `Bag`, `Wrappers` | shared proof vocabulary |

Code that mutates state is modelled in the same form:
- each search loop is a `method` with a `while` loop and its invariants;
- the bidirectional search's two fronts are objects of class `Side`, which
  update their queue and map in place;
- the path list of `dfs` is an object that is appended to and popped;
- the generator carves an `array2`.

The search methods are proved against two things:
- what a search promises: the result is a route to the goal, breadth-first
  and uniform-cost results are shortest, and None means that no route
  exists;
- reference functions (the recursive `Dfs.Search`, the comparator sort
  `DfsWithCmp.SortActions`).

Some behaviours of the source are deliberate observations rather than
intended properties:

- **The forward join does not invert.** In `expand_front`, the side called
  with `reverse_path = False` joins paths as `other_path[::-1] + path`
  without inverting the actions. The caller passes the initial side there.
  - `Bidirectional.ForwardJoinCanMiss` shows a two-cell corridor where
    this join walks there and back instead of arriving.
  - `Bidirectional.BackwardJoinReaches` proves that the other formula,
    `path + [3 - x for x in other_path[::-1]]`, always leads from the goal
    argument to the initial one. That result is a path from the goal to the
    start, because the caller passes the goal side as the inverting one.
    The docstring (solvers/bidirectional_search.py:8, 12) promises actions
    from the initial situation to the goal, so for the function's own
    arguments this join runs the opposite way. It becomes a start-to-goal
    route only in the program's callers: `main.py:70` and `statistic.py:45`
    call `partial(bidirectional_search, goal_situation)`, which binds the
    real goal as `initial_situation`.
- **`cmp` is not antisymmetric.** In `dfs_with_cmp`, `cmp` returns 1 both
  for two missing successors and for two different successors of equal
  rank. Python's sort only asks "less than", so the order is the rank
  order, and ties stay in action order (`DfsWithCmp.SortActionsOrdered`).
  The last sorted successor is popped first.
- **The generator needs a square grid.** `maze[w-1][h-1]` is in range only
  when `w == h`; otherwise the source raises an index error. When `w < 1`
  or `h < 1`, the first `random.randint(0, w - 1)` or
  `random.randint(0, h - 1)` raises a value error as soon as there is a
  path to carve, and with no paths the corner assignment raises an index
  error. `MazeGenerator.Generate` returns None in all of these cases.
- **An undefined import.** `bfs.py`, `dfs.py`, `ucs.py` and `dfs_with_cmp.py` import
  `State` from `maze/environment.py`, which does not define it. The model
  uses the environment's own types.

## Model

| member | source | states |
|---|---|---|
| MazeEnv.CheckBoundaries | maze/environment.py:29-40 | true exactly when the position lies outside the rectangular grid |
| MazeEnv.CheckWalls | maze/environment.py:41-49 | an in-bounds cell is a wall exactly when it is not an open cell of the grid |
| MazeEnv.Valid | maze/environment.py:52-65 | a situation is valid exactly when its position is inside the grid and the cell there is not a wall |
| MazeEnv.Finished | maze/environment.py:67-76 | finished exactly when both coordinates equal the goal's |
| MazeEnv.LessIsStrictOrder | maze/environment.py:102-105 | ordering situations by squared distance to the goal is irreflexive, asymmetric and transitive |
| MazeEnv.ActionMapIsUnit | maze/environment.py:108 | every action moves one cell along exactly one axis |
| MazeEnv.OppositeAction | maze/environment.py:108 | action `3 - a` is an action whose displacement is the negation of `a`'s |
| MazeEnv.MakeMove | maze/environment.py:111-128 | a move keeps the maze and the goal and always changes the position |
| MazeEnv.MoveIsUnitStep | maze/environment.py:122-128 | a move changes the position by squared distance exactly 1 |
| MazeEnv.MoveThenOpposite | maze/environment.py:122-128 | moving with `a` then `3 - a` gives back the same situation |
| MazeEnv.ReplayKeepsMaze | maze/environment.py:122-128 | replaying any action list keeps the maze and the goal |
| MazeEnv.ReplayConcat | maze/environment.py:122-128 | replaying `x + y` is replaying `x`, then `y` |
| MazeEnv.InvertReversedUndoes | solvers/bidirectional_search.py:62-64 | replaying the reversed, inverted actions after a path returns to the exact starting situation |
| MazeEnv.ReachedEqualIffSamePosition | maze/environment.py:96-100 | two situations reached from one origin are equal exactly when their positions are, which is what `__eq__` and `__hash__` compare |
| MazeEnv.ValidWalkConcat | maze/environment.py:52-65 | a walk over open cells followed by one from where it ends is a walk over open cells |
| MazeEnv.ValidIsOpen | maze/environment.py:52-65 | a valid situation stands on an open cell of its grid |
| MazeEnv.OpenIsValid | maze/environment.py:52-65 | a situation on an open cell is valid |
| MazeEnv.TrailSteps | solvers/bfs.py:19-26 | consecutive positions of a walk's trail are neighbours by the walk's actions |
| RiverCrossing.ValidIffFarBankSafe | wolf_goat_cabbage/environment.py:34-62 | when the three places partition the passengers, a state is valid exactly when the bank without the boat leaves neither wolf with goat nor goat with cabbage |
| RiverCrossing.FinishedIffAllRight | wolf_goat_cabbage/environment.py:87-94 | when the places partition the passengers, finished exactly when all three are on the right bank and the boat is moored there |
| RiverCrossing.KeyDeterminesState | wolf_goat_cabbage/environment.py:97-106 | two states have equal keys exactly when they are equal, so equality and hashing agree |
| RiverCrossing.MaskInjective | wolf_goat_cabbage/environment.py:108-109 | different passenger sets have different masks |
| RiverCrossing.LessIsStrictOrder | wolf_goat_cabbage/environment.py:108-109 | ordering states by the mask of the right bank is a strict order |
| RiverCrossing.MakeMove | wolf_goat_cabbage/environment.py:112-154 | loading (0-5) succeeds exactly when the boat is empty and the passenger is on the bank where the boat is; crossing (6) always succeeds; any other action yields None |
| RiverCrossing.LoadMovesOne | wolf_goat_cabbage/environment.py:115-139 | a successful load moves exactly that passenger from the boat's bank into the boat |
| RiverCrossing.CrossUnloads | wolf_goat_cabbage/environment.py:140-150 | a crossing switches the coast, empties the boat onto the bank it arrives at, and leaves the bank it left as it was |
| RiverCrossing.MakeMovePreservesPartition | wolf_goat_cabbage/environment.py:112-154 | every successful move keeps the three places disjoint and holding all three passengers |
| RiverCrossing.RunAppend | wolf_goat_cabbage/environment.py:112-154 | running one more action from a reached state is one more move |
| RiverCrossing.StateListed | wolf_goat_cabbage/environment.py:23-30 | the finite list of all states contains every state, which bounds the search |
| Dfs.SearchSound | solvers/dfs.py:4-22 | a found result is a valid, simple route to the goal that avoids the earlier path, and the path returned is that route's trail |
| Dfs.SearchComplete | solvers/dfs.py:4-22 | when the search fails there is no valid simple route to the goal that avoids the path |
| Dfs.FirstSuccessWins | solvers/dfs.py:15-19 | the result comes from the first action, in order 0-3, whose recursive search succeeds |
| Dfs.TopLevelResult | solvers/dfs.py:4-22 | from an empty path, the returned path starts at the start, ends at the goal, steps by the returned actions, repeats no cell and stays on open cells |
| Dfs.DfsSearch | solvers/dfs.py:4-22 | the recursive method returns the reference search's result; on failure the shared path list is restored, and on success it holds the found path |
| Bfs.SkipStep | solvers/bfs.py:15-16 | dropping a revisited queue entry keeps the search invariant |
| Bfs.ExpandStep | solvers/bfs.py:18-26 | expanding the front entry and enqueueing its valid successors keeps the search invariant |
| Bfs.EnqueueSuccessors | solvers/bfs.py:24-26 | the `for action in range(4)` loop appends exactly the four successor entries, in action order, behind the existing queue |
| Bfs.GoalSound | solvers/bfs.py:21-22 | a finished front entry carries a valid route whose trail is its path list, with no repeated cell |
| Bfs.GoalOptimal | solvers/bfs.py:21-22 | no route from the start is shorter than the finished front entry's actions |
| Bfs.EmptyStep | solvers/bfs.py:28 | with the queue empty, no route from the start reaches the goal |
| Bfs.Bfs | solvers/bfs.py:6-28 | a result is a shortest valid route whose path is its trail; None only when no route exists from a valid start |
| Ucs.PushesOk | solvers/ucs.py:21-27 | every pushed entry costs one more than the popped one and replays validly from the start to an unvisited cell |
| Ucs.ExpandStep | solvers/ucs.py:11-27 | popping a cheapest unfinished entry and pushing its successors keeps the invariant |
| Ucs.GoalOptimal | solvers/ucs.py:14-15 | a finished cheapest entry has actions no longer than any route |
| Ucs.EmptyStep | solvers/ucs.py:29 | with the heap empty, no route from the start reaches the goal |
| Ucs.Ucs | solvers/ucs.py:6-29 | a result is a valid route of least length; None exactly when no route exists |
| Bnb.MaxOf | solvers/bnb.py:47 | the running maximum bounds every expanded depth and is one of them, or 0 for none |
| Bnb.MaxUpdate | solvers/bnb.py:47 | `max(max_depth, depth)` equals the maximum over the expanded depths with the new one appended |
| Bnb.PushesOk | solvers/bnb.py:50-62 | every pushed entry is keyed by the heuristic of its situation and lies one level below the popped entry on a valid walk to an unvisited cell |
| Bnb.ExpandStep | solvers/bnb.py:33-62 | popping a least unfinished entry, counting it and pushing its successors keeps the invariant |
| Bnb.GoalStep | solvers/bnb.py:39-40 | a finished least entry carries a route no longer than the expansion count, and at most one more than the largest depth |
| Bnb.EmptyStep | solvers/bnb.py:64 | with the heap empty, no route from the start reaches the goal |
| Bnb.Bnb | solvers/bnb.py:9-64 | for any heuristic, a result is a route whose statistic records its length, with that length within both counters; None exactly when no route exists |
| Bidirectional.ReverseReverse | solvers/bidirectional_search.py:67 | reversing an action list twice gives it back |
| Bidirectional.ReverseConcat | solvers/bidirectional_search.py:67 | the reverse of `p + q` is the reverse of `q` followed by the reverse of `p` |
| Bidirectional.InvertReversedIsInvertedReverse | solvers/bidirectional_search.py:62-68 | the inverting join's tail is `3 - x` taken elementwise over the reversed list that the forward join uses |
| Bidirectional.BackwardJoinReaches | solvers/bidirectional_search.py:61-64 | when the two walks meet, the joined actions lead from the goal argument to the initial argument's position, and over open cells only when the initial situation is valid and shares the maze |
| Bidirectional.InvertedWalk | solvers/bidirectional_search.py:62-64 | undoing a walk from a valid start, from its end cell, enters only open cells |
| Bidirectional.ForwardJoinCanMiss | solvers/bidirectional_search.py:65-68 | for every start two same-direction steps from the goal, in the same maze with the cell between open, the forward join of the meeting walks returns to the goal, not to the start |
| Bidirectional.BackwardJoinArrivesWhereForwardMisses | solvers/bidirectional_search.py:61-64 | on the same meeting paths, the inverting join arrives at the start |
| Bidirectional.ExpansionOk | solvers/bidirectional_search.py:71-77 | recording successors keeps every map value a walk over open cells from the side's origin to its key and every queued entry consistent with the map, and leaves the count of unreached positions plus queued entries unchanged |
| Bidirectional.Side.ExpandFront | solvers/bidirectional_search.py:38-79 | pops the oldest entry; on a meeting it returns that side's join unchanged; otherwise it records and enqueues exactly the new valid successors; the side stays sound and its measure decreases |
| Bidirectional.BidirectionalSearch | solvers/bidirectional_search.py:6-35 | a result is non-empty, and either leads from the goal to the start, over open cells when the start is valid and shares the maze, or is a forward join of two meeting walks; equal start and goal give None |
| DfsWithCmp.CmpLessIffRank | solvers/dfs_with_cmp.py:42-53 | `cmp(a, b) < 0` exactly when `a`'s successor ranks above `b`'s, a missing successor ranking below all |
| DfsWithCmp.CmpZero | solvers/dfs_with_cmp.py:42-53 | `cmp` is 0 exactly when both successors exist and are equal, and always lies in -1..1 |
| DfsWithCmp.CmpNotAntisymmetric | solvers/dfs_with_cmp.py:42-53 | for equal ranks and different or missing successors, `cmp` is positive in both orders |
| DfsWithCmp.Insert | solvers/dfs_with_cmp.py:56 | inserting adds exactly one element to the multiset |
| DfsWithCmp.SortBy | solvers/dfs_with_cmp.py:56 | sorting is a permutation of its input |
| DfsWithCmp.SortBySorted | solvers/dfs_with_cmp.py:56 | the sort of an increasing list is ordered by descending rank, with equal ranks kept in input order |
| DfsWithCmp.SortActionsPermutes | solvers/dfs_with_cmp.py:40-56 | the sorted actions are exactly the seven actions |
| DfsWithCmp.SortActionsOrdered | solvers/dfs_with_cmp.py:42-56 | no later action compares below an earlier one, equal ranks stay in action order, and missing successors come last |
| DfsWithCmp.PushesOk | solvers/dfs_with_cmp.py:58-64 | every pushed entry is a valid, unvisited successor whose actions run validly from the start |
| DfsWithCmp.PushSuccessors | solvers/dfs_with_cmp.py:58-64 | the push loop appends the admissible successors in sorted order |
| DfsWithCmp.ExpandStep | solvers/dfs_with_cmp.py:30-64 | popping an unfinished state, marking it visited and pushing its successors keeps the invariant |
| DfsWithCmp.EmptyStep | solvers/dfs_with_cmp.py:66 | with the stack empty, no valid run from the start finishes |
| DfsWithCmp.DfsWithCmp | solvers/dfs_with_cmp.py:7-66 | a result is a valid run that finishes; None exactly when no valid run finishes |
| MazeGenerator.OpenAmongCounts | maze/generator.py:43-47 | the open-neighbour count is at most the number of directions looked at, and 0 exactly when none is open |
| MazeGenerator.OpenAmongOne | maze/generator.py:43-48 | a count of 1 names exactly one open neighbour |
| MazeGenerator.CountOpen | maze/generator.py:43-47 | the `wall_count` loop counts the open in-bounds neighbours, at most 4 |
| MazeGenerator.FirstEligible | maze/generator.py:37-51 | returns the first shuffled direction leading to an in-bounds wall with exactly one open neighbour, having rejected all earlier ones |
| MazeGenerator.EligibleByRule | maze/generator.py:41-48 | a wall whose counted open neighbours number exactly 1 has exactly one of its four neighbours in the grid and open |
| MazeGenerator.CarvedSnoc | maze/generator.py:48-50 | carving one more cell by the rule extends a carving by the rule |
| MazeGenerator.OpenCell | maze/generator.py:49 | writing 0 into one cell opens exactly that cell, removes it from the walls and changes no other cell |
| MazeGenerator.Carve | maze/generator.py:48-50 | an eligible wall is opened and appended to the carved cells, which stay carved by the rule, and the walls strictly shrink |
| MazeGenerator.GrownSnoc | maze/generator.py:38-50 | carving a cell adjacent to the start or to an earlier carved cell keeps every carved cell adjacent to the start or to a cell carved before it |
| MazeGenerator.StackPush | maze/generator.py:34-50 | carving and pushing a neighbour of a path cell keeps the carving grown from the start and every stack entry on the path |
| MazeGenerator.StackPop | maze/generator.py:52-53 | popping keeps every remaining stack entry on the path |
| MazeGenerator.StackCellsOpen | maze/generator.py:30-50 | while a path is carved, every stack entry is an in-bounds open cell |
| MazeGenerator.Extend | maze/generator.py:34-51 | carving the eligible neighbour of the stack top and pushing it keeps the carving by the rule and grown from the start, keeps the stack on the path, and shrinks the walls |
| MazeGenerator.CarvePath | maze/generator.py:28-53 | every cell stays 0 or 1; the cells opened are exactly the start and the carved cells; each carved cell was a wall with exactly one open in-grid neighbour among the cells open at that moment, and is adjacent to the start or to a cell carved before it in this call |
| MazeGenerator.PathsSnoc | maze/generator.py:56-58 | one more path carved by the rule from the cells opened so far, and grown from its own start cell, extends the paths carved by the rule, and adds its start and carved cells to the opened cells |
| MazeGenerator.StartsOpened | maze/generator.py:56-58 | every path's start cell is among the opened cells |
| MazeGenerator.OpenCorners | maze/generator.py:64-65 | on a square grid, the two corner assignments open exactly the two corners |
| MazeGenerator.Generate | maze/generator.py:8-67 | a maze is returned exactly when `w == h >= 1`; it is a fresh h-by-w grid of 0s and 1s whose open cells are exactly the corners, the start cells and the cells each path carved by the rule from the cells opened before it, each path grown from its own start cell |

## Left out

- Plotting, drawing and describing situations, the console entry points
  and the statistic printing are not modelled. This covers `main.py`,
  `maze_main.py`, `wolf_goat_cabbage_main.py`, `utils.py`, `abstracts.py`
  and `statistic.py`. They do only I/O or glue.
- Randomness is a parameter. Each shuffle is drawn as `order(t)`, where `t`
  is a running counter. The start cells are given.
- `bnb`'s `heuristic()` is not defined in the source. It is a parameter, and
  the contracts hold for every heuristic.
- Euclidean distance (a float norm) is replaced by the squared distance.
  This order is the same on non-negative values.
- Integers are unbounded. Python integers are unbounded too.
- Heap order among entries of equal key depends on comparing situations,
  and is not modelled. `Ucs.Ucs`, `Bnb.Bnb`: any entry of least key is
  popped, so the results hold for every tie-break.
- CPython's timsort is modelled as a stable insertion sort. Both give the
  stable rank order, because the comparator is used only through "less
  than".
- Bidirectional.BidirectionalSearch: the forward join is stated as a forward
  join of meeting walks, not as a route, because the source does not invert
  it. A None result is not characterised: it is stated only for equal
  origins, since the alternation of the two sides and the non-inverted
  forward join make "no route exists" an argument about both queues at once.
- Bfs.Bfs, Ucs.Ucs and Bnb.Bnb do not model the dictionary or deque
  identity of Python objects. Situations compare by value, and a
  situation's equality and hash are by position.
- Actions outside 0-3 in the maze raise `KeyError` in the source. The model
  requires actions to lie in 0-3, which every caller meets.
- A negative index into a numpy grid, which wraps around, is not reached:
  `check_boundaries` rejects it before any cell is read.
- `Dfs.DfsSearch` returns the path and the actions as a pair. The source
  returns the shared path list itself.
- MazeGenerator.CarvePath states the carving rule that every opened cell
  obeys, and that each carved cell is adjacent to the start or to a cell
  carved before it in the same call. It does not state which eligible cell
  is chosen at each step. That choice is the first eligible direction of
  the current shuffle from the top of the stack (`FirstEligible`), and the
  shuffles are parameters. Each path is connected to its own start cell.
  The whole set of open cells is not stated to be connected, because the
  source does not promise it: separate paths and the two corners need
  not join.
