# A* grid pathfinding, modelled and verified in Dafny

This project models the path-finding core of `AStarPathfindingVisualization`, a
JavaFX demo that searches a 25 x 20 grid of cells for a shortest 4-connected
path between a start and an end cell that avoids obstacle cells.

It models these parts of the program:

- `grid.dfy` (module `Grid`) covers the board.
  - The grid constants `COLS = 25` and `ROWS = 20`.
  - The obstacle flags `isObstacle[x][y]`, an `array2<bool>` indexed column first that the search only reads.
  - The cell type `Point`, a datatype whose equality is structural like the source's `equals`.
  - `heuristic` (Manhattan distance) and `getNeighbors` (the on-grid cells to the west, east, north and south, in that order).
- `routes.dfy` (module `Routes`) states what a route and a shortest route are. A route is a sequence of on-grid cells, each step going to a 4-adjacent cell, every cell after the first free. This is the yardstick the search is proved against.
- `state.dfy` (module `SearchState`) holds the search state and its invariant.
  - The state: the `visited` set, the priority queue as a `multiset` of `Node(point, cost)` entries, and the `costSoFar` and `cameFrom` maps.
  - The invariant of `aStar`'s main loop and of its inner loop over the neighbours.
  - The lemmas that each step keeps that invariant.
  - The lemma at the heart of A*'s optimality: with a consistent heuristic, the cell of a least-priority entry is settled when polled.
- `astar.dfy` (module `Search`) holds the imperative operations.
  - `reconstructPath`: walk back along `cameFrom`, then reverse.
  - One pass of the neighbour loop.
  - The neighbour loop itself.
  - The handling of one polled entry.
  - `aStar`.

`aStar` is proved to:

- return a path exactly when a route exists;
- return a route of least length whenever it returns one;
- return `[start]` when start and end coincide;
- return nothing when the end is an obstacle other than the start, or lies off the board.

The main loop terminates because each pass either visits a new cell of the grid or drops a stale queue entry. The `reconstructPath` loop terminates because the recorded cost falls by one at every step back.

The model follows the code rather than a textbook A*:

- The start entry is queued with priority 0, as at line 116, not with its heuristic estimate.
- A blocked start is not rejected. Nothing is checked before the search starts, so a route's first cell may be an obstacle.
- A polled entry for an already visited cell is not skipped (lines 120-127). It is expanded again, and the model proves that this second expansion changes nothing.
- There is no FIFO rule among equal priorities. The poll takes some entry of least priority, and every property is proved for every such choice.
- `reconstructPath` has no guard against a broken chain. The model proves that the chain `aStar` hands it always leads back to `start`.

## Model

Every source path below is `src/main/java/com/example/demo/AStarPathfindingVisualization.java`.

| member | source | states |
|---|---|---|
| Grid.InBoundsInAllCells | src/main/java/com/example/demo/AStarPathfindingVisualization.java:18-19 | the board holds exactly the cells with 0 <= x < COLS = 25 and 0 <= y < ROWS = 20 |
| Grid.PointEquality | src/main/java/com/example/demo/AStarPathfindingVisualization.java:191-212 | two cells are equal exactly when both coordinates are, as `Point.equals` decides |
| Grid.BlockedReadsFlag | src/main/java/com/example/demo/AStarPathfindingVisualization.java:25 | on an array of the shape `new boolean[COLS][ROWS]`, every in-bounds cell has a flag, and the obstacle test reads exactly that flag |
| Grid.Abs | src/main/java/com/example/demo/AStarPathfindingVisualization.java:158 | `Math.abs`: the result is never negative and is the input or its negation |
| Grid.Heuristic | src/main/java/com/example/demo/AStarPathfindingVisualization.java:157-159 | the Manhattan distance is never negative, and it is 0 exactly when the two cells are equal |
| Grid.HeuristicSymmetric | src/main/java/com/example/demo/AStarPathfindingVisualization.java:157-159 | the distance from a to b equals the distance from b to a |
| Grid.HeuristicTriangle | src/main/java/com/example/demo/AStarPathfindingVisualization.java:157-159 | the distance obeys the triangle inequality |
| Grid.HeuristicConsistent | src/main/java/com/example/demo/AStarPathfindingVisualization.java:157-159 | one 4-adjacent step changes the estimate to any target by at most 1 (consistency) |
| Grid.AdjacentIffHeuristicOne | src/main/java/com/example/demo/AStarPathfindingVisualization.java:157-170 | two cells are 4-adjacent exactly when their Manhattan distance is 1 |
| Grid.Neighbors | src/main/java/com/example/demo/AStarPathfindingVisualization.java:161-170 | at most 4 cells come back, each 4-adjacent to the input, and all are in bounds when the input is |
| Grid.NeighborsComplete | src/main/java/com/example/demo/AStarPathfindingVisualization.java:161-170 | for an in-bounds cell, a cell is in the list exactly when it is in bounds and 4-adjacent to it |
| Grid.NeighborsOrdered | src/main/java/com/example/demo/AStarPathfindingVisualization.java:161-170 | the list runs west, east, north, south, so no cell appears twice |
| Routes.RouteAtLeastHeuristic | src/main/java/com/example/demo/AStarPathfindingVisualization.java:157-159 | admissibility: every route takes at least the Manhattan distance between its ends in steps |
| Routes.StepToward | src/main/java/com/example/demo/AStarPathfindingVisualization.java:157-159 | from any cell other than the target there is a 4-adjacent step that lowers the distance by exactly 1 and stays on the grid |
| Routes.Staircase | src/main/java/com/example/demo/AStarPathfindingVisualization.java:157-159 | between any two cells there is a walk of 4-adjacent steps whose length is exactly the Manhattan distance |
| Routes.StaircaseIsRoute | src/main/java/com/example/demo/AStarPathfindingVisualization.java:157-159 | on a grid without obstacles that walk is a route |
| Routes.ShortestOnOpenGrid | src/main/java/com/example/demo/AStarPathfindingVisualization.java:157-159 | on a grid without obstacles, a shortest route takes exactly the Manhattan distance in steps |
| Routes.BlockedTargetUnreachable | src/main/java/com/example/demo/AStarPathfindingVisualization.java:131 | an obstacle other than the start is the end of no route, since the test at line 131 never lets one in |
| Routes.RouteEndsOnGrid | src/main/java/com/example/demo/AStarPathfindingVisualization.java:131-142 | a route joins cells of the board only, so an off-board end is reached by no route and `aStar` answers it with the `null` of line 142 |
| SearchState.QueueKeepsDuplicates | src/main/java/com/example/demo/AStarPathfindingVisualization.java:214-222 | the priority queue is a bag: queueing an entry adds one more copy and one to the size even when an equal entry is already queued, and leaves every other entry's count alone |
| SearchState.InitialStateInv | src/main/java/com/example/demo/AStarPathfindingVisualization.java:111-117 | the initial state satisfies the loop invariant: a single queue entry for start at priority 0, start recorded at cost 0, nothing visited, no predecessors |
| SearchState.InsertKeepsMinimal | src/main/java/com/example/demo/AStarPathfindingVisualization.java:120 | adding an entry to a queue keeps a least-priority entry: the cheaper of the old least one and the new one |
| SearchState.MinimalEntryExists | src/main/java/com/example/demo/AStarPathfindingVisualization.java:112-120 | a non-empty queue has an entry of least priority for the poll to return |
| SearchState.PolledIsSettled | src/main/java/com/example/demo/AStarPathfindingVisualization.java:119-127 | when the polled least-priority entry is for an unvisited cell, the cell's recorded cost is a lower bound on every route from start to it |
| SearchState.ReachableKeepsQueueNonEmpty | src/main/java/com/example/demo/AStarPathfindingVisualization.java:119-142 | while a route to end exists the queue is not empty, so the `return null` at line 142 is reached only when there is no route |
| SearchState.StaleRepollIsNoOp | src/main/java/com/example/demo/AStarPathfindingVisualization.java:127-138 | for a cell already visited, every neighbour that passes the test at line 131 fails the test at line 133, so re-expanding it updates nothing |
| SearchState.PollKeepsFrontier | src/main/java/com/example/demo/AStarPathfindingVisualization.java:120-127 | after the poll, every entry still promises at least its cell's cost plus heuristic, and every recorded unvisited cell keeps an entry that promises at most that |
| SearchState.VisitKeepsBookkeeping | src/main/java/com/example/demo/AStarPathfindingVisualization.java:127 | marking a recorded cell visited keeps the bookkeeping invariants: costs, bounds, free cells and predecessors |
| SearchState.VisitKeepsRelaxed | src/main/java/com/example/demo/AStarPathfindingVisualization.java:127 | marking a cell visited keeps every cell's relaxed neighbours relaxed |
| SearchState.VisitKeepsExpanded | src/main/java/com/example/demo/AStarPathfindingVisualization.java:127 | after a cell is marked visited, the other visited cells stay fully relaxed |
| SearchState.VisitKeepsSettled | src/main/java/com/example/demo/AStarPathfindingVisualization.java:127 | a cell whose cost is a lower bound joins the visited cells without breaking the fact that every visited cell's cost is a lower bound |
| SearchState.PollStartsExpansion | src/main/java/com/example/demo/AStarPathfindingVisualization.java:120-129 | polling a least-priority entry whose cell is not end, then marking the cell visited, sets up the neighbour loop's invariant |
| SearchState.UpdateKeepsBookkeeping | src/main/java/com/example/demo/AStarPathfindingVisualization.java:131-137 | giving a free, unvisited, in-bounds neighbour of a visited cell the cost one higher and that cell as predecessor keeps the bookkeeping invariants |
| SearchState.UpdateKeepsFrontier | src/main/java/com/example/demo/AStarPathfindingVisualization.java:133-136 | lowering an unvisited cell's cost and queueing it at cost plus heuristic keeps the queue invariants |
| SearchState.UpdateKeepsRelaxed | src/main/java/com/example/demo/AStarPathfindingVisualization.java:133-134 | lowering an unvisited cell's cost keeps a visited cell's relaxed neighbours relaxed |
| SearchState.UpdateKeepsExpanded | src/main/java/com/example/demo/AStarPathfindingVisualization.java:133-134 | lowering an unvisited cell's cost keeps every other visited cell fully relaxed |
| SearchState.UpdateKeepsSettled | src/main/java/com/example/demo/AStarPathfindingVisualization.java:133-134 | lowering an unvisited cell's cost leaves the visited cells' lower bounds in place |
| SearchState.RelaxUpdates | src/main/java/com/example/demo/AStarPathfindingVisualization.java:131-137 | a neighbour that passes both tests gets the new cost, predecessor and queue entry, and the loop invariant moves on to the next neighbour |
| SearchState.RelaxSkips | src/main/java/com/example/demo/AStarPathfindingVisualization.java:131-133 | a neighbour that fails either test is left alone, and the loop invariant moves on to the next neighbour |
| SearchState.RelaxStep | src/main/java/com/example/demo/AStarPathfindingVisualization.java:131-137 | whatever the outcome of the two tests, the pass over the i-th neighbour moves the neighbour-loop invariant on to the next neighbour |
| SearchState.RelaxAllKeepsInv | src/main/java/com/example/demo/AStarPathfindingVisualization.java:129-140 | after the passes over the first k neighbours, in order, the neighbour-loop invariant holds at k |
| SearchState.RelaxAllFrame | src/main/java/com/example/demo/AStarPathfindingVisualization.java:129-140 | over the neighbour loop no recorded cost goes up; a visited cell or a cell that is not a neighbour keeps its cost and predecessor; the queue keeps every entry and gains only entries for neighbours |
| SearchState.RelaxAllStale | src/main/java/com/example/demo/AStarPathfindingVisualization.java:129-140 | when every neighbour already fails one of the tests, the neighbour loop changes nothing |
| SearchState.ExpansionDone | src/main/java/com/example/demo/AStarPathfindingVisualization.java:129-140 | once every neighbour has been processed, the main loop's invariant holds again |
| SearchState.PolledCellRecorded | src/main/java/com/example/demo/AStarPathfindingVisualization.java:120-132 | the polled entry's cell has a recorded cost, which line 132 reads, and is on the grid |
| SearchState.ExpansionKeepsInv | src/main/java/com/example/demo/AStarPathfindingVisualization.java:120-140 | polling a least-priority entry whose cell is not end, visiting its cell and passing over all its neighbours restores the main loop's invariant |
| SearchState.StaleExpansionIsNoOp | src/main/java/com/example/demo/AStarPathfindingVisualization.java:120-140 | for a polled entry of a cell visited before, the visit adds nothing and the neighbour loop leaves the costs, the predecessors and the rest of the queue unchanged |
| SearchState.VisitShrinksUnvisited | src/main/java/com/example/demo/AStarPathfindingVisualization.java:119-127 | visiting a new in-bounds cell leaves strictly fewer unvisited cells on the grid |
| SearchState.PollShrinksQueue | src/main/java/com/example/demo/AStarPathfindingVisualization.java:120 | the poll shortens the queue by one |
| SearchState.Reverse | src/main/java/com/example/demo/AStarPathfindingVisualization.java:153 | reversal keeps the length and puts cell i at position length - 1 - i |
| SearchState.ReversedWalk | src/main/java/com/example/demo/AStarPathfindingVisualization.java:146-153 | reversing a backward walk along `cameFrom` that ends at cost 0 gives a forward path whose i-th cell costs i and is the predecessor of the next |
| SearchState.BookkeepingChain | src/main/java/com/example/demo/AStarPathfindingVisualization.java:145-155 | the search's bookkeeping makes `cameFrom` a chain that leads from every recorded cell back to start, the cost falling by one per step |
| SearchState.ChainPathIsRoute | src/main/java/com/example/demo/AStarPathfindingVisualization.java:145-155 | a path along `cameFrom` from start whose i-th cell costs i is a route: on the grid, 4-adjacent steps, every cell after the first free |
| Search.ReconstructPath | src/main/java/com/example/demo/AStarPathfindingVisualization.java:145-155 | the result starts at start and ends at end; it has `costSoFar[end] + 1` cells; cell i has cost i and is the recorded predecessor of cell i + 1; it is `[start]` when end is start; the walk terminates |
| Search.RelaxNeighbor | src/main/java/com/example/demo/AStarPathfindingVisualization.java:131-137 | when the neighbour is neither visited nor an obstacle and has no cost yet or a higher one than the polled cell's plus 1, its cost becomes that, its predecessor the polled cell, and the queue gains exactly one entry at that cost plus heuristic; otherwise queue, costs and predecessors are unchanged; the result is the function `SearchState.RelaxOne`, the relaxation step the invariant lemmas are proved about |
| Search.RelaxNeighbors | src/main/java/com/example/demo/AStarPathfindingVisualization.java:129-140 | the result is the passes over the neighbours in the order `getNeighbors` gives; no recorded cost goes up; visited cells and cells that are not neighbours keep their cost and predecessor entries; the queue keeps every entry and gains only entries for neighbours; those passes are the left-to-right fold `SearchState.RelaxAll` of `RelaxOne` over the neighbours |
| Search.Expand | src/main/java/com/example/demo/AStarPathfindingVisualization.java:120-140 | handling a polled entry whose cell is not end adds the cell to the visited set, and its result is exactly the passes over the cell's neighbours (`RelaxAll`) after the poll, so nothing else changes; it keeps the search invariant; no recorded cost goes up; every visited cell, the polled one included, keeps its cost and predecessor; for a stale duplicate only the entry itself leaves the queue |
| Search.AStar | src/main/java/com/example/demo/AStarPathfindingVisualization.java:110-143 | returns a path exactly when a route from start to end exists; that path is a shortest route; it is `[start]` when start is end; it is `null` when end is an obstacle other than start, and when end lies off the board; the loop terminates |

## Left out

- The JavaFX application is not modelled: window set-up, `initializeGrid`, the mouse handler, `Rectangle` fills, `clearPreviousPath` and the colour changes in `setStart`/`setEnd` (lines 31-78, 91-108). They are presentation only. The grid is a parameter of `AStar`.
- `addObstacles` (lines 80-89) is not modelled. It draws cells with `Math.random` and bounds its loop by a floating-point product; the obstacle array is an input here.
- `animatePath` (lines 172-185) is not modelled. It runs a `Thread` with `Thread.sleep`.
- `main`/`launch` and `System.out.println` are not modelled; they are I/O.
- `Point.hashCode` and the internals of `HashMap`, `HashSet` and `PriorityQueue` are not modelled. They become Dafny maps, a set and a multiset.
- The actual tie order of Java's binary heap among equal priorities is not modelled. `AStar` polls any entry of least priority, so its contract covers every tie order, including the one the heap uses.
- Java's 32-bit `int` is modelled as an unbounded `int`. Costs stay below 500. For an on-board `end`, priorities stay below 550. For an off-board `end`, priorities grow with its distance from the board, and Java's arithmetic would wrap only for coordinates near 2^31, which no click produces. The answer is `null` either way, since an off-board cell never enters the queue.
- Search.ReconstructPath: it takes the cost map as a ghost parameter that the source does not have, used only as the measure that shows the walk ends. It requires that `cameFrom` lead back to `start` with costs falling by one per step, which `aStar` always guarantees. What the source does on a broken chain (a `NullPointerException` once `cameFrom.get` returns `null`) is not modelled.
- Search.AStar: on the `end` branch the polled entry is not removed from the queue before returning. The queue is discarded at that point, so nothing observable differs.
- Search.AStar: it requires `start` to be on the board. An off-board `start` other than `end` is not modelled: the first expansion reads `isObstacle` at an off-board neighbour (line 131) and throws `ArrayIndexOutOfBoundsException`. An off-board `start` equal to `end` is not modelled either; the source returns `[start]` for it (lines 123-124, 152). An off-board `end` is modelled, and the answer is `null`.
