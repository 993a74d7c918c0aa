/** The A* search of `AStarPathfindingVisualization`: `aStar`, the loop over
    the polled cell's neighbours and `reconstructPath`. */
module Search {
  import opened Grid
  import opened Routes
  import opened SearchState

  /** `null` or a value: what `aStar` returns. */
  datatype Option<T> = None | Some(value: T)

  /** `reconstructPath`: walk `cameFrom` back from `end` to `start`, then
      reverse. The result runs from `start` to `end`, each cell the recorded
      predecessor of the next, the i-th cell recorded at cost i. */
  method ReconstructPath(cameFrom: map<Point, Point>, start: Point, end: Point,
                         ghost costSoFar: map<Point, int>) returns (path: seq<Point>)
    requires PredecessorChain(cameFrom, costSoFar, start)
    requires end in costSoFar
    ensures |path| == costSoFar[end] + 1
    ensures path[0] == start && path[|path| - 1] == end
    ensures forall i :: 0 <= i < |path| ==> path[i] in costSoFar && costSoFar[path[i]] == i
    ensures forall i :: 0 < i < |path| ==> path[i] in cameFrom && cameFrom[path[i]] == path[i - 1]
    ensures end == start ==> path == [start]
  {
    var backwards: seq<Point> := [];
    var current := end;
    while current != start
      invariant BackwardWalk(cameFrom, costSoFar, end, backwards + [current])
      invariant current in costSoFar && costSoFar[current] >= 0
      decreases costSoFar[current]
    {
      ghost var walk := backwards + [current];
      assert walk[|walk| - 1] == current;
      backwards := backwards + [current];
      current := cameFrom[current];
      assert backwards + [current] == walk + [current];
    }
    backwards := backwards + [start];
    ReversedWalk(cameFrom, costSoFar, end, backwards);
    path := Reverse(backwards);
  }

  /** One pass of the loop over the neighbours of the polled cell `current`
      (lines 131-137), for its neighbour `next`: if `next` is neither visited
      nor an obstacle and is now reached more cheaply, it gets the new cost,
      `current` as predecessor and a queue entry at cost plus heuristic;
      otherwise nothing changes. */
  method RelaxNeighbor(isObstacle: array2<bool>, end: Point, current: Point, next: Point,
                       visited: set<Point>, queue: multiset<Node>,
                       costSoFar: map<Point, int>, cameFrom: map<Point, Point>)
    returns (queue': multiset<Node>, costSoFar': map<Point, int>, cameFrom': map<Point, Point>)
    requires ValidGrid(isObstacle) && InBounds(next)
    requires current in costSoFar
    ensures if Improves(isObstacle, visited, costSoFar, current, next)
            then && costSoFar' == costSoFar[next := costSoFar[current] + 1]
                 && cameFrom' == cameFrom[next := current]
                 && queue' == queue + multiset{Node(next, costSoFar[current] + 1 + Heuristic(next, end))}
            else queue' == queue && costSoFar' == costSoFar && cameFrom' == cameFrom
    ensures (queue', costSoFar', cameFrom') == RelaxOne(isObstacle, end, current, visited, queue, costSoFar, cameFrom, next)
  {
    BlockedReadsFlag(isObstacle, next);
    queue', costSoFar', cameFrom' := queue, costSoFar, cameFrom;
    if next !in visited && !isObstacle[next.x, next.y] {
      var newCost := costSoFar[current] + 1;
      if next !in costSoFar || newCost < costSoFar[next] {
        costSoFar' := costSoFar[next := newCost];
        var priority := newCost + Heuristic(next, end);
        queue' := queue + multiset{Node(next, priority)};
        cameFrom' := cameFrom[next := current];
      }
    }
  }

  /** The loop over the neighbours of the polled cell (lines 129-140): the
      passes over the neighbours in order. No recorded cost goes up; visited
      cells and cells that are not neighbours of `current` keep their cost
      and predecessor entries; the queue only gains entries, all for
      neighbours. */
  method RelaxNeighbors(isObstacle: array2<bool>, end: Point, current: Point,
                        visited: set<Point>, queue: multiset<Node>,
                        costSoFar: map<Point, int>, cameFrom: map<Point, Point>)
    returns (queue': multiset<Node>, costSoFar': map<Point, int>, cameFrom': map<Point, Point>)
    requires ValidGrid(isObstacle) && InBounds(current)
    requires current in costSoFar
    ensures (queue', costSoFar', cameFrom')
              == RelaxAll(isObstacle, end, current, visited, queue, costSoFar, cameFrom, Neighbors(current))
    ensures forall p :: p in costSoFar ==> p in costSoFar' && costSoFar'[p] <= costSoFar[p]
    ensures forall p :: p !in Neighbors(current) || p in visited ==>
              && (p in costSoFar' <==> p in costSoFar) && (p in costSoFar ==> costSoFar'[p] == costSoFar[p])
              && (p in cameFrom' <==> p in cameFrom) && (p in cameFrom ==> cameFrom'[p] == cameFrom[p])
    ensures queue <= queue'
    ensures forall n :: n in queue' - queue ==> n.point in Neighbors(current)
  {
    queue', costSoFar', cameFrom' := queue, costSoFar, cameFrom;
    var neighbors := Neighbors(current);
    for i := 0 to |neighbors|
      invariant (queue', costSoFar', cameFrom')
                  == RelaxAll(isObstacle, end, current, visited, queue, costSoFar, cameFrom, neighbors[..i])
      invariant current in costSoFar'
    {
      RelaxAllSnoc(isObstacle, end, current, visited, queue, costSoFar, cameFrom, neighbors, i);
      queue', costSoFar', cameFrom' :=
        RelaxNeighbor(isObstacle, end, current, neighbors[i], visited, queue', costSoFar', cameFrom');
    }
    assert neighbors[..|neighbors|] == neighbors;
    RelaxAllFrame(isObstacle, end, current, visited, queue, costSoFar, cameFrom, neighbors);
  }

  /** One pass of the main loop for a polled entry whose cell is not `end`
      (lines 120 and 127-140): the entry leaves the queue, its cell is marked
      visited and its neighbours are relaxed, in order, and nothing else
      changes. The search invariant is kept; recorded costs only go down;
      the visited cells, the polled one included, keep their cost and
      predecessor; and an entry for a cell visited before (a stale
      duplicate) is dropped with no other effect. */
  method Expand(isObstacle: array2<bool>, ghost start: Point, end: Point, current: Node,
                visited: set<Point>, queue: multiset<Node>,
                costSoFar: map<Point, int>, cameFrom: map<Point, Point>)
    returns (visited': set<Point>, queue': multiset<Node>,
             costSoFar': map<Point, int>, cameFrom': map<Point, Point>)
    requires SearchInv(isObstacle, start, end, visited, queue, costSoFar, cameFrom)
    requires current in queue && forall n :: n in queue ==> current.cost <= n.cost
    requires current.point != end
    ensures SearchInv(isObstacle, start, end, visited', queue', costSoFar', cameFrom')
    ensures visited' == visited + {current.point}
    ensures (queue', costSoFar', cameFrom')
              == RelaxAll(isObstacle, end, current.point, visited', queue - multiset{current},
                          costSoFar, cameFrom, Neighbors(current.point))
    ensures forall p :: p in costSoFar ==> p in costSoFar' && costSoFar'[p] <= costSoFar[p]
    ensures forall p :: p in visited' ==> costSoFar'[p] == costSoFar[p]
    ensures forall p :: p in visited' && p in cameFrom ==> p in cameFrom' && cameFrom'[p] == cameFrom[p]
    ensures current.point in visited ==>
              && visited' == visited && queue' == queue - multiset{current}
              && costSoFar' == costSoFar && cameFrom' == cameFrom
  {
    PolledCellRecorded(isObstacle, start, end, visited, queue, costSoFar, cameFrom, current);
    var currentPoint := current.point;
    queue' := queue - multiset{current};
    visited' := visited + {currentPoint};
    queue', costSoFar', cameFrom' :=
      RelaxNeighbors(isObstacle, end, currentPoint, visited', queue', costSoFar, cameFrom);
    ExpansionKeepsInv(isObstacle, start, end, visited, queue, costSoFar, cameFrom, current,
                      queue', costSoFar', cameFrom');
    if currentPoint in visited {
      StaleExpansionIsNoOp(isObstacle, start, end, visited, queue, costSoFar, cameFrom, current,
                           queue', costSoFar', cameFrom');
    }
  }

  /** `aStar`: best-first search from `start` to `end` over the free cells.
      It answers `None` (the source's `null`) exactly when no route exists,
      in particular when `end` is an obstacle other than `start` or lies off
      the board; otherwise
      the path it returns is a route of least length, `[start]` when the two
      coincide. */
  method AStar(isObstacle: array2<bool>, start: Point, end: Point) returns (path: Option<seq<Point>>)
    requires ValidGrid(isObstacle) && InBounds(start)
    ensures path.Some? <==> Reachable(isObstacle, start, end)
    ensures path.Some? ==> Shortest(isObstacle, path.value, start, end)
    ensures start == end ==> path == Some([start])
    ensures start != end && Blocked(isObstacle, end) ==> path == None
    ensures !InBounds(end) ==> path == None
  {
    var visited: set<Point> := {};
    var queue: multiset<Node> := multiset{};
    var costSoFar: map<Point, int> := map[];
    var cameFrom: map<Point, Point> := map[];

    queue := queue + multiset{Node(start, 0)};
    costSoFar := costSoFar[start := 0];
    InitialStateInv(isObstacle, start, end);
    if start != end && Blocked(isObstacle, end) {
      BlockedTargetUnreachable(isObstacle, start, end);
    }
    RouteEndsOnGrid(isObstacle, start, end);

    while queue != multiset{}
      invariant SearchInv(isObstacle, start, end, visited, queue, costSoFar, cameFrom)
      decreases |AllCells() - visited|, |queue|
    {
      // The poll of line 120 returns some entry of least priority; the queue
      // fixes no order among equal priorities. `Expand` removes it from the
      // queue; on the `end` branch the queue is discarded anyway.
      MinimalEntryExists(queue);
      var current :| current in queue && forall n :: n in queue ==> current.cost <= n.cost;
      if current.point == end {
        PolledIsSettled(isObstacle, start, end, visited, queue, costSoFar, cameFrom, current);
        BookkeepingChain(isObstacle, start, visited, costSoFar, cameFrom);
        var route := ReconstructPath(cameFrom, start, end, costSoFar);
        ChainPathIsRoute(isObstacle, start, end, visited, costSoFar, cameFrom, route);
        return Some(route);
      }
      if current.point !in visited {
        VisitShrinksUnvisited(visited, current.point);
      } else {
        PollShrinksQueue(queue, current);
      }
      visited, queue, costSoFar, cameFrom :=
        Expand(isObstacle, start, end, current, visited, queue, costSoFar, cameFrom);
    }
    ReachableKeepsQueueNonEmpty(isObstacle, start, end, visited, queue, costSoFar, cameFrom);
    return None;
  }
}
