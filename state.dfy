/** The state of one A* search of `AStarPathfindingVisualization` and the
    invariant that makes the path it returns a shortest one. */
module SearchState {
  import opened Grid
  import opened Routes

  /** A frontier entry. As in the source the field is called `cost`, but it
      holds the priority: cost so far plus the heuristic (0 for the start). */
  datatype Node = Node(point: Point, cost: int)

  /** The priority queue is a bag: queueing an entry adds one more copy of
      it and one to the size, even when an equal entry is already queued. */
  lemma QueueKeepsDuplicates(queue: multiset<Node>, n: Node)
    ensures (queue + multiset{n})[n] == queue[n] + 1
    ensures |queue + multiset{n}| == |queue| + 1
    ensures forall m :: m != n ==> (queue + multiset{n})[m] == queue[m]
  {
  }

  /* ---------------------------------------------------------------------
     The state of one search and its invariant
     --------------------------------------------------------------------- */

  /** `costSoFar` and `cameFrom`: every recorded cell is on the grid; every
      recorded cell other than `start` is free and costs at least 1; `cameFrom`
      is defined on exactly the recorded cells other than `start` and points to
      a visited 4-neighbour that costs one step less. */
  ghost predicate Bookkeeping(isObstacle: array2<bool>, start: Point, visited: set<Point>,
                              costSoFar: map<Point, int>, cameFrom: map<Point, Point>)
    reads isObstacle
  {
    && start in costSoFar && costSoFar[start] == 0
    && visited <= costSoFar.Keys
    && (forall p :: p in costSoFar ==> InBounds(p))
    && (forall p :: p in costSoFar && p != start ==> costSoFar[p] >= 1 && !Blocked(isObstacle, p))
    && cameFrom.Keys == costSoFar.Keys - {start}
    && (forall p {:trigger cameFrom[p]} :: p in cameFrom ==>
          && cameFrom[p] in visited
          && Adjacent(cameFrom[p], p)
          && costSoFar[cameFrom[p]] + 1 == costSoFar[p])
  }

  /** The queue: its cells are recorded; until `start` is expanded it holds the
      seed entry alone; afterwards no entry promises less than its cell's
      current cost plus heuristic; and every recorded cell not yet visited has
      an entry that promises no more than that. */
  ghost predicate Frontier(start: Point, end: Point, visited: set<Point>,
                           queue: multiset<Node>, costSoFar: map<Point, int>)
  {
    && (forall n :: n in queue ==> n.point in costSoFar)
    && (start !in visited ==> visited == {} && queue == multiset{Node(start, 0)})
    && (start in visited ==>
          forall n :: n in queue ==> n.cost >= costSoFar[n.point] + Heuristic(n.point, end))
    && (forall v :: v in costSoFar && v !in visited ==>
          exists c :: Node(v, c) in queue && c <= costSoFar[v] + Heuristic(v, end))
  }

  /** The first `k` neighbours of `v` that are neither visited nor obstacles
      are recorded at a cost of at most one more than `v`'s. */
  ghost predicate Relaxed(isObstacle: array2<bool>, visited: set<Point>,
                          costSoFar: map<Point, int>, v: Point, k: int)
    reads isObstacle
  {
    && 0 <= k <= |Neighbors(v)|
    && v in costSoFar
    && forall j :: 0 <= j < k && Neighbors(v)[j] !in visited && !Blocked(isObstacle, Neighbors(v)[j]) ==>
         Neighbors(v)[j] in costSoFar && costSoFar[Neighbors(v)[j]] <= costSoFar[v] + 1
  }

  /** Every visited cell has had all its neighbours relaxed. */
  ghost predicate Expanded(isObstacle: array2<bool>, visited: set<Point>, costSoFar: map<Point, int>)
    reads isObstacle
  {
    forall v {:trigger Relaxed(isObstacle, visited, costSoFar, v, |Neighbors(v)|)} :: v in visited ==>
      Relaxed(isObstacle, visited, costSoFar, v, |Neighbors(v)|)
  }

  /** The cost recorded for a visited cell is a lower bound on every route
      from `start` to it. */
  ghost predicate Settled(isObstacle: array2<bool>, start: Point, visited: set<Point>,
                          costSoFar: map<Point, int>)
    reads isObstacle
  {
    forall v :: v in visited ==> v in costSoFar && LowerBound(isObstacle, start, v, costSoFar[v])
  }

  /** The invariant of the main loop of `aStar`. */
  ghost predicate SearchInv(isObstacle: array2<bool>, start: Point, end: Point, visited: set<Point>,
                            queue: multiset<Node>, costSoFar: map<Point, int>, cameFrom: map<Point, Point>)
    reads isObstacle
  {
    && ValidGrid(isObstacle) && InBounds(start)
    && Bookkeeping(isObstacle, start, visited, costSoFar, cameFrom)
    && Frontier(start, end, visited, queue, costSoFar)
    && Expanded(isObstacle, visited, costSoFar)
    && Settled(isObstacle, start, visited, costSoFar)
    && end !in visited
  }

  /** `i` is the first position of `r` whose cell is not in `s`. */
  ghost function FirstOutside(r: seq<Point>, s: set<Point>): (i: nat)
    requires |r| >= 1 && r[|r| - 1] !in s
    ensures i < |r| && r[i] !in s
    ensures forall j :: 0 <= j < i ==> r[j] in s
  {
    if r[0] !in s then 0 else 1 + FirstOutside(r[1..], s)
  }

  /* ---------------------------------------------------------------------
     Facts about the invariant
     --------------------------------------------------------------------- */

  /** The state the search starts from (lines 111-117) satisfies the invariant. */
  lemma InitialStateInv(isObstacle: array2<bool>, start: Point, end: Point)
    requires ValidGrid(isObstacle) && InBounds(start)
    ensures SearchInv(isObstacle, start, end, {}, multiset{Node(start, 0)}, map[start := 0], map[])
  {
    assert Node(start, 0) in multiset{Node(start, 0)};
  }

  /** Adding `x` to a queue whose least-priority entry is `m` gives a queue
      whose least-priority entry is the cheaper of the two. */
  lemma InsertKeepsMinimal(rest: multiset<Node>, x: Node, m: Node)
    requires m in rest && forall n :: n in rest ==> m.cost <= n.cost
    ensures var best := if m.cost < x.cost then m else x;
            && best in rest + multiset{x}
            && forall n :: n in rest + multiset{x} ==> best.cost <= n.cost
  {
    forall n | n in rest + multiset{x}
      ensures n == x || n in rest
    {
    }
  }

  /** A non-empty queue has an entry of least priority, so the poll at line
      120 always has something to return. */
  lemma MinimalEntryExists(queue: multiset<Node>)
    requires queue != multiset{}
    ensures exists m :: m in queue && forall n :: n in queue ==> m.cost <= n.cost
    decreases |queue|
  {
    var x :| x in queue;
    var rest := queue - multiset{x};
    assert queue == rest + multiset{x};
    if rest == multiset{} {
      assert queue == multiset{x};
      assert forall n :: n in queue ==> x.cost <= n.cost;
    } else {
      MinimalEntryExists(rest);
      var m :| m in rest && forall n :: n in rest ==> m.cost <= n.cost;
      InsertKeepsMinimal(rest, x, m);
    }
  }

  /** The heart of A*'s optimality: when an entry of least priority is polled
      for a cell not yet visited, the cell's recorded cost is already a lower
      bound on every route to it (consistent heuristic, frozen visited
      costs). */
  lemma PolledIsSettled(isObstacle: array2<bool>, start: Point, end: Point, visited: set<Point>,
                        queue: multiset<Node>, costSoFar: map<Point, int>, cameFrom: map<Point, Point>,
                        current: Node)
    requires SearchInv(isObstacle, start, end, visited, queue, costSoFar, cameFrom)
    requires current in queue && forall n :: n in queue ==> current.cost <= n.cost
    requires current.point !in visited
    ensures current.point in costSoFar
    ensures LowerBound(isObstacle, start, current.point, costSoFar[current.point])
  {
    var u := current.point;
    if start !in visited {
      assert current == Node(start, 0);
    } else {
      forall r | IsRoute(isObstacle, r, start, u)
        ensures costSoFar[u] <= |r| - 1
      {
        var i := FirstOutside(r, visited);
        var w, v := r[i - 1], r[i];
        RoutePrefix(isObstacle, r, start, u, i - 1);
        assert r[..i] == r[..(i - 1) + 1];
        assert costSoFar[w] <= i - 1;
        NeighborsComplete(w, v);
        var j :| 0 <= j < |Neighbors(w)| && Neighbors(w)[j] == v;
        assert Relaxed(isObstacle, visited, costSoFar, w, |Neighbors(w)|);
        assert v in costSoFar && costSoFar[v] <= i;
        var c :| Node(v, c) in queue && c <= costSoFar[v] + Heuristic(v, end);
        RouteSuffix(isObstacle, r, start, u, i);
        RouteAtLeastHeuristic(isObstacle, r[i..], v, u);
        HeuristicTriangle(v, u, end);
        assert current.cost <= c;
      }
    }
  }

  /** While a route to `end` exists the queue is not empty; so when it runs
      dry (line 142) there is no route. */
  lemma ReachableKeepsQueueNonEmpty(isObstacle: array2<bool>, start: Point, end: Point, visited: set<Point>,
                                    queue: multiset<Node>, costSoFar: map<Point, int>, cameFrom: map<Point, Point>)
    requires SearchInv(isObstacle, start, end, visited, queue, costSoFar, cameFrom)
    ensures Reachable(isObstacle, start, end) ==> queue != multiset{}
  {
    if Reachable(isObstacle, start, end) && start in visited {
      var r :| IsRoute(isObstacle, r, start, end);
      var i := FirstOutside(r, visited);
      var w, v := r[i - 1], r[i];
      NeighborsComplete(w, v);
      var j :| 0 <= j < |Neighbors(w)| && Neighbors(w)[j] == v;
      assert Relaxed(isObstacle, visited, costSoFar, w, |Neighbors(w)|);
      var c :| Node(v, c) in queue && c <= costSoFar[v] + Heuristic(v, end);
    }
  }

  /** Polling a stale duplicate of a visited cell (lines 127-138) changes
      nothing: every neighbour that passes the test at line 131 fails the
      test at line 133. */
  lemma StaleRepollIsNoOp(isObstacle: array2<bool>, start: Point, end: Point, visited: set<Point>,
                          queue: multiset<Node>, costSoFar: map<Point, int>, cameFrom: map<Point, Point>,
                          u: Point)
    requires SearchInv(isObstacle, start, end, visited, queue, costSoFar, cameFrom)
    requires u in visited
    ensures forall next :: next in Neighbors(u) && next !in visited && !Blocked(isObstacle, next) ==>
              next in costSoFar && !(costSoFar[u] + 1 < costSoFar[next])
  {
    assert Relaxed(isObstacle, visited, costSoFar, u, |Neighbors(u)|);
    forall next | next in Neighbors(u) && next !in visited && !Blocked(isObstacle, next)
      ensures next in costSoFar && !(costSoFar[u] + 1 < costSoFar[next])
    {
      var j :| 0 <= j < |Neighbors(u)| && Neighbors(u)[j] == next;
    }
  }

  /** The invariant of the loop over the neighbours of `u` (lines 130-140),
      after the first `k` of them. */
  ghost predicate ExpandInv(isObstacle: array2<bool>, start: Point, end: Point, visited: set<Point>,
                            queue: multiset<Node>, costSoFar: map<Point, int>, cameFrom: map<Point, Point>,
                            u: Point, k: int)
    reads isObstacle
  {
    && ValidGrid(isObstacle) && InBounds(start)
    && Bookkeeping(isObstacle, start, visited, costSoFar, cameFrom)
    && Frontier(start, end, visited, queue, costSoFar)
    && u in visited
    && (forall v {:trigger Relaxed(isObstacle, visited, costSoFar, v, |Neighbors(v)|)} ::
          v in visited && v != u ==> Relaxed(isObstacle, visited, costSoFar, v, |Neighbors(v)|))
    && Relaxed(isObstacle, visited, costSoFar, u, k)
    && Settled(isObstacle, start, visited, costSoFar)
    && end !in visited
  }

  /** Marking one more cell visited keeps the bookkeeping. */
  lemma VisitKeepsBookkeeping(isObstacle: array2<bool>, start: Point, visited: set<Point>,
                              costSoFar: map<Point, int>, cameFrom: map<Point, Point>, u: Point)
    requires Bookkeeping(isObstacle, start, visited, costSoFar, cameFrom)
    requires u in costSoFar
    ensures Bookkeeping(isObstacle, start, visited + {u}, costSoFar, cameFrom)
  {
  }

  /** Marking one more cell visited only removes obligations from `Relaxed`. */
  lemma VisitKeepsRelaxed(isObstacle: array2<bool>, visited: set<Point>, costSoFar: map<Point, int>,
                          v: Point, k: int, u: Point)
    requires Relaxed(isObstacle, visited, costSoFar, v, k)
    ensures Relaxed(isObstacle, visited + {u}, costSoFar, v, k)
  {
  }

  /** Removing the polled entry and marking its cell visited keeps the
      frontier properties. */
  lemma PollKeepsFrontier(start: Point, end: Point, visited: set<Point>, queue: multiset<Node>,
                          costSoFar: map<Point, int>, current: Node)
    requires Frontier(start, end, visited, queue, costSoFar)
    requires current in queue
    ensures Frontier(start, end, visited + {current.point}, queue - multiset{current}, costSoFar)
  {
    var u := current.point;
    var visited', queue' := visited + {u}, queue - multiset{current};
    if start !in visited {
      assert current == Node(start, 0);
      assert queue' == multiset{};
    }
    assert start in visited';
    forall n | n in queue'
      ensures n.point in costSoFar && n.cost >= costSoFar[n.point] + Heuristic(n.point, end)
    {
      assert n in queue;
    }
    forall v | v in costSoFar && v !in visited'
      ensures exists c :: Node(v, c) in queue' && c <= costSoFar[v] + Heuristic(v, end)
    {
      var c :| Node(v, c) in queue && c <= costSoFar[v] + Heuristic(v, end);
      assert Node(v, c) in queue';
    }
  }

  /** After a cell is marked visited, the other visited cells stay relaxed. */
  lemma VisitKeepsExpanded(isObstacle: array2<bool>, visited: set<Point>, costSoFar: map<Point, int>, u: Point)
    requires Expanded(isObstacle, visited, costSoFar)
    ensures forall v {:trigger Relaxed(isObstacle, visited + {u}, costSoFar, v, |Neighbors(v)|)} ::
              v in visited + {u} && v != u ==>
              Relaxed(isObstacle, visited + {u}, costSoFar, v, |Neighbors(v)|)
  {
    forall v {:trigger Relaxed(isObstacle, visited + {u}, costSoFar, v, |Neighbors(v)|)} | v in visited + {u} && v != u
      ensures Relaxed(isObstacle, visited + {u}, costSoFar, v, |Neighbors(v)|)
    {
      VisitKeepsRelaxed(isObstacle, visited, costSoFar, v, |Neighbors(v)|, u);
    }
  }

  /** A cell whose cost is a lower bound may join the settled cells. */
  lemma VisitKeepsSettled(isObstacle: array2<bool>, start: Point, visited: set<Point>,
                          costSoFar: map<Point, int>, u: Point)
    requires Settled(isObstacle, start, visited, costSoFar)
    requires u in visited || (u in costSoFar && LowerBound(isObstacle, start, u, costSoFar[u]))
    ensures Settled(isObstacle, start, visited + {u}, costSoFar)
  {
  }

  /** Polling `current` and marking its cell visited (lines 120-127) sets up
      the neighbour loop. */
  lemma PollStartsExpansion(isObstacle: array2<bool>, start: Point, end: Point, visited: set<Point>,
                            queue: multiset<Node>, costSoFar: map<Point, int>, cameFrom: map<Point, Point>,
                            current: Node)
    requires SearchInv(isObstacle, start, end, visited, queue, costSoFar, cameFrom)
    requires current in queue && current.point != end
    requires current.point in visited || LowerBound(isObstacle, start, current.point, costSoFar[current.point])
    ensures ExpandInv(isObstacle, start, end, visited + {current.point}, queue - multiset{current},
                      costSoFar, cameFrom, current.point, 0)
  {
    var u := current.point;
    VisitKeepsBookkeeping(isObstacle, start, visited, costSoFar, cameFrom, u);
    PollKeepsFrontier(start, end, visited, queue, costSoFar, current);
    VisitKeepsExpanded(isObstacle, visited, costSoFar, u);
    VisitKeepsSettled(isObstacle, start, visited, costSoFar, u);
    assert Relaxed(isObstacle, visited + {u}, costSoFar, u, 0);
  }

  /** Recording a cheaper cost for an unvisited free neighbour of a visited
      cell, with that cell as predecessor, keeps the bookkeeping. */
  lemma UpdateKeepsBookkeeping(isObstacle: array2<bool>, start: Point, visited: set<Point>,
                               costSoFar: map<Point, int>, cameFrom: map<Point, Point>,
                               u: Point, next: Point)
    requires Bookkeeping(isObstacle, start, visited, costSoFar, cameFrom)
    requires start in visited && u in visited
    requires Adjacent(u, next) && InBounds(next) && next !in visited && !Blocked(isObstacle, next)
    ensures Bookkeeping(isObstacle, start, visited, costSoFar[next := costSoFar[u] + 1], cameFrom[next := u])
  {
  }

  /** Lowering the cost of an unvisited cell and queueing it at cost plus
      heuristic keeps the frontier properties. */
  lemma UpdateKeepsFrontier(start: Point, end: Point, visited: set<Point>, queue: multiset<Node>,
                            costSoFar: map<Point, int>, next: Point, c: int)
    requires Frontier(start, end, visited, queue, costSoFar)
    requires start in visited && next !in visited
    requires next in costSoFar ==> c < costSoFar[next]
    ensures Frontier(start, end, visited, queue + multiset{Node(next, c + Heuristic(next, end))},
                     costSoFar[next := c])
  {
    var queue', costSoFar' := queue + multiset{Node(next, c + Heuristic(next, end))}, costSoFar[next := c];
    forall n | n in queue'
      ensures n.point in costSoFar' && n.cost >= costSoFar'[n.point] + Heuristic(n.point, end)
    {
      if n != Node(next, c + Heuristic(next, end)) {
        assert n in queue;
      }
    }
    forall v | v in costSoFar' && v !in visited
      ensures exists c' :: Node(v, c') in queue' && c' <= costSoFar'[v] + Heuristic(v, end)
    {
      if v == next {
        assert Node(next, c + Heuristic(next, end)) in queue';
      } else {
        var c' :| Node(v, c') in queue && c' <= costSoFar[v] + Heuristic(v, end);
        assert Node(v, c') in queue';
      }
    }
  }

  /** Lowering the cost of an unvisited cell keeps `Relaxed` for a visited one. */
  lemma UpdateKeepsRelaxed(isObstacle: array2<bool>, visited: set<Point>, costSoFar: map<Point, int>,
                           v: Point, k: int, next: Point, c: int)
    requires Relaxed(isObstacle, visited, costSoFar, v, k)
    requires v in visited && next !in visited
    requires next in costSoFar ==> c < costSoFar[next]
    ensures Relaxed(isObstacle, visited, costSoFar[next := c], v, k)
  {
  }

  /** Lowering the cost of an unvisited cell keeps every visited cell other
      than `u` fully relaxed. */
  lemma UpdateKeepsExpanded(isObstacle: array2<bool>, visited: set<Point>, costSoFar: map<Point, int>,
                            u: Point, next: Point, c: int)
    requires forall v {:trigger Relaxed(isObstacle, visited, costSoFar, v, |Neighbors(v)|)} ::
               v in visited && v != u ==> Relaxed(isObstacle, visited, costSoFar, v, |Neighbors(v)|)
    requires next !in visited
    requires next in costSoFar ==> c < costSoFar[next]
    ensures forall v {:trigger Relaxed(isObstacle, visited, costSoFar[next := c], v, |Neighbors(v)|)} ::
              v in visited && v != u ==> Relaxed(isObstacle, visited, costSoFar[next := c], v, |Neighbors(v)|)
  {
    forall v {:trigger Relaxed(isObstacle, visited, costSoFar[next := c], v, |Neighbors(v)|)} | v in visited && v != u
      ensures Relaxed(isObstacle, visited, costSoFar[next := c], v, |Neighbors(v)|)
    {
      UpdateKeepsRelaxed(isObstacle, visited, costSoFar, v, |Neighbors(v)|, next, c);
    }
  }

  /** Lowering the cost of an unvisited cell keeps the visited ones settled. */
  lemma UpdateKeepsSettled(isObstacle: array2<bool>, start: Point, visited: set<Point>,
                           costSoFar: map<Point, int>, next: Point, c: int)
    requires Settled(isObstacle, start, visited, costSoFar)
    requires next !in visited
    ensures Settled(isObstacle, start, visited, costSoFar[next := c])
  {
    forall v | v in visited
      ensures v in costSoFar[next := c] && LowerBound(isObstacle, start, v, costSoFar[next := c][v])
    {
      assert costSoFar[next := c][v] == costSoFar[v];
    }
  }

  /** The two tests a neighbour `next` of `u` must pass to be updated: it is
      neither visited nor an obstacle (line 131), and going through `u` is
      cheaper than its recorded cost, if any (line 133). */
  predicate Improves(isObstacle: array2<bool>, visited: set<Point>, costSoFar: map<Point, int>,
                     u: Point, next: Point)
    reads isObstacle
  {
    && u in costSoFar
    && next !in visited && !Blocked(isObstacle, next)
    && (next !in costSoFar || costSoFar[u] + 1 < costSoFar[next])
  }

  /** The state after the pass over one neighbour `next` of `u`
      (lines 131-137): when `next` passes both tests it gets the cost one
      higher than `u`'s, `u` as predecessor and a queue entry at that cost
      plus its heuristic; otherwise nothing changes. */
  function RelaxOne(isObstacle: array2<bool>, end: Point, u: Point, visited: set<Point>,
                    queue: multiset<Node>, costSoFar: map<Point, int>, cameFrom: map<Point, Point>,
                    next: Point): (multiset<Node>, map<Point, int>, map<Point, Point>)
    reads isObstacle
  {
    if Improves(isObstacle, visited, costSoFar, u, next)
    then (queue + multiset{Node(next, costSoFar[u] + 1 + Heuristic(next, end))},
          costSoFar[next := costSoFar[u] + 1],
          cameFrom[next := u])
    else (queue, costSoFar, cameFrom)
  }

  /** The parts of the state that one pass produced. */
  lemma RelaxOneParts(isObstacle: array2<bool>, end: Point, u: Point, visited: set<Point>,
                      queue: multiset<Node>, costSoFar: map<Point, int>, cameFrom: map<Point, Point>,
                      next: Point,
                      queue': multiset<Node>, costSoFar': map<Point, int>, cameFrom': map<Point, Point>)
    requires (queue', costSoFar', cameFrom') == RelaxOne(isObstacle, end, u, visited, queue, costSoFar, cameFrom, next)
    ensures Improves(isObstacle, visited, costSoFar, u, next) ==>
              && queue' == queue + multiset{Node(next, costSoFar[u] + 1 + Heuristic(next, end))}
              && costSoFar' == costSoFar[next := costSoFar[u] + 1]
              && cameFrom' == cameFrom[next := u]
    ensures !Improves(isObstacle, visited, costSoFar, u, next) ==>
              queue' == queue && costSoFar' == costSoFar && cameFrom' == cameFrom
  {
  }

  /** The state after the passes over `cells`, in order (lines 129-140). */
  function RelaxAll(isObstacle: array2<bool>, end: Point, u: Point, visited: set<Point>,
                    queue: multiset<Node>, costSoFar: map<Point, int>, cameFrom: map<Point, Point>,
                    cells: seq<Point>): (multiset<Node>, map<Point, int>, map<Point, Point>)
    reads isObstacle
    decreases |cells|
  {
    if cells == [] then (queue, costSoFar, cameFrom)
    else
      var s := RelaxAll(isObstacle, end, u, visited, queue, costSoFar, cameFrom, cells[..|cells| - 1]);
      RelaxOne(isObstacle, end, u, visited, s.0, s.1, s.2, cells[|cells| - 1])
  }

  /** Relaxing the first `i + 1` cells is relaxing the first `i`, then
      cell `i`. */
  lemma RelaxAllSnoc(isObstacle: array2<bool>, end: Point, u: Point, visited: set<Point>,
                     queue: multiset<Node>, costSoFar: map<Point, int>, cameFrom: map<Point, Point>,
                     cells: seq<Point>, i: nat)
    requires i < |cells|
    ensures var s := RelaxAll(isObstacle, end, u, visited, queue, costSoFar, cameFrom, cells[..i]);
            RelaxAll(isObstacle, end, u, visited, queue, costSoFar, cameFrom, cells[..i + 1])
              == RelaxOne(isObstacle, end, u, visited, s.0, s.1, s.2, cells[i])
  {
    assert cells[..i + 1][..i] == cells[..i];
  }

  /** What the loop over the neighbours leaves alone: no recorded cost goes
      up, a cell that is visited or not among `cells` keeps its cost and
      predecessor entries, and the queue only gains entries, each for one of
      `cells`. */
  lemma {:induction false} RelaxAllFrame(isObstacle: array2<bool>, end: Point, u: Point, visited: set<Point>,
                                         queue: multiset<Node>, costSoFar: map<Point, int>,
                                         cameFrom: map<Point, Point>, cells: seq<Point>)
    ensures var s := RelaxAll(isObstacle, end, u, visited, queue, costSoFar, cameFrom, cells);
            && (forall p :: p in costSoFar ==> p in s.1 && s.1[p] <= costSoFar[p])
            && (forall p :: p !in cells || p in visited ==>
                  && (p in s.1 <==> p in costSoFar) && (p in costSoFar ==> s.1[p] == costSoFar[p])
                  && (p in s.2 <==> p in cameFrom) && (p in cameFrom ==> s.2[p] == cameFrom[p]))
            && queue <= s.0
            && (forall n :: n in s.0 - queue ==> n.point in cells)
    decreases |cells|
  {
    if cells != [] {
      var prefix, next := cells[..|cells| - 1], cells[|cells| - 1];
      RelaxAllFrame(isObstacle, end, u, visited, queue, costSoFar, cameFrom, prefix);
      var s0 := RelaxAll(isObstacle, end, u, visited, queue, costSoFar, cameFrom, prefix);
      var s := RelaxAll(isObstacle, end, u, visited, queue, costSoFar, cameFrom, cells);
      assert s == RelaxOne(isObstacle, end, u, visited, s0.0, s0.1, s0.2, next);
      forall p | p !in cells || p in visited
        ensures && (p in s.1 <==> p in costSoFar) && (p in costSoFar ==> s.1[p] == costSoFar[p])
                && (p in s.2 <==> p in cameFrom) && (p in cameFrom ==> s.2[p] == cameFrom[p])
      {
        assert p !in prefix || p in visited;
      }
      forall n | n in s.0 - queue
        ensures n.point in cells
      {
        if n !in s0.0 - queue {
          assert n.point == next;
        }
      }
    }
  }

  /** When every neighbour of `u` already fails one of the tests, relaxing
      them changes nothing. */
  lemma {:induction false} RelaxAllStale(isObstacle: array2<bool>, end: Point, u: Point, visited: set<Point>,
                                         queue: multiset<Node>, costSoFar: map<Point, int>,
                                         cameFrom: map<Point, Point>, k: nat)
    requires Relaxed(isObstacle, visited, costSoFar, u, |Neighbors(u)|)
    requires k <= |Neighbors(u)|
    ensures RelaxAll(isObstacle, end, u, visited, queue, costSoFar, cameFrom, Neighbors(u)[..k])
              == (queue, costSoFar, cameFrom)
  {
    if k > 0 {
      RelaxAllStale(isObstacle, end, u, visited, queue, costSoFar, cameFrom, k - 1);
      RelaxAllSnoc(isObstacle, end, u, visited, queue, costSoFar, cameFrom, Neighbors(u), k - 1);
      assert !Improves(isObstacle, visited, costSoFar, u, Neighbors(u)[k - 1]);
    }
  }

  /** The invariant of the neighbour loop holds after the passes over the
      first `k` neighbours. */
  lemma {:induction false} RelaxAllKeepsInv(isObstacle: array2<bool>, start: Point, end: Point,
                                            visited: set<Point>, queue: multiset<Node>,
                                            costSoFar: map<Point, int>, cameFrom: map<Point, Point>,
                                            u: Point, k: nat,
                                            queue': multiset<Node>, costSoFar': map<Point, int>,
                                            cameFrom': map<Point, Point>)
    requires ExpandInv(isObstacle, start, end, visited, queue, costSoFar, cameFrom, u, 0)
    requires k <= |Neighbors(u)|
    requires (queue', costSoFar', cameFrom')
               == RelaxAll(isObstacle, end, u, visited, queue, costSoFar, cameFrom, Neighbors(u)[..k])
    ensures ExpandInv(isObstacle, start, end, visited, queue', costSoFar', cameFrom', u, k)
  {
    if k > 0 {
      var s := RelaxAll(isObstacle, end, u, visited, queue, costSoFar, cameFrom, Neighbors(u)[..k - 1]);
      RelaxAllKeepsInv(isObstacle, start, end, visited, queue, costSoFar, cameFrom, u, k - 1, s.0, s.1, s.2);
      RelaxAllSnoc(isObstacle, end, u, visited, queue, costSoFar, cameFrom, Neighbors(u), k - 1);
      RelaxStep(isObstacle, start, end, visited, s.0, s.1, s.2, u, k - 1, queue', costSoFar', cameFrom');
    } else {
      assert Neighbors(u)[..0] == [];
      assert queue' == queue && costSoFar' == costSoFar && cameFrom' == cameFrom;
    }
  }

  /** A neighbour that passes both tests (lines 131 and 133) gets the cheaper
      cost, `u` as predecessor and a fresh queue entry; the invariant moves
      on to the next neighbour. */
  lemma RelaxUpdates(isObstacle: array2<bool>, start: Point, end: Point, visited: set<Point>,
                     queue: multiset<Node>, costSoFar: map<Point, int>, cameFrom: map<Point, Point>,
                     u: Point, i: nat)
    requires ExpandInv(isObstacle, start, end, visited, queue, costSoFar, cameFrom, u, i)
    requires i < |Neighbors(u)|
    requires Neighbors(u)[i] !in visited && !Blocked(isObstacle, Neighbors(u)[i])
    requires Neighbors(u)[i] !in costSoFar || costSoFar[u] + 1 < costSoFar[Neighbors(u)[i]]
    ensures ExpandInv(isObstacle, start, end, visited,
                      queue + multiset{Node(Neighbors(u)[i], costSoFar[u] + 1 + Heuristic(Neighbors(u)[i], end))},
                      costSoFar[Neighbors(u)[i] := costSoFar[u] + 1],
                      cameFrom[Neighbors(u)[i] := u], u, i + 1)
  {
    var next, c := Neighbors(u)[i], costSoFar[u] + 1;
    var costSoFar' := costSoFar[next := c];
    assert start in visited by {
      assert u in visited;
    }
    UpdateKeepsBookkeeping(isObstacle, start, visited, costSoFar, cameFrom, u, next);
    UpdateKeepsFrontier(start, end, visited, queue, costSoFar, next, c);
    UpdateKeepsExpanded(isObstacle, visited, costSoFar, u, next, c);
    UpdateKeepsRelaxed(isObstacle, visited, costSoFar, u, i, next, c);
    assert Relaxed(isObstacle, visited, costSoFar', u, i + 1);
    UpdateKeepsSettled(isObstacle, start, visited, costSoFar, next, c);
  }

  /** A neighbour that fails either test is left alone. */
  lemma RelaxSkips(isObstacle: array2<bool>, start: Point, end: Point, visited: set<Point>,
                   queue: multiset<Node>, costSoFar: map<Point, int>, cameFrom: map<Point, Point>,
                   u: Point, i: nat)
    requires ExpandInv(isObstacle, start, end, visited, queue, costSoFar, cameFrom, u, i)
    requires i < |Neighbors(u)|
    requires !(Neighbors(u)[i] !in visited && !Blocked(isObstacle, Neighbors(u)[i]))
             || !(Neighbors(u)[i] !in costSoFar || costSoFar[u] + 1 < costSoFar[Neighbors(u)[i]])
    ensures ExpandInv(isObstacle, start, end, visited, queue, costSoFar, cameFrom, u, i + 1)
  {
  }

  /** The pass over the `i`-th neighbour of `u`, whatever its outcome,
      moves the invariant on to the next neighbour. */
  lemma RelaxStep(isObstacle: array2<bool>, start: Point, end: Point, visited: set<Point>,
                  queue: multiset<Node>, costSoFar: map<Point, int>, cameFrom: map<Point, Point>,
                  u: Point, i: nat,
                  queue': multiset<Node>, costSoFar': map<Point, int>, cameFrom': map<Point, Point>)
    requires ExpandInv(isObstacle, start, end, visited, queue, costSoFar, cameFrom, u, i)
    requires i < |Neighbors(u)|
    requires (queue', costSoFar', cameFrom')
               == RelaxOne(isObstacle, end, u, visited, queue, costSoFar, cameFrom, Neighbors(u)[i])
    ensures ExpandInv(isObstacle, start, end, visited, queue', costSoFar', cameFrom', u, i + 1)
  {
    var next := Neighbors(u)[i];
    RelaxOneParts(isObstacle, end, u, visited, queue, costSoFar, cameFrom, next, queue', costSoFar', cameFrom');
    if Improves(isObstacle, visited, costSoFar, u, next) {
      RelaxUpdates(isObstacle, start, end, visited, queue, costSoFar, cameFrom, u, i);
    } else {
      RelaxSkips(isObstacle, start, end, visited, queue, costSoFar, cameFrom, u, i);
    }
  }

  /** Once every neighbour of `u` is relaxed, the main invariant holds again. */
  lemma ExpansionDone(isObstacle: array2<bool>, start: Point, end: Point, visited: set<Point>,
                      queue: multiset<Node>, costSoFar: map<Point, int>, cameFrom: map<Point, Point>,
                      u: Point)
    requires ExpandInv(isObstacle, start, end, visited, queue, costSoFar, cameFrom, u, |Neighbors(u)|)
    ensures SearchInv(isObstacle, start, end, visited, queue, costSoFar, cameFrom)
  {
  }

  /** The polled entry's cell is recorded and on the grid. */
  lemma PolledCellRecorded(isObstacle: array2<bool>, start: Point, end: Point, visited: set<Point>,
                           queue: multiset<Node>, costSoFar: map<Point, int>, cameFrom: map<Point, Point>,
                           current: Node)
    requires SearchInv(isObstacle, start, end, visited, queue, costSoFar, cameFrom)
    requires current in queue
    ensures current.point in costSoFar && InBounds(current.point)
  {
  }

  /** One pass of the main loop for a polled least-priority entry whose cell
      is not `end` (lines 120-140): after the poll, the visit and the passes
      over all the cell's neighbours, which leave the queue, costs and
      predecessors `queue'`, `costSoFar'` and `cameFrom'`, the main invariant
      holds again. */
  lemma ExpansionKeepsInv(isObstacle: array2<bool>, start: Point, end: Point, visited: set<Point>,
                          queue: multiset<Node>, costSoFar: map<Point, int>, cameFrom: map<Point, Point>,
                          current: Node,
                          queue': multiset<Node>, costSoFar': map<Point, int>, cameFrom': map<Point, Point>)
    requires SearchInv(isObstacle, start, end, visited, queue, costSoFar, cameFrom)
    requires current in queue && forall n :: n in queue ==> current.cost <= n.cost
    requires current.point != end
    requires (queue', costSoFar', cameFrom')
               == RelaxAll(isObstacle, end, current.point, visited + {current.point},
                           queue - multiset{current}, costSoFar, cameFrom, Neighbors(current.point))
    ensures SearchInv(isObstacle, start, end, visited + {current.point}, queue', costSoFar', cameFrom')
  {
    var u, visited', queue1 := current.point, visited + {current.point}, queue - multiset{current};
    if u !in visited {
      PolledIsSettled(isObstacle, start, end, visited, queue, costSoFar, cameFrom, current);
    }
    PollStartsExpansion(isObstacle, start, end, visited, queue, costSoFar, cameFrom, current);
    assert Neighbors(u)[..|Neighbors(u)|] == Neighbors(u);
    RelaxAllKeepsInv(isObstacle, start, end, visited', queue1, costSoFar, cameFrom, u, |Neighbors(u)|,
                     queue', costSoFar', cameFrom');
    ExpansionDone(isObstacle, start, end, visited', queue', costSoFar', cameFrom', u);
  }

  /** A polled stale duplicate of a visited cell (lines 120-140 again): every
      neighbour of the cell was already relaxed, so the passes over them
      change nothing and only the polled entry leaves the queue. */
  lemma StaleExpansionIsNoOp(isObstacle: array2<bool>, start: Point, end: Point, visited: set<Point>,
                             queue: multiset<Node>, costSoFar: map<Point, int>, cameFrom: map<Point, Point>,
                             current: Node,
                             queue': multiset<Node>, costSoFar': map<Point, int>, cameFrom': map<Point, Point>)
    requires SearchInv(isObstacle, start, end, visited, queue, costSoFar, cameFrom)
    requires current.point in visited
    requires (queue', costSoFar', cameFrom')
               == RelaxAll(isObstacle, end, current.point, visited + {current.point},
                           queue - multiset{current}, costSoFar, cameFrom, Neighbors(current.point))
    ensures visited + {current.point} == visited
    ensures queue' == queue - multiset{current} && costSoFar' == costSoFar && cameFrom' == cameFrom
  {
    var u := current.point;
    assert visited + {u} == visited;
    assert Relaxed(isObstacle, visited, costSoFar, u, |Neighbors(u)|);
    assert Neighbors(u)[..|Neighbors(u)|] == Neighbors(u);
    RelaxAllStale(isObstacle, end, u, visited, queue - multiset{current}, costSoFar, cameFrom, |Neighbors(u)|);
  }

  /* ---------------------------------------------------------------------
     Following `cameFrom` back to `start`
     --------------------------------------------------------------------- */

  /** `xs` in reverse order, as `Collections.reverse` leaves it. */
  function Reverse<T>(xs: seq<T>): (r: seq<T>)
    ensures |r| == |xs|
    ensures forall i :: 0 <= i < |xs| ==> r[i] == xs[|xs| - 1 - i]
  {
    if xs == [] then [] else Reverse(xs[1..]) + [xs[0]]
  }

  /** `cameFrom` leads from every recorded cell back to `start`, each step to
      a cell one cheaper, so following it terminates. */
  ghost predicate PredecessorChain(cameFrom: map<Point, Point>, costSoFar: map<Point, int>, start: Point)
  {
    && start in costSoFar && costSoFar[start] == 0
    && (forall p :: p in costSoFar ==> costSoFar[p] >= 0)
    && cameFrom.Keys == costSoFar.Keys - {start}
    && forall p {:trigger cameFrom[p]} :: p in cameFrom ==>
         && cameFrom[p] in costSoFar
         && costSoFar[p] >= 1
         && costSoFar[cameFrom[p]] + 1 == costSoFar[p]
  }

  /** `walk` follows `cameFrom` from `end`, the i-th cell costing i less
      than `end`. */
  ghost predicate BackwardWalk(cameFrom: map<Point, Point>, costSoFar: map<Point, int>, end: Point,
                               walk: seq<Point>)
  {
    && |walk| >= 1 && walk[0] == end && end in costSoFar
    && (forall i :: 0 <= i < |walk| ==> walk[i] in costSoFar && costSoFar[walk[i]] == costSoFar[end] - i)
    && (forall i :: 0 <= i < |walk| - 1 ==> walk[i] in cameFrom && cameFrom[walk[i]] == walk[i + 1])
  }

  /** Reversing a backward walk that reaches a cell of cost 0 gives a forward
      path, the i-th cell at cost i. */
  lemma ReversedWalk(cameFrom: map<Point, Point>, costSoFar: map<Point, int>, end: Point, walk: seq<Point>)
    requires BackwardWalk(cameFrom, costSoFar, end, walk)
    requires costSoFar[walk[|walk| - 1]] == 0
    ensures var path := Reverse(walk);
      && |path| == costSoFar[end] + 1
      && path[|path| - 1] == end
      && (forall i :: 0 <= i < |path| ==> path[i] in costSoFar && costSoFar[path[i]] == i)
      && (forall i :: 0 < i < |path| ==> path[i] in cameFrom && cameFrom[path[i]] == path[i - 1])
  {
    var path := Reverse(walk);
    var n := |walk|;
    forall i | 0 < i < n
      ensures path[i] in cameFrom && cameFrom[path[i]] == path[i - 1]
    {
      assert path[i] == walk[n - 1 - i] && path[i - 1] == walk[n - 1 - i + 1];
    }
  }

  /** The bookkeeping of a search makes `cameFrom` a chain of predecessors
      back to `start`. */
  lemma BookkeepingChain(isObstacle: array2<bool>, start: Point, visited: set<Point>,
                         costSoFar: map<Point, int>, cameFrom: map<Point, Point>)
    requires Bookkeeping(isObstacle, start, visited, costSoFar, cameFrom)
    ensures PredecessorChain(cameFrom, costSoFar, start)
  {
  }

  /** A path along `cameFrom` from `start` whose i-th cell is recorded at cost
      i is a route: its cells are on the grid, free after the first, and each
      step goes to a 4-neighbour. */
  lemma ChainPathIsRoute(isObstacle: array2<bool>, start: Point, end: Point, visited: set<Point>,
                         costSoFar: map<Point, int>, cameFrom: map<Point, Point>, path: seq<Point>)
    requires Bookkeeping(isObstacle, start, visited, costSoFar, cameFrom)
    requires |path| >= 1 && path[0] == start && path[|path| - 1] == end
    requires forall i :: 0 <= i < |path| ==> path[i] in costSoFar && costSoFar[path[i]] == i
    requires forall i :: 0 < i < |path| ==> path[i] in cameFrom && cameFrom[path[i]] == path[i - 1]
    ensures IsRoute(isObstacle, path, start, end)
  {
  }

  /** Visiting a new cell of the grid leaves fewer cells unvisited. */
  lemma VisitShrinksUnvisited(visited: set<Point>, p: Point)
    requires InBounds(p) && p !in visited
    ensures |AllCells() - (visited + {p})| < |AllCells() - visited|
  {
    InBoundsInAllCells(p);
    assert AllCells() - visited == (AllCells() - (visited + {p})) + {p};
  }

  /** Polling an entry shortens the queue. */
  lemma PollShrinksQueue(queue: multiset<Node>, current: Node)
    requires current in queue
    ensures |queue - multiset{current}| < |queue|
  {
    assert queue == (queue - multiset{current}) + multiset{current};
  }
}
