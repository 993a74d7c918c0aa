/** What a path on the grid is, and what makes one shortest: the yardstick the
    search is proved against. */
module Routes {
  import opened Grid

  /** `r` walks from `from` to `to` through in-bounds cells, each step to a
      4-adjacent cell, and every cell after the first is free. The first cell
      may itself be an obstacle: the search never looks at the start's flag. */
  ghost predicate IsRoute(isObstacle: array2<bool>, r: seq<Point>, from: Point, to: Point)
    reads isObstacle
  {
    && |r| >= 1
    && r[0] == from
    && r[|r| - 1] == to
    && (forall i :: 0 <= i < |r| ==> InBounds(r[i]))
    && (forall i :: 0 < i < |r| ==> !Blocked(isObstacle, r[i]))
    && (forall i :: 0 < i < |r| ==> Adjacent(r[i - 1], r[i]))
  }

  ghost predicate Reachable(isObstacle: array2<bool>, from: Point, to: Point)
    reads isObstacle
  {
    exists r :: IsRoute(isObstacle, r, from, to)
  }

  /** No route from `from` to `to` takes fewer than `c` steps. */
  ghost predicate LowerBound(isObstacle: array2<bool>, from: Point, to: Point, c: int)
    reads isObstacle
  {
    forall r :: IsRoute(isObstacle, r, from, to) ==> c <= |r| - 1
  }

  /** `r` is a route and no route between its ends has fewer cells. */
  ghost predicate Shortest(isObstacle: array2<bool>, r: seq<Point>, from: Point, to: Point)
    reads isObstacle
  {
    IsRoute(isObstacle, r, from, to) && LowerBound(isObstacle, from, to, |r| - 1)
  }

  /** A grid without obstacles. */
  ghost predicate Open(isObstacle: array2<bool>)
    reads isObstacle
  {
    forall x, y :: 0 <= x < isObstacle.Length0 && 0 <= y < isObstacle.Length1 ==> !isObstacle[x, y]
  }

  /** The first part of a route, up to and including cell `k`, is a route. */
  lemma RoutePrefix(isObstacle: array2<bool>, r: seq<Point>, from: Point, to: Point, k: nat)
    requires IsRoute(isObstacle, r, from, to)
    requires k < |r|
    ensures IsRoute(isObstacle, r[..k + 1], from, r[k])
  {
  }

  /** The rest of a route, from cell `k` on, is a route. */
  lemma RouteSuffix(isObstacle: array2<bool>, r: seq<Point>, from: Point, to: Point, k: nat)
    requires IsRoute(isObstacle, r, from, to)
    requires k < |r|
    ensures IsRoute(isObstacle, r[k..], r[k], to)
  {
    var s := r[k..];
    forall i | 0 < i < |s|
      ensures Adjacent(s[i - 1], s[i])
    {
      assert s[i - 1] == r[k + i - 1] && s[i] == r[k + i];
    }
  }

  /** Admissibility of the heuristic: every route takes at least as many steps
      as the Manhattan distance between its ends. */
  lemma {:induction false} RouteAtLeastHeuristic(isObstacle: array2<bool>, r: seq<Point>, from: Point, to: Point)
    requires IsRoute(isObstacle, r, from, to)
    ensures Heuristic(from, to) <= |r| - 1
    decreases |r|
  {
    if |r| > 1 {
      RouteSuffix(isObstacle, r, from, to, 1);
      RouteAtLeastHeuristic(isObstacle, r[1..], r[1], to);
      HeuristicConsistent(from, r[1], to);
    }
  }

  /** One step from `a` toward `b != a`: along the row while the columns
      differ, then along the column. */
  function StepToward(a: Point, b: Point): (n: Point)
    requires a != b
    ensures Adjacent(a, n)
    ensures Heuristic(n, b) + 1 == Heuristic(a, b)
    ensures InBounds(a) && InBounds(b) ==> InBounds(n)
  {
    if a.x < b.x then Point(a.x + 1, a.y)
    else if a.x > b.x then Point(a.x - 1, a.y)
    else if a.y < b.y then Point(a.x, a.y + 1)
    else Point(a.x, a.y - 1)
  }

  /** The route that first walks along the row to `b`'s column, then along
      the column to `b`. */
  function Staircase(a: Point, b: Point): (r: seq<Point>)
    ensures |r| == Heuristic(a, b) + 1
    ensures r[0] == a && r[|r| - 1] == b
    ensures forall i :: 0 < i < |r| ==> Adjacent(r[i - 1], r[i])
    ensures InBounds(a) && InBounds(b) ==> forall i :: 0 <= i < |r| ==> InBounds(r[i])
    decreases Heuristic(a, b)
  {
    if a == b then [a] else [a] + Staircase(StepToward(a, b), b)
  }

  /** On an open grid the staircase is a route of exactly Manhattan length. */
  lemma StaircaseIsRoute(isObstacle: array2<bool>, a: Point, b: Point)
    requires ValidGrid(isObstacle) && Open(isObstacle)
    requires InBounds(a) && InBounds(b)
    ensures IsRoute(isObstacle, Staircase(a, b), a, b)
  {
  }

  /** On a grid without obstacles a shortest route takes exactly the Manhattan
      distance in steps. */
  lemma ShortestOnOpenGrid(isObstacle: array2<bool>, r: seq<Point>, from: Point, to: Point)
    requires ValidGrid(isObstacle) && Open(isObstacle)
    requires InBounds(from) && InBounds(to)
    requires Shortest(isObstacle, r, from, to)
    ensures |r| == Heuristic(from, to) + 1
  {
    StaircaseIsRoute(isObstacle, from, to);
    RouteAtLeastHeuristic(isObstacle, r, from, to);
  }

  /** A route ends on a free cell unless it is the one-cell route, so an
      obstacle other than the start cannot be reached. */
  lemma BlockedTargetUnreachable(isObstacle: array2<bool>, from: Point, to: Point)
    requires from != to && Blocked(isObstacle, to)
    ensures !Reachable(isObstacle, from, to)
  {
  }

  /** Routes join cells of the board only: a cell off the board is reached
      from nowhere, and reaches nothing. */
  lemma RouteEndsOnGrid(isObstacle: array2<bool>, from: Point, to: Point)
    ensures Reachable(isObstacle, from, to) ==> InBounds(from) && InBounds(to)
  {
    if Reachable(isObstacle, from, to) {
      var r :| IsRoute(isObstacle, r, from, to);
      assert InBounds(r[0]) && InBounds(r[|r| - 1]);
    }
  }
}
