/** The board the A* visualisation searches: a fixed COLS x ROWS grid of cells,
    an obstacle flag per cell, the 4-neighbourhood of a cell and the Manhattan
    heuristic. */
module Grid {

  /** Number of columns; a cell's x lies in 0 .. Cols - 1. */
  const Cols: int := 25
  /** Number of rows; a cell's y lies in 0 .. Rows - 1. */
  const Rows: int := 20

  /** A cell of the grid. Like the source's `Point`, two cells are equal
      exactly when both coordinates are. */
  datatype Point = Point(x: int, y: int)

  predicate InBounds(p: Point) {
    0 <= p.x < Cols && 0 <= p.y < Rows
  }

  /** Cells are compared by their coordinates, as the source's `equals`
      does. */
  lemma PointEquality(a: Point, b: Point)
    ensures a == b <==> a.x == b.x && a.y == b.y
  {
  }

  /** The obstacle flags have the shape of `new boolean[COLS][ROWS]`,
      indexed by column first. */
  predicate ValidGrid(isObstacle: array2<bool>) {
    isObstacle.Length0 == Cols && isObstacle.Length1 == Rows
  }

  /** The obstacle flag of `p`; a cell off the array is not an obstacle. */
  predicate Blocked(isObstacle: array2<bool>, p: Point)
    reads isObstacle
  {
    0 <= p.x < isObstacle.Length0 && 0 <= p.y < isObstacle.Length1 && isObstacle[p.x, p.y]
  }

  /** On a grid of the source's shape, every in-bounds cell has a flag, and
      `Blocked` reads exactly that flag. */
  lemma BlockedReadsFlag(isObstacle: array2<bool>, p: Point)
    requires ValidGrid(isObstacle) && InBounds(p)
    ensures 0 <= p.x < isObstacle.Length0 && 0 <= p.y < isObstacle.Length1
    ensures Blocked(isObstacle, p) <==> isObstacle[p.x, p.y]
  {
  }

  /** Every in-bounds cell. */
  ghost function AllCells(): set<Point> {
    set x, y | 0 <= x < Cols && 0 <= y < Rows :: Point(x, y)
  }

  /** The board holds exactly the in-bounds cells. */
  lemma InBoundsInAllCells(p: Point)
    ensures p in AllCells() <==> InBounds(p)
  {
    if InBounds(p) {
      assert p == Point(p.x, p.y);
    }
  }

  function Abs(n: int): (r: int)
    ensures r >= 0 && (r == n || r == -n)
  {
    if n < 0 then -n else n
  }

  /** Manhattan distance, the estimate A* adds to the cost so far. */
  function Heuristic(a: Point, b: Point): (d: int)
    ensures d >= 0
    ensures d == 0 <==> a == b
  {
    Abs(a.x - b.x) + Abs(a.y - b.y)
  }

  /** 4-adjacency: one step west, east, north or south. */
  predicate Adjacent(a: Point, b: Point) {
    || (a.y == b.y && (a.x == b.x + 1 || a.x + 1 == b.x))
    || (a.x == b.x && (a.y == b.y + 1 || a.y + 1 == b.y))
  }

  /** Rank of the step from `p` to `q` in the order west (0), east (1),
      north (2), south (3). */
  function Direction(p: Point, q: Point): int {
    if q.x < p.x then 0
    else if q.x > p.x then 1
    else if q.y < p.y then 2
    else 3
  }

  /** The cells one step away from `p` that are on the grid, west, east,
      north, south in that order. */
  function Neighbors(p: Point): (r: seq<Point>)
    ensures |r| <= 4
    ensures forall i :: 0 <= i < |r| ==> Adjacent(p, r[i])
    ensures InBounds(p) ==> forall i :: 0 <= i < |r| ==> InBounds(r[i])
  {
    var west := if p.x > 0 then [Point(p.x - 1, p.y)] else [];
    var east := if p.x < Cols - 1 then [Point(p.x + 1, p.y)] else [];
    var north := if p.y > 0 then [Point(p.x, p.y - 1)] else [];
    var south := if p.y < Rows - 1 then [Point(p.x, p.y + 1)] else [];
    west + east + north + south
  }

  /** The neighbours come west, east, north, south: each later one lies in a
      later direction, so none repeats. */
  lemma NeighborsOrdered(p: Point)
    ensures forall i, j :: 0 <= i < j < |Neighbors(p)| ==>
              Direction(p, Neighbors(p)[i]) < Direction(p, Neighbors(p)[j])
  {
  }

  /** For a cell on the grid, the neighbour list holds exactly the in-bounds
      cells adjacent to it. */
  lemma NeighborsComplete(p: Point, q: Point)
    requires InBounds(p)
    ensures q in Neighbors(p) <==> InBounds(q) && Adjacent(p, q)
  {
  }

  /** Adjacent cells are exactly the cells at Manhattan distance 1. */
  lemma AdjacentIffHeuristicOne(a: Point, b: Point)
    ensures Adjacent(a, b) <==> Heuristic(a, b) == 1
  {
  }

  lemma HeuristicSymmetric(a: Point, b: Point)
    ensures Heuristic(a, b) == Heuristic(b, a)
  {
  }

  lemma HeuristicTriangle(a: Point, b: Point, c: Point)
    ensures Heuristic(a, c) <= Heuristic(a, b) + Heuristic(b, c)
  {
  }

  /** Consistency: one step changes the estimate to any target by at most 1. */
  lemma HeuristicConsistent(a: Point, b: Point, target: Point)
    requires Adjacent(a, b)
    ensures Heuristic(a, target) <= Heuristic(b, target) + 1
    ensures Heuristic(b, target) <= Heuristic(a, target) + 1
  {
  }
}
