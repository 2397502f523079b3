/** The maze and its step-by-step solver (src/logic/maze.ts): a grid of cell states,
    a distance-to-goal grid, a cost grid and a priority queue of cells to expand. */
module Mazes {
  import opened Utils
  import opened MazeGrid
  import opened PriorityQueues
  import opened Generators

  /** `MazeSolverAlgorithm`: `'bfs' | 'dfs' | 'random' | 'a-star'`. */
  datatype Solver = BreadthFirst | DepthFirst | Random | AStar

  /** A cell of the distance grid: the sentinel `Infinity` of a fresh maze, or a number. */
  datatype Distance = Infinite | Finite(d: int)

  /** A constructor call that may throw. */
  datatype Result<T> = Ok(value: T) | Err(message: string)

  /** The priority each solver gives a cell reached at `cost` whose distance to the
      goal is `distance`. */
  predicate PriorityFor(solver: Solver, cost: int, distance: int, p: int) {
    match solver
    case BreadthFirst => p == cost
    case DepthFirst => p == -cost
    case Random => 0 <= p < 100
    case AStar => p == cost + distance
  }

  /** `calcPriority`; the random solver draws its priority from the injected source. */
  method CalcPriority(solver: Solver, cost: int, distance: int) returns (p: int)
    ensures PriorityFor(solver, cost, distance, p)
  {
    match solver
    case BreadthFirst => p := cost;
    case DepthFirst => p := -cost;
    case Random =>
      var r := Choose(100);
      p := r;
    case AStar => p := cost + distance;
  }

  function Abs(n: int): nat {
    if n < 0 then -n else n
  }

  /** `calcDistance`: the Manhattan distance between two cells. It is zero exactly on
      the same cell. */
  function CalcDistance(x1: int, y1: int, x2: int, y2: int): (d: nat)
    ensures d == 0 <==> x1 == x2 && y1 == y2
  {
    Abs(x1 - x2) + Abs(y1 - y2)
  }

  /** The neighbours `nextStep` looks at, in its direction order. */
  function Candidates(c: Coord): (r: seq<Coord>)
    ensures |r| == 4 && Distinct(r) && c !in r
  {
    [Coord(c.x, c.y + 1), Coord(c.x + 1, c.y), Coord(c.x, c.y - 1), Coord(c.x - 1, c.y)]
  }

  /** The four directions reach exactly the cells one step from `c`. */
  lemma CandidatesAreNeighbors(c: Coord, n: Coord)
    ensures n in Candidates(c) <==> CalcDistance(n.x, n.y, c.x, c.y) == 1
  {
  }

  /** Neighbour `n` of `cur` is on the map, neither a wall nor visited, and reaching
      it through `cur` is cheaper than its recorded cost, or it has none yet. */
  ghost predicate Improves(maze: Grid<CellState>, cost: Grid<int>, width: int, height: int, cur: Coord, n: Coord)
    requires IsGrid(maze, width, height) && IsGrid(cost, width, height) && InGridAt(width, height, cur)
  {
    InGridAt(width, height, n) && CellAt(maze, n) != Wall && CellAt(maze, n) != Visited &&
    (CellAt(cost, n) == 0 || CellAt(cost, cur) + 1 < CellAt(cost, n))
  }

  /** The neighbours one step of the solver updates, in direction order. An equal or
      smaller recorded cost is left alone; there are at most four. */
  ghost function Relaxed(maze: Grid<CellState>, cost: Grid<int>, width: int, height: int, cur: Coord): (r: seq<Coord>)
    requires IsGrid(maze, width, height) && IsGrid(cost, width, height) && InGridAt(width, height, cur)
    ensures forall n :: n in r <==> n in Candidates(cur) && Improves(maze, cost, width, height, cur, n)
    ensures forall i :: 0 <= i < |r| ==> Improves(maze, cost, width, height, cur, r[i])
    ensures |r| <= 4
  {
    var r := Filter(Candidates(cur), n => Improves(maze, cost, width, height, cur, n));
    assert forall i :: 0 <= i < |r| ==> r[i] in r;
    r
  }

  /** The relaxed neighbours among the first `i` candidates. */
  ghost function RelaxedUpTo(maze: Grid<CellState>, cost: Grid<int>, width: int, height: int, cur: Coord, i: nat): (r: seq<Coord>)
    requires IsGrid(maze, width, height) && IsGrid(cost, width, height) && InGridAt(width, height, cur) && i <= 4
    ensures forall k :: 0 <= k < |r| ==> Improves(maze, cost, width, height, cur, r[k])
    ensures cur !in r
  {
    var r := Filter(Candidates(cur)[..i], n => Improves(maze, cost, width, height, cur, n));
    assert forall k :: 0 <= k < |r| ==> r[k] in r;
    assert forall n :: n in r ==> n in Candidates(cur);
    r
  }

  /** One more candidate: the relaxed prefix grows by that candidate exactly when
      it improves, and the candidate was not among the earlier ones. */
  lemma RelaxedNext(m: Grid<CellState>, c: Grid<int>, width: int, height: int, cur: Coord, i: nat)
    requires IsGrid(m, width, height) && IsGrid(c, width, height) && InGridAt(width, height, cur) && i < 4
    ensures Improves(m, c, width, height, cur, Candidates(cur)[i]) ==>
      RelaxedUpTo(m, c, width, height, cur, i + 1) == RelaxedUpTo(m, c, width, height, cur, i) + [Candidates(cur)[i]]
    ensures !Improves(m, c, width, height, cur, Candidates(cur)[i]) ==>
      RelaxedUpTo(m, c, width, height, cur, i + 1) == RelaxedUpTo(m, c, width, height, cur, i)
    ensures Candidates(cur)[i] !in RelaxedUpTo(m, c, width, height, cur, i)
    ensures Candidates(cur)[i] != cur
  {
    var cs := Candidates(cur);
    assert cs[..i + 1] == cs[..i] + [cs[i]];
    FilterSnoc(cs[..i], cs[i], n => Improves(m, c, width, height, cur, n));
    assert RelaxedUpTo(m, c, width, height, cur, i) + [] == RelaxedUpTo(m, c, width, height, cur, i);
  }

  /** Every cell the solver may still reach (neither a wall nor visited) has a finite
      distance to the goal. */
  ghost predicate DistanceKnown(maze: Grid<CellState>, distance: Grid<Distance>) {
    |distance| == |maze| &&
    (forall y :: 0 <= y < |maze| ==> |distance[y]| == |maze[y]|) &&
    forall y, x :: 0 <= y < |maze| && 0 <= x < |maze[y]| && maze[y][x] != Wall && maze[y][x] != Visited ==>
      distance[y][x].Finite?
  }

  /** Cell (x, y) once `cur` is visited and the cells of `relaxed` are queued: a plain
      passage among them becomes `in-queue`, every other cell keeps its state. */
  function Marked(m0: Grid<CellState>, cur: Coord, relaxed: seq<Coord>, x: int, y: int): CellState
    requires 0 <= y < |m0| && 0 <= x < |m0[y]|
  {
    if Coord(x, y) == cur then Visited
    else if Coord(x, y) in relaxed && m0[y][x] == Passage then InQueue
    else m0[y][x]
  }

  ghost predicate MarkedGrid(m: Grid<CellState>, m0: Grid<CellState>, width: int, height: int, cur: Coord, relaxed: seq<Coord>) {
    IsGrid(m, width, height) && IsGrid(m0, width, height) &&
    forall y, x :: 0 <= y < height && 0 <= x < width ==> m[y][x] == Marked(m0, cur, relaxed, x, y)
  }

  /** Cell (x, y)'s cost once the cells of `relaxed` are reached through `cur`. */
  function Costed(c0: Grid<int>, cur: Coord, relaxed: seq<Coord>, x: int, y: int): int
    requires 0 <= y < |c0| && 0 <= x < |c0[y]| && 0 <= cur.y < |c0| && 0 <= cur.x < |c0[cur.y]|
  {
    if Coord(x, y) in relaxed then CellAt(c0, cur) + 1 else c0[y][x]
  }

  ghost predicate CostedGrid(c: Grid<int>, c0: Grid<int>, width: int, height: int, cur: Coord, relaxed: seq<Coord>) {
    IsGrid(c, width, height) && IsGrid(c0, width, height) && InGridAt(width, height, cur) &&
    forall y, x :: 0 <= y < height && 0 <= x < width ==> c[y][x] == Costed(c0, cur, relaxed, x, y)
  }

  /** `entries` enqueue the cells of `relaxed` in order, each at the priority the
      solver gives a cell reached at `cost` with that cell's (finite) distance. */
  ghost predicate Prioritised(entries: seq<Entry<Coord>>, relaxed: seq<Coord>, solver: Solver, cost: int,
                              distance: Grid<Distance>, width: int, height: int) {
    IsGrid(distance, width, height) && |entries| == |relaxed| &&
    forall k :: 0 <= k < |entries| ==>
      entries[k].value == relaxed[k] && InGridAt(width, height, relaxed[k]) &&
      CellAt(distance, relaxed[k]).Finite? &&
      PriorityFor(solver, cost, CellAt(distance, relaxed[k]).d, entries[k].cost)
  }

  /** The solver step's state after the cells of `relaxed` were handled. */
  ghost predicate StepState(solver: Solver, distance: Grid<Distance>, width: int, height: int,
                            m0: Grid<CellState>, c0: Grid<int>, cur: Coord, relaxed: seq<Coord>,
                            m: Grid<CellState>, c: Grid<int>, entries: seq<Entry<Coord>>) {
    MarkedGrid(m, m0, width, height, cur, relaxed) &&
    CostedGrid(c, c0, width, height, cur, relaxed) &&
    Prioritised(entries, relaxed, solver, CellAt(c0, cur) + 1, distance, width, height)
  }

  /** A neighbour not handled yet still has its old state and cost, and so has `cur`'s cost. */
  lemma Untouched(solver: Solver, distance: Grid<Distance>, width: int, height: int,
                  m0: Grid<CellState>, c0: Grid<int>, cur: Coord, relaxed: seq<Coord>,
                  m: Grid<CellState>, c: Grid<int>, entries: seq<Entry<Coord>>, n: Coord)
    requires StepState(solver, distance, width, height, m0, c0, cur, relaxed, m, c, entries)
    requires InGridAt(width, height, n) && n != cur && n !in relaxed && cur !in relaxed
    ensures CellAt(m, n) == CellAt(m0, n) && CellAt(c, n) == CellAt(c0, n) && CellAt(c, cur) == CellAt(c0, cur)
  {
    assert m[n.y][n.x] == Marked(m0, cur, relaxed, n.x, n.y);
    assert c[n.y][n.x] == Costed(c0, cur, relaxed, n.x, n.y);
    assert c[cur.y][cur.x] == Costed(c0, cur, relaxed, cur.x, cur.y);
  }

  /** Marking one more queued cell. */
  lemma MarkNext(m: Grid<CellState>, m0: Grid<CellState>, width: int, height: int, cur: Coord, relaxed: seq<Coord>, n: Coord)
    requires MarkedGrid(m, m0, width, height, cur, relaxed)
    requires InGridAt(width, height, n) && n != cur && n !in relaxed
    ensures CellAt(m0, n) == Passage ==> MarkedGrid(SetCell(m, n.x, n.y, InQueue), m0, width, height, cur, relaxed + [n])
    ensures CellAt(m0, n) != Passage ==> MarkedGrid(m, m0, width, height, cur, relaxed + [n])
  {
    var m' := if CellAt(m0, n) == Passage then SetCell(m, n.x, n.y, InQueue) else m;
    forall y, x | 0 <= y < height && 0 <= x < width
      ensures m'[y][x] == Marked(m0, cur, relaxed + [n], x, y)
    {
      assert m[y][x] == Marked(m0, cur, relaxed, x, y);
      assert Coord(x, y) in relaxed + [n] <==> Coord(x, y) in relaxed || Coord(x, y) == n;
    }
  }

  /** Recording one more relaxed cost. */
  lemma CostNext(c: Grid<int>, c0: Grid<int>, width: int, height: int, cur: Coord, relaxed: seq<Coord>, n: Coord)
    requires CostedGrid(c, c0, width, height, cur, relaxed)
    requires InGridAt(width, height, n) && n != cur && n !in relaxed
    ensures CostedGrid(SetCell(c, n.x, n.y, CellAt(c0, cur) + 1), c0, width, height, cur, relaxed + [n])
  {
    var c' := SetCell(c, n.x, n.y, CellAt(c0, cur) + 1);
    forall y, x | 0 <= y < height && 0 <= x < width
      ensures c'[y][x] == Costed(c0, cur, relaxed + [n], x, y)
    {
      assert c[y][x] == Costed(c0, cur, relaxed, x, y);
      assert Coord(x, y) in relaxed + [n] <==> Coord(x, y) in relaxed || Coord(x, y) == n;
    }
  }

  /** The cells a step marks were reachable before, so they still have finite distances. */
  lemma MarkedKeepsDistances(m: Grid<CellState>, m0: Grid<CellState>, distance: Grid<Distance>, width: int, height: int,
                             cur: Coord, relaxed: seq<Coord>)
    requires MarkedGrid(m, m0, width, height, cur, relaxed) && DistanceKnown(m0, distance)
    ensures DistanceKnown(m, distance)
  {
    forall y, x | 0 <= y < |m| && 0 <= x < |m[y]| && m[y][x] != Wall && m[y][x] != Visited
      ensures distance[y][x].Finite?
    {
      assert m[y][x] == Marked(m0, cur, relaxed, x, y);
    }
  }

  /** Handling neighbour `n`, which improves: its cost is lowered, it is enqueued at
      the solver's priority, and a plain passage becomes `in-queue`. */
  method RelaxNeighbor(solver: Solver, distance: Grid<Distance>, width: int, height: int,
                       ghost m0: Grid<CellState>, ghost c0: Grid<int>, cur: Coord, ghost relaxed: seq<Coord>,
                       m: Grid<CellState>, c: Grid<int>, q: PriorityQueue<Coord>,
                       ghost rest: seq<Entry<Coord>>, ghost entries: seq<Entry<Coord>>, n: Coord)
    returns (m': Grid<CellState>, c': Grid<int>, ghost entries': seq<Entry<Coord>>)
    requires StepState(solver, distance, width, height, m0, c0, cur, relaxed, m, c, entries)
    requires DistanceKnown(m0, distance) && cur !in relaxed
    requires Improves(m0, c0, width, height, cur, n) && n != cur && n !in relaxed
    requires q.Valid() && q.queue == InsertAllStable(rest, entries)
    modifies q
    ensures StepState(solver, distance, width, height, m0, c0, cur, relaxed + [n], m', c', entries')
    ensures q.Valid() && q.queue == InsertAllStable(rest, entries')
  {
    Untouched(solver, distance, width, height, m0, c0, cur, relaxed, m, c, entries, n);
    var newCost := c[cur.y][cur.x] + 1;
    c' := SetCell(c, n.x, n.y, newCost);
    CostNext(c, c0, width, height, cur, relaxed, n);
    var p := CalcPriority(solver, newCost, distance[n.y][n.x].d);
    q.Enqueue(n, p);
    entries' := entries + [Entry(n, p)];
    assert entries'[..|entries'| - 1] == entries;
    MarkNext(m, m0, width, height, cur, relaxed, n);
    m' := m;
    if m[n.y][n.x] == Passage {
      m' := SetCell(m, n.x, n.y, InQueue);
    }
  }

  /** What `generate` stores in the distance grid for cell (x, y) of maze `m`. */
  function GoalDistance(m: Grid<CellState>, width: int, height: int, x: int, y: int): Distance
    requires 0 <= y < |m| && 0 <= x < |m[y]|
  {
    if m[y][x] == Wall then Finite(-1) else Finite(CalcDistance(x, y, width - 2, height - 1))
  }

  class Maze {
    var solver: Solver
    const generator: Algorithm
    const width: nat
    const height: nat
    /** `_maze`: the cell states. */
    var maze: Grid<CellState>
    var distance: Grid<Distance>
    var cost: Grid<int>
    var queue: PriorityQueue<Coord>

    /** The three grids have one shape, the queue is sorted, and every cell the solver
        may still reach (not a wall, not visited) has a finite distance. */
    ghost predicate Valid()
      reads this, queue
    {
      queue.Valid() && DistanceKnown(maze, distance) &&
      |cost| == |maze| && (forall y :: 0 <= y < |maze| ==> |cost[y]| == |maze[y]|)
    }

    /** The grids are `height` x `width` and every queued cell lies on them: what
        `nextStep` needs to stay in bounds. */
    ghost predicate Ready()
      reads this, queue
    {
      Valid() && IsGrid(maze, width, height) &&
      forall e :: e in queue.queue ==> InGridAt(width, height, e.value)
    }

    /** The constructor once its check passed: an all-wall maze, infinite distances,
        zero costs and a queue holding the cell above the entrance at cost 0. */
    constructor (solver: Solver, generator: Algorithm, width: nat, height: nat)
      requires width % 2 == 1 && height % 2 == 1
      ensures this.solver == solver && this.generator == generator
      ensures this.width == width && this.height == height
      ensures maze == InitArray2D(width, height, Wall)
      ensures distance == InitArray2D(width, height, Infinite)
      ensures cost == InitArray2D(width, height, 0)
      ensures fresh(queue) && queue.queue == [Entry(Coord(1, 0), 0)]
      ensures Valid()
    {
      this.solver := solver;
      this.generator := generator;
      this.width := width;
      this.height := height;
      maze := InitArray2D(width, height, Wall);
      distance := InitArray2D(width, height, Infinite);
      cost := InitArray2D(width, height, 0);
      SortStableOfSorted([Entry(Coord(1, 0), 0)]);
      queue := new PriorityQueue([Entry(Coord(1, 0), 0)]);
    }

    /** `new Maze(...)`: throws exactly when the width or the height is even. */
    static method Create(solver: Solver, generator: Algorithm, width: nat, height: nat) returns (r: Result<Maze>)
      ensures r.Err? <==> width % 2 == 0 || height % 2 == 0
      ensures r.Ok? ==>
        fresh(r.value) && fresh(r.value.queue) && r.value.Valid() &&
        r.value.solver == solver && r.value.generator == generator &&
        r.value.width == width && r.value.height == height &&
        r.value.maze == InitArray2D(width, height, Wall) &&
        r.value.distance == InitArray2D(width, height, Infinite) &&
        r.value.cost == InitArray2D(width, height, 0) &&
        r.value.queue.queue == [Entry(Coord(1, 0), 0)]
    {
      if width % 2 == 0 || height % 2 == 0 {
        return Err("Width and height must be odd numbers");
      }
      var m := new Maze(solver, generator, width, height);
      return Ok(m);
    }

    /** `generate`: fresh zero costs and a fresh queue holding the cell above the
        entrance; the generator's maze with the start opened at row 0, column 1 and
        the goal at the bottom row, column `width - 2`; and distances that are -1 on
        walls and the Manhattan distance to the goal elsewhere. */
    method Generate() returns (ghost layout: Grid<CellState>)
      requires ValidSize(width, height)
      modifies this
      ensures Ready() && fresh(queue) && solver == old(solver)
      ensures MazeShape(layout, width, height)
      ensures generator != RecursiveDivisionAlgorithm ==> PerfectMaze(layout, width, height)
      ensures maze == SetCell(SetCell(layout, 1, 0, Start), width - 2, height - 1, Goal)
      ensures maze[0][1] == Start && maze[height - 1][width - 2] == Goal
      ensures cost == InitArray2D(width, height, 0)
      ensures queue.queue == [Entry(Coord(1, 0), 0)]
      ensures forall y, x :: 0 <= y < height && 0 <= x < width ==>
        distance[y][x] == if maze[y][x] == Wall then Finite(-1) else Finite(CalcDistance(x, y, width - 2, height - 1))
    {
      var dist := InitArray2D(width, height, Infinite);
      cost := InitArray2D(width, height, 0);
      SortStableOfSorted([Entry(Coord(1, 0), 0)]);
      queue := new PriorityQueue([Entry(Coord(1, 0), 0)]);

      var generated := Run(generator, width, height);
      layout := generated;
      var m := SetCell(generated, 1, 0, Start);
      m := SetCell(m, width - 2, height - 1, Goal);
      dist := MeasureDistances(m, dist, width, height);
      maze := m;
      distance := dist;
    }

    /** The distance loop of `generate`: -1 on walls and the Manhattan distance to
        the goal (bottom row, column `width - 2`) on every other cell. */
    static method MeasureDistances(m: Grid<CellState>, dist0: Grid<Distance>, width: nat, height: nat)
      returns (dist: Grid<Distance>)
      requires IsGrid(m, width, height) && IsGrid(dist0, width, height)
      ensures IsGrid(dist, width, height) && DistanceKnown(m, dist)
      ensures forall y, x :: 0 <= y < height && 0 <= x < width ==>
        dist[y][x] == if m[y][x] == Wall then Finite(-1) else Finite(CalcDistance(x, y, width - 2, height - 1))
    {
      dist := dist0;
      for y := 0 to height
        invariant IsGrid(dist, width, height)
        invariant forall j, i :: 0 <= j < y && 0 <= i < width ==> dist[j][i] == GoalDistance(m, width, height, i, j)
      {
        for x := 0 to width
          invariant IsGrid(dist, width, height)
          invariant forall j, i :: 0 <= j < height && 0 <= i < width && (j < y || (j == y && i < x)) ==>
            dist[j][i] == GoalDistance(m, width, height, i, j)
        {
          if m[y][x] == Wall {
            dist := SetCell(dist, x, y, Finite(-1));
          } else {
            dist := SetCell(dist, x, y, Finite(CalcDistance(x, y, width - 2, height - 1)));
          }
        }
      }
    }

    /** `nextStep`. On an empty queue it returns None and changes nothing. Otherwise
        it takes the cheapest queued cell, marks it visited and returns it; every
        neighbour on the map that is neither a wall nor visited and whose cost is 0
        or larger than the current cost plus one gets that cost and is enqueued with
        the solver's priority (the ghost `entries`, in direction order), and becomes
        `in-queue` if it was a plain passage. No other cell changes. */
    method NextStep() returns (r: Option<Coord>, ghost entries: seq<Entry<Coord>>)
      requires Ready()
      modifies this, queue
      ensures Ready() && queue == old(queue) && solver == old(solver) && distance == old(distance)
      ensures old(queue.queue) == [] ==>
        r.None? && maze == old(maze) && cost == old(cost) && queue.queue == []
      ensures old(queue.queue) != [] ==>
        var cur := old(queue.queue)[0].value;
        var relaxed := Relaxed(old(maze), old(cost), width, height, cur);
        r == Some(cur) &&
        Prioritised(entries, relaxed, solver, CellAt(old(cost), cur) + 1, distance, width, height) &&
        queue.queue == InsertAllStable(old(queue.queue)[1..], entries) &&
        MarkedGrid(maze, old(maze), width, height, cur, relaxed) &&
        CostedGrid(cost, old(cost), width, height, cur, relaxed)
    {
      var q := queue;
      var current := q.Dequeue();
      if current.None? {
        ReadyAgain();
        return None, [];
      }
      var cur := current.value.value;
      assert current.value in old(queue.queue);
      ghost var rest := q.queue;
      var m, c;
      m, c, entries := Expand(solver, distance, width, height, maze, cost, cur, q, rest);
      ghost var relaxed := Relaxed(old(maze), old(cost), width, height, cur);
      InsertAllKeepsOrder(rest, entries);
      MarkedKeepsDistances(m, old(maze), distance, width, height, cur, relaxed);
      QueuedInGrid(rest, entries, relaxed, width, height);
      maze := m;
      cost := c;
      ReadyAgain();
      r := Some(cur);
    }

    /** A state whose grids are `height` x `width`, whose reachable cells have finite
        distances and whose queue is sorted and holds cells of the map is ready. */
    lemma ReadyAgain()
      requires queue.Valid() && DistanceKnown(maze, distance)
      requires IsGrid(maze, width, height) && IsGrid(cost, width, height)
      requires forall e :: e in queue.queue ==> InGridAt(width, height, e.value)
      ensures Ready()
    {
    }

    /** The neighbour loop of `nextStep` for the dequeued cell `cur`: marks `cur`
        visited and handles its four neighbours in direction order, enqueueing the
        improved ones on `q`. */
    static method Expand(solver: Solver, distance: Grid<Distance>, width: int, height: int,
                         maze: Grid<CellState>, cost: Grid<int>, cur: Coord,
                         q: PriorityQueue<Coord>, ghost rest: seq<Entry<Coord>>)
      returns (m: Grid<CellState>, c: Grid<int>, ghost entries: seq<Entry<Coord>>)
      requires IsGrid(maze, width, height) && IsGrid(cost, width, height) && IsGrid(distance, width, height)
      requires DistanceKnown(maze, distance) && InGridAt(width, height, cur)
      requires q.Valid() && q.queue == rest
      modifies q
      ensures q.Valid() && q.queue == InsertAllStable(rest, entries)
      ensures StepState(solver, distance, width, height, maze, cost, cur, Relaxed(maze, cost, width, height, cur), m, c, entries)
    {
      var x := cur.x;
      var y := cur.y;
      m := SetCell(maze, x, y, Visited);
      c := cost;
      var directions := Candidates(cur);
      entries := [];
      MarkStart(maze, width, height, cur);
      for i := 0 to 4
        invariant q.Valid() && q.queue == InsertAllStable(rest, entries)
        invariant StepState(solver, distance, width, height, maze, cost, cur, RelaxedUpTo(maze, cost, width, height, cur, i), m, c, entries)
        modifies q
      {
        ghost var relaxed := RelaxedUpTo(maze, cost, width, height, cur, i);
        var n := directions[i];
        RelaxedNext(maze, cost, width, height, cur, i);
        if n.x < 0 || n.x >= width {
          continue;
        }
        if n.y < 0 || n.y >= height {
          continue;
        }
        Untouched(solver, distance, width, height, maze, cost, cur, relaxed, m, c, entries, n);
        if m[n.y][n.x] == Wall {
          continue;
        }
        if m[n.y][n.x] == Visited {
          continue;
        }
        var newCost := c[y][x] + 1;
        if c[n.y][n.x] == 0 || newCost < c[n.y][n.x] {
          m, c, entries := RelaxNeighbor(solver, distance, width, height, maze, cost, cur, relaxed, m, c, q, rest, entries, n);
        }
      }
      assert Candidates(cur)[..4] == Candidates(cur);
    }

    /** Marking `cur` visited starts the step with nothing relaxed yet. */
    static lemma MarkStart(m0: Grid<CellState>, width: int, height: int, cur: Coord)
      requires IsGrid(m0, width, height) && InGridAt(width, height, cur)
      ensures MarkedGrid(SetCell(m0, cur.x, cur.y, Visited), m0, width, height, cur, [])
    {
    }

    /** After the step every queued cell is still on the map. */
    static lemma QueuedInGrid(rest: seq<Entry<Coord>>, entries: seq<Entry<Coord>>, relaxed: seq<Coord>, width: int, height: int)
      requires forall e :: e in rest ==> InGridAt(width, height, e.value)
      requires |entries| == |relaxed| && forall k :: 0 <= k < |entries| ==> entries[k].value == relaxed[k] && InGridAt(width, height, relaxed[k])
      requires Sorted(rest)
      ensures forall e :: e in InsertAllStable(rest, entries) ==> InGridAt(width, height, e.value)
    {
      InsertAllKeepsOrder(rest, entries);
      forall e | e in InsertAllStable(rest, entries)
        ensures InGridAt(width, height, e.value)
      {
        assert e in multiset(InsertAllStable(rest, entries));
        if e !in rest {
          assert e in multiset(entries);
          var k :| 0 <= k < |entries| && entries[k] == e;
        }
      }
    }

    /** `copyWith`: a new maze with the given overrides and this maze's other
        settings, throwing when the resulting width or height is even. The grids and
        the queue entries are copied as they are, so the grids keep their old shape
        even when the width or the height is overridden; the copy's queue is a new
        object, so neither maze's later steps affect the other. */
    method CopyWith(solver': Option<Solver>, generator': Option<Algorithm>, width': Option<nat>, height': Option<nat>)
      returns (r: Result<Maze>)
      requires Valid()
      ensures r.Err? <==> Or(width', width) % 2 == 0 || Or(height', height) % 2 == 0
      ensures r.Ok? ==>
        fresh(r.value) && fresh(r.value.queue) && r.value.Valid() &&
        r.value.solver == Or(solver', solver) && r.value.generator == Or(generator', generator) &&
        r.value.width == Or(width', width) && r.value.height == Or(height', height) &&
        r.value.maze == maze && r.value.distance == distance && r.value.cost == cost &&
        r.value.queue.queue == queue.queue
    {
      var created := Create(Or(solver', solver), Or(generator', generator), Or(width', width), Or(height', height));
      if created.Err? {
        return created;
      }
      var copy := created.value;
      copy.maze := maze;
      copy.distance := distance;
      copy.cost := cost;
      var entries := queue.ToArray();
      SortStableOfSorted(entries);
      copy.queue := new PriorityQueue(entries);
      return Ok(copy);
    }

    /** The `solver` setter: only the solver changes. */
    method SetSolver(solver: Solver)
      modifies this
      ensures this.solver == solver
      ensures maze == old(maze) && distance == old(distance) && cost == old(cost) && queue == old(queue)
    {
      this.solver := solver;
    }
  }

  /** The override if there is one, the current value otherwise (`??`). */
  function Or<T>(o: Option<T>, d: T): T {
    if o.Some? then o.value else d
  }
}
