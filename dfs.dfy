/** The depth-first generator (src/logic/maze-generator/dfs.ts): randomized
    backtracking from room (1, 1) over an explicit stack. */
module Dfs {
  import opened Utils
  import opened MazeGrid

  /** `getNeighbors`: the four cells two steps away from (x, y), shuffled, keeping
      those strictly inside the border. */
  method GetNeighbors(x: int, y: int, width: int, height: int) returns (neighbors: seq<Coord>)
    ensures forall c :: c in neighbors <==>
      c in [Coord(x - 2, y), Coord(x + 2, y), Coord(x, y - 2), Coord(x, y + 2)] && Inside(width, height, c)
    ensures IsRoom(width, height, x, y) ==>
      forall c :: c in neighbors <==> IsRoomAt(width, height, c) && Adjacent(Coord(x, y), c)
  {
    var candidates := new Coord[4][Coord(x - 2, y), Coord(x + 2, y), Coord(x, y - 2), Coord(x, y + 2)];
    ghost var before := candidates[..];
    assert before == [Coord(x - 2, y), Coord(x + 2, y), Coord(x, y - 2), Coord(x, y + 2)];
    ShuffleArray(candidates);
    SameMembers(candidates[..], before);
    neighbors := Filter(candidates[..], (c: Coord) => Inside(width, height, c));
    if IsRoom(width, height, x, y) {
      forall c ensures c in neighbors <==> IsRoomAt(width, height, c) && Adjacent(Coord(x, y), c) {
        NeighborsAreAdjacentRooms(width, height, Coord(x, y), c);
      }
    }
  }

  /** The cells `getNeighbors` returns for a room are exactly its neighbouring rooms. */
  lemma NeighborsAreAdjacentRooms(width: int, height: int, current: Coord, b: Coord)
    requires IsRoomAt(width, height, current)
    ensures (b in [Coord(current.x - 2, current.y), Coord(current.x + 2, current.y),
                   Coord(current.x, current.y - 2), Coord(current.x, current.y + 2)] &&
             Inside(width, height, b))
        <==> IsRoomAt(width, height, b) && Adjacent(current, b)
  {
  }

  /** Adding room `next`, attached to `current`, to a partial carving opens exactly
      the room and the corridor between the two. */
  lemma CarveStep(width: int, height: int, carved: set<Coord>, parent: map<Coord, Coord>,
                  current: Coord, next: Coord, x: int, y: int)
    requires ValidSize(width, height) && InGrid(width, height, x, y)
    requires current in carved && next !in carved
    requires IsRoomAt(width, height, current) && IsRoomAt(width, height, next) && Adjacent(current, next)
    requires forall r :: r in parent ==> r in carved && parent[r] in carved
    ensures CarvedCell(width, height, x, y, carved + {next}, parent[next := current]) ==
      if Coord(x, y) == next || Coord(x, y) == Mid(current, next) then Passage
      else CarvedCell(width, height, x, y, carved, parent)
  {
    CarveRoom(width, height, carved, parent, next, x, y);
    AttachRoom(width, height, carved + {next}, parent, next, current, x, y);
    assert Mid(next, current) == Mid(current, next);
  }

  /** `neighbors.filter(...)` keeping the cells that are still walls. */
  function WallCells(maze: Grid<CellState>, width: int, height: int, cells: seq<Coord>): (r: seq<Coord>)
    requires IsGrid(maze, width, height)
    ensures forall c :: c in r <==> c in cells && InGridAt(width, height, c) && CellAt(maze, c) == Wall
  {
    Filter(cells, (c: Coord) => InGridAt(width, height, c) && CellAt(maze, c) == Wall)
  }

  /** The loop invariant of `dfsGenerator`: the grid shows exactly the rooms in
      `carved` and the corridors of the tree `parent` rooted at (1, 1); ranks grow
      away from the root; the stack holds carved rooms; and a carved room that has
      left the stack has no uncarved neighbour. */
  ghost predicate DfsInv(maze: Grid<CellState>, width: int, height: int, stack: seq<Coord>,
                         carved: set<Coord>, parent: map<Coord, Coord>, rank: map<Coord, nat>, count: nat)
  {
    IsGrid(maze, width, height) &&
    (forall y, x :: 0 <= y < height && 0 <= x < width ==>
       maze[y][x] == CarvedCell(width, height, x, y, carved, parent)) &&
    Coord(1, 1) in carved &&
    (forall c :: c in carved ==> IsRoomAt(width, height, c)) &&
    (forall c :: c in stack ==> c in carved) &&
    parent.Keys == carved - {Coord(1, 1)} &&
    (forall r :: r in parent ==> parent[r] in carved && Adjacent(r, parent[r])) &&
    rank.Keys == carved &&
    (forall r :: r in rank ==> rank[r] < count) &&
    (forall r :: r in parent ==> rank[parent[r]] < rank[r]) &&
    (forall a, b {:trigger Adjacent(a, b)} :: a in carved && a !in stack && IsRoomAt(width, height, b) && Adjacent(a, b) ==> b in carved)
  }

  /** Popping a room none of whose neighbours is still a wall keeps the invariant. */
  lemma PopStep(maze: Grid<CellState>, width: int, height: int, stack: seq<Coord>,
                carved: set<Coord>, parent: map<Coord, Coord>, rank: map<Coord, nat>, count: nat)
    requires ValidSize(width, height) && |stack| > 0
    requires DfsInv(maze, width, height, stack, carved, parent, rank, count)
    requires forall b :: IsRoomAt(width, height, b) && Adjacent(stack[|stack| - 1], b) ==> CellAt(maze, b) != Wall
    ensures DfsInv(maze, width, height, stack[..|stack| - 1], carved, parent, rank, count)
  {
    var top := stack[|stack| - 1];
    forall b | IsRoomAt(width, height, b) && Adjacent(top, b)
      ensures b in carved
    {
      assert maze[b.y][b.x] == CarvedCell(width, height, b.x, b.y, carved, parent);
    }
    assert stack == stack[..|stack| - 1] + [stack[|stack| - 1]];
  }

  /** Carving the wall room `next` next to the top of the stack, together with the
      corridor between them, and pushing it keeps the invariant. */
  lemma PushStep(maze: Grid<CellState>, width: int, height: int, stack: seq<Coord>,
                 carved: set<Coord>, parent: map<Coord, Coord>, rank: map<Coord, nat>, count: nat, next: Coord)
    requires ValidSize(width, height) && |stack| > 0
    requires DfsInv(maze, width, height, stack, carved, parent, rank, count)
    requires IsRoomAt(width, height, next) && Adjacent(stack[|stack| - 1], next)
    requires CellAt(maze, next) == Wall
    ensures next !in carved
    ensures var current := stack[|stack| - 1];
      DfsInv(SetCell(SetCell(maze, next.x, next.y, Passage), (current.x + next.x) / 2, (current.y + next.y) / 2, Passage),
             width, height, stack + [next], carved + {next}, parent[next := current], rank[next := count], count + 1)
  {
    var current := stack[|stack| - 1];
    var m2 := SetCell(SetCell(maze, next.x, next.y, Passage), (current.x + next.x) / 2, (current.y + next.y) / 2, Passage);
    forall y, x | 0 <= y < height && 0 <= x < width
      ensures m2[y][x] == CarvedCell(width, height, x, y, carved + {next}, parent[next := current])
    {
      CarveStep(width, height, carved, parent, current, next, x, y);
    }
  }

  /** One pass of the loop of `dfsGenerator`: look at the room on top of the stack;
      if no neighbouring room is still a wall, pop it; otherwise carve a randomly
      chosen wall neighbour and the corridor to it, and push that neighbour. Either
      the stack shrinks and nothing is carved, or exactly one new room is carved. */
  method DfsStep(maze: Grid<CellState>, width: int, height: int, stack: seq<Coord>,
                 ghost carved: set<Coord>, ghost parent: map<Coord, Coord>, ghost rank: map<Coord, nat>, ghost count: nat)
    returns (maze': Grid<CellState>, stack': seq<Coord>,
             ghost carved': set<Coord>, ghost parent': map<Coord, Coord>, ghost rank': map<Coord, nat>, ghost count': nat)
    requires ValidSize(width, height) && |stack| > 0
    requires DfsInv(maze, width, height, stack, carved, parent, rank, count)
    ensures DfsInv(maze', width, height, stack', carved', parent', rank', count')
    ensures (carved' == carved && |stack'| < |stack|) || (carved < carved' <= Rooms(width, height))
  {
    var current := stack[|stack| - 1];
    assert current in carved;
    var neighbors := GetNeighbors(current.x, current.y, width, height);
    var unvisited := WallCells(maze, width, height, neighbors);

    if |unvisited| == 0 {
      forall b | IsRoomAt(width, height, b) && Adjacent(current, b)
        ensures CellAt(maze, b) != Wall
      {
        assert b in neighbors && b !in unvisited;
      }
      PopStep(maze, width, height, stack, carved, parent, rank, count);
      maze', stack' := maze, stack[..|stack| - 1];
      carved', parent', rank', count' := carved, parent, rank, count;
      return;
    }

    var k := Choose(|unvisited|);
    var next := unvisited[k];
    assert next in neighbors && CellAt(maze, next) == Wall;
    maze', stack', carved', parent', rank', count' := CarveTo(maze, width, height, stack, carved, parent, rank, count, next);
  }

  /** The carving branch of the loop: open room `next` and the corridor from the
      room on top of the stack to it, and push `next`. */
  method CarveTo(maze: Grid<CellState>, width: int, height: int, stack: seq<Coord>,
                 ghost carved: set<Coord>, ghost parent: map<Coord, Coord>, ghost rank: map<Coord, nat>, ghost count: nat,
                 next: Coord)
    returns (maze': Grid<CellState>, stack': seq<Coord>,
             ghost carved': set<Coord>, ghost parent': map<Coord, Coord>, ghost rank': map<Coord, nat>, ghost count': nat)
    requires ValidSize(width, height) && |stack| > 0
    requires DfsInv(maze, width, height, stack, carved, parent, rank, count)
    requires IsRoomAt(width, height, next) && Adjacent(stack[|stack| - 1], next)
    requires CellAt(maze, next) == Wall
    ensures DfsInv(maze', width, height, stack', carved', parent', rank', count')
    ensures carved < carved' <= Rooms(width, height)
  {
    var current := stack[|stack| - 1];
    PushStep(maze, width, height, stack, carved, parent, rank, count, next);
    RoomsAmongRooms(width, height, carved + {next});
    maze' := SetCell(maze, next.x, next.y, Passage);
    maze' := SetCell(maze', (current.x + next.x) / 2, (current.y + next.y) / 2, Passage);
    stack' := stack + [next];
    parent' := parent[next := current];
    rank' := rank[next := count];
    count' := count + 1;
    carved' := carved + {next};
  }

  /** `dfsGenerator`: the result is a perfect maze rooted at (1, 1); in particular it
      is `height` x `width`, holds only walls and passages, every room is a passage,
      and the border and the pillars are walls. */
  method DfsGenerator(width: int, height: int) returns (maze: Grid<CellState>)
    requires ValidSize(width, height)
    ensures PerfectMaze(maze, width, height)
    ensures MazeShape(maze, width, height)
  {
    maze := InitArray2D(width, height, Wall);
    var stack := [Coord(1, 1)];
    maze := SetCell(maze, 1, 1, Passage);
    ghost var carved: set<Coord> := {Coord(1, 1)};
    ghost var parent: map<Coord, Coord> := map[];
    ghost var rank: map<Coord, nat> := map[Coord(1, 1) := 0];
    ghost var count: nat := 1;

    while |stack| > 0
      invariant DfsInv(maze, width, height, stack, carved, parent, rank, count)
      invariant carved <= Rooms(width, height)
      decreases Rooms(width, height) - carved, |stack|
    {
      maze, stack, carved, parent, rank, count := DfsStep(maze, width, height, stack, carved, parent, rank, count);
    }

    DfsFinish(maze, width, height, carved, parent, rank, count);
  }

  /** Once the stack is empty every room is carved, and the carving is a perfect maze. */
  lemma DfsFinish(maze: Grid<CellState>, width: int, height: int,
                  carved: set<Coord>, parent: map<Coord, Coord>, rank: map<Coord, nat>, count: nat)
    requires ValidSize(width, height)
    requires DfsInv(maze, width, height, [], carved, parent, rank, count)
    ensures PerfectMaze(maze, width, height)
    ensures MazeShape(maze, width, height)
  {
    AllRoomsReached(width, height, carved);
    assert carved == Rooms(width, height);
    assert TreeWitness(maze, width, height, Coord(1, 1), parent, rank);
    PerfectMazeShape(maze, width, height);
  }
}
