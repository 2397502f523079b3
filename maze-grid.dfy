/** Cell states and the geometry every generator shares: a maze of odd width and
    height whose rooms sit on odd-odd cells, whose corridors are the cells between
    two neighbouring rooms, and whose border and even-even pillars are walls. */
module MazeGrid {
  import opened Utils

  /** `MazeCellState` (src/logic/maze.ts:9). */
  datatype CellState = Start | Goal | Passage | InQueue | Visited | Wall

  datatype Coord = Coord(x: int, y: int)

  /** The sizes a maze can have once construction succeeded and the generators run:
      odd, and wide and tall enough for one room. */
  predicate ValidSize(width: int, height: int) {
    width >= 3 && height >= 3 && width % 2 == 1 && height % 2 == 1
  }

  /** Strictly inside the border. */
  predicate Inside(width: int, height: int, c: Coord) {
    0 < c.x < width - 1 && 0 < c.y < height - 1
  }

  predicate InGridAt(width: int, height: int, c: Coord) {
    InGrid(width, height, c.x, c.y)
  }

  /** The cell of `g` at `c`. */
  function CellAt<T>(g: Grid<T>, c: Coord): T
    requires 0 <= c.y < |g| && 0 <= c.x < |g[c.y]|
  {
    g[c.y][c.x]
  }

  /** An odd-odd cell strictly inside the border: a vertex of the maze graph. */
  predicate IsRoom(width: int, height: int, x: int, y: int) {
    0 < x < width - 1 && 0 < y < height - 1 && x % 2 == 1 && y % 2 == 1
  }

  predicate IsRoomAt(width: int, height: int, c: Coord) {
    IsRoom(width, height, c.x, c.y)
  }

  /** A border cell or an even-even pillar: a wall in every generated maze. */
  predicate IsFixedWall(width: int, height: int, x: int, y: int) {
    InGrid(width, height, x, y) &&
    (x == 0 || y == 0 || x == width - 1 || y == height - 1 || (x % 2 == 0 && y % 2 == 0))
  }

  /** An interior cell with exactly one odd coordinate: it lies between two rooms. */
  predicate IsCorridor(width: int, height: int, x: int, y: int) {
    0 < x < width - 1 && 0 < y < height - 1 && (x % 2 == 0) != (y % 2 == 0)
  }

  /** The two rooms a corridor cell joins (left/right or above/below). */
  function RoomsOf(x: int, y: int): (Coord, Coord) {
    if x % 2 == 0 then (Coord(x - 1, y), Coord(x + 1, y)) else (Coord(x, y - 1), Coord(x, y + 1))
  }

  /** Two rooms two cells apart on a row or a column. */
  predicate Adjacent(a: Coord, b: Coord) {
    (a.x == b.x && (a.y - b.y == 2 || b.y - a.y == 2)) ||
    (a.y == b.y && (a.x - b.x == 2 || b.x - a.x == 2))
  }

  /** The cell halfway between two cells. */
  function Mid(a: Coord, b: Coord): (r: Coord)
    ensures Adjacent(a, b) ==> 2 * r.x == a.x + b.x && 2 * r.y == a.y + b.y
    ensures Adjacent(a, b) ==> r != a && r != b
  {
    Coord((a.x + b.x) / 2, (a.y + b.y) / 2)
  }

  /** With odd dimensions every cell is exactly one of: fixed wall, room, corridor. */
  lemma CellKinds(width: int, height: int, x: int, y: int)
    requires ValidSize(width, height) && InGrid(width, height, x, y)
    ensures IsFixedWall(width, height, x, y) || IsRoom(width, height, x, y) || IsCorridor(width, height, x, y)
    ensures !(IsFixedWall(width, height, x, y) && IsRoom(width, height, x, y))
    ensures !(IsFixedWall(width, height, x, y) && IsCorridor(width, height, x, y))
    ensures !(IsRoom(width, height, x, y) && IsCorridor(width, height, x, y))
  {
  }

  /** The cell between two neighbouring rooms is a corridor, and that corridor
      joins exactly these two rooms. */
  lemma MidOfAdjacent(width: int, height: int, a: Coord, b: Coord)
    requires IsRoomAt(width, height, a) && IsRoomAt(width, height, b) && Adjacent(a, b)
    ensures IsCorridor(width, height, Mid(a, b).x, Mid(a, b).y)
    ensures RoomsOf(Mid(a, b).x, Mid(a, b).y) == (a, b) || RoomsOf(Mid(a, b).x, Mid(a, b).y) == (b, a)
  {
  }

  /** The rooms a corridor joins are neighbouring rooms, and the corridor is their midpoint. */
  lemma RoomsOfCorridor(width: int, height: int, x: int, y: int)
    requires ValidSize(width, height) && IsCorridor(width, height, x, y)
    ensures IsRoomAt(width, height, RoomsOf(x, y).0) && IsRoomAt(width, height, RoomsOf(x, y).1)
    ensures Adjacent(RoomsOf(x, y).0, RoomsOf(x, y).1)
    ensures Mid(RoomsOf(x, y).0, RoomsOf(x, y).1) == Coord(x, y)
  {
  }

  /** All rooms of a `width` x `height` maze. */
  ghost function Rooms(width: int, height: int): set<Coord> {
    set x, y | 0 <= x < width && 0 <= y < height && IsRoom(width, height, x, y) :: Coord(x, y)
  }

  /** A set of rooms is a subset of `Rooms`. */
  lemma RoomsAmongRooms(width: int, height: int, s: set<Coord>)
    requires forall c :: c in s ==> IsRoomAt(width, height, c)
    ensures s <= Rooms(width, height)
  {
    forall c | c in s ensures c in Rooms(width, height) {
      assert IsRoomAt(width, height, c);
    }
  }

  /** One of the two rooms was attached to the other in the tree given by `parent`. */
  predicate TreeEdge(parent: map<Coord, Coord>, a: Coord, b: Coord) {
    (a in parent && parent[a] == b) || (b in parent && parent[b] == a)
  }

  /** The state of cell (x, y) when the rooms in `carved` have been carved and the
      corridors of exactly the tree edges of `parent` opened; everything else is wall. */
  function CarvedCell(width: int, height: int, x: int, y: int, carved: set<Coord>, parent: map<Coord, Coord>): CellState {
    if IsRoom(width, height, x, y) then
      (if Coord(x, y) in carved then Passage else Wall)
    else if IsCorridor(width, height, x, y) && TreeEdge(parent, RoomsOf(x, y).0, RoomsOf(x, y).1) then
      Passage
    else
      Wall
  }

  /** Carving one more room opens that room and nothing else. */
  lemma CarveRoom(width: int, height: int, carved: set<Coord>, parent: map<Coord, Coord>, r: Coord, x: int, y: int)
    requires IsRoomAt(width, height, r)
    ensures CarvedCell(width, height, x, y, carved + {r}, parent) ==
      if Coord(x, y) == r then Passage else CarvedCell(width, height, x, y, carved, parent)
  {
  }

  /** Attaching a room that had no parent to a neighbouring room opens the corridor
      between the two and nothing else. */
  lemma AttachRoom(width: int, height: int, carved: set<Coord>, parent: map<Coord, Coord>,
                   r: Coord, p: Coord, x: int, y: int)
    requires ValidSize(width, height)
    requires IsRoomAt(width, height, r) && IsRoomAt(width, height, p) && Adjacent(r, p) && r !in parent
    ensures CarvedCell(width, height, x, y, carved, parent[r := p]) ==
      if Coord(x, y) == Mid(r, p) then Passage else CarvedCell(width, height, x, y, carved, parent)
  {
    MidOfAdjacent(width, height, r, p);
    if IsCorridor(width, height, x, y) {
      RoomsOfCorridor(width, height, x, y);
    }
  }

  /** `g` is a perfect maze rooted at `root`: every room is a passage; every room but
      the root has a parent, a neighbouring room of strictly smaller rank; the open
      corridors are exactly those between a room and its parent; all else is wall.
      Following parents from any room reaches the root, so the rooms and open
      corridors form a spanning tree of the room grid. */
  ghost predicate TreeWitness(g: Grid<CellState>, width: int, height: int, root: Coord,
                              parent: map<Coord, Coord>, rank: map<Coord, nat>)
  {
    IsGrid(g, width, height) &&
    IsRoomAt(width, height, root) &&
    (forall y, x :: 0 <= y < height && 0 <= x < width ==>
       g[y][x] == CarvedCell(width, height, x, y, Rooms(width, height), parent)) &&
    (forall r :: r in parent ==>
       IsRoomAt(width, height, r) && r != root && IsRoomAt(width, height, parent[r]) && Adjacent(r, parent[r])) &&
    (forall r :: IsRoomAt(width, height, r) && r != root ==> r in parent) &&
    (forall r :: IsRoomAt(width, height, r) ==> r in rank) &&
    (forall r :: r in parent ==> r in rank && parent[r] in rank && rank[parent[r]] < rank[r])
  }

  /** A perfect maze: one that has a spanning-tree witness. */
  ghost predicate PerfectMaze(g: Grid<CellState>, width: int, height: int) {
    exists root, parent, rank :: TreeWitness(g, width, height, root, parent, rank)
  }

  /** The shape all three generators produce: a `width` x `height` grid of walls and
      passages in which every room is a passage and the border and pillars are walls. */
  ghost predicate MazeShape(g: Grid<CellState>, width: int, height: int) {
    IsGrid(g, width, height) &&
    (forall y, x :: 0 <= y < height && 0 <= x < width ==> g[y][x] == Wall || g[y][x] == Passage) &&
    (forall y, x :: IsFixedWall(width, height, x, y) ==> g[y][x] == Wall) &&
    (forall y, x :: IsRoom(width, height, x, y) ==> g[y][x] == Passage)
  }

  /** A perfect maze has the common shape. */
  lemma PerfectMazeShape(g: Grid<CellState>, width: int, height: int)
    requires ValidSize(width, height) && PerfectMaze(g, width, height)
    ensures MazeShape(g, width, height)
  {
    var root, parent, rank :| TreeWitness(g, width, height, root, parent, rank);
    forall y, x | IsRoom(width, height, x, y)
      ensures g[y][x] == Passage
    {
      assert Coord(x, y) in Rooms(width, height);
    }
    forall y, x | IsFixedWall(width, height, x, y)
      ensures g[y][x] == Wall
    {
      CellKinds(width, height, x, y);
    }
  }

  /** The rooms met when following parents from `r` until a room without parent. */
  ghost function ParentChain(parent: map<Coord, Coord>, rank: map<Coord, nat>, r: Coord): seq<Coord>
    requires forall q :: q in parent ==> q in rank && parent[q] in rank && rank[parent[q]] < rank[q]
    requires r in rank
    decreases rank[r]
  {
    if r in parent then [r] + ParentChain(parent, rank, parent[r]) else [r]
  }

  /** Following parents from any room reaches the root, each step through an open
      corridor: the tree of a witness is connected. */
  lemma {:induction false} ReachesRoot(g: Grid<CellState>, width: int, height: int, root: Coord,
                                       parent: map<Coord, Coord>, rank: map<Coord, nat>, r: Coord)
    requires ValidSize(width, height)
    requires TreeWitness(g, width, height, root, parent, rank)
    requires IsRoomAt(width, height, r)
    ensures IsPathToRoot(g, width, height, root, ParentChain(parent, rank, r))
    ensures ParentChain(parent, rank, r)[0] == r
    decreases rank[r]
  {
    if r in parent {
      var p := parent[r];
      ReachesRoot(g, width, height, root, parent, rank, p);
      var tail := ParentChain(parent, rank, p);
      var path := [r] + tail;
      assert path == ParentChain(parent, rank, r);
      MidOfAdjacent(width, height, r, p);
      var m := Mid(r, p);
      assert g[m.y][m.x] == CarvedCell(width, height, m.x, m.y, Rooms(width, height), parent);
      assert g[m.y][m.x] == Passage;
      forall i | 0 <= i < |path| - 1
        ensures Adjacent(path[i], path[i + 1]) && g[Mid(path[i], path[i + 1]).y][Mid(path[i], path[i + 1]).x] == Passage
      {
        if i > 0 {
          assert path[i] == tail[i - 1] && path[i + 1] == tail[i];
        }
      }
    }
  }

  /** `path` is a walk of neighbouring rooms ending at `root` whose corridors are all open. */
  ghost predicate IsPathToRoot(g: Grid<CellState>, width: int, height: int, root: Coord, path: seq<Coord>)
    requires IsGrid(g, width, height)
  {
    |path| > 0 && path[|path| - 1] == root &&
    (forall i :: 0 <= i < |path| ==> IsRoomAt(width, height, path[i])) &&
    (forall i :: 0 <= i < |path| - 1 ==>
       Adjacent(path[i], path[i + 1]) && g[Mid(path[i], path[i + 1]).y][Mid(path[i], path[i + 1]).x] == Passage)
  }

  /** A set of rooms that holds (1, 1) and is closed under moving to a neighbouring
      room holds every room: the room grid is connected. */
  lemma AllRoomsReached(width: int, height: int, c: set<Coord>)
    requires ValidSize(width, height)
    requires Coord(1, 1) in c
    requires forall a, b {:trigger Adjacent(a, b)} :: a in c && IsRoomAt(width, height, b) && Adjacent(a, b) ==> b in c
    ensures forall x, y :: IsRoom(width, height, x, y) ==> Coord(x, y) in c
  {
    forall x, y | IsRoom(width, height, x, y)
      ensures Coord(x, y) in c
    {
      RoomReached(width, height, c, x, y);
    }
  }

  lemma {:induction false} RoomReached(width: int, height: int, c: set<Coord>, x: int, y: int)
    requires ValidSize(width, height)
    requires Coord(1, 1) in c
    requires forall a, b {:trigger Adjacent(a, b)} :: a in c && IsRoomAt(width, height, b) && Adjacent(a, b) ==> b in c
    requires IsRoom(width, height, x, y)
    ensures Coord(x, y) in c
    decreases x + y
  {
    if x > 1 {
      RoomReached(width, height, c, x - 2, y);
      assert Adjacent(Coord(x - 2, y), Coord(x, y));
    } else if y > 1 {
      RoomReached(width, height, c, x, y - 2);
      assert Adjacent(Coord(x, y - 2), Coord(x, y));
    }
  }
}
