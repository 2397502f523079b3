/** The recursive-division generator (src/logic/maze-generator/recursive-division.ts):
    a map of per-cell generation states, split again and again by flood-filling two
    random seeds in red and green and walling the boundary between the two areas
    except for one door. */
module RecursiveDivision {
  import opened Utils
  import opened MazeGrid

  /** `MazeGeneratingState`. */
  datatype GenState = WallState | PassageState | Unfilled | RedArea | GreenArea | Unused

  /** The starting map: border cells and even-even pillars are walls, every other
      cell is unfilled. */
  function InitialMap(width: nat, height: nat): (m: Grid<GenState>)
    ensures IsGrid(m, width, height)
    ensures forall y, x :: 0 <= y < height && 0 <= x < width ==>
      m[y][x] == if IsFixedWall(width, height, x, y) then WallState else Unfilled
  {
    seq(height, y => seq(width, x =>
      if x == 0 || y == 0 || x == width - 1 || y == height - 1 || (x % 2 == 0 && y % 2 == 0)
      then WallState else Unfilled))
  }

  /** What a cell may hold while `divide` runs: fixed walls are walls; a room is
      unfilled, unused or a passage, or, during a flood fill, red or green; a
      corridor is unfilled, a wall or a passage. */
  predicate CellOk(width: int, height: int, x: int, y: int, s: GenState, filling: bool) {
    (IsFixedWall(width, height, x, y) ==> s == WallState) &&
    (IsRoom(width, height, x, y) ==>
       s == Unfilled || s == Unused || s == PassageState || (filling && (s == RedArea || s == GreenArea))) &&
    (IsCorridor(width, height, x, y) ==> s == Unfilled || s == WallState || s == PassageState)
  }

  ghost predicate WellFormed(m: Grid<GenState>, width: int, height: int, filling: bool) {
    IsGrid(m, width, height) &&
    forall y, x :: 0 <= y < height && 0 <= x < width ==> CellOk(width, height, x, y, m[y][x], filling)
  }

  /** Cell `c` lies on the map and is in state `s`. */
  ghost predicate HasState(m: Grid<GenState>, width: int, height: int, c: Coord, s: GenState)
    requires IsGrid(m, width, height)
  {
    InGridAt(width, height, c) && CellAt(m, c) == s
  }

  /** The rooms in state `s`. */
  ghost function RoomsIn(m: Grid<GenState>, width: int, height: int, s: GenState): set<Coord>
    requires IsGrid(m, width, height)
  {
    set x, y | 0 <= x < width && 0 <= y < height && IsRoom(width, height, x, y) && m[y][x] == s :: Coord(x, y)
  }

  /** The rooms not yet turned into passages: unfilled or set aside as unused. */
  ghost function Open(m: Grid<GenState>, width: int, height: int): set<Coord>
    requires IsGrid(m, width, height)
  {
    RoomsIn(m, width, height, Unfilled) + RoomsIn(m, width, height, Unused)
  }

  /** What no step of `divide` undoes: fixed walls keep their state, and a room that
      became a passage stays one. */
  ghost predicate Evolves(m: Grid<GenState>, m': Grid<GenState>, width: int, height: int) {
    IsGrid(m, width, height) && IsGrid(m', width, height) &&
    forall y, x :: 0 <= y < height && 0 <= x < width ==>
      (IsFixedWall(width, height, x, y) ==> m'[y][x] == m[y][x]) &&
      (IsRoom(width, height, x, y) && m[y][x] == PassageState ==> m'[y][x] == PassageState)
  }

  /** Cell `c` comes before (x, y) in row-major order. */
  predicate Scanned(c: Coord, x: int, y: int) {
    c.y < y || (c.y == y && c.x < x)
  }

  /** An odd-odd cell. */
  predicate OddCell(c: Coord) {
    c.x % 2 == 1 && c.y % 2 == 1
  }

  /** The filter of `divide`'s first line: the odd-odd cells that are unfilled, in map order. */
  method UnfilledRooms(m: Grid<GenState>, width: int, height: int) returns (cells: seq<Coord>)
    requires width >= 0 && IsGrid(m, width, height)
    ensures forall c :: c in cells <==> OddCell(c) && HasState(m, width, height, c, Unfilled)
    ensures Distinct(cells)
  {
    cells := [];
    for y := 0 to height
      invariant forall c :: c in cells <==> Scanned(c, 0, y) && OddCell(c) && HasState(m, width, height, c, Unfilled)
      invariant Distinct(cells)
    {
      for x := 0 to width
        invariant forall c :: c in cells <==> Scanned(c, x, y) && OddCell(c) && HasState(m, width, height, c, Unfilled)
        invariant Distinct(cells)
      {
        if m[y][x] == Unfilled && x % 2 == 1 && y % 2 == 1 {
          assert Coord(x, y) !in cells;
          cells := cells + [Coord(x, y)];
        }
      }
    }
  }

  /** The four cells two steps away, in the order `getNeighbors` tries them. */
  function Around(c: Coord): (r: seq<Coord>)
    ensures forall b :: b in r <==> Adjacent(c, b)
  {
    [Coord(c.x - 2, c.y), Coord(c.x + 2, c.y), Coord(c.x, c.y - 2), Coord(c.x, c.y + 2)]
  }

  /** `getNeighbors(cell, state)`: the cells two steps away that lie on the map and
      are in state `s`. */
  method NeighborsWith(m: Grid<GenState>, width: int, height: int, cell: Coord, s: GenState)
    returns (neighbors: seq<Coord>)
    requires IsGrid(m, width, height)
    ensures forall c :: c in neighbors <==> Adjacent(cell, c) && HasState(m, width, height, c, s)
  {
    var directions := [Coord(-2, 0), Coord(2, 0), Coord(0, -2), Coord(0, 2)];
    neighbors := [];
    for i := 0 to 4
      invariant forall c :: c in neighbors <==> c in Around(cell)[..i] && HasState(m, width, height, c, s)
    {
      var x := cell.x + directions[i].x;
      var y := cell.y + directions[i].y;
      assert Around(cell)[..i + 1] == Around(cell)[..i] + [Coord(x, y)];
      if x < 0 || y < 0 || x >= width || y >= height {
        continue;
      }
      if m[y][x] == s {
        neighbors := neighbors + [Coord(x, y)];
      }
    }
    assert Around(cell)[..4] == Around(cell);
  }

  /** One inner loop of the flood fill: take random cells off `queue` until one is
      still unfilled, paint it `colour` and queue its unfilled neighbours. When no
      queued cell is unfilled, the queue is drained and nothing is painted. */
  method ClaimOne(m: Grid<GenState>, width: int, height: int, queue: seq<Coord>, colour: GenState)
    returns (m': Grid<GenState>, queue': seq<Coord>, claimed: Option<Coord>)
    requires IsGrid(m, width, height) && colour != Unfilled
    requires forall c :: c in queue ==> InGridAt(width, height, c)
    ensures IsGrid(m', width, height)
    ensures forall c :: c in queue' ==> InGridAt(width, height, c)
    ensures claimed.None? ==>
      m' == m && queue' == [] && forall c :: c in queue ==> !HasState(m, width, height, c, Unfilled)
    ensures claimed.Some? ==>
      claimed.value in queue && HasState(m, width, height, claimed.value, Unfilled) &&
      m' == SetCell(m, claimed.value.x, claimed.value.y, colour)
    ensures claimed.Some? ==>
      (forall c :: c in queue' ==> c in queue || (Adjacent(claimed.value, c) && HasState(m', width, height, c, Unfilled))) &&
      (forall c :: c in queue && c != claimed.value && HasState(m, width, height, c, Unfilled) ==> c in queue') &&
      (forall c :: Adjacent(claimed.value, c) && HasState(m', width, height, c, Unfilled) ==> c in queue')
  {
    m' := m;
    queue' := queue;
    claimed := None;
    while |queue'| > 0
      invariant forall c :: c in queue' ==> c in queue
      invariant forall c :: c in queue && HasState(m, width, height, c, Unfilled) ==> c in queue'
      decreases |queue'|
    {
      var k := Choose(|queue'|);
      var cell := queue'[k];
      assert cell in queue;
      RemoveAtMembers(queue', k);
      queue' := RemoveAt(queue', k);
      if m[cell.y][cell.x] != Unfilled {
        continue;
      }
      m' := SetCell(m, cell.x, cell.y, colour);
      var neighbors := NeighborsWith(m', width, height, cell, Unfilled);
      queue' := queue' + neighbors;
      claimed := Some(cell);
      break;
    }
  }

  /** The cells of `m'` that differ from `m` are rooms that were unfilled in `m` and
      are now red or green: the flood fill claims only unfilled rooms. */
  ghost predicate ClaimedFrom(m: Grid<GenState>, m': Grid<GenState>, width: int, height: int) {
    IsGrid(m, width, height) && IsGrid(m', width, height) &&
    forall y, x :: 0 <= y < height && 0 <= x < width ==>
      m'[y][x] == m[y][x] ||
      (m[y][x] == Unfilled && IsRoom(width, height, x, y) && (m'[y][x] == RedArea || m'[y][x] == GreenArea))
  }

  /** The queue of `colour` holds rooms only, and every unfilled neighbour of a cell
      painted `colour` is waiting in it. */
  ghost predicate Side(m: Grid<GenState>, width: int, height: int, colour: GenState, queue: seq<Coord>)
    requires IsGrid(m, width, height)
  {
    (forall c :: c in queue ==> IsRoomAt(width, height, c)) &&
    (forall a, b {:trigger Adjacent(a, b)} ::
       HasState(m, width, height, a, colour) && Adjacent(a, b) && HasState(m, width, height, b, Unfilled) ==> b in queue)
  }

  /** An unfilled cell next to a room is a room. */
  lemma UnfilledNextToRoom(m: Grid<GenState>, width: int, height: int, a: Coord, b: Coord, filling: bool)
    requires WellFormed(m, width, height, filling)
    requires IsRoomAt(width, height, a) && Adjacent(a, b) && HasState(m, width, height, b, Unfilled)
    ensures IsRoomAt(width, height, b)
  {
    assert CellOk(width, height, b.x, b.y, m[b.y][b.x], filling);
  }

  /** Painting one unfilled room removes it from the unfilled rooms and adds nothing. */
  lemma PaintShrinks(m: Grid<GenState>, width: int, height: int, c: Coord, colour: GenState)
    requires IsGrid(m, width, height) && colour != Unfilled
    requires IsRoomAt(width, height, c) && HasState(m, width, height, c, Unfilled)
    ensures RoomsIn(SetCell(m, c.x, c.y, colour), width, height, Unfilled) == RoomsIn(m, width, height, Unfilled) - {c}
    ensures c in RoomsIn(m, width, height, Unfilled)
  {
    var m' := SetCell(m, c.x, c.y, colour);
    assert forall d :: d in RoomsIn(m', width, height, Unfilled) <==> d in RoomsIn(m, width, height, Unfilled) - {c};
  }

  /** One call of `ClaimOne` for `colour` keeps the flood-fill invariant for both
      queues, and shrinks the unfilled rooms exactly when it paints a cell. */
  lemma ClaimKeeps(m: Grid<GenState>, m0: Grid<GenState>, m1: Grid<GenState>, width: int, height: int,
                   colour: GenState, q0: seq<Coord>, q1: seq<Coord>, other: GenState, oq: seq<Coord>,
                   claimed: Option<Coord>)
    requires ValidSize(width, height)
    requires colour in {RedArea, GreenArea} && other in {RedArea, GreenArea} && colour != other
    requires WellFormed(m, width, height, false) && ClaimedFrom(m, m0, width, height)
    requires Side(m0, width, height, colour, q0) && Side(m0, width, height, other, oq)
    requires IsGrid(m1, width, height)
    requires claimed.None? ==>
      m1 == m0 && q1 == [] && forall c :: c in q0 ==> !HasState(m0, width, height, c, Unfilled)
    requires claimed.Some? ==>
      claimed.value in q0 && HasState(m0, width, height, claimed.value, Unfilled) &&
      m1 == SetCell(m0, claimed.value.x, claimed.value.y, colour)
    requires claimed.Some? ==>
      (forall c :: c in q1 ==> c in q0 || (Adjacent(claimed.value, c) && HasState(m1, width, height, c, Unfilled))) &&
      (forall c :: c in q0 && c != claimed.value && HasState(m0, width, height, c, Unfilled) ==> c in q1) &&
      (forall c :: Adjacent(claimed.value, c) && HasState(m1, width, height, c, Unfilled) ==> c in q1)
    ensures ClaimedFrom(m, m1, width, height)
    ensures Side(m1, width, height, colour, q1) && Side(m1, width, height, other, oq)
    ensures RoomsIn(m1, width, height, Unfilled) <= RoomsIn(m0, width, height, Unfilled)
    ensures claimed.Some? ==> RoomsIn(m1, width, height, Unfilled) < RoomsIn(m0, width, height, Unfilled)
    ensures forall c, s :: s != Unfilled && HasState(m0, width, height, c, s) ==> HasState(m1, width, height, c, s)
  {
    if claimed.Some? {
      var c := claimed.value;
      WellFormedWhileClaiming(m, m0, width, height);
      PaintShrinks(m0, width, height, c, colour);
      forall b | b in q1 ensures IsRoomAt(width, height, b) {
        if b !in q0 {
          UnfilledNextToRoom(m0, width, height, c, b, true);
        }
      }
      forall a, b | HasState(m1, width, height, a, colour) && Adjacent(a, b) && HasState(m1, width, height, b, Unfilled)
        ensures b in q1
      {
        if a != c {
          assert HasState(m0, width, height, a, colour) && HasState(m0, width, height, b, Unfilled);
        }
      }
      forall a, b | HasState(m1, width, height, a, other) && Adjacent(a, b) && HasState(m1, width, height, b, Unfilled)
        ensures b in oq
      {
        assert HasState(m0, width, height, a, other) && HasState(m0, width, height, b, Unfilled);
      }
    }
  }

  /** During the flood fill the map keeps its shape, with red and green rooms allowed. */
  lemma WellFormedWhileClaiming(m: Grid<GenState>, m': Grid<GenState>, width: int, height: int)
    requires WellFormed(m, width, height, false) && ClaimedFrom(m, m', width, height)
    ensures WellFormed(m', width, height, true)
  {
    forall y, x | 0 <= y < height && 0 <= x < width
      ensures CellOk(width, height, x, y, m'[y][x], true)
    {
      assert CellOk(width, height, x, y, m[y][x], false);
    }
  }

  /** One round of the flood fill's outer loop: red claims a cell, then green does.
      The invariant of the fill is kept, cells already painted keep their colour, and
      either a cell was claimed or both queues are drained with nothing painted. In
      the first round the two seeds are claimed. */
  method FillRound(m: Grid<GenState>, m0: Grid<GenState>, width: int, height: int,
                   redQueue: seq<Coord>, greenQueue: seq<Coord>)
    returns (m': Grid<GenState>, redQueue': seq<Coord>, greenQueue': seq<Coord>)
    requires ValidSize(width, height) && WellFormed(m, width, height, false) && ClaimedFrom(m, m0, width, height)
    requires Side(m0, width, height, RedArea, redQueue) && Side(m0, width, height, GreenArea, greenQueue)
    requires forall c :: c in redQueue ==> InGridAt(width, height, c)
    requires forall c :: c in greenQueue ==> InGridAt(width, height, c)
    ensures ClaimedFrom(m, m', width, height)
    ensures Side(m', width, height, RedArea, redQueue') && Side(m', width, height, GreenArea, greenQueue')
    ensures forall c :: c in redQueue' ==> InGridAt(width, height, c)
    ensures forall c :: c in greenQueue' ==> InGridAt(width, height, c)
    ensures RoomsIn(m', width, height, Unfilled) < RoomsIn(m0, width, height, Unfilled) ||
      (m' == m0 && redQueue' == [] && greenQueue' == [])
    ensures forall c, s :: s != Unfilled && HasState(m0, width, height, c, s) ==> HasState(m', width, height, c, s)
    ensures forall red, green ::
      redQueue == [red] && greenQueue == [green] && red != green &&
      HasState(m0, width, height, red, Unfilled) && HasState(m0, width, height, green, Unfilled) ==>
      HasState(m', width, height, red, RedArea) && HasState(m', width, height, green, GreenArea)
  {
    var claimedRed, claimedGreen;
    var m1;
    m1, redQueue', claimedRed := ClaimOne(m0, width, height, redQueue, RedArea);
    ClaimKeeps(m, m0, m1, width, height, RedArea, redQueue, redQueue', GreenArea, greenQueue, claimedRed);
    m', greenQueue', claimedGreen := ClaimOne(m1, width, height, greenQueue, GreenArea);
    ClaimKeeps(m, m1, m', width, height, GreenArea, greenQueue, greenQueue', RedArea, redQueue', claimedGreen);
    forall red, green | redQueue == [red] && greenQueue == [green] && red != green &&
        HasState(m0, width, height, red, Unfilled) && HasState(m0, width, height, green, Unfilled)
      ensures HasState(m', width, height, red, RedArea) && HasState(m', width, height, green, GreenArea)
    {
      assert red in redQueue && green in greenQueue;
      assert claimedRed == Some(red) && HasState(m1, width, height, red, RedArea);
      assert HasState(m1, width, height, green, Unfilled);
      assert claimedGreen == Some(green);
    }
  }

  /** The flood fill of `divide`: starting from the red and the green seed, the two
      colours take turns claiming one unfilled room each until both queues are empty.
      Only unfilled rooms are claimed, each at most once; both seeds are claimed; and
      at the end no unfilled cell neighbours a red or a green one. */
  method FloodFill(m: Grid<GenState>, width: int, height: int, red: Coord, green: Coord) returns (m': Grid<GenState>)
    requires ValidSize(width, height) && WellFormed(m, width, height, false)
    requires red != green && IsRoomAt(width, height, red) && IsRoomAt(width, height, green)
    requires HasState(m, width, height, red, Unfilled) && HasState(m, width, height, green, Unfilled)
    ensures ClaimedFrom(m, m', width, height) && WellFormed(m', width, height, true)
    ensures HasState(m', width, height, red, RedArea) && HasState(m', width, height, green, GreenArea)
    ensures forall a, b {:trigger Adjacent(a, b)} :: Adjacent(a, b) && HasState(m', width, height, b, Unfilled) ==>
      !HasState(m', width, height, a, RedArea) && !HasState(m', width, height, a, GreenArea)
  {
    m' := m;
    var redQueue := [red];
    var greenQueue := [green];
    ghost var started := false;
    while |redQueue| > 0 || |greenQueue| > 0
      invariant ClaimedFrom(m, m', width, height)
      invariant Side(m', width, height, RedArea, redQueue) && Side(m', width, height, GreenArea, greenQueue)
      invariant forall c :: c in redQueue ==> InGridAt(width, height, c)
      invariant forall c :: c in greenQueue ==> InGridAt(width, height, c)
      invariant !started ==> redQueue == [red] && greenQueue == [green] && m' == m
      invariant started ==> HasState(m', width, height, red, RedArea) && HasState(m', width, height, green, GreenArea)
      decreases RoomsIn(m', width, height, Unfilled), |redQueue| + |greenQueue|
    {
      m', redQueue, greenQueue := FillRound(m, m', width, height, redQueue, greenQueue);
      started := true;
    }
    WellFormedWhileClaiming(m, m', width, height);
  }

  /** Red room `r` and green room `g` are neighbours. */
  ghost predicate Door(m: Grid<GenState>, width: int, height: int, r: Coord, g: Coord)
    requires IsGrid(m, width, height)
  {
    HasState(m, width, height, r, RedArea) && HasState(m, width, height, g, GreenArea) && Adjacent(r, g)
  }

  /** Cell `c` lies between a red room and a neighbouring green room, among those
      whose red room comes before (x, y). */
  ghost predicate BoundaryBefore(m: Grid<GenState>, width: int, height: int, c: Coord, x: int, y: int)
    requires IsGrid(m, width, height)
  {
    exists r, g :: Door(m, width, height, r, g) && Scanned(r, x, y) && c == Mid(r, g)
  }

  /** Cell `c` lies between a red room and a neighbouring green room. */
  ghost predicate OnBoundary(m: Grid<GenState>, width: int, height: int, c: Coord)
    requires IsGrid(m, width, height)
  {
    exists r, g :: Door(m, width, height, r, g) && c == Mid(r, g)
  }

  /** `wallingCells`: for every red cell, in map order, the midpoints towards its
      green neighbours. These are exactly the cells between the two areas. */
  method WallingCells(m: Grid<GenState>, width: int, height: int) returns (walling: seq<Coord>)
    requires width >= 0 && IsGrid(m, width, height)
    ensures forall c :: c in walling <==> OnBoundary(m, width, height, c)
  {
    walling := [];
    for y := 0 to height
      invariant forall c :: c in walling <==> BoundaryBefore(m, width, height, c, 0, y)
    {
      for x := 0 to width
        invariant forall c :: c in walling <==> BoundaryBefore(m, width, height, c, x, y)
      {
        if m[y][x] == RedArea {
          var red := Coord(x, y);
          var greens := NeighborsWith(m, width, height, red, GreenArea);
          var mids := seq(|greens|, i requires 0 <= i < |greens| => Mid(red, greens[i]));
          BoundaryStep(m, width, height, walling, greens, mids, x, y);
          walling := walling + mids;
        } else {
          forall c ensures BoundaryBefore(m, width, height, c, x + 1, y) ==> BoundaryBefore(m, width, height, c, x, y) {
            if BoundaryBefore(m, width, height, c, x + 1, y) {
              var r, g :| Door(m, width, height, r, g) && Scanned(r, x + 1, y) && c == Mid(r, g);
              assert Scanned(r, x, y);
            }
          }
        }
      }
      forall c ensures BoundaryBefore(m, width, height, c, width, y) ==> BoundaryBefore(m, width, height, c, 0, y + 1) {
        if BoundaryBefore(m, width, height, c, width, y) {
          var r, g :| Door(m, width, height, r, g) && Scanned(r, width, y) && c == Mid(r, g);
          assert Scanned(r, 0, y + 1);
        }
      }
    }
    forall c ensures OnBoundary(m, width, height, c) ==> BoundaryBefore(m, width, height, c, 0, height) {
      if OnBoundary(m, width, height, c) {
        var r, g :| Door(m, width, height, r, g) && c == Mid(r, g);
        assert Scanned(r, 0, height);
      }
    }
  }

  /** Scanning the red cell (x, y) adds exactly the midpoints towards its green neighbours. */
  lemma BoundaryStep(m: Grid<GenState>, width: int, height: int, walling: seq<Coord>,
                     greens: seq<Coord>, mids: seq<Coord>, x: int, y: int)
    requires IsGrid(m, width, height) && 0 <= y < height && 0 <= x < width && m[y][x] == RedArea
    requires forall c :: c in walling <==> BoundaryBefore(m, width, height, c, x, y)
    requires forall c :: c in greens <==> Adjacent(Coord(x, y), c) && HasState(m, width, height, c, GreenArea)
    requires |mids| == |greens| && forall i :: 0 <= i < |greens| ==> mids[i] == Mid(Coord(x, y), greens[i])
    ensures forall c :: c in walling + mids <==> BoundaryBefore(m, width, height, c, x + 1, y)
  {
    forall c ensures c in walling + mids <==> BoundaryBefore(m, width, height, c, x + 1, y) {
      if c in mids {
        var i :| 0 <= i < |mids| && mids[i] == c;
        assert Door(m, width, height, Coord(x, y), greens[i]) && Scanned(Coord(x, y), x + 1, y);
      }
      if c in walling {
        var r, g :| Door(m, width, height, r, g) && Scanned(r, x, y) && c == Mid(r, g);
        assert Scanned(r, x + 1, y);
      }
      if BoundaryBefore(m, width, height, c, x + 1, y) && !BoundaryBefore(m, width, height, c, x, y) {
        var r, g :| Door(m, width, height, r, g) && Scanned(r, x + 1, y) && c == Mid(r, g);
        assert r == Coord(x, y) && g in greens;
        var i :| 0 <= i < |greens| && greens[i] == g;
        assert mids[i] == c;
      }
    }
  }

  /** `forEach(cell => cell.state = s)` over a list of cells. */
  method Paint(m: Grid<GenState>, width: int, height: int, cells: seq<Coord>, s: GenState) returns (m': Grid<GenState>)
    requires IsGrid(m, width, height)
    requires forall c :: c in cells ==> InGridAt(width, height, c)
    ensures IsGrid(m', width, height)
    ensures forall y, x :: 0 <= y < height && 0 <= x < width ==>
      m'[y][x] == if Coord(x, y) in cells then s else m[y][x]
  {
    m' := m;
    for i := 0 to |cells|
      invariant IsGrid(m', width, height)
      invariant forall y, x :: 0 <= y < height && 0 <= x < width ==>
        m'[y][x] == if Coord(x, y) in cells[..i] then s else m[y][x]
    {
      assert cells[..i + 1] == cells[..i] + [cells[i]];
      assert cells[i] in cells;
      m' := SetCell(m', cells[i].x, cells[i].y, s);
    }
    assert cells[..|cells|] == cells;
  }

  /** Walling the boundary: one random cell between the areas becomes the door (a
      passage), every other cell between them becomes a wall, and nothing else
      changes. There is a door exactly when the areas touch. */
  method BuildWall(m: Grid<GenState>, width: int, height: int) returns (m': Grid<GenState>, door: Option<Coord>)
    requires width >= 0 && IsGrid(m, width, height)
    ensures IsGrid(m', width, height)
    ensures door.Some? <==> exists c :: OnBoundary(m, width, height, c)
    ensures door.Some? ==> OnBoundary(m, width, height, door.value)
    ensures forall y, x :: 0 <= y < height && 0 <= x < width ==>
      m'[y][x] == if door == Some(Coord(x, y)) then PassageState
                  else if OnBoundary(m, width, height, Coord(x, y)) then WallState
                  else m[y][x]
  {
    var walling := WallingCells(m, width, height);
    if |walling| == 0 {
      m', door := m, None;
      return;
    }
    var k := Choose(|walling|);
    var passage := walling[k];
    RemoveAtMembers(walling, k);
    var rest := RemoveAt(walling, k);
    forall c | c in rest ensures InGridAt(width, height, c) {
      BoundaryInGrid(m, width, height, c);
    }
    m' := Paint(m, width, height, rest, WallState);
    BoundaryInGrid(m, width, height, passage);
    m' := SetCell(m', passage.x, passage.y, PassageState);
    door := Some(passage);
  }

  /** A cell between two neighbouring cells of the map lies on the map. */
  lemma BoundaryInGrid(m: Grid<GenState>, width: int, height: int, c: Coord)
    requires IsGrid(m, width, height) && OnBoundary(m, width, height, c)
    ensures InGridAt(width, height, c)
  {
    var r, g :| Door(m, width, height, r, g) && c == Mid(r, g);
  }

  /** A cell between a red and a green room is a corridor. */
  lemma BoundaryIsCorridor(m: Grid<GenState>, width: int, height: int, c: Coord)
    requires ValidSize(width, height) && WellFormed(m, width, height, true) && OnBoundary(m, width, height, c)
    ensures IsCorridor(width, height, c.x, c.y)
  {
    var r, g :| Door(m, width, height, r, g) && c == Mid(r, g);
    assert CellOk(width, height, r.x, r.y, m[r.y][r.x], true);
    assert CellOk(width, height, g.x, g.y, m[g.y][g.x], true);
    CellKinds(width, height, r.x, r.y);
    CellKinds(width, height, g.x, g.y);
    MidOfAdjacent(width, height, r, g);
  }

  /** `map.filter(state === from).forEach(cell => cell.state = to)`. */
  method Relabel(m: Grid<GenState>, width: int, height: int, from: GenState, to: GenState) returns (m': Grid<GenState>)
    requires width >= 0 && IsGrid(m, width, height)
    ensures IsGrid(m', width, height)
    ensures forall y, x :: 0 <= y < height && 0 <= x < width ==>
      m'[y][x] == if m[y][x] == from then to else m[y][x]
  {
    m' := m;
    for y := 0 to height
      invariant IsGrid(m', width, height)
      invariant forall j, i :: 0 <= j < height && 0 <= i < width ==>
        m'[j][i] == if Scanned(Coord(i, j), 0, y) && m[j][i] == from then to else m[j][i]
    {
      for x := 0 to width
        invariant IsGrid(m', width, height)
        invariant forall j, i :: 0 <= j < height && 0 <= i < width ==>
          m'[j][i] == if Scanned(Coord(i, j), x, y) && m[j][i] == from then to else m[j][i]
      {
        if m'[y][x] == from {
          m' := SetCell(m', x, y, to);
        }
      }
    }
  }

  /** The three steps of `divide` after the flood fill of `m1`: `m2` walls the
      boundary except for the door, `m3` sets the red area aside as unused and `m4`
      makes the green area unfilled again. */
  ghost predicate Split(m1: Grid<GenState>, m2: Grid<GenState>, m3: Grid<GenState>, m4: Grid<GenState>,
                        width: int, height: int, door: Option<Coord>)
  {
    IsGrid(m1, width, height) && IsGrid(m2, width, height) && IsGrid(m3, width, height) && IsGrid(m4, width, height) &&
    (door.Some? ==> OnBoundary(m1, width, height, door.value)) &&
    (forall y, x :: 0 <= y < height && 0 <= x < width ==>
      m2[y][x] == if door == Some(Coord(x, y)) then PassageState
                  else if OnBoundary(m1, width, height, Coord(x, y)) then WallState
                  else m1[y][x]) &&
    (forall y, x :: 0 <= y < height && 0 <= x < width ==>
      m3[y][x] == if m2[y][x] == RedArea then Unused else m2[y][x]) &&
    (forall y, x :: 0 <= y < height && 0 <= x < width ==>
      m4[y][x] == if m3[y][x] == GreenArea then Unfilled else m3[y][x])
  }

  /** The map handed to the first recursive call: the red area set aside as unused,
      the green area unfilled again, the boundary walled. Fixed walls and passages
      are kept, the open rooms are the same, and the unfilled rooms lost at least the
      red seed while keeping the green one. */
  lemma Children(m: Grid<GenState>, m1: Grid<GenState>, m2: Grid<GenState>, m3: Grid<GenState>, m4: Grid<GenState>,
                 width: int, height: int, red: Coord, green: Coord, door: Option<Coord>)
    requires ValidSize(width, height) && WellFormed(m, width, height, false)
    requires ClaimedFrom(m, m1, width, height) && WellFormed(m1, width, height, true)
    requires HasState(m1, width, height, red, RedArea) && HasState(m1, width, height, green, GreenArea)
    requires IsRoomAt(width, height, red) && IsRoomAt(width, height, green)
    requires Split(m1, m2, m3, m4, width, height, door)
    ensures WellFormed(m4, width, height, false) && Evolves(m, m4, width, height)
    ensures Open(m4, width, height) == Open(m, width, height)
    ensures RoomsIn(m4, width, height, Unfilled) < RoomsIn(m, width, height, Unfilled)
    ensures green in RoomsIn(m4, width, height, Unfilled)
  {
    forall y, x | 0 <= y < height && 0 <= x < width
      ensures CellOk(width, height, x, y, m4[y][x], false)
      ensures IsRoom(width, height, x, y) ==>
        (m4[y][x] == Unfilled ==> m[y][x] == Unfilled) &&
        (m4[y][x] == Unfilled || m4[y][x] == Unused <==> m[y][x] == Unfilled || m[y][x] == Unused)
      ensures (IsFixedWall(width, height, x, y) ==> m4[y][x] == m[y][x]) &&
        (IsRoom(width, height, x, y) && m[y][x] == PassageState ==> m4[y][x] == PassageState)
    {
      assert CellOk(width, height, x, y, m[y][x], false);
      assert CellOk(width, height, x, y, m1[y][x], true);
      CellKinds(width, height, x, y);
      if OnBoundary(m1, width, height, Coord(x, y)) {
        BoundaryIsCorridor(m1, width, height, Coord(x, y));
      }
      if door == Some(Coord(x, y)) {
        BoundaryIsCorridor(m1, width, height, door.value);
      }
    }
    assert red in RoomsIn(m, width, height, Unfilled) && red !in RoomsIn(m4, width, height, Unfilled);
    assert green in RoomsIn(m4, width, height, Unfilled);
  }

  /** A corridor that is still unfilled lies between two rooms of one area: both
      unfilled or both set aside as unused. Walls and doors go only between a red
      and a green room, so no corridor inside an area is decided before the area
      itself is divided. */
  ghost predicate Pending(m: Grid<GenState>, width: int, height: int)
    requires IsGrid(m, width, height)
  {
    forall y, x :: 0 <= y < height && 0 <= x < width && IsCorridor(width, height, x, y) && m[y][x] == Unfilled ==>
      SameArea(m, width, height, RoomsOf(x, y).0, RoomsOf(x, y).1)
  }

  /** Rooms `a` and `b` are both unfilled or both unused. */
  ghost predicate SameArea(m: Grid<GenState>, width: int, height: int, a: Coord, b: Coord)
    requires IsGrid(m, width, height)
  {
    (HasState(m, width, height, a, Unfilled) && HasState(m, width, height, b, Unfilled)) ||
    (HasState(m, width, height, a, Unused) && HasState(m, width, height, b, Unused))
  }

  /** A room passes the walling untouched and is then relabelled: red becomes
      unused, green unfilled, anything else stays. */
  lemma RoomThroughSplit(m1: Grid<GenState>, m2: Grid<GenState>, m3: Grid<GenState>, m4: Grid<GenState>,
                         width: int, height: int, door: Option<Coord>, c: Coord)
    requires ValidSize(width, height) && WellFormed(m1, width, height, true)
    requires Split(m1, m2, m3, m4, width, height, door) && IsRoomAt(width, height, c)
    ensures CellAt(m4, c) == if CellAt(m1, c) == RedArea then Unused
                             else if CellAt(m1, c) == GreenArea then Unfilled
                             else CellAt(m1, c)
  {
    CellKinds(width, height, c.x, c.y);
    if OnBoundary(m1, width, height, c) {
      BoundaryIsCorridor(m1, width, height, c);
    }
  }

  /** A corridor left unfilled by a split was unfilled after the flood fill and is
      not on the boundary. */
  lemma CorridorThroughSplit(m1: Grid<GenState>, m2: Grid<GenState>, m3: Grid<GenState>, m4: Grid<GenState>,
                             width: int, height: int, door: Option<Coord>, x: int, y: int)
    requires WellFormed(m1, width, height, true) && Split(m1, m2, m3, m4, width, height, door)
    requires 0 <= y < height && 0 <= x < width && IsCorridor(width, height, x, y) && m4[y][x] == Unfilled
    ensures m1[y][x] == Unfilled && !OnBoundary(m1, width, height, Coord(x, y))
  {
    assert CellOk(width, height, x, y, m1[y][x], true);
  }

  /** The two rooms of a corridor that the split left unfilled: if they were in
      one area before the flood fill, and the fill left no unfilled room next to a
      painted one, they are in one area after the split. */
  lemma RoomsThroughSplit(m: Grid<GenState>, m1: Grid<GenState>, m2: Grid<GenState>, m3: Grid<GenState>,
                          m4: Grid<GenState>, width: int, height: int, door: Option<Coord>, x: int, y: int)
    requires ValidSize(width, height) && ClaimedFrom(m, m1, width, height) && WellFormed(m1, width, height, true)
    requires Split(m1, m2, m3, m4, width, height, door)
    requires IsCorridor(width, height, x, y) && !OnBoundary(m1, width, height, Coord(x, y))
    requires SameArea(m, width, height, RoomsOf(x, y).0, RoomsOf(x, y).1)
    requires HasState(m1, width, height, RoomsOf(x, y).1, Unfilled) ==>
      !HasState(m1, width, height, RoomsOf(x, y).0, RedArea) && !HasState(m1, width, height, RoomsOf(x, y).0, GreenArea)
    requires HasState(m1, width, height, RoomsOf(x, y).0, Unfilled) ==>
      !HasState(m1, width, height, RoomsOf(x, y).1, RedArea) && !HasState(m1, width, height, RoomsOf(x, y).1, GreenArea)
    ensures SameArea(m4, width, height, RoomsOf(x, y).0, RoomsOf(x, y).1)
  {
    var a, b := RoomsOf(x, y).0, RoomsOf(x, y).1;
    RoomsOfCorridor(width, height, x, y);
    RoomThroughSplit(m1, m2, m3, m4, width, height, door, a);
    RoomThroughSplit(m1, m2, m3, m4, width, height, door, b);
    assert m1[a.y][a.x] == m[a.y][a.x] || m1[a.y][a.x] in {RedArea, GreenArea};
    assert m1[b.y][b.x] == m[b.y][b.x] || m1[b.y][b.x] in {RedArea, GreenArea};
    if HasState(m, width, height, a, Unfilled) {
      assert !Door(m1, width, height, a, b) && !Door(m1, width, height, b, a);
    }
  }

  /** After a split every unfilled corridor still lies inside one area. A corridor
      between two rooms that were unfilled is either between two rooms of one
      colour, which relabelling keeps together, or between a red and a green room,
      and then it is on the boundary and became a wall or the door. */
  lemma ChildrenPending(m: Grid<GenState>, m1: Grid<GenState>, m2: Grid<GenState>, m3: Grid<GenState>,
                        m4: Grid<GenState>, width: int, height: int, door: Option<Coord>)
    requires ValidSize(width, height) && WellFormed(m, width, height, false) && Pending(m, width, height)
    requires ClaimedFrom(m, m1, width, height) && WellFormed(m1, width, height, true)
    requires forall a, b {:trigger Adjacent(a, b)} :: Adjacent(a, b) && HasState(m1, width, height, b, Unfilled) ==>
      !HasState(m1, width, height, a, RedArea) && !HasState(m1, width, height, a, GreenArea)
    requires Split(m1, m2, m3, m4, width, height, door)
    ensures Pending(m4, width, height)
  {
    forall y, x | 0 <= y < height && 0 <= x < width && IsCorridor(width, height, x, y) && m4[y][x] == Unfilled
      ensures SameArea(m4, width, height, RoomsOf(x, y).0, RoomsOf(x, y).1)
    {
      var a, b := RoomsOf(x, y).0, RoomsOf(x, y).1;
      RoomsOfCorridor(width, height, x, y);
      CorridorThroughSplit(m1, m2, m3, m4, width, height, door, x, y);
      assert SameArea(m, width, height, a, b);
      assert Adjacent(a, b) && Adjacent(b, a);
      RoomsThroughSplit(m, m1, m2, m3, m4, width, height, door, x, y);
    }
  }

  /** In the base case a corridor left unfilled cannot lie between two unfilled
      rooms, as there is at most one; so it lies between two unused ones, which
      stay unused. */
  lemma BaseCasePending(m: Grid<GenState>, m': Grid<GenState>, width: int, height: int, cells: seq<Coord>)
    requires ValidSize(width, height) && WellFormed(m, width, height, false) && Pending(m, width, height)
    requires forall c :: c in cells <==> c in RoomsIn(m, width, height, Unfilled)
    requires IsGrid(m', width, height) && |cells| < 2
    requires forall y, x :: 0 <= y < height && 0 <= x < width ==>
      m'[y][x] == if IsRoom(width, height, x, y) && m[y][x] == Unfilled then PassageState else m[y][x]
    ensures Pending(m', width, height)
  {
    forall y, x | 0 <= y < height && 0 <= x < width && IsCorridor(width, height, x, y) && m'[y][x] == Unfilled
      ensures SameArea(m', width, height, RoomsOf(x, y).0, RoomsOf(x, y).1)
    {
      var a, b := RoomsOf(x, y).0, RoomsOf(x, y).1;
      RoomsOfCorridor(width, height, x, y);
      CellKinds(width, height, x, y);
      OneUnfilled(m, width, height, cells, a, b);
    }
  }

  /** With fewer than two unfilled rooms, two unfilled rooms are the same room. */
  lemma OneUnfilled(m: Grid<GenState>, width: int, height: int, cells: seq<Coord>, a: Coord, b: Coord)
    requires IsGrid(m, width, height) && |cells| < 2
    requires forall c :: c in cells <==> c in RoomsIn(m, width, height, Unfilled)
    requires IsRoomAt(width, height, a) && IsRoomAt(width, height, b)
    ensures HasState(m, width, height, a, Unfilled) && HasState(m, width, height, b, Unfilled) ==> a == b
  {
    if HasState(m, width, height, a, Unfilled) && HasState(m, width, height, b, Unfilled) {
      assert a == Coord(a.x, a.y) && b == Coord(b.x, b.y);
      assert a in cells && b in cells;
    }
  }

  /** Reopening the unused cells keeps every unfilled corridor inside one area. */
  lemma ReopenPending(m: Grid<GenState>, m': Grid<GenState>, width: int, height: int)
    requires WellFormed(m, width, height, false) && Pending(m, width, height) && IsGrid(m', width, height)
    requires forall y, x :: 0 <= y < height && 0 <= x < width ==>
      m'[y][x] == if m[y][x] == Unused then Unfilled else m[y][x]
    ensures Pending(m', width, height)
  {
    forall y, x | 0 <= y < height && 0 <= x < width && IsCorridor(width, height, x, y) && m'[y][x] == Unfilled
      ensures SameArea(m', width, height, RoomsOf(x, y).0, RoomsOf(x, y).1)
    {
      assert CellOk(width, height, x, y, m[y][x], false);
    }
  }

  /** A room outside the rooms in state `s` is not in state `s`. */
  lemma NotInRooms(m: Grid<GenState>, width: int, height: int, c: Coord, s: GenState)
    requires IsGrid(m, width, height) && IsRoomAt(width, height, c) && c !in RoomsIn(m, width, height, s)
    ensures !HasState(m, width, height, c, s)
  {
    assert c == Coord(c.x, c.y);
  }

  /** With no room unfilled or unused, no cell at all is unfilled: every corridor
      has been made a wall or a passage. */
  lemma NothingUnfilled(m: Grid<GenState>, width: int, height: int)
    requires ValidSize(width, height) && WellFormed(m, width, height, false) && Pending(m, width, height)
    requires RoomsIn(m, width, height, Unfilled) == {} && RoomsIn(m, width, height, Unused) == {}
    ensures forall y, x :: 0 <= y < height && 0 <= x < width ==> m[y][x] != Unfilled
  {
    forall y, x | 0 <= y < height && 0 <= x < width
      ensures m[y][x] != Unfilled
    {
      assert CellOk(width, height, x, y, m[y][x], false);
      CellKinds(width, height, x, y);
      if IsRoom(width, height, x, y) {
        assert Coord(x, y) !in RoomsIn(m, width, height, Unfilled);
      } else if IsCorridor(width, height, x, y) {
        RoomsOfCorridor(width, height, x, y);
        NotInRooms(m, width, height, RoomsOf(x, y).0, Unfilled);
        NotInRooms(m, width, height, RoomsOf(x, y).0, Unused);
      }
    }
  }

  /** `divide`. With fewer than two unfilled rooms it turns those rooms into passages
      and changes nothing else. Otherwise it flood-fills two random seeds, walls the
      boundary with one door, divides the green area, then everything set aside as
      unused, including what enclosing calls set aside. On return no room is
      unfilled; fixed walls and passages are kept; no unused room appears where
      there was none; and the open rooms shrink, strictly when a room was unfilled.
      The recursion ends because each call either keeps the open rooms and has
      fewer unfilled ones, or has fewer open rooms. */
  method Divide(m: Grid<GenState>, width: int, height: int) returns (m': Grid<GenState>)
    requires ValidSize(width, height) && WellFormed(m, width, height, false) && Pending(m, width, height)
    ensures WellFormed(m', width, height, false) && Evolves(m, m', width, height) && Pending(m', width, height)
    ensures RoomsIn(m', width, height, Unfilled) == {}
    ensures RoomsIn(m, width, height, Unused) == {} ==>
      forall y, x :: 0 <= y < height && 0 <= x < width ==> m'[y][x] != Unfilled
    ensures RoomsIn(m, width, height, Unused) == {} ==> RoomsIn(m', width, height, Unused) == {}
    ensures Open(m', width, height) <= Open(m, width, height)
    ensures RoomsIn(m, width, height, Unfilled) != {} ==> Open(m', width, height) < Open(m, width, height)
    ensures |RoomsIn(m, width, height, Unfilled)| < 2 ==>
      forall y, x :: 0 <= y < height && 0 <= x < width ==>
        m'[y][x] == if IsRoom(width, height, x, y) && m[y][x] == Unfilled then PassageState else m[y][x]
    decreases Open(m, width, height), RoomsIn(m, width, height, Unfilled)
  {
    var cells := UnfilledRooms(m, width, height);
    UnfilledRoomsAreRooms(m, width, height, cells);
    if |cells| < 2 {
      m' := Paint(m, width, height, cells, PassageState);
      BaseCase(m, m', width, height, cells);
      BaseCasePending(m, m', width, height, cells);
      if RoomsIn(m, width, height, Unused) == {} {
        NothingUnfilled(m', width, height);
      }
      return;
    }
    var redPosition := Choose(|cells|);
    var greenPosition := ChooseOther(|cells|, redPosition);
    var red, green := cells[redPosition], cells[greenPosition];
    TwoUnfilled(RoomsIn(m, width, height, Unfilled), red, green);

    var m1 := FloodFill(m, width, height, red, green);
    var m2, door := BuildWall(m1, width, height);
    var m3 := Relabel(m2, width, height, RedArea, Unused);
    var m4 := Relabel(m3, width, height, GreenArea, Unfilled);
    Children(m, m1, m2, m3, m4, width, height, red, green, door);
    ChildrenPending(m, m1, m2, m3, m4, width, height, door);
    var m5 := Divide(m4, width, height);
    var m6 := Relabel(m5, width, height, Unused, Unfilled);
    Reopen(m5, m6, width, height);
    ReopenPending(m5, m6, width, height);
    m' := Divide(m6, width, height);
  }

  /** The collected cells are exactly the unfilled rooms. */
  lemma UnfilledRoomsAreRooms(m: Grid<GenState>, width: int, height: int, cells: seq<Coord>)
    requires WellFormed(m, width, height, false)
    requires forall c :: c in cells <==> OddCell(c) && HasState(m, width, height, c, Unfilled)
    ensures forall c :: c in cells <==> c in RoomsIn(m, width, height, Unfilled)
    ensures forall c :: c in cells ==> IsRoomAt(width, height, c)
  {
    forall c | c in cells ensures IsRoomAt(width, height, c) {
      assert CellOk(width, height, c.x, c.y, m[c.y][c.x], false);
    }
  }

  /** Two distinct unfilled rooms: at least two. */
  lemma TwoUnfilled(s: set<Coord>, a: Coord, b: Coord)
    requires a in s && b in s && a != b
    ensures |s| >= 2
  {
    assert |s - {a}| == |s| - 1;
    assert b in s - {a};
  }

  /** The base case: the unfilled rooms become passages and nothing else changes. */
  lemma BaseCase(m: Grid<GenState>, m': Grid<GenState>, width: int, height: int, cells: seq<Coord>)
    requires ValidSize(width, height) && WellFormed(m, width, height, false)
    requires IsGrid(m', width, height)
    requires forall c :: c in cells <==> c in RoomsIn(m, width, height, Unfilled)
    requires forall y, x :: 0 <= y < height && 0 <= x < width ==>
      m'[y][x] == if Coord(x, y) in cells then PassageState else m[y][x]
    ensures WellFormed(m', width, height, false) && Evolves(m, m', width, height)
    ensures RoomsIn(m', width, height, Unfilled) == {}
    ensures RoomsIn(m', width, height, Unused) == RoomsIn(m, width, height, Unused)
    ensures Open(m', width, height) == RoomsIn(m, width, height, Unused)
    ensures forall y, x :: 0 <= y < height && 0 <= x < width ==>
      m'[y][x] == if IsRoom(width, height, x, y) && m[y][x] == Unfilled then PassageState else m[y][x]
  {
    forall y, x | 0 <= y < height && 0 <= x < width
      ensures CellOk(width, height, x, y, m'[y][x], false)
      ensures m'[y][x] == if IsRoom(width, height, x, y) && m[y][x] == Unfilled then PassageState else m[y][x]
    {
      assert CellOk(width, height, x, y, m[y][x], false);
      assert Coord(x, y) in cells <==> IsRoom(width, height, x, y) && m[y][x] == Unfilled;
    }
    assert forall c :: c !in RoomsIn(m', width, height, Unfilled);
  }

  /** Turning unused cells back into unfilled ones keeps the open rooms, leaves no
      unused room, and keeps the map's shape, its fixed walls and its passages. */
  lemma Reopen(m: Grid<GenState>, m': Grid<GenState>, width: int, height: int)
    requires WellFormed(m, width, height, false) && IsGrid(m', width, height)
    requires forall y, x :: 0 <= y < height && 0 <= x < width ==>
      m'[y][x] == if m[y][x] == Unused then Unfilled else m[y][x]
    ensures WellFormed(m', width, height, false) && Evolves(m, m', width, height)
    ensures Open(m', width, height) == Open(m, width, height)
    ensures RoomsIn(m', width, height, Unused) == {}
  {
    forall y, x | 0 <= y < height && 0 <= x < width
      ensures CellOk(width, height, x, y, m'[y][x], false)
    {
      assert CellOk(width, height, x, y, m[y][x], false);
    }
    assert forall c :: c !in RoomsIn(m', width, height, Unused);
  }

  /** The retry loop for the green seed: an index below `n` other than `avoid`. */
  method ChooseOther(n: nat, avoid: nat) returns (r: nat)
    requires 2 <= n && avoid < n
    ensures r < n && r != avoid
  {
    var k := Choose(n - 1);
    r := if k < avoid then k else k + 1;
  }

  /** The starting map is well formed, every room in it is unfilled and none is unused. */
  lemma InitialMapReady(width: int, height: int)
    requires ValidSize(width, height)
    ensures WellFormed(InitialMap(width, height), width, height, false)
    ensures RoomsIn(InitialMap(width, height), width, height, Unused) == {}
    ensures RoomsIn(InitialMap(width, height), width, height, Unfilled) == Rooms(width, height)
    ensures Pending(InitialMap(width, height), width, height)
  {
    var m := InitialMap(width, height);
    assert forall c :: c !in RoomsIn(m, width, height, Unused);
    forall y, x | 0 <= y < height && 0 <= x < width && IsCorridor(width, height, x, y)
      ensures SameArea(m, width, height, RoomsOf(x, y).0, RoomsOf(x, y).1)
    {
      RoomsOfCorridor(width, height, x, y);
      CellKinds(width, height, RoomsOf(x, y).0.x, RoomsOf(x, y).0.y);
      CellKinds(width, height, RoomsOf(x, y).1.x, RoomsOf(x, y).1.y);
    }
  }

  /** The last loop of the generator: a maze of walls with a passage wherever the
      map is not a wall. */
  method Render(m: Grid<GenState>, width: int, height: int) returns (maze: Grid<CellState>)
    requires width >= 0 && height >= 0 && IsGrid(m, width, height)
    ensures IsGrid(maze, width, height)
    ensures forall y, x :: 0 <= y < height && 0 <= x < width ==>
      maze[y][x] == if m[y][x] == WallState then Wall else Passage
  {
    maze := InitArray2D(width, height, Wall);
    for y := 0 to height
      invariant IsGrid(maze, width, height)
      invariant forall j, i :: 0 <= j < height && 0 <= i < width ==>
        maze[j][i] == if Scanned(Coord(i, j), 0, y) && m[j][i] != WallState then Passage else Wall
    {
      for x := 0 to width
        invariant IsGrid(maze, width, height)
        invariant forall j, i :: 0 <= j < height && 0 <= i < width ==>
          maze[j][i] == if Scanned(Coord(i, j), x, y) && m[j][i] != WallState then Passage else Wall
      {
        if m[y][x] == WallState {
          continue;
        }
        maze := SetCell(maze, x, y, Passage);
      }
    }
  }

  /** Rendering a well-formed map gives the common maze shape. */
  lemma RenderedShape(m: Grid<GenState>, maze: Grid<CellState>, width: int, height: int)
    requires ValidSize(width, height) && WellFormed(m, width, height, false) && IsGrid(maze, width, height)
    requires forall y, x :: 0 <= y < height && 0 <= x < width ==>
      maze[y][x] == if m[y][x] == WallState then Wall else Passage
    ensures MazeShape(maze, width, height)
  {
    forall y, x | IsFixedWall(width, height, x, y) || IsRoom(width, height, x, y)
      ensures IsFixedWall(width, height, x, y) ==> maze[y][x] == Wall
      ensures IsRoom(width, height, x, y) ==> maze[y][x] == Passage
    {
      assert CellOk(width, height, x, y, m[y][x], false);
      CellKinds(width, height, x, y);
    }
  }

  /** `recursiveDivisionGenerator`: the result is `height` x `width`, holds only walls
      and passages, every room is a passage and the border and pillars are walls. */
  method RecursiveDivisionGenerator(width: int, height: int) returns (maze: Grid<CellState>)
    requires ValidSize(width, height)
    ensures MazeShape(maze, width, height)
  {
    var m := InitialMap(width, height);
    InitialMapReady(width, height);
    var m' := Divide(m, width, height);
    maze := Render(m', width, height);
    RenderedShape(m', maze, width, height);
  }
}
