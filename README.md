# maze-search in Dafny

A verified model of the logic core of maze-search, a browser toy that generates a
maze and then solves it step by step. It has three generators (randomized depth-first
search, Prim's algorithm on the grid graph of rooms, and recursive division by flood
fill). The solver is a best-first search driven by a priority queue, and each solver
(`bfs`, `dfs`, `random`, `a-star`) gives a queued cell its priority in its own way.

A maze has odd width and height. The cells with two odd coordinates strictly inside the
border are *rooms*. The cells between two neighbouring rooms are *corridors*. The border
and the even-even *pillars* are always walls.

Modules, one per source file:

| Dafny file | module | source |
|---|---|---|
| `utils.dfy` | `Utils` | `src/logic/utils.ts` plus the array built-ins the core uses (`filter`, `indexOf`, `splice`) |
| `priority-queue.dfy` | `PriorityQueues` | `src/logic/priority-queue.ts` |
| `maze-grid.dfy` | `MazeGrid` | cell states and room/corridor geometry shared by the generators; the perfect-maze property |
| `dfs.dfy` | `Dfs` | `src/logic/maze-generator/dfs.ts` |
| `prim.dfy` | `Prim` | `src/logic/maze-generator/prim.ts` |
| `recursive-division.dfy` | `RecursiveDivision` | `src/logic/maze-generator/recursive-division.ts` |
| `maze-generator.dfy` | `Generators` | the generator table `mazeGenerators` used by `generate` |
| `maze.dfy` | `Mazes` | `src/logic/maze.ts` |

How the model is built:
- Grids are sequences of rows (`g[y][x]`). The generators build them with loops and
  single-cell writes (`SetCell`).
- `PriorityQueue` and `Maze` are classes whose methods reassign their fields.
- Every random draw (`Math.random`) is the method `Utils.Choose`, which returns an
  arbitrary index below its bound. Every property is proved for every sequence of
  draws.
- Ghost out-parameters record what the code leaves implicit. For the DFS generator
  these are the tree being carved (`parent`, `rank`). For `nextStep` they are the
  queue entries it added.

Main results:
- `Dfs.DfsGenerator` and `Prim.PrimGenerator` return a *perfect maze*. That means
  every room is open, and every room except one root has a parent: a neighbouring
  room with a strictly smaller rank. The open corridors are exactly the
  room–parent corridors, and every other cell is a wall. So the rooms and open
  corridors form a spanning tree of the room grid. `MazeGrid.ReachesRoot` shows that
  following parents from any room reaches the root through open corridors.
- `RecursiveDivision.RecursiveDivisionGenerator` returns a maze of the common shape.
  Every room is open, the border and pillars are walls, and there are only walls
  and passages. `RecursiveDivision.Divide` leaves no cell of the map unfilled, so
  every corridor has been decided as a wall or a door by some split rather than
  left open by default. The model proves that the recursion terminates. Its measure is the
  pair (unused-or-unfilled rooms, unfilled rooms), compared lexicographically. The
  number of unfilled rooms alone does not always drop at the second recursive call,
  because the relabelling before that call (recursive-division.ts:101) also reopens
  the unused cells of enclosing calls.
- `Mazes.Maze.NextStep` is proved against specification functions. It dequeues the
  cheapest cell and marks it visited. The neighbours it relaxes are exactly
  `Relaxed`. Each gets cost plus one and is enqueued at its solver's priority, and a
  plain passage among them becomes `in-queue`. The queue stays sorted, and every
  cell the solver may still reach keeps a finite distance.

## Model

| member | source | states |
|---|---|---|
| Utils.Choose | src/logic/maze-generator/dfs.ts:32 | `Math.floor(Math.random() * n)` is an index below `n` |
| Utils.InitArray2D | src/logic/utils.ts:1-3 | the result is `height` rows of `width` cells, each equal to `value` |
| Utils.ShuffleArray | src/logic/utils.ts:5-11 | the shuffle permutes the array in place: the multiset of its elements is unchanged |
| Utils.MinBy | src/logic/utils.ts:13-25 | None exactly on an empty input; otherwise an element whose key is minimal, and the first such element (later equal keys do not replace it) |
| Utils.IndexOf | src/logic/maze-generator/prim.ts:67 | `indexOf` of a present value returns a position holding it, and no earlier position holds it |
| Utils.RemoveAt | src/logic/maze-generator/prim.ts:67 | `splice(i, 1)` keeps the elements before `i`, shifts the later ones down by one, and removes exactly one copy of `s[i]` |
| Utils.RemoveAtMembers | src/logic/maze-generator/recursive-division.ts:18 | removing an element keeps every other element and adds none |
| Utils.Filter | src/logic/maze-generator/dfs.ts:14 | an element is kept exactly when it is in the input and satisfies the predicate |
| Utils.FilterCounts | src/logic/maze-generator/dfs.ts:14 | every element that satisfies the predicate is kept as often as it occurs in the input |
| Utils.FilterSnoc | src/logic/maze-generator/dfs.ts:14 | filtering keeps the input's order: filtering a list extended by one element extends the filtered list by that element when it passes |
| PriorityQueues.InsertionPoint | src/logic/priority-queue.ts:10-11 | the insertion point of cost `c` lies after every entry costing at most `c` and before the first one costing more |
| PriorityQueues.InsertStableSplits | src/logic/priority-queue.ts:10-11 | stable insertion puts the new entry at the insertion point and keeps all other entries in their order |
| PriorityQueues.InsertStableShape | src/logic/priority-queue.ts:10-11 | stable insertion adds exactly the new entry, keeps the entries before it in place and moves the later ones back by one |
| PriorityQueues.InsertStableKeepsOrder | src/logic/priority-queue.ts:10-11 | inserting into a sorted queue keeps it sorted, adds exactly one entry, and only strictly more costly entries come after it |
| PriorityQueues.SortStableSorts | src/logic/priority-queue.ts:4-7 | the stable sort returns a sorted permutation of its input |
| PriorityQueues.SortStableOfSorted | src/logic/priority-queue.ts:4-7 | sorting an already sorted list changes nothing |
| PriorityQueues.PushThenSort | src/logic/priority-queue.ts:9-12 | push-then-sort on a sorted queue equals stable insertion of the new entry |
| PriorityQueues.InsertAllKeepsOrder | src/logic/priority-queue.ts:9-12 | several enqueues keep the queue sorted, and its multiset grows by exactly the enqueued entries |
| PriorityQueues.PriorityQueue.constructor | src/logic/priority-queue.ts:4-7 | the queue holds the initial entries as a stable sort by cost, so it is sorted and a permutation of them |
| PriorityQueues.PriorityQueue.Enqueue | src/logic/priority-queue.ts:9-12 | the queue stays sorted, and the new entry is inserted behind every entry of equal cost; the multiset gains exactly that entry |
| PriorityQueues.PriorityQueue.Dequeue | src/logic/priority-queue.ts:14-16 | None on an empty queue; otherwise the head is removed and returned, and it costs no more than any remaining entry |
| PriorityQueues.PriorityQueue.IsEmpty | src/logic/priority-queue.ts:18-20 | empty exactly when the length is 0 |
| PriorityQueues.PriorityQueue.Clear | src/logic/priority-queue.ts:22-24 | the queue is empty, and therefore sorted |
| PriorityQueues.PriorityQueue.ToArray | src/logic/priority-queue.ts:26-28 | the entries in queue order, sorted by cost while the queue is valid, with nothing added or lost |
| PriorityQueues.PriorityQueue.Length | src/logic/priority-queue.ts:30-32 | the number of entries: as many as there are values, and 0 exactly when the queue is empty |
| PriorityQueues.PriorityQueue.Values | src/logic/priority-queue.ts:34-36 | the values of the entries, position by position |
| MazeGrid.CellKinds | src/logic/maze-generator/recursive-division.ts:27 | with odd dimensions every cell is exactly one of fixed wall, room or corridor |
| MazeGrid.Mid | src/logic/maze-generator/dfs.ts:34 | for two neighbouring rooms the midpoint lies exactly halfway between them and is neither of them |
| MazeGrid.MidOfAdjacent | src/logic/maze-generator/dfs.ts:34 | the cell halfway between two neighbouring rooms is a corridor joining exactly those two rooms |
| MazeGrid.RoomsOfCorridor | src/logic/maze-generator/prim.ts:77-88 | every corridor joins two neighbouring rooms and is their midpoint |
| MazeGrid.PerfectMazeShape | src/logic/maze-generator/dfs.ts:17-38 | a perfect maze has the common shape: only walls and passages, open rooms, closed border and pillars |
| MazeGrid.ReachesRoot | src/logic/maze-generator/dfs.ts:21-36 | in a perfect maze, following parents from any room is a walk through open corridors that ends at the root |
| MazeGrid.AllRoomsReached | src/logic/maze-generator/dfs.ts:21-36 | a set of rooms that holds (1, 1) and is closed under moving to neighbouring rooms holds every room: the room grid is connected |
| Dfs.GetNeighbors | src/logic/maze-generator/dfs.ts:6-15 | the result holds exactly the cells two steps away that lie strictly inside the border; for a room these are exactly its neighbouring rooms |
| Dfs.WallCells | src/logic/maze-generator/dfs.ts:25 | a neighbour is kept exactly when it is on the map and still a wall |
| Dfs.PopStep | src/logic/maze-generator/dfs.ts:27-30 | popping a room none of whose neighbouring rooms is still a wall keeps the invariant: every carved room off the stack has all its neighbouring rooms carved |
| Dfs.PushStep | src/logic/maze-generator/dfs.ts:32-35 | carving a wall neighbour of the top room and the corridor between them attaches it to the tree; no other cell changes |
| Dfs.DfsStep | src/logic/maze-generator/dfs.ts:22-35 | one loop pass keeps the invariant, and either the stack shrinks with nothing carved or exactly one new room is carved |
| Dfs.CarveTo | src/logic/maze-generator/dfs.ts:32-35 | the carving branch keeps the invariant and carves one new room |
| Dfs.DfsGenerator | src/logic/maze-generator/dfs.ts:5-39 | the result is a perfect maze of the given size: a spanning tree of the rooms rooted at (1, 1) |
| Dfs.DfsFinish | src/logic/maze-generator/dfs.ts:21-38 | when the stack is empty every room is carved, and the grid is a perfect maze |
| Prim.MapCoords | src/logic/maze-generator/prim.ts:52-56 | a vertex maps to a cell with two odd coordinates left of column `2 * width`, and `Vertex` maps it back |
| Prim.MapCoordsIsRoom | src/logic/maze-generator/prim.ts:52-56 | `mapCoords` maps every vertex to a room, and `Vertex` inverts it |
| Prim.VertexOfRoom | src/logic/maze-generator/prim.ts:52-56 | every room is the image of exactly one vertex |
| Prim.EdgeIsAdjacent | src/logic/maze-generator/prim.ts:15-22 | two vertices are joined by an edge of the graph exactly when their rooms are neighbours |
| Prim.FrontierEdge | src/logic/maze-generator/prim.ts:15-22 | the grid graph is connected: a vertex set holding one vertex but not another has an edge leaving it |
| Prim.ReachedFromOrigin | src/logic/maze-generator/prim.ts:15-22 | a vertex set holding vertex 0 and closed under edges holds every vertex |
| Prim.AddEdge | src/logic/maze-generator/prim.ts:24-37 | each end is appended to the other's adjacency list, and the cost matrix gets the weight in both directions and nowhere else |
| Prim.AddedBeforeNext | src/logic/maze-generator/prim.ts:15-22 | after `addVertex(i)`, exactly the edges from the vertices up to `i` to their right and lower neighbours have been added |
| Prim.Initializer | src/logic/maze-generator/prim.ts:11-47 | `b` is in `adj[a]` exactly when `a` and `b` are joined in the grid graph; the cost matrix is 1 on edges and null elsewhere |
| Prim.Iota | src/logic/maze-generator/prim.ts:58 | `iota(n)` is 0, 1, ..., n-1 |
| Prim.IotaCounts | src/logic/maze-generator/prim.ts:58-60 | every vertex occurs once in the initial queue, and nothing else does |
| Prim.Relax | src/logic/maze-generator/prim.ts:69-74 | exactly the still-queued neighbours whose edge costs less than their current cost take that cost and get the visited vertex as their edge; everything else is unchanged |
| Prim.CheapestQueued | src/logic/maze-generator/prim.ts:65-67 | the vertex `minBy` picks is queued and costs no more than any queued vertex |
| Prim.VisitStep | src/logic/maze-generator/prim.ts:64-75 | removing the cheapest vertex and relaxing its neighbours keeps the invariant: visited vertices form a tree through `edges`, and queued vertices with an edge point into that tree |
| Prim.GrowTree | src/logic/maze-generator/prim.ts:60-75 | when the queue is empty, `edges` describes a spanning tree of the grid graph |
| Prim.PrimEdges | src/logic/maze-generator/prim.ts:64-75 | an empty queue with the invariant means every vertex is in the tree |
| Prim.CarveStep | src/logic/maze-generator/prim.ts:79-90 | opening vertex `i`'s room, and its edge's corridor if it has one, extends the carved picture to vertex `i + 1` |
| Prim.UpToNext | src/logic/maze-generator/prim.ts:79-90 | moving past vertex `i` adds its room, and its edge when it has one |
| Prim.CarveTree | src/logic/maze-generator/prim.ts:79-90 | the final loop leaves every room open, the corridor of every tree edge open, and every other cell a wall |
| Prim.PrimFinish | src/logic/maze-generator/prim.ts:79-92 | a spanning tree carved this way is a perfect maze |
| Prim.PrimGenerator | src/logic/maze-generator/prim.ts:5-93 | the result is a perfect maze of the given size |
| RecursiveDivision.InitialMap | src/logic/maze-generator/recursive-division.ts:21-31 | the border and pillars start as walls, and every other cell starts unfilled |
| RecursiveDivision.UnfilledRooms | src/logic/maze-generator/recursive-division.ts:55-57 | the list holds exactly the odd-odd unfilled cells, each once |
| RecursiveDivision.Around | src/logic/maze-generator/recursive-division.ts:41-46 | the four directions reach exactly the cells adjacent to `c` |
| RecursiveDivision.NeighborsWith | src/logic/maze-generator/recursive-division.ts:39-54 | the result holds exactly the cells on the map, two steps away, that have the requested state |
| RecursiveDivision.ClaimOne | src/logic/maze-generator/recursive-division.ts:71-77 | if no queued cell is unfilled, the queue is drained and nothing changes. Otherwise one queued unfilled cell takes the colour, and its unfilled neighbours join the queue |
| RecursiveDivision.ClaimKeeps | src/logic/maze-generator/recursive-division.ts:70-85 | a claim keeps the flood-fill invariant (every painted cell came from an unfilled one; each queue covers the frontier of its colour), never repaints a painted cell, and shrinks the unfilled set when it paints |
| RecursiveDivision.WellFormedWhileClaiming | src/logic/maze-generator/recursive-division.ts:70-85 | painting only unfilled rooms keeps the map well formed |
| RecursiveDivision.FillRound | src/logic/maze-generator/recursive-division.ts:70-85 | one round of the outer loop either paints at least one room or empties both queues with no change; both seeds are painted in the first round |
| RecursiveDivision.FloodFill | src/logic/maze-generator/recursive-division.ts:67-85 | the red seed ends red and the green seed ends green; only unfilled rooms are painted, and in the end no unfilled room is next to a red or a green one |
| RecursiveDivision.WallingCells | src/logic/maze-generator/recursive-division.ts:87-91 | the list holds exactly the cells between a red room and a neighbouring green room |
| RecursiveDivision.BoundaryStep | src/logic/maze-generator/recursive-division.ts:87-91 | scanning one more red cell adds exactly the midpoints to its green neighbours |
| RecursiveDivision.Paint | src/logic/maze-generator/recursive-division.ts:94 | exactly the listed cells take the new state |
| RecursiveDivision.BuildWall | src/logic/maze-generator/recursive-division.ts:92-96 | a door exists exactly when the red/green boundary is non-empty; the door becomes a passage, the rest of the boundary becomes wall, and nothing else changes |
| RecursiveDivision.BoundaryIsCorridor | src/logic/maze-generator/recursive-division.ts:90 | every boundary cell is a corridor |
| RecursiveDivision.Relabel | src/logic/maze-generator/recursive-division.ts:98-101 | exactly the cells in the old state take the new one |
| RecursiveDivision.Children | src/logic/maze-generator/recursive-division.ts:87-99 | after walling and relabelling, the map is well formed and open cells are not closed; open rooms stay the same, fewer are unfilled, and the green seed is unfilled again |
| RecursiveDivision.Divide | src/logic/maze-generator/recursive-division.ts:38-103 | `divide` terminates and leaves no unfilled room. Passage rooms and walls stay, and unused rooms appear only if some were unused before. If fewer than two rooms are unfilled, exactly those become passages. Every unfilled corridor lies between two rooms of one area, before and after; when no room was unused, no cell at all is left unfilled, so every corridor has been made a wall or a door |
| RecursiveDivision.RoomsThroughSplit | src/logic/maze-generator/recursive-division.ts:70-99 | two rooms of one area joined by a corridor that the walling left unfilled are again in one area after the relabelling |
| RecursiveDivision.ChildrenPending | src/logic/maze-generator/recursive-division.ts:87-99 | after the flood fill, the walling and the relabelling, every unfilled corridor still lies between two rooms of one area |
| RecursiveDivision.BaseCasePending | src/logic/maze-generator/recursive-division.ts:58-61 | the base case leaves every unfilled corridor between two unused rooms |
| RecursiveDivision.ReopenPending | src/logic/maze-generator/recursive-division.ts:101 | turning unused cells back to unfilled keeps every unfilled corridor between two rooms of one area |
| RecursiveDivision.NothingUnfilled | src/logic/maze-generator/recursive-division.ts:102-104 | with no room unfilled or unused, no cell of the map is unfilled |
| RecursiveDivision.BaseCase | src/logic/maze-generator/recursive-division.ts:58-61 | with fewer than two unfilled rooms, exactly the unfilled rooms become passages |
| RecursiveDivision.Reopen | src/logic/maze-generator/recursive-division.ts:101 | turning unused cells back to unfilled keeps the map well formed, leaves no unused room and keeps the open rooms |
| RecursiveDivision.ChooseOther | src/logic/maze-generator/recursive-division.ts:62-66 | the green seed is an index below the bound that differs from the red one |
| RecursiveDivision.InitialMapReady | src/logic/maze-generator/recursive-division.ts:21-31 | the initial map is well formed, every room is unfilled, none is unused, and every corridor lies between two unfilled rooms |
| RecursiveDivision.Render | src/logic/maze-generator/recursive-division.ts:106-110 | a cell is a wall in the result exactly when its state is wall, and a passage otherwise |
| RecursiveDivision.RenderedShape | src/logic/maze-generator/recursive-division.ts:104-111 | rendering a fully divided map gives the common maze shape |
| RecursiveDivision.RecursiveDivisionGenerator | src/logic/maze-generator/recursive-division.ts:20-112 | the result has the common maze shape: only walls and passages, every room open, border and pillars closed |
| Generators.Run | src/logic/maze.ts:63 | every generator yields the common shape, and `dfs` and `prim` yield perfect mazes |
| Mazes.CalcPriority | src/logic/maze.ts:11-22 | the priority is the cost for `bfs`, minus the cost for `dfs`, an integer in 0..99 for `random`, and cost plus distance for `a-star` |
| Mazes.CalcDistance | src/logic/maze.ts:144-147 | the Manhattan distance is zero exactly when the two cells coincide |
| Mazes.Candidates | src/logic/maze.ts:89-94 | the four directions give four distinct cells, none of them the current one |
| Mazes.CandidatesAreNeighbors | src/logic/maze.ts:89-94 | a cell is among the four directions exactly when it is at Manhattan distance 1 |
| Mazes.Relaxed | src/logic/maze.ts:96-105 | the relaxed neighbours are exactly those on the map that are neither wall nor visited and whose cost is 0 or above the current cost plus one; there are at most four |
| Mazes.RelaxedNext | src/logic/maze.ts:96-105 | handling one more direction adds that neighbour exactly when it improves |
| Mazes.MarkNext | src/logic/maze.ts:111-113 | queueing one more neighbour turns it to `in-queue` only if it was a plain passage |
| Mazes.CostNext | src/logic/maze.ts:104-106 | relaxing one more neighbour sets its cost to the current cost plus one and leaves every other cost |
| Mazes.MarkedKeepsDistances | src/logic/maze.ts:87-113 | after a step every cell that is neither wall nor visited still has a finite distance |
| Mazes.RelaxNeighbor | src/logic/maze.ts:104-113 | relaxing an improving neighbour extends the step's state by that neighbour: its cost, its queue entry at the solver's priority, its `in-queue` mark |
| Mazes.Maze.constructor | src/logic/maze.ts:35-55 | all walls, infinite distances, zero costs, and a queue holding cell (1, 0) at cost 0 |
| Mazes.Maze.Create | src/logic/maze.ts:35-55 | construction fails exactly when the width or height is even; otherwise the new maze has the constructor's state |
| Mazes.Maze.Generate | src/logic/maze.ts:57-79 | a fresh queue and zero costs; the generator's maze, with start at (1, 0) and goal at (width-2, height-1); -1 distance on walls and the Manhattan distance to the goal elsewhere. The layout has the common shape, and it is a perfect maze for `dfs` and `prim` |
| Mazes.Maze.MeasureDistances | src/logic/maze.ts:70-78 | -1 on walls and the Manhattan distance to the goal on every other cell |
| Mazes.Maze.NextStep | src/logic/maze.ts:81-118 | on an empty queue, None and no change. Otherwise the cheapest cell is removed, marked visited and returned; exactly the `Relaxed` neighbours get cost plus one and are enqueued stably at the solver's priority, in direction order; plain passages among them become `in-queue`; the queue stays sorted |
| Mazes.Maze.Expand | src/logic/maze.ts:87-115 | the neighbour loop marks the cell visited and handles exactly the `Relaxed` neighbours |
| Mazes.Maze.QueuedInGrid | src/logic/maze.ts:107-110 | every queued cell is still on the map after a step |
| Mazes.Maze.CopyWith | src/logic/maze.ts:120-142 | fails exactly when the effective width or height is even. Otherwise: a new maze with the overrides applied, copies of the three grids and of the queue's entries, and a queue object of its own |
| Mazes.Maze.SetSolver | src/logic/maze.ts:149-151 | only the solver changes |

## Left out

- Randomness is an arbitrary choice (`Utils.Choose`). The model proves nothing about the distribution: uniform shuffles, uniform seeds, uniform `random` priorities.
- Numbers are mathematical integers. Floating point, `NaN` and `Infinity` do not arise because every quantity in the core is a small integer. The one exception, the `Infinity` sentinel of a fresh distance grid, is the `Infinite` case of `Distance`.
- Mazes.Maze.Create: dimensions are natural numbers. A negative or fractional odd width passes the source's parity check and then throws a `RangeError` inside `initArray2D`; that path is not modelled.
- Mazes.Maze.Generate: requires both dimensions odd and at least 3. With width or height 1, `prim` has no vertices and recursive division gives an all-wall map, but `dfs` opens room (1, 1) (dfs.ts:19) and `generate` writes the start (1, 0) and the goal (width-2, height-1) (maze.ts:66-67), which lie outside such a grid. These writes are not modelled.
- Mazes.Maze.NextStep: requires the grids to be `height` x `width`, with every queued cell on them. `copyWith` with a new size keeps grids of the old size, and a step on such a maze indexes past the rows; that state is not modelled.
- Mazes.Maze.NextStep: states the random solver's priorities only as lying in 0..99.
- Aliasing is not modelled. `new PriorityQueue(values)` sorts the caller's array in place, `toArray` returns the internal array, and the `maze`, `distance` and `cost` getters return the internal grids. The model works on values, so copies are independent by construction. The one object that could be shared, the queue, is proved fresh after `copyWith`.
- The read-only getters of `Maze` (`solver`, `generator`, `width`, `height`, `maze`, `distance`, `cost`) are field reads.
- JavaScript's `Array.prototype.sort` with comparator `a.cost - b.cost` is modelled as a stable insertion sort; the language has required a stable sort since ES2019.
- Prim.AddEdge: the branches that allocate a missing row of the cost matrix (prim.ts:28-29 and 33-34) are dead, because `initArray2D` already gives every row. The `if (v === null) break` at prim.ts:66 is dead for the same kind of reason, since the queue is non-empty there.
- Prim.AsNumber: the `as number` read of a `null` cost is JavaScript's coercion to 0. It never happens on a real edge.
- The perfect-maze property of DFS and Prim is stated as a spanning-tree witness (a parent map with strictly decreasing ranks), not as a count of open cells.
- RecursiveDivision.RecursiveDivisionGenerator: proves the common maze shape and termination, not that the result is a perfect maze.
- RecursiveDivision.Divide: proves that every corridor ends as a wall or a door, but not which ones; that each door joins two areas that are otherwise walled apart, and so the perfect-maze property, is not stated.
- The recursive-division map is a grid of states indexed by coordinates, not a flat array of cell objects. A cell's identity is its position.
- The green-seed retry loop (recursive-division.ts:64-66) is one choice of an index different from the red one. Since the loop stops only on such an index, the outcomes are the same; whether the retry loop terminates is a probabilistic question.
- The unfilled-cell list, the queues and the walling list are used for membership and random removal. Their order is not stated beyond what the contracts say.
- The `mazeGenerators` table in src/logic/maze-generator/index.ts is not part of this model; `Generators.Run` is the dispatch `generate` performs through it.
