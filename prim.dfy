/** Prim's generator (src/logic/maze-generator/prim.ts). The rooms of a maze
    `mapWidth` x `mapHeight` are the vertices 0 .. w*h-1 of a grid graph with
    w = (mapWidth - 1) / 2 columns and h = (mapHeight - 1) / 2 rows, numbered row
    by row; every edge costs 1. Vertices leave a shuffled queue cheapest first, and
    each vertex keeps the edge through which it was first reached. */
module Prim {
  import opened Utils
  import opened MazeGrid

  /** The cost of a vertex no visited vertex has reached yet (`bigEnough`). */
  const BigEnough := 999

  /** Division with remainder is unique: `v = q * w + r` with `0 <= r < w`
      fixes `v / w` and `v % w`. */
  lemma DivModOf(w: int, v: int, q: int, r: int)
    requires w > 0 && 0 <= r < w && v == q * w + r
    ensures v / w == q && v % w == r
  {
    var d := q - v / w;
    assert d * w == v % w - r;
    assert -w < d * w < w;
  }

  /** Vertex `q * w + r` lies in the graph exactly when its row `q` does. */
  lemma RowBound(w: int, h: int, q: int, r: int)
    requires w > 0 && 0 <= r < w
    ensures 0 <= q * w + r < w * h <==> 0 <= q < h
  {
    if q < 0 { assert q * w <= -w; }
    if q >= h { assert q * w >= h * w; }
    if 0 <= q < h { assert q * w <= (h - 1) * w; }
  }

  /** The edge `addVertex(a)` adds to the right neighbour of `a`. */
  predicate RightEdge(w: int, h: int, a: int, b: int) {
    w > 0 && 0 <= a < w * h && a % w < w - 1 && b == a + 1
  }

  /** The edge `addVertex(a)` adds to the neighbour below `a`. */
  predicate DownEdge(w: int, h: int, a: int, b: int) {
    w > 0 && 0 <= a < w * h && a / w < h - 1 && b == a + w
  }

  /** `a` and `b` are joined by an edge of the grid graph, in either direction. */
  predicate GraphEdge(w: int, h: int, a: int, b: int) {
    RightEdge(w, h, a, b) || RightEdge(w, h, b, a) || DownEdge(w, h, a, b) || DownEdge(w, h, b, a)
  }

  /** Both ends of an edge are vertices of the graph, and they differ. */
  lemma EdgeInRange(w: int, h: int, a: int, b: int)
    requires GraphEdge(w, h, a, b)
    ensures 0 <= a < w * h && 0 <= b < w * h && a != b
  {
    if RightEdge(w, h, a, b) {
      RightStep(w, h, a);
    } else if RightEdge(w, h, b, a) {
      RightStep(w, h, b);
    } else if DownEdge(w, h, a, b) {
      DownStep(w, h, a);
    } else {
      DownStep(w, h, b);
    }
  }

  /** The right neighbour of a vertex not in the last column: same row, next column. */
  lemma RightStep(w: int, h: int, a: int)
    requires w > 0 && 0 <= a < w * h && a % w < w - 1
    ensures a + 1 < w * h && (a + 1) / w == a / w && (a + 1) % w == a % w + 1
  {
    RowBound(w, h, a / w, a % w);
    RowBound(w, h, a / w, a % w + 1);
    DivModOf(w, a + 1, a / w, a % w + 1);
  }

  /** The neighbour below a vertex not in the last row: next row, same column. */
  lemma DownStep(w: int, h: int, a: int)
    requires w > 0 && 0 <= a < w * h && a / w < h - 1
    ensures a + w < w * h && (a + w) / w == a / w + 1 && (a + w) % w == a % w
  {
    var q, r := a / w, a % w;
    assert a + w == (q + 1) * w + r;
    RowBound(w, h, q + 1, r);
    DivModOf(w, a + w, q + 1, r);
  }

  /** Two vertices in the same row and neighbouring columns are one apart. */
  lemma SameRow(w: int, a: int, b: int)
    requires w > 0 && a / w == b / w && b % w == a % w + 1
    ensures b == a + 1
  {
  }

  /** Two vertices in the same column and neighbouring rows are `w` apart. */
  lemma SameColumn(w: int, a: int, b: int)
    requires w > 0 && b / w == a / w + 1 && b % w == a % w
    ensures b == a + w
  {
    assert b == (a / w + 1) * w + a % w;
  }

  /** `mapCoords`: the room of vertex `v`, at column `v % w` and row `v / w` of the room grid. */
  function MapCoords(w: int, v: int): (c: Coord)
    requires w > 0
    ensures c.x % 2 == 1 && c.y % 2 == 1 && 0 < c.x < 2 * w
    ensures Vertex(w, c) == v
  {
    Coord(1 + 2 * (v % w), 1 + 2 * (v / w))
  }

  /** The vertex of a room: the inverse of `MapCoords`. */
  function Vertex(w: int, c: Coord): int {
    ((c.y - 1) / 2) * w + (c.x - 1) / 2
  }

  /** Every vertex is mapped to a room of the `2w+1` x `2h+1` maze, and
      `Vertex` takes it back. */
  lemma MapCoordsIsRoom(w: int, h: int, v: int)
    requires w > 0 && h > 0 && 0 <= v < w * h
    ensures IsRoomAt(2 * w + 1, 2 * h + 1, MapCoords(w, v))
    ensures Vertex(w, MapCoords(w, v)) == v
  {
    RowBound(w, h, v / w, v % w);
  }

  /** Every room is the image of exactly the vertex `Vertex` gives it. */
  lemma VertexOfRoom(w: int, h: int, c: Coord)
    requires w > 0 && h > 0 && IsRoomAt(2 * w + 1, 2 * h + 1, c)
    ensures 0 <= Vertex(w, c) < w * h
    ensures MapCoords(w, Vertex(w, c)) == c
  {
    var q, r := (c.y - 1) / 2, (c.x - 1) / 2;
    RowBound(w, h, q, r);
    DivModOf(w, Vertex(w, c), q, r);
  }

  /** The edges of the graph are exactly the pairs of neighbouring rooms. */
  lemma EdgeIsAdjacent(w: int, h: int, a: int, b: int)
    requires w > 0 && h > 0 && 0 <= a < w * h && 0 <= b < w * h
    ensures GraphEdge(w, h, a, b) <==> Adjacent(MapCoords(w, a), MapCoords(w, b))
  {
    if RightEdge(w, h, a, b) {
      RightStep(w, h, a);
    } else if RightEdge(w, h, b, a) {
      RightStep(w, h, b);
    } else if DownEdge(w, h, a, b) {
      DownStep(w, h, a);
    } else if DownEdge(w, h, b, a) {
      DownStep(w, h, b);
    }
    if Adjacent(MapCoords(w, a), MapCoords(w, b)) {
      AdjacentIsEdge(w, h, a, b);
    }
  }

  lemma AdjacentIsEdge(w: int, h: int, a: int, b: int)
    requires w > 0 && h > 0 && 0 <= a < w * h && 0 <= b < w * h
    requires Adjacent(MapCoords(w, a), MapCoords(w, b))
    ensures GraphEdge(w, h, a, b)
  {
    RowBound(w, h, a / w, a % w);
    RowBound(w, h, b / w, b % w);
    if a / w == b / w && b % w == a % w + 1 {
      SameRow(w, a, b);
      assert RightEdge(w, h, a, b);
    } else if a / w == b / w {
      SameRow(w, b, a);
      assert RightEdge(w, h, b, a);
    } else if b / w == a / w + 1 {
      SameColumn(w, a, b);
      assert DownEdge(w, h, a, b);
    } else {
      SameColumn(w, b, a);
      assert DownEdge(w, h, b, a);
    }
  }

  /** The vertex left of a vertex not in the first column is joined to it. */
  lemma LeftStep(w: int, h: int, v: int)
    requires w > 0 && 0 <= v < w * h && v % w > 0
    ensures RightEdge(w, h, v - 1, v)
  {
    DivModOf(w, v - 1, v / w, v % w - 1);
  }

  /** The vertex above a vertex not in the first row is joined to it. */
  lemma UpStep(w: int, h: int, v: int)
    requires w > 0 && h > 0 && 0 <= v < w * h && v / w > 0
    ensures DownEdge(w, h, v - w, v)
  {
    var q, r := v / w, v % w;
    assert v - w == (q - 1) * w + r;
    DivModOf(w, v - w, q - 1, r);
    RowBound(w, h, q, r);
  }

  /** A set of vertices that holds vertex `v` and is closed under edges holds
      vertex 0: walk left along the row, then up the first column. */
  lemma {:induction false} ReachesOrigin(w: int, h: int, s: set<int>, v: int)
    requires w > 0 && h > 0 && 0 <= v < w * h && v in s
    requires forall a, b {:trigger GraphEdge(w, h, a, b)} :: a in s && GraphEdge(w, h, a, b) ==> b in s
    ensures 0 in s
    decreases v
  {
    if v % w > 0 {
      LeftStep(w, h, v);
      assert GraphEdge(w, h, v, v - 1);
      ReachesOrigin(w, h, s, v - 1);
    } else if v / w > 0 {
      UpStep(w, h, v);
      assert GraphEdge(w, h, v, v - w);
      ReachesOrigin(w, h, s, v - w);
    } else {
      assert v == (v / w) * w + v % w;
    }
  }

  /** A set of vertices that holds vertex 0 and is closed under edges holds vertex
      `v`: walk down the first column, then right along the row. */
  lemma {:induction false} ReachedFromOrigin(w: int, h: int, s: set<int>, v: int)
    requires w > 0 && h > 0 && 0 <= v < w * h && 0 in s
    requires forall a, b {:trigger GraphEdge(w, h, a, b)} :: a in s && GraphEdge(w, h, a, b) ==> b in s
    ensures v in s
    decreases v
  {
    if v % w > 0 {
      LeftStep(w, h, v);
      ReachedFromOrigin(w, h, s, v - 1);
      assert GraphEdge(w, h, v - 1, v);
    } else if v / w > 0 {
      UpStep(w, h, v);
      ReachedFromOrigin(w, h, s, v - w);
      assert GraphEdge(w, h, v - w, v);
    } else {
      assert v == (v / w) * w + v % w;
    }
  }

  /** The grid graph is connected: a set holding one vertex and not another has an
      edge leaving it. This is why every vertex but the first leaves the queue at
      cost 1, with an edge. */
  lemma FrontierEdge(w: int, h: int, s: set<int>, inside: int, outside: int)
    requires w > 0 && h > 0
    requires 0 <= inside < w * h && inside in s
    requires 0 <= outside < w * h && outside !in s
    ensures exists a, b :: a in s && GraphEdge(w, h, a, b) && b !in s
  {
    if forall a, b {:trigger GraphEdge(w, h, a, b)} :: a in s && GraphEdge(w, h, a, b) ==> b in s {
      ReachesOrigin(w, h, s, inside);
      ReachedFromOrigin(w, h, s, outside);
    }
  }

  /** `addEdge`: records `e2` as a neighbour of `e1` and `e1` as one of `e2`, and
      gives the edge cost `wt` in both directions. */
  method AddEdge(adj: seq<seq<int>>, cost: Grid<Option<int>>, e1: int, e2: int, wt: int)
    returns (adj': seq<seq<int>>, cost': Grid<Option<int>>)
    requires 0 <= e1 < |adj| && 0 <= e2 < |adj| && e1 != e2 && IsGrid(cost, |adj|, |adj|)
    ensures adj' == adj[e1 := adj[e1] + [e2]][e2 := adj[e2] + [e1]]
    ensures IsGrid(cost', |adj|, |adj|)
    ensures forall a, b :: 0 <= a < |adj| && 0 <= b < |adj| ==>
      cost'[a][b] == if (a == e1 && b == e2) || (a == e2 && b == e1) then Some(wt) else cost[a][b]
  {
    adj' := adj[e1 := adj[e1] + [e2]];
    adj' := adj'[e2 := adj'[e2] + [e1]];
    cost' := SetCell(cost, e2, e1, Some(wt));
    cost' := SetCell(cost', e1, e2, Some(wt));
  }

  /** The edge between `a` and `b` has been added once `addVertex` ran on its
      upper or left end, that is on the smaller of the two. */
  predicate AddedBefore(w: int, h: int, a: int, b: int, i: int) {
    ((RightEdge(w, h, a, b) || DownEdge(w, h, a, b)) && a < i) ||
    ((RightEdge(w, h, b, a) || DownEdge(w, h, b, a)) && b < i)
  }

  /** Running `addVertex(i)` adds the edges from `i` to its right and lower neighbours. */
  lemma AddedBeforeNext(w: int, h: int, a: int, b: int, i: int)
    requires w > 0 && h > 0 && 0 <= i < w * h
    ensures AddedBefore(w, h, a, b, i + 1) <==>
      AddedBefore(w, h, a, b, i) ||
      (i % w < w - 1 && ((a == i && b == i + 1) || (a == i + 1 && b == i))) ||
      (i / w < h - 1 && ((a == i && b == i + w) || (a == i + w && b == i)))
  {
  }

  /** `initializer`: adjacency lists and the cost matrix of the grid graph. A vertex
      lists exactly its graph neighbours, and the cost matrix holds 1 for each edge
      and null elsewhere. */
  method Initializer(w: int, h: int) returns (adj: seq<seq<int>>, cost: Grid<Option<int>>)
    requires w > 0 && h > 0
    ensures |adj| == w * h && IsGrid(cost, w * h, w * h)
    ensures forall a, b :: 0 <= a < w * h ==> (b in adj[a] <==> GraphEdge(w, h, a, b))
    ensures forall a, b :: 0 <= a < w * h && 0 <= b < w * h ==>
      cost[a][b] == if GraphEdge(w, h, a, b) then Some(1) else None
  {
    var n := w * h;
    adj := seq(n, _ => []);
    cost := InitArray2D(n, n, None);
    for i := 0 to n
      invariant |adj| == n && IsGrid(cost, n, n)
      invariant forall a, b :: 0 <= a < n ==> (b in adj[a] <==> AddedBefore(w, h, a, b, i))
      invariant forall a, b :: 0 <= a < n && 0 <= b < n ==>
        cost[a][b] == if AddedBefore(w, h, a, b, i) then Some(1) else None
    {
      ghost var adj0, cost0 := adj, cost;
      if i % w < w - 1 {
        RightStep(w, h, i);
        adj, cost := AddEdge(adj, cost, i, i + 1, 1);
      }
      ghost var adj1, cost1 := adj, cost;
      if i / w < h - 1 {
        DownStep(w, h, i);
        adj, cost := AddEdge(adj, cost, i, i + w, 1);
      }
      forall a, b | 0 <= a < n
        ensures b in adj[a] <==> AddedBefore(w, h, a, b, i + 1)
        ensures 0 <= b < n ==> cost[a][b] == if AddedBefore(w, h, a, b, i + 1) then Some(1) else None
      {
        AddedBeforeNext(w, h, a, b, i);
        assert b in adj1[a] <==> b in adj0[a] || (i % w < w - 1 && ((a == i && b == i + 1) || (a == i + 1 && b == i)));
      }
    }
    forall a, b | 0 <= a < n && GraphEdge(w, h, a, b)
      ensures AddedBefore(w, h, a, b, n)
    {
      EdgeInRange(w, h, a, b);
    }
  }

  /** `iota(n)`: 0, 1, ..., n - 1. */
  function Iota(n: nat): (s: seq<int>)
    ensures |s| == n && forall i :: 0 <= i < n ==> s[i] == i
  {
    seq(n, i => i)
  }

  /** Each of 0 .. n-1 occurs in `iota(n)` exactly once, and nothing else occurs. */
  lemma {:induction false} IotaCounts(n: nat)
    ensures forall u :: multiset(Iota(n))[u] == if 0 <= u < n then 1 else 0
  {
    if n > 0 {
      IotaCounts(n - 1);
      assert Iota(n) == Iota(n - 1) + [n - 1];
    }
  }

  /** `cost[v][w] as number` compared with `<`: JavaScript reads null as 0. */
  function AsNumber(c: Option<int>): int {
    match c
    case Some(k) => k
    case None => 0
  }

  /** Whether the relaxation loop updates vertex `u`: a neighbour still queued
      whose edge from the visited vertex is cheaper than its cost so far. */
  predicate Improves(neighbours: seq<int>, costRow: seq<Option<int>>, queue: seq<int>, costs: seq<int>, u: int)
    requires |costRow| == |costs|
  {
    0 <= u < |costs| && u in neighbours && u in queue && AsNumber(costRow[u]) < costs[u]
  }

  /** The relaxation loop over `adj[v]`: every improvable neighbour takes the cost
      of its edge from `v` and `v` as its edge; every other vertex is unchanged. */
  method Relax(v: int, neighbours: seq<int>, costRow: seq<Option<int>>, queue: seq<int>,
               costs: seq<int>, edges: seq<Option<int>>)
    returns (costs': seq<int>, edges': seq<Option<int>>)
    requires |costRow| == |costs| == |edges|
    requires forall u :: u in neighbours ==> 0 <= u < |costs|
    ensures |costs'| == |costs| && |edges'| == |edges|
    ensures forall u :: 0 <= u < |costs| ==>
      costs'[u] == (if Improves(neighbours, costRow, queue, costs, u) then AsNumber(costRow[u]) else costs[u]) &&
      edges'[u] == (if Improves(neighbours, costRow, queue, costs, u) then Some(v) else edges[u])
  {
    costs', edges' := costs, edges;
    for j := 0 to |neighbours|
      invariant |costs'| == |costs| && |edges'| == |edges|
      invariant forall u :: 0 <= u < |costs| ==>
        costs'[u] == (if Improves(neighbours[..j], costRow, queue, costs, u) then AsNumber(costRow[u]) else costs[u]) &&
        edges'[u] == (if Improves(neighbours[..j], costRow, queue, costs, u) then Some(v) else edges[u])
    {
      var u := neighbours[j];
      assert u in neighbours;
      assert neighbours[..j + 1] == neighbours[..j] + [u];
      if u in queue && AsNumber(costRow[u]) < costs'[u] {
        costs' := costs'[u := AsNumber(costRow[u])];
        edges' := edges'[u := Some(v)];
      }
    }
    assert neighbours[..|neighbours|] == neighbours;
  }

  /** The adjacency lists and cost matrix `initializer` returns. */
  ghost predicate GraphOf(w: int, h: int, adj: seq<seq<int>>, cost: Grid<Option<int>>) {
    w > 0 && h > 0 && |adj| == w * h && IsGrid(cost, w * h, w * h) &&
    (forall a, b :: 0 <= a < w * h ==> (b in adj[a] <==> GraphEdge(w, h, a, b))) &&
    (forall a, b :: 0 <= a < w * h && 0 <= b < w * h ==>
       cost[a][b] == if GraphEdge(w, h, a, b) then Some(1) else None)
  }

  /** The invariant of the main loop. `rank` numbers the visited vertices in the
      order they left the queue, and `root` is the first of them.
      - the queue holds, once each, exactly the vertices not yet visited;
      - a cost is 1 or `bigEnough`, and it is 1 exactly when the vertex has an edge;
      - an edge leads to an earlier visited vertex through a graph edge;
      - the root has no edge, every other visited vertex has one;
      - an unvisited neighbour of a visited vertex costs 1. */
  ghost predicate PrimInv(w: int, h: int, queue: seq<int>, edges: seq<Option<int>>, costs: seq<int>,
                          rank: map<int, nat>, count: nat, root: int)
  {
    w > 0 && h > 0 && |edges| == w * h && |costs| == w * h &&
    (forall u :: multiset(queue)[u] == if 0 <= u < w * h && u !in rank then 1 else 0) &&
    (forall u :: u in rank ==> 0 <= u < w * h && rank[u] < count) &&
    (forall u :: 0 <= u < w * h ==>
       (costs[u] == 1 || costs[u] == BigEnough) && (costs[u] == 1 <==> edges[u].Some?)) &&
    (forall u :: 0 <= u < w * h && edges[u].Some? ==>
       edges[u].value in rank && GraphEdge(w, h, u, edges[u].value) &&
       (u in rank ==> rank[edges[u].value] < rank[u])) &&
    (rank == map[] ==> forall u :: 0 <= u < w * h ==> costs[u] == BigEnough) &&
    (rank != map[] ==> root in rank && edges[root].None?) &&
    (forall u :: u in rank && u != root ==> edges[u].Some?) &&
    (forall a, b {:trigger GraphEdge(w, h, a, b)} ::
       a in rank && GraphEdge(w, h, a, b) && 0 <= b < w * h && b !in rank ==> costs[b] == 1)
  }

  /** Visiting the cheapest queued vertex keeps the invariant: it is the root if
      nothing was visited before, and otherwise it costs 1 and has an edge. */
  lemma VisitStep(w: int, h: int, adj: seq<seq<int>>, cost: Grid<Option<int>>,
                  queue: seq<int>, edges: seq<Option<int>>, costs: seq<int>,
                  rank: map<int, nat>, count: nat, root: int,
                  v: int, queue': seq<int>, edges': seq<Option<int>>, costs': seq<int>)
    requires GraphOf(w, h, adj, cost)
    requires PrimInv(w, h, queue, edges, costs, rank, count, root)
    requires 0 <= v < w * h && v in queue
    requires forall u :: u in queue ==> 0 <= u < w * h && costs[v] <= costs[u]
    requires multiset(queue') + multiset{v} == multiset(queue)
    requires |costs'| == |costs| && |edges'| == |edges|
    requires forall u :: 0 <= u < w * h ==>
      costs'[u] == (if Improves(adj[v], cost[v], queue', costs, u) then AsNumber(cost[v][u]) else costs[u]) &&
      edges'[u] == (if Improves(adj[v], cost[v], queue', costs, u) then Some(v) else edges[u])
    ensures v !in rank
    ensures PrimInv(w, h, queue', edges', costs', rank[v := count], count + 1, if rank == map[] then v else root)
  {
    var n := w * h;
    assert multiset(queue)[v] > 0;
    var rank' := rank[v := count];
    var root' := if rank == map[] then v else root;
    if rank != map[] {
      FrontierEdge(w, h, rank.Keys, root, v);
      var a, b :| a in rank && GraphEdge(w, h, a, b) && b !in rank;
      EdgeInRange(w, h, a, b);
      assert multiset(queue)[b] == 1;
      assert b in queue;
    }
    assert edges[v].Some? <==> rank != map[];
    forall u | 0 <= u < n && Improves(adj[v], cost[v], queue', costs, u)
      ensures u !in rank' && GraphEdge(w, h, v, u) && cost[v][u] == Some(1)
    {
      assert multiset(queue')[u] > 0;
    }
    forall a, b {:trigger GraphEdge(w, h, a, b)} | a in rank' && GraphEdge(w, h, a, b) && 0 <= b < n && b !in rank'
      ensures costs'[b] == 1
    {
      if a == v {
        assert multiset(queue')[b] == 1;
        assert b in queue';
        assert b in adj[v];
      }
    }
    assert PrimInv(w, h, queue', edges', costs', rank', count + 1, root');
  }

  /** The spanning tree the main loop leaves in `edges`: the root has no edge, and
      every other vertex has an edge to a neighbour of smaller rank, so following
      edges from any vertex leads to the root. */
  ghost predicate SpanningTree(w: int, h: int, edges: seq<Option<int>>, rank: map<int, nat>, root: int) {
    w > 0 && h > 0 && |edges| == w * h && 0 <= root < w * h && edges[root].None? &&
    (forall u :: 0 <= u < w * h ==> u in rank) &&
    (forall u :: 0 <= u < w * h && u != root ==> edges[u].Some?) &&
    (forall u :: 0 <= u < w * h && edges[u].Some? ==>
       0 <= edges[u].value < w * h && GraphEdge(w, h, u, edges[u].value) &&
       edges[u].value in rank && rank[edges[u].value] < rank[u])
  }

  /** Lines 60-75 of `primGenerator`: the shuffled queue, the costs and edges, and
      the main loop. The edges it leaves form a spanning tree of the grid graph. */
  method GrowTree(width: int, height: int, adj: seq<seq<int>>, cost: Grid<Option<int>>)
    returns (edges: seq<Option<int>>, ghost rank: map<int, nat>, ghost root: int)
    requires GraphOf(width, height, adj, cost)
    ensures SpanningTree(width, height, edges, rank, root)
  {
    var n := width * height;
    var order := new int[n](i => i);
    assert order[..] == Iota(n);
    IotaCounts(n);
    ShuffleArray(order);
    var queue := order[..];
    edges := seq(n, _ => None);
    var costs: seq<int> := seq(n, _ => BigEnough);
    rank := map[];
    ghost var count: nat := 0;
    root := 0;

    while |queue| > 0
      invariant PrimInv(width, height, queue, edges, costs, rank, count, root)
      decreases |queue|
    {
      var found := MinBy(queue, (u: int) => if 0 <= u < |costs| then costs[u] else BigEnough);
      if found.None? {
        break;
      }
      var v := found.value;
      CheapestQueued(width, height, queue, edges, costs, rank, count, root, v);
      var queue' := RemoveAt(queue, IndexOf(queue, v));
      NeighboursInRange(width, height, adj, cost, v);
      var costs', edges' := Relax(v, adj[v], cost[v], queue', costs, edges);
      VisitStep(width, height, adj, cost, queue, edges, costs, rank, count, root, v, queue', edges', costs');
      root := if rank == map[] then v else root;
      rank := rank[v := count];
      count := count + 1;
      queue, costs, edges := queue', costs', edges';
    }
    PrimEdges(width, height, queue, edges, costs, rank, count, root);
  }

  /** The neighbours of a vertex are vertices. */
  lemma NeighboursInRange(w: int, h: int, adj: seq<seq<int>>, cost: Grid<Option<int>>, v: int)
    requires GraphOf(w, h, adj, cost) && 0 <= v < w * h
    ensures forall u :: u in adj[v] ==> 0 <= u < w * h
  {
    forall u | u in adj[v] ensures 0 <= u < w * h {
      EdgeInRange(w, h, v, u);
    }
  }

  /** What `minBy` returns on the queue is a queued vertex of least cost. */
  lemma CheapestQueued(w: int, h: int, queue: seq<int>, edges: seq<Option<int>>, costs: seq<int>,
                       rank: map<int, nat>, count: nat, root: int, v: int)
    requires PrimInv(w, h, queue, edges, costs, rank, count, root)
    requires exists i :: (0 <= i < |queue| && queue[i] == v &&
                          IsFirstMin(queue, (u: int) => if 0 <= u < |costs| then costs[u] else BigEnough, i))
    ensures 0 <= v < w * h && v in queue
    ensures forall u :: u in queue ==> 0 <= u < w * h && costs[v] <= costs[u]
  {
    var i :| 0 <= i < |queue| && queue[i] == v &&
      IsFirstMin(queue, (u: int) => if 0 <= u < |costs| then costs[u] else BigEnough, i);
    assert multiset(queue)[v] > 0;
    forall u | u in queue ensures 0 <= u < w * h && costs[v] <= costs[u] {
      assert multiset(queue)[u] > 0;
      var j :| 0 <= j < |queue| && queue[j] == u;
    }
  }

  /** Lines 79-90 of `primGenerator`: opens the room of every vertex and the
      corridor of its edge. The grid then shows all rooms and exactly the corridors
      of the edges. */
  method CarveTree(mapWidth: int, mapHeight: int, width: int, height: int, edges: seq<Option<int>>)
    returns (maze: Grid<CellState>)
    requires width > 0 && height > 0 && mapWidth == 2 * width + 1 && mapHeight == 2 * height + 1
    requires |edges| == width * height
    requires forall u :: 0 <= u < width * height && edges[u].Some? ==>
      0 <= edges[u].value < width * height && GraphEdge(width, height, u, edges[u].value)
    ensures CarveInv(maze, width, height, edges, width * height)
  {
    maze := InitArray2D(mapWidth, mapHeight, Wall);
    CarveStart(width, height, edges, maze);
    for i := 0 to width * height
      invariant CarveInv(maze, width, height, edges, i)
    {
      MapCoordsIsRoom(width, height, i);
      var c := MapCoords(width, i);
      ghost var before := maze;
      maze := SetCell(maze, c.x, c.y, Passage);
      var edge := edges[i];
      if edge.Some? {
        var c2 := MapCoords(width, edge.value);
        MapCoordsIsRoom(width, height, edge.value);
        EdgeIsAdjacent(width, height, i, edge.value);
        var mx := (c.x + c2.x) / 2;
        var my := (c.y + c2.y) / 2;
        maze := SetCell(maze, mx, my, Passage);
      }
      CarveStep(width, height, edges, i, before, maze);
    }
  }

  /** Before the final loop nothing is carved: the all-wall grid. */
  lemma CarveStart(w: int, h: int, edges: seq<Option<int>>, maze: Grid<CellState>)
    requires w > 0 && h > 0
    requires IsGrid(maze, 2 * w + 1, 2 * h + 1)
    requires forall y, x :: 0 <= y < 2 * h + 1 && 0 <= x < 2 * w + 1 ==> maze[y][x] == Wall
    ensures CarveInv(maze, w, h, edges, 0)
  {
    forall c | c in Rooms(2 * w + 1, 2 * h + 1) ensures Vertex(w, c) >= 0 {
      VertexOfRoom(w, h, c);
    }
    assert CarvedUpTo(w, h, 0) == {};
    assert ParentUpTo(w, h, edges, 0) == map[];
  }

  /** Opening the room of vertex `i`, and the corridor of its edge if it has one,
      takes the carving from the vertices below `i` to those below `i + 1`. */
  lemma CarveStep(w: int, h: int, edges: seq<Option<int>>, i: int, before: Grid<CellState>, after: Grid<CellState>)
    requires w > 0 && h > 0 && |edges| == w * h && 0 <= i < w * h
    requires edges[i].Some? ==> 0 <= edges[i].value < w * h && GraphEdge(w, h, i, edges[i].value)
    requires CarveInv(before, w, h, edges, i)
    requires IsGrid(after, 2 * w + 1, 2 * h + 1)
    requires forall y, x :: 0 <= y < 2 * h + 1 && 0 <= x < 2 * w + 1 ==>
      after[y][x] == if Coord(x, y) == MapCoords(w, i) ||
                        (edges[i].Some? && Coord(x, y) == Mid(MapCoords(w, i), MapCoords(w, edges[i].value)))
                     then Passage else before[y][x]
    ensures CarveInv(after, w, h, edges, i + 1)
  {
    var W, H := 2 * w + 1, 2 * h + 1;
    assert ValidSize(W, H);
    var c := MapCoords(w, i);
    MapCoordsIsRoom(w, h, i);
    UpToNext(w, h, edges, i);
    var carved, parent := CarvedUpTo(w, h, i), ParentUpTo(w, h, edges, i);
    assert c !in parent && IsRoomAt(W, H, c);
    if edges[i].Some? {
      var p := MapCoords(w, edges[i].value);
      MapCoordsIsRoom(w, h, edges[i].value);
      EdgeIsAdjacent(w, h, i, edges[i].value);
      assert IsRoomAt(W, H, p) && Adjacent(c, p);
      forall y, x | 0 <= y < H && 0 <= x < W
        ensures after[y][x] == CarvedCell(W, H, x, y, carved + {c}, parent[c := p])
      {
        CarveRoom(W, H, carved, parent, c, x, y);
        AttachRoom(W, H, carved + {c}, parent, c, p, x, y);
      }
    } else {
      forall y, x | 0 <= y < H && 0 <= x < W
        ensures after[y][x] == CarvedCell(W, H, x, y, carved + {c}, parent)
      {
        CarveRoom(W, H, carved, parent, c, x, y);
      }
    }
  }

  /** An odd size is twice its half plus one. */
  lemma HalfSize(size: int)
    requires size >= 3 && size % 2 == 1
    ensures (size - 1) / 2 > 0 && size == 2 * ((size - 1) / 2) + 1
  {
  }

  /** `primGenerator`: the result is a perfect maze whose tree is the one Prim's
      algorithm grows from the first vertex it visits; in particular it is
      `mapHeight` x `mapWidth`, holds only walls and passages, every room is a
      passage, and the border and the pillars are walls. */
  method PrimGenerator(mapWidth: int, mapHeight: int) returns (maze: Grid<CellState>)
    requires ValidSize(mapWidth, mapHeight)
    ensures PerfectMaze(maze, mapWidth, mapHeight)
    ensures MazeShape(maze, mapWidth, mapHeight)
  {
    var width := (mapWidth - 1) / 2;
    var height := (mapHeight - 1) / 2;
    HalfSize(mapWidth);
    HalfSize(mapHeight);
    var adj, cost := Initializer(width, height);
    var edges, rank, root := GrowTree(width, height, adj, cost);
    maze := CarveTree(mapWidth, mapHeight, width, height, edges);
    PrimFinish(maze, width, height, edges, rank, root);
  }

  /** Once the queue is empty every vertex has been visited, and the edges form a
      spanning tree. */
  lemma PrimEdges(w: int, h: int, queue: seq<int>, edges: seq<Option<int>>, costs: seq<int>,
                  rank: map<int, nat>, count: nat, root: int)
    requires |queue| == 0
    requires PrimInv(w, h, queue, edges, costs, rank, count, root)
    ensures SpanningTree(w, h, edges, rank, root)
  {
    forall u | 0 <= u < w * h ensures u in rank {
      assert multiset(queue)[u] == 0;
    }
    assert 0 in rank;
    forall u | 0 <= u < w * h && edges[u].Some?
      ensures 0 <= edges[u].value < w * h
    {
      EdgeInRange(w, h, u, edges[u].value);
    }
  }

  /** The rooms of vertices below `i`: those the final loop has carved. */
  ghost function CarvedUpTo(w: int, h: int, i: int): set<Coord> {
    set c | c in Rooms(2 * w + 1, 2 * h + 1) && Vertex(w, c) < i
  }

  /** The tree edges the final loop has carved once it reached vertex `i`. */
  ghost function ParentUpTo(w: int, h: int, edges: seq<Option<int>>, i: int): map<Coord, Coord>
    requires w > 0
  {
    map c | c in Rooms(2 * w + 1, 2 * h + 1) && 0 <= Vertex(w, c) < |edges| && Vertex(w, c) < i &&
            edges[Vertex(w, c)].Some? :: MapCoords(w, edges[Vertex(w, c)].value)
  }

  /** The invariant of the final loop: the grid shows the rooms and tree edges of the
      vertices below `i`, and walls elsewhere. */
  ghost predicate CarveInv(maze: Grid<CellState>, w: int, h: int, edges: seq<Option<int>>, i: int) {
    w > 0 && IsGrid(maze, 2 * w + 1, 2 * h + 1) &&
    forall y, x :: 0 <= y < 2 * h + 1 && 0 <= x < 2 * w + 1 ==>
      maze[y][x] == CarvedCell(2 * w + 1, 2 * h + 1, x, y, CarvedUpTo(w, h, i), ParentUpTo(w, h, edges, i))
  }

  /** Passing vertex `i` adds its room, and its edge if it has one. */
  lemma UpToNext(w: int, h: int, edges: seq<Option<int>>, i: int)
    requires w > 0 && h > 0 && |edges| == w * h && 0 <= i < w * h
    ensures CarvedUpTo(w, h, i + 1) == CarvedUpTo(w, h, i) + {MapCoords(w, i)}
    ensures MapCoords(w, i) !in ParentUpTo(w, h, edges, i)
    ensures ParentUpTo(w, h, edges, i + 1) ==
      if edges[i].Some? then ParentUpTo(w, h, edges, i)[MapCoords(w, i) := MapCoords(w, edges[i].value)]
      else ParentUpTo(w, h, edges, i)
  {
    var c := MapCoords(w, i);
    MapCoordsIsRoom(w, h, i);
    assert c in Rooms(2 * w + 1, 2 * h + 1);
    forall d | d in Rooms(2 * w + 1, 2 * h + 1) && Vertex(w, d) == i
      ensures d == c
    {
      VertexOfRoom(w, h, d);
    }
  }

  /** Once every vertex is visited and carved, the grid is a perfect maze whose
      tree is the one given by `edges`, rooted at the first vertex visited. */
  lemma PrimFinish(maze: Grid<CellState>, w: int, h: int, edges: seq<Option<int>>,
                   rank: map<int, nat>, root: int)
    requires SpanningTree(w, h, edges, rank, root)
    requires CarveInv(maze, w, h, edges, w * h)
    ensures PerfectMaze(maze, 2 * w + 1, 2 * h + 1)
    ensures MazeShape(maze, 2 * w + 1, 2 * h + 1)
  {
    var W, H, n := 2 * w + 1, 2 * h + 1, w * h;
    assert ValidSize(W, H);
    var rootRoom := MapCoords(w, root);
    MapCoordsIsRoom(w, h, root);
    var parent := ParentUpTo(w, h, edges, n);
    var rankR := map c | c in Rooms(W, H) && Vertex(w, c) in rank :: rank[Vertex(w, c)];
    forall c | c in Rooms(W, H)
      ensures c in CarvedUpTo(w, h, n) && c in rankR
    {
      VertexOfRoom(w, h, c);
    }
    assert CarvedUpTo(w, h, n) == Rooms(W, H);
    forall r | r in parent
      ensures IsRoomAt(W, H, r) && r != rootRoom && IsRoomAt(W, H, parent[r]) && Adjacent(r, parent[r])
      ensures r in rankR && parent[r] in rankR && rankR[parent[r]] < rankR[r]
    {
      var u := Vertex(w, r);
      VertexOfRoom(w, h, r);
      var p := edges[u].value;
      MapCoordsIsRoom(w, h, p);
      EdgeIsAdjacent(w, h, u, p);
      assert Rooms(W, H) == CarvedUpTo(w, h, n);
    }
    forall r | IsRoomAt(W, H, r) && r != rootRoom
      ensures r in parent
    {
      VertexOfRoom(w, h, r);
      assert r in Rooms(W, H);
    }
    forall r | IsRoomAt(W, H, r)
      ensures r in rankR
    {
      assert r in Rooms(W, H);
    }
    assert TreeWitness(maze, W, H, rootRoom, parent, rankR);
    PerfectMazeShape(maze, W, H);
  }
}
