/** Day 16, the junction graph that `part1` and `part2` build from the maze
    (src/bin/day16.rs:125-216): the start, the end and every open corner or
    junction become nodes, and every two nodes that see each other along a
    row or a column are joined by one edge. */
module Day16Graph {
  import opened Wrappers
  import opened Vectors
  import opened Day16Maze

  /** The cost of a quarter turn, carried by every junction node. */
  const TURN_COST: nat := 1000

  datatype Node = Node(cost: nat, position: IVec2)

  /** An undirected edge; `source` and `target` are node indices. */
  datatype Edge = Edge(source: nat, target: nat, cost: nat)

  datatype Graph = Graph(nodes: seq<Node>, edges: seq<Edge>)

  // ---------------------------------------------------------------- nodes

  predicate OpenToward(grid: seq<seq<PositionType>>, p: IVec2, d: Direction) {
    Open(grid, p.Add(Xy(d)))
  }

  /** An open neighbour along the x axis and one along the y axis: the two
      open neighbours that are not opposite each other. */
  predicate HasTurn(grid: seq<seq<PositionType>>, p: IVec2) {
    (OpenToward(grid, p, East) || OpenToward(grid, p, West))
    && (OpenToward(grid, p, North) || OpenToward(grid, p, South))
  }

  /** The cells that become nodes: open cells that are the start, the end, or
      a corner or junction. Straight corridors and dead ends are not nodes. */
  predicate IsNodePosition(m: Maze, p: IVec2) {
    Open(m.grid, p) && (p == m.start || p == m.end || HasTurn(m.grid, p))
  }

  function NodeCost(m: Maze, p: IVec2): nat {
    if p == m.start || p == m.end then 0 else TURN_COST
  }

  /** The position of `d` in `ALL`. */
  function Rank(d: Direction): (k: nat)
    ensures k < |ALL| && ALL[k] == d
  {
    match d
    case East => 0
    case North => 1
    case South => 2
    case West => 3
  }

  /** Two open neighbours, neither the other nor its inverse, make a turn. */
  lemma TurnOfTwo(grid: seq<seq<PositionType>>, p: IVec2, d1: Direction, d2: Direction)
    requires d1 != d2 && d2 != Inverse(d1)
    requires OpenToward(grid, p, d1) && OpenToward(grid, p, d2)
    ensures HasTurn(grid, p)
  {
  }

  /** The inner loop of node construction: facings are tried in `ALL` order,
      and a cell is a junction as soon as an open facing finds an earlier open
      facing other than its own inverse. */
  method HasOpenTurn(grid: seq<seq<PositionType>>, p: IVec2) returns (b: bool)
    ensures b <==> HasTurn(grid, p)
  {
    var seen: set<Direction> := {};
    var k := 0;
    while k < |ALL|
      invariant 0 <= k <= |ALL|
      invariant forall d :: d in seen <==> Rank(d) < k && OpenToward(grid, p, d)
      invariant forall d1, d2 :: d1 in seen && d2 in seen ==> d2 == d1 || d2 == Inverse(d1)
    {
      var d := ALL[k];
      assert Rank(d) == k;
      if OpenToward(grid, p, d) {
        if exists d' :: d' in seen && d' != Inverse(d) {
          var d' :| d' in seen && d' != Inverse(d);
          TurnOfTwo(grid, p, d, d');
          return true;
        }
        seen := seen + {d};
      }
      k := k + 1;
    }
    return false;
  }

  predicate HasNodeAt(nodes: seq<Node>, p: IVec2) {
    exists k :: 0 <= k < |nodes| && nodes[k].position == p
  }

  predicate RowMajorBefore(p: IVec2, q: IVec2) {
    p.y < q.y || (p.y == q.y && p.x < q.x)
  }

  predicate RowMajorSorted(nodes: seq<Node>) {
    forall k, k' :: 0 <= k < k' < |nodes| ==> RowMajorBefore(nodes[k].position, nodes[k'].position)
  }

  /** What node construction knows after visiting every cell before (x, y). */
  ghost predicate NodesSoFar(m: Maze, nodes: seq<Node>, x: int, y: int) {
    && (forall k :: 0 <= k < |nodes| ==>
          IsNodePosition(m, nodes[k].position) && nodes[k].cost == NodeCost(m, nodes[k].position)
          && ScannedBefore(nodes[k].position, x, y))
    && (forall p :: ScannedBefore(p, x, y) && IsNodePosition(m, p) ==> HasNodeAt(nodes, p))
    && RowMajorSorted(nodes)
  }

  /** Node construction, in the row-major order of `graph.add_node`: the nodes
      are exactly the node cells, each once, with cost 0 at the start and end
      and the turn cost elsewhere. */
  method BuildNodes(m: Maze) returns (nodes: seq<Node>)
    ensures forall k :: 0 <= k < |nodes| ==>
      IsNodePosition(m, nodes[k].position) && nodes[k].cost == NodeCost(m, nodes[k].position)
    ensures forall p :: IsNodePosition(m, p) ==> HasNodeAt(nodes, p)
    ensures RowMajorSorted(nodes)
  {
    nodes := [];
    var y := 0;
    while y < |m.grid|
      invariant 0 <= y <= |m.grid|
      invariant NodesSoFar(m, nodes, 0, y)
    {
      var x := 0;
      while x < |m.grid[y]|
        invariant 0 <= x <= |m.grid[y]|
        invariant NodesSoFar(m, nodes, x, y)
      {
        var p := IVec2(x, y);
        ghost var before := nodes;
        if m.grid[y][x] == Wall {
        } else if p == m.start || p == m.end {
          nodes := nodes + [Node(0, p)];
        } else {
          var turn := HasOpenTurn(m.grid, p);
          if turn {
            nodes := nodes + [Node(TURN_COST, p)];
          }
        }
        NodeStep(m, before, nodes, x, y);
        x := x + 1;
      }
      NodeRowDone(m, nodes, y);
      y := y + 1;
    }
    forall p | IsNodePosition(m, p)
      ensures HasNodeAt(nodes, p)
    {
      assert ScannedBefore(p, 0, |m.grid|);
    }
  }

  lemma NodeStep(m: Maze, before: seq<Node>, nodes: seq<Node>, x: int, y: int)
    requires 0 <= y < |m.grid| && 0 <= x < |m.grid[y]| && NodesSoFar(m, before, x, y)
    requires IsNodePosition(m, IVec2(x, y)) ==> nodes == before + [Node(NodeCost(m, IVec2(x, y)), IVec2(x, y))]
    requires !IsNodePosition(m, IVec2(x, y)) ==> nodes == before
    ensures NodesSoFar(m, nodes, x + 1, y)
  {
    var p := IVec2(x, y);
    forall q | ScannedBefore(q, x + 1, y) && IsNodePosition(m, q)
      ensures HasNodeAt(nodes, q)
    {
      if q == p {
        assert nodes[|nodes| - 1].position == p;
      } else {
        assert ScannedBefore(q, x, y);
        var k :| 0 <= k < |before| && before[k].position == q;
        assert nodes[k] == before[k];
      }
    }
  }

  lemma NodeRowDone(m: Maze, nodes: seq<Node>, y: int)
    requires 0 <= y < |m.grid| && NodesSoFar(m, nodes, |m.grid[y]|, y)
    ensures NodesSoFar(m, nodes, 0, y + 1)
  {
    forall q | ScannedBefore(q, 0, y + 1) && IsNodePosition(m, q)
      ensures ScannedBefore(q, |m.grid[y]|, y)
    {
    }
  }

  lemma SortedDistinct(nodes: seq<Node>)
    requires RowMajorSorted(nodes)
    ensures forall k, k' :: 0 <= k < |nodes| && 0 <= k' < |nodes| && k != k' ==>
      nodes[k].position != nodes[k'].position
  {
    forall k, k' | 0 <= k < |nodes| && 0 <= k' < |nodes| && k != k'
      ensures nodes[k].position != nodes[k'].position
    {
      if k < k' {
        assert RowMajorBefore(nodes[k].position, nodes[k'].position);
      } else {
        assert RowMajorBefore(nodes[k'].position, nodes[k].position);
      }
    }
  }

  /** `position_to_node`: collecting (position, index) pairs into a map, where a
      later pair replaces an earlier one with the same position. */
  function PositionIndex(nodes: seq<Node>): (index: map<IVec2, nat>)
    ensures forall p :: p in index <==> HasNodeAt(nodes, p)
    ensures forall p :: p in index ==> index[p] < |nodes| && nodes[index[p]].position == p
  {
    if nodes == [] then map[]
    else
      var init := nodes[..|nodes| - 1];
      var last := nodes[|nodes| - 1];
      var index := PositionIndex(init)[last.position := |nodes| - 1];
      assert forall p :: HasNodeAt(init, p) ==> HasNodeAt(nodes, p) by {
        forall p | HasNodeAt(init, p)
          ensures HasNodeAt(nodes, p)
        {
          var k :| 0 <= k < |init| && init[k].position == p;
          assert nodes[k] == init[k];
        }
      }
      assert forall p :: HasNodeAt(nodes, p) ==> p == last.position || HasNodeAt(init, p) by {
        forall p | HasNodeAt(nodes, p)
          ensures p == last.position || HasNodeAt(init, p)
        {
          var k :| 0 <= k < |nodes| && nodes[k].position == p;
          if k < |init| {
            assert init[k] == nodes[k];
          }
        }
      }
      index
  }

  // ---------------------------------------------------------------- edges

  /** The maze the edge walk can rely on: rectangular, with walls all around,
      so that every walk from an open cell meets a wall before leaving the grid. */
  predicate WalledIn(grid: seq<seq<PositionType>>) {
    && |grid| > 0
    && (forall y :: 0 <= y < |grid| ==> |grid[y]| == |grid[0]|)
    && (forall y, x :: 0 <= y < |grid| && 0 <= x < |grid[0]| && OnBorder(grid, x, y) ==> grid[y][x] == Wall)
  }

  predicate OnBorder(grid: seq<seq<PositionType>>, x: int, y: int)
    requires |grid| > 0
  {
    y == 0 || y == |grid| - 1 || x == 0 || x == |grid[0]| - 1
  }

  predicate InGrid(grid: seq<seq<PositionType>>, p: IVec2)
    requires |grid| > 0
  {
    0 <= p.y < |grid| && 0 <= p.x < |grid[0]|
  }

  /** The cell `t` steps from `p` facing `d`. */
  function Step(p: IVec2, d: Direction, t: int): IVec2 {
    match d
    case East => IVec2(p.x + t, p.y)
    case North => IVec2(p.x, p.y - t)
    case South => IVec2(p.x, p.y + t)
    case West => IVec2(p.x - t, p.y)
  }

  /** Walking back from `t` steps ahead. */
  lemma StepBack(p: IVec2, d: Direction, t: int, u: int)
    ensures Step(Step(p, d, t), Inverse(d), u) == Step(p, d, t - u)
    ensures t >= 0 ==> ChebyshevDistance(p, Step(p, d, t)) == t
    ensures Step(p, d, 0) == p
  {
    match d
    case East =>
    case North =>
    case South =>
    case West =>
  }

  /** No wall in the first `t` cells from `p` facing `d`. */
  predicate ClearRay(grid: seq<seq<PositionType>>, p: IVec2, d: Direction, t: int) {
    forall u :: 1 <= u <= t ==> Cell(grid, Step(p, d, u)) != Some(Wall)
  }

  predicate InSightToward(grid: seq<seq<PositionType>>, p: IVec2, q: IVec2, d: Direction) {
    var t := ChebyshevDistance(p, q);
    t >= 1 && q == Step(p, d, t) && ClearRay(grid, p, d, t)
  }

  /** `q` lies straight ahead of `p` along a row or a column, with no wall
      between them and none at `q`. */
  predicate InSight(grid: seq<seq<PositionType>>, p: IVec2, q: IVec2) {
    InSightToward(grid, p, q, East) || InSightToward(grid, p, q, North)
    || InSightToward(grid, p, q, South) || InSightToward(grid, p, q, West)
  }

  /** The edge cost between the cells `p` and `q`: their distance, plus a turn
      when the leg at the start `s` does not head East. Written from `p`'s side,
      which gives the same result as from `q`'s side (see `LegCostSymmetric`). */
  function LegCost(p: IVec2, q: IVec2, s: IVec2): nat {
    var east := q.y == p.y && q.x > p.x;
    var west := q.y == p.y && q.x < p.x;
    ChebyshevDistance(p, q) + (if (p == s && !east) || (q == s && !west) then TURN_COST else 0)
  }

  lemma LegCostSymmetric(p: IVec2, q: IVec2, s: IVec2)
    ensures LegCost(p, q, s) == LegCost(q, p, s)
  {
  }

  /** From an open cell, sight runs both ways. */
  lemma InSightSymmetric(grid: seq<seq<PositionType>>, p: IVec2, q: IVec2)
    requires Open(grid, p) && InSight(grid, p, q)
    ensures InSight(grid, q, p)
  {
    if InSightToward(grid, p, q, East) {
      InSightTowardSymmetric(grid, p, q, East);
    } else if InSightToward(grid, p, q, North) {
      InSightTowardSymmetric(grid, p, q, North);
    } else if InSightToward(grid, p, q, South) {
      InSightTowardSymmetric(grid, p, q, South);
    } else {
      InSightTowardSymmetric(grid, p, q, West);
    }
  }

  lemma InSightTowardSymmetric(grid: seq<seq<PositionType>>, p: IVec2, q: IVec2, d: Direction)
    requires Open(grid, p) && InSightToward(grid, p, q, d)
    ensures InSightToward(grid, q, p, Inverse(d))
  {
    var t := ChebyshevDistance(p, q);
    var d' := Inverse(d);
    assert q == Step(p, d, t) && ClearRay(grid, p, d, t);
    StepBack(p, d, t, t);
    forall u | 1 <= u <= t
      ensures Cell(grid, Step(q, d', u)) != Some(Wall)
    {
      StepBack(p, d, t, u);
      if u < t {
        assert Cell(grid, Step(p, d, t - u)) != Some(Wall);
      } else {
        assert Step(p, d, t - u) == p;
      }
    }
    assert ChebyshevDistance(q, p) == t;
  }

  /** Whether `a` and `b` are the two ends of `e`, in either orientation. */
  predicate Joins(e: Edge, a: nat, b: nat) {
    (e.source == a && e.target == b) || (e.source == b && e.target == a)
  }

  predicate HasEdge(edges: seq<Edge>, a: nat, b: nat) {
    exists k :: 0 <= k < |edges| && Joins(edges[k], a, b)
  }

  /** Every pair joined in `edges` is still joined in `edges'`. */
  ghost predicate Grows(edges: seq<Edge>, edges': seq<Edge>) {
    forall x, y :: HasEdge(edges, x, y) ==> HasEdge(edges', x, y)
  }

  /** At most one edge per pair of nodes. */
  predicate UniquePairs(edges: seq<Edge>) {
    forall k, k' :: 0 <= k < k' < |edges| ==> !Joins(edges[k'], edges[k].source, edges[k].target)
  }

  /** `Graph::find_edge` on an undirected graph: an edge between `a` and `b`,
      whichever way round it was added. */
  function FindEdge(edges: seq<Edge>, a: nat, b: nat): (r: Option<nat>)
    ensures r.Some? ==> r.value < |edges| && Joins(edges[r.value], a, b)
    ensures r.None? <==> !HasEdge(edges, a, b)
  {
    if edges == [] then None
    else if Joins(edges[|edges| - 1], a, b) then Some(|edges| - 1)
    else FindEdge(edges[..|edges| - 1], a, b)
  }

  /** `Graph::update_edge`: set the weight of the edge between `a` and `b`, or
      add one when there is none. Afterwards an edge joins them at `cost`, no
      other edge has changed, and one edge per pair stays one edge per pair. */
  function UpdateEdge(edges: seq<Edge>, a: nat, b: nat, cost: nat): (r: seq<Edge>)
    ensures exists k :: 0 <= k < |r| && Joins(r[k], a, b) && r[k].cost == cost
    ensures |edges| <= |r| <= |edges| + 1
    ensures forall k :: 0 <= k < |edges| ==>
      r[k] == edges[k] || (Joins(edges[k], a, b) && r[k] == edges[k].(cost := cost))
    ensures |r| == |edges| + 1 ==> r[|edges|] == Edge(a, b, cost) && !HasEdge(edges, a, b)
    ensures Grows(edges, r)
    ensures UniquePairs(edges) ==> UniquePairs(r)
  {
    match FindEdge(edges, a, b)
    case Some(k) =>
      var r := edges[k := edges[k].(cost := cost)];
      assert Joins(r[k], a, b);
      assert Grows(edges, r) by {
        forall x, y | HasEdge(edges, x, y)
          ensures HasEdge(r, x, y)
        {
          var j :| 0 <= j < |edges| && Joins(edges[j], x, y);
          assert Joins(r[j], x, y);
        }
      }
      r
    case None =>
      var r := edges + [Edge(a, b, cost)];
      assert Joins(r[|edges|], a, b);
      assert Grows(edges, r) by {
        forall x, y | HasEdge(edges, x, y)
          ensures HasEdge(r, x, y)
        {
          var j :| 0 <= j < |edges| && Joins(edges[j], x, y);
          assert r[j] == edges[j];
        }
      }
      r
  }

  /** An edge as construction promises it: two distinct nodes in sight of each
      other, at the leg cost. */
  predicate EdgeOk(m: Maze, nodes: seq<Node>, e: Edge) {
    e.source < |nodes| && e.target < |nodes| && e.source != e.target
    && InSight(m.grid, nodes[e.source].position, nodes[e.target].position)
    && e.cost == LegCost(nodes[e.source].position, nodes[e.target].position, m.start)
  }

  predicate EdgesOk(m: Maze, nodes: seq<Node>, edges: seq<Edge>) {
    forall k :: 0 <= k < |edges| ==> EdgeOk(m, nodes, edges[k])
  }

  predicate DistinctPositions(nodes: seq<Node>) {
    forall k, k' :: 0 <= k < |nodes| && 0 <= k' < |nodes| && k != k' ==> nodes[k].position != nodes[k'].position
  }

  /** Node `i` is joined to every node it sees facing `d` within `s` steps. */
  ghost predicate CoveredToward(m: Maze, nodes: seq<Node>, edges: seq<Edge>, i: nat, d: Direction, s: int)
    requires i < |nodes|
  {
    forall j :: 0 <= j < |nodes| && ChebyshevDistance(nodes[i].position, nodes[j].position) <= s ==>
      InSightToward(m.grid, nodes[i].position, nodes[j].position, d) ==> HasEdge(edges, i, j)
  }

  /** Node `i` is joined to every node it sees. */
  ghost predicate Covered(m: Maze, nodes: seq<Node>, edges: seq<Edge>, i: nat)
    requires i < |nodes|
  {
    forall j :: 0 <= j < |nodes| ==>
      InSight(m.grid, nodes[i].position, nodes[j].position) ==> HasEdge(edges, i, j)
  }

  /** How many more steps facing `d` stay inside the grid. */
  function Room(grid: seq<seq<PositionType>>, p: IVec2, d: Direction): int
    requires |grid| > 0
  {
    match d
    case East => |grid[0]| - p.x
    case North => p.y
    case South => |grid| - p.y
    case West => p.x
  }

  /** Inside a walled-in grid, one step from a cell that is not a wall stays
      inside. */
  lemma StepInside(grid: seq<seq<PositionType>>, p: IVec2, d: Direction)
    requires WalledIn(grid) && InGrid(grid, p) && Cell(grid, p) != Some(Wall)
    ensures InGrid(grid, Step(p, d, 1)) && 0 <= Room(grid, Step(p, d, 1), d) < Room(grid, p, d)
    ensures Step(p, d, 1) == p.Add(Xy(d))
  {
    assert !OnBorder(grid, p.x, p.y);
  }

  /** The edge loop of `part1` and `part2`: from every node, walk each facing
      until a wall and join the node to every node met on the way. Every edge
      joins two nodes in sight of each other at the leg cost, every two such
      nodes are joined, and by one edge only. */
  method BuildEdges(m: Maze, nodes: seq<Node>) returns (edges: seq<Edge>)
    requires WalledIn(m.grid)
    requires forall k :: 0 <= k < |nodes| ==> Open(m.grid, nodes[k].position)
    requires DistinctPositions(nodes)
    ensures EdgesOk(m, nodes, edges)
    ensures forall i :: 0 <= i < |nodes| ==> Covered(m, nodes, edges, i)
    ensures UniquePairs(edges)
  {
    edges := [];
    var index := PositionIndex(nodes);
    var i := 0;
    while i < |nodes|
      invariant 0 <= i <= |nodes|
      invariant EdgesOk(m, nodes, edges) && UniquePairs(edges)
      invariant forall i' :: 0 <= i' < i ==> Covered(m, nodes, edges, i')
    {
      ghost var atStart := edges;
      var k := 0;
      while k < |ALL|
        invariant 0 <= k <= |ALL|
        invariant EdgesOk(m, nodes, edges) && UniquePairs(edges) && Grows(atStart, edges)
        invariant forall k' :: 0 <= k' < k ==> CoveredToward(m, nodes, edges, i, ALL[k'], |m.grid| + |m.grid[0]|)
      {
        ghost var before := edges;
        edges := WalkEdges(m, nodes, index, i, ALL[k], edges);
        forall k' | 0 <= k' < k
          ensures CoveredToward(m, nodes, edges, i, ALL[k'], |m.grid| + |m.grid[0]|)
        {
          CoveredTowardGrows(m, nodes, before, edges, i, ALL[k'], |m.grid| + |m.grid[0]|);
        }
        k := k + 1;
      }
      NodeDone(m, nodes, edges, i);
      forall i' | 0 <= i' < i
        ensures Covered(m, nodes, edges, i')
      {
        CoveredGrows(m, nodes, atStart, edges, i');
      }
      i := i + 1;
    }
  }

  lemma CoveredTowardGrows(m: Maze, nodes: seq<Node>, edges: seq<Edge>, edges': seq<Edge>, i: nat, d: Direction, s: int)
    requires i < |nodes| && CoveredToward(m, nodes, edges, i, d, s) && Grows(edges, edges')
    ensures CoveredToward(m, nodes, edges', i, d, s)
  {
  }

  lemma CoveredGrows(m: Maze, nodes: seq<Node>, edges: seq<Edge>, edges': seq<Edge>, i: nat)
    requires i < |nodes| && Covered(m, nodes, edges, i) && Grows(edges, edges')
    ensures Covered(m, nodes, edges', i)
  {
  }

  /** Within a walled-in grid no two cells are further apart than its width
      plus its height, so covering every facing to that distance covers all. */
  lemma NodeDone(m: Maze, nodes: seq<Node>, edges: seq<Edge>, i: nat)
    requires WalledIn(m.grid) && i < |nodes| && Open(m.grid, nodes[i].position)
    requires forall j :: 0 <= j < |nodes| ==> Open(m.grid, nodes[j].position)
    requires forall k' :: 0 <= k' < |ALL| ==> CoveredToward(m, nodes, edges, i, ALL[k'], |m.grid| + |m.grid[0]|)
    ensures Covered(m, nodes, edges, i)
  {
    forall j | 0 <= j < |nodes| && InSight(m.grid, nodes[i].position, nodes[j].position)
      ensures HasEdge(edges, i, j)
    {
      var d :| InSightToward(m.grid, nodes[i].position, nodes[j].position, d);
      assert CoveredToward(m, nodes, edges, i, ALL[Rank(d)], |m.grid| + |m.grid[0]|);
    }
  }

  /** One facing of the edge loop: the walk from node `i`, which joins it to
      every node it sees facing `d`. */
  method WalkEdges(m: Maze, nodes: seq<Node>, index: map<IVec2, nat>, i: nat, d: Direction, edges0: seq<Edge>)
    returns (edges: seq<Edge>)
    requires WalledIn(m.grid) && i < |nodes|
    requires forall k :: 0 <= k < |nodes| ==> Open(m.grid, nodes[k].position)
    requires DistinctPositions(nodes)
    requires forall p :: p in index <==> HasNodeAt(nodes, p)
    requires forall p :: p in index ==> index[p] < |nodes| && nodes[index[p]].position == p
    requires EdgesOk(m, nodes, edges0) && UniquePairs(edges0)
    ensures EdgesOk(m, nodes, edges) && UniquePairs(edges) && Grows(edges0, edges)
    ensures CoveredToward(m, nodes, edges, i, d, |m.grid| + |m.grid[0]|)
  {
    edges := edges0;
    var p := nodes[i].position;
    var position := p;
    ghost var s := 0;
    while true
      invariant 0 <= s && position == Step(p, d, s) && InGrid(m.grid, position)
      invariant Cell(m.grid, position) != Some(Wall)
      invariant ClearRay(m.grid, p, d, s)
      invariant EdgesOk(m, nodes, edges) && UniquePairs(edges) && Grows(edges0, edges)
      invariant CoveredToward(m, nodes, edges, i, d, s)
      decreases Room(m.grid, position, d)
    {
      StepInside(m.grid, position, d);
      position := position.Add(Xy(d));
      s := s + 1;
      if Cell(m.grid, position) == Some(Wall) {
        break;
      }
      if position in index {
        edges := MeetNode(m, nodes, i, index[position], d, s, edges0, edges);
      } else {
        WalkPassed(m, nodes, edges, i, d, s);
      }
    }
    WalkDone(m, nodes, edges, i, d, s);
  }

  /** The walk from node `i` facing `d` meets node `j` after `s` steps: the
      leg costs the distance, plus a turn when it leaves the start other than
      East or enters it other than West, and the edge between them is set to
      that cost. */
  method MeetNode(m: Maze, nodes: seq<Node>, i: nat, j: nat, d: Direction, ghost s: int,
                  ghost edges0: seq<Edge>, edges: seq<Edge>)
    returns (edges': seq<Edge>)
    requires i < |nodes| && j < |nodes| && s >= 1
    requires forall k :: 0 <= k < |nodes| ==> Open(m.grid, nodes[k].position)
    requires DistinctPositions(nodes)
    requires nodes[j].position == Step(nodes[i].position, d, s)
    requires ClearRay(m.grid, nodes[i].position, d, s - 1)
    requires EdgesOk(m, nodes, edges) && UniquePairs(edges) && Grows(edges0, edges)
    requires CoveredToward(m, nodes, edges, i, d, s - 1)
    ensures ClearRay(m.grid, nodes[i].position, d, s)
    ensures EdgesOk(m, nodes, edges') && UniquePairs(edges') && Grows(edges0, edges')
    ensures CoveredToward(m, nodes, edges', i, d, s)
  {
    var p := nodes[i].position;
    var cost := ChebyshevDistance(p, nodes[j].position);
    if (p == m.start && d != East) || (nodes[j].position == m.start && d != West) {
      cost := cost + TURN_COST;
    }
    WalkFound(m, nodes, edges0, edges, i, j, d, s, cost);
    edges' := UpdateEdge(edges, i, j, cost);
  }

  /** The walk meets node `j` after `s` clear steps and sets or adds the
      edge between `i` and `j`. */
  lemma WalkFound(m: Maze, nodes: seq<Node>, edges0: seq<Edge>, before: seq<Edge>,
                  i: nat, j: nat, d: Direction, s: int, cost: nat)
    requires i < |nodes| && j < |nodes| && s >= 1
    requires forall k :: 0 <= k < |nodes| ==> Open(m.grid, nodes[k].position)
    requires DistinctPositions(nodes)
    requires nodes[j].position == Step(nodes[i].position, d, s)
    requires ClearRay(m.grid, nodes[i].position, d, s - 1)
    requires var p := nodes[i].position;
      cost == ChebyshevDistance(p, nodes[j].position)
        + (if (p == m.start && d != East) || (nodes[j].position == m.start && d != West) then TURN_COST else 0)
    requires EdgesOk(m, nodes, before) && UniquePairs(before) && Grows(edges0, before)
    requires CoveredToward(m, nodes, before, i, d, s - 1)
    ensures var edges := UpdateEdge(before, i, j, cost);
      && ClearRay(m.grid, nodes[i].position, d, s)
      && EdgesOk(m, nodes, edges) && UniquePairs(edges) && Grows(edges0, edges)
      && CoveredToward(m, nodes, edges, i, d, s)
  {
    var edges := UpdateEdge(before, i, j, cost);
    FoundInSight(m, nodes, i, j, d, s, cost);
    FoundEdgesOk(m, nodes, before, edges, i, j, cost);
    FoundCovered(m, nodes, before, edges, i, j, d, s);
  }

  /** The node met is in sight, both ways round, at the leg cost. */
  lemma FoundInSight(m: Maze, nodes: seq<Node>, i: nat, j: nat, d: Direction, s: int, cost: nat)
    requires i < |nodes| && j < |nodes| && s >= 1
    requires Open(m.grid, nodes[i].position) && Open(m.grid, nodes[j].position)
    requires nodes[j].position == Step(nodes[i].position, d, s)
    requires ClearRay(m.grid, nodes[i].position, d, s - 1)
    requires var p := nodes[i].position;
      cost == ChebyshevDistance(p, nodes[j].position)
        + (if (p == m.start && d != East) || (nodes[j].position == m.start && d != West) then TURN_COST else 0)
    ensures ClearRay(m.grid, nodes[i].position, d, s)
    ensures InSightToward(m.grid, nodes[i].position, nodes[j].position, d)
    ensures i != j
    ensures EdgeOk(m, nodes, Edge(i, j, cost)) && EdgeOk(m, nodes, Edge(j, i, cost))
  {
    var p := nodes[i].position;
    var q := nodes[j].position;
    StepBack(p, d, s, 0);
    assert InSightToward(m.grid, p, q, d);
    assert i != j;
    assert cost == LegCost(p, q, m.start) by {
      match d
      case East =>
      case North =>
      case South =>
      case West =>
    }
    InSightSymmetric(m.grid, p, q);
    LegCostSymmetric(p, q, m.start);
  }

  /** Setting or adding the edge between `i` and `j` keeps every edge as
      construction promises it. */
  lemma FoundEdgesOk(m: Maze, nodes: seq<Node>, before: seq<Edge>, edges: seq<Edge>, i: nat, j: nat, cost: nat)
    requires EdgesOk(m, nodes, before)
    requires EdgeOk(m, nodes, Edge(i, j, cost)) && EdgeOk(m, nodes, Edge(j, i, cost))
    requires |before| <= |edges| <= |before| + 1
    requires forall k :: 0 <= k < |before| ==>
      edges[k] == before[k] || (Joins(before[k], i, j) && edges[k] == before[k].(cost := cost))
    requires |edges| == |before| + 1 ==> edges[|before|] == Edge(i, j, cost)
    ensures EdgesOk(m, nodes, edges)
  {
    forall k | 0 <= k < |edges|
      ensures EdgeOk(m, nodes, edges[k])
    {
    }
  }

  /** After the edge to `j`, node `i` is joined to every node it sees within
      `s` steps facing `d`: `j` is the only one at distance `s`. */
  lemma FoundCovered(m: Maze, nodes: seq<Node>, before: seq<Edge>, edges: seq<Edge>, i: nat, j: nat, d: Direction, s: int)
    requires i < |nodes| && j < |nodes| && s >= 1
    requires DistinctPositions(nodes)
    requires nodes[j].position == Step(nodes[i].position, d, s)
    requires CoveredToward(m, nodes, before, i, d, s - 1)
    requires exists k :: 0 <= k < |edges| && Joins(edges[k], i, j)
    requires Grows(before, edges)
    ensures CoveredToward(m, nodes, edges, i, d, s)
  {
    var p := nodes[i].position;
    forall j' | 0 <= j' < |nodes| && ChebyshevDistance(p, nodes[j'].position) <= s
      && InSightToward(m.grid, p, nodes[j'].position, d)
      ensures HasEdge(edges, i, j')
    {
      if ChebyshevDistance(p, nodes[j'].position) == s {
        assert nodes[j'].position == nodes[j].position;
        assert j' == j;
      }
    }
  }


  /** The walk passes a cell that is not a node. */
  lemma WalkPassed(m: Maze, nodes: seq<Node>, edges: seq<Edge>, i: nat, d: Direction, s: int)
    requires i < |nodes| && s >= 1
    requires !HasNodeAt(nodes, Step(nodes[i].position, d, s))
    requires Cell(m.grid, Step(nodes[i].position, d, s)) != Some(Wall)
    requires ClearRay(m.grid, nodes[i].position, d, s - 1)
    requires CoveredToward(m, nodes, edges, i, d, s - 1)
    ensures ClearRay(m.grid, nodes[i].position, d, s)
    ensures CoveredToward(m, nodes, edges, i, d, s)
  {
    var p := nodes[i].position;
    forall j | 0 <= j < |nodes| && ChebyshevDistance(p, nodes[j].position) <= s
      && InSightToward(m.grid, p, nodes[j].position, d)
      ensures HasEdge(edges, i, j)
    {
      if ChebyshevDistance(p, nodes[j].position) == s {
        assert false;
      }
    }
  }

  /** The walk stops at a wall after `s` steps: nothing beyond it is in sight. */
  lemma WalkDone(m: Maze, nodes: seq<Node>, edges: seq<Edge>, i: nat, d: Direction, s: int)
    requires i < |nodes| && s >= 1 && Cell(m.grid, Step(nodes[i].position, d, s)) == Some(Wall)
    requires CoveredToward(m, nodes, edges, i, d, s - 1)
    ensures CoveredToward(m, nodes, edges, i, d, |m.grid| + |m.grid[0]|)
  {
    var p := nodes[i].position;
    forall j | 0 <= j < |nodes| && InSightToward(m.grid, p, nodes[j].position, d)
      ensures ChebyshevDistance(p, nodes[j].position) <= s - 1
    {
      var t := ChebyshevDistance(p, nodes[j].position);
      if t >= s {
        assert false;
      }
    }
  }
}
