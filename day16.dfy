/** Day 16, `part1` and `part2` of src/bin/day16.rs from the input text to the
    answer: parse the maze, build the junction graph, find the start and end
    nodes, then ask for the least score (part 1) or count the cells on every
    least-score path (part 2). */
module Day16 {
  import opened Wrappers
  import opened Vectors
  import opened Text
  import opened Day16Maze
  import opened Day16Graph
  import opened Day16Walks
  import opened Day16Solver
  import opened Day16Tiles

  /** Why a part gives no answer: the parse failed, or the end cannot be
      reached (where the source panics on `path_lengths[&end]` and on
      `remove(&end).unwrap()`). */
  datatype SolveError = Parse(error: ParseError) | Unreachable

  /** The text is a rectangle of rows with a wall all around it. */
  predicate WalledInText(lines: seq<string>) {
    && |lines| > 0
    && (forall y :: 0 <= y < |lines| ==> |lines[y]| == |lines[0]|)
    && (forall y, x ::
          0 <= y < |lines| && 0 <= x < |lines[0]| && (y == 0 || y == |lines| - 1 || x == 0 || x == |lines[0]| - 1)
          ==> lines[y][x] == '#')
  }

  /** `m` is the maze the text describes, as the parse promises it. */
  ghost predicate MazeOf(lines: seq<string>, m: Maze) {
    && |m.grid| == |lines|
    && (forall y :: 0 <= y < |lines| ==> |m.grid[y]| == |lines[y]|)
    && (forall y, x :: 0 <= y < |lines| && 0 <= x < |lines[y]| ==> Ok(m.grid[y][x]) == PositionTypeOf(lines[y][x]))
    && UniqueAt(lines, 'S', m.start) && UniqueAt(lines, 'E', m.end)
  }

  /** One text describes one maze. */
  lemma MazeOfUnique(lines: seq<string>, m: Maze, m': Maze)
    requires MazeOf(lines, m) && MazeOf(lines, m')
    ensures m == m'
  {
    forall y | 0 <= y < |lines|
      ensures m.grid[y] == m'.grid[y]
    {
      forall x | 0 <= x < |lines[y]|
        ensures m.grid[y][x] == m'.grid[y][x]
      {
        assert PositionTypeOf(lines[y][x]) == Ok(m.grid[y][x]) == Ok(m'.grid[y][x]);
      }
    }
  }

  /** The walled-in text gives a walled-in maze, so every edge walk ends. */
  lemma MazeWalledIn(lines: seq<string>, m: Maze)
    requires MazeOf(lines, m) && WalledInText(lines)
    ensures WalledIn(m.grid)
  {
    forall y, x | 0 <= y < |m.grid| && 0 <= x < |m.grid[0]| && OnBorder(m.grid, x, y)
      ensures m.grid[y][x] == Wall
    {
      assert Ok(m.grid[y][x]) == PositionTypeOf(lines[y][x]);
    }
  }

  /** The start and the end are open cells. */
  lemma EndsOpen(lines: seq<string>, m: Maze)
    requires MazeOf(lines, m)
    ensures Open(m.grid, m.start) && Open(m.grid, m.end)
  {
    assert Ok(m.grid[m.start.y][m.start.x]) == PositionTypeOf('S');
    assert Ok(m.grid[m.end.y][m.end.x]) == PositionTypeOf('E');
  }

  /** `g` is the junction graph of `m`: its nodes are the node cells in
      row-major order at their costs, and its edges join exactly the pairs of
      nodes in sight of each other, once each, at the leg cost. */
  ghost predicate JunctionGraph(m: Maze, g: Graph) {
    && (forall k :: 0 <= k < |g.nodes| ==>
          IsNodePosition(m, g.nodes[k].position) && g.nodes[k].cost == NodeCost(m, g.nodes[k].position))
    && (forall p :: IsNodePosition(m, p) ==> HasNodeAt(g.nodes, p))
    && RowMajorSorted(g.nodes)
    && EdgesOk(m, g.nodes, g.edges) && UniquePairs(g.edges)
    && (forall i :: 0 <= i < |g.nodes| ==> Covered(m, g.nodes, g.edges, i))
  }

  /** The node and edge loops of `part1` and `part2`. */
  method BuildGraph(m: Maze) returns (g: Graph)
    requires WalledIn(m.grid)
    ensures JunctionGraph(m, g)
  {
    var nodes := BuildNodes(m);
    SortedDistinct(nodes);
    var edges := BuildEdges(m, nodes);
    g := Graph(nodes, edges);
  }

  /** The junction graph is one the searches accept: each edge joins two
      distinct nodes and costs at least the one cell it spans. */
  lemma JunctionGraphValid(m: Maze, g: Graph)
    requires JunctionGraph(m, g)
    ensures ValidGraph(g)
  {
    forall k | 0 <= k < |g.edges|
      ensures g.edges[k].cost >= 1
    {
      var e := g.edges[k];
      assert EdgeOk(m, g.nodes, e);
      var p := g.nodes[e.source].position;
      var q := g.nodes[e.target].position;
      assert ChebyshevDistance(p, q) >= 1;
    }
  }

  /** `graph.node_indices().find(|&node| graph[node].position == p)`: the first
      node at `p`. */
  function FindNode(nodes: seq<Node>, p: IVec2): (r: Option<nat>)
    ensures r.Some? ==>
      r.value < |nodes| && nodes[r.value].position == p && forall k :: 0 <= k < r.value ==> nodes[k].position != p
    ensures r.None? <==> !HasNodeAt(nodes, p)
  {
    if nodes == [] then None
    else if nodes[0].position == p then Some(0)
    else match FindNode(nodes[1..], p)
      case None =>
        assert forall k :: 1 <= k < |nodes| ==> nodes[k] == nodes[1..][k - 1];
        None
      case Some(i) => Some(i + 1)
  }

  /** Everything the parse and graph construction leave for the searches:
      the maze of the text, its junction graph, and the nodes of the start
      and the end. */
  ghost predicate Instance(lines: seq<string>, m: Maze, g: Graph, s: nat, t: nat) {
    MazeOf(lines, m) && JunctionGraph(m, g)
    && s < |g.nodes| && g.nodes[s].position == m.start
    && t < |g.nodes| && g.nodes[t].position == m.end
  }

  /** Parse and build: the steps both parts share up to the search. The
      `unwrap`s of the node lookups never fail, since the start and the end
      are node cells. */
  method Prepare(input: string) returns (r: Result<(Maze, Graph, nat, nat), ParseError>)
    requires WellFormedText(Lines(input)) ==> WalledInText(Lines(input))
    ensures r.Ok? <==> WellFormedText(Lines(input))
    ensures r.Ok? ==> Instance(Lines(input), r.value.0, r.value.1, r.value.2, r.value.3)
  {
    var lines := Lines(input);
    var parsed := ParseMaze(lines);
    if parsed.Err? {
      return Err(parsed.error);
    }
    var m := parsed.value;
    MazeWalledIn(lines, m);
    var g := BuildGraph(m);
    EndsOpen(lines, m);
    assert IsNodePosition(m, m.start) && IsNodePosition(m, m.end);
    var s := FindNode(g.nodes, m.start);
    var t := FindNode(g.nodes, m.end);
    r := Ok((m, g, s.value, t.value));
  }

  /** `algo::dijkstra(&graph, start, Some(end), ..)[&end]`, specified by its
      result: the least walk cost from `s` to `t`, or nothing when `t` cannot
      be reached. The edge cost passed in is the cost of the node the edge
      leaves plus the edge's own cost, as `WalkCost` sums it. */
  method Dijkstra(g: Graph, s: nat, t: nat) returns (r: Option<nat>)
    requires ValidGraph(g) && s < |g.nodes| && t < |g.nodes|
    ensures r.Some? <==> Reachable(g, s, t)
    ensures r.Some? ==> IsDistance(g, s, t, r.value)
  {
    var optimal := TieTrackingSearch(g, s);
    if t in optimal {
      r := Some(optimal[t].0);
    } else {
      r := None;
    }
  }

  /** `part1`: the lowest score from the start to the end. */
  method Part1(input: string) returns (r: Result<nat, SolveError>)
    requires WellFormedText(Lines(input)) ==> WalledInText(Lines(input))
    ensures r.Err? && r.error.Parse? <==> !WellFormedText(Lines(input))
    ensures r.Ok? ==> exists m, g, s, t :: Instance(Lines(input), m, g, s, t) && IsDistance(g, s, t, r.value)
    ensures r == Err(Unreachable) ==> exists m, g, s, t :: Instance(Lines(input), m, g, s, t) && !Reachable(g, s, t)
  {
    var prepared := Prepare(input);
    if prepared.Err? {
      return Err(Parse(prepared.error));
    }
    var (m, g, s, t) := prepared.value;
    JunctionGraphValid(m, g);
    var d := Dijkstra(g, s, t);
    if d.None? {
      return Err(Unreachable);
    }
    r := Ok(d.value);
  }

  /** `part2`: the number of cells that lie on some least-score path. */
  method Part2(input: string) returns (r: Result<nat, SolveError>)
    requires WellFormedText(Lines(input)) ==> WalledInText(Lines(input))
    ensures r.Err? && r.error.Parse? <==> !WellFormedText(Lines(input))
    ensures r.Ok? ==> exists m, g, s, t ::
      Instance(Lines(input), m, g, s, t) && Reachable(g, s, t) && r.value == |Tiles(g, OptimalEdges(g, s, t))|
    ensures r == Err(Unreachable) ==> exists m, g, s, t :: Instance(Lines(input), m, g, s, t) && !Reachable(g, s, t)
  {
    var prepared := Prepare(input);
    if prepared.Err? {
      return Err(Parse(prepared.error));
    }
    var (m, g, s, t) := prepared.value;
    JunctionGraphValid(m, g);
    var optimal := TieTrackingSearch(g, s);
    if t !in optimal {
      return Err(Unreachable);
    }
    var positions := Backtrack(g, optimal, t);
    BacktrackMeetsOptimalEdges(g, s, optimal, t);
    r := Ok(|positions|);
  }
}
