/** Day 16, part 2's backtrack (src/bin/day16.rs:432-479): starting from the
    tied-optimal edges recorded at the end, follow each edge back to the node
    it came from and take that node's recorded edges too, collecting every
    cell on the straight segment of each edge met. */
module Day16Tiles {
  import opened Wrappers
  import opened Vectors
  import opened Day16Maze
  import opened Day16Graph
  import opened Day16Walks
  import opened Day16Solver

  // ------------------------------------------------------------- cells

  /** The cells (x0, y) .. (x1, y). */
  function RowCells(y: int, x0: int, x1: int): (r: set<IVec2>)
    ensures forall c :: c in r <==> c.y == y && x0 <= c.x <= x1
    decreases x1 - x0
  {
    if x1 < x0 then {} else RowCells(y, x0, x1 - 1) + {IVec2(x1, y)}
  }

  /** The cells (x, y0) .. (x, y1). */
  function ColumnCells(x: int, y0: int, y1: int): (r: set<IVec2>)
    ensures forall c :: c in r <==> c.x == x && y0 <= c.y <= y1
    decreases y1 - y0
  {
    if y1 < y0 then {} else ColumnCells(x, y0, y1 - 1) + {IVec2(x, y1)}
  }

  /** The cells the backtrack inserts for an edge between `a` and `b`: from
      the component-wise minimum to the maximum, along x when both share a
      row and along y otherwise. */
  function SegmentCells(a: IVec2, b: IVec2): set<IVec2> {
    var lo := ComponentMin(a, b);
    var hi := ComponentMax(a, b);
    if lo.y == hi.y then RowCells(lo.y, lo.x, hi.x) else ColumnCells(lo.x, lo.y, hi.y)
  }

  /** The two insertion loops of the backtrack. */
  method InsertSegment(positions: set<IVec2>, a: IVec2, b: IVec2) returns (r: set<IVec2>)
    ensures r == positions + SegmentCells(a, b)
  {
    var lo := ComponentMin(a, b);
    var hi := ComponentMax(a, b);
    r := positions;
    var current := lo;
    if lo.y == hi.y {
      while current.x <= hi.x
        invariant current.y == lo.y && lo.x <= current.x <= hi.x + 1
        invariant r == positions + RowCells(lo.y, lo.x, current.x - 1)
        decreases hi.x - current.x
      {
        r := r + {current};
        current := current.Add(IVec2(1, 0));
      }
    } else {
      while current.y <= hi.y
        invariant current.x == lo.x && lo.y <= current.y <= hi.y + 1
        invariant r == positions + ColumnCells(lo.x, lo.y, current.y - 1)
        decreases hi.y - current.y
      {
        r := r + {current};
        current := current.Add(IVec2(0, 1));
      }
    }
  }

  /** For two cells in sight of each other the segment is the straight run of
      cells between them: both ends belong to it and none of its cells is a
      wall. */
  lemma SegmentInSight(grid: seq<seq<PositionType>>, p: IVec2, q: IVec2, d: Direction)
    requires Open(grid, p) && InSightToward(grid, p, q, d)
    ensures p in SegmentCells(p, q) && q in SegmentCells(p, q)
    ensures forall c :: c in SegmentCells(p, q) ==> Cell(grid, c) != Some(Wall)
  {
    var t := ChebyshevDistance(p, q);
    assert q == Step(p, d, t) && ClearRay(grid, p, d, t);
    forall c | c in SegmentCells(p, q)
      ensures Cell(grid, c) != Some(Wall)
    {
      var u := ChebyshevDistance(p, c);
      assert c == Step(p, d, u);
      if u > 0 {
        assert 1 <= u <= t;
      }
    }
  }

  /** The cells of edge `k`. */
  function EdgeCells(g: Graph, k: nat): set<IVec2> {
    if k < |g.edges| && g.edges[k].source < |g.nodes| && g.edges[k].target < |g.nodes| then
      SegmentCells(g.nodes[g.edges[k].source].position, g.nodes[g.edges[k].target].position)
    else {}
  }

  /** Every cell of a set of edges. */
  ghost function Tiles(g: Graph, ks: set<nat>): set<IVec2> {
    set k, c | k in ks && c in EdgeCells(g, k) :: c
  }

  lemma TilesUnion(g: Graph, a: set<nat>, b: set<nat>)
    ensures Tiles(g, a + b) == Tiles(g, a) + Tiles(g, b)
  {
  }

  lemma TilesSingle(g: Graph, k: nat)
    ensures Tiles(g, {k}) == EdgeCells(g, k)
  {
  }

  // ------------------------------------------------------------- the closure

  function Score(opt: Optimal, w: nat): nat {
    if w in opt then opt[w].0 else 0
  }

  function Ties(opt: Optimal, w: nat): seq<(nat, nat)> {
    if w in opt then opt[w].1 else []
  }

  /** The node a recorded (edge, node) pair comes from. */
  function Source(g: Graph, e: (nat, nat)): nat {
    if e.0 < |g.edges| then Other(g.edges[e.0], e.1) else e.1
  }

  /** The edges the backtrack meets from one recorded pair: its edge, and
      those met from the pairs recorded at the node it comes from. The score
      falls along every step, which bounds the recursion. */
  ghost function EntryEdges(g: Graph, opt: Optimal, e: (nat, nat)): set<nat>
    decreases Score(opt, e.1), 1, 0
  {
    var u := Source(g, e);
    {e.0} + (if Score(opt, u) < Score(opt, e.1) then ListEdges(g, opt, Ties(opt, u), Score(opt, e.1)) else {})
  }

  /** The edges met from a work list, counting the pairs scored below `bound`. */
  ghost function ListEdges(g: Graph, opt: Optimal, ws: seq<(nat, nat)>, bound: nat): set<nat>
    decreases bound, 0, |ws|
  {
    if ws == [] then {}
    else
      var e := ws[|ws| - 1];
      ListEdges(g, opt, ws[..|ws| - 1], bound) + (if Score(opt, e.1) < bound then EntryEdges(g, opt, e) else {})
  }

  /** The number of pops the backtrack makes from one pair. */
  ghost function EntryWeight(g: Graph, opt: Optimal, e: (nat, nat)): nat
    decreases Score(opt, e.1), 1, 0
  {
    var u := Source(g, e);
    1 + (if Score(opt, u) < Score(opt, e.1) then ListWeight(g, opt, Ties(opt, u), Score(opt, e.1)) else 0)
  }

  ghost function ListWeight(g: Graph, opt: Optimal, ws: seq<(nat, nat)>, bound: nat): nat
    decreases bound, 0, |ws|
  {
    if ws == [] then 0
    else
      var e := ws[|ws| - 1];
      ListWeight(g, opt, ws[..|ws| - 1], bound) + (if Score(opt, e.1) < bound then EntryWeight(g, opt, e) else 0)
  }

  lemma {:induction false} ListAppend(g: Graph, opt: Optimal, a: seq<(nat, nat)>, b: seq<(nat, nat)>, bound: nat)
    ensures ListEdges(g, opt, a + b, bound) == ListEdges(g, opt, a, bound) + ListEdges(g, opt, b, bound)
    ensures ListWeight(g, opt, a + b, bound) == ListWeight(g, opt, a, bound) + ListWeight(g, opt, b, bound)
    decreases |b|
  {
    if b == [] {
      assert a + b == a;
    } else {
      var b' := b[..|b| - 1];
      assert (a + b)[..|a + b| - 1] == a + b';
      assert (a + b)[|a + b| - 1] == b[|b| - 1];
      ListAppend(g, opt, a, b', bound);
    }
  }

  /** Every pair scored below both bounds: the bound makes no difference. */
  lemma {:induction false} ListBound(g: Graph, opt: Optimal, ws: seq<(nat, nat)>, b1: nat, b2: nat)
    requires forall i :: 0 <= i < |ws| ==> Score(opt, ws[i].1) < b1 && Score(opt, ws[i].1) < b2
    ensures ListEdges(g, opt, ws, b1) == ListEdges(g, opt, ws, b2)
    ensures ListWeight(g, opt, ws, b1) == ListWeight(g, opt, ws, b2)
    decreases |ws|
  {
    if ws != [] {
      ListBound(g, opt, ws[..|ws| - 1], b1, b2);
    }
  }

  /** An edge met from a list is met from one of its pairs. */
  lemma {:induction false} ListMember(g: Graph, opt: Optimal, ws: seq<(nat, nat)>, bound: nat, k: nat)
    requires k in ListEdges(g, opt, ws, bound)
    ensures exists i :: 0 <= i < |ws| && Score(opt, ws[i].1) < bound && k in EntryEdges(g, opt, ws[i])
    decreases |ws|
  {
    var e := ws[|ws| - 1];
    if k !in ListEdges(g, opt, ws[..|ws| - 1], bound) {
      assert Score(opt, e.1) < bound && k in EntryEdges(g, opt, e);
    } else {
      ListMember(g, opt, ws[..|ws| - 1], bound, k);
      var i :| 0 <= i < |ws| - 1 && Score(opt, ws[..|ws| - 1][i].1) < bound && k in EntryEdges(g, opt, ws[..|ws| - 1][i]);
      assert ws[..|ws| - 1][i] == ws[i];
    }
  }

  /** Every edge met from one of its pairs is met from the list. */
  lemma {:induction false} ListContains(g: Graph, opt: Optimal, ws: seq<(nat, nat)>, bound: nat, i: nat)
    requires i < |ws| && Score(opt, ws[i].1) < bound
    ensures EntryEdges(g, opt, ws[i]) <= ListEdges(g, opt, ws, bound)
    decreases |ws|
  {
    if i < |ws| - 1 {
      ListContains(g, opt, ws[..|ws| - 1], bound, i);
      assert ws[..|ws| - 1][i] == ws[i];
    }
  }

  // ------------------------------------------------------------- the loop

  /** A pair the search recorded: its edge exists and reaches the node at
      exactly the node's score, from a node settled earlier. */
  ghost predicate Recorded(g: Graph, opt: Optimal, e: (nat, nat), bound: nat) {
    e.0 < |g.edges| && Tight(g, opt, e.1, e.0) && Score(opt, e.1) < bound
  }

  /** What the search leaves behind, as `TieTrackingSearch` promises it. */
  ghost predicate SearchResult(g: Graph, s: nat, opt: Optimal) {
    && (forall v: nat :: v in opt <==> v < |g.nodes| && Reachable(g, s, v))
    && (forall v: nat :: v in opt ==> IsDistance(g, s, v, opt[v].0))
    && TiesSound(g, opt)
    && (forall v: nat, k: nat :: Tight(g, opt, v, k) ==> (k, v) in opt[v].1)
  }

  /** The pairs recorded at a node reached earlier than `bound`. */
  lemma TiesRecorded(g: Graph, opt: Optimal, u: nat, bound: nat)
    requires TiesSound(g, opt) && Score(opt, u) < bound
    ensures forall i :: 0 <= i < |Ties(opt, u)| ==> Ties(opt, u)[i].1 == u && Recorded(g, opt, Ties(opt, u)[i], bound)
  {
  }

  /** A recorded pair comes from a settled node of lower score. */
  lemma RecordedSource(g: Graph, opt: Optimal, e: (nat, nat), bound: nat)
    requires ValidGraph(g) && Recorded(g, opt, e, bound)
    ensures Source(g, e) in opt && Source(g, e) < |g.nodes| && Score(opt, Source(g, e)) < Score(opt, e.1)
    ensures Score(opt, Source(g, e)) + g.nodes[Source(g, e)].cost + g.edges[e.0].cost == Score(opt, e.1)
  {
  }

  /** The backtrack loop of `part2`. `segments` is the search's map with the
      end's entry removed, and `work` starts as the end's recorded pairs. The
      positions it returns are the cells of every edge met backwards from the
      end. */
  method Backtrack(g: Graph, full: Optimal, end: nat) returns (positions: set<IVec2>)
    requires ValidGraph(g) && TiesSound(g, full) && end in full
    ensures positions == Tiles(g, ListEdges(g, full, full[end].1, full[end].0 + 1))
  {
    var bound := full[end].0 + 1;
    var segments := full - {end};
    var work := full[end].1;
    TiesRecorded(g, full, end, bound);
    positions := {};
    ghost var target := Tiles(g, ListEdges(g, full, work, bound));
    while work != []
      invariant forall i :: 0 <= i < |work| ==> Recorded(g, full, work[i], bound)
      invariant positions + Tiles(g, ListEdges(g, full, work, bound)) == target
      decreases ListWeight(g, full, work, bound)
    {
      var e := work[|work| - 1];
      var init := work[..|work| - 1];
      BacktrackStep(g, full, work, bound, end);
      var k := e.0;
      var node := e.1;
      var a := g.edges[k].source;
      var b := g.edges[k].target;
      var source := if a == node then b else a;
      var more := segments[source].1;
      work := init + more;
      positions := InsertSegment(positions, g.nodes[a].position, g.nodes[b].position);
    }
  }

  /** Every pair on the work list stays recorded after a pop. */
  lemma WorkRecorded(g: Graph, opt: Optimal, init: seq<(nat, nat)>, e: (nat, nat), more: seq<(nat, nat)>, bound: nat)
    requires forall i :: 0 <= i < |init + [e]| ==> Recorded(g, opt, (init + [e])[i], bound)
    requires forall i :: 0 <= i < |more| ==> Recorded(g, opt, more[i], bound)
    ensures forall i :: 0 <= i < |init + more| ==> Recorded(g, opt, (init + more)[i], bound)
  {
    forall i | 0 <= i < |init + more|
      ensures Recorded(g, opt, (init + more)[i], bound)
    {
      if i < |init| {
        assert (init + more)[i] == (init + [e])[i];
      } else {
        assert (init + more)[i] == more[i - |init|];
      }
    }
  }

  /** One pop: the pair's edge leaves the work list's edges, the source's pairs
      take its place, every pair stays recorded, and the weight falls. */
  lemma BacktrackStep(g: Graph, opt: Optimal, work: seq<(nat, nat)>, bound: nat, end: nat)
    requires ValidGraph(g) && TiesSound(g, opt) && work != [] && end in opt && bound == opt[end].0 + 1
    requires forall i :: 0 <= i < |work| ==> Recorded(g, opt, work[i], bound)
    ensures var e := work[|work| - 1];
      var init := work[..|work| - 1];
      var more := Ties(opt, Source(g, e));
      && e.0 < |g.edges| && g.edges[e.0].source < |g.nodes| && g.edges[e.0].target < |g.nodes|
      && Source(g, e) in opt && Source(g, e) != end && opt[Source(g, e)].1 == more
      && (forall i :: 0 <= i < |init + more| ==> Recorded(g, opt, (init + more)[i], bound))
      && ListWeight(g, opt, init + more, bound) < ListWeight(g, opt, work, bound)
      && Tiles(g, ListEdges(g, opt, work, bound)) == Tiles(g, ListEdges(g, opt, init + more, bound)) + EdgeCells(g, e.0)
  {
    var e := work[|work| - 1];
    var init := work[..|work| - 1];
    assert work == init + [e];
    assert Recorded(g, opt, e, bound);
    var u := Source(g, e);
    var more := Ties(opt, u);
    RecordedSource(g, opt, e, bound);
    TiesRecorded(g, opt, u, bound);
    WorkRecorded(g, opt, init, e, more, bound);
    PopEdges(g, opt, init, e, bound);
  }

  /** The list's edges after a pop. */
  lemma PopEdges(g: Graph, opt: Optimal, init: seq<(nat, nat)>, e: (nat, nat), bound: nat)
    requires ValidGraph(g) && TiesSound(g, opt) && Recorded(g, opt, e, bound)
    ensures var more := Ties(opt, Source(g, e));
      && ListEdges(g, opt, init + [e], bound) == ListEdges(g, opt, init + more, bound) + {e.0}
      && ListWeight(g, opt, init + more, bound) < ListWeight(g, opt, init + [e], bound)
      && Tiles(g, ListEdges(g, opt, init + [e], bound)) == Tiles(g, ListEdges(g, opt, init + more, bound)) + EdgeCells(g, e.0)
  {
    var u := Source(g, e);
    var more := Ties(opt, u);
    RecordedSource(g, opt, e, bound);
    TiesRecorded(g, opt, u, Score(opt, e.1));
    ListBound(g, opt, more, Score(opt, e.1), bound);
    ListAppend(g, opt, init, more, bound);
    assert (init + [e])[..|init + [e]| - 1] == init;
    TilesUnion(g, ListEdges(g, opt, init + more, bound), {e.0});
    TilesSingle(g, e.0);
  }

  // ------------------------------------------------------------- meaning

  /** Edge `k` lies on some least-cost walk from `s` to `t`. */
  ghost predicate OnOptimalWalk(g: Graph, s: nat, t: nat, k: nat) {
    exists es :: OptimalWalk(g, s, t, es) && k in es
  }

  /** The edges that lie on some least-cost walk from `s` to `t`. */
  ghost function OptimalEdges(g: Graph, s: nat, t: nat): set<nat> {
    set k: nat | k < |g.edges| && OnOptimalWalk(g, s, t, k)
  }

  /** A walk whose cost is the distance is a least-cost walk. */
  lemma DistanceWalk(g: Graph, s: nat, t: nat, d: nat, es: seq<nat>)
    requires IsDistance(g, s, t, d) && IsWalk(g, s, es) && WalkEnd(g, s, es) == t
    ensures OptimalWalk(g, s, t, es) <==> WalkCost(g, s, es) == d
  {
    var best :| IsWalk(g, s, best) && WalkEnd(g, s, best) == t && WalkCost(g, s, best) == d;
  }

  lemma {:induction false} WalkEdgesExist(g: Graph, v: nat, es: seq<nat>)
    requires IsWalk(g, v, es)
    ensures forall j :: 0 <= j < |es| ==> es[j] < |g.edges|
    decreases |es|
  {
    if es != [] {
      WalkEdgesExist(g, v, es[..|es| - 1]);
      assert forall j :: 0 <= j < |es| - 1 ==> es[j] == es[..|es| - 1][j];
    }
  }

  /** Every settled node is reached by a walk at its score. */
  ghost predicate Witnessed(g: Graph, s: nat, opt: Optimal) {
    forall v: nat :: v in opt ==> ReachesAt(g, s, v, opt[v].0)
  }

  /** A walk to a settled node at its score. */
  lemma WitnessWalk(g: Graph, s: nat, opt: Optimal, v: nat) returns (es: seq<nat>)
    requires Witnessed(g, s, opt) && v in opt
    ensures IsWalk(g, s, es) && WalkEnd(g, s, es) == v && WalkCost(g, s, es) == opt[v].0
  {
    assert ReachesAt(g, s, v, opt[v].0);
    es :| IsWalk(g, s, es) && WalkEnd(g, s, es) == v && WalkCost(g, s, es) == opt[v].0;
  }

  /** Every edge met backwards from a recorded pair lies on a walk to the
      pair's node at the node's score. */
  lemma {:induction false} EntrySound(g: Graph, s: nat, opt: Optimal, e: (nat, nat), bound: nat, k: nat)
    returns (walk: seq<nat>)
    requires ValidGraph(g) && TiesSound(g, opt) && Witnessed(g, s, opt)
    requires Recorded(g, opt, e, bound) && k in EntryEdges(g, opt, e)
    ensures IsWalk(g, s, walk) && WalkEnd(g, s, walk) == e.1 && WalkCost(g, s, walk) == opt[e.1].0 && k in walk
    decreases Score(opt, e.1)
  {
    var u := Source(g, e);
    RecordedSource(g, opt, e, bound);
    var es: seq<nat>;
    if k == e.0 {
      es := WitnessWalk(g, s, opt, u);
    } else {
      var ties := Ties(opt, u);
      EntryParts(g, opt, e, bound, k);
      var i :| 0 <= i < |ties| && Recorded(g, opt, ties[i], Score(opt, e.1)) && ties[i].1 == u
        && k in EntryEdges(g, opt, ties[i]);
      es := EntrySound(g, s, opt, ties[i], Score(opt, e.1), k);
    }
    ExtendWalk(g, s, opt, e, bound, es);
    walk := es + [e.0];
  }

  /** A walk to the node a recorded pair comes from, at that node's score,
      followed by the pair's edge, reaches the pair's node at its score. */
  lemma ExtendWalk(g: Graph, s: nat, opt: Optimal, e: (nat, nat), bound: nat, es: seq<nat>)
    requires ValidGraph(g) && Recorded(g, opt, e, bound)
    requires IsWalk(g, s, es) && WalkEnd(g, s, es) == Source(g, e) && WalkCost(g, s, es) == Score(opt, Source(g, e))
    ensures IsWalk(g, s, es + [e.0]) && WalkEnd(g, s, es + [e.0]) == e.1
    ensures WalkCost(g, s, es + [e.0]) == opt[e.1].0
  {
    RecordedSource(g, opt, e, bound);
    OtherOther(g.edges[e.0], e.1);
    WalkSnoc(g, s, es, e.0);
  }

  /** An edge met from a recorded pair, other than the pair's own, is met
      from one of the pairs recorded at the node it comes from. */
  lemma EntryParts(g: Graph, opt: Optimal, e: (nat, nat), bound: nat, k: nat)
    requires ValidGraph(g) && TiesSound(g, opt) && Recorded(g, opt, e, bound)
    requires k in EntryEdges(g, opt, e) && k != e.0
    ensures var ties := Ties(opt, Source(g, e));
      exists i :: 0 <= i < |ties| && Recorded(g, opt, ties[i], Score(opt, e.1)) && ties[i].1 == Source(g, e)
        && k in EntryEdges(g, opt, ties[i])
  {
    var u := Source(g, e);
    var ties := Ties(opt, u);
    RecordedSource(g, opt, e, bound);
    assert k in ListEdges(g, opt, ties, Score(opt, e.1));
    ListMember(g, opt, ties, Score(opt, e.1), k);
    TiesRecorded(g, opt, u, Score(opt, e.1));
  }

  /** The last edge of a least-cost walk to a settled node is tight, and the
      walk before it is a least-cost walk to the node it leaves. */
  lemma LastEdgeTight(g: Graph, s: nat, opt: Optimal, w: nat, es: seq<nat>)
    requires ValidGraph(g) && s < |g.nodes| && SearchResult(g, s, opt)
    requires w in opt && IsWalk(g, s, es) && WalkEnd(g, s, es) == w && WalkCost(g, s, es) == opt[w].0
    requires es != []
    ensures var init := es[..|es| - 1];
      var k := es[|es| - 1];
      var u := WalkEnd(g, s, init);
      && IsWalk(g, s, init) && u in opt && WalkCost(g, s, init) == opt[u].0
      && Recorded(g, opt, (k, w), Score(opt, w) + 1) && Source(g, (k, w)) == u
      && (k, w) in opt[w].1
  {
    var init := es[..|es| - 1];
    var k := es[|es| - 1];
    var u := WalkEnd(g, s, init);
    WalkEndInGraph(g, s, init);
    assert Reachable(g, s, u);
    LeastPrefix(g, s, es, opt[u].0, opt[w].0);
    OtherOther(g.edges[k], u);
    assert Tight(g, opt, w, k);
  }

  /** Every edge of the walk reached its node at the node's score and was
      recorded there. */
  ghost predicate TightWalk(g: Graph, s: nat, opt: Optimal, es: seq<nat>)
    decreases |es|
  {
    es == [] || (
      var init := es[..|es| - 1];
      var w := WalkEnd(g, s, es);
      var e := (es[|es| - 1], w);
      TightWalk(g, s, opt, init) && Recorded(g, opt, e, Score(opt, w) + 1)
      && Source(g, e) == WalkEnd(g, s, init) && e in Ties(opt, w))
  }

  /** A recorded pair's edge, and every edge met from the node it comes
      from, are met from the list the pair is recorded in. */
  lemma EntryWithin(g: Graph, opt: Optimal, e: (nat, nat), bound: nat)
    requires ValidGraph(g) && Recorded(g, opt, e, bound) && e in Ties(opt, e.1)
    ensures {e.0} + ListEdges(g, opt, Ties(opt, Source(g, e)), Score(opt, e.1)) <= ListEdges(g, opt, Ties(opt, e.1), bound)
  {
    RecordedSource(g, opt, e, bound);
    var ties := Ties(opt, e.1);
    var i :| 0 <= i < |ties| && ties[i] == e;
    ListContains(g, opt, ties, bound, i);
  }

  /** A least-cost walk to a settled node is tight all along. */
  lemma {:induction false} OptimalWalkTight(g: Graph, s: nat, opt: Optimal, w: nat, es: seq<nat>)
    requires ValidGraph(g) && s < |g.nodes| && SearchResult(g, s, opt)
    requires w in opt && IsWalk(g, s, es) && WalkEnd(g, s, es) == w && WalkCost(g, s, es) == opt[w].0
    ensures TightWalk(g, s, opt, es)
    decreases |es|
  {
    if es != [] {
      var init := es[..|es| - 1];
      LastEdgeTight(g, s, opt, w, es);
      OptimalWalkTight(g, s, opt, WalkEnd(g, s, init), init);
    }
  }

  /** Every edge of a tight walk is met backwards from the recorded pairs of
      the node it ends at. */
  lemma {:induction false} TightWalkMet(g: Graph, s: nat, opt: Optimal, es: seq<nat>)
    requires ValidGraph(g) && TiesSound(g, opt) && TightWalk(g, s, opt, es)
    ensures var w := WalkEnd(g, s, es);
      forall j :: 0 <= j < |es| ==> es[j] in ListEdges(g, opt, Ties(opt, w), Score(opt, w) + 1)
    decreases |es|
  {
    if es != [] {
      var init := es[..|es| - 1];
      var k := es[|es| - 1];
      var w := WalkEnd(g, s, es);
      var u := WalkEnd(g, s, init);
      var e := (k, w);
      EntryWithin(g, opt, e, Score(opt, w) + 1);
      var all := ListEdges(g, opt, Ties(opt, w), Score(opt, w) + 1);
      var below := ListEdges(g, opt, Ties(opt, u), Score(opt, w));
      if init != [] {
        TightWalkMet(g, s, opt, init);
        TiesRecorded(g, opt, u, Score(opt, w));
        ListBound(g, opt, Ties(opt, u), Score(opt, u) + 1, Score(opt, w));
      }
      forall j | 0 <= j < |es|
        ensures es[j] in all
      {
        if j < |init| {
          assert es[j] == init[j];
        }
      }
    }
  }

  /** The backtrack from a settled node meets exactly the edges of its
      least-cost walks. */
  lemma BacktrackMeetsOptimalEdges(g: Graph, s: nat, opt: Optimal, t: nat)
    requires ValidGraph(g) && s < |g.nodes| && SearchResult(g, s, opt) && t in opt
    ensures ListEdges(g, opt, opt[t].1, opt[t].0 + 1) == OptimalEdges(g, s, t)
  {
    forall k | k in ListEdges(g, opt, opt[t].1, opt[t].0 + 1)
      ensures k in OptimalEdges(g, s, t)
    {
      BacktrackSound(g, s, opt, t, k);
    }
    forall k | k in OptimalEdges(g, s, t)
      ensures k in ListEdges(g, opt, opt[t].1, opt[t].0 + 1)
    {
      BacktrackComplete(g, s, opt, t, k);
    }
  }

  /** Every edge the backtrack meets lies on a least-cost walk. */
  lemma BacktrackSound(g: Graph, s: nat, opt: Optimal, t: nat, k: nat)
    requires ValidGraph(g) && s < |g.nodes| && SearchResult(g, s, opt) && t in opt
    requires k in ListEdges(g, opt, opt[t].1, opt[t].0 + 1)
    ensures k in OptimalEdges(g, s, t)
  {
    SearchWitnessed(g, s, opt);
    var es := MetWalk(g, s, opt, t, k);
    assert IsDistance(g, s, t, opt[t].0);
    DistanceEdge(g, s, t, opt[t].0, es, k);
  }

  /** Every edge on a least-cost walk is met by the backtrack. */
  lemma BacktrackComplete(g: Graph, s: nat, opt: Optimal, t: nat, k: nat)
    requires ValidGraph(g) && s < |g.nodes| && SearchResult(g, s, opt) && t in opt
    requires k in OptimalEdges(g, s, t)
    ensures k in ListEdges(g, opt, opt[t].1, opt[t].0 + 1)
  {
    var es := TightWalkThrough(g, s, opt, t, k);
    TightEdgeMet(g, s, opt, t, es, k);
  }

  /** A tight walk to `t` through an edge of `OptimalEdges`. */
  lemma TightWalkThrough(g: Graph, s: nat, opt: Optimal, t: nat, k: nat) returns (es: seq<nat>)
    requires ValidGraph(g) && s < |g.nodes| && SearchResult(g, s, opt) && t in opt
    requires k in OptimalEdges(g, s, t)
    ensures TightWalk(g, s, opt, es) && WalkEnd(g, s, es) == t && k in es
  {
    es := OptimalWalkThrough(g, s, opt, t, k);
    OptimalWalkTight(g, s, opt, t, es);
  }

  /** A least-cost walk through an edge of `OptimalEdges`. */
  lemma OptimalWalkThrough(g: Graph, s: nat, opt: Optimal, t: nat, k: nat) returns (es: seq<nat>)
    requires SearchResult(g, s, opt) && t in opt && k in OptimalEdges(g, s, t)
    ensures IsWalk(g, s, es) && WalkEnd(g, s, es) == t && WalkCost(g, s, es) == opt[t].0 && k in es
  {
    assert OnOptimalWalk(g, s, t, k);
    es :| OptimalWalk(g, s, t, es) && k in es;
    assert IsDistance(g, s, t, opt[t].0);
    DistanceWalk(g, s, t, opt[t].0, es);
  }

  /** An edge of a tight walk to `t` is met from the pairs recorded at `t`. */
  lemma TightEdgeMet(g: Graph, s: nat, opt: Optimal, t: nat, es: seq<nat>, k: nat)
    requires ValidGraph(g) && TiesSound(g, opt) && t in opt
    requires TightWalk(g, s, opt, es) && WalkEnd(g, s, es) == t && k in es
    ensures k in ListEdges(g, opt, opt[t].1, opt[t].0 + 1)
  {
    TightWalkMet(g, s, opt, es);
    assert Ties(opt, t) == opt[t].1 && Score(opt, t) == opt[t].0;
    var j :| 0 <= j < |es| && es[j] == k;
  }

  /** The search's distances witness every settled node. */
  lemma SearchWitnessed(g: Graph, s: nat, opt: Optimal)
    requires SearchResult(g, s, opt)
    ensures Witnessed(g, s, opt)
  {
    forall v: nat | v in opt
      ensures ReachesAt(g, s, v, opt[v].0)
    {
      assert IsDistance(g, s, v, opt[v].0);
    }
  }

  /** An edge met backwards from the recorded pairs of `t` lies on a walk to
      `t` at its score. */
  lemma MetWalk(g: Graph, s: nat, opt: Optimal, t: nat, k: nat) returns (es: seq<nat>)
    requires ValidGraph(g) && TiesSound(g, opt) && Witnessed(g, s, opt) && t in opt
    requires k in ListEdges(g, opt, opt[t].1, opt[t].0 + 1)
    ensures IsWalk(g, s, es) && WalkEnd(g, s, es) == t && WalkCost(g, s, es) == opt[t].0 && k in es
  {
    var bound := opt[t].0 + 1;
    var ties := opt[t].1;
    ListMember(g, opt, ties, bound, k);
    var i :| 0 <= i < |ties| && Score(opt, ties[i].1) < bound && k in EntryEdges(g, opt, ties[i]);
    TiesRecorded(g, opt, t, bound);
    assert Ties(opt, t) == ties;
    es := EntrySound(g, s, opt, ties[i], bound, k);
  }

  /** An edge of a walk whose cost is the distance lies on a least-cost walk. */
  lemma DistanceEdge(g: Graph, s: nat, t: nat, d: nat, es: seq<nat>, k: nat)
    requires IsDistance(g, s, t, d) && IsWalk(g, s, es) && WalkEnd(g, s, es) == t && WalkCost(g, s, es) == d
    requires k in es
    ensures k in OptimalEdges(g, s, t)
  {
    DistanceWalk(g, s, t, d, es);
    WalkEdgesExist(g, s, es);
    var j :| 0 <= j < |es| && es[j] == k;
    assert OnOptimalWalk(g, s, t, k);
  }
}
