/** Day 16, part 2's search (src/bin/day16.rs:357-430): Dijkstra's algorithm
    over the junction graph with a binary heap of path segments, which fixes a
    node's score at its first pop and records every incident edge that
    reaches the node at that score. */
module Day16Solver {
  import opened Wrappers
  import opened Day16Graph
  import opened Day16Walks

  /** `PathSegment`: a score, the node it reaches, and the edge it came along
      (none for the start). */
  datatype Segment = Segment(score: nat, node: nat, edge: Option<nat>)

  /** The derived `Ord` of `PathSegment`: the field `Reverse(score)` comes
      first, so a lower score is greater; then the node index; then the edge,
      with `None` below every `Some`. */
  predicate Above(a: Segment, b: Segment) {
    a.score < b.score
    || (a.score == b.score && (a.node > b.node || (a.node == b.node && EdgeAbove(a.edge, b.edge))))
  }

  predicate EdgeAbove(a: Option<nat>, b: Option<nat>) {
    match (a, b)
    case (Some(x), Some(y)) => x > y
    case (Some(_), None) => true
    case _ => false
  }

  /** `Above` is a strict total order. */
  lemma AboveStrictTotal(a: Segment, b: Segment, c: Segment)
    ensures !Above(a, a)
    ensures Above(a, b) ==> !Above(b, a)
    ensures Above(a, b) && Above(b, c) ==> Above(a, c)
    ensures a != b ==> Above(a, b) || Above(b, a)
  {
  }

  /** The index of the greatest segment. */
  function MaxIndex(heap: seq<Segment>): (i: nat)
    requires heap != []
    ensures i < |heap| && forall j :: 0 <= j < |heap| ==> !Above(heap[j], heap[i])
  {
    if |heap| == 1 then 0
    else
      var i := MaxIndex(heap[..|heap| - 1]);
      var last := heap[|heap| - 1];
      if Above(last, heap[i]) then
        assert forall j :: 0 <= j < |heap| - 1 ==> !Above(heap[j], last) by {
          forall j | 0 <= j < |heap| - 1
            ensures !Above(heap[j], last)
          {
            assert heap[..|heap| - 1][j] == heap[j];
            AboveStrictTotal(heap[j], last, heap[i]);
          }
        }
        AboveStrictTotal(last, last, last);
        |heap| - 1
      else
        assert forall j :: 0 <= j < |heap| - 1 ==> !Above(heap[j], heap[i]) by {
          forall j | 0 <= j < |heap| - 1
            ensures !Above(heap[j], heap[i])
          {
            assert heap[..|heap| - 1][j] == heap[j];
          }
        }
        i
  }

  /** `BinaryHeap::pop`: the greatest segment, and the heap without it. */
  function Pop(heap: seq<Segment>): (r: (Segment, seq<Segment>))
    requires heap != []
    ensures r.0 in heap && forall h :: h in heap ==> !Above(h, r.0)
    ensures |r.1| == |heap| - 1
    ensures multiset(r.1) + multiset{r.0} == multiset(heap)
    ensures forall h :: h in heap <==> h == r.0 || h in r.1
  {
    var i := MaxIndex(heap);
    var rest := heap[..i] + heap[i + 1..];
    assert heap == heap[..i] + [heap[i]] + heap[i + 1..];
    assert multiset(rest) + multiset{heap[i]} == multiset(heap);
    assert forall h :: h in heap <==> h == heap[i] || h in rest by {
      forall h
        ensures h in heap <==> h == heap[i] || h in rest
      {
        assert h in multiset(heap) <==> h in multiset(rest) + multiset{heap[i]};
      }
    }
    (heap[i], rest)
  }

  /** `optimal_path_segments`: for each reached node, its score and the
      (edge, node) pairs that reach it at that score. */
  type Optimal = map<nat, (nat, seq<(nat, nat)>)>

  function Arrival(top: Segment): seq<(nat, nat)> {
    if top.edge.Some? then [(top.edge.value, top.node)] else []
  }

  /** The segment that leaving `v` along edge `k` pushes. */
  predicate Pushed(g: Graph, v: nat, score: nat, visited: set<nat>, h: Segment)
    requires v < |g.nodes|
  {
    h.edge.Some? && h.edge.value < |g.edges| && Incident(g.edges[h.edge.value], v)
    && h.node == Other(g.edges[h.edge.value], v) && h.node !in visited
    && h.score == g.nodes[v].cost + score + g.edges[h.edge.value].cost
  }

  /** The segments the edge loop pushes after the first pop of `v`, for the
      first `k` edges: one per incident edge whose far end is unvisited. */
  function Pushes(g: Graph, v: nat, score: nat, visited: set<nat>, k: nat): (r: seq<Segment>)
    requires v < |g.nodes| && k <= |g.edges|
    ensures forall h :: h in r <==> Pushed(g, v, score, visited, h) && h.edge.value < k
  {
    if k == 0 then []
    else
      var e := g.edges[k - 1];
      var next := Other(e, v);
      Pushes(g, v, score, visited, k - 1)
        + (if Incident(e, v) && next !in visited then [Segment(g.nodes[v].cost + score + e.cost, next, Some(k - 1))] else [])
  }

  // ------------------------------------------------------------- invariants

  /** Edge `k` reaches `w` from a node already settled, at exactly `w`'s score. */
  ghost predicate Tight(g: Graph, opt: Optimal, w: nat, k: nat) {
    w in opt && k < |g.edges| && Incident(g.edges[k], w)
    && var u := Other(g.edges[k], w);
    u in opt && u < |g.nodes| && opt[u].0 + g.nodes[u].cost + g.edges[k].cost == opt[w].0
  }

  ghost predicate Domain(g: Graph, opt: Optimal) {
    forall w: nat :: w in opt ==> w < |g.nodes|
  }

  /** A segment in the heap: the start at 0, or an edge left from a settled
      node at that node's score plus the traversal cost. */
  ghost predicate EntryOk(g: Graph, s: nat, opt: Optimal, h: Segment) {
    h.node < |g.nodes|
    && (h.edge.None? ==> h.node == s && h.score == 0)
    && (h.edge.Some? ==> EdgeEntryOk(g, opt, h.node, h.edge.value, h.score))
  }

  /** Leaving a settled node along edge `k` reaches `x` at `score`. */
  ghost predicate EdgeEntryOk(g: Graph, opt: Optimal, x: nat, k: nat, score: nat) {
    k < |g.edges| && Incident(g.edges[k], x)
    && var u := Other(g.edges[k], x);
    u in opt && u < |g.nodes| && score == opt[u].0 + g.nodes[u].cost + g.edges[k].cost
  }

  ghost predicate Entries(g: Graph, s: nat, heap: seq<Segment>, opt: Optimal) {
    forall h :: h in heap ==> EntryOk(g, s, opt, h)
  }

  /** Every edge from a settled node to an unsettled one has its segment queued. */
  ghost predicate Frontier(g: Graph, heap: seq<Segment>, opt: Optimal) {
    forall w: nat, k: nat :: w in opt && w < |g.nodes| && k < |g.edges| ==>
      Incident(g.edges[k], w) && Other(g.edges[k], w) !in opt ==>
      Segment(opt[w].0 + g.nodes[w].cost + g.edges[k].cost, Other(g.edges[k], w), Some(k)) in heap
  }

  ghost predicate StartState(s: nat, heap: seq<Segment>, opt: Optimal) {
    (opt == map[] ==> heap == [Segment(0, s, None)]) && (opt != map[] ==> s in opt)
  }

  /** No walk reaches a settled node for less than its score. */
  ghost predicate Lower(g: Graph, s: nat, opt: Optimal) {
    forall w: nat, es :: w in opt && IsWalk(g, s, es) && WalkEnd(g, s, es) == w ==> WalkCost(g, s, es) >= opt[w].0
  }

  /** Some walk reaches each settled node at its score. */
  ghost predicate Upper(g: Graph, s: nat, opt: Optimal, wit: map<nat, seq<nat>>) {
    forall w: nat :: w in opt ==>
      w in wit && IsWalk(g, s, wit[w]) && WalkEnd(g, s, wit[w]) == w && WalkCost(g, s, wit[w]) == opt[w].0
  }

  /** Settled scores never exceed a queued one. */
  ghost predicate Monotone(heap: seq<Segment>, opt: Optimal) {
    forall h, w: nat :: h in heap && w in opt ==> opt[w].0 <= h.score
  }

  ghost predicate TiesSound(g: Graph, opt: Optimal) {
    forall w: nat, i :: w in opt && 0 <= i < |opt[w].1| ==> opt[w].1[i].1 == w && Tight(g, opt, w, opt[w].1[i].0)
  }

  /** A tight edge is recorded, or its segment is still queued. */
  ghost predicate TiesComplete(g: Graph, heap: seq<Segment>, opt: Optimal) {
    forall w: nat, k: nat :: Tight(g, opt, w, k) ==> (k, w) in opt[w].1 || Segment(opt[w].0, w, Some(k)) in heap
  }

  ghost predicate SolverInv(g: Graph, s: nat, heap: seq<Segment>, opt: Optimal, wit: map<nat, seq<nat>>) {
    Domain(g, opt) && Entries(g, s, heap, opt) && Frontier(g, heap, opt) && StartState(s, heap, opt)
    && Lower(g, s, opt) && Upper(g, s, opt, wit) && Monotone(heap, opt)
    && TiesSound(g, opt) && TiesComplete(g, heap, opt)
  }

  /** A walk to a node not yet settled costs at least the score of some
      queued segment. */
  lemma {:induction false} UnsettledHasEntry(g: Graph, s: nat, heap: seq<Segment>, opt: Optimal, es: seq<nat>)
    requires ValidGraph(g) && s < |g.nodes|
    requires Domain(g, opt) && Frontier(g, heap, opt) && StartState(s, heap, opt) && Lower(g, s, opt)
    requires IsWalk(g, s, es) && WalkEnd(g, s, es) !in opt
    ensures exists h :: h in heap && h.score <= WalkCost(g, s, es)
    decreases |es|
  {
    if es == [] {
      var h := Segment(0, s, None);
      assert h in heap && h.score <= WalkCost(g, s, es);
    } else {
      var init := es[..|es| - 1];
      var k := es[|es| - 1];
      var u := WalkEnd(g, s, init);
      WalkEndInGraph(g, s, init);
      if u in opt {
        var h := Segment(opt[u].0 + g.nodes[u].cost + g.edges[k].cost, Other(g.edges[k], u), Some(k));
        assert h in heap;
        assert WalkCost(g, s, init) >= opt[u].0;
        assert h.score <= WalkCost(g, s, es);
      } else {
        UnsettledHasEntry(g, s, heap, opt, init);
        var h :| h in heap && h.score <= WalkCost(g, s, init);
        assert h.score <= WalkCost(g, s, es);
      }
    }
  }

  // ------------------------------------------------------------- one pop

  /** The state after the first pop of `top.node`. */
  ghost predicate FirstVisit(g: Graph, heap: seq<Segment>, top: Segment, rest: seq<Segment>,
                             opt: Optimal, opt': Optimal, heap': seq<Segment>)
  {
    heap != [] && Pop(heap) == (top, rest) && top.node !in opt && top.node < |g.nodes|
    && opt' == opt[top.node := (top.score, Arrival(top))]
    && heap' == rest + Pushes(g, top.node, top.score, opt.Keys, |g.edges|)
  }

  lemma FirstVisitEntries(g: Graph, s: nat, heap: seq<Segment>, top: Segment, rest: seq<Segment>,
                          opt: Optimal, opt': Optimal, heap': seq<Segment>)
    requires ValidGraph(g) && Entries(g, s, heap, opt) && FirstVisit(g, heap, top, rest, opt, opt', heap')
    ensures Entries(g, s, heap', opt')
  {
    var v := top.node;
    forall h | h in heap'
      ensures EntryOk(g, s, opt', h)
    {
      if h in rest {
        assert EntryOk(g, s, opt, h);
      } else {
        assert Pushed(g, v, top.score, opt.Keys, h);
        OtherOther(g.edges[h.edge.value], v);
      }
    }
  }

  lemma FirstVisitFrontier(g: Graph, s: nat, heap: seq<Segment>, top: Segment, rest: seq<Segment>,
                           opt: Optimal, opt': Optimal, heap': seq<Segment>)
    requires ValidGraph(g) && Frontier(g, heap, opt) && FirstVisit(g, heap, top, rest, opt, opt', heap')
    ensures Frontier(g, heap', opt')
  {
    forall w: nat, k: nat | w in opt' && w < |g.nodes| && k < |g.edges| && Incident(g.edges[k], w)
      && Other(g.edges[k], w) !in opt'
      ensures Segment(opt'[w].0 + g.nodes[w].cost + g.edges[k].cost, Other(g.edges[k], w), Some(k)) in heap'
    {
      FirstVisitFrontierEdge(g, heap, top, rest, opt, opt', heap', w, k);
    }
  }

  /** The frontier condition for one settled node and one edge. */
  lemma FirstVisitFrontierEdge(g: Graph, heap: seq<Segment>, top: Segment, rest: seq<Segment>,
                               opt: Optimal, opt': Optimal, heap': seq<Segment>, w: nat, k: nat)
    requires Frontier(g, heap, opt) && FirstVisit(g, heap, top, rest, opt, opt', heap')
    requires w in opt' && w < |g.nodes| && k < |g.edges| && Incident(g.edges[k], w) && Other(g.edges[k], w) !in opt'
    ensures Segment(opt'[w].0 + g.nodes[w].cost + g.edges[k].cost, Other(g.edges[k], w), Some(k)) in heap'
  {
    if w == top.node {
      PushedEdge(g, top, opt, k);
    } else {
      KeptEdge(g, heap, top, rest, opt, w, k);
    }
  }

  /** The edge loop pushes every edge from the node just settled to a node
      not yet settled. */
  lemma PushedEdge(g: Graph, top: Segment, opt: Optimal, k: nat)
    requires top.node < |g.nodes| && k < |g.edges| && Incident(g.edges[k], top.node)
    requires Other(g.edges[k], top.node) !in opt
    ensures Segment(top.score + g.nodes[top.node].cost + g.edges[k].cost, Other(g.edges[k], top.node), Some(k))
      in Pushes(g, top.node, top.score, opt.Keys, |g.edges|)
  {
    assert Pushed(g, top.node, top.score, opt.Keys,
      Segment(top.score + g.nodes[top.node].cost + g.edges[k].cost, Other(g.edges[k], top.node), Some(k)));
  }

  /** A frontier edge of a node settled earlier stays in the heap when another
      segment is popped, as long as its far end is still unsettled. */
  lemma KeptEdge(g: Graph, heap: seq<Segment>, top: Segment, rest: seq<Segment>, opt: Optimal, w: nat, k: nat)
    requires Frontier(g, heap, opt) && heap != [] && Pop(heap) == (top, rest)
    requires w in opt && w < |g.nodes| && k < |g.edges| && Incident(g.edges[k], w)
    requires Other(g.edges[k], w) !in opt && Other(g.edges[k], w) != top.node
    ensures Segment(opt[w].0 + g.nodes[w].cost + g.edges[k].cost, Other(g.edges[k], w), Some(k)) in rest
  {
  }

  lemma FirstVisitStart(g: Graph, s: nat, heap: seq<Segment>, top: Segment, rest: seq<Segment>,
                        opt: Optimal, opt': Optimal, heap': seq<Segment>)
    requires StartState(s, heap, opt) && FirstVisit(g, heap, top, rest, opt, opt', heap')
    ensures StartState(s, heap', opt')
  {
    if opt == map[] {
      assert top in heap;
    }
  }

  lemma FirstVisitLower(g: Graph, s: nat, heap: seq<Segment>, top: Segment, rest: seq<Segment>,
                        opt: Optimal, opt': Optimal, heap': seq<Segment>)
    requires ValidGraph(g) && s < |g.nodes|
    requires Domain(g, opt) && Frontier(g, heap, opt) && StartState(s, heap, opt) && Lower(g, s, opt)
    requires FirstVisit(g, heap, top, rest, opt, opt', heap')
    ensures Lower(g, s, opt')
  {
    var v := top.node;
    forall w: nat, es | w in opt' && IsWalk(g, s, es) && WalkEnd(g, s, es) == w
      ensures WalkCost(g, s, es) >= opt'[w].0
    {
      if w == v {
        UnsettledHasEntry(g, s, heap, opt, es);
      } else {
        assert opt'[w] == opt[w];
      }
    }
  }

  lemma FirstVisitMonotone(g: Graph, s: nat, heap: seq<Segment>, top: Segment, rest: seq<Segment>,
                           opt: Optimal, opt': Optimal, heap': seq<Segment>)
    requires Monotone(heap, opt) && FirstVisit(g, heap, top, rest, opt, opt', heap')
    ensures Monotone(heap', opt')
  {
    var v := top.node;
    forall h, w: nat | h in heap' && w in opt'
      ensures opt'[w].0 <= h.score
    {
      if h !in rest {
        assert Pushed(g, v, top.score, opt.Keys, h);
      }
    }
  }

  lemma FirstVisitUpper(g: Graph, s: nat, heap: seq<Segment>, top: Segment, rest: seq<Segment>,
                        opt: Optimal, opt': Optimal, heap': seq<Segment>, wit: map<nat, seq<nat>>)
    requires ValidGraph(g) && Entries(g, s, heap, opt) && Upper(g, s, opt, wit)
    requires FirstVisit(g, heap, top, rest, opt, opt', heap')
    ensures Upper(g, s, opt', wit[top.node := Witness(g, top, wit)])
  {
    var v := top.node;
    assert EntryOk(g, s, opt, top);
    if top.edge.Some? {
      var k := top.edge.value;
      var u := Other(g.edges[k], v);
      WalkSnoc(g, s, wit[u], k);
      OtherOther(g.edges[k], v);
    }
  }

  /** The walk that reaches `top.node` at `top.score`: the witness of the node
      it came from, then its edge. */
  ghost function Witness(g: Graph, top: Segment, wit: map<nat, seq<nat>>): seq<nat> {
    if top.edge.Some? && top.edge.value < |g.edges| && Other(g.edges[top.edge.value], top.node) in wit then
      wit[Other(g.edges[top.edge.value], top.node)] + [top.edge.value]
    else []
  }

  lemma FirstVisitStep(g: Graph, s: nat, heap: seq<Segment>, top: Segment, rest: seq<Segment>,
                       opt: Optimal, opt': Optimal, heap': seq<Segment>, wit: map<nat, seq<nat>>)
    requires ValidGraph(g) && s < |g.nodes| && SolverInv(g, s, heap, opt, wit)
    requires FirstVisit(g, heap, top, rest, opt, opt', heap')
    ensures SolverInv(g, s, heap', opt', wit[top.node := Witness(g, top, wit)])
  {
    FirstVisitEntries(g, s, heap, top, rest, opt, opt', heap');
    FirstVisitFrontier(g, s, heap, top, rest, opt, opt', heap');
    FirstVisitStart(g, s, heap, top, rest, opt, opt', heap');
    FirstVisitLower(g, s, heap, top, rest, opt, opt', heap');
    FirstVisitMonotone(g, s, heap, top, rest, opt, opt', heap');
    FirstVisitUpper(g, s, heap, top, rest, opt, opt', heap', wit);
    FirstVisitTiesSound(g, s, heap, top, rest, opt, opt', heap');
    FirstVisitTiesComplete(g, s, heap, top, rest, opt, opt', heap');
  }

  /** Settling `top.node` keeps every tight edge tight. */
  lemma FirstVisitTight(g: Graph, heap: seq<Segment>, top: Segment, rest: seq<Segment>,
                        opt: Optimal, opt': Optimal, heap': seq<Segment>)
    requires FirstVisit(g, heap, top, rest, opt, opt', heap')
    ensures forall w: nat, k: nat :: Tight(g, opt, w, k) ==> Tight(g, opt', w, k)
  {
    forall w: nat, k: nat | Tight(g, opt, w, k)
      ensures Tight(g, opt', w, k)
    {
      assert opt'[w] == opt[w] && opt'[Other(g.edges[k], w)] == opt[Other(g.edges[k], w)];
    }
  }

  lemma FirstVisitTiesSound(g: Graph, s: nat, heap: seq<Segment>, top: Segment, rest: seq<Segment>,
                            opt: Optimal, opt': Optimal, heap': seq<Segment>)
    requires ValidGraph(g) && Entries(g, s, heap, opt) && TiesSound(g, opt)
    requires FirstVisit(g, heap, top, rest, opt, opt', heap')
    ensures TiesSound(g, opt')
  {
    var v := top.node;
    assert EntryOk(g, s, opt, top);
    FirstVisitTight(g, heap, top, rest, opt, opt', heap');
    forall w: nat, i | w in opt' && 0 <= i < |opt'[w].1|
      ensures opt'[w].1[i].1 == w && Tight(g, opt', w, opt'[w].1[i].0)
    {
      if w != v {
        assert opt'[w] == opt[w];
        assert Tight(g, opt, w, opt[w].1[i].0);
      } else {
        var k := top.edge.value;
        assert opt'[w].1[i] == (k, v);
        assert opt'[Other(g.edges[k], v)] == opt[Other(g.edges[k], v)];
      }
    }
  }

  lemma FirstVisitTiesComplete(g: Graph, s: nat, heap: seq<Segment>, top: Segment, rest: seq<Segment>,
                               opt: Optimal, opt': Optimal, heap': seq<Segment>)
    requires ValidGraph(g) && Entries(g, s, heap, opt) && Frontier(g, heap, opt) && Monotone(heap, opt)
    requires TiesComplete(g, heap, opt)
    requires FirstVisit(g, heap, top, rest, opt, opt', heap')
    ensures TiesComplete(g, heap', opt')
  {
    var v := top.node;
    forall w: nat, k: nat | Tight(g, opt', w, k)
      ensures (k, w) in opt'[w].1 || Segment(opt'[w].0, w, Some(k)) in heap'
    {
      var u := Other(g.edges[k], w);
      if w == v {
        OtherOther(g.edges[k], w);
        assert u in opt && opt'[u] == opt[u];
        var h := Segment(opt[u].0 + g.nodes[u].cost + g.edges[k].cost, Other(g.edges[k], u), Some(k));
        assert h in heap;
        if h != top {
          assert Segment(opt'[w].0, w, Some(k)) in rest;
        }
      } else {
        assert opt'[w] == opt[w];
        if u == v {
          assert false;
        }
        assert opt'[u] == opt[u];
        assert Tight(g, opt, w, k);
        if (k, w) !in opt[w].1 {
          assert Segment(opt[w].0, w, Some(k)) in heap;
          assert top.node != w;
        }
      }
    }
  }

  /** The state after a later pop of an already settled node. */
  ghost predicate Revisit(heap: seq<Segment>, top: Segment, rest: seq<Segment>, opt: Optimal, opt': Optimal) {
    heap != [] && Pop(heap) == (top, rest) && top.node in opt
    && opt' == (if top.score == opt[top.node].0
                then opt[top.node := (opt[top.node].0, opt[top.node].1 + Arrival(top))]
                else opt)
  }

  /** A revisit changes no node's score, only (perhaps) its recorded ties. */
  lemma RevisitKeeps(heap: seq<Segment>, top: Segment, rest: seq<Segment>, opt: Optimal, opt': Optimal)
    requires Revisit(heap, top, rest, opt, opt')
    ensures opt'.Keys == opt.Keys
    ensures forall w: nat :: w in opt ==> opt'[w].0 == opt[w].0
    ensures forall w: nat :: w in opt ==> opt[w].1 <= opt'[w].1
    ensures forall w: nat :: w in opt && w != top.node ==> opt'[w] == opt[w]
  {
  }

  lemma RevisitTight(g: Graph, heap: seq<Segment>, top: Segment, rest: seq<Segment>, opt: Optimal, opt': Optimal)
    requires Revisit(heap, top, rest, opt, opt')
    ensures forall w: nat, k: nat :: Tight(g, opt', w, k) <==> Tight(g, opt, w, k)
  {
    RevisitKeeps(heap, top, rest, opt, opt');
  }

  lemma RevisitHeap(g: Graph, s: nat, heap: seq<Segment>, top: Segment, rest: seq<Segment>,
                    opt: Optimal, opt': Optimal)
    requires Entries(g, s, heap, opt) && Frontier(g, heap, opt) && Monotone(heap, opt)
    requires Revisit(heap, top, rest, opt, opt')
    ensures Entries(g, s, rest, opt') && Frontier(g, rest, opt') && Monotone(rest, opt')
  {
    RevisitKeeps(heap, top, rest, opt, opt');
    RevisitEntries(g, s, heap, top, rest, opt, opt');
    RevisitFrontier(g, heap, top, rest, opt, opt');
    RevisitMonotone(heap, top, rest, opt, opt');
  }

  lemma RevisitEntries(g: Graph, s: nat, heap: seq<Segment>, top: Segment, rest: seq<Segment>,
                       opt: Optimal, opt': Optimal)
    requires Entries(g, s, heap, opt) && heap != [] && Pop(heap) == (top, rest)
    requires opt'.Keys == opt.Keys && forall w: nat :: w in opt ==> opt'[w].0 == opt[w].0
    ensures Entries(g, s, rest, opt')
  {
    forall h | h in rest
      ensures EntryOk(g, s, opt', h)
    {
      assert h in heap;
      assert EntryOk(g, s, opt, h);
    }
  }

  lemma RevisitFrontier(g: Graph, heap: seq<Segment>, top: Segment, rest: seq<Segment>,
                        opt: Optimal, opt': Optimal)
    requires Frontier(g, heap, opt) && heap != [] && Pop(heap) == (top, rest) && top.node in opt
    requires opt'.Keys == opt.Keys && forall w: nat :: w in opt ==> opt'[w].0 == opt[w].0
    ensures Frontier(g, rest, opt')
  {
    forall w: nat, k: nat | w in opt' && w < |g.nodes| && k < |g.edges| && Incident(g.edges[k], w)
      && Other(g.edges[k], w) !in opt'
      ensures Segment(opt'[w].0 + g.nodes[w].cost + g.edges[k].cost, Other(g.edges[k], w), Some(k)) in rest
    {
      var h := Segment(opt[w].0 + g.nodes[w].cost + g.edges[k].cost, Other(g.edges[k], w), Some(k));
      assert h in heap && h != top;
    }
  }

  lemma RevisitMonotone(heap: seq<Segment>, top: Segment, rest: seq<Segment>, opt: Optimal, opt': Optimal)
    requires Monotone(heap, opt) && heap != [] && Pop(heap) == (top, rest)
    requires opt'.Keys == opt.Keys && forall w: nat :: w in opt ==> opt'[w].0 == opt[w].0
    ensures Monotone(rest, opt')
  {
    forall h, w: nat | h in rest && w in opt'
      ensures opt'[w].0 <= h.score
    {
      assert h in heap;
    }
  }

  lemma RevisitBounds(g: Graph, s: nat, heap: seq<Segment>, top: Segment, rest: seq<Segment>,
                      opt: Optimal, opt': Optimal, wit: map<nat, seq<nat>>)
    requires Domain(g, opt) && StartState(s, heap, opt) && Lower(g, s, opt) && Upper(g, s, opt, wit)
    requires Revisit(heap, top, rest, opt, opt')
    ensures Domain(g, opt') && StartState(s, rest, opt') && Lower(g, s, opt') && Upper(g, s, opt', wit)
  {
    RevisitKeeps(heap, top, rest, opt, opt');
  }

  lemma RevisitTies(g: Graph, s: nat, heap: seq<Segment>, top: Segment, rest: seq<Segment>,
                    opt: Optimal, opt': Optimal)
    requires ValidGraph(g) && Entries(g, s, heap, opt) && TiesSound(g, opt) && TiesComplete(g, heap, opt)
    requires Revisit(heap, top, rest, opt, opt')
    ensures TiesSound(g, opt') && TiesComplete(g, rest, opt')
  {
    var v := top.node;
    assert EntryOk(g, s, opt, top);
    RevisitKeeps(heap, top, rest, opt, opt');
    RevisitTight(g, heap, top, rest, opt, opt');
    forall w: nat, k: nat | Tight(g, opt', w, k)
      ensures (k, w) in opt'[w].1 || Segment(opt'[w].0, w, Some(k)) in rest
    {
      assert Tight(g, opt, w, k);
      if (k, w) in opt[w].1 {
        assert (k, w) in opt'[w].1;
      }
    }
    forall w: nat, i | w in opt' && 0 <= i < |opt'[w].1|
      ensures opt'[w].1[i].1 == w && Tight(g, opt', w, opt'[w].1[i].0)
    {
      if i < |opt[w].1| {
        assert opt'[w].1[i] == opt[w].1[i];
        assert Tight(g, opt, w, opt[w].1[i].0);
      }
    }
  }

  lemma RevisitStep(g: Graph, s: nat, heap: seq<Segment>, top: Segment, rest: seq<Segment>,
                    opt: Optimal, opt': Optimal, wit: map<nat, seq<nat>>)
    requires ValidGraph(g) && s < |g.nodes| && SolverInv(g, s, heap, opt, wit)
    requires Revisit(heap, top, rest, opt, opt')
    ensures SolverInv(g, s, rest, opt', wit)
  {
    RevisitHeap(g, s, heap, top, rest, opt, opt');
    RevisitBounds(g, s, heap, top, rest, opt, opt', wit);
    RevisitTies(g, s, heap, top, rest, opt, opt');
  }

  // ------------------------------------------------------------- the loop

  /** The node indices below `n`. */
  function NodeRange(n: nat): (r: set<nat>)
    ensures forall v: nat :: v in r <==> v < n
  {
    if n == 0 then {} else NodeRange(n - 1) + {n - 1}
  }

  /** Edge `k` adds its segment to the pushes, or nothing. */
  lemma PushesNext(g: Graph, v: nat, score: nat, visited: set<nat>, k: nat, added: seq<Segment>)
    requires v < |g.nodes| && k < |g.edges|
    requires var e := g.edges[k];
      added == if Incident(e, v) && Other(e, v) !in visited
               then [Segment(g.nodes[v].cost + score + e.cost, Other(e, v), Some(k))] else []
    ensures Pushes(g, v, score, visited, k + 1) == Pushes(g, v, score, visited, k) + added
  {
  }

  /** The edge loop after the first pop of `v`: a segment for every incident
      edge whose far end is not yet visited, in edge order. */
  method PushEdges(g: Graph, v: nat, score: nat, visited: set<nat>, heap: seq<Segment>)
    returns (heap': seq<Segment>)
    requires v < |g.nodes|
    ensures heap' == heap + Pushes(g, v, score, visited, |g.edges|)
  {
    heap' := heap;
    var k := 0;
    while k < |g.edges|
      invariant 0 <= k <= |g.edges|
      invariant heap' == heap + Pushes(g, v, score, visited, k)
    {
      var e := g.edges[k];
      ghost var pushed := Pushes(g, v, score, visited, k);
      if Incident(e, v) {
        var next := Other(e, v);
        if next !in visited {
          var h := Segment(g.nodes[v].cost + score + e.cost, next, Some(k));
          PushesNext(g, v, score, visited, k, [h]);
          heap' := heap' + [h];
          assert heap' == heap + (pushed + [h]);
        } else {
          PushesNext(g, v, score, visited, k, []);
        }
      } else {
        PushesNext(g, v, score, visited, k, []);
      }
      k := k + 1;
    }
  }

  lemma SearchStart(g: Graph, s: nat)
    requires ValidGraph(g) && s < |g.nodes|
    ensures SolverInv(g, s, [Segment(0, s, None)], map[], map[])
  {
  }

  /** One round of the search loop: pop the best segment; on a node already
      settled, record the edge if it ties the node's score; otherwise settle
      the node and queue its unvisited neighbours. */
  method SearchStep(g: Graph, s: nat, heap: seq<Segment>, optimal: Optimal, visited: set<nat>,
                    ghost wit: map<nat, seq<nat>>)
    returns (heap': seq<Segment>, optimal': Optimal, visited': set<nat>, ghost wit': map<nat, seq<nat>>)
    requires ValidGraph(g) && s < |g.nodes| && heap != []
    requires visited == optimal.Keys && visited <= NodeRange(|g.nodes|)
    requires SolverInv(g, s, heap, optimal, wit)
    ensures visited' == optimal'.Keys && visited' <= NodeRange(|g.nodes|)
    ensures SolverInv(g, s, heap', optimal', wit')
    ensures visited < visited' || (visited' == visited && |heap'| < |heap|)
  {
    var popped := Pop(heap);
    var top := popped.0;
    var rest := popped.1;
    var node := top.node;
    assert EntryOk(g, s, optimal, top);
    if node in visited {
      var entry := optimal[node];
      optimal' := optimal;
      if top.score == entry.0 {
        optimal' := optimal[node := (entry.0, entry.1 + Arrival(top))];
      }
      RevisitStep(g, s, heap, top, rest, optimal, optimal', wit);
      heap', visited', wit' := rest, visited, wit;
    } else {
      heap', optimal', visited', wit' := Settle(g, s, heap, top, rest, optimal, visited, wit);
    }
  }

  /** The first pop of a node: settle it at the popped score and queue a
      segment along each incident edge to an unvisited node. */
  method Settle(g: Graph, s: nat, heap: seq<Segment>, top: Segment, rest: seq<Segment>, optimal: Optimal,
                visited: set<nat>, ghost wit: map<nat, seq<nat>>)
    returns (heap': seq<Segment>, optimal': Optimal, visited': set<nat>, ghost wit': map<nat, seq<nat>>)
    requires ValidGraph(g) && s < |g.nodes| && heap != [] && Pop(heap) == (top, rest)
    requires visited == optimal.Keys && visited <= NodeRange(|g.nodes|) && top.node !in visited
    requires SolverInv(g, s, heap, optimal, wit)
    ensures visited' == optimal'.Keys && visited' <= NodeRange(|g.nodes|) && visited < visited'
    ensures SolverInv(g, s, heap', optimal', wit')
  {
    var node := top.node;
    assert EntryOk(g, s, optimal, top);
    optimal' := optimal[node := (top.score, Arrival(top))];
    heap' := PushEdges(g, node, top.score, visited, rest);
    visited' := visited + {node};
    FirstVisitStep(g, s, heap, top, rest, optimal, optimal', heap', wit);
    wit' := wit[node := Witness(g, top, wit)];
  }

  /** The search loop of `part2`. Afterwards exactly the reachable nodes are
      settled, each at its least walk cost, and each records exactly its
      tight incident edges. */
  method TieTrackingSearch(g: Graph, s: nat) returns (optimal: Optimal)
    requires ValidGraph(g) && s < |g.nodes|
    ensures forall v: nat :: v in optimal <==> v < |g.nodes| && Reachable(g, s, v)
    ensures forall v: nat :: v in optimal ==> IsDistance(g, s, v, optimal[v].0)
    ensures TiesSound(g, optimal)
    ensures forall v: nat, k: nat :: Tight(g, optimal, v, k) ==> (k, v) in optimal[v].1
  {
    var visited: set<nat> := {};
    var heap := [Segment(0, s, None)];
    optimal := map[];
    ghost var wit: map<nat, seq<nat>> := map[];
    SearchStart(g, s);
    while heap != []
      invariant visited == optimal.Keys && visited <= NodeRange(|g.nodes|)
      invariant SolverInv(g, s, heap, optimal, wit)
      decreases NodeRange(|g.nodes|) - visited, |heap|
    {
      heap, optimal, visited, wit := SearchStep(g, s, heap, optimal, visited, wit);
    }
    SearchDone(g, s, optimal, wit);
  }

  /** The empty heap: every reachable node is settled at its distance. */
  lemma SearchDone(g: Graph, s: nat, opt: Optimal, wit: map<nat, seq<nat>>)
    requires ValidGraph(g) && s < |g.nodes| && SolverInv(g, s, [], opt, wit)
    ensures forall v: nat :: v in opt <==> v < |g.nodes| && Reachable(g, s, v)
    ensures forall v: nat :: v in opt ==> IsDistance(g, s, v, opt[v].0)
    ensures forall v: nat, k: nat :: Tight(g, opt, v, k) ==> (k, v) in opt[v].1
  {
    forall v: nat | v < |g.nodes| && Reachable(g, s, v)
      ensures v in opt
    {
      var es :| IsWalk(g, s, es) && WalkEnd(g, s, es) == v;
      if v !in opt {
        UnsettledHasEntry(g, s, [], opt, es);
      }
    }
    forall v: nat | v in opt
      ensures IsDistance(g, s, v, opt[v].0)
    {
      assert IsWalk(g, s, wit[v]) && WalkEnd(g, s, wit[v]) == v;
    }
  }
}
