/** Walks through the day 16 junction graph and what they cost: leaving a
    node along an edge costs the node's cost plus the edge's cost, which is
    the weight both searches of src/bin/day16.rs use (lines 218-223 and
    417-420). */
module Day16Walks {
  import opened Day16Graph

  /** What the searches rely on: edges join two distinct existing nodes, and
      every edge costs at least 1 (it spans at least one cell). */
  predicate ValidGraph(g: Graph) {
    forall k :: 0 <= k < |g.edges| ==>
      g.edges[k].source < |g.nodes| && g.edges[k].target < |g.nodes|
      && g.edges[k].source != g.edges[k].target && g.edges[k].cost >= 1
  }

  predicate Incident(e: Edge, v: nat) {
    e.source == v || e.target == v
  }

  /** The far end of `e` seen from `v`: what `edge.target()` gives for an edge
      of `graph.edges(v)` in an undirected graph. */
  function Other(e: Edge, v: nat): nat {
    if e.source == v then e.target else e.source
  }

  lemma OtherOther(e: Edge, v: nat)
    requires Incident(e, v) && e.source != e.target
    ensures Incident(e, Other(e, v)) && Other(e, Other(e, v)) == v && Other(e, v) != v
  {
  }

  /** The node reached from `v` along the edge indices `es`. */
  function WalkEnd(g: Graph, v: nat, es: seq<nat>): nat {
    if es == [] then v
    else
      var u := WalkEnd(g, v, es[..|es| - 1]);
      var k := es[|es| - 1];
      if k < |g.edges| then Other(g.edges[k], u) else u
  }

  /** Each edge index exists and leaves the node the walk has reached. */
  predicate IsWalk(g: Graph, v: nat, es: seq<nat>) {
    es == [] || (
      var k := es[|es| - 1];
      IsWalk(g, v, es[..|es| - 1]) && k < |g.edges| && Incident(g.edges[k], WalkEnd(g, v, es[..|es| - 1])))
  }

  /** Σ (cost of the node an edge leaves + cost of the edge). */
  function WalkCost(g: Graph, v: nat, es: seq<nat>): nat {
    if es == [] then 0
    else
      var u := WalkEnd(g, v, es[..|es| - 1]);
      var k := es[|es| - 1];
      WalkCost(g, v, es[..|es| - 1]) + (if u < |g.nodes| then g.nodes[u].cost else 0)
        + (if k < |g.edges| then g.edges[k].cost else 0)
  }

  /** A walk followed by another from where it ends. */
  lemma {:induction false} WalkAppend(g: Graph, v: nat, a: seq<nat>, b: seq<nat>)
    ensures WalkEnd(g, v, a + b) == WalkEnd(g, WalkEnd(g, v, a), b)
    ensures WalkCost(g, v, a + b) == WalkCost(g, v, a) + WalkCost(g, WalkEnd(g, v, a), b)
    ensures IsWalk(g, v, a + b) <==> IsWalk(g, v, a) && IsWalk(g, WalkEnd(g, v, a), b)
    decreases |b|
  {
    if b == [] {
      assert a + b == a;
    } else {
      var b' := b[..|b| - 1];
      assert (a + b)[..|a + b| - 1] == a + b';
      assert (a + b)[|a + b| - 1] == b[|b| - 1];
      WalkAppend(g, v, a, b');
    }
  }

  /** A walk of one more edge. */
  lemma WalkSnoc(g: Graph, v: nat, a: seq<nat>, k: nat)
    ensures WalkEnd(g, v, a + [k]) == (if k < |g.edges| then Other(g.edges[k], WalkEnd(g, v, a)) else WalkEnd(g, v, a))
    ensures IsWalk(g, v, a + [k]) <==> IsWalk(g, v, a) && k < |g.edges| && Incident(g.edges[k], WalkEnd(g, v, a))
    ensures var u := WalkEnd(g, v, a);
      WalkCost(g, v, a + [k]) == WalkCost(g, v, a) + (if u < |g.nodes| then g.nodes[u].cost else 0)
        + (if k < |g.edges| then g.edges[k].cost else 0)
  {
    assert (a + [k])[..|a + [k]| - 1] == a;
  }

  /** Every node a walk in a valid graph visits exists. */
  lemma {:induction false} WalkEndInGraph(g: Graph, v: nat, es: seq<nat>)
    requires ValidGraph(g) && v < |g.nodes| && IsWalk(g, v, es)
    ensures WalkEnd(g, v, es) < |g.nodes|
    decreases |es|
  {
    if es != [] {
      WalkEndInGraph(g, v, es[..|es| - 1]);
    }
  }

  ghost predicate Reachable(g: Graph, s: nat, v: nat) {
    exists es :: IsWalk(g, s, es) && WalkEnd(g, s, es) == v
  }

  /** Some walk from `s` to `v` costs `d`. */
  ghost predicate ReachesAt(g: Graph, s: nat, v: nat, d: nat) {
    exists es :: IsWalk(g, s, es) && WalkEnd(g, s, es) == v && WalkCost(g, s, es) == d
  }

  /** No walk from `s` to `v` costs less than `d`. */
  ghost predicate NoCheaper(g: Graph, s: nat, v: nat, d: nat) {
    forall es {:trigger WalkCost(g, s, es)} :: IsWalk(g, s, es) && WalkEnd(g, s, es) == v ==> WalkCost(g, s, es) >= d
  }

  /** `d` is the least cost of a walk from `s` to `v`, and some walk costs it. */
  ghost predicate IsDistance(g: Graph, s: nat, v: nat, d: nat) {
    ReachesAt(g, s, v, d) && NoCheaper(g, s, v, d)
  }

  /** The last edge of a least-cost walk: the walk before it is a least-cost
      walk to the node the edge leaves, and that node's distance plus the
      edge's weight is the distance at the end. */
  lemma LeastPrefix(g: Graph, s: nat, es: seq<nat>, du: nat, dw: nat)
    requires ValidGraph(g) && s < |g.nodes| && IsWalk(g, s, es) && es != []
    requires WalkCost(g, s, es) == dw && IsDistance(g, s, WalkEnd(g, s, es), dw)
    requires IsDistance(g, s, WalkEnd(g, s, es[..|es| - 1]), du)
    ensures var init := es[..|es| - 1];
      var k := es[|es| - 1];
      var u := WalkEnd(g, s, init);
      && IsWalk(g, s, init) && u < |g.nodes| && k < |g.edges| && Incident(g.edges[k], u)
      && WalkCost(g, s, init) == du && du + g.nodes[u].cost + g.edges[k].cost == dw
  {
    var init := es[..|es| - 1];
    var k := es[|es| - 1];
    var u := WalkEnd(g, s, init);
    WalkEndInGraph(g, s, init);
    var wu :| IsWalk(g, s, wu) && WalkEnd(g, s, wu) == u && WalkCost(g, s, wu) == du;
    WalkSnoc(g, s, wu, k);
    assert WalkCost(g, s, wu + [k]) >= dw;
    assert WalkCost(g, s, init) >= du;
  }

  /** The least walk cost is unique. */
  lemma DistanceUnique(g: Graph, s: nat, v: nat, d: nat, d': nat)
    requires IsDistance(g, s, v, d) && IsDistance(g, s, v, d')
    ensures d == d'
  {
    var es :| IsWalk(g, s, es) && WalkEnd(g, s, es) == v && WalkCost(g, s, es) == d;
    var es' :| IsWalk(g, s, es') && WalkEnd(g, s, es') == v && WalkCost(g, s, es') == d';
  }

  /** A walk from `s` to `t` of least cost. */
  ghost predicate OptimalWalk(g: Graph, s: nat, t: nat, es: seq<nat>) {
    IsWalk(g, s, es) && WalkEnd(g, s, es) == t
    && forall es' {:trigger WalkCost(g, s, es')} :: IsWalk(g, s, es') && WalkEnd(g, s, es') == t ==> WalkCost(g, s, es) <= WalkCost(g, s, es')
  }
}
