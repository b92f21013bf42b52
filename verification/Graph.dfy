/** The token graph, its walks, and one relaxation run as a function of the graph
    (crates/strategy-core/src/graph.rs). */
module Graph {
  import opened Common
  import opened Types

  /** A directed edge; `weight` is the negated logarithm of the exchange rate. */
  datatype Edge = Edge(from: Address, to: Address, pool: PoolRef, weight: real)

  /** The value of a token graph: adjacency lists and the nodes in insertion order. */
  datatype Market = Market(adj: map<Address, seq<Edge>>, nodes: seq<Address>)

  const EMPTY_MARKET := Market(map[], [])

  function WithNode(g: Market, token: Address): Market {
    if token in g.adj then g else Market(g.adj[token := []], g.nodes + [token])
  }

  function WithEdge(g: Market, e: Edge): Market {
    g.(adj := g.adj[e.from := (if e.from in g.adj then g.adj[e.from] else []) + [e]])
  }

  /** Both directions of a pool, with the weights of its two rates. */
  function WithPool(g: Market, pool: PoolRef, weight01: real, weight10: real): Market {
    var g2 := WithNode(WithNode(g, pool.token0), pool.token1);
    WithEdge(WithEdge(g2, Edge(pool.token0, pool.token1, pool, weight01)),
             Edge(pool.token1, pool.token0, pool, weight10))
  }

  predicate Joins(e: Edge) {
    || (e.from == e.pool.token0 && e.to == e.pool.token1)
    || (e.from == e.pool.token1 && e.to == e.pool.token0)
  }

  predicate HasEdge(g: Market, e: Edge) {
    e.from in g.adj && e in g.adj[e.from]
  }

  ghost predicate ValidMarket(g: Market) {
    && NoDuplicates(g.nodes)
    && (forall n :: n in g.nodes <==> n in g.adj)
    && (forall n, i :: n in g.adj && 0 <= i < |g.adj[n]| ==> g.adj[n][i].from == n)
    && (forall e :: HasEdge(g, e) ==> e.to in g.adj && Joins(e))
  }

  /** Adding a pool keeps the graph well formed and adds exactly that pool's two edges. */
  lemma WithPoolAddsItsEdges(g: Market, pool: PoolRef, weight01: real, weight10: real)
    requires ValidMarket(g)
    ensures
      var g' := WithPool(g, pool, weight01, weight10);
      && ValidMarket(g')
      && g.nodes <= g'.nodes
      && (forall n :: n in g'.nodes <==> n in g.nodes || n == pool.token0 || n == pool.token1)
      && (forall e :: HasEdge(g', e) <==>
            || HasEdge(g, e)
            || e == Edge(pool.token0, pool.token1, pool, weight01)
            || e == Edge(pool.token1, pool.token0, pool, weight10))
  {
    var g1 := WithNode(g, pool.token0);
    WithNodeKeepsEdges(g, pool.token0);
    var g2 := WithNode(g1, pool.token1);
    WithNodeKeepsEdges(g1, pool.token1);
    var e01 := Edge(pool.token0, pool.token1, pool, weight01);
    WithEdgeAddsIt(g2, e01);
    WithEdgeAddsIt(WithEdge(g2, e01), Edge(pool.token1, pool.token0, pool, weight10));
  }

  /** The lists themselves: each direction goes to the end of its token's list, and new tokens go to
      the end of the nodes, token0 first. */
  lemma WithPoolAppends(g: Market, pool: PoolRef, weight01: real, weight10: real)
    requires ValidMarket(g)
    ensures
      var g' := WithPool(g, pool, weight01, weight10);
      && g'.nodes == g.nodes + (if pool.token0 in g.nodes then [] else [pool.token0])
                   + (if pool.token1 in g.nodes || pool.token1 == pool.token0 then [] else [pool.token1])
      && (forall t :: t in g'.adj <==> t in g.adj || t == pool.token0 || t == pool.token1)
      && (forall t :: t in g'.adj ==>
            g'.adj[t] == (if t in g.adj then g.adj[t] else [])
                       + (if t == pool.token0 then [Edge(pool.token0, pool.token1, pool, weight01)] else [])
                       + (if t == pool.token1 then [Edge(pool.token1, pool.token0, pool, weight10)] else []))
  {
    var g2 := WithNode(WithNode(g, pool.token0), pool.token1);
    var g3 := WithEdge(g2, Edge(pool.token0, pool.token1, pool, weight01));
    assert g2.nodes == g.nodes + (if pool.token0 in g.nodes then [] else [pool.token0])
                     + (if pool.token1 in g.nodes || pool.token1 == pool.token0 then [] else [pool.token1]);
  }

  lemma WithNodeKeepsEdges(g: Market, token: Address)
    requires ValidMarket(g)
    ensures
      var g' := WithNode(g, token);
      && ValidMarket(g')
      && g.nodes <= g'.nodes
      && (forall n :: n in g'.nodes <==> n in g.nodes || n == token)
      && (forall e :: HasEdge(g', e) <==> HasEdge(g, e))
  {
    var g' := WithNode(g, token);
    forall e ensures HasEdge(g', e) <==> HasEdge(g, e) {}
  }

  lemma WithEdgeAddsIt(g: Market, e: Edge)
    requires ValidMarket(g) && e.from in g.adj && e.to in g.adj && Joins(e)
    ensures
      var g' := WithEdge(g, e);
      && ValidMarket(g')
      && g'.nodes == g.nodes
      && (forall f :: HasEdge(g', f) <==> HasEdge(g, f) || f == e)
  {
    var g' := WithEdge(g, e);
    forall f ensures HasEdge(g', f) <==> HasEdge(g, f) || f == e {
      if f == e {
        assert g'.adj[e.from][|g.adj[e.from]|] == e;
      }
    }
  }

  // ----- walks -----

  function Weight(es: seq<Edge>): real {
    if es == [] then 0.0 else Weight(es[..|es| - 1]) + es[|es| - 1].weight
  }

  /** `es` is a walk of the graph from `a` to `b`; the empty walk stays where it is. */
  ghost predicate IsWalk(g: Market, es: seq<Edge>, a: Address, b: Address) {
    && (forall i :: 0 <= i < |es| ==> HasEdge(g, es[i]))
    && (forall i :: 0 <= i < |es| - 1 ==> es[i].to == es[i + 1].from)
    && (if es == [] then a == b else es[0].from == a && es[|es| - 1].to == b)
  }

  ghost predicate HasWalk(g: Market, a: Address, b: Address, w: real) {
    exists es :: IsWalk(g, es, a, b) && Weight(es) == w
  }

  ghost predicate IsClosedWalk(g: Market, es: seq<Edge>) {
    es != [] && IsWalk(g, es, es[0].from, es[0].from)
  }

  /** A closed walk that enters no token twice. */
  ghost predicate IsSimpleLoop(g: Market, es: seq<Edge>) {
    && IsClosedWalk(g, es)
    && forall i, j :: 0 <= i < j < |es| ==> es[i].to != es[j].to
  }

  ghost predicate Avoids(es: seq<Edge>, token: Address) {
    forall i :: 0 <= i < |es| ==> es[i].to != token
  }

  // ----- relaxation -----

  /** What the search knows: the weight reached for each reached token, and the edge that last
      lowered it.  A token absent from `dist` is at infinity. */
  datatype Labels = Labels(dist: map<Address, real>, pred: map<Address, Edge>)

  function Seeded(start: Address): Labels {
    Labels(map[start := 0.0], map[])
  }

  /** Relax one edge from a token scanned at weight `d`. */
  function Lower(l: Labels, d: real, e: Edge): Labels {
    if e.to !in l.dist || d + e.weight < l.dist[e.to]
    then Labels(l.dist[e.to := d + e.weight], l.pred[e.to := e])
    else l
  }

  function ScanEdges(l: Labels, d: real, es: seq<Edge>): Labels {
    if es == [] then l
    else Lower(ScanEdges(l, d, es[..|es| - 1]), d, es[|es| - 1])
  }

  /** Scan one token: its weight is read once, before its edges are relaxed. */
  function ScanNode(g: Market, l: Labels, n: Address): Labels {
    if n in l.dist && n in g.adj then ScanEdges(l, l.dist[n], g.adj[n]) else l
  }

  function ScanNodes(g: Market, l: Labels, ns: seq<Address>): Labels {
    if ns == [] then l
    else ScanNode(g, ScanNodes(g, l, ns[..|ns| - 1]), ns[|ns| - 1])
  }

  function Pass(g: Market, l: Labels): Labels {
    ScanNodes(g, l, g.nodes)
  }

  function Passes(g: Market, l: Labels, k: nat): Labels {
    if k == 0 then l else Pass(g, Passes(g, l, k - 1))
  }

  /** Once a pass changes nothing, no later pass does; this is why the early exit is sound. */
  lemma {:induction false} QuietPassIsFinal(g: Market, l: Labels, k: nat, more: nat)
    requires Pass(g, Passes(g, l, k)) == Passes(g, l, k)
    ensures Passes(g, l, k + more) == Passes(g, l, k)
  {
    if more > 0 {
      QuietPassIsFinal(g, l, k, more - 1);
    }
  }

  // ----- predecessor chains -----

  /** The chain of predecessor edges from `start` to `token`, followed for at most `fuel` steps. */
  function Chain(l: Labels, start: Address, token: Address, fuel: nat): Option<seq<Edge>>
    decreases fuel, token
  {
    if token == start then Some([])
    else if fuel == 0 || token !in l.pred then None
    else match Chain(l, start, l.pred[token].from, fuel - 1)
      case None => None
      case Some(p) => Some(p + [l.pred[token]])
  }

  /** The guard in `reconstruct` gives up on its 17th step. */
  const MAX_CHAIN: nat := 16

  function HopOf(e: Edge): Hop {
    Hop(e.pool, e.from, e.to, e.pool.token0 == e.from)
  }

  function RouteOf(es: seq<Edge>): (r: Route)
    ensures |r.hops| == |es|
    ensures forall i :: 0 <= i < |es| ==> r.hops[i] == HopOf(es[i])
  {
    Route(seq(|es|, i requires 0 <= i < |es| => HopOf(es[i])))
  }

  datatype Cycle = Cycle(route: Route, logProfit: real)

  /** `c` is reported for the walk `p + [e]`: `p` is the predecessor chain of a reached token other
      than `start`, `e` closes it back to `start`, and the closing test succeeds. */
  ghost predicate Reported(g: Market, l: Labels, start: Address, minLogProfit: real,
                           c: Cycle, p: seq<Edge>, e: Edge)
  {
    && HasEdge(g, e) && e.to == start && e.from != start
    && e.from in l.dist
    && l.dist[e.from] + e.weight < -minLogProfit
    && Chain(l, start, e.from, MAX_CHAIN) == Some(p)
    && c == Cycle(RouteOf(p + [e]), -(l.dist[e.from] + e.weight))
  }

  ghost predicate IsCandidate(g: Market, l: Labels, start: Address, minLogProfit: real, c: Cycle) {
    exists p, e :: Reported(g, l, start, minLogProfit, c, p, e)
  }
}
