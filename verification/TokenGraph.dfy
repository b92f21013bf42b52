/** The mutable token graph and its search (crates/strategy-core/src/graph.rs). */
module TokenGraph {
  import opened Common
  import opened Types
  import opened Graph
  import opened Invariants
  import opened Chains
  import opened SearchTheorems
  import opened Ranking

  /** A weight that may be infinite, as in the `dist` map. */
  datatype Distance = Finite(w: real) | Infinity {
    predicate Above(x: real) { Infinity? || x < w }
  }

  /** How a token was last reached: from which token and through which pool. */
  datatype Step = Step(from: Address, pool: PoolRef)

  type DistMap = map<Address, Distance>
  type PrevMap = map<Address, Option<Step>>

  function At(dist: DistMap, n: Address): Distance {
    if n in dist then dist[n] else Infinity
  }

  /** The two maps hold exactly what the labels say. */
  ghost predicate Holds(dist: DistMap, prev: PrevMap, l: Labels) {
    && (forall n :: n in l.dist ==> At(dist, n) == Finite(l.dist[n]))
    && (forall n :: n in dist && dist[n].Finite? ==> n in l.dist)
    && (forall n :: n in l.pred ==> n in prev && prev[n] == Some(Step(l.pred[n].from, l.pred[n].pool)))
    && (forall n :: n in prev && prev[n].Some? ==> n in l.pred)
  }

  /** The map updates of one relaxation are those of `Lower`. */
  lemma LowerHolds(dist: DistMap, prev: PrevMap, l: Labels, d: real, e: Edge)
    requires Holds(dist, prev, l)
    ensures At(dist, e.to).Above(d + e.weight) ==>
              Holds(dist[e.to := Finite(d + e.weight)], prev[e.to := Some(Step(e.from, e.pool))], Lower(l, d, e))
    ensures !At(dist, e.to).Above(d + e.weight) ==> Lower(l, d, e) == l
  {
  }

  function Reversed<T>(s: seq<T>): (r: seq<T>)
    ensures |r| == |s| && forall i :: 0 <= i < |s| ==> r[i] == s[|s| - 1 - i]
  {
    seq(|s|, i requires 0 <= i < |s| => s[|s| - 1 - i])
  }

  /** The chain of `end` is the chain of `cur` followed by `tail`. */
  ghost predicate ChainVia(l: Labels, start: Address, end: Address, cur: Address, tail: seq<Edge>) {
    && |tail| <= MAX_CHAIN
    && Chain(l, start, end, MAX_CHAIN) ==
       match Chain(l, start, cur, MAX_CHAIN - |tail|)
       case None => None
       case Some(p) => Some(p + tail)
  }

  lemma StartVia(l: Labels, start: Address, end: Address)
    ensures ChainVia(l, start, end, end, [])
  {
    match Chain(l, start, end, MAX_CHAIN)
    case None =>
    case Some(p) => assert p + [] == p;
  }

  lemma StepVia(l: Labels, start: Address, end: Address, cur: Address, tail: seq<Edge>)
    requires ChainVia(l, start, end, cur, tail) && cur != start && cur in l.pred && |tail| < MAX_CHAIN
    ensures ChainVia(l, start, end, l.pred[cur].from, [l.pred[cur]] + tail)
  {
    var e := l.pred[cur];
    match Chain(l, start, e.from, MAX_CHAIN - |tail| - 1)
    case None =>
    case Some(p) => assert (p + [e]) + tail == p + ([e] + tail);
  }

  /** `tail` runs from `cur` to `end`, and the two reversed vectors record it. */
  ghost predicate Backwards(g: Market, tail: seq<Edge>, cur: Address, end: Address,
                            nodesRev: seq<Address>, edgesRev: seq<PoolRef>)
  {
    && IsWalk(g, tail, cur, end)
    && |nodesRev| == |edgesRev| == |tail|
    && (forall i :: 0 <= i < |tail| ==> edgesRev[i] == tail[|tail| - 1 - i].pool)
    && (forall i :: 0 <= i < |tail| ==> nodesRev[i] == tail[|tail| - 1 - i].to)
  }

  lemma HopIsOriented(g: Market, e: Edge)
    requires ValidMarket(g) && HasEdge(g, e)
    ensures HopThrough(e.pool, e.from) == HopOf(e)
  {
  }

  /** Turned round, the two vectors give the hops of the walk. */
  lemma ForwardVectors(g: Market, tail: seq<Edge>, start: Address, end: Address,
                       nodesRev: seq<Address>, edgesRev: seq<PoolRef>)
    requires ValidMarket(g) && |nodesRev| == |tail| + 1 && nodesRev[|tail|] == start
    requires Backwards(g, tail, start, end, nodesRev[..|tail|], edgesRev)
    ensures forall i :: 0 <= i < |tail| ==> HopThrough(Reversed(edgesRev)[i], Reversed(nodesRev)[i]) == HopOf(tail[i])
  {
    forall i | 0 <= i < |tail|
      ensures HopThrough(Reversed(edgesRev)[i], Reversed(nodesRev)[i]) == HopOf(tail[i])
    {
      ForwardNode(g, tail, start, end, nodesRev, edgesRev, i);
      HopIsOriented(g, tail[i]);
    }
  }

  lemma ForwardNode(g: Market, tail: seq<Edge>, start: Address, end: Address,
                    nodesRev: seq<Address>, edgesRev: seq<PoolRef>, i: nat)
    requires i < |tail| && |nodesRev| == |tail| + 1 && nodesRev[|tail|] == start
    requires Backwards(g, tail, start, end, nodesRev[..|tail|], edgesRev)
    ensures Reversed(nodesRev)[i] == tail[i].from && Reversed(edgesRev)[i] == tail[i].pool
    ensures HasEdge(g, tail[i])
  {
    var k := |tail| - i;
    assert Reversed(nodesRev)[i] == nodesRev[k];
    if i > 0 {
      assert nodesRev[..|tail|][k] == nodesRev[k] == tail[i - 1].to;
      assert tail[i - 1].to == tail[i].from;
    }
  }

  lemma RouteFromHops(tail: seq<Edge>, closing: Edge, hops: seq<Hop>)
    requires |hops| == |tail| + 1 && hops[|tail|] == HopOf(closing)
    requires forall k :: 0 <= k < |tail| ==> hops[k] == HopOf(tail[k])
    ensures Route(hops) == RouteOf(tail + [closing])
  {
    assert hops == RouteOf(tail + [closing]).hops;
  }

  lemma StepBackwards(g: Market, e: Edge, tail: seq<Edge>, end: Address,
                      nodesRev: seq<Address>, edgesRev: seq<PoolRef>)
    requires HasEdge(g, e) && Backwards(g, tail, e.to, end, nodesRev, edgesRev)
    ensures Backwards(g, [e] + tail, e.from, end, nodesRev + [e.to], edgesRev + [e.pool])
  {
  }

  /** Every report closed by an edge out of `token` has been collected. */
  ghost predicate Collected(g: Market, l: Labels, start: Address, minLogProfit: real,
                            token: Address, cycles: seq<Cycle>)
  {
    forall c, p, e :: Reported(g, l, start, minLogProfit, c, p, e) && e.from == token ==> c in cycles
  }

  /** Every report closed by one of the edges `es` has been collected. */
  ghost predicate CollectedFrom(g: Market, l: Labels, start: Address, minLogProfit: real,
                                es: seq<Edge>, cycles: seq<Cycle>)
  {
    forall c, p, e :: Reported(g, l, start, minLogProfit, c, p, e) && e in es ==> c in cycles
  }

  /** No pool address contains the separator of the signature. */
  ghost predicate PlainAddresses(g: Market) {
    forall e :: HasEdge(g, e) ==> '>' !in e.pool.address
  }

  /** Every candidate is backed by walks of the graph, and with plain addresses its pools can be told
      from its signature. */
  lemma CandidatesAreBacked(g: Market, start: Address, maxHops: nat, minLogProfit: real, cycles: seq<Cycle>)
    requires ValidMarket(g)
    requires forall c :: c in cycles ==> IsCandidate(g, Passes(g, Seeded(start), maxHops), start, minLogProfit, c)
    ensures forall c :: c in cycles ==> Backed(g, start, minLogProfit, c)
    ensures PlainAddresses(g) ==> forall c :: c in cycles ==> Separable(c.route)
  {
    var l := Passes(g, Seeded(start), maxHops);
    SoundAfterPasses(g, start, maxHops);
    forall c | c in cycles
      ensures Backed(g, start, minLogProfit, c) && (PlainAddresses(g) ==> Separable(c.route))
    {
      var p, e :| Reported(g, l, start, minLogProfit, c, p, e);
      ReportIsBacked(g, l, start, minLogProfit, c, p, e);
      if PlainAddresses(g) {
        BackedIsSeparable(g, start, minLogProfit, c, p, e);
      }
    }
  }

  lemma BackedIsSeparable(g: Market, start: Address, minLogProfit: real, c: Cycle, p: seq<Edge>, e: Edge)
    requires PlainAddresses(g) && BackedBy(g, start, minLogProfit, c, p, e)
    ensures Separable(c.route)
  {
    forall i | 0 <= i < |c.route.hops| ensures '>' !in c.route.hops[i].pool.address {
      assert HasEdge(g, (p + [e])[i]);
    }
  }

  class TokenGraph {
    var adj: map<Address, seq<Edge>>
    var nodes: seq<Address>

    ghost function View(): Market
      reads this
    {
      Market(adj, nodes)
    }

    ghost predicate Valid()
      reads this
    {
      ValidMarket(View())
    }

    constructor ()
      ensures Valid() && View() == EMPTY_MARKET
    {
      adj, nodes := map[], [];
    }

    /** Insert a pool as two directed edges, each weighing the negated logarithm of its rate. */
    method AddPool(pool: PoolRef, rate01: real, rate10: real, ln: real -> real)
      requires Valid()
      modifies this
      ensures Valid() && View() == WithPool(old(View()), pool, -ln(rate01), -ln(rate10))
    {
      var weight01, weight10 := -ln(rate01), -ln(rate10);
      WithPoolAddsItsEdges(View(), pool, weight01, weight10);
      EnsureNode(pool.token0);
      EnsureNode(pool.token1);
      PushEdge(Edge(pool.token0, pool.token1, pool, weight01));
      PushEdge(Edge(pool.token1, pool.token0, pool, weight10));
    }

    method EnsureNode(token: Address)
      modifies this
      ensures View() == WithNode(old(View()), token)
    {
      if token !in adj {
        nodes := nodes + [token];
        adj := adj[token := []];
      }
    }

    method PushEdge(e: Edge)
      modifies this
      ensures View() == WithEdge(old(View()), e)
    {
      adj := adj[e.from := (if e.from in adj then adj[e.from] else []) + [e]];
    }

    /** Relax one edge. */
    method RelaxEdge(e: Edge, dFrom: real, dist0: DistMap, prev0: PrevMap, ghost l: Labels)
      returns (dist: DistMap, prev: PrevMap, changed: bool)
      requires Holds(dist0, prev0, l)
      ensures Holds(dist, prev, Lower(l, dFrom, e))
      ensures !changed ==> Lower(l, dFrom, e) == l
    {
      dist, prev := dist0, prev0;
      var nd := dFrom + e.weight;
      LowerHolds(dist, prev, l, dFrom, e);
      changed := At(dist, e.to).Above(nd);
      if changed {
        dist := dist[e.to := Finite(nd)];
        prev := prev[e.to := Some(Step(e.from, e.pool))];
      }
    }

    /** Relax every edge out of `from`, whose weight was read once as `dFrom`. */
    method RelaxEdges(from: Address, dFrom: real, dist0: DistMap, prev0: PrevMap, ghost l: Labels)
      returns (dist: DistMap, prev: PrevMap, changed: bool)
      requires from in adj && Holds(dist0, prev0, l)
      ensures Holds(dist, prev, ScanEdges(l, dFrom, adj[from]))
      ensures !changed ==> ScanEdges(l, dFrom, adj[from]) == l
    {
      dist, prev, changed := dist0, prev0, false;
      var edges := adj[from];
      for j := 0 to |edges|
        invariant Holds(dist, prev, ScanEdges(l, dFrom, edges[..j]))
        invariant !changed ==> ScanEdges(l, dFrom, edges[..j]) == l
      {
        assert edges[..j + 1][..j] == edges[..j];
        var lowered;
        dist, prev, lowered := RelaxEdge(edges[j], dFrom, dist, prev, ScanEdges(l, dFrom, edges[..j]));
        changed := changed || lowered;
      }
      assert edges[..|edges|] == edges;
    }

    /** One pass over all nodes. */
    method RelaxPass(dist0: DistMap, prev0: PrevMap, ghost l: Labels)
      returns (dist: DistMap, prev: PrevMap, changed: bool)
      requires Valid() && Holds(dist0, prev0, l)
      ensures Holds(dist, prev, Pass(View(), l))
      ensures !changed ==> Pass(View(), l) == l
    {
      dist, prev, changed := dist0, prev0, false;
      ghost var now := l;
      for i := 0 to |nodes|
        invariant now == ScanNodes(View(), l, nodes[..i])
        invariant Holds(dist, prev, now)
        invariant !changed ==> now == l
      {
        assert nodes[..i + 1][..i] == nodes[..i];
        var from := nodes[i];
        var dFrom := At(dist, from);
        if dFrom.Finite? {
          var scanned;
          dist, prev, scanned := RelaxEdges(from, dFrom.w, dist, prev, now);
          changed := changed || scanned;
        }
        now := ScanNode(View(), now, from);
      }
      assert nodes[..|nodes|] == nodes;
    }

    method Seed(start: Address) returns (dist: DistMap, prev: PrevMap)
      ensures Holds(dist, prev, Seeded(start))
    {
      dist := map n | n in nodes :: Infinity;
      prev := map n | n in nodes :: None;
      dist := dist[start := Finite(0.0)];
    }

    /** The relaxation phase.  Leaving the loop at the first quiet pass gives the labels of all
        `maxHops` passes. */
    method RelaxAll(start: Address, maxHops: nat) returns (dist: DistMap, prev: PrevMap)
      requires Valid()
      ensures Holds(dist, prev, Passes(View(), Seeded(start), maxHops))
    {
      dist, prev := Seed(start);
      for pass := 0 to maxHops
        invariant Holds(dist, prev, Passes(View(), Seeded(start), pass))
      {
        var changed;
        dist, prev, changed := RelaxPass(dist, prev, Passes(View(), Seeded(start), pass));
        if !changed {
          QuietPassIsFinal(View(), Seeded(start), pass, maxHops - pass);
          break;
        }
      }
    }

    /** Walk back from `end` to `start`; the result is the route of the predecessor chain closed by
        `closing`, and there is none exactly when the chain does not reach `start` within the guard. */
    method Reconstruct(start: Address, end: Address, prev: PrevMap, closingPool: PoolRef,
                       ghost dist: DistMap, ghost l: Labels, ghost closing: Edge)
      returns (r: Option<Route>)
      requires Valid() && PredOk(View(), l) && Holds(dist, prev, l)
      requires HasEdge(View(), closing) && closing.from == end && closing.pool == closingPool
      ensures r == match Chain(l, start, end, MAX_CHAIN)
                   case None => None
                   case Some(p) => Some(RouteOf(p + [closing]))
    {
      ghost var g := View();
      var nodesRev: seq<Address> := [];
      var edgesRev: seq<PoolRef> := [];
      ghost var tail: seq<Edge> := [];
      var cur := end;
      var guard := 0;
      StartVia(l, start, end);
      while cur != start
        invariant guard <= MAX_CHAIN && guard == |tail|
        invariant ChainVia(l, start, end, cur, tail)
        invariant Backwards(g, tail, cur, end, nodesRev, edgesRev)
        decreases MAX_CHAIN - guard
      {
        nodesRev := nodesRev + [cur];
        if cur !in prev {
          return None;
        }
        match prev[cur] {
          case None =>
            return None;
          case Some(step) =>
            edgesRev := edgesRev + [step.pool];
            if guard < MAX_CHAIN {
              StepVia(l, start, end, cur, tail);
              StepBackwards(g, l.pred[cur], tail, end, nodesRev[..guard], edgesRev[..guard]);
            }
            tail := [l.pred[cur]] + tail;
            cur := step.from;
        }
        guard := guard + 1;
        if guard > MAX_CHAIN {
          return None;
        }
      }
      assert [] + tail == tail;
      assert (nodesRev + [start])[..|tail|] == nodesRev;
      var route := BuildRoute(start, end, nodesRev + [start], edgesRev, closingPool, tail, closing);
      return Some(route);
    }

    /** Turn the reversed vectors round and build one hop per edge, then the closing hop. */
    method BuildRoute(start: Address, end: Address, nodesRev: seq<Address>, edgesRev: seq<PoolRef>,
                      closingPool: PoolRef, ghost tail: seq<Edge>, ghost closing: Edge) returns (r: Route)
      requires Valid() && |nodesRev| == |tail| + 1 && nodesRev[|tail|] == start
      requires Backwards(View(), tail, start, end, nodesRev[..|tail|], edgesRev)
      requires HasEdge(View(), closing) && closing.from == end && closing.pool == closingPool
      ensures r == RouteOf(tail + [closing])
    {
      var nodes := Reversed(nodesRev);
      var edges := Reversed(edgesRev);
      ForwardVectors(View(), tail, start, end, nodesRev, edgesRev);
      var hops: seq<Hop> := [];
      for i := 0 to |edges|
        invariant |hops| == i && forall k :: 0 <= k < i ==> hops[k] == HopOf(tail[k])
      {
        hops := hops + [HopThrough(edges[i], nodes[i])];
      }
      HopIsOriented(View(), closing);
      hops := hops + [HopThrough(closingPool, end)];
      RouteFromHops(tail, closing, hops);
      r := Route(hops);
    }

    /** The closing test on one edge: the cycle it reports, if any. */
    method TryClose(start: Address, d: real, e: Edge, minLogProfit: real, dist: DistMap, prev: PrevMap,
                    ghost l: Labels) returns (found: Option<Cycle>)
      requires Valid() && PredOk(View(), l) && Holds(dist, prev, l)
      requires HasEdge(View(), e) && e.from != start && e.from in l.dist && l.dist[e.from] == d
      ensures found.Some? ==> IsCandidate(View(), l, start, minLogProfit, found.value)
      ensures forall c, p :: Reported(View(), l, start, minLogProfit, c, p, e) ==> found == Some(c)
    {
      if e.to != start {
        return None;
      }
      var total := d + e.weight;
      if total < -minLogProfit {
        var rec := Reconstruct(start, e.from, prev, e.pool, dist, l, e);
        if rec.Some? {
          ghost var p := Chain(l, start, e.from, MAX_CHAIN).value;
          assert Reported(View(), l, start, minLogProfit, Cycle(rec.value, -total), p, e);
          ReportedRouteIsSimpleCycle(View(), l, start, minLogProfit, Cycle(rec.value, -total), p, e);
          var simple := rec.value.IsSimpleCycle();
          if simple {
            return Some(Cycle(rec.value, -total));
          }
        }
      }
      return None;
    }

    /** Collect what the closing edges of one token report. */
    method CollectFrom(start: Address, token: Address, minLogProfit: real, dist: DistMap, prev: PrevMap,
                       ghost l: Labels, cycles0: seq<Cycle>) returns (cycles: seq<Cycle>)
      requires Valid() && PredOk(View(), l) && Holds(dist, prev, l)
      requires token in dist && dist[token].Finite? && token != start && token in adj
      requires forall c :: c in cycles0 ==> IsCandidate(View(), l, start, minLogProfit, c)
      ensures forall c :: c in cycles ==> IsCandidate(View(), l, start, minLogProfit, c)
      ensures forall c :: c in cycles0 ==> c in cycles
      ensures Collected(View(), l, start, minLogProfit, token, cycles)
    {
      cycles := cycles0;
      var d := dist[token].w;
      var edges := adj[token];
      for j := 0 to |edges|
        invariant forall c :: c in cycles ==> IsCandidate(View(), l, start, minLogProfit, c)
        invariant forall c :: c in cycles0 ==> c in cycles
        invariant CollectedFrom(View(), l, start, minLogProfit, edges[..j], cycles)
      {
        assert edges[..j + 1] == edges[..j] + [edges[j]];
        var found := TryClose(start, d, edges[j], minLogProfit, dist, prev, l);
        if found.Some? {
          cycles := cycles + [found.value];
        }
      }
      assert edges[..|edges|] == edges;
    }

    /** Collect every report, in whatever order the map is walked. */
    method CollectCycles(start: Address, minLogProfit: real, dist: DistMap, prev: PrevMap, ghost l: Labels)
      returns (cycles: seq<Cycle>)
      requires Valid() && PredOk(View(), l) && Holds(dist, prev, l)
      ensures forall c :: c in cycles <==> IsCandidate(View(), l, start, minLogProfit, c)
    {
      cycles := [];
      if start !in adj {
        return;
      }
      var pending := dist.Keys;
      while pending != {}
        invariant forall c :: c in cycles ==> IsCandidate(View(), l, start, minLogProfit, c)
        invariant forall t :: t in dist && t !in pending ==> Collected(View(), l, start, minLogProfit, t, cycles)
        invariant pending <= dist.Keys
        decreases pending
      {
        var token :| token in pending;
        pending := pending - {token};
        if dist[token].Infinity? || token == start {
          continue;
        }
        if token in adj {
          cycles := CollectFrom(start, token, minLogProfit, dist, prev, l, cycles);
        }
      }
    }

    method FindCycles(start: Address, maxHops: nat, minLogProfit: real, maxResults: nat)
      returns (out: seq<Cycle>, ghost cycles: seq<Cycle>)
      requires Valid()
      ensures forall c :: c in cycles <==>
                IsCandidate(View(), Passes(View(), Seeded(start), maxHops), start, minLogProfit, c)
      ensures IsRanking(out, cycles, if maxResults == 0 then 1 else maxResults)
      ensures forall c :: c in out ==> Backed(View(), start, minLogProfit, c)
      ensures PlainAddresses(View()) ==> RanksPools(out, cycles, if maxResults == 0 then 1 else maxResults)
      ensures GenuineCycles(start, out)
      ensures ArbitrageFree(View()) && minLogProfit >= 0.0 ==> out == []
      ensures NoNegativeLoopAvoiding(View(), start) && |View().nodes| <= MAX_CHAIN + 1 ==>
                forall cycle :: ProfitableCycle(View(), start, maxHops, minLogProfit, cycle)
                                ==> out != [] && out[0].logProfit >= -Weight(cycle)
    {
      var dist, prev := RelaxAll(start, maxHops);
      ghost var l := Passes(View(), Seeded(start), maxHops);
      SoundAfterPasses(View(), start, maxHops);
      var found := CollectCycles(start, minLogProfit, dist, prev, l);
      out := Rank(found, maxResults);
      cycles := found;
      CandidatesAreBacked(View(), start, maxHops, minLogProfit, cycles);
      ResultGuarantees(View(), start, maxHops, minLogProfit, if maxResults == 0 then 1 else maxResults, cycles, out);
    }
  }

  /** The hop that trades `tokenIn` on a pool, oriented by comparing it with token0. */
  function HopThrough(pool: PoolRef, tokenIn: Address): Hop {
    var zeroForOne := pool.token0 == tokenIn;
    Hop(pool, tokenIn, if zeroForOne then pool.token1 else pool.token0, zeroForOne)
  }
}
