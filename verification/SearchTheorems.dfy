/** What a search result says about the market. */
module SearchTheorems {
  import opened Common
  import opened Graph
  import opened Walks
  import opened Invariants
  import opened Completeness
  import opened Chains
  import opened Ranking

  // ----- profit accounting -----

  /** Weight along a chain whose first edge was taken when `start` stood at `base` or above. */
  lemma ChainWeightFromBase(g: Market, start: Address, l: Labels, token: Address, p: seq<Edge>, base: real)
    requires IsWalk(g, p, start, token) && p != []
    requires forall i :: 0 <= i < |p| ==> Slack(l, p[i])
    requires p[0].to in l.dist && l.dist[p[0].to] >= base + p[0].weight
    ensures token in l.dist && Weight(p) <= l.dist[token] - base
  {
    assert p == [p[0]] + p[1..];
    WeightOfConcat([p[0]], p[1..]);
    WeightOfOne(p[0]);
    if |p| == 1 {
      assert IsWalk(g, p[1..], p[0].to, token);
    } else {
      SubWalk(g, p, start, token, 1, |p|);
      assert p[1..|p|] == p[1..];
      assert p[0].to == p[1].from;
    }
    Telescope(g, l, p[1..], p[0].to, token);
  }

  /** The true weight of a reported walk exceeds the reported total by at most what `start` itself
      was lowered. */
  lemma TrueProfitBound(g: Market, start: Address, maxHops: nat, minLogProfit: real,
                        c: Cycle, p: seq<Edge>, e: Edge)
    requires ValidMarket(g)
    requires Reported(g, Passes(g, Seeded(start), maxHops), start, minLogProfit, c, p, e)
    ensures
      var l := Passes(g, Seeded(start), maxHops);
      && start in l.dist
      && Weight(p + [e]) <= -c.logProfit - l.dist[start]
      && (l.dist[start] == 0.0 ==> -Weight(p + [e]) >= c.logProfit > minLogProfit)
  {
    var l := Passes(g, Seeded(start), maxHops);
    SoundAfterPasses(g, start, maxHops);
    ChainIsWalk(g, start, l, e.from, MAX_CHAIN);
    Telescope(g, l, p, start, e.from);
    ExtendWalk(g, p, start, e);
  }

  /** Predecessor edges out of `start` were taken while `start` still stood at 0. */
  ghost predicate StartsFresh(l: Labels, start: Address) {
    forall v :: v in l.pred && l.pred[v].from == start ==> v in l.dist && l.dist[v] >= l.pred[v].weight
  }

  lemma {:induction false} ScanEdgesStartsFresh(l: Labels, start: Address, n: Address, d: real, es: seq<Edge>)
    requires StartsFresh(l, start) && (n == start ==> d == 0.0)
    requires forall i :: 0 <= i < |es| ==> es[i].from == n
    ensures StartsFresh(ScanEdges(l, d, es), start)
  {
    if es != [] {
      ScanEdgesStartsFresh(l, start, n, d, es[..|es| - 1]);
    }
  }

  /** In the first pass `start` is scanned at weight 0, whatever its place in the node list. */
  lemma {:induction false} FirstPassStartsFresh(g: Market, start: Address, i: nat)
    requires ValidMarket(g) && i <= |g.nodes|
    ensures
      var l := ScanNodes(g, Seeded(start), g.nodes[..i]);
      && StartsFresh(l, start)
      && (start !in g.nodes[..i] ==> l == Seeded(start))
  {
    if i > 0 {
      FirstPassStartsFresh(g, start, i - 1);
      var n := g.nodes[i - 1];
      var mid := ScanNodes(g, Seeded(start), g.nodes[..i - 1]);
      assert g.nodes[..i][..i - 1] == g.nodes[..i - 1];
      assert n !in g.nodes[..i - 1];
      if n in mid.dist {
        ScanEdgesStartsFresh(mid, start, n, mid.dist[n], g.adj[n]);
      }
    }
  }

  lemma OnePassStartsFresh(g: Market, start: Address, maxHops: nat)
    requires ValidMarket(g) && maxHops <= 1
    ensures StartsFresh(Passes(g, Seeded(start), maxHops), start)
  {
    if maxHops == 1 {
      FirstPassStartsFresh(g, start, |g.nodes|);
      assert g.nodes[..|g.nodes|] == g.nodes;
      assert Passes(g, Seeded(start), 0) == Seeded(start);
    }
  }

  /** Every walk the search reports makes at least the log profit it is reported with. */
  ghost predicate Honest(maxHops: nat) {
    forall g, start, minLogProfit, c, p, e ::
      ValidMarket(g) && Reported(g, Passes(g, Seeded(start), maxHops), start, minLogProfit, c, p, e)
      ==> -Weight(p + [e]) >= c.logProfit
  }

  lemma OnePassIsHonest(g: Market, start: Address, maxHops: nat, minLogProfit: real,
                        c: Cycle, p: seq<Edge>, e: Edge)
    requires ValidMarket(g) && maxHops <= 1
    requires Reported(g, Passes(g, Seeded(start), maxHops), start, minLogProfit, c, p, e)
    ensures -Weight(p + [e]) >= c.logProfit > minLogProfit
  {
    var l := Passes(g, Seeded(start), maxHops);
    SoundAfterPasses(g, start, maxHops);
    OnePassStartsFresh(g, start, maxHops);
    ChainIsWalk(g, start, l, e.from, MAX_CHAIN);
    ChainWeightFromBase(g, start, l, e.from, p, 0.0);
    ExtendWalk(g, p, start, e);
  }

  // ----- no false alarm -----

  ghost predicate ArbitrageFree(g: Market) {
    forall loop :: IsSimpleLoop(g, loop) ==> Weight(loop) >= 0.0
  }

  /** A report at a non-negative threshold proves that some simple loop of the market is negative. */
  lemma ReportMeansArbitrage(g: Market, start: Address, maxHops: nat, minLogProfit: real,
                             c: Cycle, p: seq<Edge>, e: Edge) returns (loop: seq<Edge>)
    requires ValidMarket(g) && minLogProfit >= 0.0
    requires Reported(g, Passes(g, Seeded(start), maxHops), start, minLogProfit, c, p, e)
    ensures IsSimpleLoop(g, loop) && Weight(loop) < 0.0
  {
    var l := Passes(g, Seeded(start), maxHops);
    SoundAfterPasses(g, start, maxHops);
    var es :| IsWalk(g, es, start, e.from) && Weight(es) == l.dist[e.from];
    ExtendWalk(g, es, start, e);
    loop := NegativeLoopInside(g, es + [e]);
  }

  /** On an arbitrage-free market nothing is reported, `start` is never lowered, and predecessors
      lead back to `start`. */
  lemma ArbitrageFreeMarketIsQuiet(g: Market, start: Address, maxHops: nat, minLogProfit: real)
    requires ValidMarket(g) && ArbitrageFree(g) && minLogProfit >= 0.0
    ensures
      var l := Passes(g, Seeded(start), maxHops);
      && (forall c :: !IsCandidate(g, l, start, minLogProfit, c))
      && start in l.dist && l.dist[start] == 0.0
      && (start in g.adj ==> forall v, fuel :: v in l.dist && |g.nodes| <= fuel + 1 ==>
            Chain(l, start, v, fuel).Some?)
  {
    var l := Passes(g, Seeded(start), maxHops);
    SoundAfterPasses(g, start, maxHops);
    forall c ensures !IsCandidate(g, l, start, minLogProfit, c) {
      if p, e :| Reported(g, l, start, minLogProfit, c, p, e) {
        var loop := ReportMeansArbitrage(g, start, maxHops, minLogProfit, c, p, e);
      }
    }
    var es :| IsWalk(g, es, start, start) && Weight(es) == l.dist[start];
    if l.dist[start] < 0.0 {
      var loop := NegativeLoopInside(g, es);
    }
    if start in g.adj {
      forall v, fuel: nat | v in l.dist && |g.nodes| <= fuel + 1 ensures Chain(l, start, v, fuel).Some? {
        ChainReachesStart(g, start, l, v, fuel);
      }
    }
  }

  // ----- completeness of the result -----

  /** A cycle through `start`, within the hop budget, whose profit clears the threshold. */
  ghost predicate ProfitableCycle(g: Market, start: Address, maxHops: nat, minLogProfit: real, cycle: seq<Edge>) {
    && IsWalk(g, cycle, start, start)
    && 2 <= |cycle| <= maxHops + 1
    && cycle[|cycle| - 1].from != start
    && Weight(cycle) < -minLogProfit
  }

  /** When no loop away from `start` is negative and the chain guard cannot bite, every profitable
      cycle through `start` within the hop budget yields a report at least as profitable. */
  lemma ProfitableCycleIsReported(g: Market, start: Address, maxHops: nat, cycle: seq<Edge>, minLogProfit: real)
    returns (c: Cycle)
    requires ValidMarket(g) && NoNegativeLoopAvoiding(g, start) && |g.nodes| <= MAX_CHAIN + 1
    requires ProfitableCycle(g, start, maxHops, minLogProfit, cycle)
    ensures IsCandidate(g, Passes(g, Seeded(start), maxHops), start, minLogProfit, c)
    ensures c.logProfit >= -Weight(cycle)
  {
    var l := Passes(g, Seeded(start), maxHops);
    var e := cycle[|cycle| - 1];
    ClosingTestSeesEveryCycle(g, start, maxHops, cycle, minLogProfit);
    SoundAfterPasses(g, start, maxHops);
    ChainReachesStart(g, start, l, e.from, MAX_CHAIN);
    var p := Chain(l, start, e.from, MAX_CHAIN).value;
    c := Cycle(RouteOf(p + [e]), -(l.dist[e.from] + e.weight));
    assert Reported(g, l, start, minLogProfit, c, p, e);
  }

  // ----- the ranked result -----

  /** Routes that really trade `start` back into itself through distinct tokens. */
  ghost predicate GenuineCycles(start: Address, out: seq<Cycle>) {
    forall c :: c in out ==>
      && c.route.SimpleCycle() && c.route.Connected()
      && 2 <= |c.route.hops| <= 17 && c.route.hops[0].tokenIn == start
  }

  lemma CandidatesAreGenuine(g: Market, start: Address, maxHops: nat, minLogProfit: real, out: seq<Cycle>)
    requires ValidMarket(g)
    requires forall c :: c in out ==> IsCandidate(g, Passes(g, Seeded(start), maxHops), start, minLogProfit, c)
    ensures GenuineCycles(start, out)
  {
    var l := Passes(g, Seeded(start), maxHops);
    SoundAfterPasses(g, start, maxHops);
    forall c | c in out
      ensures c.route.SimpleCycle() && c.route.Connected()
      ensures 2 <= |c.route.hops| <= 17 && c.route.hops[0].tokenIn == start
    {
      var p, e :| Reported(g, l, start, minLogProfit, c, p, e);
      ReportedRouteIsSimpleCycle(g, l, start, minLogProfit, c, p, e);
    }
  }

  /** Soundness and completeness of what `find_cycles` returns. */
  lemma ResultGuarantees(g: Market, start: Address, maxHops: nat, minLogProfit: real, limit: nat,
                         cycles: seq<Cycle>, out: seq<Cycle>)
    requires ValidMarket(g) && limit > 0 && IsRanking(out, cycles, limit)
    requires forall c :: c in cycles <==> IsCandidate(g, Passes(g, Seeded(start), maxHops), start, minLogProfit, c)
    ensures GenuineCycles(start, out)
    ensures ArbitrageFree(g) && minLogProfit >= 0.0 ==> out == []
    ensures NoNegativeLoopAvoiding(g, start) && |g.nodes| <= MAX_CHAIN + 1 ==>
              forall cycle :: ProfitableCycle(g, start, maxHops, minLogProfit, cycle)
                              ==> out != [] && out[0].logProfit >= -Weight(cycle)
  {
    CandidatesAreGenuine(g, start, maxHops, minLogProfit, out);
    if ArbitrageFree(g) && minLogProfit >= 0.0 {
      if out != [] {
        var c := out[0];
        assert c in out;
        var p, e :| Reported(g, Passes(g, Seeded(start), maxHops), start, minLogProfit, c, p, e);
        var loop := ReportMeansArbitrage(g, start, maxHops, minLogProfit, c, p, e);
      }
    }
    if NoNegativeLoopAvoiding(g, start) && |g.nodes| <= MAX_CHAIN + 1 {
      forall cycle | ProfitableCycle(g, start, maxHops, minLogProfit, cycle)
        ensures out != [] && out[0].logProfit >= -Weight(cycle)
      {
        var c := ProfitableCycleIsReported(g, start, maxHops, cycle, minLogProfit);
        RankingHasBest(out, cycles, limit, c);
      }
    }
  }
}
