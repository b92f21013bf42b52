/** A ring of tokens longer than the guard in `reconstruct` can follow: how many tokens a market may
    have for the search to be complete. */
module RingExample {
  import opened Common
  import opened Types
  import opened Graph
  import opened Walks
  import opened Invariants
  import opened Chains
  import opened Completeness
  import opened SearchTheorems

  /** Tokens told apart by the length of their names. */
  function Token(i: nat): (t: Address)
    ensures |t| == i
  {
    seq(i, k => 't')
  }

  function PoolBetween(i: nat, j: nat): PoolRef {
    PoolRef(1, Token(i + j), V2, Token(i), Token(j), 30)
  }

  function Forward(i: nat): Edge {
    Edge(Token(i), Token(i + 1), PoolBetween(i, i + 1), -1.0)
  }

  function Backward(i: nat, back: real): Edge {
    Edge(Token(i + 1), Token(i), PoolBetween(i, i + 1), back)
  }

  function Closing(n: nat): Edge
    requires n > 0
  {
    Edge(Token(n - 1), Token(0), PoolBetween(n - 1, 0), 1.0)
  }

  function Opening(n: nat, back: real): Edge
    requires n > 0
  {
    Edge(Token(0), Token(n - 1), PoolBetween(n - 1, 0), back)
  }

  /** `m` pools in a row: a step forward gains 1, a step back costs `back`. */
  function Line(m: nat, back: real): Market
    decreases m
  {
    if m == 0 then EMPTY_MARKET else WithPool(Line(m - 1, back), PoolBetween(m - 1, m), -1.0, back)
  }

  /** The row of `n` tokens closed to a ring: the closing step costs 1. */
  function Ring(n: nat, back: real): Market
    requires n > 0
  {
    WithPool(Line(n - 1, back), PoolBetween(n - 1, 0), 1.0, back)
  }

  ghost predicate OnLine(e: Edge, m: nat, back: real) {
    exists i: nat :: i < m && (e == Forward(i) || e == Backward(i, back))
  }

  ghost predicate OnRing(e: Edge, n: nat, back: real)
    requires n > 0
  {
    OnLine(e, n - 1, back) || e == Closing(n) || e == Opening(n, back)
  }

  ghost predicate IsToken(t: Address, n: nat) {
    |t| < n && t == Token(|t|)
  }

  lemma {:induction false} LineIsValid(m: nat, back: real)
    ensures ValidMarket(Line(m, back))
    ensures forall e :: HasEdge(Line(m, back), e) <==> OnLine(e, m, back)
    ensures m > 0 ==> forall t :: t in Line(m, back).nodes <==> IsToken(t, m + 1)
    decreases m
  {
    if m > 0 {
      var shorter := Line(m - 1, back);
      LineIsValid(m - 1, back);
      WithPoolAddsItsEdges(shorter, PoolBetween(m - 1, m), -1.0, back);
      forall e ensures HasEdge(Line(m, back), e) <==> OnLine(e, m, back) {
        LineGrows(e, m, back);
      }
      TokensGrow(shorter.nodes, Line(m, back).nodes, m);
    }
  }

  lemma TokensGrow(shorter: seq<Address>, nodes: seq<Address>, m: nat)
    requires m > 0 && (m > 1 ==> forall t :: t in shorter <==> IsToken(t, m)) && (m == 1 ==> shorter == [])
    requires forall t :: t in nodes <==> t in shorter || t == Token(m - 1) || t == Token(m)
    ensures forall t :: t in nodes <==> IsToken(t, m + 1)
  {
    forall t ensures t in nodes <==> IsToken(t, m + 1) {
      assert |Token(m - 1)| == m - 1 && |Token(m)| == m && |Token(0)| == 0;
      assert m > 1 ==> (t in shorter <==> IsToken(t, m));
    }
  }

  lemma LineGrows(e: Edge, m: nat, back: real)
    requires m > 0
    ensures OnLine(e, m, back) <==> OnLine(e, m - 1, back) || e == Forward(m - 1) || e == Backward(m - 1, back)
  {
    if OnLine(e, m, back) {
      var i: nat :| i < m && (e == Forward(i) || e == Backward(i, back));
    }
  }

  lemma TokensAreCounted(nodes: seq<Address>, n: nat)
    requires NoDuplicates(nodes) && forall t :: t in nodes <==> IsToken(t, n)
    ensures |nodes| == n
  {
    var tokens := seq(n, i requires i >= 0 => Token(i));
    forall i | 0 <= i < |nodes| ensures nodes[i] in tokens {
      assert IsToken(nodes[i], n);
      assert tokens[|nodes[i]|] == nodes[i];
    }
    forall i | 0 <= i < |tokens| ensures tokens[i] in nodes {
      assert IsToken(tokens[i], n);
    }
    assert NoDuplicates(tokens) by {
      forall i, j | 0 <= i < j < n ensures tokens[i] != tokens[j] {
        assert |tokens[i]| == i && |tokens[j]| == j;
      }
    }
    NoDuplicatesNoLonger(nodes, tokens);
    NoDuplicatesNoLonger(tokens, nodes);
  }

  /** `g` is a ring of `n` tokens. */
  ghost predicate IsRing(g: Market, n: nat, back: real) {
    && n >= 2 && ValidMarket(g) && |g.nodes| == n
    && forall e :: HasEdge(g, e) <==> OnRing(e, n, back)
  }

  lemma TokensOfRing(line: seq<Address>, nodes: seq<Address>, n: nat)
    requires n >= 2 && forall t :: t in line <==> IsToken(t, n)
    requires forall t :: t in nodes <==> t in line || t == Token(n - 1) || t == Token(0)
    ensures forall t :: t in nodes <==> IsToken(t, n)
  {
    assert |Token(0)| == 0 && |Token(n - 1)| == n - 1;
  }

  lemma RingIsRing(n: nat, back: real)
    requires n >= 2
    ensures IsRing(Ring(n, back), n, back)
  {
    LineIsValid(n - 1, back);
    CloseLine(Line(n - 1, back), n, back);
  }

  lemma CloseLine(line: Market, n: nat, back: real)
    requires n >= 2 && ValidMarket(line) && forall t :: t in line.nodes <==> IsToken(t, n)
    requires forall e :: HasEdge(line, e) <==> OnLine(e, n - 1, back)
    ensures IsRing(WithPool(line, PoolBetween(n - 1, 0), 1.0, back), n, back)
  {
    var g := WithPool(line, PoolBetween(n - 1, 0), 1.0, back);
    PoolAddsTokens(line, g, PoolBetween(n - 1, 0), 1.0, back);
    TokensOfRing(line.nodes, g.nodes, n);
    TokensAreCounted(g.nodes, n);
    PoolAddsEdges(line, g, PoolBetween(n - 1, 0), 1.0, back);
    RingEdges(line, g, n, back);
  }

  lemma PoolAddsTokens(g: Market, g': Market, pool: PoolRef, weight01: real, weight10: real)
    requires ValidMarket(g) && g' == WithPool(g, pool, weight01, weight10)
    ensures ValidMarket(g') && NoDuplicates(g'.nodes)
    ensures forall n :: n in g'.nodes <==> n in g.nodes || n == pool.token0 || n == pool.token1
  {
    WithPoolAddsItsEdges(g, pool, weight01, weight10);
  }

  lemma PoolAddsEdges(g: Market, g': Market, pool: PoolRef, weight01: real, weight10: real)
    requires ValidMarket(g) && g' == WithPool(g, pool, weight01, weight10)
    ensures forall e :: HasEdge(g', e) <==>
              || HasEdge(g, e)
              || e == Edge(pool.token0, pool.token1, pool, weight01)
              || e == Edge(pool.token1, pool.token0, pool, weight10)
  {
    WithPoolAddsItsEdges(g, pool, weight01, weight10);
  }

  lemma RingEdges(line: Market, g: Market, n: nat, back: real)
    requires n >= 2 && forall e :: HasEdge(line, e) <==> OnLine(e, n - 1, back)
    requires forall e :: HasEdge(g, e) <==> HasEdge(line, e) || e == Closing(n) || e == Opening(n, back)
    ensures forall e :: HasEdge(g, e) <==> OnRing(e, n, back)
  {
  }

  // ----- walks of the ring -----

  function Ahead(i: nat): (es: seq<Edge>)
    ensures |es| == i
  {
    if i == 0 then [] else Ahead(i - 1) + [Forward(i - 1)]
  }

  lemma {:induction false} AheadIsWalk(g: Market, n: nat, back: real, i: nat)
    requires IsRing(g, n, back) && i < n
    ensures IsWalk(g, Ahead(i), Token(0), Token(i)) && Weight(Ahead(i)) == -(i as real)
  {
    if i > 0 {
      AheadIsWalk(g, n, back, i - 1);
      assert OnLine(Forward(i - 1), n - 1, back);
      ExtendWalk(g, Ahead(i - 1), Token(0), Forward(i - 1));
    }
  }

  /** All the way round gains n - 2. */
  lemma LapIsProfitable(g: Market, n: nat, back: real)
    requires IsRing(g, n, back) && n > 2
    ensures ProfitableCycle(g, Token(0), n - 1, 0.0, Ahead(n - 1) + [Closing(n)])
    ensures Weight(Ahead(n - 1) + [Closing(n)]) == 2.0 - n as real
  {
    AheadIsWalk(g, n, back, n - 1);
    ExtendWalk(g, Ahead(n - 1), Token(0), Closing(n));
    assert |Token(0)| == 0 && |Token(n - 1)| == n - 1;
  }

  // ----- no loop away from the first token is negative -----

  function Height(t: Address): real {
    |t| as real
  }

  ghost predicate NoSteeper(e: Edge) {
    e.weight >= Height(e.from) - Height(e.to)
  }

  /** A walk costs at least the height it loses, if each of its edges does. */
  lemma {:induction false} WalkCostsHeight(g: Market, p: seq<Edge>, a: Address, b: Address)
    requires IsWalk(g, p, a, b) && forall i :: 0 <= i < |p| ==> NoSteeper(p[i])
    ensures Weight(p) >= Height(a) - Height(b)
  {
    if p != [] {
      var n := |p| - 1;
      assert IsWalk(g, p[..n], a, p[n].from);
      WalkCostsHeight(g, p[..n], a, p[n].from);
    }
  }

  lemma EdgesAreNoSteeper(n: nat, back: real, e: Edge)
    requires n > 0 && back >= 1.0 && OnRing(e, n, back) && e.from != Token(0) && e.to != Token(0)
    ensures NoSteeper(e)
  {
    if i: nat :| i < n - 1 && (e == Forward(i) || e == Backward(i, back)) {
      assert (i + 1) as real == i as real + 1.0;
    }
  }

  lemma RingHasNoLoopElsewhere(g: Market, n: nat, back: real)
    requires IsRing(g, n, back) && back >= 1.0
    ensures NoNegativeLoopAvoiding(g, Token(0))
  {
    forall c: seq<Edge> | IsSimpleLoop(g, c) && Avoids(c, Token(0)) ensures Weight(c) >= 0.0 {
      forall i | 0 <= i < |c| ensures NoSteeper(c[i]) {
        assert HasEdge(g, c[i]);
        var last := if i == 0 then |c| - 1 else i - 1;
        assert c[i].from == c[last].to;
        EdgesAreNoSteeper(n, back, c[i]);
      }
      WalkCostsHeight(g, c, c[0].from, c[0].from);
    }
  }

  // ----- how far the labels can fall -----

  ghost predicate AllAtLeast(l: Labels, b: real) {
    forall v :: v in l.dist ==> l.dist[v] >= b
  }

  ghost predicate GainsAtMostOne(g: Market) {
    forall e :: HasEdge(g, e) ==> e.weight >= -1.0
  }

  lemma {:induction false} ScanEdgesFalls(g: Market, l: Labels, d: real, es: seq<Edge>, b: real)
    requires GainsAtMostOne(g) && AllAtLeast(l, b) && d >= b + 1.0
    requires forall i :: 0 <= i < |es| ==> HasEdge(g, es[i])
    ensures AllAtLeast(ScanEdges(l, d, es), b)
  {
    if es != [] {
      ScanEdgesFalls(g, l, d, es[..|es| - 1], b);
    }
  }

  /** Scanning one token lowers the least distance by at most 1. */
  lemma {:induction false} ScanNodesFall(g: Market, l: Labels, ns: seq<Address>, b: real)
    requires ValidMarket(g) && GainsAtMostOne(g) && AllAtLeast(l, b)
    ensures AllAtLeast(ScanNodes(g, l, ns), b - |ns| as real)
  {
    if ns != [] {
      var last := |ns| - 1;
      ScanNodesFall(g, l, ns[..last], b);
      var mid := ScanNodes(g, l, ns[..last]);
      assert |ns| as real == last as real + 1.0;
      if ns[last] in mid.dist && ns[last] in g.adj {
        ScanEdgesFalls(g, mid, mid.dist[ns[last]], g.adj[ns[last]], b - |ns| as real);
      }
    }
  }

  /** How far `k` passes over `n` tokens can fall. */
  function Depth(k: nat, n: nat): nat {
    if k == 0 then 0 else Depth(k - 1, n) + n
  }

  lemma {:induction false} PassesFall(g: Market, start: Address, k: nat)
    requires ValidMarket(g) && GainsAtMostOne(g)
    ensures AllAtLeast(Passes(g, Seeded(start), k), -(Depth(k, |g.nodes|) as real))
  {
    if k > 0 {
      PassesFall(g, start, k - 1);
      ScanNodesFall(g, Passes(g, Seeded(start), k - 1), g.nodes, -(Depth(k - 1, |g.nodes|) as real));
    }
  }

  // ----- the search on the ring -----

  /** A step back that no search of n - 1 passes can pay for. */
  function Prohibitive(n: nat): real
    requires n > 0
  {
    (Depth(n - 1, n) + 1) as real
  }

  ghost predicate Reached(l: Labels, i: nat) {
    Token(i) in l.dist && l.dist[Token(i)] <= -(i as real)
  }

  /** What is known of the labels after n - 1 passes over the ring. */
  ghost predicate Explored(g: Market, l: Labels, n: nat, back: real) {
    && IsRing(g, n, back)
    && PredOk(g, l) && Rooted(l, Token(0))
    && AllAtLeast(l, 1.0 - back)
    && forall i: nat :: i < n ==> Reached(l, i)
  }

  lemma BoundedMeansReached(g: Market, l: Labels, n: nat, back: real, i: nat)
    requires IsRing(g, n, back) && BoundsWalks(g, Token(0), l, n - 1) && i < n
    ensures Reached(l, i)
  {
    AheadIsWalk(g, n, back, i);
    assert |Ahead(i)| <= n - 1;
  }

  lemma RingGainsAtMostOne(g: Market, n: nat, back: real)
    requires IsRing(g, n, back) && back >= 1.0
    ensures GainsAtMostOne(g)
  {
    forall e | HasEdge(g, e) ensures e.weight >= -1.0 {
      assert OnRing(e, n, back);
    }
  }

  lemma RingFalls(g: Market, n: nat, maxHops: nat)
    requires n >= 2 && maxHops == n - 1 && IsRing(g, n, Prohibitive(n))
    ensures AllAtLeast(Passes(g, Seeded(Token(0)), maxHops), 1.0 - Prohibitive(n))
  {
    RingGainsAtMostOne(g, n, Prohibitive(n));
    PassesFall(g, Token(0), maxHops);
  }

  lemma RingIsReached(g: Market, n: nat, maxHops: nat)
    requires maxHops + 1 == n && IsRing(g, n, Prohibitive(n))
    ensures forall i: nat :: i < n ==> Reached(Passes(g, Seeded(Token(0)), maxHops), i)
  {
    PassesBoundWalks(g, Token(0), maxHops);
    var l := Passes(g, Seeded(Token(0)), maxHops);
    forall i: nat | i < n ensures Reached(l, i) {
      BoundedMeansReached(g, l, n, Prohibitive(n), i);
    }
  }

  lemma RingIsExplored(g: Market, n: nat, maxHops: nat)
    requires n >= 2 && maxHops == n - 1 && IsRing(g, n, Prohibitive(n))
    ensures Explored(g, Passes(g, Seeded(Token(0)), maxHops), n, Prohibitive(n))
  {
    SoundAfterPasses(g, Token(0), maxHops);
    RingFalls(g, n, maxHops);
    RingIsReached(g, n, maxHops);
  }

  /** Every token but the first was last lowered from the token before it. */
  lemma PredecessorIsBefore(g: Market, l: Labels, n: nat, back: real, i: nat)
    requires Explored(g, l, n, back) && 0 < i < n
    ensures Token(i) in l.pred && l.pred[Token(i)] == Forward(i - 1)
  {
    assert Reached(l, i) && RootedAt(l, Token(0), Token(i));
    assert |Token(i)| == i && |Token(0)| == 0;
    var e := l.pred[Token(i)];
    assert HasEdge(g, e) && Slack(l, e);
    CheapIncoming(e, n, back, i);
  }

  /** Of the edges into a token other than the first, only the one from the token before is cheap. */
  lemma CheapIncoming(e: Edge, n: nat, back: real, i: nat)
    requires 0 < i < n && OnRing(e, n, back) && e.to == Token(i) && e.weight < back
    ensures e == Forward(i - 1)
  {
    assert |Token(i)| == i && |Token(0)| == 0;
    if j: nat :| j < n - 1 && (e == Forward(j) || e == Backward(j, back)) {
      assert |Token(j + 1)| == j + 1;
    }
  }

  /** The chain of the i-th token needs i steps. */
  lemma {:induction false} ChainTooLong(g: Market, l: Labels, n: nat, back: real, i: nat, fuel: nat)
    requires Explored(g, l, n, back) && fuel < i < n
    ensures Chain(l, Token(0), Token(i), fuel).None?
    decreases fuel
  {
    assert |Token(i)| == i && |Token(0)| == 0;
    PredecessorIsBefore(g, l, n, back, i);
    if fuel > 0 {
      ChainTooLong(g, l, n, back, i - 1, fuel - 1);
    }
  }

  /** Only the closing edge leads cheaply into the first token. */
  lemma CheapClosing(e: Edge, n: nat, back: real)
    requires n >= 2 && OnRing(e, n, back) && e.to == Token(0) && e.weight < back
    ensures e == Closing(n)
  {
    assert |Token(0)| == 0 && |Token(n - 1)| == n - 1;
    if j: nat :| j < n - 1 && (e == Forward(j) || e == Backward(j, back)) {
      assert |Token(j + 1)| == j + 1;
    }
  }

  lemma RingReportsNothing(g: Market, l: Labels, n: nat, back: real, c: Cycle, p: seq<Edge>, e: Edge)
    requires Explored(g, l, n, back) && n > MAX_CHAIN + 1
    ensures !Reported(g, l, Token(0), 0.0, c, p, e)
  {
    ChainTooLong(g, l, n, back, n - 1, MAX_CHAIN);
    if HasEdge(g, e) && e.to == Token(0) && e.weight < back {
      CheapClosing(e, n, back);
    }
  }

  /** On a ring of more than 17 tokens nothing is reported, although no loop away from `start` is
      negative and the lap through all tokens gains n - 2 within the hop budget. */
  lemma LongRingIsMissed(n: nat) returns (g: Market, start: Address, maxHops: nat, cycle: seq<Edge>)
    requires n > MAX_CHAIN + 1
    ensures ValidMarket(g) && |g.nodes| == n && NoNegativeLoopAvoiding(g, start) && maxHops == n - 1
    ensures ProfitableCycle(g, start, maxHops, 0.0, cycle) && Weight(cycle) == 2.0 - n as real
    ensures forall c, p, e :: !Reported(g, Passes(g, Seeded(start), maxHops), start, 0.0, c, p, e)
  {
    var back := Prohibitive(n);
    g, start, maxHops, cycle := Ring(n, back), Token(0), n - 1, Ahead(n - 1) + [Closing(n)];
    RingIsRing(n, back);
    RingHasNoLoopElsewhere(g, n, back);
    LapIsProfitable(g, n, back);
    RingIsExplored(g, n, maxHops);
    forall c, p, e ensures !Reported(g, Passes(g, Seeded(start), maxHops), start, 0.0, c, p, e) {
      RingReportsNothing(g, Passes(g, Seeded(start), maxHops), n, back, c, p, e);
    }
  }

  /** On every market of `n` tokens with no negative loop away from `start`, each profitable cycle
      within the hop budget yields a report at least as profitable. */
  ghost predicate CompleteOn(n: nat) {
    forall g, start, maxHops, minLogProfit, cycle ::
      && ValidMarket(g) && |g.nodes| == n && NoNegativeLoopAvoiding(g, start)
      && ProfitableCycle(g, start, maxHops, minLogProfit, cycle)
      ==> exists c :: IsCandidate(g, Passes(g, Seeded(start), maxHops), start, minLogProfit, c)
                      && c.logProfit >= -Weight(cycle)
  }

  /** The search is complete on markets of `n` tokens exactly up to the 17 that the guard in
      `reconstruct` can follow. */
  lemma CompleteExactlyUpToGuard(n: nat)
    ensures CompleteOn(n) <==> n <= 17
  {
    if n <= MAX_CHAIN + 1 {
      forall g, start, maxHops, minLogProfit, cycle |
        ValidMarket(g) && |g.nodes| == n && NoNegativeLoopAvoiding(g, start)
        && ProfitableCycle(g, start, maxHops, minLogProfit, cycle)
        ensures exists c :: IsCandidate(g, Passes(g, Seeded(start), maxHops), start, minLogProfit, c)
                            && c.logProfit >= -Weight(cycle)
      {
        var c := ProfitableCycleIsReported(g, start, maxHops, cycle, minLogProfit);
      }
    } else {
      var g, start, maxHops, cycle := LongRingIsMissed(n);
    }
  }
}
