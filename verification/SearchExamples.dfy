/** Two small markets on which the search departs from its own description. */
module SearchExamples {
  import opened Common
  import opened Types
  import opened Graph
  import opened Walks
  import opened Invariants
  import opened Chains
  import opened SearchTheorems

  lemma ScanOneEdge(l: Labels, d: real, e: Edge)
    ensures ScanEdges(l, d, [e]) == Lower(l, d, e)
  {
    assert [e][..0] == [];
  }

  lemma ScanTwoEdges(l: Labels, d: real, e: Edge, f: Edge)
    ensures ScanEdges(l, d, [e, f]) == Lower(Lower(l, d, e), d, f)
  {
    ScanOneEdge(l, d, e);
    assert [e, f][..1] == [e];
  }

  lemma ScanOneNode(g: Market, l: Labels, m: Address)
    ensures ScanNodes(g, l, [m]) == ScanNode(g, l, m)
  {
    assert [m][..0] == [];
  }

  lemma ScanTwoNodes(g: Market, l: Labels, m: Address, n: Address)
    ensures ScanNodes(g, l, [m, n]) == ScanNode(g, ScanNode(g, l, m), n)
  {
    ScanOneNode(g, l, m);
    assert [m, n][..1] == [m];
  }

  lemma WeightOfTwo(e: Edge, f: Edge)
    ensures Weight([e] + [f]) == e.weight + f.weight
  {
    WeightOfConcat([e], [f]);
    WeightOfOne(e);
    WeightOfOne(f);
  }

  /** A pool between two new tokens of an empty graph. */
  lemma FirstPool(pool: PoolRef, w01: real, w10: real)
    requires pool.token0 != pool.token1
    ensures
      var g := WithPool(EMPTY_MARKET, pool, w01, w10);
      && g.nodes == [pool.token0, pool.token1]
      && g.adj == map[pool.token0 := [Edge(pool.token0, pool.token1, pool, w01)],
                      pool.token1 := [Edge(pool.token1, pool.token0, pool, w10)]]
  {
    var e01 := Edge(pool.token0, pool.token1, pool, w01);
    var e10 := Edge(pool.token1, pool.token0, pool, w10);
    var g2 := WithNode(WithNode(EMPTY_MARKET, pool.token0), pool.token1);
    assert g2.adj == map[pool.token0 := [], pool.token1 := []];
    assert WithEdge(g2, e01).adj == map[pool.token0 := [] + [e01], pool.token1 := []];
    assert [] + [e01] == [e01] && [] + [e10] == [e10];
  }

  lemma LowerLowers(l: Labels, d: real, e: Edge)
    requires e.to !in l.dist || d + e.weight < l.dist[e.to]
    ensures Lower(l, d, e) == Labels(l.dist[e.to := d + e.weight], l.pred[e.to := e])
  {
  }

  lemma LowerKeeps(l: Labels, d: real, e: Edge)
    requires e.to in l.dist && d + e.weight >= l.dist[e.to]
    ensures Lower(l, d, e) == l
  {
  }

  // ----- a losing round trip reported as a profit -----

  datatype Pump = Pump(g: Market, a: Address, b: Address, out1: Edge, back1: Edge, out2: Edge, back2: Edge)
  {
    /** Two pools over the same two tokens.  Out through the first and back through the second gains
        2; out and back through the first loses 0.5. */
    ghost predicate Ok() {
      && ValidMarket(g) && a != b
      && g.nodes == [a, b]
      && g.adj == map[a := [out1, out2], b := [back1, back2]]
      && out1 == Edge(a, b, out1.pool, -3.0) && back1 == Edge(b, a, out1.pool, 3.5)
      && out2 == Edge(a, b, out2.pool, 1.0) && back2 == Edge(b, a, out2.pool, 1.0)
    }

    /** The labels after `k` passes. */
    function After(k: nat): Labels {
      if k == 0 then Seeded(a)
      else Labels(map[a := -2.0 * k as real, b := -1.0 - 2.0 * k as real], map[a := back2, b := out1])
    }
  }

  /** A second pool over the two tokens of a graph. */
  lemma ParallelPool(g1: Market, a: Address, b: Address, p2: PoolRef, out1: Edge, back1: Edge, w01: real, w10: real)
    requires a != b && p2.token0 == a && p2.token1 == b
    requires g1 == Market(map[a := [out1], b := [back1]], [a, b])
    ensures WithPool(g1, p2, w01, w10)
         == Market(map[a := [out1, Edge(a, b, p2, w01)], b := [back1, Edge(b, a, p2, w10)]], [a, b])
  {
    var e01, e10 := Edge(a, b, p2, w01), Edge(b, a, p2, w10);
    assert WithNode(WithNode(g1, a), b) == g1;
    assert [out1] + [e01] == [out1, e01] && [back1] + [e10] == [back1, e10];
  }

  lemma PumpExists() returns (m: Pump)
    ensures m.Ok()
  {
    var a, b := "A", "B";
    assert a[0] != b[0];
    var p1 := PoolRef(1, "p1", V2, a, b, 30);
    var p2 := PoolRef(1, "p2", V2, a, b, 30);
    var g1 := WithPool(EMPTY_MARKET, p1, -3.0, 3.5);
    WithPoolAddsItsEdges(EMPTY_MARKET, p1, -3.0, 3.5);
    FirstPool(p1, -3.0, 3.5);
    WithPoolAddsItsEdges(g1, p2, 1.0, 1.0);
    m := Pump(WithPool(g1, p2, 1.0, 1.0), a, b,
              Edge(a, b, p1, -3.0), Edge(b, a, p1, 3.5), Edge(a, b, p2, 1.0), Edge(b, a, p2, 1.0));
    ParallelPool(g1, a, b, p2, m.out1, m.back1, 1.0, 1.0);
  }

  lemma PumpOut(m: Pump, l: Labels, x: real)
    requires m.Ok() && m.a in l.dist && l.dist[m.a] == x && (m.b in l.dist ==> l.dist[m.b] > x - 3.0)
    ensures ScanNode(m.g, l, m.a) == Labels(l.dist[m.b := x - 3.0], l.pred[m.b := m.out1])
  {
    ScanTwoEdges(l, x, m.out1, m.out2);
    LowerLowers(l, x, m.out1);
    LowerKeeps(Lower(l, x, m.out1), x, m.out2);
  }

  lemma PumpBack(m: Pump, l: Labels, x: real)
    requires m.Ok() && m.a in l.dist && l.dist[m.a] == x && m.b in l.dist && l.dist[m.b] == x - 3.0
    ensures ScanNode(m.g, l, m.b) == Labels(l.dist[m.a := x - 2.0], l.pred[m.a := m.back2])
  {
    ScanTwoEdges(l, x - 3.0, m.back1, m.back2);
    LowerKeeps(l, x - 3.0, m.back1);
    LowerLowers(l, x - 3.0, m.back2);
  }

  lemma PumpTour(m: Pump, l: Labels)
    requires m.Ok()
    ensures Pass(m.g, l) == ScanNode(m.g, ScanNode(m.g, l, m.a), m.b)
  {
    ScanTwoNodes(m.g, l, m.a, m.b);
  }

  lemma PumpRound(m: Pump, l: Labels, x: real)
    requires m.Ok() && m.a in l.dist && l.dist[m.a] == x && (m.b in l.dist ==> l.dist[m.b] > x - 3.0)
    requires l.dist.Keys <= {m.a, m.b} && l.pred.Keys <= {m.a, m.b}
    ensures Pass(m.g, l) == Labels(map[m.a := x - 2.0, m.b := x - 3.0], map[m.a := m.back2, m.b := m.out1])
  {
    PumpTour(m, l);
    PumpOut(m, l, x);
    var mid := Labels(l.dist[m.b := x - 3.0], l.pred[m.b := m.out1]);
    PumpBack(m, mid, x);
    assert mid.dist[m.a := x - 2.0] == map[m.a := x - 2.0, m.b := x - 3.0];
    assert mid.pred[m.a := m.back2] == map[m.a := m.back2, m.b := m.out1];
  }

  lemma PumpOnce(m: Pump, k: nat)
    requires m.Ok()
    ensures Pass(m.g, m.After(k)) == m.After(k + 1)
  {
    assert (k + 1) as real == k as real + 1.0;
    PumpRound(m, m.After(k), -2.0 * k as real);
  }

  /** Each pass laps the profitable cycle once more. */
  lemma {:induction false} PumpLabels(m: Pump, k: nat)
    requires m.Ok()
    ensures Passes(m.g, Seeded(m.a), k) == m.After(k)
  {
    if k > 0 {
      PumpLabels(m, k - 1);
      PumpOnce(m, k - 1);
    }
  }

  /** From two passes on, the losing round trip through one pool is reported with a positive profit
      that grows with the number of passes. */
  lemma LosingRoundTripIsReported(k: nat) returns (g: Market, start: Address, c: Cycle, p: seq<Edge>, e: Edge)
    requires k >= 2
    ensures ValidMarket(g)
    ensures Reported(g, Passes(g, Seeded(start), k), start, 0.0, c, p, e)
    ensures c.logProfit == 2.0 * k as real - 2.5 > 0.0
    ensures Weight(p + [e]) == 0.5
  {
    var m := PumpExists();
    PumpLabels(m, k);
    var l := m.After(k);
    g, start, p, e := m.g, m.a, [m.out1], m.back1;
    c := Cycle(RouteOf(p + [e]), -(l.dist[m.b] + e.weight));
    assert g.adj[m.b][0] == m.back1;
    assert Chain(l, m.a, m.a, MAX_CHAIN - 1) == Some([]);
    assert Chain(l, m.a, m.b, MAX_CHAIN) == Some([] + [m.out1]);
    assert [] + [m.out1] == p;
    WeightOfTwo(m.out1, m.back1);
  }

  /** The reported log profit can be trusted on every market exactly when at most one pass is made. */
  lemma HonestExactlyUpToOnePass(maxHops: nat)
    ensures Honest(maxHops) <==> maxHops <= 1
  {
    if maxHops <= 1 {
      forall g, start, minLogProfit, c, p, e |
        ValidMarket(g) && Reported(g, Passes(g, Seeded(start), maxHops), start, minLogProfit, c, p, e)
        ensures -Weight(p + [e]) >= c.logProfit
      {
        OnePassIsHonest(g, start, maxHops, minLogProfit, c, p, e);
      }
    } else {
      var g, start, c, p, e := LosingRoundTripIsReported(maxHops);
    }
  }

  // ----- a profitable cycle that is missed -----

  datatype Eddy = Eddy(g: Market, a: Address, b: Address, c: Address, ab: Edge, ba: Edge, bc: Edge, cb: Edge)
  {
    /** a, b, a gains 1, but b, c, b away from a gains 5. */
    ghost predicate Ok() {
      && ValidMarket(g) && a != b && a != c && b != c
      && g.nodes == [a, b, c]
      && g.adj == map[a := [ab], b := [ba, bc], c := [cb]]
      && ab == Edge(a, b, ab.pool, 0.0) && ba == Edge(b, a, ab.pool, -1.0)
      && bc == Edge(b, c, bc.pool, -5.0) && cb == Edge(c, b, bc.pool, 0.0)
    }

    /** The labels after `k` passes. */
    function After(k: nat): Labels {
      if k == 0 then Seeded(a)
      else Labels(map[a := 4.0 - 5.0 * k as real, b := -5.0 * k as real, c := -5.0 * k as real],
                  map[a := ba, b := cb, c := bc])
    }
  }

  lemma SecondPool(g1: Market, a: Address, b: Address, c: Address, q2: PoolRef,
                   ab: Edge, ba: Edge, bc: Edge, cb: Edge)
    requires a != b && a != c && b != c && q2.token0 == b && q2.token1 == c
    requires bc == Edge(b, c, q2, bc.weight) && cb == Edge(c, b, q2, cb.weight)
    requires g1 == Market(map[a := [ab], b := [ba]], [a, b])
    ensures WithPool(g1, q2, bc.weight, cb.weight)
         == Market(map[a := [ab], b := [ba, bc], c := [cb]], [a, b, c])
  {
    var g2 := WithNode(WithNode(g1, b), c);
    assert g2.nodes == [a, b, c];
    assert g2.adj == map[a := [ab], b := [ba], c := []];
    var g3 := WithEdge(g2, bc);
    assert [ba] + [bc] == [ba, bc];
    assert g3.adj == map[a := [ab], b := [ba, bc], c := []];
    var g4 := WithEdge(g3, cb);
    assert [] + [cb] == [cb];
    assert g4.adj == map[a := [ab], b := [ba, bc], c := [cb]];
  }

  lemma EddyExists() returns (m: Eddy)
    ensures m.Ok()
  {
    var a, b, c := "A", "B", "C";
    assert a[0] != b[0] && a[0] != c[0] && b[0] != c[0];
    var q1 := PoolRef(1, "q1", V2, a, b, 30);
    var q2 := PoolRef(1, "q2", V2, b, c, 30);
    var g1 := WithPool(EMPTY_MARKET, q1, 0.0, -1.0);
    WithPoolAddsItsEdges(EMPTY_MARKET, q1, 0.0, -1.0);
    FirstPool(q1, 0.0, -1.0);
    WithPoolAddsItsEdges(g1, q2, -5.0, 0.0);
    m := Eddy(WithPool(g1, q2, -5.0, 0.0), a, b, c,
              Edge(a, b, q1, 0.0), Edge(b, a, q1, -1.0), Edge(b, c, q2, -5.0), Edge(c, b, q2, 0.0));
    SecondPool(g1, a, b, c, q2, m.ab, m.ba, m.bc, m.cb);
  }

  lemma EddyFromA(m: Eddy, l: Labels)
    requires m.Ok() && m.a in l.dist
    ensures ScanNode(m.g, l, m.a) ==
      if m.b !in l.dist || l.dist[m.a] < l.dist[m.b]
      then Labels(l.dist[m.b := l.dist[m.a]], l.pred[m.b := m.ab]) else l
  {
    ScanOneEdge(l, l.dist[m.a], m.ab);
  }

  lemma EddyFromB(m: Eddy, l: Labels, y: real)
    requires m.Ok() && m.b in l.dist && l.dist[m.b] == y
    requires m.a in l.dist && l.dist[m.a] > y - 1.0 && (m.c in l.dist ==> l.dist[m.c] > y - 5.0)
    ensures ScanNode(m.g, l, m.b)
         == Labels(l.dist[m.a := y - 1.0][m.c := y - 5.0], l.pred[m.a := m.ba][m.c := m.bc])
  {
    ScanTwoEdges(l, y, m.ba, m.bc);
    LowerLowers(l, y, m.ba);
    LowerLowers(Lower(l, y, m.ba), y, m.bc);
  }

  lemma EddyFromC(m: Eddy, l: Labels, y: real)
    requires m.Ok() && m.c in l.dist && l.dist[m.c] == y - 5.0 && m.b in l.dist && l.dist[m.b] > y - 5.0
    ensures ScanNode(m.g, l, m.c) == Labels(l.dist[m.b := y - 5.0], l.pred[m.b := m.cb])
  {
    ScanOneEdge(l, y - 5.0, m.cb);
    LowerLowers(l, y - 5.0, m.cb);
  }

  lemma EddyTour(m: Eddy, l: Labels)
    requires m.Ok()
    ensures Pass(m.g, l) == ScanNode(m.g, ScanNode(m.g, ScanNode(m.g, l, m.a), m.b), m.c)
  {
    assert [m.a, m.b, m.c][..2] == [m.a, m.b];
    ScanTwoNodes(m.g, l, m.a, m.b);
  }

  /** Whatever the labels of a and c, scanning b and then c leaves the next lap's labels. */
  lemma EddyRest(m: Eddy, l: Labels, y: real)
    requires m.Ok() && m.b in l.dist && l.dist[m.b] == y
    requires m.a in l.dist && l.dist[m.a] > y - 1.0 && (m.c in l.dist ==> l.dist[m.c] > y - 5.0)
    requires l.dist.Keys <= {m.a, m.b, m.c} && l.pred.Keys <= {m.a, m.b, m.c}
    ensures ScanNode(m.g, ScanNode(m.g, l, m.b), m.c)
         == Labels(map[m.a := y - 1.0, m.b := y - 5.0, m.c := y - 5.0], map[m.a := m.ba, m.b := m.cb, m.c := m.bc])
  {
    EddyFromB(m, l, y);
    EddyFromC(m, ScanNode(m.g, l, m.b), y);
    var l' := ScanNode(m.g, ScanNode(m.g, l, m.b), m.c);
    assert l'.dist == map[m.a := y - 1.0, m.b := y - 5.0, m.c := y - 5.0];
    assert l'.pred == map[m.a := m.ba, m.b := m.cb, m.c := m.bc];
  }

  lemma EddyOnce(m: Eddy, k: nat)
    requires m.Ok()
    ensures Pass(m.g, m.After(k)) == m.After(k + 1)
  {
    assert (k + 1) as real == k as real + 1.0;
    EddyTour(m, m.After(k));
    EddyFromA(m, m.After(k));
    EddyRest(m, ScanNode(m.g, m.After(k), m.a), -5.0 * k as real);
  }

  lemma {:induction false} EddyLabels(m: Eddy, k: nat)
    requires m.Ok()
    ensures Passes(m.g, Seeded(m.a), k) == m.After(k)
  {
    if k > 0 {
      EddyLabels(m, k - 1);
      EddyOnce(m, k - 1);
    }
  }

  lemma {:induction false} TwoCycleNeverReachesStart(l: Labels, start: Address, b: Address, c: Address, fuel: nat)
    requires b != start && c != start && b in l.pred && c in l.pred
    requires l.pred[b].from == c && l.pred[c].from == b
    ensures Chain(l, start, b, fuel) == None && Chain(l, start, c, fuel) == None
    decreases fuel
  {
    if fuel > 0 {
      TwoCycleNeverReachesStart(l, start, b, c, fuel - 1);
    }
  }

  lemma EddyReportsNothing(m: Eddy, k: nat, c: Cycle)
    requires m.Ok() && k > 0
    ensures !IsCandidate(m.g, m.After(k), m.a, 0.0, c)
  {
    TwoCycleNeverReachesStart(m.After(k), m.a, m.b, m.c, MAX_CHAIN);
  }

  lemma EddyWalks(m: Eddy)
    requires m.Ok()
    ensures IsWalk(m.g, [m.ab] + [m.ba], m.a, m.a) && Weight([m.ab] + [m.ba]) == -1.0
    ensures IsSimpleLoop(m.g, [m.bc] + [m.cb]) && Weight([m.bc] + [m.cb]) == -5.0
    ensures Avoids([m.bc] + [m.cb], m.a)
  {
    assert m.g.adj[m.a][0] == m.ab && m.g.adj[m.b][0] == m.ba;
    assert m.g.adj[m.b][1] == m.bc && m.g.adj[m.c][0] == m.cb;
    WeightOfTwo(m.ab, m.ba);
    WeightOfTwo(m.bc, m.cb);
  }

  /** Without the hypothesis that no loop away from `start` is negative, a profitable two-hop cycle
      goes unreported however many passes are made. */
  lemma LoopElsewhereHidesCycle(maxHops: nat) returns (g: Market, start: Address, cycle: seq<Edge>, loop: seq<Edge>)
    requires maxHops > 0
    ensures ValidMarket(g) && IsWalk(g, cycle, start, start) && |cycle| == 2 && Weight(cycle) == -1.0
    ensures forall c :: !IsCandidate(g, Passes(g, Seeded(start), maxHops), start, 0.0, c)
    ensures IsSimpleLoop(g, loop) && Avoids(loop, start) && Weight(loop) < 0.0
  {
    var m := EddyExists();
    EddyLabels(m, maxHops);
    EddyWalks(m);
    g, start, cycle, loop := m.g, m.a, [m.ab] + [m.ba], [m.bc] + [m.cb];
    forall c ensures !IsCandidate(g, Passes(g, Seeded(start), maxHops), start, 0.0, c) {
      EddyReportsNothing(m, maxHops, c);
    }
  }
}
